/** test-pmd/csumonly.c: copying a packet into a new chain of segments of configured lengths
    (mbuf_copy_split), and planning, allocating and freeing those segments (pkt_copy_split). */
module PktSplit {
  import opened Types
  import opened Sequences

  const ENOBUFS := 105
  const EINVAL := 22

  /** A destination mbuf: its data and the index of the mbuf its next pointer names, if any. */
  datatype Seg = Seg(data: seq<byte>, next: int)

  /** What the first mbuf of a packet says about the whole of it. */
  datatype Head = Head(nbSegs: nat, pktLen: nat, vlanTci: int, vlanTciOuter: int, olFlags: int, txOffload: int)

  const NO_NEXT := -1
  const FRESH := Seg([], NO_NEXT)

  function Concat(segs: seq<seq<byte>>): seq<byte> {
    if segs == [] then [] else segs[0] + Concat(segs[1..])
  }

  function Sum(lens: seq<nat>): nat {
    if lens == [] then 0 else lens[0] + Sum(lens[1..])
  }

  // ----- what the copy loop writes

  /** The source chain after n bytes of its first segment are used up. */
  function Advance(segs: seq<seq<byte>>, n: nat): seq<seq<byte>>
    requires segs != [] && n <= |segs[0]|
  {
    if n == |segs[0]| then segs[1..] else [segs[0][n..]] + segs[1..]
  }

  /** The destination segments: each takes what is left of the current source segment, up to its length. */
  function Chop(segs: seq<seq<byte>>, lens: seq<nat>): seq<seq<byte>>
    decreases lens
  {
    if segs == [] || lens == [] then [] else
      var n := Min(lens[0], |segs[0]|);
      [segs[0][..n]] + Chop(Advance(segs, n), lens[1..])
  }

  /** The part of the source for which there was no destination left. */
  function Leftover(segs: seq<seq<byte>>, lens: seq<nat>): seq<seq<byte>>
    decreases lens
  {
    if segs == [] || lens == [] then segs else
      Leftover(Advance(segs, Min(lens[0], |segs[0]|)), lens[1..])
  }

  lemma AdvanceConcat(segs: seq<seq<byte>>, n: nat)
    requires segs != [] && n <= |segs[0]|
    ensures Concat(segs) == segs[0][..n] + Concat(Advance(segs, n))
  {
    if n < |segs[0]| {
      var t := Advance(segs, n);
      assert t[1..] == segs[1..];
      assert segs[0] == segs[0][..n] + segs[0][n..];
      assert segs[0][..n] + (segs[0][n..] + Concat(segs[1..])) == segs[0] + Concat(segs[1..]);
    } else {
      assert segs[0][..n] == segs[0];
    }
  }

  /** Nothing is lost, repeated or reordered: the copied bytes and the leftover make up the packet. */
  lemma {:induction false} ChopConcat(segs: seq<seq<byte>>, lens: seq<nat>)
    ensures Concat(Chop(segs, lens)) + Concat(Leftover(segs, lens)) == Concat(segs)
    decreases lens
  {
    if segs != [] && lens != [] {
      var n := Min(lens[0], |segs[0]|);
      var rest := Advance(segs, n);
      ChopConcat(rest, lens[1..]);
      AdvanceConcat(segs, n);
      var out := Chop(rest, lens[1..]);
      assert ([segs[0][..n]] + out)[1..] == out;
      assert segs[0][..n] + Concat(out) + Concat(Leftover(rest, lens[1..])) == segs[0][..n] + Concat(rest);
    }
  }

  lemma {:induction false} ChopLengths(segs: seq<seq<byte>>, lens: seq<nat>)
    ensures |Chop(segs, lens)| <= |lens|
    ensures forall k :: 0 <= k < |Chop(segs, lens)| ==> |Chop(segs, lens)[k]| <= lens[k]
    ensures |Chop(segs, lens)| < |lens| ==> Leftover(segs, lens) == []
    decreases lens
  {
    if segs != [] && lens != [] {
      ChopLengths(Advance(segs, Min(lens[0], |segs[0]|)), lens[1..]);
    }
  }

  // ----- mbuf_copy_split

  /** The next pointer of the k-th of nbSeg segments. */
  function NextOf(k: nat, nbSeg: nat): int {
    if k + 1 == nbSeg then NO_NEXT else k + 1
  }

  ghost predicate Written(md: seq<Seg>, out: seq<seq<byte>>, nbSeg: nat) {
    && |out| <= nbSeg <= |md|
    && (forall k :: 0 <= k < |out| ==> md[k] == Seg(out[k], NextOf(k, nbSeg)))
    && (forall k :: |out| <= k < nbSeg ==> md[k] == FRESH)
  }

  function ReturnCode(segs: seq<seq<byte>>, pktLen: nat, lens: seq<nat>): int {
    if Leftover(segs, lens) != [] then -ENOBUFS
    else if |Concat(Chop(segs, lens))| != pktLen then -EINVAL
    else |lens|
  }

  /** What the code returned means: 105 (ENOBUFS) when part of the source found no destination, 22 (EINVAL) when all of
      it was copied but is not as long as the packet says, otherwise the number of segments. */
  lemma ReturnCodeIff(segs: seq<seq<byte>>, pktLen: nat, lens: seq<nat>)
    ensures ReturnCode(segs, pktLen, lens) == -105 <==> Leftover(segs, lens) != []
    ensures ReturnCode(segs, pktLen, lens) == -22 <==> Leftover(segs, lens) == [] && |Concat(segs)| != pktLen
    ensures ReturnCode(segs, pktLen, lens) >= 0 <==> ReturnCode(segs, pktLen, lens) == |lens|
  {
    ChopConcat(segs, lens);
  }

  /** The source cursor: segment ms of the chain, of which slen bytes are still to come if any were read. */
  function Rest(segs: seq<seq<byte>>, ms: nat, slen: nat): seq<seq<byte>>
    requires ms <= |segs| && (slen > 0 ==> ms < |segs| && slen <= |segs[ms]|)
  {
    if slen == 0 then segs[ms..] else [segs[ms][|segs[ms]| - slen..]] + segs[ms + 1..]
  }

  /** The loop has produced out for the first i lengths and still has to chop the rest of the source. */
  ghost predicate CopyState(segs: seq<seq<byte>>, lens: seq<nat>, ms: nat, slen: nat, i: nat, out: seq<seq<byte>>) {
    && ms <= |segs| && (slen > 0 ==> ms < |segs| && slen <= |segs[ms]|)
    && |out| == i <= |lens|
    && Chop(segs, lens) == out + Chop(Rest(segs, ms, slen), lens[i..])
    && Leftover(segs, lens) == Leftover(Rest(segs, ms, slen), lens[i..])
  }

  lemma ReloadedRest(segs: seq<seq<byte>>, ms: nat, slen: nat)
    requires ms < |segs| && slen <= |segs[ms]|
    ensures var l := if slen == 0 then |segs[ms]| else slen;
            Rest(segs, ms, slen) == [segs[ms][|segs[ms]| - l..]] + segs[ms + 1..]
  {
    if slen == 0 {
      assert segs[ms][0..] == segs[ms];
    }
  }

  lemma RestAdvance(segs: seq<seq<byte>>, ms: nat, l: nat, n: nat)
    requires ms < |segs| && n <= l <= |segs[ms]|
    ensures var r := [segs[ms][|segs[ms]| - l..]] + segs[ms + 1..];
            Advance(r, n) == if n == l then Rest(segs, ms + 1, 0) else Rest(segs, ms, l - n)
  {
    var r := [segs[ms][|segs[ms]| - l..]] + segs[ms + 1..];
    assert r[1..] == segs[ms + 1..];
    assert r[0][n..] == segs[ms][|segs[ms]| - (l - n)..];
  }

  lemma ChopUnfold(r: seq<seq<byte>>, lens: seq<nat>, i: nat, n: nat, out: seq<seq<byte>>)
    requires r != [] && i < |lens| && n == Min(lens[i], |r[0]|)
    ensures out + Chop(r, lens[i..]) == (out + [r[0][..n]]) + Chop(Advance(r, n), lens[i + 1..])
    ensures Leftover(r, lens[i..]) == Leftover(Advance(r, n), lens[i + 1..])
  {
    assert lens[i..][1..] == lens[i + 1..];
    var tail := Chop(Advance(r, n), lens[i + 1..]);
    assert Chop(r, lens[i..]) == [r[0][..n]] + tail;
    assert out + ([r[0][..n]] + tail) == (out + [r[0][..n]]) + tail;
  }

  lemma CopyDone(segs: seq<seq<byte>>, lens: seq<nat>, ms: nat, slen: nat, i: nat, out: seq<seq<byte>>)
    requires CopyState(segs, lens, ms, slen, i, out) && (ms == |segs| || i == |lens|)
    ensures out == Chop(segs, lens) && (Leftover(segs, lens) == [] <==> ms == |segs|)
  {
    var r := Rest(segs, ms, slen);
    assert ms == |segs| ==> r == [];
    assert Chop(r, lens[i..]) == [];
    assert out + [] == out;
  }

  lemma WriteStep(md: seq<Seg>, out: seq<seq<byte>>, nbSeg: nat, piece: seq<byte>)
    requires Written(md, out, nbSeg) && |out| < nbSeg
    ensures Written(md[|out| := Seg(piece, NextOf(|out|, nbSeg))], out + [piece], nbSeg)
  {
  }

  /** What one round copies, and where it leaves the source cursor. */
  ghost predicate Taken(segs: seq<seq<byte>>, ms: nat, slen: nat, seglen: nat, piece: seq<byte>, ms': nat, slen': nat)
    requires ms < |segs| && slen <= |segs[ms]|
  {
    var l := if slen == 0 then |segs[ms]| else slen;
    var n := Min(seglen, l);
    && piece == segs[ms][|segs[ms]| - l..][..n]
    && slen' == l - n && ms' == if n == l then ms + 1 else ms
  }

  /** One round of the loop keeps its state. */
  lemma CopyStep(segs: seq<seq<byte>>, lens: seq<nat>, ms: nat, slen: nat, i: nat, out: seq<seq<byte>>,
                 piece: seq<byte>, ms': nat, slen': nat)
    requires CopyState(segs, lens, ms, slen, i, out) && ms < |segs| && i < |lens|
    requires Taken(segs, ms, slen, lens[i], piece, ms', slen')
    ensures CopyState(segs, lens, ms', slen', i + 1, out + [piece])
  {
    var l := if slen == 0 then |segs[ms]| else slen;
    var n := Min(lens[i], l);
    var r := Rest(segs, ms, slen);
    ReloadedRest(segs, ms, slen);
    RestAdvance(segs, ms, l, n);
    ChopUnfold(r, lens, i, n, out);
    assert Advance(r, n) == Rest(segs, ms', slen') && piece == r[0][..n];
  }

  /** mbuf_copy_split; m is the head of the source and md0 that of the first destination segment. */
  method CopySplit(segs: seq<seq<byte>>, m: Head, md: array<Seg>, md0: Head, seglen: seq<nat>, nbSeg: nat)
    returns (rc: int, head: Head)
    requires segs != [] && nbSeg <= |seglen| && nbSeg <= md.Length
    requires forall k :: 0 <= k < nbSeg ==> md[k] == FRESH
    modifies md
    ensures rc == ReturnCode(segs, m.pktLen, seglen[..nbSeg])
    ensures Written(md[..], Chop(segs, seglen[..nbSeg]), nbSeg)
    ensures head == if rc >= 0 then m.(nbSegs := nbSeg) else md0
  {
    head := md0;
    var lens := seglen[..nbSeg];
    ghost var out: seq<seq<byte>> := [];
    var slen: nat, tlen: nat, ms: nat, i: nat := 0, 0, 0, 0;
    StartCopy(segs, lens);
    while ms < |segs| && i != nbSeg
      invariant i <= nbSeg && CopyState(segs, lens, ms, slen, i, out)
      invariant tlen == |Concat(out)| && Written(md[..], out, nbSeg)
      decreases nbSeg - i
    {
      var piece, ms', slen' := TakePiece(segs, ms, slen, lens[i]);
      CopyStep(segs, lens, ms, slen, i, out, piece, ms', slen');
      ConcatAppend(out, piece);
      WriteSegment(md, i, nbSeg, piece, out);
      out := out + [piece];
      tlen, slen, ms, i := tlen + |piece|, slen', ms', i + 1;
    }
    CopyDone(segs, lens, ms, slen, i, out);
    if ms < |segs| {
      rc := -ENOBUFS;
    } else if tlen != m.pktLen {
      rc := -EINVAL;
    } else {
      head := head.(nbSegs := nbSeg, pktLen := tlen, vlanTci := m.vlanTci, vlanTciOuter := m.vlanTciOuter);
      head := head.(olFlags := m.olFlags, txOffload := m.txOffload);
      rc := nbSeg;
    }
  }

  /** The destination side of one round. */
  method WriteSegment(md: array<Seg>, i: nat, nbSeg: nat, piece: seq<byte>, ghost out: seq<seq<byte>>)
    requires i == |out| < nbSeg && Written(md[..], out, nbSeg)
    modifies md
    ensures Written(md[..], out + [piece], nbSeg)
  {
    WriteStep(md[..], out, nbSeg, piece);
    ghost var before := md[..];
    md[i] := Seg(piece, if i + 1 == nbSeg then NO_NEXT else i + 1);
    assert md[..] == before[i := Seg(piece, NextOf(i, nbSeg))];
  }

  /** The source side of one round: load the next source segment if the last is used up, and take from it what the
      destination segment holds. */
  method TakePiece(segs: seq<seq<byte>>, ms0: nat, slen0: nat, seglen: nat)
    returns (piece: seq<byte>, ms: nat, slen: nat)
    requires ms0 < |segs| && slen0 <= |segs[ms0]|
    ensures Taken(segs, ms0, slen0, seglen, piece, ms, slen)
  {
    slen := slen0;
    if slen == 0 {
      slen := |segs[ms0]|;
    }
    var src := segs[ms0][|segs[ms0]| - slen..];
    var dlen := Min(seglen, slen);
    piece := src[..dlen];
    slen := slen - dlen;
    ms := if slen == 0 then ms0 + 1 else ms0;
  }

  lemma StartCopy(segs: seq<seq<byte>>, lens: seq<nat>)
    ensures CopyState(segs, lens, 0, 0, 0, [])
  {
    assert segs[0..] == segs && lens[0..] == lens;
    assert [] + Chop(segs, lens) == Chop(segs, lens);
  }

  lemma {:induction false} ConcatAppend(out: seq<seq<byte>>, x: seq<byte>)
    ensures Concat(out + [x]) == Concat(out) + x
  {
    if out == [] {
      assert out + [x] == [x];
      assert [x][1..] == [];
    } else {
      ConcatAppend(out[1..], x);
      assert (out + [x])[1..] == out[1..] + [x];
    }
  }

  // ----- the chain that comes out

  /** The bytes met by following next pointers from segment k. */
  ghost function ChainData(md: seq<Seg>, k: int, limit: nat): seq<byte>
    decreases limit
  {
    if limit == 0 || !(0 <= k < |md|) then [] else md[k].data + ChainData(md, md[k].next, limit - 1)
  }

  ghost function ChainLength(md: seq<Seg>, k: int, limit: nat): nat
    decreases limit
  {
    if limit == 0 || !(0 <= k < |md|) then 0 else 1 + ChainLength(md, md[k].next, limit - 1)
  }

  /** From segment k on, the chain runs through the written segments and, if one is left over, one empty one. */
  lemma {:induction false} ChainFrom(md: seq<Seg>, out: seq<seq<byte>>, nbSeg: nat, k: nat, limit: nat)
    requires Written(md, out, nbSeg) && k <= |out| && limit > nbSeg - k && (k == |out| ==> k < nbSeg)
    ensures ChainData(md, k, limit) == Concat(out[k..])
    ensures ChainLength(md, k, limit) == (if |out| < nbSeg then |out| + 1 else nbSeg) - k
    decreases |out| - k
  {
    if k == |out| {
      assert out[k..] == [];
      assert md[k] == FRESH;
    } else {
      assert md[k] == Seg(out[k], NextOf(k, nbSeg));
      assert out[k..][1..] == out[k + 1..];
      if k + 1 < nbSeg {
        ChainFrom(md, out, nbSeg, k + 1, limit - 1);
      } else {
        assert out[k + 1..] == [];
      }
    }
  }

  /** Split preserves content: after a successful copy the destination chain holds exactly the bytes of the source
      chain, and it has nb_segs segments exactly when at most one segment of the plan was not needed. */
  lemma SuccessfulCopy(segs: seq<seq<byte>>, pktLen: nat, md: seq<Seg>, lens: seq<nat>)
    requires segs != [] && Written(md, Chop(segs, lens), |lens|)
    requires ReturnCode(segs, pktLen, lens) > 0
    ensures ChainData(md, 0, |md| + 1) == Concat(segs) && |Concat(segs)| == pktLen
    ensures ChainLength(md, 0, |md| + 1) == |lens| <==> |Chop(segs, lens)| + 1 >= |lens|
    ensures ReturnCode(segs, pktLen, lens) == |lens|
  {
    var out := Chop(segs, lens);
    ChopConcat(segs, lens);
    ChopLengths(segs, lens);
    ChainFrom(md, out, |lens|, 0, |md| + 1);
    assert out[0..] == out;
  }

  // ----- planning the segments

  /** plan is what pkt_copy_split computes from the configured lengths: as many as it takes to reach the packet
      length, or all of them with the last one extended to hold the rest, in 16 bits. */
  ghost predicate PlanFor(plan: seq<nat>, lengths: seq<nat>, pktLen: nat) {
    var n := |plan|;
    && 0 < n <= |lengths| && plan[..n - 1] == lengths[..n - 1]
    && Sum(lengths[..n - 1]) < pktLen
    && (n == |lengths| || Sum(lengths[..n]) >= pktLen)
    && plan[n - 1] == LastLength(lengths[n - 1], Sum(lengths[..n]), pktLen)
  }

  /** The length of the last planned segment, given its configured length and the sum up to it. */
  function LastLength(last: nat, sum: nat, pktLen: nat): nat {
    if sum <= pktLen then (last + (pktLen - sum)) % 65536 else last
  }

  lemma LastLengthExact(init: nat, last: nat, pktLen: nat)
    requires init < pktLen < 65536
    ensures init + LastLength(last, init + last, pktLen) >= pktLen
  {
  }

  lemma {:induction false} SumAppend(lens: seq<nat>, x: nat)
    ensures Sum(lens + [x]) == Sum(lens) + x
  {
    if lens == [] {
      assert [] + [x] == [x];
      assert [x][1..] == [];
    } else {
      SumAppend(lens[1..], x);
      assert (lens + [x])[1..] == lens[1..] + [x];
    }
  }

  lemma SumPrefix(lens: seq<nat>, i: nat)
    requires i < |lens|
    ensures Sum(lens[..i + 1]) == Sum(lens[..i]) + lens[i]
  {
    SumAppend(lens[..i], lens[i]);
    assert lens[..i + 1] == lens[..i] + [lens[i]];
  }

  method Plan(lengths: seq<nat>, pktLen: nat) returns (plan: seq<nat>)
    requires lengths != [] && pktLen > 0
    ensures PlanFor(plan, lengths, pktLen)
  {
    var i, len := 0, 0;
    while i != |lengths| && len < pktLen
      invariant 0 <= i <= |lengths| && len == Sum(lengths[..i])
      invariant i > 0 ==> Sum(lengths[..i - 1]) < pktLen
    {
      SumPrefix(lengths, i);
      len := len + lengths[i];
      i := i + 1;
    }
    plan := lengths[..i];
    var n := pktLen - len;
    if n >= 0 {
      plan := plan[i - 1 := (plan[i - 1] + n) % 65536];
    }
  }

  lemma PlanSums(plan: seq<nat>, lengths: seq<nat>, n: nat)
    requires 0 < n == |plan| <= |lengths| && plan[..n - 1] == lengths[..n - 1]
    ensures Sum(plan) == Sum(lengths[..n - 1]) + plan[n - 1]
    ensures Sum(lengths[..n]) == Sum(lengths[..n - 1]) + lengths[n - 1]
  {
    SumPrefix(lengths, n - 1);
    SumPrefix(plan, n - 1);
    assert plan[..n] == plan;
  }

  /** A plan for a packet of less than 64K covers it. */
  lemma PlanCovers(plan: seq<nat>, lengths: seq<nat>, pktLen: nat)
    requires PlanFor(plan, lengths, pktLen) && pktLen < 65536
    ensures Sum(plan[..|plan| - 1]) < pktLen <= Sum(plan)
  {
    var n := |plan|;
    PlanSums(plan, lengths, n);
    LastLengthExact(Sum(lengths[..n - 1]), lengths[n - 1], pktLen);
  }

  /** One source segment is chopped into exactly the planned pieces. */
  lemma {:induction false} SingleChop(data: seq<byte>, lens: seq<nat>)
    requires lens != [] && Sum(lens[..|lens| - 1]) < |data| <= Sum(lens)
    ensures Leftover([data], lens) == [] && |Chop([data], lens)| == |lens|
    ensures forall k :: 0 <= k < |lens| - 1 ==> |Chop([data], lens)[k]| == lens[k]
    decreases lens
  {
    if |lens| == 1 {
      assert lens[1..] == [];
      assert Min(lens[0], |data|) == |data|;
      assert Advance([data], |data|) == [];
    } else {
      var rest := lens[1..];
      assert lens[..|lens| - 1][1..] == rest[..|rest| - 1];
      var n := lens[0];
      assert Advance([data], n) == [data[n..]];
      SingleChop(data[n..], rest);
      assert Chop([data], lens) == [data[..n]] + Chop([data[n..]], rest);
    }
  }

  /** For every non-empty packet of one segment the plan succeeds, with each segment but the last of its
      configured length. */
  lemma SingleSegmentPlanSucceeds(data: seq<byte>, plan: seq<nat>, lengths: seq<nat>)
    requires 0 < |data| < 65536 && PlanFor(plan, lengths, |data|)
    ensures ReturnCode([data], |data|, plan) == |plan|
    ensures |Chop([data], plan)| == |plan|
    ensures forall k :: 0 <= k < |plan| - 1 ==> |Chop([data], plan)[k]| == lengths[k]
  {
    PlanCovers(plan, lengths, |data|);
    SingleChop(data, plan);
    ChopConcat([data], plan);
    assert [data][1..] == [];
    forall k | 0 <= k < |plan| - 1
      ensures plan[k] == lengths[k]
    {
      assert plan[k] == plan[..|plan| - 1][k];
    }
  }

  lemma {:induction false} ConcatBound(out: seq<seq<byte>>, lens: seq<nat>)
    requires |out| <= |lens| && forall k :: 0 <= k < |out| ==> |out[k]| <= lens[k]
    ensures |Concat(out)| <= Sum(lens[..|out|])
  {
    if out != [] {
      ConcatBound(out[1..], lens[1..]);
      assert lens[..|out|][1..] == lens[1..][..|out[1..]|];
    }
  }

  lemma {:induction false} SumMonotone(lens: seq<nat>, i: nat, j: nat)
    requires i <= j <= |lens|
    ensures Sum(lens[..i]) <= Sum(lens[..j])
    decreases j - i
  {
    if i < j {
      SumPrefix(lens, j - 1);
      SumMonotone(lens, i, j - 1);
    }
  }

  /** Whatever the source chain, a copy that succeeds on a plan uses every planned segment. */
  lemma PlanFullyUsed(segs: seq<seq<byte>>, pktLen: nat, plan: seq<nat>, lengths: seq<nat>)
    requires PlanFor(plan, lengths, pktLen) && ReturnCode(segs, pktLen, plan) > 0
    ensures |Chop(segs, plan)| == |plan|
  {
    var out := Chop(segs, plan);
    ChopLengths(segs, plan);
    if |out| < |plan| {
      ConcatBound(out, plan);
      SumMonotone(plan, |out|, |plan| - 1);
    }
  }

  // ----- pkt_copy_split

  const NONE := -1

  /** The k-th mbuf taken from the pool (its tailroom, or NONE when the pool is empty) is for segment n-1-k. The
      copy goes ahead when all were obtained and all but the last, which is segment 0, were found large enough. */
  predicate CopyGoesAhead(pool: seq<int>, plan: seq<nat>)
    requires |pool| >= |plan|
  {
    forall k :: 0 <= k < |plan| ==> pool[k] >= 0 && (k < |plan| - 1 ==> pool[k] >= plan[|plan| - 1 - k])
  }

  /** How many mbufs the allocation loop takes. */
  ghost predicate TakenFrom(pool: seq<int>, plan: seq<nat>, taken: nat)
    requires |pool| >= |plan|
  {
    && taken <= |plan|
    && (forall k :: 0 <= k < taken ==> pool[k] >= 0)
    && (forall k :: 0 <= k < taken - 1 ==> pool[k] >= plan[|plan| - 1 - k])
  }

  /** The segment mbufs are filled from the last to the first; entry j holds the mbuf taken in turn n-1-j. */
  ghost predicate Filled(md: seq<int>, from: nat) {
    forall j :: 0 <= j < |md| ==> md[j] == if j < from then NONE else |md| - 1 - j
  }

  /** The allocation loop: i is the last segment for which an mbuf was taken. */
  method Allocate(md: array<int>, pool: seq<int>, plan: seq<nat>) returns (i: nat)
    requires md.Length == |plan| > 0 && |pool| >= |plan| && forall j :: 0 <= j < md.Length ==> md[j] == NONE
    modifies md
    ensures i <= |plan| && Filled(md[..], i) && TakenFrom(pool, plan, |plan| - i)
    ensures i == 0 <==> CopyGoesAhead(pool, plan)
  {
    i := |plan|;
    while i != 0
      invariant i <= |plan| && Filled(md[..], i)
      invariant forall k :: 0 <= k < |plan| - i ==> pool[k] >= 0 && pool[k] >= plan[|plan| - 1 - k]
    {
      var p := |plan| - i;
      if pool[p] < 0 {
        break;
      }
      i := i - 1;
      md[i] := p;
      if pool[p] < plan[i] {
        break;
      }
    }
  }

  /** The head that rte_pktmbuf_alloc gives an mbuf. */
  const FRESH_HEAD := Head(1, 0, 0, 0, 0, 0)

  /** pkt_copy_split on a non-empty packet: every mbuf taken is, at the end, either in the returned chain or freed,
      exactly once, and NULL is returned exactly when none is kept. The chain returned holds the bytes of the packet,
      and its head has the packet's length, VLAN and offload fields and counts the segments of the chain. */
  method CopyPacket(segs: seq<seq<byte>>, pkt: Head, lengths: seq<nat>, pool: seq<int>)
    returns (r: int, head: Head, freed: seq<int>, ghost plan: seq<nat>, ghost kept: seq<int>, ghost chain: seq<Seg>,
             ghost taken: nat)
    requires segs != [] && pkt.pktLen > 0 && lengths != [] && |pool| >= |lengths|
    ensures PlanFor(plan, lengths, pkt.pktLen) && TakenFrom(pool, plan, taken)
    ensures r == (if kept == [] then NONE else kept[0])
    ensures kept == [] ==> ListsAll(freed, taken)
    ensures kept != [] ==> freed == [] && taken == |plan| && ListsAll(kept, taken)
    ensures kept != [] <==> CopyGoesAhead(pool, plan) && ReturnCode(segs, pkt.pktLen, plan) > 0
    ensures kept != [] ==> Written(chain, Chop(segs, plan), |plan|)
    ensures kept != [] ==>
              ChainData(chain, 0, |chain| + 1) == Concat(segs) && ChainLength(chain, 0, |chain| + 1) == |kept|
    ensures kept != [] ==> head == pkt.(nbSegs := |kept|) && head.pktLen == |Concat(segs)|
  {
    var seglen := Plan(lengths, pkt.pktLen);
    plan := seglen;
    var n := |seglen|;
    var md := new int[n](_ => NONE);
    chain, head := [], FRESH_HEAD;
    var i := Allocate(md, pool, seglen);
    taken := n - i;
    if i == 0 {
      var dst := new Seg[n](_ => FRESH);
      var rc;
      rc, head := CopySplit(segs, pkt, dst, head, seglen, n);
      assert seglen[..n] == seglen;
      chain := dst[..];
      i := if rc > 0 then rc else 0;
    }
    kept := if taken == n && i == n then md[..] else [];
    freed := FreeUnused(md, i);
    r := md[0];
    if kept != [] {
      DownwardListsAll(kept, n);
      PlanFullyUsed(segs, pkt.pktLen, plan, lengths);
      SuccessfulCopy(segs, pkt.pktLen, chain, plan);
    } else {
      DownwardListsAll(freed, taken);
    }
  }

  /** The free loop. */
  method FreeUnused(md: array<int>, from: nat) returns (freed: seq<int>)
    requires from <= md.Length
    modifies md
    ensures freed == old(md[from..])
    ensures forall j :: 0 <= j < md.Length ==> md[j] == if j < from then old(md[j]) else NONE
  {
    freed := [];
    var i := from;
    while i != md.Length
      invariant from <= i <= md.Length && freed == old(md[from..i])
      invariant forall j :: 0 <= j < md.Length ==> md[j] == if from <= j < i then NONE else old(md[j])
    {
      freed := freed + [md[i]];
      md[i] := NONE;
      i := i + 1;
    }
  }

  lemma DownwardListsAll(s: seq<int>, n: nat)
    requires |s| == n && forall j :: 0 <= j < n ==> s[j] == n - 1 - j
    ensures ListsAll(s, n)
  {
    DistinctListsAll(s, n);
  }

  /** The tailroom of segment 0 is looked at too late to stop the copy. So of the copies that go ahead, the ones that
      stay inside their buffers are exactly those whose first mbuf has room for its length or for the whole of the first
      source segment. */
  lemma FitsIffFirstFits(segs: seq<seq<byte>>, plan: seq<nat>, pool: seq<int>)
    requires plan != [] && |pool| >= |plan| && CopyGoesAhead(pool, plan) && segs != []
    ensures var out, n := Chop(segs, plan), |plan|;
            && |out| <= n
            && ((forall k :: 0 <= k < |out| ==> |out[k]| <= pool[n - 1 - k])
                <==> Min(plan[0], |segs[0]|) <= pool[n - 1])
  {
    var out, n := Chop(segs, plan), |plan|;
    ChopLengths(segs, plan);
    FirstPiece(segs, plan);
    forall k | 1 <= k < |out|
      ensures |out[k]| <= pool[n - 1 - k]
    {
      assert pool[n - 1 - k] >= plan[n - 1 - (n - 1 - k)];
    }
  }

  lemma FirstPiece(segs: seq<seq<byte>>, lens: seq<nat>)
    requires segs != [] && lens != []
    ensures var out := Chop(segs, lens); |out| > 0 && |out[0]| == Min(lens[0], |segs[0]|)
  {
  }

  /** A concrete such copy: one byte into an mbuf without tailroom. */
  lemma TooSmallFirstSegment()
    ensures PlanFor([1], [1], 1) && CopyGoesAhead([0], [1]) && ReturnCode([[7]], 1, [1]) > 0
    ensures |Chop([[7]], [1])[0]| > 0
  {
    var lens: seq<nat> := [1];
    assert lens[..0] == [] && lens[..1] == lens;
    SumAppend([], 1);
    assert [] + lens == lens;
    var data: seq<byte> := [7];
    SingleSegmentPlanSucceeds(data, lens, lens);
    assert Min(1, 1) == 1 && data[..1] == data;
  }
}
