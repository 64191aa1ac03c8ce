/** test-pmd/icmpecho.c, reply_to_icmp_echo_rqsts: the loop over a burst of received packets, with its eight-bit index,
    and the sending of the answers. */
module IcmpBurst {
  import opened Types
  import opened Sequences
  import opened IcmpEcho

  /** The packets of a burst that were answered, or those that were not, in order. */
  function Select<T>(pkts: seq<T>, answered: seq<bool>, which: bool): (r: seq<T>)
    requires |pkts| == |answered|
    ensures |r| <= |pkts|
  {
    if pkts == [] then [] else
      var n := |pkts| - 1;
      Select(pkts[..n], answered[..n], which) + if answered[n] == which then [pkts[n]] else []
  }

  lemma {:induction false} SelectPartitions<T>(pkts: seq<T>, answered: seq<bool>)
    requires |pkts| == |answered|
    ensures multiset(Select(pkts, answered, true)) + multiset(Select(pkts, answered, false)) == multiset(pkts)
  {
    if pkts != [] {
      var n := |pkts| - 1;
      var x, init, flags := pkts[n], pkts[..n], answered[..n];
      SelectPartitions(init, flags);
      assert pkts == init + [x];
      AddToEither(multiset(Select(init, flags, true)), multiset(Select(init, flags, false)), x);
      SelectLast(pkts, answered, true);
      SelectLast(pkts, answered, false);
    }
  }

  lemma AddToEither<T>(yes: multiset<T>, no: multiset<T>, x: T)
    ensures (yes + multiset{x}) + no == (yes + no) + multiset{x} == yes + (no + multiset{x})
  {
  }

  lemma SelectLast<T>(pkts: seq<T>, answered: seq<bool>, which: bool)
    requires |pkts| == |answered| > 0
    ensures var n := |pkts| - 1;
            var init := multiset(Select(pkts[..n], answered[..n], which));
            multiset(Select(pkts, answered, which)) == if answered[n] == which then init + multiset{pkts[n]} else init
  {
    var n := |pkts| - 1;
    var init := Select(pkts[..n], answered[..n], which);
    assert init + [] == init;
  }

  lemma SelectStep<T>(p: seq<T>, answered: seq<bool>, i: nat, which: bool)
    requires i < |p| == |answered|
    ensures Select(p[..i + 1], answered[..i + 1], which)
         == Select(p[..i], answered[..i], which) + if answered[i] == which then [p[i]] else []
  {
    assert p[..i + 1][..i] == p[..i] && answered[..i + 1][..i] == answered[..i];
  }

  /** Select keeps exactly the packets with the given verdict, in the order they came. */
  lemma {:induction false} SelectInOrder<T(!new)>(pkts: seq<T>, answered: seq<bool>, which: bool)
    requires |pkts| == |answered|
    ensures forall k :: 0 <= k < |pkts| && answered[k] == which ==> pkts[k] in Select(pkts, answered, which)
    ensures forall x :: x in Select(pkts, answered, which) ==>
              exists k :: 0 <= k < |pkts| && pkts[k] == x && answered[k] == which
    ensures forall i, j :: 0 <= i < j < |pkts| && answered[i] == which && answered[j] == which ==>
              Before(Select(pkts, answered, which), pkts[i], pkts[j])
  {
    if pkts != [] {
      var n := |pkts| - 1;
      var init, r := Select(pkts[..n], answered[..n], which), Select(pkts, answered, which);
      SelectInOrder(pkts[..n], answered[..n], which);
      assert forall k :: 0 <= k < |init| ==> r[k] == init[k];
      forall x | x in r
        ensures exists k :: 0 <= k < |pkts| && pkts[k] == x && answered[k] == which
      {
        if x in init {
          var k :| 0 <= k < n && pkts[..n][k] == x && answered[..n][k] == which;
          assert pkts[k] == x && answered[k] == which;
        } else {
          assert pkts[n] == x && answered[n] == which;
        }
      }
      forall i, j | 0 <= i < j < |pkts| && answered[i] == which && answered[j] == which
        ensures Before(r, pkts[i], pkts[j])
      {
        if j < n {
          assert pkts[..n][i] == pkts[i] && pkts[..n][j] == pkts[j];
          var a, b :| 0 <= a < b < |init| && init[a] == pkts[i] && init[b] == pkts[j];
          assert r[a] == pkts[i] && r[b] == pkts[j];
        } else {
          assert pkts[..n][i] == pkts[i];
          var a :| 0 <= a < |init| && init[a] == pkts[i];
          assert r[a] == pkts[i] && r[|init|] == pkts[j];
        }
      }
    }
  }

  // ----- the loop

  /** An eight-bit increment. */
  function Inc8(i: nat): (r: nat)
    requires i < 256
    ensures r < 256
  {
    if i == 255 then 0 else i + 1
  }

  /** Whether each packet of a burst is answered, by its content. */
  function Verdicts(contents: seq<seq<byte>>): (r: seq<bool>)
    requires LongEnough(contents)
    ensures |r| == |contents| && forall k :: 0 <= k < |r| ==> r[k] == (Classify(contents[k]) != Drop)
  {
    seq(|contents|, k requires 0 <= k < |contents| => Classify(contents[k]) != Drop)
  }

  /** The packets are long enough for the headers that are looked at. */
  predicate LongEnough(contents: seq<seq<byte>>) {
    forall k :: 0 <= k < |contents| ==> |contents[k]| >= 46
  }

  /** What becomes of each packet of a burst. */
  function Answers(contents: seq<seq<byte>>, mac: seq<byte>, little: bool): (r: seq<seq<byte>>)
    requires LongEnough(contents) && |mac| == 6
    ensures |r| == |contents| && forall k :: 0 <= k < |r| ==> r[k] == Answer(contents[k], mac, little)
  {
    seq(|contents|, k requires 0 <= k < |contents| => Answer(contents[k], mac, little))
  }

  /** The verdict and the answer of packet k. */
  ghost predicate Judged(contents: seq<seq<byte>>, answers: seq<seq<byte>>, answered: seq<bool>, k: nat, mac: seq<byte>,
                         little: bool)
    requires k < |contents| == |answers| == |answered| && |mac| == 6
  {
    && |contents[k]| >= 46
    && answered[k] == (Classify(contents[k]) != Drop) && answers[k] == Answer(contents[k], mac, little)
  }

  /** The first i of the buffers hold their answers, the others their contents. */
  ghost predicate HandledUpTo(mbufs: seq<array<byte>>, contents: seq<seq<byte>>, answers: seq<seq<byte>>, i: nat)
    requires |mbufs| == |contents| == |answers|
    reads set m | m in mbufs
  {
    forall k :: 0 <= k < |mbufs| ==> mbufs[k][..] == if k < i then answers[k] else contents[k]
  }

  method HandleNth(mbufs: seq<array<byte>>, i: nat, mac: seq<byte>, little: bool, ghost contents: seq<seq<byte>>,
                   ghost answers: seq<seq<byte>>, ghost answered: seq<bool>)
    returns (action: Action)
    requires |mac| == 6 && i < |mbufs| == |contents| == |answers| == |answered| && Distinct(mbufs)
    requires HandledUpTo(mbufs, contents, answers, i) && Judged(contents, answers, answered, i, mac, little)
    modifies mbufs[i]
    ensures HandledUpTo(mbufs, contents, answers, i + 1) && (action != Drop <==> answered[i])
  {
    assert mbufs[i][..] == contents[i];
    action := HandlePacket(mbufs[i], mac, little);
    assert mbufs[i][..] == answers[i];
  }

  /** The array of pointers after i packets: the answered ones at the front, the ones to come in their places. */
  ghost predicate Compacted<T>(slots: seq<T>, pkts: seq<T>, answered: seq<bool>, i: nat, nbReplies: nat, freed: seq<T>)
    requires |slots| == |pkts| == |answered|
  {
    && nbReplies <= i <= |pkts|
    && slots[..nbReplies] == Select(pkts[..i], answered[..i], true)
    && freed == Select(pkts[..i], answered[..i], false)
    && slots[i..] == pkts[i..]
  }

  lemma CompactStep<T>(slots: seq<T>, pkts: seq<T>, answered: seq<bool>, i: nat, nbReplies: nat, freed: seq<T>)
    requires |slots| == |pkts| == |answered| && i < |pkts| && Compacted(slots, pkts, answered, i, nbReplies, freed)
    ensures slots[i] == pkts[i]
    ensures answered[i] ==> Compacted(slots[nbReplies := pkts[i]], pkts, answered, i + 1, nbReplies + 1, freed)
    ensures !answered[i] ==> Compacted(slots, pkts, answered, i + 1, nbReplies, freed + [pkts[i]])
  {
    SelectStep(pkts, answered, i, true);
    SelectStep(pkts, answered, i, false);
    assert slots[i] == slots[i..][0] && pkts[i] == pkts[i..][0];
    assert slots[i..][1..] == slots[i + 1..] && pkts[i..][1..] == pkts[i + 1..];
    if answered[i] {
      var s := slots[nbReplies := pkts[i]];
      assert s[..nbReplies + 1] == slots[..nbReplies] + [pkts[i]];
      assert s[i + 1..] == slots[i + 1..];
    }
  }

  /** A packet handled goes to the front of the array or is freed. */
  method KeepOrFree<T>(pkts: array<T>, i: nat, nbReplies0: nat, keep: bool, freed0: seq<T>, ghost mbufs: seq<T>,
                       ghost answered: seq<bool>)
    returns (nbReplies: nat, freed: seq<T>)
    requires i < pkts.Length == |mbufs| == |answered| && Compacted(pkts[..], mbufs, answered, i, nbReplies0, freed0)
    requires keep == answered[i]
    modifies pkts
    ensures Compacted(pkts[..], mbufs, answered, i + 1, nbReplies, freed)
  {
    CompactStep(pkts[..], mbufs, answered, i, nbReplies0, freed0);
    ghost var before := pkts[..];
    nbReplies, freed := nbReplies0, freed0;
    if keep {
      pkts[nbReplies] := pkts[i];
      assert pkts[..] == before[nbReplies := mbufs[i]];
      nbReplies := nbReplies + 1;
    } else {
      freed := freed + [pkts[i]];
    }
  }

  method HandleRound(mbufs: seq<array<byte>>, pkts: array<array<byte>>, i: nat, nbReplies0: nat,
                     freed0: seq<array<byte>>, mac: seq<byte>, little: bool, ghost contents: seq<seq<byte>>,
                     ghost answers: seq<seq<byte>>, ghost answered: seq<bool>)
    returns (nbReplies: nat, freed: seq<array<byte>>)
    requires |mac| == 6 && i < pkts.Length == |mbufs| == |contents| == |answers| == |answered| && Distinct(mbufs)
    requires HandledUpTo(mbufs, contents, answers, i) && Judged(contents, answers, answered, i, mac, little)
    requires Compacted(pkts[..], mbufs, answered, i, nbReplies0, freed0)
    modifies mbufs[i], pkts
    ensures HandledUpTo(mbufs, contents, answers, i + 1)
    ensures Compacted(pkts[..], mbufs, answered, i + 1, nbReplies, freed)
  {
    var action := HandleNth(mbufs, i, mac, little, contents, answers, answered);
    nbReplies, freed := KeepOrFree(pkts, i, nbReplies0, action != Drop, freed0, mbufs, answered);
  }

  /** The loop over a burst: every packet is handled in place; the answered ones are kept at the front of the array of
      pointers while the rest is freed. The index has eight bits: see LoopEndsIff for the bound. */
  method HandleBurst(mbufs: seq<array<byte>>, mac: seq<byte>, little: bool, ghost contents: seq<seq<byte>>,
                     ghost answers: seq<seq<byte>>, ghost answered: seq<bool>)
    returns (replies: seq<array<byte>>, freed: seq<array<byte>>)
    requires |mac| == 6 && |mbufs| == |contents| == |answers| == |answered| <= 255 && Distinct(mbufs)
    requires HandledUpTo(mbufs, contents, answers, 0)
    requires forall k :: 0 <= k < |mbufs| ==> Judged(contents, answers, answered, k, mac, little)
    modifies set m | m in mbufs
    ensures HandledUpTo(mbufs, contents, answers, |mbufs|)
    ensures replies == Select(mbufs, answered, true)
    ensures freed == Select(mbufs, answered, false)
  {
    var pkts := new array<byte>[|mbufs|](k requires 0 <= k < |mbufs| => mbufs[k]);
    assert pkts[..] == mbufs;
    ghost var rounds := 0;
    var nbReplies: nat, i: nat := 0, 0;
    freed := [];
    while i < |mbufs|
      invariant i <= |mbufs| && i == rounds == Index(rounds)
      invariant HandledUpTo(mbufs, contents, answers, i)
      invariant Compacted(pkts[..], mbufs, answered, i, nbReplies, freed)
    {
      nbReplies, freed := HandleRound(mbufs, pkts, i, nbReplies, freed, mac, little, contents, answers, answered);
      i := Inc8(i);
      rounds := rounds + 1;
    }
    assert mbufs[..i] == mbufs && answered[..i] == answered;
    replies := pkts[..][..nbReplies];
  }

  /** The whole burst: every packet received is either sent or freed, exactly once; the ones sent are the first answered
      ones in the order they came, and each is the answer to what was received in its buffer. */
  method ReplyToBurst(mbufs: seq<array<byte>>, mac: seq<byte>, little: bool, accepted: nat,
                      ghost contents: seq<seq<byte>>)
    returns (sent: seq<array<byte>>, freed: seq<array<byte>>)
    requires |mac| == 6 && |mbufs| == |contents| <= 255 && Distinct(mbufs) && LongEnough(contents)
    requires forall k :: 0 <= k < |mbufs| ==> mbufs[k][..] == contents[k]
    modifies set m | m in mbufs
    ensures forall k :: 0 <= k < |mbufs| ==> mbufs[k][..] == Answer(contents[k], mac, little)
    ensures var replies := Select(mbufs, Verdicts(contents), true);
            sent == if accepted < |replies| then replies[..accepted] else replies
    ensures multiset(sent) + multiset(freed) == multiset(mbufs)
  {
    ghost var answers, answered := Answers(contents, mac, little), Verdicts(contents);
    var replies, dropped := HandleBurst(mbufs, mac, little, contents, answers, answered);
    var nbTx := if accepted < |replies| then accepted else |replies|;
    sent := replies[..nbTx];
    freed := FreeFrom(replies, nbTx, dropped);
    SelectPartitions(mbufs, answered);
    Regrouped(replies, nbTx, dropped);
  }

  /** Freeing the answers that the device did not take. */
  method FreeFrom<T>(replies: seq<T>, nbTx: nat, dropped: seq<T>) returns (freed: seq<T>)
    requires nbTx <= |replies|
    ensures freed == dropped + replies[nbTx..]
  {
    freed := dropped;
    var k := nbTx;
    while k < |replies|
      invariant nbTx <= k <= |replies| && freed == dropped + replies[nbTx..k]
    {
      freed := freed + [replies[k]];
      k := k + 1;
    }
  }

  lemma Regrouped<T>(replies: seq<T>, nbTx: nat, dropped: seq<T>)
    requires nbTx <= |replies|
    ensures multiset(replies[..nbTx]) + multiset(dropped + replies[nbTx..]) == multiset(replies) + multiset(dropped)
  {
    assert replies == replies[..nbTx] + replies[nbTx..];
  }

  // ----- bursts of more than 255 packets

  const MAX_PKT_BURST := 512

  /** The loop index after some rounds. */
  ghost function Index(rounds: nat): (i: nat)
    ensures i < 256
  {
    if rounds == 0 then 0 else Inc8(Index(rounds - 1))
  }

  lemma {:induction false} IndexCounts(rounds: nat)
    requires rounds <= 255
    ensures Index(rounds) == rounds
  {
    if rounds > 0 {
      IndexCounts(rounds - 1);
    }
  }

  /** The loop guard fails after some round exactly when the burst has at most 255 packets, and then first after one
      round per packet. */
  lemma LoopEndsIff(nbRx: nat)
    ensures (exists rounds :: Index(rounds) >= nbRx) <==> nbRx <= 255
    ensures nbRx <= 255 ==> Index(nbRx) == nbRx && forall rounds :: 0 <= rounds < nbRx ==> Index(rounds) < nbRx
  {
    if nbRx <= 255 {
      IndexCounts(nbRx);
      forall rounds | 0 <= rounds < nbRx
        ensures Index(rounds) < nbRx
      {
        IndexCounts(rounds);
      }
    }
  }

  /** The loop between two rounds: the index, the array of pointers, how many answers are at its front, and what has
      been freed. */
  datatype Progress = Progress(i: nat, slots: seq<int>, nbReplies: nat, freed: seq<int>)

  function Round(b: Progress, answer: bool): Progress
    requires b.i < 256 <= |b.slots| && b.nbReplies < |b.slots|
  {
    var pkt := b.slots[b.i];
    if answer then Progress(Inc8(b.i), b.slots[b.nbReplies := pkt], b.nbReplies + 1, b.freed)
    else Progress(Inc8(b.i), b.slots, b.nbReplies, b.freed + [pkt])
  }

  function Rounds(slots: seq<int>, answers: seq<bool>): (b: Progress)
    requires |answers| <= MAX_PKT_BURST == |slots|
    ensures b.i < 256 && |b.slots| == MAX_PKT_BURST && b.nbReplies <= |answers|
  {
    if answers == [] then Progress(0, slots, 0, []) else
      var n := |answers| - 1;
      Round(Rounds(slots, answers[..n]), answers[n])
  }

  /** The mbufs the loop has disposed of, by sending or freeing. */
  ghost function Disposed(b: Progress): multiset<int>
    requires b.nbReplies <= |b.slots|
  {
    multiset(b.freed) + multiset(b.slots[..b.nbReplies])
  }

  lemma RoundDisposes(b: Progress, answer: bool)
    requires b.i < 256 <= |b.slots| && b.nbReplies < |b.slots|
    ensures Disposed(Round(b, answer)) == Disposed(b) + multiset{b.slots[b.i]}
  {
    if answer {
      var s := b.slots[b.nbReplies := b.slots[b.i]];
      assert s[..b.nbReplies + 1] == b.slots[..b.nbReplies] + [b.slots[b.i]];
    }
  }

  /** After n rounds of the first turn. */
  ghost predicate FirstTurn(b: Progress, slots: seq<int>, n: nat)
    requires n <= 256 && |slots| == MAX_PKT_BURST
  {
    && b.i == (if n == 256 then 0 else n) && b.nbReplies <= n && |b.slots| == MAX_PKT_BURST
    && b.slots[n..] == slots[n..] && (b.nbReplies == 0 ==> b.slots == slots)
    && Disposed(b) == multiset(slots[..n])
  }

  lemma FirstTurnStep(b: Progress, slots: seq<int>, n: nat, answer: bool)
    requires n < 256 && |slots| == MAX_PKT_BURST && FirstTurn(b, slots, n)
    ensures FirstTurn(Round(b, answer), slots, n + 1)
  {
    RoundDisposes(b, answer);
    TailStep(b.slots, slots, n);
    assert slots[..n + 1] == slots[..n] + [slots[n]];
    if answer {
      assert b.slots[b.nbReplies := slots[n]][n + 1..] == b.slots[n + 1..];
    }
  }

  lemma TailStep(s: seq<int>, t: seq<int>, n: nat)
    requires n < |s| == |t| && s[n..] == t[n..]
    ensures s[n] == t[n] && s[n + 1..] == t[n + 1..]
  {
    assert s[n] == s[n..][0] && t[n] == t[n..][0];
    assert s[n..][1..] == s[n + 1..] && t[n..][1..] == t[n + 1..];
  }

  /** Up to 256 rounds every packet is disposed of once. */
  lemma {:induction false} RoundsDispose(slots: seq<int>, answers: seq<bool>)
    requires |slots| == MAX_PKT_BURST && |answers| <= 256
    ensures FirstTurn(Rounds(slots, answers), slots, |answers|)
  {
    if answers != [] {
      var n := |answers| - 1;
      RoundsDispose(slots, answers[..n]);
      FirstTurnStep(Rounds(slots, answers[..n]), slots, n, answers[n]);
    }
  }

  /** From 256 packets on the loop does not end, and round 256 handles slot 0 again, whose packet was kept for sending
      or freed already: it is disposed of twice. */
  lemma SecondTurn(slots: seq<int>, nbRx: nat, answers: seq<bool>)
    requires |slots| == MAX_PKT_BURST && 256 <= nbRx <= MAX_PKT_BURST && |answers| == 257
    ensures forall r :: 0 <= r <= 257 ==> Rounds(slots, answers[..r]).i < nbRx
    ensures Disposed(Rounds(slots, answers))[Rounds(slots, answers[..256]).slots[0]] >= 2
  {
    var b := Rounds(slots, answers[..256]);
    RoundsDispose(slots, answers[..256]);
    RoundDisposes(b, answers[256]);
    SlotZeroDisposed(b, slots);
  }

  lemma SlotZeroDisposed(b: Progress, slots: seq<int>)
    requires |slots| == MAX_PKT_BURST && FirstTurn(b, slots, 256)
    ensures Disposed(b)[b.slots[0]] >= 1
  {
    if b.nbReplies > 0 {
      assert b.slots[..b.nbReplies][0] in multiset(b.slots[..b.nbReplies]);
    } else {
      assert slots[..256][0] in multiset(slots[..256]);
    }
  }
}
