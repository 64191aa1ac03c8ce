/** The one's-complement checksum of section 1 of RFC 1071, and the two ways testpmd computes it:
    ip_sum (test-pmd/flowgen.c) and ipv4_hdr_cksum (test-pmd/icmpecho.c). */
module Checksum {
  import opened Types

  const WORD32: int := 0x1_0000_0000

  type word = w: int | 0 <= w < 65536

  // ----- the reference definition

  /** 16-bit one's-complement addition: the carry goes back in at the bottom. */
  function OnesAdd(a: word, b: word): word {
    if a + b > 0xFFFF then a + b - 0xFFFF else a + b
  }

  function OnesSum(ws: seq<word>): word {
    if ws == [] then 0 else OnesAdd(OnesSum(ws[..|ws| - 1]), ws[|ws| - 1])
  }

  /** A checksummed block verifies when its one's-complement sum is all ones. */
  predicate Verifies(ws: seq<word>) {
    OnesSum(ws) == 0xFFFF
  }

  // ----- the sum as a residue

  function Sum(ws: seq<word>): nat {
    if ws == [] then 0 else Sum(ws[..|ws| - 1]) + ws[|ws| - 1]
  }

  /** The 16-bit value that stands for n: its residue modulo 0xFFFF, with 0xFFFF for every non-zero multiple. */
  function Norm(n: nat): (w: word)
    ensures w == 0 <==> n == 0
  {
    if n <= 0xFFFF then n else Norm(n - 0xFFFF)
  }

  lemma {:induction false} NormQuotient(n: nat) returns (k: nat)
    ensures n == Norm(n) + 0xFFFF * k
  {
    if n <= 0xFFFF {
      k := 0;
    } else {
      k := NormQuotient(n - 0xFFFF);
      k := k + 1;
    }
  }

  lemma NormUnique(n: nat, w: word, k: int)
    requires n == w + 0xFFFF * k && (n == 0 <==> w == 0)
    ensures Norm(n) == w
  {
    var l := NormQuotient(n);
  }

  lemma NormAdd(a: nat, b: nat, c: nat)
    requires Norm(a) == Norm(b)
    ensures Norm(a + c) == Norm(b + c)
  {
    var k := NormQuotient(a);
    var l := NormQuotient(b);
    var j := NormQuotient(b + c);
    NormUnique(a + c, Norm(b + c), j + k - l);
  }

  /** Deferring the carries does not matter: the one's-complement sum represents the unbounded sum. */
  lemma {:induction false} OnesSumIsNorm(ws: seq<word>)
    ensures OnesSum(ws) == Norm(Sum(ws))
  {
    if ws != [] {
      var t, w := ws[..|ws| - 1], ws[|ws| - 1];
      OnesSumIsNorm(t);
      NormAdd(Norm(Sum(t)), Sum(t), w);
    }
  }

  /** A block verifies exactly when its sum is a non-zero multiple of 0xFFFF. */
  lemma VerifiesIff(ws: seq<word>)
    ensures Verifies(ws) <==> exists k :: k > 0 && Sum(ws) == 0xFFFF * k
  {
    OnesSumIsNorm(ws);
    if Verifies(ws) {
      var k := NormQuotient(Sum(ws));
      assert Sum(ws) == 0xFFFF * (k + 1);
    }
    if k :| k > 0 && Sum(ws) == 0xFFFF * k {
      NormUnique(Sum(ws), 0xFFFF, k - 1);
    }
  }

  lemma {:induction false} SumSplit(s: seq<word>, t: seq<word>)
    ensures Sum(s + t) == Sum(s) + Sum(t)
  {
    if t == [] {
      assert s + t == s;
    } else {
      var n := |t| - 1;
      SumSplit(s, t[..n]);
      assert (s + t)[..|s + t| - 1] == s + t[..n];
    }
  }

  /** Whatever the rest of a block, the complement of its one's-complement sum makes it verify. */
  lemma ComplementVerifies(s: seq<word>, t: seq<word>, c: word)
    requires c == 0xFFFF - OnesSum(s + t) || (OnesSum(s + t) == 0xFFFF && c == 0xFFFF)
    ensures Verifies(s + [c] + t)
  {
    SumSplit(s, t);
    SumSplit(s + [c], t);
    SumSplit(s, [c]);
    SumOne(c);
    OnesSumIsNorm(s + t);
    OnesSumIsNorm(s + [c] + t);
    var k := NormQuotient(Sum(s + t));
    if c == 0xFFFF - OnesSum(s + t) {
      NormUnique(Sum(s + t) + c, 0xFFFF, k);
    } else {
      NormUnique(Sum(s + t) + c, 0xFFFF, k + 1);
    }
  }

  lemma SumOne(c: word)
    ensures Sum([c]) == c
  {
    assert [c][..0] == [];
  }

  // ----- byte order

  /** The word made of two consecutive bytes, as the host loads it. */
  function Load(b0: byte, b1: byte, little: bool): word {
    if little then b0 + 256 * b1 else 256 * b0 + b1
  }

  function StoreFirst(w: word, little: bool): byte {
    if little then w % 256 else w / 256
  }

  function StoreSecond(w: word, little: bool): byte {
    StoreFirst(w, !little)
  }

  /** The words of a byte string, an odd byte at the end padded with zero. Big endian is the order of the RFCs. */
  function Words(b: seq<byte>, little: bool): (ws: seq<word>)
    ensures |ws| == (|b| + 1) / 2
  {
    if b == [] then []
    else if |b| == 1 then [Load(b[0], 0, little)]
    else [Load(b[0], b[1], little)] + Words(b[2..], little)
  }

  function NetWords(b: seq<byte>): seq<word> {
    Words(b, false)
  }

  function Swap(w: word): (r: word)
    ensures 256 * (w as int) == r + 0xFFFF * (w / 256) && (r == 0 <==> w == 0)
  {
    (w % 256) * 256 + w / 256
  }

  function SwapAll(ws: seq<word>): (r: seq<word>)
    ensures |r| == |ws|
  {
    if ws == [] then [] else SwapAll(ws[..|ws| - 1]) + [Swap(ws[|ws| - 1])]
  }

  lemma {:induction false} SwapAllAt(ws: seq<word>, i: nat)
    requires i < |ws|
    ensures SwapAll(ws)[i] == Swap(ws[i])
  {
    if i < |ws| - 1 {
      SwapAllAt(ws[..|ws| - 1], i);
    }
  }

  lemma {:induction false} WordsSwapAt(b: seq<byte>, i: nat)
    requires i < (|b| + 1) / 2
    ensures Words(b, true)[i] == Swap(Words(b, false)[i])
  {
    if i > 0 {
      WordsSwapAt(b[2..], i - 1);
    }
  }

  lemma WordsSwap(b: seq<byte>)
    ensures Words(b, true) == SwapAll(Words(b, false))
  {
    var ws := Words(b, false);
    forall i | 0 <= i < |ws|
      ensures Words(b, true)[i] == SwapAll(ws)[i]
    {
      WordsSwapAt(b, i);
      SwapAllAt(ws, i);
    }
  }

  lemma {:induction false} SumOfSwapped(ws: seq<word>) returns (k: int)
    ensures 256 * Sum(ws) == Sum(SwapAll(ws)) + 0xFFFF * k
    ensures Sum(SwapAll(ws)) == 0 <==> Sum(ws) == 0
  {
    k := 0;
    if ws != [] {
      var n := |ws| - 1;
      k := SumOfSwapped(ws[..n]);
      assert SwapAll(ws)[..n] == SwapAll(ws[..n]);
      k := k + ws[n] / 256;
    }
  }

  /** Section 2(B) of RFC 1071: the sum of byte-swapped words is the byte-swapped sum. */
  lemma ByteOrderIndependence(ws: seq<word>)
    ensures OnesSum(SwapAll(ws)) == Swap(OnesSum(ws))
  {
    OnesSumIsNorm(ws);
    OnesSumIsNorm(SwapAll(ws));
    var k := SumOfSwapped(ws);
    var l := NormQuotient(Sum(ws));
    var w := Norm(Sum(ws));
    NormUnique(Sum(SwapAll(ws)), Swap(w), w / 256 + 256 * l - k);
  }

  /** So a block verifies in host order exactly when it verifies in network order. */
  lemma VerifiesInAnyOrder(b: seq<byte>, little: bool)
    ensures Verifies(Words(b, little)) <==> Verifies(NetWords(b))
  {
    if little {
      WordsSwap(b);
      ByteOrderIndependence(NetWords(b));
      AllOnesSwap(OnesSum(NetWords(b)));
    }
  }

  lemma AllOnesSwap(w: word)
    ensures Swap(w) == 0xFFFF <==> w == 0xFFFF
  {
  }

  // ----- ip_sum

  function Fold(n: nat): nat {
    n % 65536 + n / 65536
  }

  lemma FoldNorm(n: nat)
    ensures Norm(Fold(n)) == Norm(n) && (n >= 65536 ==> Fold(n) < n)
    ensures n < WORD32 ==> Fold(n) <= 0x1FFFE
  {
    var q := n / 65536;
    assert n == Fold(n) + 0xFFFF * q;
    var l := NormQuotient(n);
    NormUnique(Fold(n), Norm(n), l - q);
  }

  lemma SumStep(hdr: seq<word>, k: nat, sum: nat)
    requires k < |hdr| && Norm(sum) == Norm(Sum(hdr[..k]))
    ensures Norm(sum + hdr[k]) == Norm(Sum(hdr[..k + 1]))
  {
    assert hdr[..k + 1][..k] == hdr[..k];
    NormAdd(sum, Sum(hdr[..k]), hdr[k]);
  }

  /** The checksum loop on 32-bit accumulators: for every length it is the complement of the reference sum. An odd
      trailing byte is left out of the sum, as the loop stops at hdr_len 1. */
  method IpSum(hdr: seq<word>, hdrLen: int) returns (r: word)
    requires hdrLen <= 1 || hdrLen / 2 <= |hdr|
    ensures r == 0xFFFF - OnesSum(hdr[..if hdrLen <= 1 then 0 else hdrLen / 2])
  {
    var sum: int, len, k := 0, hdrLen, 0;
    ghost var n := if hdrLen <= 1 then 0 else hdrLen / 2;
    while len > 1
      invariant 0 <= k <= n && len == hdrLen - 2 * k
      invariant 0 <= sum < 0x8000_0000 && Norm(sum) == Norm(Sum(hdr[..k]))
    {
      SumStep(hdr, k, sum);
      sum := sum + hdr[k];
      assert sum < WORD32;
      FoldNorm(sum);
      if sum >= 0x8000_0000 {
        sum := Fold(sum);
      }
      k, len := k + 1, len - 2;
    }
    while sum / 65536 != 0
      invariant 0 <= sum && Norm(sum) == Norm(Sum(hdr[..n]))
      decreases sum
    {
      FoldNorm(sum);
      sum := Fold(sum);
    }
    OnesSumIsNorm(hdr[..n]);
    r := 0xFFFF - sum;
  }

  // ----- ipv4_hdr_cksum

  /** The header words with the checksum field left out. */
  function WithoutChecksum(h: seq<word>): seq<word>
    requires |h| == 10
  {
    h[..5] + h[6..]
  }

  /** Nine words need at most two folds; a zero checksum is sent as all ones. */
  method HeaderChecksum(h: seq<word>) returns (r: word)
    requires |h| == 10
    ensures r != 0
            && r == (if OnesSum(WithoutChecksum(h)) == 0xFFFF then 0xFFFF else 0xFFFF - OnesSum(WithoutChecksum(h)))
  {
    ghost var ws := WithoutChecksum(h);
    var c: int := h[0] as int + h[1] as int + h[2] as int + h[3] as int + h[4] as int
      + h[6] as int + h[7] as int + h[8] as int + h[9] as int;
    assert c < WORD32;
    SumOfNine(ws);
    OnesSumIsNorm(ws);
    FoldNorm(c);
    c := Fold(c);
    FoldNorm(c);
    c := Fold(c);
    c := 0xFFFF - c;
    r := if c == 0 then 0xFFFF else c;
  }

  lemma SumOfNine(ws: seq<word>)
    requires |ws| == 9
    ensures Sum(ws) == ws[0] as int + ws[1] as int + ws[2] as int + ws[3] as int + ws[4] as int
                     + ws[5] as int + ws[6] as int + ws[7] as int + ws[8] as int
  {
    SumThree(ws[..6], ws[6], ws[7], ws[8]);
    SumThree(ws[..3], ws[3], ws[4], ws[5]);
    SumThree(ws[..0], ws[0], ws[1], ws[2]);
    assert ws == ws[..6] + [ws[6], ws[7], ws[8]];
    assert ws[..6] == ws[..3] + [ws[3], ws[4], ws[5]];
    assert ws[..3] == ws[..0] + [ws[0], ws[1], ws[2]];
  }

  lemma SumThree(s: seq<word>, x: word, y: word, z: word)
    ensures Sum(s + [x, y, z]) == Sum(s) + x as int + y as int + z as int
  {
    SumSplit(s + [x, y], [z]);
    SumSplit(s + [x], [y]);
    SumSplit(s, [x]);
    SumOne(x);
    SumOne(y);
    SumOne(z);
    assert s + [x, y] + [z] == s + [x, y, z];
    assert s + [x] + [y] == s + [x, y];
  }

  /** Both routines make a header verify, and on a header whose checksum is zeroed they agree modulo 0xFFFF. */
  lemma ChecksumsAgree(h: seq<word>, viaIpSum: word, viaHeader: word)
    requires |h| == 10 && h[5] == 0
    requires viaIpSum == 0xFFFF - OnesSum(h)
    requires var sum := OnesSum(WithoutChecksum(h)); viaHeader == if sum == 0xFFFF then 0xFFFF else 0xFFFF - sum
    ensures viaIpSum % 0xFFFF == viaHeader % 0xFFFF
    ensures Verifies(h[5 := viaIpSum]) && Verifies(h[5 := viaHeader])
  {
    assert h == h[..5] + [0] + h[6..];
    SumSplit(h[..5], h[6..]);
    SumSplit(h[..5], [0]);
    SumSplit(h[..5] + [0], h[6..]);
    SumOne(0);
    OnesSumIsNorm(h);
    OnesSumIsNorm(WithoutChecksum(h));
    ComplementVerifies(h[..5], h[6..], viaIpSum);
    ComplementVerifies(h[..5], h[6..], viaHeader);
    assert h[5 := viaIpSum] == h[..5] + [viaIpSum] + h[6..];
    assert h[5 := viaHeader] == h[..5] + [viaHeader] + h[6..];
  }
}
