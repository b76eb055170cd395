/** The hint codec: hint_bit_pack and hint_bit_unpack of macula-mldsa/src/encode.rs.

    A hint is k polynomials of 0 and 1. Its encoding lists the positions of the ones, polynomial after
    polynomial, pads the list with zeros to omega bytes, and ends with k running counts. */
module MlDsaHint {
  import opened Machine
  import opened Polynomials

  predicate IsBits(f: seq<int>) {
    |f| == N && forall i :: 0 <= i < N ==> f[i] == 0 || f[i] == 1
  }

  predicate IsHint(h: seq<seq<int>>) {
    forall i :: 0 <= i < |h| ==> IsBits(h[i])
  }

  /** The positions below n of the ones of f, in order. */
  function Ones(f: seq<int>, n: nat): (r: seq<Byte>)
    requires n <= |f| && n <= N
    ensures |r| <= n
  {
    if n == 0 then [] else Ones(f, n - 1) + if f[n - 1] == 1 then [n - 1] else []
  }

  /** The positions of the ones of all the polynomials. */
  function AllOnes(h: seq<seq<int>>): (r: seq<Byte>)
    requires IsHint(h)
  {
    if h == [] then [] else AllOnes(h[..|h| - 1]) + Ones(h[|h| - 1], N)
  }

  /** The positions of the ones of the first i polynomials. */
  function Before(h: seq<seq<int>>, i: nat): (r: seq<Byte>)
    requires IsHint(h) && i <= |h|
  {
    AllOnes(h[..i])
  }

  /** The number of ones in the first i polynomials. */
  function OnesUpTo(h: seq<seq<int>>, i: nat): (r: nat)
    requires IsHint(h) && i <= |h|
  {
    |Before(h, i)|
  }

  // ----- strictly increasing positions and the polynomials they mark -----

  predicate Increasing(s: seq<int>) {
    forall i, j :: 0 <= i < j < |s| ==> s[i] < s[j]
  }

  function Marked(s: seq<Byte>): (f: seq<int>)
    ensures IsBits(f)
  {
    seq(N, j requires 0 <= j < N => if j in s then 1 else 0)
  }

  lemma {:induction false} OnesMembers(f: seq<int>, n: nat)
    requires n <= |f| && n <= N
    ensures forall j :: j in Ones(f, n) <==> 0 <= j < n && f[j] == 1
  {
    if n == 0 {
    } else {
      OnesMembers(f, n - 1);
      var r, last := Ones(f, n - 1), if f[n - 1] == 1 then [n - 1] else [];
      assert Ones(f, n) == r + last;
      hide Ones;
      assert forall j :: j in r + last <==> j in r || j in last;
    }
  }

  lemma IncreasingSnoc(s: seq<int>, x: int)
    requires Increasing(s) && (s != [] ==> s[|s| - 1] < x)
    ensures Increasing(s + [x])
  {
    var t := s + [x];
    forall i, j | 0 <= i < j < |t|
      ensures t[i] < t[j]
    {
      if j == |s| && i < |s| - 1 { assert s[i] < s[|s| - 1]; }
    }
  }

  lemma {:induction false} OnesIncrease(f: seq<int>, n: nat)
    requires n <= |f| && n <= N
    ensures Increasing(Ones(f, n))
  {
    if n == 0 {
    } else {
      OnesIncrease(f, n - 1);
      OnesMembers(f, n - 1);
      var r := Ones(f, n - 1);
      if f[n - 1] == 1 {
        assert Ones(f, n) == r + [n - 1];
        hide *;
        assert r != [] ==> r[|r| - 1] in r;
        IncreasingSnoc(r, n - 1);
      } else {
        assert Ones(f, n) == r;
      }
    }
  }

  lemma OnesAre(f: seq<int>, n: nat)
    requires n <= |f| && n <= N
    ensures Increasing(Ones(f, n))
    ensures forall j :: j in Ones(f, n) <==> 0 <= j < n && f[j] == 1
  {
    OnesMembers(f, n);
    OnesIncrease(f, n);
  }

  lemma HasElement(b: seq<int>)
    requires b != []
    ensures b[0] in b
  {
  }

  lemma BothEmpty(a: seq<int>, b: seq<int>)
    requires forall x :: x in a <==> x in b
    ensures a == [] <==> b == []
  {
    if a != [] {
      var x := a[0];
      assert x in a;
    }
    if b != [] {
      var x := b[0];
      assert x in b;
    }
  }

  lemma Without(s: seq<int>, last: int, y: int)
    requires Increasing(s + [last])
    ensures y in s <==> y in s + [last] && y != last
  {
    var t := s + [last];
    if y in s {
      var i :| 0 <= i < |s| && s[i] == y;
      assert t[i] == y && t[|s|] == last;
    }
  }

  lemma LastIsGreatest(s: seq<int>, x: int)
    requires Increasing(s) && x in s
    ensures x <= s[|s| - 1]
  {
    var i :| 0 <= i < |s| && s[i] == x;
  }

  lemma AllButLast(s: seq<int>)
    requires Increasing(s) && s != []
    ensures var last := |s| - 1; s == s[..last] + [s[last]] && Increasing(s[..last]) && s[last] in s
  {
  }

  /** Increasing sequences with the same elements are the same sequence. */
  lemma {:induction false} SameElements(a: seq<int>, b: seq<int>)
    requires Increasing(a) && Increasing(b) && forall x :: x in a <==> x in b
    ensures a == b
    decreases |a|
  {
    hide Increasing;
    BothEmpty(a, b);
    if a == [] {
    } else {
      AllButLast(a);
      var x, a' := a[|a| - 1], a[..|a| - 1];
      assert x in b;
      AllButLast(b);
      var z, b' := b[|b| - 1], b[..|b| - 1];
      assert z in a;
      LastIsGreatest(a, z);
      LastIsGreatest(b, x);
      forall y
        ensures y in a' <==> y in b'
      {
        Without(a', x, y);
        Without(b', x, y);
      }
      SameElements(a', b');
    }
  }

  lemma OnesOfMarked(s: seq<Byte>)
    requires Increasing(s)
    ensures Ones(Marked(s), N) == s
  {
    OnesAre(Marked(s), N);
    forall x
      ensures x in Ones(Marked(s), N) <==> x in s
    {
    }
    SameElements(Ones(Marked(s), N), s);
  }

  lemma MarkedOfOnes(f: seq<int>)
    requires IsBits(f)
    ensures Marked(Ones(f, N)) == f
  {
    OnesAre(f, N);
  }

  // ----- the encoding -----

  /** All the positions, padded to omega bytes. */
  function Positions(h: seq<seq<int>>, omega: nat): (r: seq<Byte>)
    requires IsHint(h) && |AllOnes(h)| <= omega
    ensures |r| == omega
  {
    AllOnes(h) + seq(omega - |AllOnes(h)|, _ => 0)
  }

  lemma AllOnesNext(h: seq<seq<int>>, i: nat)
    requires IsHint(h) && i < |h|
    ensures Before(h, i + 1) == Before(h, i) + Ones(h[i], N)
  {
    assert h[..i + 1][..i] == h[..i];
  }

  /** The positions of the first i polynomials begin the list of all positions. */
  lemma {:induction false} CountBelow(h: seq<seq<int>>, i: nat)
    requires IsHint(h) && i <= |h|
    ensures OnesUpTo(h, i) <= |AllOnes(h)|
    ensures Before(h, i) == AllOnes(h)[..OnesUpTo(h, i)]
    decreases |h| - i
  {
    if i == |h| {
      assert h[..i] == h;
    } else {
      CountBelow(h, i + 1);
      AllOnesNext(h, i);
    }
  }

  function Count(h: seq<seq<int>>, omega: nat, i: nat): (c: Byte)
    requires IsHint(h) && |AllOnes(h)| <= omega < 256 && i <= |h|
  {
    CountBelow(h, i);
    OnesUpTo(h, i)
  }

  function Counts(h: seq<seq<int>>, omega: nat): (r: seq<Byte>)
    requires IsHint(h) && |AllOnes(h)| <= omega < 256
    ensures |r| == |h|
  {
    seq(|h|, i requires 0 <= i < |h| => Count(h, omega, i + 1))
  }

  function HintBytes(h: seq<seq<int>>, omega: nat): (r: seq<Byte>)
    requires IsHint(h) && |AllOnes(h)| <= omega < 256
    ensures |r| == omega + |h|
  {
    Positions(h, omega) + Counts(h, omega)
  }

  lemma NoHint()
    ensures IsHint([]) && AllOnes([]) == []
  {
  }

  lemma AllOnesSnoc(h: seq<seq<int>>, f: seq<int>)
    requires IsHint(h) && IsBits(f)
    ensures IsHint(h + [f]) && AllOnes(h + [f]) == AllOnes(h) + Ones(f, N)
  {
    assert (h + [f])[..|h|] == h;
  }

  lemma HintAt(h: seq<seq<int>>, i: int)
    requires IsHint(h) && 0 <= i < |h|
    ensures IsBits(h[i]) && |h[i]| == N
  {
  }

  lemma CountsAt(h: seq<seq<int>>, omega: nat, i: nat)
    requires IsHint(h) && |AllOnes(h)| <= omega < 256 && i < |h|
    ensures Counts(h, omega)[i] == OnesUpTo(h, i + 1)
  {
  }

  lemma OnesNone(f: seq<int>)
    ensures Ones(f, 0) == []
  {
  }

  lemma {:induction false} OnesNext(f: seq<int>, j: nat)
    requires IsBits(f) && j < N
    ensures |Ones(f, j)| <= |Ones(f, j + 1)| <= |Ones(f, N)|
    ensures Ones(f, j + 1) == Ones(f, j) + if f[j] == 1 then [j] else []
    decreases N - j
  {
    if j + 1 == N {
    } else {
      OnesNext(f, j + 1);
    }
  }

  /** The loop over one polynomial. */
  method ListOnes(slots: array<Byte>, first: nat, f: seq<int>, ghost omega: nat) returns (index: nat)
    requires slots.Length == N + 1 && IsBits(f) && first + |Ones(f, N)| <= omega < 256
    modifies slots
    ensures index == first + |Ones(f, N)| && slots[..index] == old(slots[..first]) + Ones(f, N)
  {
    hide Ones;
    OnesNone(f);
    index := first;
    for j := 0 to N
      invariant index == first + |Ones(f, j)| && index <= omega
      invariant slots[..index] == old(slots[..first]) + Ones(f, j)
    {
      OnesNext(f, j);
      slots[index] := j;
      index := index + f[j];
    }
  }

  /** The last loop: the positions, then zeros under a mask. */
  method PadPositions(y: array<Byte>, at: nat, slots: array<Byte>, index: nat, ghost h: seq<seq<int>>, omega: nat)
    requires slots.Length == N + 1 && y != slots && at + omega <= y.Length && omega < 256
    requires IsHint(h) && index <= omega && slots[..index] == AllOnes(h)
    modifies y
    ensures y[..] == old(y[..at]) + Positions(h, omega) + old(y[at + omega..])
  {
    hide AllOnes, IsHint;
    ghost var padded := Positions(h, omega);
    for s := 0 to omega
      invariant y[..at] == old(y[..at]) && y[at + omega..] == old(y[at + omega..])
      invariant y[at..at + s] == padded[..s]
    {
      assert padded[s] == if s < index then slots[s] else 0;
      // keep is all ones when s < index and zero from there on
      y[at + s] := WhenNegative(s - index, slots[s]);
    }
    assert y[..] == y[..at] + y[at..at + omega] + y[at + omega..];
  }

  lemma AllOnesNone(h: seq<seq<int>>)
    requires IsHint(h)
    ensures Before(h, 0) == [] && OnesUpTo(h, 0) == 0
  {
  }

  lemma AroundCounts(y: seq<Byte>, was: seq<Byte>, counts: seq<Byte>, at: nat, omega: nat)
    requires |y| == |was| && at + omega + |counts| <= |y|
    requires y[..at + omega] == was[..at + omega] && y[at + omega + |counts|..] == was[at + omega + |counts|..]
    requires y[at + omega..at + omega + |counts|] == counts
    ensures y[..at] == was[..at] && y[at + omega..] == counts + was[at + omega + |counts|..]
  {
    assert y[..at] == y[..at + omega][..at] == was[..at];
    assert y[at + omega..] == y[at + omega..at + omega + |counts|] + y[at + omega + |counts|..];
  }

  /** Bytes written without looking at the bits: every position goes to the next free slot, and the bit
      only decides whether the slot is kept. */
  method HintBitPack(y: array<Byte>, at: nat, h: seq<seq<int>>, omega: nat)
    requires IsHint(h) && |AllOnes(h)| <= omega < 256 && at + omega + |h| <= y.Length
    modifies y
    ensures y[..] == old(y[..at]) + HintBytes(h, omega) + old(y[at + omega + |h|..])
  {
    hide AllOnes, Ones, IsHint, Counts, Count, Positions;
    ghost var was, counts := y[..], Counts(h, omega);
    var slots := new Byte[N + 1](_ => 0);
    var index := 0;
    AllOnesNone(h);
    for i := 0 to |h|
      invariant index <= omega && index == OnesUpTo(h, i) && slots[..index] == Before(h, i)
      invariant y[..at + omega] == was[..at + omega] && y[at + omega + |h|..] == was[at + omega + |h|..]
      invariant y[at + omega..at + omega + i] == counts[..i]
    {
      CountBelow(h, i + 1);
      AllOnesNext(h, i);
      HintAt(h, i);
      index := ListOnes(slots, index, h[i], omega);
      CountsAt(h, omega, i);
      y[at + omega + i] := index;
    }
    assert h[..|h|] == h && counts[..|h|] == counts;
    AroundCounts(y[..], was, counts, at, omega);
    PadPositions(y, at, slots, index, h, omega);
  }

  // ----- the decoding -----

  /** The running count before polynomial i. */
  function CountAt(y: seq<Byte>, omega: nat, i: nat): (r: nat)
    requires omega + i <= |y|
  {
    if i == 0 then 0 else y[omega + i - 1]
  }

  /** The positions listed for polynomial i. */
  predicate SegmentOk(y: seq<Byte>, omega: nat, i: nat)
    requires omega + i < |y|
  {
    CountAt(y, omega, i) <= CountAt(y, omega, i + 1) <= omega
    && Increasing(y[CountAt(y, omega, i)..CountAt(y, omega, i + 1)])
  }

  /** A well-formed hint: counts that do not run backwards or past omega, strictly increasing positions
      within each polynomial, zeros after the last position. */
  predicate IsHintString(y: seq<Byte>, omega: nat, k: nat)
    requires |y| == omega + k
  {
    && (forall i :: 0 <= i < k ==> SegmentOk(y, omega, i))
    && CountAt(y, omega, k) <= omega
    && (forall s :: CountAt(y, omega, k) <= s < omega ==> y[s] == 0)
  }

  function Decoded(y: seq<Byte>, omega: nat, k: nat): (h: seq<seq<int>>)
    requires |y| == omega + k && IsHintString(y, omega, k)
    ensures |h| == k && IsHint(h)
  {
    hide Increasing, Marked, CountAt;
    seq(k, i requires 0 <= i < k =>
      assert SegmentOk(y, omega, i);
      Marked(y[CountAt(y, omega, i)..CountAt(y, omega, i + 1)]))
  }

  lemma MarkedNone()
    ensures Marked([]) == Zero(N)
  {
  }

  lemma MarkedSnoc(s: seq<Byte>, x: Byte)
    ensures Marked(s + [x]) == Marked(s)[x := 1]
  {
  }

  /** The loop over the positions of one polynomial. */
  method ReadSegment(s: seq<Byte>) returns (r: Option<seq<int>>)
    ensures r == if Increasing(s) then Some(Marked(s)) else None
  {
    hide Marked;
    var poly := new int[N](_ => 0);
    assert poly[..] == Marked(s[..0]) by { MarkedNone(); }
    var index := 0;
    while index < |s|
      invariant 0 <= index <= |s|
      invariant Increasing(s[..index])
      invariant poly[..] == Marked(s[..index])
    {
      if index > 0 && s[index - 1] >= s[index] {
        return None;
      }
      IncreasingSnoc(s[..index], s[index]);
      MarkedSnoc(s[..index], s[index]);
      assert s[..index] + [s[index]] == s[..index + 1];
      poly[s[index]] := 1;
      index := index + 1;
    }
    assert s[..index] == s;
    return Some(poly[..]);
  }

  /** FIPS 204 Algorithm 21: decodes exactly the well-formed strings. */
  method HintBitUnpack(y: seq<Byte>, omega: nat, k: nat) returns (r: Option<seq<seq<int>>>)
    requires |y| == omega + k
    ensures r == if IsHintString(y, omega, k) then Some(Decoded(y, omega, k)) else None
  {
    hide Increasing, Marked;
    var h: seq<seq<int>> := [];
    var index := 0;
    for i := 0 to k
      invariant index == CountAt(y, omega, i) && index <= omega && |h| == i
      invariant forall t :: 0 <= t < i ==>
        SegmentOk(y, omega, t) && h[t] == Marked(y[CountAt(y, omega, t)..CountAt(y, omega, t + 1)])
    {
      var end := y[omega + i];
      if end < index || end > omega {
        assert !SegmentOk(y, omega, i);
        return None;
      }
      var poly := ReadSegment(y[index..end]);
      if poly == None {
        assert !SegmentOk(y, omega, i);
        return None;
      }
      h := h + [poly.value];
      index := end;
      assert SegmentOk(y, omega, i);
    }
    if exists s :: index <= s < omega && y[s] != 0 {
      return None;
    }
    assert h == Decoded(y, omega, k);
    return Some(h);
  }

  // ----- the two directions -----

  lemma CountOfEncoded(h: seq<seq<int>>, omega: nat, i: nat)
    requires IsHint(h) && |AllOnes(h)| <= omega < 256 && i <= |h|
    ensures CountAt(HintBytes(h, omega), omega, i) == OnesUpTo(h, i) <= |AllOnes(h)|
  {
    CountBelow(h, i);
  }

  lemma StartsWithOnes(h: seq<seq<int>>, omega: nat)
    requires IsHint(h) && |AllOnes(h)| <= omega < 256
    ensures HintBytes(h, omega)[..|AllOnes(h)|] == AllOnes(h)
  {
    hide AllOnes, Counts;
  }

  lemma Middle(s: seq<Byte>, p: seq<Byte>, m: seq<Byte>, n: nat)
    requires n <= |s| && |p| + |m| <= n && s[..n][..|p| + |m|] == p + m
    ensures s[|p|..|p| + |m|] == m
  {
    assert s[|p|..|p| + |m|] == (p + m)[|p|..];
  }

  lemma SegmentOfOnes(h: seq<seq<int>>, omega: nat, i: nat)
    requires IsHint(h) && |AllOnes(h)| <= omega < 256 && i < |h|
    ensures OnesUpTo(h, i) <= OnesUpTo(h, i + 1) <= omega
    ensures HintBytes(h, omega)[OnesUpTo(h, i)..OnesUpTo(h, i + 1)] == Ones(h[i], N)
  {
    hide IsHint, AllOnes, Ones, HintBytes, Before;
    HintAt(h, i);
    AllOnesNext(h, i);
    CountBelow(h, i + 1);
    StartsWithOnes(h, omega);
    Middle(HintBytes(h, omega), Before(h, i), Ones(h[i], N), |AllOnes(h)|);
  }

  lemma SegmentOfEncoded(h: seq<seq<int>>, omega: nat, i: nat)
    requires IsHint(h) && |AllOnes(h)| <= omega < 256 && i < |h|
    ensures var y := HintBytes(h, omega);
      && CountAt(y, omega, i) <= CountAt(y, omega, i + 1) <= omega
      && y[CountAt(y, omega, i)..CountAt(y, omega, i + 1)] == Ones(h[i], N)
  {
    hide IsHint, AllOnes, Ones, CountAt, HintBytes, OnesUpTo, Before;
    CountOfEncoded(h, omega, i);
    CountOfEncoded(h, omega, i + 1);
    SegmentOfOnes(h, omega, i);
  }

  /** Decoding an encoded hint gives the hint back. */
  lemma UnpackOfPack(h: seq<seq<int>>, omega: nat)
    requires IsHint(h) && |AllOnes(h)| <= omega < 256
    ensures IsHintString(HintBytes(h, omega), omega, |h|)
    ensures Decoded(HintBytes(h, omega), omega, |h|) == h
  {
    hide AllOnes, Ones, Marked, Increasing;
    var y := HintBytes(h, omega);
    CountOfEncoded(h, omega, |h|);
    assert h[..|h|] == h;
    forall i | 0 <= i < |h|
      ensures SegmentOk(y, omega, i) && Marked(y[CountAt(y, omega, i)..CountAt(y, omega, i + 1)]) == h[i]
    {
      SegmentOfEncoded(h, omega, i);
      OnesAre(h[i], N);
      MarkedOfOnes(h[i]);
    }
    assert Decoded(y, omega, |h|) == h;
  }

  lemma DecodedAt(y: seq<Byte>, omega: nat, k: nat, i: nat)
    requires |y| == omega + k && IsHintString(y, omega, k) && i < k
    ensures var a, b := CountAt(y, omega, i), CountAt(y, omega, i + 1);
      && a <= b <= omega && Increasing(y[a..b]) && Decoded(y, omega, k)[i] == Marked(y[a..b])
  {
    hide Marked, Increasing, CountAt;
    assert SegmentOk(y, omega, i);
  }

  lemma {:induction false} AllOnesOfDecoded(y: seq<Byte>, omega: nat, k: nat, i: nat)
    requires |y| == omega + k && IsHintString(y, omega, k) && i <= k
    ensures CountAt(y, omega, i) <= omega
    ensures AllOnes(Decoded(y, omega, k)[..i]) == y[..CountAt(y, omega, i)]
  {
    hide Marked, Ones, Increasing, IsHintString, Decoded;
    var h := Decoded(y, omega, k);
    if i == 0 {
    } else {
      hide CountAt, AllOnes;
      AllOnesOfDecoded(y, omega, k, i - 1);
      AllOnesNext(h, i - 1);
      DecodedAt(y, omega, k, i - 1);
      var a, b := CountAt(y, omega, i - 1), CountAt(y, omega, i);
      OnesOfMarked(y[a..b]);
      assert y[..b] == y[..a] + y[a..b];
    }
  }

  /** Encoding a decoded hint gives the same bytes back: no two accepted strings decode alike. */
  lemma PackOfUnpack(y: seq<Byte>, omega: nat, k: nat)
    requires |y| == omega + k && omega < 256 && IsHintString(y, omega, k)
    ensures |AllOnes(Decoded(y, omega, k))| <= omega
    ensures HintBytes(Decoded(y, omega, k), omega) == y
  {
    hide AllOnes, Marked;
    var h := Decoded(y, omega, k);
    assert h[..k] == h;
    AllOnesOfDecoded(y, omega, k, k);
    forall i | 0 <= i < k
      ensures Counts(h, omega)[i] == y[omega + i]
    {
      AllOnesOfDecoded(y, omega, k, i + 1);
    }
    assert Positions(h, omega) == y[..omega];
    assert Counts(h, omega) == y[omega..];
  }
}
