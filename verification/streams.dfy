/** The output of an extendable-output function as an infinite stream of bytes, and rejection sampling
    from a stream of candidates. Every result about a sampler holds for every stream. */
module Streams {
  import opened Machine
  import opened Modular

  type Stream = nat -> Byte

  /** n bytes of a stream. */
  function Take(s: Stream, from: nat, n: nat): (r: seq<Byte>)
    ensures |r| == n
  {
    seq(n, i requires 0 <= i < n => s(from + i))
  }

  /** The bytes r are bytes from, from + 1, ... of a stream. */
  ghost predicate Reads(r: seq<Byte>, s: Stream, from: nat) {
    forall i :: 0 <= i < |r| ==> r[i] == s(from + i)
  }

  /** Bit t of a stream, the lowest bit of a byte first. */
  function StreamBit(s: Stream, t: nat): (b: int) {
    s(t / 8) / Pow2(t % 8) % 2
  }

  /** Candidate values in order; a candidate that is refused is None. */
  type Candidates = nat -> Option<int>

  /** The values accepted among the first k candidates. */
  function Accepted(c: Candidates, k: nat): (r: seq<int>)
    ensures |r| <= k
  {
    if k == 0 then [] else Accepted(c, k - 1) + if c(k - 1).Some? then [c(k - 1).value] else []
  }

  lemma NoneAccepted(c: Candidates)
    ensures Accepted(c, 0) == []
  {
  }

  /** The stream of candidates holds n acceptable ones: rejection sampling for n values ends. */
  ghost predicate Yields(c: Candidates, n: nat) {
    exists k: nat :: |Accepted(c, k)| >= n
  }

  /** The first n accepted values. */
  ghost function FirstAccepted(c: Candidates, n: nat): (r: seq<int>)
    requires Yields(c, n)
    ensures |r| == n
  {
    var k: nat :| |Accepted(c, k)| >= n;
    Accepted(c, k)[..n]
  }

  lemma {:induction false} AcceptedPrefix(c: Candidates, j: nat, k: nat)
    requires j <= k
    ensures |Accepted(c, j)| <= |Accepted(c, k)| && Accepted(c, k)[..|Accepted(c, j)|] == Accepted(c, j)
  {
    if j == k {
    } else {
      AcceptedPrefix(c, j, k - 1);
    }
  }

  /** Where the sampling stopped does not matter. */
  lemma FirstAcceptedAt(c: Candidates, n: nat, k: nat)
    requires |Accepted(c, k)| >= n
    ensures Yields(c, n) && FirstAccepted(c, n) == Accepted(c, k)[..n]
  {
    assert Yields(c, n);
    var k': nat :| |Accepted(c, k')| >= n && FirstAccepted(c, n) == Accepted(c, k')[..n];
    if k <= k' { AcceptedPrefix(c, k, k'); } else { AcceptedPrefix(c, k', k); }
  }

  /** As long as fewer than n values were accepted, the n-th lies ahead. */
  lemma StillAhead(c: Candidates, n: nat, j: nat, k: nat)
    requires |Accepted(c, j)| < n <= |Accepted(c, k)|
    ensures j < k
  {
    if k <= j {
      AcceptedPrefix(c, k, j);
    }
  }

  lemma {:induction false} AcceptedIn(c: Candidates, k: nat, i: nat) returns (t: nat)
    requires i < |Accepted(c, k)|
    ensures c(t) == Some(Accepted(c, k)[i])
  {
    if i < |Accepted(c, k - 1)| {
      t := AcceptedIn(c, k - 1, i);
    } else {
      t := k - 1;
    }
  }

  /** Every sampled value is one of the candidates. */
  lemma FirstAcceptedIn(c: Candidates, n: nat, i: nat) returns (t: nat)
    requires Yields(c, n) && i < n
    ensures c(t) == Some(FirstAccepted(c, n)[i])
  {
    var k: nat :| |Accepted(c, k)| >= n;
    FirstAcceptedAt(c, n, k);
    t := AcceptedIn(c, k, i);
  }

  /** The places of the values accepted among the first k candidates. */
  function AcceptedAt(c: Candidates, k: nat): (at: seq<nat>)
    ensures |at| <= k
  {
    if k == 0 then [] else AcceptedAt(c, k - 1) + if c(k - 1).Some? then [k - 1] else []
  }

  lemma {:induction false} PlacesOfAccepted(c: Candidates, k: nat)
    ensures var at := AcceptedAt(c, k);
      && |at| == |Accepted(c, k)|
      && (forall i :: 0 <= i < |at| ==> at[i] < k && c(at[i]) == Some(Accepted(c, k)[i]))
      && (forall i, j :: 0 <= i < j < |at| ==> at[i] < at[j])
  {
    if k == 0 {
    } else {
      PlacesOfAccepted(c, k - 1);
    }
  }

  lemma {:induction false} NoneBetween(c: Candidates, k: nat, t: nat)
    requires t < k && c(t).Some?
    ensures t in AcceptedAt(c, k)
  {
    if t == k - 1 {
    } else {
      NoneBetween(c, k - 1, t);
    }
  }

  /** Rejection sampling takes n candidates in order and skips exactly those that are refused. */
  lemma FirstAcceptedInOrder(c: Candidates, n: nat) returns (at: seq<nat>)
    requires Yields(c, n)
    ensures |at| == n && forall i :: 0 <= i < n ==> c(at[i]) == Some(FirstAccepted(c, n)[i])
    ensures forall i, j :: 0 <= i < j < n ==> at[i] < at[j]
    ensures forall t: nat :: n > 0 && t <= at[n - 1] && c(t).Some? ==> t in at
  {
    var k: nat :| |Accepted(c, k)| >= n;
    FirstAcceptedAt(c, n, k);
    PlacesOfAccepted(c, k);
    var all := AcceptedAt(c, k);
    at := all[..n];
    forall t: nat | n > 0 && t <= at[n - 1] && c(t).Some?
      ensures t in at
    {
      NoneBetween(c, k, t);
      var i :| 0 <= i < |all| && all[i] == t;
      assert i < n;
      assert at[i] == t;
    }
  }

  /** When nothing is refused every candidate counts. */
  lemma {:induction false} NothingRefused(c: Candidates, k: nat)
    requires forall i: nat :: c(i).Some?
    ensures |Accepted(c, k)| == k
  {
    if k == 0 {
    } else {
      NothingRefused(c, k - 1);
    }
  }

  /** A stream of zeros. */
  function Zeros(): (s: Stream) {
    (i: nat) => 0
  }

  /** One candidate examined: it is stored in the next free place unless it is refused. */
  method Keep(out: array<int>, j: nat, v: Option<int>, ghost c: Candidates, ghost seen: nat) returns (j': nat)
    requires j < out.Length && v == c(seen) && j == |Accepted(c, seen)| && out[..j] == Accepted(c, seen)
    modifies out
    ensures j <= j' <= out.Length && j' == |Accepted(c, seen + 1)| && out[..j'] == Accepted(c, seen + 1)
  {
    j' := j;
    if v.Some? {
      out[j] := v.value;
      j' := j + 1;
    }
  }

  // ----- the next byte not above a limit -----

  ghost predicate Reaches(s: Stream, pos: nat, limit: int) {
    exists p :: pos <= p && s(p) <= limit
  }

  function Search(s: Stream, pos: nat, limit: int, p: nat): (r: nat)
    requires pos <= p && s(p) <= limit
    ensures pos <= r <= p && s(r) <= limit && forall t :: pos <= t < r ==> s(t) > limit
    decreases p - pos
  {
    if s(pos) <= limit then pos else Search(s, pos + 1, limit, p)
  }

  /** The first position from pos on whose byte is at most limit. */
  ghost function Next(s: Stream, pos: nat, limit: int): (r: nat)
    requires Reaches(s, pos, limit)
    ensures pos <= r && s(r) <= limit && forall t :: pos <= t < r ==> s(t) > limit
  {
    var p :| pos <= p && s(p) <= limit;
    Search(s, pos, limit, p)
  }
}
