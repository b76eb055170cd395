/** Keccak-f[1600]: keccak_f1600 of macula-keccak/src/lib.rs computes the five step mappings of FIPS 202
    section 3.2, 24 times, in place. Lane (x, y) of the state is element x + 5 y. */
module Keccak {

  const LANES := 25

  // ----- the standard's step mappings, each from one state to another -----

  function RotOne(x: bv64): (r: bv64) {
    x.RotateLeft(1)
  }

  /** u64::rotate_left: the lane turned left by n bits, one after the other. */
  function Rot(x: bv64, n: nat): (r: bv64) {
    if n == 0 then x else RotOne(Rot(x, n - 1))
  }

  function Xor(x: bv64, y: bv64): (r: bv64) {
    x ^ y
  }

  /** FIPS 202 section 3.2.1: the parity of column x. */
  function Parity(a: seq<bv64>, x: nat): (c: bv64)
    requires |a| == LANES && x < 5
  {
    Xor(Xor(Xor(Xor(a[x], a[x + 5]), a[x + 10]), a[x + 15]), a[x + 20])
  }

  function ThetaEffect(a: seq<bv64>, x: nat): (d: bv64)
    requires |a| == LANES && x < 5
  {
    Xor(Parity(a, (x + 4) % 5), Rot(Parity(a, (x + 1) % 5), 1))
  }

  function Theta(a: seq<bv64>): (r: seq<bv64>)
    requires |a| == LANES
    ensures |r| == LANES
  {
    seq(LANES, i requires 0 <= i < LANES => Xor(a[i], ThetaEffect(a, i % 5)))
  }

  /** Lane (y, 2x + 3y) for lane i = (x, y). */
  function Turned(i: nat): (j: nat)
    requires i < LANES
    ensures j < LANES
  {
    i / 5 + 5 * ((2 * (i % 5) + 3 * (i / 5)) % 5)
  }

  /** FIPS 202 section 3.2.2: the lane visited at step t, from (1, 0) by (x, y) -> (y, 2x + 3y). */
  function Visited(t: nat): (i: nat)
    ensures i < LANES
  {
    if t == 0 then 1
    else
      var i := Visited(t - 1);
      Turned(i)
  }

  /** The offset that step t assigns to the lane it visits: a triangular number. */
  function Triangular(t: nat): (n: nat)
    ensures n < 64
  {
    (t + 1) * (t + 2) / 2 % 64
  }

  /** The first step from t on that visits lane i, up to 24. */
  function StepOf(i: nat, t: nat): (u: nat)
    requires t <= 24
    ensures t <= u <= 24 && (u < 24 ==> Visited(u) == i)
    decreases 24 - t
  {
    if t == 24 || Visited(t) == i then t else StepOf(i, t + 1)
  }

  /** Lane 0 is not turned; every other lane is visited at exactly one of the 24 steps. */
  function Offset(i: nat): (n: nat)
    requires i < LANES
    ensures n < 64
  {
    if i == 0 then 0 else Triangular(StepOf(i, 0))
  }

  function Rho(a: seq<bv64>): (r: seq<bv64>)
    requires |a| == LANES
    ensures |r| == LANES
  {
    seq(LANES, i requires 0 <= i < LANES => Rot(a[i], Offset(i)))
  }

  /** FIPS 202 section 3.2.3: lane (x, y) comes from lane (x + 3y, x). */
  function PiSource(i: nat): (j: nat)
    requires i < LANES
    ensures j < LANES
  {
    (i % 5 + 3 * (i / 5)) % 5 + 5 * (i % 5)
  }

  function Pi(a: seq<bv64>): (r: seq<bv64>)
    requires |a| == LANES
    ensures |r| == LANES
  {
    seq(LANES, i requires 0 <= i < LANES => a[PiSource(i)])
  }

  function Or(x: bv64, y: bv64): (r: bv64) {
    x | y
  }

  function AndNot(x: bv64, y: bv64): (r: bv64) {
    !x & y
  }

  function ChiLane(x: bv64, y: bv64, z: bv64): (r: bv64) {
    Xor(x, AndNot(y, z))
  }

  /** FIPS 202 section 3.2.4 */
  function ChiAt(a: seq<bv64>, i: nat): (v: bv64)
    requires |a| == LANES && i < LANES
  {
    ChiLane(a[i], a[(i % 5 + 1) % 5 + 5 * (i / 5)], a[(i % 5 + 2) % 5 + 5 * (i / 5)])
  }

  function Chi(a: seq<bv64>): (r: seq<bv64>)
    requires |a| == LANES
    ensures |r| == LANES
  {
    seq(LANES, i requires 0 <= i < LANES => ChiAt(a, i))
  }

  /** FIPS 202 section 3.2.5 */
  function Iota(a: seq<bv64>, rc: bv64): (r: seq<bv64>)
    requires |a| == LANES
    ensures |r| == LANES
  {
    a[0 := Xor(a[0], rc)]
  }

  const RC: seq<bv64> := [
    0x0000_0000_0000_0001, 0x0000_0000_0000_8082, 0x8000_0000_0000_808a, 0x8000_0000_8000_8000,
    0x0000_0000_0000_808b, 0x0000_0000_8000_0001, 0x8000_0000_8000_8081, 0x8000_0000_0000_8009,
    0x0000_0000_0000_008a, 0x0000_0000_0000_0088, 0x0000_0000_8000_8009, 0x0000_0000_8000_000a,
    0x0000_0000_8000_808b, 0x8000_0000_0000_008b, 0x8000_0000_0000_8089, 0x8000_0000_0000_8003,
    0x8000_0000_0000_8002, 0x8000_0000_0000_0080, 0x0000_0000_0000_800a, 0x8000_0000_8000_000a,
    0x8000_0000_8000_8081, 0x8000_0000_0000_8080, 0x0000_0000_8000_0001, 0x8000_0000_8000_8008]

  function Round(a: seq<bv64>, ir: nat): (r: seq<bv64>)
    requires |a| == LANES && ir < 24
    ensures |r| == LANES
  {
    Iota(Chi(Pi(Rho(Theta(a)))), RC[ir])
  }

  /** The first n rounds. */
  function Rounds(a: seq<bv64>, n: nat): (r: seq<bv64>)
    requires |a| == LANES && n <= 24
    ensures |r| == LANES
  {
    if n == 0 then a else Round(Rounds(a, n - 1), n - 1)
  }

  function Permuted(a: seq<bv64>): (r: seq<bv64>)
    requires |a| == LANES
    ensures |r| == LANES
  {
    Rounds(a, 24)
  }

  // ----- the in-place code -----

  method Parities(a: array<bv64>) returns (c: seq<bv64>)
    requires a.Length == LANES
    ensures |c| == 5 && forall x :: 0 <= x < 5 ==> c[x] == Parity(a[..], x)
  {
    hide Xor;
    c := [];
    for x := 0 to 5
      invariant |c| == x && forall i :: 0 <= i < x ==> c[i] == Parity(a[..], i)
    {
      c := c + [Xor(Xor(Xor(Xor(a[x], a[x + 5]), a[x + 10]), a[x + 15]), a[x + 20])];
    }
  }

  /** The inner loop: one column. */
  method ColumnInPlace(a: array<bv64>, x: nat, d: bv64)
    requires a.Length == LANES && x < 5
    modifies a
    ensures forall i :: 0 <= i < LANES ==> a[i] == if i % 5 == x then Xor(old(a[i]), d) else old(a[i])
  {
    hide Xor;
    for y := 0 to 5
      invariant forall i :: 0 <= i < LANES ==> a[i] == if i % 5 == x && i / 5 < y then Xor(old(a[i]), d) else old(a[i])
    {
      a[x + 5 * y] := Xor(a[x + 5 * y], d);
    }
  }

  method ThetaInPlace(a: array<bv64>)
    requires a.Length == LANES
    modifies a
    ensures a[..] == Theta(old(a[..]))
  {
    hide Rot, Xor, Parity;
    ghost var s := a[..];
    var c := Parities(a);
    for x := 0 to 5
      invariant forall i :: 0 <= i < LANES ==> a[i] == if i % 5 < x then Theta(s)[i] else s[i]
    {
      var d := Xor(c[(x + 4) % 5], Rot(c[(x + 1) % 5], 1));
      assert d == ThetaEffect(s, x);
      ColumnInPlace(a, x, d);
    }
    assert a[..] == Theta(s);
  }

  const RHO: seq<nat> := [1, 3, 6, 10, 15, 21, 28, 36, 45, 55, 2, 14, 27, 41, 56, 8, 25, 43, 62, 18, 39, 61, 20, 44]
  const PI: seq<nat> := [10, 7, 11, 17, 18, 3, 5, 16, 8, 21, 24, 4, 15, 23, 19, 13, 12, 2, 20, 14, 22, 9, 6, 1]

  function Target(t: nat): (j: nat)
    requires t < 24
    ensures j < LANES
  {
    PI[t]
  }

  function Turn(t: nat): (n: nat)
    requires t < 24
    ensures n < 64
  {
    RHO[t]
  }

  /** The lane whose value the carry holds before step t. */
  function Carried(t: nat): (i: nat)
    requires t <= 24
    ensures i < LANES
  {
    if t == 0 then 1 else Target(t - 1)
  }

  lemma NextSum(n: int, n': int, t: int)
    requires 0 <= t && n' == n + 2 * (t + 1)
    ensures n' / 2 % 64 == (n / 2 % 64 + t + 1) % 64
  {
    assert n' / 2 == n / 2 + (t + 1);
  }

  lemma TriangularNext(t: nat)
    requires t > 0
    ensures Triangular(t) == (Triangular(t - 1) + t + 1) % 64
  {
    assert (t + 1) * (t + 2) == t * (t + 1) + 2 * (t + 1);
    NextSum(t * (t + 1), (t + 1) * (t + 2), t);
  }

  lemma TableNext(t: nat)
    requires 1 <= t < 24
    ensures Turn(t) == (Turn(t - 1) + t + 1) % 64
  {
  }

  lemma {:induction false} OffsetTable(t: nat)
    requires t < 24
    ensures Turn(t) == Triangular(t)
  {
    if t == 0 {
    } else {
      OffsetTable(t - 1);
      TriangularNext(t);
      TableNext(t);
    }
  }

  lemma PathTable(t: nat)
    requires t < 8
    ensures Target(t) == Turned(Carried(t))
  {
  }

  lemma MiddlePathTable(t: nat)
    requires 8 <= t < 16
    ensures Target(t) == Turned(Carried(t))
  {
  }

  lemma LaterPathTable(t: nat)
    requires 16 <= t < 24
    ensures Target(t) == Turned(Carried(t))
  {
  }

  /** The tables walk the standard's path. */
  lemma TablesWalk(t: nat)
    requires t < 24
    ensures Target(t) == Turned(Carried(t)) && Turn(t) == Triangular(t)
  {
    hide Turned;
    OffsetTable(t);
    if t < 8 { PathTable(t); } else if t < 16 { MiddlePathTable(t); } else { LaterPathTable(t); }
  }

  lemma {:induction false} CarriedIsVisited(t: nat)
    requires t <= 24
    ensures Carried(t) == Visited(t)
  {
    if t == 0 {
    } else {
      CarriedIsVisited(t - 1);
      TablesWalk(t - 1);
    }
  }

  const ORDER: seq<nat> := [24, 23, 17, 5, 11, 6, 22, 1, 8, 21, 0, 2, 16, 15, 19, 12, 7, 3, 4, 14, 18, 9, 20, 13, 10]

  /** The position of lane i in the table PI. */
  function Order(i: nat): (t: nat)
    requires i < LANES
    ensures t <= 24
  {
    ORDER[i]
  }

  lemma OrderOf(i: nat)
    requires 1 <= i < LANES
    ensures Order(i) < 24 && Target(Order(i)) == i
  {
  }

  lemma OrderOfPi(t: nat)
    requires t < 24
    ensures Target(t) != 0 && Order(Target(t)) == t
  {
  }

  /** Lane i of the rotated and permuted state, as the walk leaves it. */
  function Walked(s: seq<bv64>, i: nat): (v: bv64)
    requires |s| == LANES && 1 <= i < LANES
  {
    OrderOf(i);
    Rot(s[Carried(Order(i))], Turn(Order(i)))
  }

  lemma LaneZero(s: seq<bv64>)
    requires |s| == LANES
    ensures Pi(Rho(s))[0] == s[0]
  {
    assert PiSource(0) == 0 && Offset(0) == 0;
    assert Rot(s[0], 0) == s[0];
  }

  lemma ReturnsTo(x: int, y: int)
    requires 0 <= x < 5 && 0 <= y < 5
    ensures (y + 3 * ((2 * x + 3 * y) % 5)) % 5 == x
  {
    var q := (2 * x + 3 * y) / 5;
    assert y + 3 * (2 * x + 3 * y - 5 * q) == x + 5 * (x + 2 * y - 3 * q);
  }

  /** Pi fetches lane Turned(i) from lane i. */
  lemma SourceOfTurned(i: nat)
    requires i < LANES
    ensures PiSource(Turned(i)) == i
  {
    var x, y := i % 5, i / 5;
    var j := Turned(i);
    var y' := (2 * x + 3 * y) % 5;
    assert j == y + 5 * y' && j % 5 == y && j / 5 == y';
    ReturnsTo(x, y);
  }

  lemma NotLaneZero(t: nat)
    requires t < 24
    ensures Carried(t) != 0
  {
    if t > 0 { OrderOfPi(t - 1); }
  }

  lemma DistinctVisits(u: nat, t: nat)
    requires u < t < 24
    ensures Carried(u) != Carried(t)
  {
    OrderOfPi(t - 1);
    if u > 0 { OrderOfPi(u - 1); } else { OrderOfPi(23); }
  }

  lemma {:induction false} FirstVisit(t: nat, u: nat)
    requires u <= t < 24
    ensures StepOf(Visited(t), u) == t
    decreases t - u
  {
    hide Visited;
    if u == t {
    } else {
      CarriedIsVisited(t);
      CarriedIsVisited(u);
      DistinctVisits(u, t);
      FirstVisit(t, u + 1);
    }
  }

  lemma OffsetOfVisited(t: nat)
    requires t < 24
    ensures Offset(Visited(t)) == Triangular(t)
  {
    hide Triangular, Visited;
    CarriedIsVisited(t);
    NotLaneZero(t);
    FirstVisit(t, 0);
  }

  /** The walk leaves in lane i what the standard's rho and pi put there. */
  lemma WalkedIsStandard(s: seq<bv64>, i: nat)
    requires |s| == LANES && 1 <= i < LANES
    ensures Walked(s, i) == Pi(Rho(s))[i]
  {
    hide Rot, Offset;
    var t := Order(i);
    OrderOf(i);
    TablesWalk(t);
    CarriedIsVisited(t);
    SourceOfTurned(Carried(t));
    OffsetOfVisited(t);
  }

  lemma AllWalked(s: seq<bv64>, r: seq<bv64>)
    requires |s| == |r| == LANES && r[0] == s[0]
    requires forall j :: 1 <= j < LANES ==> r[j] == if Order(j) < 24 then Walked(s, j) else s[j]
    ensures r == Pi(Rho(s))
  {
    hide Walked, Pi, Rho, Order;
    forall j | 0 <= j < LANES
      ensures r[j] == Pi(Rho(s))[j]
    {
      if j > 0 {
        OrderOf(j);
        WalkedIsStandard(s, j);
      } else {
        LaneZero(s);
      }
    }
  }

  lemma WalkedIs(s: seq<bv64>, t: nat)
    requires |s| == LANES && t < 24
    ensures 1 <= Target(t) < LANES && Walked(s, Target(t)) == Rot(s[Carried(t)], Turn(t))
  {
    hide Rot;
    OrderOfPi(t);
  }

  /** No other lane has the order t. */
  lemma OthersOrder(t: nat)
    requires t < 24
    ensures forall j :: 1 <= j < LANES && j != Target(t) ==> Order(j) != t
  {
    forall j | 1 <= j < LANES && j != Target(t)
      ensures Order(j) != t
    {
      OrderOf(j);
    }
  }

  /** The walk with one carried lane. */
  method RhoPiInPlace(a: array<bv64>)
    requires a.Length == LANES
    modifies a
    ensures a[..] == Pi(Rho(old(a[..])))
  {
    hide Rot, Walked, Pi, Rho, Order, Target, Turn;
    ghost var s := a[..];
    var last := a[1];
    for i := 0 to 24
      invariant last == s[Carried(i)] && a[0] == s[0]
      invariant forall j :: 1 <= j < LANES ==> a[j] == if Order(j) < i then Walked(s, j) else s[j]
    {
      var j := Target(i);
      OrderOfPi(i);
      var tmp := a[j];
      a[j] := Rot(last, Turn(i));
      last := tmp;
      WalkedIs(s, i);
      OthersOrder(i);
    }
    AllWalked(s, a[..]);
  }

  lemma ChiAtRow(s: seq<bv64>, x: nat, y: nat)
    requires |s| == LANES && x < 5 && y < 5
    ensures ChiAt(s, 5 * y + x) == ChiLane(s[5 * y + x], s[5 * y + (x + 1) % 5], s[5 * y + (x + 2) % 5])
  {
    hide ChiLane;
    assert (5 * y + x) % 5 == x && (5 * y + x) / 5 == y;
  }

  /** Lane x of chi on one row. */
  function ChiOfRow(row: seq<bv64>, x: nat): (v: bv64)
    requires |row| == 5 && x < 5
  {
    ChiLane(row[x], row[(x + 1) % 5], row[(x + 2) % 5])
  }

  lemma RowAt(s: seq<bv64>, x: nat, y: nat)
    requires |s| == LANES && x < 5 && y < 5
    ensures ChiAt(s, 5 * y + x) == ChiOfRow(s[5 * y..5 * y + 5], x)
  {
    hide ChiAt, ChiLane;
    ChiAtRow(s, x, y);
  }

  /** One row: a copy of it is read while the row is rewritten. */
  method RowInPlace(a: array<bv64>, y: nat, row: seq<bv64>, ghost s: seq<bv64>)
    requires a.Length == LANES && |s| == LANES && y < 5 && row == s[5 * y..5 * y + 5]
    modifies a
    ensures forall i :: 0 <= i < LANES ==> a[i] == if 5 * y <= i < 5 * y + 5 then ChiAt(s, i) else old(a[i])
  {
    hide ChiAt, ChiOfRow;
    for x := 0 to 5
      invariant forall i :: 0 <= i < LANES ==> a[i] == if 5 * y <= i < 5 * y + x then ChiAt(s, i) else old(a[i])
    {
      RowAt(s, x, y);
      a[5 * y + x] := ChiOfRow(row, x);
    }
  }

  method ChiInPlace(a: array<bv64>)
    requires a.Length == LANES
    modifies a
    ensures a[..] == Chi(old(a[..]))
  {
    hide ChiAt;
    ghost var s := a[..];
    for y := 0 to 5
      invariant forall i :: 0 <= i < LANES ==> a[i] == if i < 5 * y then ChiAt(s, i) else s[i]
    {
      var row := [a[5 * y], a[5 * y + 1], a[5 * y + 2], a[5 * y + 3], a[5 * y + 4]];
      RowInPlace(a, y, row, s);
    }
    assert a[..] == Chi(s);
  }

  method IotaInPlace(a: array<bv64>, ir: nat)
    requires a.Length == LANES && ir < 24
    modifies a
    ensures a[..] == Iota(old(a[..]), RC[ir])
  {
    hide Xor;
    a[0] := Xor(a[0], RC[ir]);
  }

  method KeccakF1600(a: array<bv64>)
    requires a.Length == LANES
    modifies a
    ensures a[..] == Permuted(old(a[..]))
  {
    hide Theta, Rho, Pi, Chi, Iota;
    ghost var s := a[..];
    for ir := 0 to 24
      invariant a[..] == Rounds(s, ir)
    {
      ThetaInPlace(a);
      RhoPiInPlace(a);
      ChiInPlace(a);
      IotaInPlace(a, ir);
    }
  }
}
