/** The bitmaps of a buddy region: one map for every order, where a block of the next order is marked when one of
    its two halves is. */
module BuddyMap {
  import opened PhysOrder

  // ---- Ancestors -----------------------------------------------------------------------------------------

  /** The block `d` orders up that holds block `x`. */
  function Up(x: nat, d: nat): nat { if d == 0 then x else Up(x, d - 1) / 2 }

  lemma {:induction false} UpHalf(x: nat, d: nat)
    ensures Up(x / 2, d) == Up(x, d + 1)
  {
    if d > 0 { UpHalf(x, d - 1); }
  }

  /** The blocks `d` orders down from block `p` are 2^d in a row. */
  lemma {:induction false} UpRange(x: nat, d: nat, p: nat)
    ensures Up(x, d) == p <==> Pow2(d) * p <= x < Pow2(d) * (p + 1)
  {
    if d > 0 {
      UpHalf(x, d - 1);
      UpRange(x / 2, d - 1, p);
      Doubled(Pow2(d - 1), p);
      Doubled(Pow2(d - 1), p + 1);
    }
  }

  lemma Doubled(a: nat, b: nat)
    ensures 2 * a * b == 2 * (a * b)
  {}

  // ---- The summary ---------------------------------------------------------------------------------------

  predicate Halved(m: seq<seq<bool>>, k: nat)
    requires k + 1 < |m|
  {
    |m[k + 1]| == |m[k]| / 2
  }

  ghost predicate Shape(m: seq<seq<bool>>) {
    forall k :: 0 <= k < |m| - 1 ==> Halved(m, k)
  }

  /** Block `p` of order `k + 1` is marked exactly when one of its halves is. */
  predicate NodeSum(m: seq<seq<bool>>, k: nat, p: nat)
    requires k + 1 < |m| && Halved(m, k) && p < |m[k + 1]|
  {
    m[k + 1][p] == (m[k][2 * p] || m[k][2 * p + 1])
  }

  ghost predicate Summary(m: seq<seq<bool>>) {
    Shape(m) && forall k, p :: 0 <= k < |m| - 1 && 0 <= p < |m[k + 1]| ==> NodeSum(m, k, p)
  }

  /** A minimum block below block `p` of order `k` is allocated. */
  ghost predicate Occupied(m: seq<seq<bool>>, k: nat, p: nat)
    requires m != []
  {
    exists x :: 0 <= x < |m[0]| && m[0][x] && Up(x, k) == p
  }

  /** A block is marked exactly when some minimum block inside it is allocated, so an unmarked one is wholly free. */
  lemma {:induction false} SummaryMeans(m: seq<seq<bool>>, k: nat, p: nat)
    requires Summary(m) && k < |m| && p < |m[k]|
    ensures m[k][p] <==> Occupied(m, k, p)
    decreases k
  {
    if k == 0 {
      assert Up(p, 0) == p;
    } else {
      assert Halved(m, k - 1) && NodeSum(m, k - 1, p);
      SummaryMeans(m, k - 1, 2 * p);
      SummaryMeans(m, k - 1, 2 * p + 1);
      if Occupied(m, k, p) {
        var x :| 0 <= x < |m[0]| && m[0][x] && Up(x, k) == p;
        assert Up(x, k - 1) == 2 * p || Up(x, k - 1) == 2 * p + 1;
      }
      if m[k][p] {
        var c := if m[k - 1][2 * p] then 2 * p else 2 * p + 1;
        var x :| 0 <= x < |m[0]| && m[0][x] && Up(x, k - 1) == c;
        assert Up(x, k) == p;
      }
    }
  }

  predicate Full(s: seq<bool>) { forall i :: 0 <= i < |s| ==> s[i] }

  /** An order that is fully allocated has only fully allocated orders above it. */
  lemma {:induction false} FullAbove(m: seq<seq<bool>>, k: nat, j: nat)
    requires Summary(m) && k <= j < |m| && Full(m[k])
    ensures Full(m[j])
    decreases j
  {
    if j > k {
      FullAbove(m, k, j - 1);
      assert Halved(m, j - 1);
      forall p | 0 <= p < |m[j]|
        ensures m[j][p]
      {
        assert NodeSum(m, j - 1, p);
      }
    }
  }

  /** The minimum blocks decide every map. */
  lemma {:induction false} SummaryUnique(m: seq<seq<bool>>, m': seq<seq<bool>>, k: nat)
    requires Summary(m) && Summary(m') && |m| == |m'| && k < |m| && m[0] == m'[0]
    ensures m[k] == m'[k]
    decreases k
  {
    if k > 0 {
      SummaryUnique(m, m', k - 1);
      assert Halved(m, k - 1) && Halved(m', k - 1);
      forall p | 0 <= p < |m[k]|
        ensures m[k][p] == m'[k][p]
      {
        assert NodeSum(m, k - 1, p) && NodeSum(m', k - 1, p);
      }
    }
  }

  lemma SameMaps(m: seq<seq<bool>>, m': seq<seq<bool>>)
    requires Summary(m) && Summary(m') && |m| == |m'| && (m == [] || m[0] == m'[0])
    ensures m == m'
  {
    forall k | 0 <= k < |m|
      ensures m[k] == m'[k]
    {
      SummaryUnique(m, m', k);
    }
  }

  // ---- Marking a block -----------------------------------------------------------------------------------

  /** Block `x` of order `j` meets block `n` of order `k`: it is part of it, or holds it. */
  predicate Touches(k: nat, n: nat, j: nat, x: nat) {
    if j <= k then Up(x, k - j) == n else x == Up(n, j - k)
  }

  function MarkedRow(s: seq<bool>, k: nat, n: nat, j: nat): seq<bool> {
    seq(|s|, x requires 0 <= x < |s| => s[x] || Touches(k, n, j, x))
  }

  function Marked(m: seq<seq<bool>>, k: nat, n: nat): seq<seq<bool>> {
    seq(|m|, j requires 0 <= j < |m| => MarkedRow(m[j], k, n, j))
  }

  lemma TouchesChildren(k: nat, n: nat, j: nat, p: nat)
    ensures Touches(k, n, j + 1, p) <==> Touches(k, n, j, 2 * p) || Touches(k, n, j, 2 * p + 1)
  {
    if j < k {
      UpHalf(2 * p, k - j - 1);
      UpHalf(2 * p + 1, k - j - 1);
    }
  }

  lemma MarkedSummary(m: seq<seq<bool>>, k: nat, n: nat)
    requires Summary(m)
    ensures Summary(Marked(m, k, n))
  {
    var r := Marked(m, k, n);
    forall j: nat | j < |r| - 1
      ensures Halved(r, j)
    {
      assert Halved(m, j);
    }
    forall j: nat, p: nat | j < |r| - 1 && p < |r[j + 1]|
      ensures NodeSum(r, j, p)
    {
      assert Halved(m, j) && NodeSum(m, j, p);
      TouchesChildren(k, n, j, p);
      assert r[j + 1][p] == (m[j + 1][p] || Touches(k, n, j + 1, p));
      assert r[j][2 * p] == (m[j][2 * p] || Touches(k, n, j, 2 * p));
      assert r[j][2 * p + 1] == (m[j][2 * p + 1] || Touches(k, n, j, 2 * p + 1));
    }
  }

  /** The map with the blocks from `a` up to `b` set. */
  function SetRange(s: seq<bool>, a: nat, b: nat): seq<bool> {
    seq(|s|, x requires 0 <= x < |s| => s[x] || a <= x < b)
  }

  lemma MarkedRange(s: seq<bool>, k: nat, n: nat, j: nat)
    requires j <= k
    ensures MarkedRow(s, k, n, j) == SetRange(s, Pow2(k - j) * n, Pow2(k - j) * (n + 1))
  {
    forall x: nat | x < |s|
      ensures Touches(k, n, j, x) <==> Pow2(k - j) * n <= x < Pow2(k - j) * (n + 1)
    {
      UpRange(x, k - j, n);
    }
  }

  /** A block of order `k` covers 2^(k-j) blocks of order `j`, and those exist. */
  lemma {:induction false} BlocksBelow(m: seq<seq<bool>>, k: nat, n: nat, j: nat)
    requires Shape(m) && j <= k < |m| && n < |m[k]|
    ensures Pow2(k - j) * (n + 1) <= |m[j]|
    decreases k - j
  {
    if j < k {
      BlocksBelow(m, k, n, j + 1);
      assert Halved(m, j);
      Doubled(Pow2(k - j - 1), n + 1);
    }
  }

  // ---- Clearing a minimum block ----------------------------------------------------------------------------

  predicate Here(k: nat, p: nat) { true }

  /** Every node agrees with its halves, but node `n` of order `o`, whose halves are both clear. */
  ghost predicate SummaryBut(m: seq<seq<bool>>, o: nat, n: nat) {
    && Shape(m) && o < |m| && n < |m[o]|
    && (forall k: nat, p: nat {:trigger Here(k, p)} ::
          Here(k, p) && k < |m| - 1 && p < |m[k + 1]| && !(k + 1 == o && p == n) ==> Halved(m, k) && NodeSum(m, k, p))
    && (o > 0 ==> 2 * n + 1 < |m[o - 1]| && !m[o - 1][2 * n] && !m[o - 1][2 * n + 1])
  }

  function Put(m: seq<seq<bool>>, k: nat, n: nat, v: bool): seq<seq<bool>>
    requires k < |m| && n < |m[k]|
  {
    m[k := m[k][n := v]]
  }

  lemma StartClearing(m: seq<seq<bool>>, n: nat)
    requires Summary(m) && m != [] && n < |m[0]|
    ensures SummaryBut(m, 0, n)
  {}

  /** One step up: clearing the node mends it, and only its parent may now be wrong. */
  lemma ClearStep(m: seq<seq<bool>>, o: nat, n: nat)
    requires SummaryBut(m, o, n)
    ensures var r := Put(m, o, n, false);
      if o + 1 == |m| || n / 2 >= |m[o + 1]| then Summary(r)
      else
        var s := if n % 2 == 1 then n - 1 else n + 1;
        s < |m[o]| && if m[o][s] then Summary(r) else SummaryBut(r, o + 1, n / 2)
  {
    var r := Put(m, o, n, false);
    forall k: nat | k < |m| - 1
      ensures Halved(r, k)
    {
      assert Halved(m, k);
    }
    forall k: nat, p: nat | k < |m| - 1 && p < |m[k + 1]| && !(k == o && p == n / 2)
      ensures NodeSum(r, k, p)
    {
      assert Here(k, p);
    }
    if o + 1 < |m| && n / 2 < |m[o + 1]| {
      assert Here(o, n / 2) && Halved(m, o);
    }
  }

  // ---- Round trip ----------------------------------------------------------------------------------------------

  function ClearAll(s: seq<bool>, xs: seq<nat>): seq<bool> {
    if xs == [] then s
    else
      var r := ClearAll(s, xs[..|xs| - 1]);
      if xs[|xs| - 1] < |r| then r[xs[|xs| - 1] := false] else r
  }

  lemma {:induction false} ClearAllAt(s: seq<bool>, xs: seq<nat>, x: nat)
    requires x < |s|
    ensures |ClearAll(s, xs)| == |s| && ClearAll(s, xs)[x] == (s[x] && x !in xs)
    decreases |xs|
  {
    if xs != [] {
      var ys, y := xs[..|xs| - 1], xs[|xs| - 1];
      ClearAllAt(s, ys, x);
      assert xs == ys + [y];
    }
  }

  /** The minimum blocks of a block, listed in any order. */
  ghost predicate Lists(xs: seq<nat>, a: nat, b: nat) { forall x: nat :: x in xs <==> a <= x < b }

  /** Allocating a free block of any order and then freeing its minimum blocks one by one, in whatever order,
      brings back every map of every order. */
  lemma RoundTrip(m: seq<seq<bool>>, m': seq<seq<bool>>, k: nat, n: nat, xs: seq<nat>)
    requires Summary(m) && Summary(m') && |m'| == |m| && k < |m| && n < |m[k]| && !m[k][n]
    requires Lists(xs, Pow2(k) * n, Pow2(k) * (n + 1)) && m'[0] == ClearAll(Marked(m, k, n)[0], xs)
    ensures m' == m
  {
    MarkedRange(m[0], k, n, 0);
    assert |m'[0]| == |m[0]| by {
      if m[0] != [] { ClearAllAt(Marked(m, k, n)[0], xs, 0); }
      ClearAllLength(Marked(m, k, n)[0], xs);
    }
    forall x: nat | x < |m[0]|
      ensures m'[0][x] == m[0][x]
    {
      ClearAllAt(Marked(m, k, n)[0], xs, x);
      if x in xs { FreeBelow(m, k, n, x); }
    }
    SameMaps(m, m');
  }

  lemma {:induction false} ClearAllLength(s: seq<bool>, xs: seq<nat>)
    ensures |ClearAll(s, xs)| == |s|
    decreases |xs|
  {
    if xs != [] { ClearAllLength(s, xs[..|xs| - 1]); }
  }

  /** Below an unmarked block nothing is allocated. */
  lemma FreeBelow(m: seq<seq<bool>>, k: nat, n: nat, x: nat)
    requires Summary(m) && k < |m| && n < |m[k]| && !m[k][n] && x < |m[0]|
    requires Pow2(k) * n <= x < Pow2(k) * (n + 1)
    ensures !m[0][x]
  {
    SummaryMeans(m, k, n);
    UpRange(x, k, n);
  }
}
