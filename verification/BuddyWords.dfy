/** One order of a region: its bitmap in words of 64 bits, and the count of its marked blocks. */
module BuddyWords {
  import opened BuddyMap

  /** memOrder, with a word as its bits from the lowest up. */
  datatype Order = Order(entryn: nat, used: nat, entry: seq<seq<bool>>)

  function Count(s: seq<bool>): nat {
    if s == [] then 0 else Count(s[..|s| - 1]) + if s[|s| - 1] then 1 else 0
  }

  predicate WordIs(w: seq<bool>, s: seq<bool>, i: nat) {
    |w| == 64 && forall b :: 0 <= b < 64 ==> w[b] == (i * 64 + b < |s| && s[i * 64 + b])
  }

  /** The order holds map `s`: bit `b` of word `i` is block `64 i + b`, the bits behind the last block stay clear,
      and `used` is the number of marked blocks. */
  ghost predicate Holds(o: Order, s: seq<bool>) {
    && o.entryn == |s| && |o.entry| == (|s| + 63) / 64 && o.used == Count(s)
    && forall i :: 0 <= i < |o.entry| ==> WordIs(o.entry[i], s, i)
  }

  /** The words the source allocates: rounded down, but at least one. They hold all blocks exactly when there are
      at most 64, or a multiple of 64. */
  function WordsAsWritten(blc: nat): nat { if blc / 64 == 0 then 1 else blc / 64 }

  lemma WordsSuffice(blc: nat)
    ensures 64 * WordsAsWritten(blc) >= blc <==> blc <= 64 || blc % 64 == 0
    ensures 64 * ((blc + 63) / 64) >= blc
  {}

  lemma {:induction false} CountUpdate(s: seq<bool>, n: nat, v: bool)
    requires n < |s|
    ensures Count(s[n := v]) + (if s[n] then 1 else 0) == Count(s) + if v then 1 else 0
    decreases |s|
  {
    var t := s[n := v];
    if n == |s| - 1 {
      assert t[..|s| - 1] == s[..|s| - 1];
    } else {
      CountUpdate(s[..|s| - 1], n, v);
      assert t[..|s| - 1] == s[..|s| - 1][n := v];
    }
  }

  lemma {:induction false} CountAll(s: seq<bool>)
    ensures Count(s) <= |s| && (Count(s) == |s| <==> Full(s))
    decreases |s|
  {
    if s != [] {
      CountAll(s[..|s| - 1]);
      if Full(s) { assert Full(s[..|s| - 1]); }
      if s[|s| - 1] && Full(s[..|s| - 1]) {
        forall i | 0 <= i < |s|
          ensures s[i]
        {
          if i < |s| - 1 { assert s[..|s| - 1][i]; }
        }
      }
    }
  }

  lemma {:induction false} CountNone(n: nat)
    ensures Count(seq(n, _ => false)) == 0
  {
    if n > 0 {
      CountNone(n - 1);
      assert seq(n, _ => false)[..n - 1] == seq(n - 1, _ => false);
    }
  }

  /** One bit of one word changed, and the count with it. */
  lemma BitChanged(o: Order, s: seq<bool>, idx: nat, bit: nat, v: bool)
    requires Holds(o, s) && bit < 64 && idx * 64 + bit < |s|
    ensures idx < |o.entry| && |o.entry[idx]| == 64 && o.entry[idx][bit] == s[idx * 64 + bit]
    ensures s[idx * 64 + bit] ==> o.used > 0
    ensures var used := if v == o.entry[idx][bit] then o.used else if v then o.used + 1 else o.used - 1;
      Holds(Order(o.entryn, used, o.entry[idx := o.entry[idx][bit := v]]), s[idx * 64 + bit := v])
  {
    var n := idx * 64 + bit;
    CountUpdate(s, n, v);
    CountUpdate(s, n, false);
    assert WordIs(o.entry[idx], s, idx);
    var entry := o.entry[idx := o.entry[idx][bit := v]];
    forall i: nat | i < |entry|
      ensures WordIs(entry[i], s[n := v], i)
    {
      assert WordIs(o.entry[i], s, i);
    }
  }

  /** A map decides the words and the count: bringing back the maps brings back the orders as they are stored. */
  lemma HoldsUnique(o: Order, o': Order, s: seq<bool>)
    requires Holds(o, s) && Holds(o', s)
    ensures o == o'
  {
    forall i | 0 <= i < |o.entry|
      ensures o.entry[i] == o'.entry[i]
    {
      assert WordIs(o.entry[i], s, i) && WordIs(o'.entry[i], s, i);
    }
  }
}
