/** writeHex of the kernel's printf. */
module HexPrinter {
  import opened Words

  function Pow16(k: nat): (p: nat)
    ensures p > 0
  {
    if k == 0 then 1 else 16 * Pow16(k - 1)
  }

  /** `num & mask`, from the lowest bit up. */
  function And(num: nat, mask: nat): nat {
    if num == 0 || mask == 0 then 0
    else 2 * And(num / 2, mask / 2) + if num % 2 == 1 && mask % 2 == 1 then 1 else 0
  }

  predicate IsDigit(c: char, caps: bool) {
    '0' <= c <= '9' || (if caps then 'A' <= c <= 'F' else 'a' <= c <= 'f')
  }

  function DigitValue(c: char): nat {
    if '0' <= c <= '9' then (c - '0') as nat
    else if 'a' <= c <= 'f' then (c - 'a') as nat + 10
    else if 'A' <= c <= 'F' then (c - 'A') as nat + 10
    else 0
  }

  /** The digit of each value below sixteen, in ASCII: from 48 on, and for letters from 65 or 97 on. */
  lemma DigitsAre(d: nat, caps: bool, c: char)
    requires d < 16
    ensures IsDigit(c, caps) && DigitValue(c) == d <==>
            c as int == if d < 10 then 48 + d else if caps then 65 + (d - 10) else 97 + (d - 10)
    ensures IsDigit(c, caps) ==> DigitValue(c) < 16
  {}

  /** The number that hexadecimal digits stand for. */
  function Value(s: string): nat {
    if s == "" then 0 else 16 * Value(s[..|s| - 1]) + DigitValue(s[|s| - 1])
  }

  /** Digits of one case, and a leading zero only in "0". */
  ghost predicate Canonical(s: string, caps: bool) {
    s != "" && (forall i :: 0 <= i < |s| ==> IsDigit(s[i], caps)) && (s[0] == '0' ==> s == "0")
  }

  /** Digit `k` of a number, and its `n` digits from there up. */
  function DigitAt(num: nat, k: nat): nat { num / Pow16(k) % 16 }

  function Digits(num: nat, k: nat, n: nat): nat { num / Pow16(k) % Pow16(n) }

  /** The mask picks out one digit. */
  lemma {:induction false} AndNibble(num: nat, k: nat)
    ensures And(num, 15 * Pow16(k)) == num / Pow16(k) % 16 * Pow16(k)
    decreases k
  {
    if k == 0 {
      AndFifteen(num);
    } else {
      var p := Pow16(k - 1);
      assert Pow16(k) == 16 * p;
      AndNibble(num / 16, k - 1);
      AndShift4(num, 15 * p);
      DivTwice(num, 16, p, 16 * p);
      hide *;
      Regroup(num / 16 / p % 16, p);
    }
  }

  lemma Regroup(d: nat, p: nat)
    ensures 16 * (d * p) == d * (16 * p)
  {}

  lemma AndFifteen(num: nat)
    ensures And(num, 15) == num % 16
  {
    var a := num / 2;
    var b := a / 2;
    var c := b / 2;
    AndOdd(num, 7);
    AndOdd(a, 3);
    AndOdd(b, 1);
    AndOdd(c, 0);
    assert And(c / 2, 0) == 0;
    hide *;
    DivUnique(num, 16, c / 2, 8 * (c % 2) + 4 * (b % 2) + 2 * (a % 2) + num % 2);
  }

  lemma AndOdd(num: nat, mask: nat)
    ensures And(num, 2 * mask + 1) == 2 * And(num / 2, mask) + num % 2
  {}

  lemma AndShift4(num: nat, mask: nat)
    ensures And(num, 16 * mask) == 16 * And(num / 16, mask)
  {
    hide *;
    var a, b, c := num / 2, num / 4, num / 8;
    assert a / 2 == b && b / 2 == c && c / 2 == num / 16;
    AndShift(num, 8 * mask);
    AndShift(a, 4 * mask);
    AndShift(b, 2 * mask);
    AndShift(c, mask);
  }

  lemma AndShift(num: nat, mask: nat)
    ensures And(num, 2 * mask) == 2 * And(num / 2, mask)
  {}

  /** writeHex, for the widths of one to eight bytes: `out` is what goes to the port. */
  method WriteHex(num: nat, bytes: nat, caps: bool) returns (out: string)
    requires 1 <= bytes <= 8
    ensures Canonical(out, caps) && Value(out) == num % Pow16(2 * bytes)
  {
    ghost var k: nat := 2 * bytes;
    var leading, bits: nat, mask := true, 8 * bytes, FirstMask(bytes);
    out := "";
    NothingWritten(num, k, caps);
    hide *;
    var i: nat := 0;
    while i < bits
      invariant i + 4 * k == bits == 8 * bytes && (k > 0 ==> IsMask(mask, k - 1))
      invariant Written(out, leading, num, k, 2 * bytes - k, caps)
    {
      i, k := i + 4, k - 1;
      leading, out, mask := WriteNibble(num, mask, bits - i, leading, out, caps, k, 2 * bytes - k);
    }
    AllWritten(out, leading, num, 2 * bytes, caps);
    if leading { out := out + "0"; }
  }

  /** One turn of its loop: a leading zero is passed over. */
  method WriteNibble(num: nat, mask: nat, shift: nat, leading: bool, out: string, caps: bool, ghost k: nat,
                     ghost n: nat)
    returns (leading': bool, out': string, next: nat)
    requires n > 0 && Written(out, leading, num, k + 1, n - 1, caps) && IsMask(mask, k) && shift == 4 * k
    ensures Written(out', leading', num, k, n, caps) && (k > 0 ==> IsMask(next, k - 1))
  {
    hide *;
    var nibble;
    nibble, next := Nibble(num, mask, shift, k);
    if leading && nibble == 0 {
      Skipped(out, num, k, n, caps);
      return true, out, next;
    }
    var ch := Digit(nibble, caps);
    Appended(out, leading, ch, num, k, n, caps);
    leading', out' := false, out + [ch];
  }

  /** `out` is `n` digits of `num`, from the digit at place `k` upwards, without the zeros they begin with. */
  ghost predicate Written(out: string, leading: bool, num: nat, k: nat, n: nat, caps: bool) {
    && (leading <==> out == "") && (!leading ==> Canonical(out, caps) && out[0] != '0')
    && Value(out) == Digits(num, k, n)
  }

  /** The mask that selects digit `k`. */
  ghost predicate IsMask(mask: nat, k: nat) { mask == 15 * Pow16(k) }

  function FirstMask(bytes: nat): (mask: nat)
    requires bytes > 0
    ensures IsMask(mask, 2 * bytes - 1)
  {
    15 * Pow16(2 * bytes - 1)
  }

  lemma NothingWritten(num: nat, digits: nat, caps: bool)
    ensures Written("", true, num, digits, 0, caps)
  {}

  lemma NoValue(s: string)
    ensures s == "" ==> Value(s) == 0
  {}

  lemma Skipped(out: string, num: nat, k: nat, n: nat, caps: bool)
    requires n > 0 && Written(out, true, num, k + 1, n - 1, caps) && DigitAt(num, k) == 0
    ensures Written(out, true, num, k, n, caps)
  {
    NextDigit(num, k, n - 1);
    assert Value("") == 0;
  }

  lemma Appended(out: string, leading: bool, ch: char, num: nat, k: nat, n: nat, caps: bool)
    requires n > 0 && Written(out, leading, num, k + 1, n - 1, caps)
    requires IsDigit(ch, caps) && DigitValue(ch) == DigitAt(num, k) && (leading ==> ch != '0')
    ensures Written(out + [ch], false, num, k, n, caps)
  {
    NextDigit(num, k, n - 1);
    assert (out + [ch])[..|out|] == out;
    hide Digits, DigitAt, IsDigit, DigitValue;
  }

  lemma AllWritten(out: string, leading: bool, num: nat, digits: nat, caps: bool)
    requires Written(out, leading, num, 0, digits, caps)
    ensures var s := if leading then out + "0" else out; Canonical(s, caps) && Value(s) == num % Pow16(digits)
  {
    assert Digits(num, 0, digits) == num % Pow16(digits);
    assert Canonical("0", caps) && Value("0") == 0 == Value("");
    assert leading ==> out + "0" == "0";
  }

  /** `(num & mask) >> shift`, and `mask >> 4`. */
  method Nibble(num: nat, mask: nat, shift: nat, ghost k: nat) returns (nibble: nat, next: nat)
    requires IsMask(mask, k) && shift == 4 * k
    ensures nibble == DigitAt(num, k) < 16 && (k > 0 ==> IsMask(next, k - 1))
  {
    NibbleIs(num, k);
    if k > 0 { MaskNext(k); }
    assert shift / 4 == k;
    nibble, next := And(num, mask) / Pow16(shift / 4), mask / 16;
  }

  lemma NibbleIs(num: nat, k: nat)
    ensures And(num, 15 * Pow16(k)) / Pow16(k) == DigitAt(num, k) < 16
  {
    AndNibble(num, k);
    var p, d, m := Pow16(k), DigitAt(num, k), And(num, 15 * Pow16(k));
    assert d < 16 && d == num / p % 16 && m == num / p % 16 * p;
    hide *;
    assert m == d * p;
    Cancel(d, p);
  }

  lemma Cancel(d: nat, p: nat)
    requires p > 0
    ensures d * p / p == d
  {
    DivUnique(d * p, p, d, 0);
  }

  lemma MaskNext(k: nat)
    requires k > 0
    ensures 15 * Pow16(k) / 16 == 15 * Pow16(k - 1)
  {
    assert 15 * Pow16(k) == 16 * (15 * Pow16(k - 1));
  }

  /** The character of a nibble: 87 more for a letter, and bit 5 dropped for a capital one. */
  method Digit(nibble: nat, caps: bool) returns (ch: char)
    requires nibble < 16
    ensures IsDigit(ch, caps) && DigitValue(ch) == nibble && (ch == '0' <==> nibble == 0)
  {
    if nibble >= 10 {
      var c: bv8 := nibble as bv8 + 87;
      if caps { c := c & 0xDF; }
      ch := c as char;
    } else {
      ch := (nibble as bv8 | 0x30) as char;
    }
  }

  /** One more digit of a number: all those so far move up by one place. */
  lemma NextDigit(num: nat, k: nat, n: nat)
    ensures Digits(num, k, n + 1) == 16 * Digits(num, k + 1, n) + DigitAt(num, k)
  {
    var p, m := Pow16(k), Pow16(n);
    assert Pow16(k + 1) == 16 * p && Pow16(n + 1) == 16 * m;
    hide Pow16;
    DivSixteen(num, p);
    ModSixteen(num / p, m);
  }

  lemma DivSixteen(num: nat, p: nat)
    requires p > 0
    ensures num / (16 * p) == num / p / 16
  {
    DivTwice(num, p, 16, 16 * p);
  }

  lemma ModSixteen(x: nat, m: nat)
    requires m > 0
    ensures x % (16 * m) == 16 * (x / 16 % m) + x % 16
  {
    DivTwice(x, 16, m, 16 * m);
    var low := x % (16 * m);
    DivIs(low, 16, low / 16, low % 16);
  }

  predicate IsNumeral(s: string, caps: bool) { forall i :: 0 <= i < |s| ==> IsDigit(s[i], caps) }

  /** Only the text that writeHex emits stands for the number in this form. */
  lemma {:induction false} CanonicalUnique(s: string, t: string, caps: bool)
    requires Canonical(s, caps) && Canonical(t, caps) && Value(s) == Value(t)
    ensures s == t
    decreases |s|
  {
    var a, b := s[..|s| - 1], t[..|t| - 1];
    var c, d := s[|s| - 1], t[|t| - 1];
    SameDigit(c, d, caps);
    assert s == a + [c] && t == b + [d];
    if a != "" && b != "" {
      CanonicalUnique(a, b, caps);
    } else if a != "" {
      NotZero(a, caps);
      NoValue(b);
    } else if b != "" {
      NotZero(b, caps);
      NoValue(a);
    }
  }

  lemma SameDigit(c: char, d: char, caps: bool)
    requires IsDigit(c, caps) && IsDigit(d, caps)
    ensures DigitValue(c) < 16 && DigitValue(d) < 16 && (DigitValue(c) == DigitValue(d) ==> c == d)
  {}

  lemma {:induction false} NotZero(s: string, caps: bool)
    requires s != "" && IsNumeral(s, caps) && s[0] != '0'
    ensures Value(s) > 0
    decreases |s|
  {
    if |s| > 1 { NotZero(s[..|s| - 1], caps); }
  }
}
