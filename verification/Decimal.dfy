/** Decimal numbers as text (`a_to_u64`, `u64_to_enough_a`). */
module Decimal {
  import opened Bytes

  /** `_kSizeMaxDiv10` and `_kSizeMaxMod10`. */
  const MAX_DIV_10: u64 := 0x1999_9999_9999_9999
  const MAX_MOD_10: u64 := 5

  function Digit(d: nat): (c: char)
    requires d < 10
  {
    '0' + d as char
  }

  /** The decimal digits of a number, without leading zeros. */
  function Digits(v: nat): (s: seq<char>)
    ensures s != []
  {
    (if v < 10 then [] else Digits(v / 10)) + [Digit(v % 10)]
  }

  /** The value of digits behind a value read so far; refused when it does not fit into 64 bits. */
  function ParseFrom(v: u64, s: seq<char>): Option<u64>
    decreases |s|
  {
    if s == [] then Some(v)
    else if !('0' <= s[0] <= '9') then None
    else
      var c: u64 := (s[0] - '0') as int;
      if v >= MAX_DIV_10 && (v > MAX_DIV_10 || c > MAX_MOD_10) then None
      else ParseFrom(v * 10 + c, s[1..])
  }

  function Parse(s: seq<char>): Option<u64> {
    if s == [] || (|s| >= 2 && s[0] == '0') then None else ParseFrom(0, s)
  }

  // --- both directions -------------------------------------------------------------------------------

  lemma {:induction false} ParseAppend(v: u64, a: seq<char>, b: seq<char>)
    ensures ParseFrom(v, a + b) == match ParseFrom(v, a) case None => None case Some(w) => ParseFrom(w, b)
    decreases |a|
  {
    if a == [] {
      assert a + b == b;
    } else {
      assert (a + b)[1..] == a[1..] + b;
      if '0' <= a[0] <= '9' {
        var c: u64 := (a[0] - '0') as int;
        if !(v >= MAX_DIV_10 && (v > MAX_DIV_10 || c > MAX_MOD_10)) {
          ParseAppend(v * 10 + c, a[1..], b);
        }
      }
    }
  }

  lemma {:induction false} ParseOneDigit(v: u64, d: nat)
    requires d < 10
    ensures ParseFrom(v, [Digit(d)]) == if v * 10 + d < TWO_64 then Some(v * 10 + d) else None
  {
    assert [Digit(d)][1..] == [];
  }

  lemma {:induction false} DigitsFirst(v: nat)
    ensures v > 0 ==> Digits(v)[0] != '0'
    ensures |Digits(v)| >= 2 <==> v >= 10
  {
    if v >= 10 {
      DigitsFirst(v / 10);
    }
  }

  lemma {:induction false} ParseOfDigits(v: u64)
    ensures ParseFrom(0, Digits(v)) == Some(v)
  {
    if v >= 10 {
      ParseOfDigits(v / 10);
      ParseAppend(0, Digits(v / 10), [Digit(v % 10)]);
      ParseOneDigit(v / 10, v % 10);
    } else {
      assert [] + [Digit(v)] == [Digit(v)];
      ParseOneDigit(0, v);
    }
  }

  /** Nonzero digits in front make the text the digits of its value. */
  lemma {:induction false} DigitsOfParse(s: seq<char>)
    requires s != [] && (|s| >= 2 ==> s[0] != '0') && ParseFrom(0, s).Some?
    ensures Digits(ParseFrom(0, s).value) == s
    ensures |s| >= 2 ==> ParseFrom(0, s).value >= 10
    decreases |s|
  {
    LastOfParse(s);
    var init, last := s[..|s| - 1], s[|s| - 1];
    assert s == init + [last];
    if init == [] {
      assert [] + [last] == [last];
    } else {
      hide ParseFrom, Digit;
      if |init| == 1 {
        OneDigitPositive(init);
      }
      DigitsOfParse(init);
      DigitsNext(ParseFrom(0, init).value, (last - '0') as int);
    }
  }

  /** The last character is a digit, and the ones in front of it are read, too. */
  lemma {:induction false} LastOfParse(s: seq<char>)
    requires s != [] && ParseFrom(0, s).Some?
    ensures var init, last := s[..|s| - 1], s[|s| - 1];
      && '0' <= last <= '9' && last == Digit((last - '0') as int)
      && ParseFrom(0, init).Some? && ParseFrom(0, s).value == ParseFrom(0, init).value * 10 + (last - '0') as int
      && (init == [] ==> ParseFrom(0, init).value == 0)
  {
    var init, last := s[..|s| - 1], s[|s| - 1];
    assert s == init + [last];
    ParseAppend(0, init, [last]);
    ParseOneDigit(ParseFrom(0, init).value, (last - '0') as int);
  }

  lemma {:induction false} DigitsNext(w: nat, d: nat)
    requires w > 0 && d < 10
    ensures Digits(w * 10 + d) == Digits(w) + [Digit(d)]
  {
    assert (w * 10 + d) / 10 == w && (w * 10 + d) % 10 == d;
  }

  lemma {:induction false} OneDigitPositive(s: seq<char>)
    requires |s| == 1 && s[0] != '0' && ParseFrom(0, s).Some?
    ensures ParseFrom(0, s).value > 0
  {
    assert s[1..] == [];
  }

  /** A text is read as a number exactly when it is the digits of that number: no sign, no leading
      zero, no overflow. */
  lemma {:induction false} ParseExactly(s: seq<char>, v: u64)
    ensures Parse(s) == Some(v) <==> s == Digits(v)
  {
    if s == Digits(v) {
      DigitsFirst(v);
      ParseOfDigits(v);
    }
    if Parse(s) == Some(v) {
      DigitsOfParse(s);
    }
  }

  /** The value of a decimal text. */
  function Value(s: seq<char>): int {
    if s == [] then 0 else 10 * Value(s[..|s| - 1]) + (s[|s| - 1] as int - '0' as int)
  }

  /** A decimal number: digits without a leading zero, with that value. */
  predicate IsDecimal(s: seq<char>, v: int) {
    s != [] && (s[0] == '0' ==> |s| == 1) && (forall i :: 0 <= i < |s| ==> '0' <= s[i] <= '9') && Value(s) == v
  }

  lemma {:induction false} DigitsAreDecimal(v: nat)
    ensures IsDecimal(Digits(v), v)
  {
    DigitsFirst(v);
    if v >= 10 {
      DigitsAreDecimal(v / 10);
      DecimalNext(Digits(v / 10), v);
    } else {
      assert [] + [Digit(v)] == [Digit(v)];
      assert [Digit(v)][..0] == [];
    }
  }

  lemma {:induction false} DecimalNext(s: seq<char>, v: nat)
    requires v >= 10 && s == Digits(v / 10) && IsDecimal(s, v / 10)
    ensures IsDecimal(s + [Digit(v % 10)], v)
  {
    hide Digits;
    DigitsFirst(v / 10);
    var all := s + [Digit(v % 10)];
    assert all[..|all| - 1] == s;
  }

  // --- the loops -----------------------------------------------------------------------------------------

  /** `a_to_u64`. */
  method AToU64(s: seq<char>) returns (ok: bool, v: u64)
    ensures ok == Parse(s).Some?
    ensures ok ==> Parse(s) == Some(v)
  {
    v := 0;
    if |s| == 0 || (|s| >= 2 && s[0] == '0') {
      return false, v;
    }
    var i := 0;
    assert s[0..] == s;
    while i < |s|
      invariant 0 <= i <= |s|
      invariant ParseFrom(v, s[i..]) == Parse(s)
    {
      assert s[i..][0] == s[i] && s[i..][1..] == s[i + 1..];
      if !('0' <= s[i] <= '9') {
        return false, v;
      }
      var c: u64 := (s[i] - '0') as int;
      if v >= MAX_DIV_10 && (v > MAX_DIV_10 || c > MAX_MOD_10) {
        return false, v;
      }
      v := v * 10 + c;
      i := i + 1;
    }
    ok := true;
  }

  lemma {:induction false} DigitCount(v: nat, n: nat)
    requires n > 0 && v < Pow10(n)
    ensures |Digits(v)| <= n
  {
    if v >= 10 {
      DigitCount(v / 10, n - 1);
    }
  }

  function Pow10(n: nat): nat {
    if n == 0 then 1 else 10 * Pow10(n - 1)
  }

  lemma SixtyFourBits()
    ensures TWO_64 <= Pow10(20)
  {
    assert Pow10(4) == 10000;
    assert Pow10(8) == 10 * 10 * 10 * 10 * Pow10(4);
    assert Pow10(12) == 10 * 10 * 10 * 10 * Pow10(8);
    assert Pow10(16) == 10 * 10 * 10 * 10 * Pow10(12);
    assert Pow10(20) == 10 * 10 * 10 * 10 * Pow10(16);
  }

  /** `u64_to_enough_a`: fills the buffer from its end; `begin` is where the text starts. */
  method U64ToEnoughA(size: u64, buf: array<char>) returns (begin: nat)
    requires buf.Length == 21
    modifies buf
    ensures begin < 20 && buf[20] == '\0' && buf[begin..20] == Digits(size)
  {
    hide Digits, Digit, Pow10;
    SixtyFourBits();
    DigitCount(size, 20);
    var at, v := 20, size;
    buf[at] := '\0';
    ghost var done: seq<char> := [];
    assert buf[20..20] == done && Digits(size) == Digits(v) + done;
    while true
      invariant 0 < at <= 20 && buf[20] == '\0' && buf[at..20] == done
      invariant Digits(size) == Digits(v) + done && |Digits(size)| <= 20
      decreases v
    {
      LastDigit(v, done);
      ghost var before := done;
      at := at - 1;
      buf[at] := Digit(v % 10);
      done := [Digit(v % 10)] + done;
      assert buf[at + 1..20] == before;
      v := v / 10;
      if v == 0 {
        return at;
      }
      assert |Digits(v)| >= 1 && |done| == 20 - at;
    }
  }

  lemma {:induction false} LastDigit(v: nat, done: seq<char>)
    ensures Digits(v) + done == (if v < 10 then [] else Digits(v / 10)) + ([Digit(v % 10)] + done)
    ensures v < 10 ==> Digits(v) + done == [Digit(v % 10)] + done
  {
  }
}
