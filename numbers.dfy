/**
 * Decimal numerals: Rust's `str::parse::<u32>`, the removal of the `.`
 * thousands separators from counter cells, and the grouped numerals
 * ("100.000") in which the feed publishes its counters.
 */
module Numbers {
  import opened Wrappers

  const U32Limit: nat := 0x1_0000_0000

  /** Rust's `u32`. */
  type u32 = n: nat | n < U32Limit

  predicate IsDigit(c: char) {
    '0' <= c <= '9'
  }

  predicate AllDigits(s: string) {
    forall i :: 0 <= i < |s| ==> IsDigit(s[i])
  }

  function DigitValue(c: char): (d: nat)
    requires IsDigit(c)
    ensures d < 10
  {
    c as int - '0' as int
  }

  function DigitChar(d: nat): (c: char)
    requires d < 10
    ensures IsDigit(c) && DigitValue(c) == d
  {
    ('0' as int + d) as char
  }

  /** The value of a run of decimal digits, most significant digit first. */
  function DigitsValue(s: string): nat
    requires AllDigits(s)
  {
    if s == [] then 0 else DigitsValue(s[..|s| - 1]) * 10 + DigitValue(s[|s| - 1])
  }

  /** What is left of a numeral once an optional leading '+' is dropped. */
  function Unsigned(s: string): string {
    if |s| > 0 && s[0] == '+' then s[1..] else s
  }

  /**
   * `str::parse::<u32>`: an optional '+', then at least one decimal digit and
   * nothing else, with a value below 2^32. Anything else (the empty string,
   * a lone sign, a '-', a space, a separator, an overflow) is an error.
   */
  function ParseU32(s: string): Option<u32> {
    var digits := Unsigned(s);
    if digits != [] && AllDigits(digits) && DigitsValue(digits) < U32Limit
    then Some(DigitsValue(digits))
    else None
  }

  /** The canonical decimal numeral of `n`. */
  function Show(n: nat): string {
    if n < 10 then [DigitChar(n)] else Show(n / 10) + [DigitChar(n % 10)]
  }

  /** `s.replace('.', "")`: `s` with every '.' taken out. */
  function StripDots(s: string): (r: string)
    ensures '.' !in r
    ensures |r| <= |s|
  {
    if s == [] then []
    else (if s[0] == '.' then [] else [s[0]]) + StripDots(s[1..])
  }

  /** Three digits, with leading zeros, of a number below 1000. */
  function Pad3(m: nat): string
    requires m < 1000
  {
    var t := m / 10;
    [DigitChar(t / 10), DigitChar(t % 10), DigitChar(m % 10)]
  }

  /** `n` written with a '.' between groups of three digits, as in "100.000". */
  function Grouped(n: nat): string {
    if n < 1000 then Show(n) else Grouped(n / 1000) + "." + Pad3(n % 1000)
  }

  lemma {:induction false} ShowIsNumeral(n: nat)
    ensures Show(n) != [] && AllDigits(Show(n)) && DigitsValue(Show(n)) == n
  {
    if n >= 10 {
      ShowIsNumeral(n / 10);
      var s := Show(n);
      assert s[..|s| - 1] == Show(n / 10);
    }
  }

  /** Parsing undoes printing, with or without a leading '+'. */
  lemma ParseShow(n: u32)
    ensures ParseU32(Show(n)) == Some(n)
    ensures ParseU32("+" + Show(n)) == Some(n)
  {
    ShowIsNumeral(n);
    assert ("+" + Show(n))[1..] == Show(n);
  }

  lemma {:induction false} LeadingDigitPositive(s: string)
    requires s != [] && AllDigits(s) && s[0] != '0'
    ensures DigitsValue(s) > 0
  {
    if |s| > 1 {
      LeadingDigitPositive(s[..|s| - 1]);
    }
  }

  /** A numeral without sign and without leading zeros is the printed form of its value. */
  lemma {:induction false} ShowDigitsValue(s: string)
    requires s != [] && AllDigits(s)
    requires |s| > 1 ==> s[0] != '0'
    ensures Show(DigitsValue(s)) == s
  {
    var init := s[..|s| - 1];
    var last := DigitValue(s[|s| - 1]);
    if |s| == 1 {
      assert DigitChar(last) == s[0];
    } else {
      ShowDigitsValue(init);
      LeadingDigitPositive(init);
      var v := DigitsValue(s);
      assert v == DigitsValue(init) * 10 + last;
      assert v / 10 == DigitsValue(init) && v % 10 == last;
      assert DigitChar(last) == s[|s| - 1];
      assert s == init + [s[|s| - 1]];
    }
  }

  /** The other half of the round trip: a canonical numeral that parses is `Show` of its value. */
  lemma ParseCanonical(s: string, n: u32)
    requires s != [] && s[0] != '+' && (|s| > 1 ==> s[0] != '0')
    requires ParseU32(s) == Some(n)
    ensures s == Show(n)
  {
    ShowDigitsValue(s);
  }

  lemma {:induction false} StripDotsAppend(a: string, b: string)
    ensures StripDots(a + b) == StripDots(a) + StripDots(b)
  {
    if a == [] {
      assert a + b == b;
    } else {
      var head := if a[0] == '.' then [] else [a[0]];
      assert (a + b)[0] == a[0] && (a + b)[1..] == a[1..] + b;
      assert StripDots(a + b) == head + StripDots(a[1..] + b);
      StripDotsAppend(a[1..], b);
      assert StripDots(a) == head + StripDots(a[1..]);
    }
  }

  lemma {:induction false} StripDotsNoDots(s: string)
    requires '.' !in s
    ensures StripDots(s) == s
  {
    if s != [] {
      StripDotsNoDots(s[1..]);
    }
  }

  /** Separators are ignored wherever they stand. */
  lemma StripDotsIgnoresDot(a: string, b: string)
    ensures StripDots(a + "." + b) == StripDots(a + b)
  {
    StripDotsAppend(a + ".", b);
    StripDotsAppend(a, ".");
    StripDotsAppend(a, b);
  }

  /** One more digit on the right: ten times the value, plus the digit. */
  lemma DigitsValuePush(a: string, c: char)
    requires AllDigits(a) && IsDigit(c)
    ensures AllDigits(a + [c]) && DigitsValue(a + [c]) == DigitsValue(a) * 10 + DigitValue(c)
  {
    assert (a + [c])[..|a|] == a;
  }

  lemma DigitsValueAppend3(a: string, b: string)
    requires AllDigits(a) && |b| == 3 && AllDigits(b)
    ensures AllDigits(a + b)
    ensures DigitsValue(a + b) == DigitsValue(a) * 1000 + DigitsValue(b)
  {
    var d0, d1, d2 := DigitValue(b[0]), DigitValue(b[1]), DigitValue(b[2]);
    DigitsValuePush(a, b[0]);
    DigitsValuePush(a + [b[0]], b[1]);
    DigitsValuePush(a + [b[0]] + [b[1]], b[2]);
    assert a + [b[0]] + [b[1]] + [b[2]] == a + b;
    var x := DigitsValue(a);
    assert DigitsValue(a + b) == ((x * 10 + d0) * 10 + d1) * 10 + d2;
    DigitsValuePush([], b[0]);
    DigitsValuePush([b[0]], b[1]);
    DigitsValuePush([b[0]] + [b[1]], b[2]);
    assert [] + [b[0]] == [b[0]] && [b[0]] + [b[1]] + [b[2]] == b;
    assert DigitsValue(b) == (d0 * 10 + d1) * 10 + d2;
  }

  lemma Pad3Value(m: nat)
    requires m < 1000
    ensures AllDigits(Pad3(m)) && '.' !in Pad3(m)
    ensures DigitsValue(Pad3(m)) == m
  {
    var t := m / 10;
    var c0, c1, c2 := DigitChar(t / 10), DigitChar(t % 10), DigitChar(m % 10);
    DigitsValuePush([], c0);
    DigitsValuePush([c0], c1);
    DigitsValuePush([c0, c1], c2);
    assert [] + [c0] == [c0] && [c0] + [c1] == [c0, c1] && [c0, c1] + [c2] == Pad3(m);
    assert DigitsValue([c0, c1]) == t;
    assert !IsDigit('.');
  }

  /** Taking the dots out of `head.tail`, when `tail` has none. */
  lemma StripDotsJoin(head: string, tail: string)
    requires '.' !in tail
    ensures StripDots(head + "." + tail) == StripDots(head) + tail
  {
    var withDot := head + ".";
    StripDotsAppend(withDot, tail);
    StripDotsAppend(head, ".");
    assert "."[1..] == [];
    assert StripDots(".") == [];
    StripDotsNoDots(tail);
    assert StripDots(withDot) == StripDots(head);
  }

  lemma {:induction false} StripGrouped(n: nat)
    ensures StripDots(Grouped(n)) != [] && AllDigits(StripDots(Grouped(n)))
    ensures DigitsValue(StripDots(Grouped(n))) == n
  {
    if n < 1000 {
      ShowIsNumeral(n);
      assert '.' !in Show(n) by {
        assert !IsDigit('.');
      }
      StripDotsNoDots(Show(n));
    } else {
      StripGrouped(n / 1000);
      StripGroupedStep(n);
    }
  }

  lemma StripGroupedStep(n: nat)
    requires n >= 1000
    requires StripDots(Grouped(n / 1000)) != [] && AllDigits(StripDots(Grouped(n / 1000)))
    requires DigitsValue(StripDots(Grouped(n / 1000))) == n / 1000
    ensures StripDots(Grouped(n)) != [] && AllDigits(StripDots(Grouped(n)))
    ensures DigitsValue(StripDots(Grouped(n))) == n
  {
    var head, tail := Grouped(n / 1000), Pad3(n % 1000);
    assert Grouped(n) == head + "." + tail;
    Pad3Value(n % 1000);
    StripDotsJoin(head, tail);
    DigitsValueAppend3(StripDots(head), tail);
  }

  /** Reading a grouped counter cell gives back the number it was written from. */
  lemma ParseGrouped(n: u32)
    ensures ParseU32(StripDots(Grouped(n))) == Some(n)
  {
    StripGrouped(n);
  }
}
