/** Decimal text of an unsigned integer, as Go's `strconv.FormatUint(n, 10)`
    writes it, and the parser that reads such text back. */
module Decimal {
  import opened Types

  predicate IsDigit(c: byte) {
    48 <= c <= 57
  }

  predicate AllDigits(s: seq<byte>) {
    forall i :: 0 <= i < |s| ==> IsDigit(s[i])
  }

  /** The text `strconv.FormatUint` produces: at least one digit, and no
      leading `0` unless the number is zero itself. */
  predicate IsCanonical(s: seq<byte>) {
    |s| > 0 && AllDigits(s) && (s[0] == 48 ==> |s| == 1)
  }

  /** `strconv.FormatUint(n, 10)`. */
  function FormatUint(n: nat): seq<byte>
    decreases n
  {
    if n < 10 then [48 + n] else FormatUint(n / 10) + [48 + n % 10]
  }

  /** The value of a string of digits, most significant first. */
  function DigitsValue(s: seq<byte>): nat
    requires AllDigits(s)
    decreases |s|
  {
    if |s| == 0 then 0 else DigitsValue(s[..|s| - 1]) * 10 + (s[|s| - 1] - 48)
  }

  /** Reads canonical decimal text; anything else is rejected. */
  function ParseUint(s: seq<byte>): Option<nat> {
    if IsCanonical(s) then Some(DigitsValue(s)) else None
  }

  /** The text is canonical decimal; in particular it holds no `_`. */
  lemma {:induction false} FormatUintIsCanonical(n: nat)
    ensures IsCanonical(FormatUint(n))
    ensures forall i :: 0 <= i < |FormatUint(n)| ==> FormatUint(n)[i] != Underscore
    decreases n
  {
    if n >= 10 {
      FormatUintIsCanonical(n / 10);
      var s := FormatUint(n);
      assert s[..|s| - 1] == FormatUint(n / 10);
      assert s[0] == FormatUint(n / 10)[0];
    }
  }

  /** Reading the text back gives the number. */
  lemma {:induction false} ParseFormatUint(n: nat)
    ensures ParseUint(FormatUint(n)) == Some(n)
    decreases n
  {
    FormatUintIsCanonical(n);
    var s := FormatUint(n);
    if n < 10 {
      assert s[..0] == [];
    } else {
      ParseFormatUint(n / 10);
      FormatUintIsCanonical(n / 10);
      assert s[..|s| - 1] == FormatUint(n / 10);
      assert DigitsValue(s) == (n / 10) * 10 + n % 10;
    }
  }

  /** Digit text that does not start with `0` stands for a positive number. */
  lemma {:induction false} DigitsValuePositive(s: seq<byte>)
    requires |s| > 0 && AllDigits(s) && s[0] != 48
    ensures DigitsValue(s) >= 1
    decreases |s|
  {
    if |s| > 1 {
      DigitsValuePositive(s[..|s| - 1]);
    }
  }

  /** Canonical text is exactly what `FormatUint` writes for its value. */
  lemma {:induction false} FormatParseUint(s: seq<byte>)
    requires ParseUint(s).Some?
    ensures FormatUint(ParseUint(s).value) == s
    decreases |s|
  {
    if |s| > 1 {
      var init := s[..|s| - 1];
      assert init[0] == s[0];
      DigitsValuePositive(init);
      assert IsCanonical(init);
      FormatParseUint(init);
      var n := DigitsValue(s);
      assert n / 10 == DigitsValue(init) && n % 10 == s[|s| - 1] - 48;
      assert s == init + [s[|s| - 1]];
    }
  }

  /** Distinct numbers have distinct decimal text. */
  lemma {:induction false} FormatUintInjective(m: nat, n: nat)
    requires FormatUint(m) == FormatUint(n)
    ensures m == n
  {
    ParseFormatUint(m);
    ParseFormatUint(n);
  }

  /** Two sample values: 0 and 123. */
  lemma {:induction false} FormatUintExample()
    ensures FormatUint(0) == [48]
    ensures FormatUint(123) == [49, 50, 51]
  {
    assert FormatUint(12) == [49, 50];
  }
}
