/**
 * Decimal text as the inventory script reads and writes it: Python's
 * `int(text)` on a list's element count, and `"{}".format(i)` when it
 * builds the key of element `i`.
 */
module Decimal {
  import opened Wrappers

  predicate IsDigit(c: char) {
    '0' <= c <= '9'
  }

  predicate AllDigits(s: string) {
    forall i :: 0 <= i < |s| ==> IsDigit(s[i])
  }

  function DigitValue(c: char): nat
    requires IsDigit(c)
  {
    c as int - '0' as int
  }

  function DigitChar(d: nat): (c: char)
    requires d < 10
    ensures IsDigit(c) && DigitValue(c) == d
  {
    ('0' as int + d) as char
  }

  /** The value of a string of decimal digits, most significant first. */
  function DigitsValue(s: string): nat
    requires AllDigits(s)
  {
    if s == [] then 0 else DigitsValue(s[..|s| - 1]) * 10 + DigitValue(s[|s| - 1])
  }

  /** Python's `str(n)` for a natural number: no sign, no leading zeros. */
  function NatToString(n: nat): (s: string)
    ensures |s| > 0 && AllDigits(s)
  {
    if n < 10 then [DigitChar(n)] else NatToString(n / 10) + [DigitChar(n % 10)]
  }

  /**
   * The characters Python 2's `int()` skips around a number and after its
   * sign when it reads a unicode string: every character its Unicode 5.2
   * database calls white space, the ASCII separators U+001C to U+001F
   * included.
   */
  predicate IsSpace(c: char) {
    || ('\U{09}' <= c <= '\U{0D}') || ('\U{1C}' <= c <= '\U{20}')
    || c == '\U{85}' || c == '\U{A0}' || c == '\U{1680}' || c == '\U{180E}'
    || ('\U{2000}' <= c <= '\U{200A}') || c == '\U{2028}' || c == '\U{2029}'
    || c == '\U{202F}' || c == '\U{205F}' || c == '\U{3000}'
  }

  function TrimStart(s: string): string {
    if |s| > 0 && IsSpace(s[0]) then TrimStart(s[1..]) else s
  }

  function TrimEnd(s: string): string {
    if |s| > 0 && IsSpace(s[|s| - 1]) then TrimEnd(s[..|s| - 1]) else s
  }

  /**
   * Python's `int(text)` in base 10: surrounding white space, an optional
   * sign, white space again, then one or more digits. Anything else
   * raises, modelled as None.
   */
  function ParseInt(text: string): Option<int> {
    var t := TrimEnd(TrimStart(text));
    var negative := |t| > 0 && t[0] == '-';
    var digits := if |t| > 0 && (t[0] == '-' || t[0] == '+') then TrimStart(t[1..]) else t;
    if |digits| > 0 && AllDigits(digits) then
      var n: int := DigitsValue(digits);
      Some(if negative then -n else n)
    else
      None
  }

  lemma {:induction false} DigitsOfNat(n: nat)
    ensures DigitsValue(NatToString(n)) == n
  {
    var s := NatToString(n);
    if n >= 10 {
      assert s[..|s| - 1] == NatToString(n / 10);
      DigitsOfNat(n / 10);
    }
  }

  /** Reading back what `str(n)` wrote gives `n` again. */
  lemma {:induction false} ParseNatToString(n: nat)
    ensures ParseInt(NatToString(n)) == Some(n)
  {
    var s := NatToString(n);
    assert !IsSpace(s[0]) && !IsSpace(s[|s| - 1]);
    assert TrimStart(s) == s;
    assert TrimEnd(s) == s;
    DigitsOfNat(n);
  }

  /** White space may separate the sign from the digits, as the C parser under `int()` skips it again. */
  lemma ParseSignedWithSpace()
    ensures ParseInt("+ 1") == Some(1) && ParseInt("- 1") == Some(-1)
    ensures ParseInt("\U{1C}7\U{1F}") == Some(7)
  {
    assert TrimStart(" 1") == "1";
    assert DigitsValue("1") == 1;
    assert TrimEnd(TrimStart("\U{1C}7\U{1F}")) == "7";
    assert DigitsValue("7") == 7;
  }

  predicate AllSpace(w: string) {
    forall i :: 0 <= i < |w| ==> IsSpace(w[i])
  }

  /** Leading white space is skipped up to the first other character. */
  lemma {:induction false} TrimStartSpaces(w: string, s: string)
    requires AllSpace(w) && |s| > 0 && !IsSpace(s[0])
    ensures TrimStart(w + s) == s
  {
    if w != [] {
      assert (w + s)[1..] == w[1..] + s;
      TrimStartSpaces(w[1..], s);
    }
  }

  /** Any white space between the sign and the digits of a count is skipped. */
  lemma SignSpaceGeneral(w: string, n: nat)
    requires AllSpace(w)
    ensures ParseInt("+" + w + NatToString(n)) == Some(n)
    ensures ParseInt("-" + w + NatToString(n)) == Some(-(n as int))
  {
    var s := NatToString(n);
    DigitsOfNat(n);
    assert !IsSpace(s[|s| - 1]);
    forall sg | sg == "+" || sg == "-"
      ensures TrimEnd(TrimStart(sg + w + s)) == sg + w + s
      ensures TrimStart((sg + w + s)[1..]) == s
    {
      assert (sg + w + s)[1..] == w + s;
      TrimStartSpaces(w, s);
    }
  }

  /** Trailing white space is dropped back to the last other character. */
  lemma {:induction false} TrimEndSpaces(s: string, w: string)
    requires AllSpace(w) && |s| > 0 && !IsSpace(s[|s| - 1])
    ensures TrimEnd(s + w) == s
  {
    if w != [] {
      var n := |w| - 1;
      assert (s + w)[..|s + w| - 1] == s + w[..n];
      TrimEndSpaces(s, w[..n]);
    }
  }

  /** White space on either side of a count is ignored, as `int(u" 3 ")` reads 3. */
  lemma SpaceAroundGeneral(w1: string, w2: string, n: nat)
    requires AllSpace(w1) && AllSpace(w2)
    ensures ParseInt(w1 + NatToString(n) + w2) == Some(n)
  {
    var s := NatToString(n);
    ParseNatToString(n);
    assert !IsSpace(s[0]) && !IsSpace(s[|s| - 1]);
    assert w1 + s + w2 == w1 + (s + w2);
    TrimStartSpaces(w1, s + w2);
    TrimEndSpaces(s, w2);
    assert TrimStart(s) == s && TrimEnd(s) == s;
  }

  /** Distinct indices give distinct element keys. */
  lemma NatToStringInjective(a: nat, b: nat)
    ensures NatToString(a) == NatToString(b) ==> a == b
  {
    ParseNatToString(a);
    ParseNatToString(b);
  }
}
