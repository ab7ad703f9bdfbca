/**
 * The handful of Python string built-ins the application relies on:
 * str.isspace / str.strip (blank-line tests), str.lower (extension and
 * status comparisons), str(n) for non-negative n (document ids) and int(s)
 * (parsing the ids the entity service echoes back).
 */
module PyStr {
  import opened Wrappers

  /** Python's str.isspace() on one character: the ASCII controls tab to
      carriage return, the information separators 0x1C-0x1F, space, NEL,
      no-break space and the Unicode space separators. */
  predicate IsSpace(c: char) {
    || ('\t' <= c <= '\r')
    || ('\U{1c}' <= c <= '\U{1f}')
    || c == ' '
    || c == '\U{85}'
    || c == '\U{a0}'
    || c == '\U{1680}'
    || ('\U{2000}' <= c <= '\U{200a}')
    || c == '\U{2028}'
    || c == '\U{2029}'
    || c == '\U{202f}'
    || c == '\U{205f}'
    || c == '\U{3000}'
  }

  /** s.lstrip(): drops the leading whitespace and keeps a suffix of s. */
  function StripLeading(s: string): (r: string)
    ensures |r| <= |s| && r == s[|s| - |r|..]
    ensures forall k :: 0 <= k < |s| - |r| ==> IsSpace(s[k])
    ensures r != [] ==> !IsSpace(r[0])
  {
    if s != [] && IsSpace(s[0]) then StripLeading(s[1..]) else s
  }

  /** s.rstrip(): drops the trailing whitespace and keeps a prefix of s. */
  function StripTrailing(s: string): (r: string)
    ensures |r| <= |s| && r == s[..|r|]
    ensures forall k :: |r| <= k < |s| ==> IsSpace(s[k])
    ensures r != [] ==> !IsSpace(r[|r| - 1])
  {
    if s != [] && IsSpace(s[|s| - 1]) then StripTrailing(s[..|s| - 1]) else s
  }

  /** s.strip() */
  function Strip(s: string): string {
    StripTrailing(StripLeading(s))
  }

  /** Every character is whitespace (the empty string included). */
  predicate Blank(s: string) {
    forall k :: 0 <= k < |s| ==> IsSpace(s[k])
  }

  /** `not s.strip()` holds exactly of the blank strings. */
  lemma StripEmptyIffBlank(s: string)
    ensures Strip(s) == [] <==> Blank(s)
  {
    var l := StripLeading(s);
    if l != [] {
      assert !IsSpace(s[|s| - |l|]);
    }
  }

  /** str.lower() restricted to ASCII letters. */
  function LowerChar(c: char): char {
    if 'A' <= c <= 'Z' then (c as int - 'A' as int + 'a' as int) as char else c
  }

  function Lower(s: string): (r: string)
    ensures |r| == |s| && forall k :: 0 <= k < |s| ==> r[k] == LowerChar(s[k])
  {
    seq(|s|, k requires 0 <= k < |s| => LowerChar(s[k]))
  }

  predicate IsDigit(c: char) {
    '0' <= c <= '9'
  }

  function DigitValue(c: char): nat {
    if IsDigit(c) then c as int - '0' as int else 0
  }

  function DigitChar(d: nat): (c: char)
    requires d < 10
    ensures IsDigit(c) && DigitValue(c) == d
  {
    ('0' as int + d) as char
  }

  /** str(n) for a non-negative integer n: its decimal digits, most significant first. */
  function NatToString(n: nat): string {
    if n < 10 then [DigitChar(n)] else NatToString(n / 10) + [DigitChar(n % 10)]
  }

  lemma {:induction false} NatToStringDigits(n: nat)
    ensures |NatToString(n)| > 0
    ensures forall k :: 0 <= k < |NatToString(n)| ==> IsDigit(NatToString(n)[k])
  {
    if n >= 10 {
      NatToStringDigits(n / 10);
    }
  }

  /** The value of a string of decimal digits, read most significant first. */
  function DigitsValue(s: string): nat {
    if s == [] then 0 else DigitsValue(s[..|s| - 1]) * 10 + DigitValue(s[|s| - 1])
  }

  /** Where int() is while it reads its argument from left to right. */
  datatype ScanState =
    | Leading                                 // whitespace before the number
    | Signed(negative: bool)                  // just read '+' or '-'
    | InDigits(negative: bool, value: nat)    // just read a digit
    | AfterUnderscore(negative: bool, value: nat)
    | Trailing(negative: bool, value: nat)    // whitespace after the number

  function WithSign(negative: bool, v: nat): int {
    if negative then -(v as int) else v
  }

  /** The whitespace int() skips around a number. CPython first maps every
      non-ASCII isspace character to ' ' and keeps the ASCII ones as they
      are, then skips only ' ', tab, newline, vertical tab, form feed and
      carriage return, so the separators 0x1C-0x1F, though isspace, make
      int() raise. */
  predicate IsIntSpace(c: char) {
    IsSpace(c) && !('\U{1c}' <= c <= '\U{1f}')
  }

  /** int(s) on s[k..] in state st: IsIntSpace whitespace around the number
      is ignored, then one optional sign, then digits with single
      underscores between them. None stands for the ValueError Python
      raises. */
  function Scan(s: string, k: nat, st: ScanState): Option<int>
    requires k <= |s|
    decreases |s| - k
  {
    if k == |s| then
      match st
      case InDigits(neg, v) => Some(WithSign(neg, v))
      case Trailing(neg, v) => Some(WithSign(neg, v))
      case _ => None
    else
      var c := s[k];
      match st
      case Leading =>
        if IsIntSpace(c) then Scan(s, k + 1, Leading)
        else if c == '+' || c == '-' then Scan(s, k + 1, Signed(c == '-'))
        else if IsDigit(c) then Scan(s, k + 1, InDigits(false, DigitValue(c)))
        else None
      case Signed(neg) =>
        if IsDigit(c) then Scan(s, k + 1, InDigits(neg, DigitValue(c))) else None
      case InDigits(neg, v) =>
        if IsDigit(c) then Scan(s, k + 1, InDigits(neg, v * 10 + DigitValue(c)))
        else if c == '_' then Scan(s, k + 1, AfterUnderscore(neg, v))
        else if IsIntSpace(c) then Scan(s, k + 1, Trailing(neg, v))
        else None
      case AfterUnderscore(neg, v) =>
        if IsDigit(c) then Scan(s, k + 1, InDigits(neg, v * 10 + DigitValue(c))) else None
      case Trailing(neg, v) =>
        if IsIntSpace(c) then Scan(s, k + 1, Trailing(neg, v)) else None
  }

  /** int(s) for a string s, in base 10. */
  function ParseInt(s: string): Option<int> {
    Scan(s, 0, Leading)
  }

  /** Reading the rest of a run of digits appends their value to the one read so far. */
  lemma {:induction false} ScanDigits(s: string, k: nat, neg: bool)
    requires 1 <= k <= |s|
    requires forall m :: 0 <= m < |s| ==> IsDigit(s[m])
    ensures Scan(s, k, InDigits(neg, DigitsValue(s[..k]))) == Some(WithSign(neg, DigitsValue(s)))
    decreases |s| - k
  {
    if k == |s| {
      assert s[..k] == s;
    } else {
      assert s[..k + 1][..k] == s[..k];
      ScanDigits(s, k + 1, neg);
    }
  }

  /** A non-empty run of digits, with or without a minus sign in front,
      reads as its value. */
  lemma ScanNumber(s: string)
    requires |s| > 0
    requires forall m :: 0 <= m < |s| ==> IsDigit(s[m])
    ensures ParseInt(s) == Some(DigitsValue(s))
    ensures ParseInt("-" + s) == Some(-(DigitsValue(s) as int))
  {
    assert s[..1][..0] == [];
    ScanDigits(s, 1, false);
    var t := "-" + s;
    assert t[0] == '-' && t[1] == s[0];
    assert Scan(t, 0, Leading) == Scan(t, 1, Signed(true));
    assert Scan(t, 1, Signed(true)) == Scan(t, 2, InDigits(true, DigitValue(s[0])));
    ScanBehindMinus(s, 1);
  }

  /** ScanDigits for the digits of "-" + s. */
  lemma {:induction false} ScanBehindMinus(s: string, k: nat)
    requires 1 <= k <= |s|
    requires forall m :: 0 <= m < |s| ==> IsDigit(s[m])
    ensures Scan("-" + s, k + 1, InDigits(true, DigitsValue(s[..k]))) == Some(-(DigitsValue(s) as int))
    decreases |s| - k
  {
    var t := "-" + s;
    if k == |s| {
      assert s[..k] == s;
    } else {
      assert t[k + 1] == s[k];
      assert s[..k + 1][..k] == s[..k];
      ScanBehindMinus(s, k + 1);
    }
  }

  lemma {:induction false} DigitsValueOfNatToString(n: nat)
    ensures DigitsValue(NatToString(n)) == n
  {
    var s := NatToString(n);
    if n >= 10 {
      DigitsValueOfNatToString(n / 10);
      assert s[..|s| - 1] == NatToString(n / 10);
    }
  }

  /** int(str(n)) == n and int("-" + str(n)) == -n: every id str() writes
      parses back to the number it encodes. */
  lemma ParseNatToString(n: nat)
    ensures ParseInt(NatToString(n)) == Some(n)
    ensures ParseInt("-" + NatToString(n)) == Some(-(n as int))
  {
    NatToStringDigits(n);
    DigitsValueOfNatToString(n);
    ScanNumber(NatToString(n));
  }

  /** str is injective on the naturals, so distinct offsets get distinct ids. */
  lemma NatToStringInjective(m: nat, n: nat)
    ensures NatToString(m) == NatToString(n) ==> m == n
  {
    ParseNatToString(m);
    ParseNatToString(n);
  }

  /** Leading IsIntSpace whitespace makes no difference to int(). */
  lemma ParseIgnoresLeadingSpace(c: char, s: string)
    requires IsIntSpace(c)
    ensures ParseInt([c] + s) == ParseInt(s)
  {
    ScanAfterPrefix(c, s, 0, Leading);
  }

  /** In every state, what the scanner does on s from k on is what it does
      on [c] + s from k + 1 on. */
  lemma {:induction false} ScanAfterPrefix(c: char, s: string, k: nat, st: ScanState)
    requires k <= |s|
    ensures Scan([c] + s, k + 1, st) == Scan(s, k, st)
    decreases |s| - k
  {
    var t := [c] + s;
    if k < |s| {
      assert t[k + 1] == s[k];
      var d := s[k];
      match st
      case Leading =>
        if IsIntSpace(d) { ScanAfterPrefix(c, s, k + 1, Leading); }
        else if d == '+' || d == '-' { ScanAfterPrefix(c, s, k + 1, Signed(d == '-')); }
        else if IsDigit(d) { ScanAfterPrefix(c, s, k + 1, InDigits(false, DigitValue(d))); }
      case Signed(neg) =>
        if IsDigit(d) { ScanAfterPrefix(c, s, k + 1, InDigits(neg, DigitValue(d))); }
      case InDigits(neg, v) =>
        if IsDigit(d) { ScanAfterPrefix(c, s, k + 1, InDigits(neg, v * 10 + DigitValue(d))); }
        else if d == '_' { ScanAfterPrefix(c, s, k + 1, AfterUnderscore(neg, v)); }
        else if IsIntSpace(d) { ScanAfterPrefix(c, s, k + 1, Trailing(neg, v)); }
      case AfterUnderscore(neg, v) =>
        if IsDigit(d) { ScanAfterPrefix(c, s, k + 1, InDigits(neg, v * 10 + DigitValue(d))); }
      case Trailing(neg, v) =>
        if IsIntSpace(d) { ScanAfterPrefix(c, s, k + 1, Trailing(neg, v)); }
    }
  }

  /** int() ignores surrounding whitespace, non-ASCII spaces such as NEL
      and the ideographic space included. */
  lemma ParsePadded()
    ensures ParseInt(" 7\n") == Some(7)
    ensures ParseInt("\U{85}7") == Some(7)
    ensures ParseInt("\U{3000}7") == Some(7)
  {
  }

  /** The information separators are isspace, so a line made of them is
      blank, yet int() refuses them before or after a number. */
  lemma SeparatorsRefused()
    ensures Blank("\U{1c}\U{1f}")
    ensures ParseInt("\U{1c}7") == None
    ensures ParseInt("7\U{1f}") == None
  {
  }

  /** int() accepts single underscores between digits. */
  lemma ParseUnderscore()
    ensures ParseInt("1_0") == Some(10)
  {
  }

  /** int() accepts a leading plus or minus sign. */
  lemma ParseSigned()
    ensures ParseInt("-3") == Some(-3)
    ensures ParseInt("+3") == Some(3)
  {
  }

  /** int() rejects a doubled or trailing underscore, a sign alone, a space
      inside the number, the empty string and a non-digit. */
  lemma ParseRejects()
    ensures ParseInt("1__0") == None
    ensures ParseInt("1_") == None
    ensures ParseInt("-") == None
    ensures ParseInt("1 2") == None
    ensures ParseInt("") == None
    ensures ParseInt("x") == None
  {
  }
}
