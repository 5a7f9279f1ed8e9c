/** Python's `int(text)` in base 10 and `str(n)`, on ASCII digits. */
module PyInt {
  import opened Py
  import opened PyStr

  predicate IsDigit(c: char) {
    '0' <= c <= '9'
  }

  function DigitValue(c: char): (d: nat)
    requires IsDigit(c)
    ensures d < 10
  {
    (c as int) - ('0' as int)
  }

  function DigitChar(d: nat): (c: char)
    requires d < 10
    ensures IsDigit(c) && DigitValue(c) == d
  {
    (('0' as int) + d) as char
  }

  predicate AllDigits(s: string) {
    forall i :: 0 <= i < |s| ==> IsDigit(s[i])
  }

  /** The number a run of decimal digits denotes, most significant first. */
  function DigitsValue(s: string): nat
    requires AllDigits(s)
  {
    if s == [] then 0 else 10 * DigitsValue(s[..|s| - 1]) + DigitValue(s[|s| - 1])
  }

  /** The value of one, two and four digits, written out. */
  lemma DigitsValueOne(s: string)
    requires |s| == 1 && IsDigit(s[0])
    ensures AllDigits(s) && DigitsValue(s) == DigitValue(s[0])
  {
    assert s[..0] == [];
  }

  lemma DigitsValueTwo(s: string)
    requires |s| == 2 && IsDigit(s[0]) && IsDigit(s[1])
    ensures AllDigits(s) && DigitsValue(s) == 10 * DigitValue(s[0]) + DigitValue(s[1])
  {
    DigitsValueOne(s[..1]);
  }

  lemma DigitsValueFour(s: string)
    requires |s| == 4 && IsDigit(s[0]) && IsDigit(s[1]) && IsDigit(s[2]) && IsDigit(s[3])
    ensures AllDigits(s)
    ensures DigitsValue(s) == 1000 * DigitValue(s[0]) + 100 * DigitValue(s[1]) + 10 * DigitValue(s[2]) + DigitValue(s[3])
  {
    DigitsValueTwo(s[..2]);
    assert s[..3][..2] == s[..2];
  }

  /** `str(n)` for a non-negative `n`: decimal digits with no leading zero. */
  function NatToString(n: nat): (r: string)
    ensures r != [] && AllDigits(r)
    ensures DigitsValue(r) == n
    ensures |r| > 1 ==> r[0] != '0'
  {
    if n < 10 then [DigitChar(n)]
    else
      var front := NatToString(n / 10);
      var r := front + [DigitChar(n % 10)];
      assert r[..|r| - 1] == front;
      r
  }

  /** `str(n)`: a minus sign before the digits of a negative number. */
  function IntToString(n: int): (r: string)
    ensures r != []
    ensures n < 0 <==> r[0] == '-'
    ensures var digits := if n < 0 then r[1..] else r;
      && digits != [] && AllDigits(digits)
      && DigitsValue(digits) == (if n < 0 then -n else n)
      && (|digits| > 1 ==> digits[0] != '0')
  {
    if n < 0 then
      var digits := NatToString(-n);
      assert ("-" + digits)[1..] == digits;
      "-" + digits
    else NatToString(n)
  }

  /** The digit part `int()` accepts: digits, where a single `_` may stand
      between two digits. */
  predicate IsDigitGroup(s: string) {
    && s != []
    && IsDigit(s[0]) && IsDigit(s[|s| - 1])
    && (forall i :: 0 <= i < |s| ==> IsDigit(s[i]) || s[i] == '_')
    && (forall i :: 0 <= i < |s| - 1 ==> !(s[i] == '_' && s[i + 1] == '_'))
  }

  /** The digits of a group once its underscores are dropped. */
  function GroupDigits(s: string): (r: string)
    requires IsDigitGroup(s)
    ensures r != [] && AllDigits(r)
    ensures r == RemoveChar(s, '_')
  {
    var r := RemoveChar(s, '_');
    forall i | 0 <= i < |r| ensures IsDigit(r[i]) {
      assert r[i] in r;
      var j :| 0 <= j < |s| && s[j] == r[i];
    }
    RemoveCharKeepsFirst(s, '_');
    r
  }

  lemma RemoveCharKeepsFirst(s: string, c: char)
    requires s != [] && s[0] != c
    ensures RemoveChar(s, c) != []
  {
    assert RemoveChar(s, c)[0] == s[0];
  }

  /** The whitespace `int()` skips around a literal. CPython turns every
      non-ASCII whitespace character into a space and then skips only ASCII
      tab, newline, vertical tab, form feed, carriage return and space, so the
      separators U+001C to U+001F, which `str.isspace()` accepts, are kept. */
  predicate IsIntSpace(c: char) {
    IsSpace(c) && !('\U{1C}' <= c <= '\U{1F}')
  }

  predicate AllIntSpace(s: string) {
    forall i :: 0 <= i < |s| ==> IsIntSpace(s[i])
  }

  /** Neither end of `s` is whitespace `int()` skips. */
  predicate IsIntStripped(s: string) {
    s == [] || (!IsIntSpace(s[0]) && !IsIntSpace(s[|s| - 1]))
  }

  /** The text `int()` reads: `s` without the whitespace it skips at either end. */
  function IntStrip(s: string): (r: string)
    ensures IsIntStripped(r)
    ensures forall c :: c in r ==> c in s
    decreases |s|
  {
    if s != [] && IsIntSpace(s[0]) then
      var r := IntStrip(s[1..]);
      assert forall c :: c in s[1..] ==> c in s;
      r
    else if s != [] && IsIntSpace(s[|s| - 1]) then
      var r := IntStrip(s[..|s| - 1]);
      assert forall c :: c in s[..|s| - 1] ==> c in s;
      r
    else s
  }

  /** Skipping keeps exactly the text between margins of skipped whitespace. */
  lemma {:induction false} IntStripOf(a: string, t: string, b: string)
    requires AllIntSpace(a) && AllIntSpace(b) && IsIntStripped(t)
    ensures IntStrip(a + t + b) == t
    decreases |a| + |b|
  {
    var s := a + t + b;
    if a != [] {
      assert s[0] == a[0];
      assert s[1..] == a[1..] + t + b;
      IntStripOf(a[1..], t, b);
    } else if t == [] && b != [] {
      assert s == b && s[0] == b[0];
      assert s[1..] == [] + [] + b[1..];
      IntStripOf([], [], b[1..]);
    } else if b != [] {
      assert s[0] == t[0] && s[|s| - 1] == b[|b| - 1];
      assert s[..|s| - 1] == [] + t + b[..|b| - 1];
      IntStripOf([], t, b[..|b| - 1]);
    } else {
      assert s == t;
    }
  }

  /** `int(text)`: surrounding whitespace is ignored, then the rest must be a
      signed decimal literal; anything else raises ValueError. */
  function ParseInt(text: string): (r: Result<int>)
    ensures r.Err? ==> r.error == ValueError
    ensures r.Ok? <==> IsIntLiteral(IntStrip(text))
  {
    ParseLiteral(IntStrip(text))
  }

  /** What `int()` accepts once the whitespace is stripped: an optional sign,
      then a digit group. */
  predicate IsIntLiteral(t: string) {
    || IsDigitGroup(t)
    || (t != [] && (t[0] == '-' || t[0] == '+') && IsDigitGroup(t[1..]))
  }

  /** One optional sign, then a digit group, whose digits give the magnitude. */
  function ParseLiteral(t: string): (r: Result<int>)
    ensures r.Err? ==> r.error == ValueError
    ensures r.Ok? <==> IsIntLiteral(t)
    ensures IsDigitGroup(t) ==> r == Ok(DigitsValue(GroupDigits(t)) as int)
    ensures t != [] && t[0] == '-' && IsDigitGroup(t[1..]) ==> r == Ok(-(DigitsValue(GroupDigits(t[1..])) as int))
    ensures t != [] && t[0] == '+' && IsDigitGroup(t[1..]) ==> r == Ok(DigitsValue(GroupDigits(t[1..])) as int)
  {
    if t != [] && (t[0] == '-' || t[0] == '+') then
      if IsDigitGroup(t[1..]) then
        var v: int := DigitsValue(GroupDigits(t[1..]));
        Ok(if t[0] == '-' then -v else v)
      else
        Err(ValueError)
    else if IsDigitGroup(t) then
      Ok(DigitsValue(GroupDigits(t)))
    else
      Err(ValueError)
  }

  /** An empty or all-whitespace text is not a number. */
  lemma ParseIntBlank(text: string)
    requires AllSpace(text)
    ensures ParseInt(text) == Err(ValueError)
  {
    var t := IntStrip(text);
    if t != [] {
      assert t[0] in text;
      var k :| 0 <= k < |text| && text[k] == t[0];
      assert IsSpace(t[0]);
    }
  }

  /** A literal with one of the separators U+001C to U+001F in front is
      refused: `int()` does not skip them, though `str.strip()` would. */
  lemma ParseIntRefusesSeparator(c: char, t: string)
    requires '\U{1C}' <= c <= '\U{1F}' && IsIntStripped(t)
    ensures ParseInt([c] + t) == Err(ValueError)
  {
    var s := [c] + t;
    assert s[0] == c && s[|s| - 1] == if t == [] then c else t[|t| - 1];
    assert [] + s + [] == s;
    IntStripOf([], s, []);
  }

  lemma DigitsAreGroup(s: string)
    requires s != [] && AllDigits(s)
    ensures IsDigitGroup(s) && GroupDigits(s) == s
  {
    forall i | 0 <= i < |s| ensures s[i] != '_' {
      assert IsDigit(s[i]);
    }
  }

  /** `int(str(n)) == n` for every integer. */
  lemma ParseIntRoundTrip(n: int)
    ensures ParseInt(IntToString(n)) == Ok(n)
  {
    var s := IntToString(n);
    IntStripStripped(s);
    if n < 0 {
      ParseNegativeText(s);
    } else {
      ParseDigits(s);
    }
  }

  /** `str(n)` has no whitespace at either end, so `int()` reads all of it. */
  lemma IntStripStripped(s: string)
    requires s != [] && (IsDigit(s[0]) || s[0] == '-') && IsDigit(s[|s| - 1])
    ensures IntStrip(s) == s
  {
    assert [] + s + [] == s;
    IntStripOf([], s, []);
  }

  /** A minus sign, then digits: the text reads as minus their value. */
  lemma ParseNegativeText(s: string)
    requires |s| >= 2 && s[0] == '-' && AllDigits(s[1..])
    ensures ParseLiteral(s) == Ok(-(DigitsValue(s[1..]) as int))
  {
    DigitsAreGroup(s[1..]);
  }

  lemma ParseDigits(d: string)
    requires d != [] && AllDigits(d)
    ensures ParseLiteral(d) == Ok(DigitsValue(d) as int)
  {
    DigitsAreGroup(d);
  }

  /** Surrounding whitespace that `int()` skips does not change what it reads. */
  lemma ParseIntIgnoresSpace(a: string, text: string, b: string)
    requires AllIntSpace(a) && AllIntSpace(b) && IsIntStripped(text)
    ensures ParseInt(a + text + b) == ParseInt(text)
  {
    IntStripOf(a, text, b);
    assert [] + text + [] == text;
    IntStripOf([], text, []);
  }
}
