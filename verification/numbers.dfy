/** Integers as the handler reads and prints them: Python's `int()` on a slot
    string, which `parse_int` turns into NaN on failure, the comparisons the
    validators apply to the result, and `str()` of an int inside f-strings. */
module Numbers {
  import opened Text

  /** What `parse_int` returns: the parsed int, or the float NaN it substitutes
      when `int()` raises `ValueError`. */
  datatype Number = Int(value: int) | NaN

  /** `x < bound` in Python: any comparison involving NaN is false. */
  predicate Less(x: Number, bound: int) {
    x.Int? && x.value < bound
  }

  /** `x > bound` in Python: false for NaN. */
  predicate Greater(x: Number, bound: int) {
    x.Int? && x.value > bound
  }

  /** `x == y` in Python on ints and floats: NaN equals nothing, itself included. */
  predicate Equal(x: Number, y: Number) {
    x.Int? && y.Int? && x.value == y.value
  }

  predicate IsDigit(c: char) {
    '0' <= c <= '9'
  }

  function DigitValue(c: char): (d: nat)
    requires IsDigit(c)
    ensures d < 10
  {
    c as int - '0' as int
  }

  function DigitChar(d: nat): (c: char)
    requires d < 10
    ensures IsDigit(c) && DigitValue(c) == d
  {
    ('0' as int + d) as char
  }

  /** A character of the modelled `int()` alphabet: an ASCII digit, sign,
      underscore or ASCII whitespace. */
  predicate IsNumeralChar(c: char) {
    IsDigit(c) || IsSpace(c) || c == '+' || c == '-' || c == '_'
  }

  /** The digit part of a base-10 literal as `int()` accepts it: digits, with
      single underscores allowed between two digits. */
  predicate IsDecimal(d: string) {
    && |d| > 0
    && IsDigit(d[0])
    && IsDigit(d[|d| - 1])
    && (forall i :: 0 <= i < |d| ==> IsDigit(d[i]) || d[i] == '_')
    && (forall i :: 0 <= i < |d| - 1 ==> d[i] == '_' ==> d[i + 1] != '_')
  }

  /** The value of a digit string read most significant digit first;
      underscores are skipped. */
  function DecimalValue(d: string): nat
    requires forall i :: 0 <= i < |d| ==> IsDigit(d[i]) || d[i] == '_'
  {
    if |d| == 0 then 0
    else if d[|d| - 1] == '_' then DecimalValue(d[..|d| - 1])
    else 10 * DecimalValue(d[..|d| - 1]) + DigitValue(d[|d| - 1])
  }

  /** `parse_int(n)`: `int(n)` on a string, or NaN when `int()` rejects it.
      `int()` strips surrounding whitespace, then reads an optional sign and a
      decimal literal. Only strings over the numeral alphabet can parse, and a
      stripped plain literal parses as its value. */
  function ParseInt(s: string): (r: Number)
    ensures r.Int? ==> forall i :: 0 <= i < |s| ==> IsNumeralChar(s[i])
    ensures IsDecimal(Strip(s)) ==> r == Int(DecimalValue(Strip(s)))
  {
    LiteralCharsAreNumeral(s);
    ParseLiteral(Strip(s))
  }

  /** `int()` on an already stripped string: an optional sign, then a decimal
      literal. */
  function ParseLiteral(t: string): Number {
    if |t| > 0 && (t[0] == '+' || t[0] == '-') then
      if IsDecimal(t[1..]) then
        var v: int := DecimalValue(t[1..]);
        Int(if t[0] == '-' then -v else v)
      else NaN
    else if IsDecimal(t) then Int(DecimalValue(t))
    else NaN
  }

  /** Whatever `int()` accepts is made only of characters of the numeral
      alphabet: a single other character makes `parse_int` return NaN. */
  lemma LiteralCharsAreNumeral(s: string)
    ensures ParseLiteral(Strip(s)).Int? ==> forall i :: 0 <= i < |s| ==> IsNumeralChar(s[i])
  {
    if ParseLiteral(Strip(s)).Int? {
      var t := Strip(s);
      var lo, hi :| 0 <= lo <= hi <= |s| && t == s[lo..hi]
                    && (forall k :: 0 <= k < lo ==> IsSpace(s[k]))
                    && (forall k :: hi <= k < |s| ==> IsSpace(s[k]));
      forall i | 0 <= i < |s|
        ensures IsNumeralChar(s[i])
      {
        if lo <= i < hi {
          assert s[i] == t[i - lo];
          if i > lo {
            assert s[i] == t[1..][i - lo - 1];
          }
        }
      }
    }
  }

  /** `str(n)` for a non-negative int: its decimal digits, no leading zero. */
  function ShowNat(n: nat): (r: string)
    ensures |r| > 0
    ensures forall i :: 0 <= i < |r| ==> IsDigit(r[i])
    ensures n == 0 ==> r == "0"
    ensures n > 0 ==> r[0] != '0'
  {
    if n < 10 then [DigitChar(n)] else ShowNat(n / 10) + [DigitChar(n % 10)]
  }

  /** `str(n)` / `f"{n}"` for an int. */
  function Show(n: int): string {
    if n < 0 then "-" + ShowNat(-n) else ShowNat(n)
  }

  /** The digits of `n` form a literal `int()` reads back as `n`. */
  lemma {:induction false} ShowNatValue(n: nat)
    ensures IsDecimal(ShowNat(n))
    ensures DecimalValue(ShowNat(n)) == n
  {
    var r := ShowNat(n);
    if n >= 10 {
      ShowNatValue(n / 10);
      assert r[..|r| - 1] == ShowNat(n / 10);
    }
  }

  /** Printing an int and parsing it back gives the same int: `int(str(n)) == n`. */
  lemma ParseShowRoundTrip(n: int)
    ensures ParseInt(Show(n)) == Int(n)
  {
    var s := Show(n);
    var m := if n < 0 then -n else n;
    ShowNatValue(m);
    var digits := ShowNat(m);
    assert s[|s| - 1] == digits[|digits| - 1];
    StripUntouched(s);
    if n < 0 {
      assert s[1..] == digits;
    }
  }

  /** `int()` ignores whitespace around the number, whatever the number is. */
  lemma ParseIgnoresSurroundingSpace(w1: string, s: string, w2: string)
    requires forall k :: 0 <= k < |w1| ==> IsSpace(w1[k])
    requires forall k :: 0 <= k < |w2| ==> IsSpace(w2[k])
    ensures ParseInt(w1 + s + w2) == ParseInt(s)
  {
    StripIgnoresPadding(w1, s, w2);
  }

  /** A decimal literal behind a `-` parses as its negation, behind a `+` as
      itself. */
  lemma ParseSigned(d: string)
    requires IsDecimal(d)
    ensures ParseInt("-" + d) == Int(-(DecimalValue(d) as int))
    ensures ParseInt("+" + d) == Int(DecimalValue(d))
  {
    SignedLiteral('-', d);
    SignedLiteral('+', d);
  }

  lemma SignedLiteral(sign: char, d: string)
    requires IsDecimal(d) && (sign == '+' || sign == '-')
    ensures var v: int := DecimalValue(d);
            ParseInt([sign] + d) == Int(if sign == '-' then -v else v)
  {
    var u := [sign] + d;
    assert u[0] == sign && u[|u| - 1] == d[|d| - 1];
    StripUntouched(u);
    assert u[1..] == d;
    assert ParseLiteral(u) == Int(if sign == '-' then -(DecimalValue(d) as int) else DecimalValue(d));
  }

  /** An underscore never contributes to the value of a digit string. */
  lemma {:induction false} DecimalSkipsUnderscore(a: string, b: string)
    requires forall i :: 0 <= i < |a| ==> IsDigit(a[i]) || a[i] == '_'
    requires forall i :: 0 <= i < |b| ==> IsDigit(b[i]) || b[i] == '_'
    ensures DecimalValue(a + "_" + b) == DecimalValue(a + b)
  {
    var u := a + "_" + b;
    var v := a + b;
    if |b| == 0 {
      assert u[..|u| - 1] == a && v == a;
    } else {
      var b' := b[..|b| - 1];
      DecimalSkipsUnderscore(a, b');
      assert u[..|u| - 1] == a + "_" + b';
      assert v[..|v| - 1] == a + b';
      assert u[|u| - 1] == b[|b| - 1] && v[|v| - 1] == b[|b| - 1];
    }
  }

  /** A single underscore between two literals is accepted and changes
      nothing: `int("1_000") == int("1000")`. */
  lemma ParseUnderscoreIgnored(a: string, b: string)
    requires IsDecimal(a) && IsDecimal(b)
    ensures IsDecimal(a + "_" + b)
    ensures ParseInt(a + "_" + b) == ParseInt(a + b) == Int(DecimalValue(a + b))
  {
    var u := a + "_" + b;
    var v := a + b;
    JoinedDecimal(a, "_", b);
    JoinedDecimal(a, "", b);
    assert a + "" + b == v;
    StripUntouched(u);
    StripUntouched(v);
    DecimalSkipsUnderscore(a, b);
  }

  /** Two literals joined directly or by one underscore form a literal. */
  lemma JoinedDecimal(a: string, sep: string, b: string)
    requires IsDecimal(a) && IsDecimal(b) && (sep == "" || sep == "_")
    ensures IsDecimal(a + sep + b)
    ensures var u := a + sep + b; u[0] == a[0] && u[|u| - 1] == b[|b| - 1]
  {
    var u := a + sep + b;
    var m := |a| + |sep|;
    forall i | 0 <= i < |u|
      ensures IsDigit(u[i]) || u[i] == '_'
    {
      if i < |a| { assert u[i] == a[i]; }
      else if i >= m { assert u[i] == b[i - m]; }
      else { assert u[i] == sep[i - |a|]; }
    }
    forall i | 0 <= i < |u| - 1 && u[i] == '_'
      ensures u[i + 1] != '_'
    {
      if i < |a| - 1 { assert u[i] == a[i] && u[i + 1] == a[i + 1]; }
      else if i >= m { assert u[i] == b[i - m] && u[i + 1] == b[i - m + 1]; }
      else if i >= |a| { assert u[i + 1] == b[0]; }
    }
  }

  /** Two adjacent underscores anywhere make `parse_int` return NaN. */
  lemma ParseRejectsDoubleUnderscore(s: string, i: int)
    requires 0 <= i < |s| - 1 && s[i] == '_' && s[i + 1] == '_'
    ensures ParseInt(s).NaN?
  {
    var t := Strip(s);
    var lo, hi :| 0 <= lo <= hi <= |s| && t == s[lo..hi]
                  && (forall k :: 0 <= k < lo ==> IsSpace(s[k]))
                  && (forall k :: hi <= k < |s| ==> IsSpace(s[k]));
    assert lo <= i && i + 1 < hi;
    assert t[i - lo] == '_' && t[i - lo + 1] == '_';
    if |t| > 0 && (t[0] == '+' || t[0] == '-') {
      assert t[1..][i - lo - 1] == '_' && t[1..][i - lo] == '_';
    }
  }

  /** A concrete reading: whitespace around the number is ignored. */
  lemma ParseWhitespaceExample()
    ensures ParseInt(" 42\n") == Int(42)
  {
    assert "42"[..1] == "4";
    assert DecimalValue("42") == 42;
    StripUntouched("42");
    ParseIgnoresSurroundingSpace(" ", "42", "\n");
    assert " " + "42" + "\n" == " 42\n";
  }

  /** A concrete reading: a sign and an underscore between digits are accepted. */
  lemma ParseSignUnderscoreExample()
    ensures ParseInt("+1_000") == Int(1000)
  {
    assert "1_000"[..4] == "1_00";
    assert "1_00"[..3] == "1_0";
    assert "1_0"[..2] == "1_";
    assert "1_"[..1] == "1";
    assert DecimalValue("1_000") == 1000;
    SignedLiteral('+', "1_000");
    assert ['+'] + "1_000" == "+1_000";
  }

  /** Concrete rejections: a doubled or leading underscore, the empty string
      and a lone sign all make `parse_int` return NaN. */
  lemma ParseRejectsMalformed()
    ensures ParseInt("1__000").NaN?
    ensures ParseInt("_1").NaN?
    ensures ParseInt("").NaN?
    ensures ParseInt("-").NaN? && ParseInt("+").NaN?
  {
    ParseRejectsDoubleUnderscore("1__000", 1);
    StripUntouched("_1");
    StripUntouched("-");
    StripUntouched("+");
    assert "-"[1..] == "" && "+"[1..] == "";
  }
}
