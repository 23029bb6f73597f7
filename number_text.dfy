/** Conversion of text to a number, as Python's float() does it for the decimal
    strings a JSON client sends (" 4.5", "-20000", "+.5", "7."). */
module NumberText {

  datatype Option<T> = None | Some(value: T)

  /** The ASCII whitespace that float() strips from both ends of its argument. */
  predicate IsSpace(ch: char) {
    ch == ' ' || ch == '\t' || ch == '\n' || ch == '\r' || ch == 11 as char || ch == 12 as char
  }

  predicate AllSpace(s: string) {
    forall i | 0 <= i < |s| :: IsSpace(s[i])
  }

  /** The sign float() accepts in front of a number: none, plus or minus. */
  predicate IsSign(sign: string) {
    sign == "" || sign == "+" || sign == "-"
  }

  predicate IsDigit(ch: char) {
    '0' <= ch <= '9'
  }

  predicate AllDigits(s: string) {
    forall i | 0 <= i < |s| :: IsDigit(s[i])
  }

  function DigitValue(ch: char): (d: nat)
    requires IsDigit(ch)
    ensures d < 10
  {
    (ch as int - '0' as int) as nat
  }

  function DigitChar(d: nat): (ch: char)
    requires d < 10
    ensures IsDigit(ch) && DigitValue(ch) == d
  {
    ('0' as int + d) as char
  }

  /** The value of a string of decimal digits, most significant first. */
  function DigitsValue(s: string): nat
    requires AllDigits(s)
  {
    if s == [] then 0 else 10 * DigitsValue(s[..|s| - 1]) + DigitValue(s[|s| - 1])
  }

  function Pow10(n: nat): (p: nat)
    ensures p >= 1
  {
    if n == 0 then 1 else 10 * Pow10(n - 1)
  }

  function TrimStart(s: string): (r: string)
    ensures r == [] || !IsSpace(r[0])
  {
    if s != [] && IsSpace(s[0]) then TrimStart(s[1..]) else s
  }

  function TrimEnd(s: string): (r: string)
    ensures r == [] || !IsSpace(r[|r| - 1])
  {
    if s != [] && IsSpace(s[|s| - 1]) then TrimEnd(s[..|s| - 1]) else s
  }

  /** The whitespace float() strips, removed from both ends and nowhere else. */
  function Strip(s: string): string {
    TrimEnd(TrimStart(s))
  }

  /** The position of the first occurrence of ch in s. */
  function IndexOf(s: string, ch: char): (i: nat)
    requires ch in s
    ensures i < |s| && s[i] == ch && ch !in s[..i]
  {
    if s[0] == ch then 0 else 1 + IndexOf(s[1..], ch)
  }

  /** The value of the digits after a decimal point. */
  function FractionValue(fraction: string): (x: real)
    requires AllDigits(fraction)
    ensures 0.0 <= x
  {
    DigitsValue(fraction) as real / Pow10(|fraction|) as real
  }

  /** The value of <whole>.<fraction>. */
  function FixedValue(whole: string, fraction: string): real
    requires AllDigits(whole) && AllDigits(fraction)
  {
    DigitsValue(whole) as real + FractionValue(fraction)
  }

  /** An unsigned decimal: digits, optionally a point and more digits, with at
      least one digit in all. */
  function ParseUnsigned(t: string): (r: Option<real>)
    ensures r.Some? ==> r.value >= 0.0
  {
    if '.' in t then
      var i := IndexOf(t, '.');
      var whole, fraction := t[..i], t[i + 1..];
      if AllDigits(whole) && AllDigits(fraction) && |whole| + |fraction| > 0 then
        assert t == whole + ['.'] + fraction;
        Some(FixedValue(whole, fraction))
      else
        None
    else if AllDigits(t) && t != [] then
      Some(DigitsValue(t) as real)
    else
      None
  }

  /** float(text): surrounding whitespace stripped, an optional sign, then an
      unsigned decimal. None stands for the ValueError float() raises. */
  function ParseNumber(text: string): (r: Option<real>)
  {
    var t := Strip(text);
    if t != [] && (t[0] == '-' || t[0] == '+') then
      match ParseUnsigned(t[1..])
      case None => None
      case Some(x) => Some(if t[0] == '-' then -x else x)
    else
      ParseUnsigned(t)
  }

  /** An unsigned reading with a sign put in front of the text. */
  function Signed(sign: string, r: Option<real>): Option<real> {
    match r
    case None => None
    case Some(x) => Some(if sign == "-" then -x else x)
  }

  /** Digits and at most one decimal point, with at least one digit: the
      unsigned texts float() accepts. */
  predicate DecimalForm(u: string) {
    && (forall i | 0 <= i < |u| :: IsDigit(u[i]) || u[i] == '.')
    && multiset(u)['.'] <= 1
    && exists i | 0 <= i < |u| :: IsDigit(u[i])
  }

  /** The text after an optional leading sign. */
  function Unsigned(t: string): string {
    if t != [] && (t[0] == '-' || t[0] == '+') then t[1..] else t
  }

  /** The decimal text of a natural number, without leading zeros. */
  function ShowNat(n: nat): (s: string)
    ensures s != [] && AllDigits(s)
  {
    if n < 10 then [DigitChar(n)] else ShowNat(n / 10) + [DigitChar(n % 10)]
  }

  /** The decimal text of an integer, as str() gives it. */
  function ShowInt(n: int): (s: string)
  {
    if n < 0 then "-" + ShowNat(-n) else ShowNat(n)
  }

  lemma {:induction false} DigitsValueShowNat(n: nat)
    ensures DigitsValue(ShowNat(n)) == n
  {
    if n >= 10 {
      var s := ShowNat(n);
      assert s[..|s| - 1] == ShowNat(n / 10);
      DigitsValueShowNat(n / 10);
    }
  }

  lemma {:induction false} ParseUnsignedDigits(t: string)
    requires t != [] && AllDigits(t)
    ensures ParseUnsigned(t) == Some(DigitsValue(t) as real)
  {
    forall i | 0 <= i < |t| ensures t[i] != '.' {
      assert IsDigit(t[i]);
    }
    assert '.' !in t;
  }

  /** float(str(n)) == n: the text of every integer parses back to it. */
  lemma {:induction false} ParseShowInt(n: int)
    ensures ParseNumber(ShowInt(n)) == Some(n as real)
  {
    var m: nat := if n < 0 then -n else n;
    var sign := if n < 0 then "-" else "";
    DigitsValueShowNat(m);
    ShowIntText(n);
    ParseInteger([], sign, ShowNat(m), []);
  }

  lemma ShowIntText(n: int)
    ensures ShowInt(n) == [] + (if n < 0 then "-" else "") + ShowNat(if n < 0 then -n else n) + []
  {
  }

  /** A run of digits, with an optional sign and surrounding whitespace, reads
      as its value, negated after a minus sign. */
  lemma {:induction false} ParseInteger(pre: string, sign: string, digits: string, post: string)
    requires AllSpace(pre) && AllSpace(post) && IsSign(sign)
    requires digits != [] && AllDigits(digits)
    ensures var x := DigitsValue(digits) as real;
      ParseNumber(pre + sign + digits + post) == Some(if sign == "-" then -x else x)
  {
    ParseUnsignedDigits(digits);
    assert IsDigit(digits[0]) && IsDigit(digits[|digits| - 1]);
    PaddedNumber(pre, sign, digits, post);
  }

  /** Text of the form <digits>.<digits>, where either part may be empty but
      not both, with an optional sign and surrounding whitespace, reads as the
      whole part plus the fraction scaled by the number of fraction digits,
      negated after a minus sign. */
  lemma {:induction false} ParseFixedPoint(pre: string, sign: string, whole: string, fraction: string, post: string)
    requires AllSpace(pre) && AllSpace(post) && IsSign(sign)
    requires AllDigits(whole) && AllDigits(fraction) && |whole| + |fraction| > 0
    ensures var x := DigitsValue(whole) as real + FractionValue(fraction);
      ParseNumber(pre + sign + whole + "." + fraction + post) == Some(if sign == "-" then -x else x)
  {
    var body := whole + "." + fraction;
    ParseUnsignedFixed(whole, fraction);
    FixedTextEnds(whole, fraction);
    PaddedNumber(pre, sign, body, post);
    assert pre + sign + whole + "." + fraction + post == pre + sign + body + post;
  }

  lemma {:induction false} FixedTextEnds(whole: string, fraction: string)
    requires AllDigits(whole) && AllDigits(fraction)
    ensures var s := whole + "." + fraction;
      s != [] && (IsDigit(s[0]) || s[0] == '.') && (IsDigit(s[|s| - 1]) || s[|s| - 1] == '.')
  {
    var s := whole + "." + fraction;
    if whole != [] {
      assert s[0] == whole[0] && IsDigit(whole[0]);
    }
    if fraction != [] {
      assert s[|s| - 1] == fraction[|fraction| - 1] && IsDigit(fraction[|fraction| - 1]);
    }
  }

  /** The unsigned text body, after an optional sign and padded with
      whitespace, reads as ParseUnsigned reads body, negated after a minus
      sign: the padding is stripped and the sign is taken off. */
  lemma {:induction false} PaddedNumber(pre: string, sign: string, body: string, post: string)
    requires AllSpace(pre) && AllSpace(post) && IsSign(sign)
    requires body != [] && (IsDigit(body[0]) || body[0] == '.')
    requires IsDigit(body[|body| - 1]) || body[|body| - 1] == '.'
    ensures ParseNumber(pre + sign + body + post) == Signed(sign, ParseUnsigned(body))
  {
    var s := sign + body;
    assert s[|s| - 1] == body[|body| - 1];
    assert s[0] == (if sign == "" then body[0] else sign[0]);
    StripPadding(pre, s, post);
    assert pre + sign + body + post == pre + s + post;
    if sign == "" {
      assert s == body && body[0] != '-' && body[0] != '+';
      assert ParseNumber(pre + sign + body + post) == ParseUnsigned(body);
    } else {
      assert s[0] == sign[0] && s[1..] == body;
      assert ParseNumber(pre + sign + body + post) == Signed(sign, ParseUnsigned(s[1..]));
    }
  }

  /** str.strip() removes exactly the whitespace padding around text that
      does not itself start or end with whitespace. */
  lemma {:induction false} StripPadding(pre: string, s: string, post: string)
    requires AllSpace(pre) && AllSpace(post)
    requires s != [] && !IsSpace(s[0]) && !IsSpace(s[|s| - 1])
    ensures Strip(pre + s + post) == s
  {
    assert (s + post)[0] == s[0];
    TrimStartSpaces(pre, s + post);
    assert pre + s + post == pre + (s + post);
    TrimEndSpaces(s, post);
  }

  lemma {:induction false} TrimStartSpaces(pre: string, t: string)
    requires AllSpace(pre) && (t == [] || !IsSpace(t[0]))
    ensures TrimStart(pre + t) == t
  {
    if pre == [] {
      assert pre + t == t;
    } else {
      assert (pre + t)[0] == pre[0];
      assert (pre + t)[1..] == pre[1..] + t;
      TrimStartSpaces(pre[1..], t);
    }
  }

  lemma {:induction false} TrimEndSpaces(t: string, post: string)
    requires AllSpace(post) && (t == [] || !IsSpace(t[|t| - 1]))
    ensures TrimEnd(t + post) == t
  {
    if post == [] {
      assert t + post == t;
    } else {
      var s := t + post;
      assert s[|s| - 1] == post[|post| - 1];
      assert s[..|s| - 1] == t + post[..|post| - 1];
      TrimEndSpaces(t, post[..|post| - 1]);
    }
  }

  lemma {:induction false} ParseUnsignedFixed(whole: string, fraction: string)
    requires AllDigits(whole) && AllDigits(fraction) && |whole| + |fraction| > 0
    ensures ParseUnsigned(whole + "." + fraction) == Some(FixedValue(whole, fraction))
  {
    var s := whole + "." + fraction;
    forall i | 0 <= i < |whole| ensures whole[i] != '.' {
      assert IsDigit(whole[i]);
    }
    IndexOfPrefix(whole, fraction);
    assert s[..|whole|] == whole;
    assert s[|whole| + 1..] == fraction;
  }

  lemma {:induction false} IndexOfPrefix(whole: string, fraction: string)
    requires '.' !in whole
    ensures '.' in whole + "." + fraction
    ensures IndexOf(whole + "." + fraction, '.') == |whole|
  {
    var s := whole + "." + fraction;
    assert s[|whole|] == '.';
    if whole != [] {
      assert s[1..] == whole[1..] + "." + fraction;
      IndexOfPrefix(whole[1..], fraction);
    }
  }

  /** float() refuses any text holding two or more decimal points, wherever
      they stand. */
  lemma {:induction false} ParseTwoPoints(text: string)
    requires multiset(text)['.'] >= 2
    ensures ParseNumber(text) == None
  {
    var t := Strip(text);
    StripKeepsPoints(text);
    if t != [] && (t[0] == '-' || t[0] == '+') {
      assert t == [t[0]] + t[1..];
      assert multiset(t[1..])['.'] == multiset(t)['.'];
      UnsignedTwoPoints(t[1..]);
    } else {
      UnsignedTwoPoints(t);
    }
  }

  lemma {:induction false} UnsignedTwoPoints(u: string)
    requires multiset(u)['.'] >= 2
    ensures ParseUnsigned(u) == None
  {
    assert '.' in multiset(u);
    var i := IndexOf(u, '.');
    var whole, fraction := u[..i], u[i + 1..];
    assert u == whole + [u[i]] + fraction;
    assert multiset(whole)['.'] == 0;
    assert '.' in multiset(fraction);
    var j := IndexOf(fraction, '.');
    assert !IsDigit(fraction[j]);
  }

  /** Stripping whitespace removes no decimal point. */
  lemma {:induction false} StripKeepsPoints(s: string)
    ensures multiset(Strip(s))['.'] == multiset(s)['.']
  {
    TrimStartKeepsPoints(s);
    TrimEndKeepsPoints(TrimStart(s));
  }

  lemma {:induction false} TrimStartKeepsPoints(s: string)
    ensures multiset(TrimStart(s))['.'] == multiset(s)['.']
  {
    if s != [] && IsSpace(s[0]) {
      assert s == [s[0]] + s[1..];
      TrimStartKeepsPoints(s[1..]);
    }
  }

  lemma {:induction false} TrimEndKeepsPoints(s: string)
    ensures multiset(TrimEnd(s))['.'] == multiset(s)['.']
  {
    if s != [] && IsSpace(s[|s| - 1]) {
      assert s == s[..|s| - 1] + [s[|s| - 1]];
      TrimEndKeepsPoints(s[..|s| - 1]);
    }
  }

  /** float() accepts a text exactly when, once the surrounding whitespace
      and an optional sign are taken off, what is left is digits with at most
      one decimal point and at least one digit. */
  lemma {:induction false} ParseNumberForm(text: string)
    ensures ParseNumber(text).Some? <==> DecimalForm(Unsigned(Strip(text)))
  {
    ParseUnsignedForm(Unsigned(Strip(text)));
  }

  lemma {:induction false} ParseUnsignedForm(u: string)
    ensures ParseUnsigned(u).Some? <==> DecimalForm(u)
  {
    if '.' in u {
      PointedForm(u);
    } else {
      PointlessForm(u);
    }
  }

  lemma {:induction false} PointlessForm(u: string)
    requires '.' !in u
    ensures ParseUnsigned(u).Some? <==> DecimalForm(u)
  {
    assert multiset(u)['.'] == 0;
    if DecimalForm(u) {
      forall i | 0 <= i < |u| ensures IsDigit(u[i]) {
        assert u[i] != '.';
      }
    }
    if AllDigits(u) && u != [] {
      assert IsDigit(u[0]);
    }
  }

  lemma {:induction false} PointedForm(u: string)
    requires '.' in u
    ensures ParseUnsigned(u).Some? <==> DecimalForm(u)
  {
    var i := IndexOf(u, '.');
    var whole, fraction := u[..i], u[i + 1..];
    assert u == whole + [u[i]] + fraction;
    assert multiset(whole)['.'] == 0;
    assert multiset(u)['.'] == 1 + multiset(fraction)['.'];
    if ParseUnsigned(u).Some? {
      assert AllDigits(whole) && AllDigits(fraction) && |whole| + |fraction| > 0;
      PointedSplitForm(u, i);
    }
    if DecimalForm(u) {
      FormSplit(u, i);
    }
  }

  /** The two sides of the first point are digits, so u has the form. */
  lemma {:induction false} PointedSplitForm(u: string, i: nat)
    requires i < |u| && u[i] == '.'
    requires AllDigits(u[..i]) && AllDigits(u[i + 1..]) && |u| > 1
    ensures DecimalForm(u)
  {
    var whole, fraction := u[..i], u[i + 1..];
    assert u == whole + [u[i]] + fraction;
    forall k | 0 <= k < |u| ensures IsDigit(u[k]) || u[k] == '.' {
      if k < i {
        assert u[k] == whole[k];
      } else if k > i {
        assert u[k] == fraction[k - i - 1];
      }
    }
    forall k | 0 <= k < |fraction| ensures fraction[k] != '.' {
      assert IsDigit(fraction[k]);
    }
    assert multiset(fraction)['.'] == 0;
    forall k | 0 <= k < |whole| ensures whole[k] != '.' {
      assert IsDigit(whole[k]);
    }
    assert multiset(whole)['.'] == 0;
    if i > 0 {
      assert IsDigit(u[0]);
    } else {
      assert IsDigit(u[1]) by { assert u[1] == fraction[0]; }
    }
  }

  /** A text in the form splits at its first point into two digit runs that
      are not both empty. */
  lemma {:induction false} FormSplit(u: string, i: nat)
    requires DecimalForm(u) && i < |u| && u[i] == '.' && '.' !in u[..i]
    ensures AllDigits(u[..i]) && AllDigits(u[i + 1..]) && |u| > 1
  {
    var whole, fraction := u[..i], u[i + 1..];
    assert u == whole + [u[i]] + fraction;
    assert multiset(u)['.'] == multiset(whole)['.'] + 1 + multiset(fraction)['.'];
    assert multiset(fraction)['.'] == 0;
    forall k | 0 <= k < |whole| ensures IsDigit(whole[k]) {
      assert whole[k] == u[k] && whole[k] in u[..i];
    }
    forall k | 0 <= k < |fraction| ensures IsDigit(fraction[k]) {
      assert fraction[k] == u[i + 1 + k] && fraction[k] in fraction;
    }
    var j :| 0 <= j < |u| && IsDigit(u[j]);
    assert j != i;
  }
}
