/** Decimal integers as the parser reads and writes them: `parseInt(s, 10)`
    on the way in (an optional sign and the longest run of decimal digits
    after leading whitespace; no digits is `NaN`, here `None`) and the
    template-literal rendering of an integer on the way out. */
module Numbers {
  import opened Wrappers
  import Text

  predicate IsDigit(c: char) {
    '0' <= c <= '9'
  }

  predicate AllDigits(s: string) {
    forall i :: 0 <= i < |s| ==> IsDigit(s[i])
  }

  function DigitValue(c: char): (d: nat)
    requires IsDigit(c)
    ensures d < 10
  {
    c as int - '0' as int
  }

  function DigitChar(d: nat): (c: char)
    requires d < 10
    ensures IsDigit(c) && DigitValue(c) == d
  {
    ('0' as int + d) as char
  }

  /** The longest prefix of `s` made of decimal digits. */
  function LeadingDigits(s: string): (r: string)
    ensures |r| <= |s| && r == s[..|r|]
    ensures AllDigits(r)
    ensures |r| == |s| || !IsDigit(s[|r|])
  {
    if s == [] || !IsDigit(s[0]) then []
    else
      var r := LeadingDigits(s[1..]);
      assert s[1..][..|r|] == s[1..|r| + 1];
      [s[0]] + r
  }

  /** The value of a run of decimal digits, most significant first. */
  function DigitsValue(ds: string): nat
    requires AllDigits(ds)
  {
    if ds == [] then 0
    else DigitsValue(ds[..|ds| - 1]) * 10 + DigitValue(ds[|ds| - 1])
  }

  /** The text after an optional leading sign, and whether the sign was `-`. */
  function SplitSign(t: string): (r: (bool, string))
    ensures r.1 == t || (|t| > 0 && (t[0] == '-' || t[0] == '+') && r.1 == t[1..])
    ensures r.0 <==> |t| > 0 && t[0] == '-'
  {
    if |t| > 0 && t[0] == '-' then (true, t[1..])
    else if |t| > 0 && t[0] == '+' then (false, t[1..])
    else (false, t)
  }

  /** `parseInt(s, 10)`; `None` stands for `NaN`. */
  function ParseInt(s: string): (r: Option<int>)
    ensures AllNonDigits(s) ==> r == None
  {
    var t := Text.TrimStart(s);
    assert AllNonDigits(s) ==> AllNonDigits(t) by {
      if AllNonDigits(s) {
        forall i | 0 <= i < |t| ensures !IsDigit(t[i]) {
          assert t[i] == s[|s| - |t| + i];
        }
      }
    }
    ParseSigned(t)
  }

  /** What `parseInt` reads once leading whitespace is gone. */
  function ParseSigned(t: string): (r: Option<int>)
    ensures AllNonDigits(t) ==> r == None
  {
    var sign := SplitSign(t);
    var ds := LeadingDigits(sign.1);
    if ds == [] then None
    else
      assert IsDigit(t[|t| - |sign.1|]);
      var v: int := DigitsValue(ds);
      Some(if sign.0 then -v else v)
  }

  predicate AllNonDigits(s: string) {
    forall i :: 0 <= i < |s| ==> !IsDigit(s[i])
  }

  /** The decimal rendering of a natural number: digits only, no leading
      zero, reading back as the same number. */
  function NatToString(n: nat): (r: string)
    ensures |r| >= 1 && AllDigits(r)
    ensures r[0] != '0' || n == 0
    ensures DigitsValue(r) == n
    decreases n
  {
    if n < 10 then [DigitChar(n)]
    else
      var front := NatToString(n / 10);
      var r := front + [DigitChar(n % 10)];
      assert r[..|r| - 1] == front;
      r
  }

  /** How a template literal renders an integer: `-` before a negative one. */
  function IntToString(n: int): (r: string)
    ensures |r| >= 1 && (r[0] == '-' || IsDigit(r[0]))
    ensures r[0] == '-' <==> n < 0
  {
    if n < 0 then "-" + NatToString(-n) else NatToString(n)
  }

  lemma {:induction false} LeadingDigitsOfDigits(ds: string, rest: string)
    requires AllDigits(ds)
    requires rest == [] || !IsDigit(rest[0])
    ensures LeadingDigits(ds + rest) == ds
    decreases |ds|
  {
    if ds == [] {
      assert ds + rest == rest;
    } else {
      assert (ds + rest)[1..] == ds[1..] + rest;
      LeadingDigitsOfDigits(ds[1..], rest);
      assert ds == [ds[0]] + ds[1..];
    }
  }

  /** Leading whitespace does not change what `parseInt` reads. */
  lemma ParseIntSkipsSpace(pad: string, x: string)
    requires Text.AllSpace(pad)
    requires x == [] || !Text.IsJsSpace(x[0])
    ensures ParseInt(pad + x) == ParseInt(x)
  {
    Text.TrimStartOfPadded(pad, x);
    Text.TrimStartOfPadded([], x);
    assert [] + x == x;
  }

  lemma ParseSignedOfRendered(n: int, rest: string)
    requires rest == [] || !IsDigit(rest[0])
    ensures ParseSigned(IntToString(n) + rest) == Some(n)
  {
    var x := IntToString(n) + rest;
    var m: nat := if n < 0 then -n else n;
    var body := NatToString(m) + rest;
    if n < 0 {
      assert x == "-" + body;
      assert SplitSign(x) == (true, body);
    } else {
      assert SplitSign(x) == (false, body);
    }
    LeadingDigitsOfDigits(NatToString(m), rest);
  }

  lemma ParseIntOfRendered(n: int, rest: string)
    requires rest == [] || !IsDigit(rest[0])
    ensures ParseInt(IntToString(n) + rest) == Some(n)
  {
    var x := IntToString(n) + rest;
    assert x[0] == IntToString(n)[0];
    assert Text.TrimStart(x) == x;
    ParseSignedOfRendered(n, rest);
  }

  /** Rendering an integer and reading it back with `parseInt` gives the
      integer again, whatever whitespace precedes it and whatever non-digit
      text follows it. */
  lemma ParseIntOfIntToString(n: int, pad: string, rest: string)
    requires Text.AllSpace(pad)
    requires rest == [] || !IsDigit(rest[0])
    ensures ParseInt(pad + IntToString(n) + rest) == Some(n)
  {
    var x := IntToString(n) + rest;
    assert pad + IntToString(n) + rest == pad + x;
    ParseIntSkipsSpace(pad, x);
    ParseIntOfRendered(n, rest);
  }

  /** A rendered integer is a `-` or digits, and ends in a digit. */
  lemma IntToStringChars(n: int)
    ensures forall i :: 0 <= i < |IntToString(n)| ==> IntToString(n)[i] == '-' || IsDigit(IntToString(n)[i])
    ensures IsDigit(IntToString(n)[|IntToString(n)| - 1])
  {
    var m: nat := if n < 0 then -n else n;
    var d := NatToString(m);
    if n < 0 {
      assert IntToString(n) == "-" + d;
      assert forall i :: 1 <= i < |IntToString(n)| ==> IntToString(n)[i] == d[i - 1];
    }
  }

  /** `parseInt` reads a rendered integer back as itself. */
  lemma ParseIntOfRenderedAlone(n: int)
    ensures ParseInt(IntToString(n)) == Some(n)
  {
    ParseIntOfRendered(n, []);
    assert IntToString(n) + [] == IntToString(n);
  }

  /** At most one `+` or `-`. */
  predicate IsSign(sign: string) {
    |sign| <= 1 && (sign == [] || sign[0] == '+' || sign[0] == '-')
  }

  /** Text that does not start with whitespace is read by `parseInt` as it
      is. */
  lemma ParseIntUnpadded(x: string)
    requires x == [] || !Text.IsJsSpace(x[0])
    ensures ParseInt(x) == ParseSigned(x)
  {
    Text.TrimStartOfPadded([], x);
    assert [] + x == x;
  }

  /** The sign is split off the text after it. */
  lemma SplitSignOf(sign: string, body: string)
    requires IsSign(sign)
    requires body == [] || (body[0] != '+' && body[0] != '-')
    ensures SplitSign(sign + body) == (sign != [] && sign[0] == '-', body)
  {
    if sign != [] {
      assert (sign + body)[0] == sign[0];
      assert (sign + body)[1..] == body;
    } else {
      assert sign + body == body;
    }
  }

  /** `parseInt(s, 10)` on whitespace, an optional sign, a run of digits and
      any text not starting with a digit: the digits' value, negated after
      `-`. Leading zeros, `+` and trailing text are accepted; `-0` is 0. */
  lemma ParseIntOfDigits(pad: string, sign: string, ds: string, rest: string)
    requires Text.AllSpace(pad) && IsSign(sign)
    requires AllDigits(ds) && ds != []
    requires rest == [] || !IsDigit(rest[0])
    ensures ParseInt(pad + sign + ds + rest)
         == Some(if sign != [] && sign[0] == '-' then -(DigitsValue(ds) as int) else DigitsValue(ds) as int)
  {
    var body := ds + rest;
    var x := sign + body;
    var neg := sign != [] && sign[0] == '-';
    assert pad + sign + ds + rest == pad + x;
    assert body[0] == ds[0];
    assert x[0] == (if sign != [] then sign[0] else ds[0]);
    ParseIntSkipsSpace(pad, x);
    ParseIntUnpadded(x);
    SplitSignOf(sign, body);
    LeadingDigitsOfDigits(ds, rest);
    ParseSignedOfDigits(x, neg, body, ds);
  }

  lemma ParseSignedOfDigits(x: string, neg: bool, body: string, ds: string)
    requires SplitSign(x) == (neg, body) && LeadingDigits(body) == ds && ds != []
    ensures ParseSigned(x) == Some(if neg then -(DigitsValue(ds) as int) else DigitsValue(ds) as int)
  {
  }

  /** `parseInt(s, 10)` is `NaN` when no digit follows the whitespace and
      the optional sign. */
  lemma ParseIntWithoutDigits(pad: string, sign: string, rest: string)
    requires Text.AllSpace(pad) && IsSign(sign)
    requires rest == [] || !IsDigit(rest[0])
    requires sign == [] ==> rest == [] || (!Text.IsJsSpace(rest[0]) && rest[0] != '+' && rest[0] != '-')
    ensures ParseInt(pad + sign + rest) == None
  {
    var x := sign + rest;
    assert pad + sign + rest == pad + x;
    if sign != [] {
      assert x[0] == sign[0] && x[1..] == rest;
    } else {
      assert x == rest;
    }
    Text.TrimStartOfPadded(pad, x);
    assert SplitSign(x).1 == rest;
    assert LeadingDigits(rest) == [];
  }
}
