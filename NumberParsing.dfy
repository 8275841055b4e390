/** `int.TryParse(s, NumberStyles.Integer, CultureInfo.InvariantCulture, out n)`:
    optional white space, an optional sign, one or more decimal digits,
    optional white space, and a value that fits in 32 bits. Its inverse on
    the accepted values is the decimal rendering `Format`. */
module NumberParsing {
  import opened Wrappers
  import opened Int32

  /** The white space NumberStyles.AllowLeadingWhite and AllowTrailingWhite
      skip: U+0009 to U+000D and U+0020. */
  predicate IsWhite(c: char)
  {
    c == ' ' || '\t' <= c <= '\r'
  }

  predicate IsDigit(c: char)
  {
    '0' <= c <= '9'
  }

  predicate AllDigits(s: string)
  {
    forall i :: 0 <= i < |s| ==> IsDigit(s[i])
  }

  predicate AllWhite(s: string)
  {
    forall i :: 0 <= i < |s| ==> IsWhite(s[i])
  }

  /** s without its leading white space. */
  function TrimStart(s: string): (t: string)
    ensures t == [] || !IsWhite(t[0])
  {
    if s != [] && IsWhite(s[0]) then TrimStart(s[1..]) else s
  }

  /** s without its trailing white space. */
  function TrimEnd(s: string): (t: string)
    ensures t == [] || !IsWhite(t[|t| - 1])
  {
    if s != [] && IsWhite(s[|s| - 1]) then TrimEnd(s[..|s| - 1]) else s
  }

  /** The value of a string of decimal digits, most significant first. */
  function DigitsValue(ds: string): nat
    requires AllDigits(ds)
  {
    if ds == [] then 0
    else 10 * DigitsValue(ds[..|ds| - 1]) + (ds[|ds| - 1] - '0') as int
  }

  /** The parse: None when the text is not an optionally signed decimal
      numeral, or when its value does not fit in an `int`. */
  function ParseInt32(s: string): (r: Option<int32>)
    ensures r.Some? ==> exists i :: 0 <= i < |s| && IsDigit(s[i])
    ensures r.Some? && r.value < 0 ==> '-' in s
  {
    TrimmedIsInfix(s);
    var t := TrimEnd(TrimStart(s));
    var negative := t != [] && t[0] == '-';
    var digits := if t != [] && (t[0] == '-' || t[0] == '+') then t[1..] else t;
    if digits == [] || !AllDigits(digits) then None
    else
      assert digits[0] in t && (negative ==> t[0] in t);
      var v: int := if negative then -(DigitsValue(digits) as int) else DigitsValue(digits);
      if MIN <= v <= MAX then Some(v as int32) else None
  }

  /** The decimal digits of n, without leading zeros. */
  function NatToDigits(n: nat): (ds: string)
    ensures ds != [] && AllDigits(ds)
    ensures DigitsValue(ds) == n
  {
    var last := [('0' as int + n % 10) as char];
    if n < 10 then last
    else
      var init := NatToDigits(n / 10);
      assert (init + last)[..|init + last| - 1] == init;
      init + last
  }

  /** The invariant-culture decimal rendering of an `int`. */
  function Format(n: int32): (s: string)
    ensures s != []
  {
    if n < 0 then "-" + NatToDigits(-(n as int)) else NatToDigits(n as int)
  }

  /** Leading white space before a non-white character is skipped. */
  lemma {:induction false} TrimStartSkipsWhite(ws: string, s: string)
    requires AllWhite(ws) && (s == [] || !IsWhite(s[0]))
    ensures TrimStart(ws + s) == s
  {
    if ws != [] {
      assert (ws + s)[1..] == ws[1..] + s;
      TrimStartSkipsWhite(ws[1..], s);
    }
  }

  /** Trailing white space after a non-white character is skipped. */
  lemma {:induction false} TrimEndSkipsWhite(s: string, ws: string)
    requires AllWhite(ws) && (s == [] || !IsWhite(s[|s| - 1]))
    ensures TrimEnd(s + ws) == s
  {
    if ws != [] {
      assert (s + ws)[..|s + ws| - 1] == s + ws[..|ws| - 1];
      TrimEndSkipsWhite(s, ws[..|ws| - 1]);
    }
  }

  /** Parsing the rendering of any `int`, surrounded by any white space,
      gives that `int` back. */
  lemma ParseFormat(n: int32, before: string, after: string)
    requires AllWhite(before) && AllWhite(after)
    ensures ParseInt32(before + Format(n) + after) == Some(n)
  {
    var f := Format(n);
    var ds := NatToDigits(if n < 0 then -(n as int) else n as int);
    assert !IsWhite(f[0]) && !IsWhite(f[|f| - 1]);
    TrimEndSkipsWhite(f, after);
    TrimStartSkipsWhite(before, f + after);
    assert before + f + after == before + (f + after);
    var t := TrimEnd(TrimStart(before + f + after));
    assert t == f && t[0] != '+';
    var digits := if t[0] == '-' then t[1..] else t;
    assert digits == ds by {
      if n < 0 {
        assert f[1..] == ds;
      }
    }
    assert (t[0] == '-') == (n < 0);
  }

  /** A numeral above int.MaxValue, unsigned or with a plus sign and with
      any surrounding white space, is rejected, not wrapped. */
  lemma ParseRejectsOverflow(before: string, sign: string, ds: string, after: string)
    requires AllWhite(before) && AllWhite(after) && (sign == "" || sign == "+")
    requires ds != [] && AllDigits(ds) && DigitsValue(ds) > MAX
    ensures ParseInt32(before + sign + ds + after) == None
  {
    var f := sign + ds;
    assert !IsWhite(f[0]) && !IsWhite(f[|f| - 1]);
    TrimEndSkipsWhite(f, after);
    TrimStartSkipsWhite(before, f + after);
    assert before + sign + ds + after == before + (f + after);
    var t := TrimEnd(TrimStart(before + sign + ds + after));
    assert t == f && t[0] != '-';
    var digits := if t[0] == '+' then t[1..] else t;
    assert digits == ds by {
      if sign == "+" {
        assert f[1..] == ds;
      }
    }
  }

  /** Every character of the trimmed text comes from the text. */
  lemma {:induction false} TrimmedIsInfix(s: string)
    ensures forall c :: c in TrimEnd(TrimStart(s)) ==> c in s
  {
    TrimStartIsSuffix(s);
    TrimEndIsPrefix(TrimStart(s));
  }

  lemma {:induction false} TrimStartIsSuffix(s: string)
    ensures forall c :: c in TrimStart(s) ==> c in s
  {
    if s != [] && IsWhite(s[0]) {
      TrimStartIsSuffix(s[1..]);
    }
  }

  lemma {:induction false} TrimEndIsPrefix(s: string)
    ensures forall c :: c in TrimEnd(s) ==> c in s
  {
    if s != [] && IsWhite(s[|s| - 1]) {
      TrimEndIsPrefix(s[..|s| - 1]);
    }
  }
}
