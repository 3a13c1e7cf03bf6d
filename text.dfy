/** Python string behaviour the access gate relies on: `str.strip()` over the
    ASCII whitespace set, `str(int)` and the integer subset of `float(str)`. */
module Text {
  import opened Seqs

  /** The characters `str.strip()` removes that this model knows about:
      space, tab, line feed, carriage return, vertical tab and form feed. */
  predicate IsSpace(c: char)
  {
    c == ' ' || c == '\t' || c == '\n' || c == '\r' || c as int == 0x0B || c as int == 0x0C
  }

  predicate AllSpace(s: string)
  {
    forall k :: 0 <= k < |s| ==> IsSpace(s[k])
  }

  /** `s.lstrip()`: `s` without its leading whitespace. */
  function StripLeft(s: string): (r: string)
  {
    if s != [] && IsSpace(s[0]) then StripLeft(s[1..]) else s
  }

  /** `s.rstrip()`: `s` without its trailing whitespace. */
  function StripRight(s: string): (r: string)
  {
    if s != [] && IsSpace(s[|s| - 1]) then StripRight(s[..|s| - 1]) else s
  }

  /** `s.strip()`: `s` without its leading and trailing whitespace. */
  function Strip(s: string): (r: string)
  {
    StripRight(StripLeft(s))
  }

  /** `lstrip` removes only whitespace, and all of it. */
  lemma {:induction false} StripLeftSpec(s: string)
    ensures |StripLeft(s)| <= |s| && StripLeft(s) == s[|s| - |StripLeft(s)|..]
    ensures AllSpace(s[..|s| - |StripLeft(s)|])
    ensures StripLeft(s) != [] ==> !IsSpace(StripLeft(s)[0])
  {
    if s != [] && IsSpace(s[0]) {
      StripLeftSpec(s[1..]);
      var n := |s| - |StripLeft(s)|;
      forall k | 0 <= k < n ensures IsSpace(s[..n][k]) {
        if k > 0 { assert s[..n][k] == s[1..][..n - 1][k - 1]; }
      }
    }
  }

  /** `rstrip` removes only whitespace, and all of it. */
  lemma {:induction false} StripRightSpec(s: string)
    ensures |StripRight(s)| <= |s| && StripRight(s) == s[..|StripRight(s)|]
    ensures AllSpace(s[|StripRight(s)|..])
    ensures StripRight(s) != [] ==> !IsSpace(StripRight(s)[|StripRight(s)| - 1])
  {
    if s != [] && IsSpace(s[|s| - 1]) {
      var p := s[..|s| - 1];
      StripRightSpec(p);
      var n := |StripRight(s)|;
      forall k | 0 <= k < |s| - n ensures IsSpace(s[n..][k]) {
        if k < |s| - 1 - n { assert s[n..][k] == p[n..][k]; }
      }
    }
  }

  /** Strip keeps a contiguous infix of its argument, removes only whitespace
      around it, and leaves no whitespace at either end. */
  lemma StripShape(s: string) returns (i: nat, j: nat)
    ensures i <= j <= |s| && Strip(s) == s[i..j]
    ensures AllSpace(s[..i]) && AllSpace(s[j..])
    ensures Strip(s) != [] ==> !IsSpace(Strip(s)[0]) && !IsSpace(Strip(s)[|Strip(s)| - 1])
  {
    var l := StripLeft(s);
    var r := StripRight(l);
    StripLeftSpec(s);
    StripRightSpec(l);
    i := |s| - |l|;
    j := i + |r|;
    SliceOfSuffix(s, i, |r|);
    assert Strip(s) == r;
    if r != [] {
      assert r[0] == l[0];
      assert !IsSpace(r[|r| - 1]);
    }
  }

  /** Slices of a suffix are slices of the whole. */
  lemma SliceOfSuffix(s: string, i: nat, n: nat)
    requires i + n <= |s|
    ensures s[i..][..n] == s[i..i + n] && s[i..][n..] == s[i + n..]
  {
  }

  /** Uniqueness: whenever `s` is whitespace, then `m`, then whitespace, and `m` has
      no whitespace at either end, `Strip(s)` is exactly `m`. Together with
      StripShape this pins `Strip` down independently of how it is computed. */
  lemma {:induction false} StripUnique(a: string, m: string, b: string)
    requires AllSpace(a) && AllSpace(b)
    requires m != [] ==> !IsSpace(m[0]) && !IsSpace(m[|m| - 1])
    ensures Strip(a + m + b) == m
  {
    assert a + m + b == a + (m + b);
    if m == [] {
      assert a + m + b == a + b;
      assert AllSpace(a + b);
      StripRightAllSpace(a + b);
      StripRightAllSpace([]);
    } else {
      StripLeftOf(a, m + b);
      assert (m + b)[0] == m[0];
      StripLeftKeeps(m + b);
      StripRightOf(m, b);
    }
  }

  lemma {:induction false} StripLeftOf(a: string, t: string)
    requires AllSpace(a)
    requires t != [] ==> !IsSpace(t[0])
    ensures StripLeft(a + t) == StripLeft(t)
  {
    if a != [] {
      assert (a + t)[1..] == a[1..] + t;
      assert AllSpace(a[1..]);
      StripLeftOf(a[1..], t);
    } else {
      assert a + t == t;
    }
  }

  lemma StripLeftKeeps(t: string)
    requires t != [] && !IsSpace(t[0])
    ensures StripLeft(t) == t
  {
  }

  lemma {:induction false} StripRightOf(m: string, b: string)
    requires AllSpace(b)
    requires m != [] ==> !IsSpace(m[|m| - 1])
    ensures StripRight(m + b) == m
  {
    if b == [] {
      assert m + b == m;
    } else {
      var s := m + b;
      assert IsSpace(s[|s| - 1]);
      assert s[..|s| - 1] == m + b[..|b| - 1];
      assert AllSpace(b[..|b| - 1]);
      StripRightOf(m, b[..|b| - 1]);
    }
  }

  lemma {:induction false} StripRightAllSpace(b: string)
    requires AllSpace(b)
    ensures StripRight(b) == [] && StripLeft(b) == []
  {
    if b != [] {
      assert AllSpace(b[..|b| - 1]) && AllSpace(b[1..]);
      StripRightAllSpace(b[..|b| - 1]);
      StripRightAllSpace(b[1..]);
    }
  }

  /** A string with no whitespace at either end strips to itself. */
  lemma StripKeeps(s: string)
    requires s != [] ==> !IsSpace(s[0]) && !IsSpace(s[|s| - 1])
    ensures Strip(s) == s
  {
    assert [] + s + [] == s;
    StripUnique([], s, []);
  }

  /** Stripping twice is stripping once. */
  lemma StripIdempotent(s: string)
    ensures Strip(Strip(s)) == Strip(s)
  {
    var _, _ := StripShape(s);
    StripKeeps(Strip(s));
  }

  lemma AllSpaceConcat(x: string, y: string)
    requires AllSpace(x) && AllSpace(y)
    ensures AllSpace(x + y)
  {
    forall k | 0 <= k < |x + y| ensures IsSpace((x + y)[k]) {
      if k < |x| { assert (x + y)[k] == x[k]; } else { assert (x + y)[k] == y[k - |x|]; }
    }
  }

  lemma Regroup(a: string, p: string, m: string, q: string, b: string)
    ensures a + (p + m + q) + b == (a + p) + m + (q + b)
  {
  }

  /** Whitespace added around a string does not change what it strips to. */
  lemma StripPadded(a: string, s: string, b: string)
    requires AllSpace(a) && AllSpace(b)
    ensures Strip(a + s + b) == Strip(s)
  {
    var i, j := StripShape(s);
    var m, x, y := s[i..j], a + s[..i], s[j..] + b;
    var p, q := s[..i], s[j..];
    assert s == p + m + q;
    Regroup(a, p, m, q, b);
    AllSpaceConcat(a, s[..i]);
    AllSpaceConcat(s[j..], b);
    StripUnique(x, m, y);
  }

  /** `s.strip()` is empty exactly when `s` is all whitespace. */
  lemma StripEmptyIff(s: string)
    ensures Strip(s) == [] <==> AllSpace(s)
  {
    if AllSpace(s) {
      StripRightAllSpace(s);
    }
    if Strip(s) == [] {
      var l := StripLeft(s);
      var i := |s| - |l|;
      StripLeftSpec(s);
      StripRightSpec(l);
      assert l == [];
      assert s[..i] == s;
    }
  }

  // ---- decimal digits ----

  predicate IsDigit(c: char)
  {
    '0' <= c <= '9'
  }

  predicate AllDigits(s: string)
  {
    forall k :: 0 <= k < |s| ==> IsDigit(s[k])
  }

  function DigitChar(d: int): (c: char)
    requires 0 <= d < 10
    ensures IsDigit(c) && c as int - '0' as int == d
  {
    ('0' as int + d) as char
  }

  function DigitValue(c: char): (d: int)
    requires IsDigit(c)
    ensures 0 <= d < 10
  {
    c as int - '0' as int
  }

  /** The value of a string of decimal digits, most significant first. */
  function DecimalValue(s: string): (n: nat)
    requires AllDigits(s)
  {
    if s == [] then 0 else DecimalValue(s[..|s| - 1]) * 10 + DigitValue(s[|s| - 1])
  }

  /** `str(n)` for a natural number: its digits with no leading zero. */
  function NatToDecimal(n: nat): (s: string)
    ensures |s| >= 1 && AllDigits(s)
    ensures s[0] == '0' ==> n == 0 && s == "0"
  {
    if n < 10 then [DigitChar(n)] else NatToDecimal(n / 10) + [DigitChar(n % 10)]
  }

  /** Reading back what `str` wrote gives the number. */
  lemma {:induction false} NatDecimalRoundTrip(n: nat)
    ensures DecimalValue(NatToDecimal(n)) == n
  {
    if n >= 10 {
      var s := NatToDecimal(n);
      assert s[..|s| - 1] == NatToDecimal(n / 10);
      NatDecimalRoundTrip(n / 10);
    }
  }

  /** Writing back a digit string without leading zeros gives the string itself. */
  lemma {:induction false} DecimalNatRoundTrip(s: string)
    requires |s| >= 1 && AllDigits(s)
    requires s[0] == '0' ==> s == "0"
    ensures NatToDecimal(DecimalValue(s)) == s
  {
    var n := DecimalValue(s);
    if |s| == 1 {
      assert s[..0] == [];
    } else {
      var p := s[..|s| - 1];
      assert p[0] == s[0];
      DecimalNatRoundTrip(p);
      LeadingDigitBound(p);
      assert n / 10 == DecimalValue(p) && n % 10 == DigitValue(s[|s| - 1]);
      assert s == p + [s[|s| - 1]];
    }
  }

  lemma {:induction false} LeadingDigitBound(s: string)
    requires |s| >= 1 && AllDigits(s) && s[0] != '0'
    ensures DecimalValue(s) >= 1
  {
    if |s| > 1 {
      var p := s[..|s| - 1];
      assert p[0] == s[0];
      LeadingDigitBound(p);
    }
  }

  /** `str(n)` for any integer: a minus sign in front of negatives. */
  function IntToDecimal(n: int): (s: string)
  {
    if n < 0 then "-" + NatToDecimal(-n) else NatToDecimal(n)
  }

  /** The integer `s` denotes when it is, after trimming whitespace, an optional
      sign followed by one or more decimal digits; `None` for anything else. */
  function ParseInteger(s: string): (r: Option<int>)
  {
    ParseSigned(Strip(s))
  }

  /** An optional sign followed by one or more decimal digits, untrimmed. */
  function ParseSigned(t: string): (r: Option<int>)
  {
    if t == [] then None
    else if t[0] == '-' || t[0] == '+' then
      if |t| >= 2 && AllDigits(t[1..]) then
        var v: int := DecimalValue(t[1..]);
        Some(if t[0] == '-' then -v else v)
      else None
    else if AllDigits(t) then Some(DecimalValue(t))
    else None
  }

  /** `str(n)` is never padded with whitespace, so stripping leaves it alone. */
  lemma IntToDecimalStripped(n: int)
    ensures IntToDecimal(n) != [] && Strip(IntToDecimal(n)) == IntToDecimal(n)
  {
    var s := IntToDecimal(n);
    assert !IsSpace(s[0]) && !IsSpace(s[|s| - 1]);
    StripKeeps(s);
  }

  /** Parsing what `str(n)` wrote gives back `n`, negative numbers included. */
  lemma IntDecimalRoundTrip(n: int)
    ensures ParseInteger(IntToDecimal(n)) == Some(n)
  {
    IntToDecimalStripped(n);
    if n < 0 {
      NegativeRoundTrip(-n);
    } else {
      NatDecimalRoundTrip(n);
    }
  }

  lemma NegativeRoundTrip(m: int)
    requires m > 0
    ensures ParseSigned("-" + NatToDecimal(m)) == Some(-m)
  {
    var d := NatToDecimal(m);
    var t := "-" + d;
    assert t[0] == '-' && t[1..] == d;
    NatDecimalRoundTrip(m);
  }
}
