/** Percent-encoding of URL components (section 2.1 of RFC 3986) as Python's
    `urllib.parse.quote(s)` does it with its default `safe='/'`, and the
    decoding that turns the link's query string back into the `file` value. */
module Quoting {
  import opened Seqs

  type byte = b: int | 0 <= b < 256

  /** A string of ASCII characters as the bytes that carry it. */
  function Ascii(s: string): (r: seq<byte>)
    requires forall k :: 0 <= k < |s| ==> s[k] as int < 128
    ensures |r| == |s| && forall k :: 0 <= k < |s| ==> r[k] == s[k] as int
  {
    seq(|s|, k requires 0 <= k < |s| => s[k] as int)
  }

  const Percent: byte := '%' as int
  const Plus: byte := '+' as int
  const Space: byte := ' ' as int
  const Slash: byte := '/' as int
  const Amp: byte := '&' as int
  const Equals: byte := '=' as int
  const Question: byte := '?' as int

  /** The unreserved characters of section 2.3 of RFC 3986: letters, digits, `-._~`. */
  predicate Unreserved(b: byte)
  {
    ('A' as int <= b <= 'Z' as int) || ('a' as int <= b <= 'z' as int) ||
    ('0' as int <= b <= '9' as int) ||
    b == '-' as int || b == '.' as int || b == '_' as int || b == '~' as int
  }

  /** Bytes `quote` copies through unchanged: the unreserved ones and `/`. */
  predicate Safe(b: byte)
  {
    Unreserved(b) || b == Slash
  }

  /** The uppercase hexadecimal digit for 0..15. */
  function HexDigit(v: int): (h: byte)
    requires 0 <= v < 16
  {
    if v < 10 then '0' as int + v else 'A' as int + (v - 10)
  }

  predicate IsUpperHex(b: byte)
  {
    ('0' as int <= b <= '9' as int) || ('A' as int <= b <= 'F' as int)
  }

  /** Any hexadecimal digit, either case; the decoder accepts both. */
  predicate IsHex(b: byte)
  {
    IsUpperHex(b) || ('a' as int <= b <= 'f' as int)
  }

  function HexValue(b: byte): (v: int)
    requires IsHex(b)
    ensures 0 <= v < 16
  {
    if b <= '9' as int then b - '0' as int
    else if b <= 'F' as int then b - 'A' as int + 10
    else b - 'a' as int + 10
  }

  lemma HexDigitValue(v: int)
    requires 0 <= v < 16
    ensures IsUpperHex(HexDigit(v)) && HexValue(HexDigit(v)) == v
  {
  }

  /** What `quote` writes for one byte: the byte itself when it is safe,
      otherwise `%` and two uppercase hex digits. */
  function QuoteByte(b: byte): (r: seq<byte>)
  {
    if Safe(b) then [b] else [Percent, HexDigit(b / 16), HexDigit(b % 16)]
  }

  /** `urllib.parse.quote(s)` over the bytes of `s`. */
  function Quote(s: seq<byte>): (r: seq<byte>)
  {
    if s == [] then [] else QuoteByte(s[0]) + Quote(s[1..])
  }

  /** Well-formed percent-encoded text: safe bytes, and `%` always followed by
      two uppercase hex digits. */
  predicate WellQuoted(t: seq<byte>)
    decreases |t|
  {
    if t == [] then true
    else if Safe(t[0]) then WellQuoted(t[1..])
    else t[0] == Percent && |t| >= 3 && IsUpperHex(t[1]) && IsUpperHex(t[2]) && WellQuoted(t[3..])
  }

  /** Every byte of a well-formed encoding is safe, `%` or an uppercase hex digit. */
  lemma {:induction false} WellQuotedBytes(t: seq<byte>)
    requires WellQuoted(t)
    ensures forall k :: 0 <= k < |t| ==> Safe(t[k]) || t[k] == Percent || IsUpperHex(t[k])
  {
    if t != [] {
      if Safe(t[0]) {
        WellQuotedBytes(t[1..]);
        forall k | 1 <= k < |t| ensures Safe(t[k]) || t[k] == Percent || IsUpperHex(t[k]) {
          assert t[k] == t[1..][k - 1];
        }
      } else {
        WellQuotedBytes(t[3..]);
        forall k | 3 <= k < |t| ensures Safe(t[k]) || t[k] == Percent || IsUpperHex(t[k]) {
          assert t[k] == t[3..][k - 3];
        }
      }
    }
  }

  lemma WellQuotedAppend(q: seq<byte>, t: seq<byte>, b: byte)
    requires q == QuoteByte(b) && WellQuoted(t)
    ensures WellQuoted(q + t)
  {
    HexDigitValue(b / 16);
    HexDigitValue(b % 16);
    if Safe(b) {
      assert (q + t)[1..] == t;
    } else {
      assert (q + t)[3..] == t;
    }
  }

  /** `quote` always produces a well-formed encoding. */
  lemma {:induction false} QuoteWellFormed(s: seq<byte>)
    ensures WellQuoted(Quote(s))
  {
    if s != [] {
      QuoteWellFormed(s[1..]);
      WellQuotedAppend(QuoteByte(s[0]), Quote(s[1..]), s[0]);
    }
  }

  /** The output of `quote` holds only safe bytes, `%` and uppercase hex digits,
      so in particular no `&`, `=`, `+`, `?`, `#` or space. */
  lemma QuoteAlphabet(s: seq<byte>)
    ensures forall k :: 0 <= k < |Quote(s)| ==>
              Safe(Quote(s)[k]) || Quote(s)[k] == Percent || IsUpperHex(Quote(s)[k])
    ensures Amp !in Quote(s) && Equals !in Quote(s) && Plus !in Quote(s) && Question !in Quote(s)
  {
    QuoteWellFormed(s);
    WellQuotedBytes(Quote(s));
  }

  /** `quote` leaves exactly the all-safe inputs unchanged. */
  lemma {:induction false} QuoteIdentityIff(s: seq<byte>)
    ensures Quote(s) == s <==> forall k :: 0 <= k < |s| ==> Safe(s[k])
  {
    QuoteLength(s);
    if s != [] {
      QuoteIdentityIff(s[1..]);
      if Safe(s[0]) {
        assert Quote(s) == [s[0]] + Quote(s[1..]);
        assert s == [s[0]] + s[1..];
        if Quote(s) == s {
          assert Quote(s[1..]) == s[1..];
        }
        if forall k :: 0 <= k < |s| ==> Safe(s[k]) {
          assert forall k :: 0 <= k < |s[1..]| ==> Safe(s[1..][k]) by {
            forall k | 0 <= k < |s[1..]| ensures Safe(s[1..][k]) {
              assert s[1..][k] == s[k + 1];
            }
          }
        }
        if Quote(s[1..]) == s[1..] {
          forall k | 0 <= k < |s| ensures Safe(s[k]) {
            if k > 0 { assert s[k] == s[1..][k - 1]; }
          }
        }
      } else {
        assert |Quote(s)| > |s|;
      }
    }
  }

  /** `quote` never shrinks its input: each unsafe byte becomes three. */
  lemma {:induction false} QuoteLength(s: seq<byte>)
    ensures |Quote(s)| >= |s|
    ensures |Quote(s)| == |s| ==> forall k :: 0 <= k < |s| ==> Safe(s[k])
  {
    if s != [] {
      QuoteLength(s[1..]);
      if |Quote(s)| == |s| {
        forall k | 0 <= k < |s| ensures Safe(s[k]) {
          if k > 0 { assert s[k] == s[1..][k - 1]; }
        }
      }
    }
  }

  /** `unquote_plus` over bytes, as used to read query values: `+` is a space,
      `%` with two hex digits (either case) is that byte, anything else,
      including a `%` not followed by two hex digits, is kept as it is. */
  function Unquote(t: seq<byte>): (r: seq<byte>)
    decreases |t|
  {
    if t == [] then []
    else if t[0] == Plus then [Space] + Unquote(t[1..])
    else if t[0] == Percent && |t| >= 3 && IsHex(t[1]) && IsHex(t[2]) then
      [HexValue(t[1]) * 16 + HexValue(t[2])] + Unquote(t[3..])
    else [t[0]] + Unquote(t[1..])
  }

  lemma UnquoteByte(b: byte, rest: seq<byte>)
    ensures Unquote(QuoteByte(b) + rest) == [b] + Unquote(rest)
  {
    var t := QuoteByte(b) + rest;
    if Safe(b) {
      assert t[1..] == rest;
    } else {
      HexDigitValue(b / 16);
      HexDigitValue(b % 16);
      assert t[1] == HexDigit(b / 16) && t[2] == HexDigit(b % 16);
      assert t[3..] == rest;
    }
  }

  /** Decoding what `quote` wrote gives back the original bytes. */
  lemma {:induction false} UnquoteQuote(s: seq<byte>)
    ensures Unquote(Quote(s)) == s
  {
    if s != [] {
      UnquoteByte(s[0], Quote(s[1..]));
      UnquoteQuote(s[1..]);
      assert s == [s[0]] + s[1..];
    }
  }

  /** Hence `quote` is injective: two ids never share a link. */
  lemma QuoteInjective(s: seq<byte>, t: seq<byte>)
    requires Quote(s) == Quote(t)
    ensures s == t
  {
    UnquoteQuote(s);
    UnquoteQuote(t);
  }

  // ---- reading the `file` parameter back out of a link ----

  /** The query string of a URL: everything after its first `?`, if any. */
  function QueryOf(url: seq<byte>): (q: Option<seq<byte>>)
  {
    var parts := SplitOnce(url, Question);
    if parts.2 then Some(parts.1) else None
  }

  /** One `name=value` field, both parts decoded; a field without `=` has
      an empty value (blank values are kept). */
  function Field(f: seq<byte>): (nv: (seq<byte>, seq<byte>))
  {
    var parts := SplitOnce(f, Equals);
    (Unquote(parts.0), Unquote(parts.1))
  }

  /** The value of the last non-empty field called `name` among `fields`. */
  function LastValue(fields: seq<seq<byte>>, name: seq<byte>): (v: Option<seq<byte>>)
    decreases |fields|
  {
    if fields == [] then None
    else
      var f := fields[|fields| - 1];
      if f != [] && Field(f).0 == name then Some(Field(f).1)
      else LastValue(fields[..|fields| - 1], name)
  }

  /** The query parameter `name` of `url`, or `None` when it is absent. */
  function Param(url: seq<byte>, name: seq<byte>): (v: Option<seq<byte>>)
  {
    match QueryOf(url)
    case None => None
    case Some(q) => LastValue(Split(q, Amp), name)
  }

  const FileKey: seq<byte> := Ascii("file")

  /** The link a successful upload shares: `base + "?file=" + quote(id)`. */
  function Link(base: seq<byte>, id: seq<byte>): (url: seq<byte>)
  {
    base + [Question] + FileKey + [Equals] + Quote(id)
  }

  /** The round trip the access page relies on: for any base without a `?`,
      the `file` parameter of the link decodes to exactly the id that was
      quoted into it, whatever bytes the id holds. */
  lemma LinkRoundTrip(base: seq<byte>, id: seq<byte>)
    requires Question !in base
    ensures Param(Link(base, id), FileKey) == Some(id)
  {
    var q := FileKey + [Equals] + Quote(id);
    assert Link(base, id) == base + [Question] + q;
    SplitOnceAt(base, Question, q);
    assert QueryOf(Link(base, id)) == Some(q);
    FileFieldDecodes(id);
    QuoteAlphabet(id);
    FileKeyBytes();
    assert Amp !in q;
    SplitNoDelimiter(q, Amp);
  }

  lemma FileKeyBytes()
    ensures FileKey == ['f' as int, 'i' as int, 'l' as int, 'e' as int]
    ensures Amp !in FileKey && Equals !in FileKey && Unquote(FileKey) == FileKey
  {
    var f := FileKey;
    assert f == ['f' as int, 'i' as int, 'l' as int, 'e' as int];
    assert Unquote(f[3..]) == f[3..];
    assert Unquote(f[2..]) == f[2..];
    assert Unquote(f[1..]) == f[1..];
  }

  /** The single field `file=` + quote(id) decodes to the pair (`file`, id). */
  lemma FileFieldDecodes(id: seq<byte>)
    ensures Field(FileKey + [Equals] + Quote(id)) == (FileKey, id)
    ensures LastValue([FileKey + [Equals] + Quote(id)], FileKey) == Some(id)
  {
    FileKeyBytes();
    SplitOnceAt(FileKey, Equals, Quote(id));
    UnquoteQuote(id);
  }

}
