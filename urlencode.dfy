/** `urllib.parse.urlencode` over a list of string pairs, with its default
    `quote_via=quote_plus` and `safe=''`: each key and value is UTF-8 encoded,
    every byte outside the unreserved set of section 2.3 of RFC 3986 is
    percent-encoded as in section 2.1 (upper-case hex), except that space
    becomes `+` as in application/x-www-form-urlencoded; pairs are written
    `key=value` and joined with `&`. The parser here is the inverse used to
    state what an encoded query still carries. */
module FormEncoding {
  import opened Wrappers
  import Utf8

  type Byte = Utf8.Byte

  /** The unreserved characters of section 2.3 of RFC 3986, the set `quote`
      never escapes: all ASCII, and none of them a delimiter of a query. */
  predicate Unreserved(c: char)
    ensures Unreserved(c) ==> c as int < 0x80
    ensures Unreserved(c) ==> c != '%' && c != '+' && c != '&' && c != '=' && c != '?' && c != ' '
  {
    'A' <= c <= 'Z' || 'a' <= c <= 'z' || '0' <= c <= '9' || c == '-' || c == '.' || c == '_' || c == '~'
  }

  /** The characters an encoded key or value is made of. */
  predicate FormSafe(c: char) {
    Unreserved(c) || c == '%' || c == '+'
  }

  /** An upper-case hexadecimal digit, as `%{:02X}` writes it. */
  function HexDigit(d: int): (c: char)
    requires 0 <= d < 16
    ensures '0' <= c <= '9' || 'A' <= c <= 'F'
    ensures Unreserved(c)
    ensures HexValue(c) == Some(d)
  {
    if d < 10 then (48 + d) as char else (55 + d) as char
  }

  /** The value of a hexadecimal digit of either case. */
  function HexValue(c: char): Option<int> {
    if '0' <= c <= '9' then Some(c as int - 48)
    else if 'A' <= c <= 'F' then Some(c as int - 55)
    else if 'a' <= c <= 'f' then Some(c as int - 87)
    else None
  }

  /** How `quote_plus` writes one byte. */
  function QuoteByte(b: Byte): (r: string)
    ensures |r| == 1 || |r| == 3
    ensures forall i :: 0 <= i < |r| ==> FormSafe(r[i])
    ensures b == 0x20 ==> r == "+"
    ensures |r| == 1 <==> b == 0x20 || (b < 0x80 && Unreserved(b as char))
    ensures |r| == 1 && b != 0x20 ==> r[0] as int == b
    ensures |r| == 3 ==>
      && r[0] == '%'
      && ('0' <= r[1] <= '9' || 'A' <= r[1] <= 'F') && HexValue(r[1]) == Some(b / 16)
      && ('0' <= r[2] <= '9' || 'A' <= r[2] <= 'F') && HexValue(r[2]) == Some(b % 16)
  {
    if b < 0x80 && Unreserved(b as char) then [b as char]
    else if b == 0x20 then "+"
    else ['%', HexDigit(b / 16), HexDigit(b % 16)]
  }

  function QuoteBytes(bs: seq<Byte>): (r: string)
    ensures forall i :: 0 <= i < |r| ==> FormSafe(r[i])
  {
    if bs == [] then "" else QuoteByte(bs[0]) + QuoteBytes(bs[1..])
  }

  /** `quote_plus(s, safe='')`. */
  function QuotePlus(s: string): (r: string)
    ensures forall i :: 0 <= i < |r| ==> FormSafe(r[i])
  {
    QuoteBytes(Utf8.Encode(s))
  }

  /** Strict inverse of `QuoteBytes`: `+` is a space, `%XX` one byte, any
      other ASCII character itself; a bad escape or a non-ASCII character
      gives `None`. */
  function UnquoteBytes(t: string): Option<seq<Byte>>
    decreases |t|
  {
    if t == [] then Some([])
    else if t[0] == '+' then
      match UnquoteBytes(t[1..])
      case None => None
      case Some(rest) => Some([0x20] + rest)
    else if t[0] == '%' then
      if |t| < 3 then None
      else match (HexValue(t[1]), HexValue(t[2]))
        case (Some(hi), Some(lo)) =>
          if 0 <= hi < 16 && 0 <= lo < 16 then
            match UnquoteBytes(t[3..])
            case None => None
            case Some(rest) => Some([hi * 16 + lo] + rest)
          else None
        case _ => None
    else if t[0] as int < 0x80 then
      match UnquoteBytes(t[1..])
      case None => None
      case Some(rest) => Some([t[0] as int] + rest)
    else None
  }

  /** The inverse of `QuotePlus`. */
  function UnquotePlus(t: string): Option<string> {
    match UnquoteBytes(t)
    case None => None
    case Some(bs) => Utf8.Decode(bs)
  }

  /** Unquoting undoes quoting, byte by byte. */
  lemma {:induction false} UnquoteQuoteBytes(bs: seq<Byte>)
    ensures UnquoteBytes(QuoteBytes(bs)) == Some(bs)
  {
    if bs != [] {
      var b, head, tail := bs[0], QuoteByte(bs[0]), QuoteBytes(bs[1..]);
      var t := head + tail;
      UnquoteQuoteBytes(bs[1..]);
      if |head| == 1 {
        assert t[1..] == tail;
      } else {
        assert t[3..] == tail;
        assert b == (b / 16) * 16 + b % 16;
      }
      assert bs == [b] + bs[1..];
    }
  }

  /** Unquoting undoes `quote_plus`: no key or value is altered by its encoding. */
  lemma UnquotePlusQuotePlus(s: string)
    ensures UnquotePlus(QuotePlus(s)) == Some(s)
  {
    UnquoteQuoteBytes(Utf8.Encode(s));
    Utf8.DecodeEncode(s);
  }

  /** Unreserved characters are left as they are. */
  lemma QuotePlusUnreserved(s: string)
    requires forall i :: 0 <= i < |s| ==> Unreserved(s[i])
    ensures QuotePlus(s) == s
  {
    Utf8.EncodeAscii(s);
    QuoteAsciiBytes(s, Utf8.Encode(s));
  }

  lemma {:induction false} QuoteAsciiBytes(s: string, bs: seq<Byte>)
    requires |bs| == |s|
    requires forall i :: 0 <= i < |s| ==> Unreserved(s[i]) && bs[i] == s[i] as int
    ensures QuoteBytes(bs) == s
  {
    if s != [] {
      QuoteAsciiBytes(s[1..], bs[1..]);
      assert s == [s[0]] + s[1..];
    }
  }

  /** The address of the example request: `@` is a reserved character and is written `%40`. */
  lemma QuotePlusExample()
    ensures QuotePlus("a@b.com") == "a%40b.com"
  {
  }

  /** A space is written `+`, as in application/x-www-form-urlencoded. */
  lemma QuotePlusSpace()
    ensures QuotePlus("a b") == "a+b"
  {
  }

  /** A non-ASCII character is written as its UTF-8 bytes in upper-case hex. */
  lemma QuotePlusNonAscii()
    ensures QuotePlus("\U{E9}") == "%C3%A9"
  {
  }

  /** `k + '=' + v` after quoting both. */
  function Field(key: string, value: string): (r: string)
    ensures '&' !in r && '?' !in r
  {
    var k, v := QuotePlus(key), QuotePlus(value);
    assert forall i :: 0 <= i < |k| ==> k[i] != '&' && k[i] != '?' && k[i] != '=';
    assert forall i :: 0 <= i < |v| ==> v[i] != '&' && v[i] != '?' && v[i] != '=';
    k + "=" + v
  }

  /** `urlencode(pairs)`: the fields joined with `&`. */
  function Urlencode(pairs: seq<(string, string)>): (r: string)
    ensures '?' !in r
    ensures pairs == [] <==> r == ""
  {
    if pairs == [] then ""
    else if |pairs| == 1 then Field(pairs[0].0, pairs[0].1)
    else Field(pairs[0].0, pairs[0].1) + "&" + Urlencode(pairs[1..])
  }

  /** `t.split(sep)`: always at least one piece. */
  function Split(t: string, sep: char): (parts: seq<string>)
    ensures |parts| >= 1
  {
    if t == [] then [[]]
    else
      var rest := Split(t[1..], sep);
      if t[0] == sep then [[]] + rest
      else [[t[0]] + rest[0]] + rest[1..]
  }

  /** `t.split(sep, 1)` when `sep` occurs: the text before the first `sep` and the text after it. */
  function Cut(t: string, sep: char): Option<(string, string)> {
    if t == [] then None
    else if t[0] == sep then Some(([], t[1..]))
    else match Cut(t[1..], sep)
      case None => None
      case Some(kv) => Some(([t[0]] + kv.0, kv.1))
  }

  /** Parses `k=v&k=v...` back into the pairs, in order. */
  function ParseQuery(t: string): Option<seq<(string, string)>> {
    if t == "" then Some([]) else ParseFields(Split(t, '&'))
  }

  function ParseFields(fields: seq<string>): Option<seq<(string, string)>> {
    if fields == [] then Some([])
    else match Cut(fields[0], '=')
      case None => None
      case Some(kv) =>
        match (UnquotePlus(kv.0), UnquotePlus(kv.1), ParseFields(fields[1..]))
        case (Some(k), Some(v), Some(rest)) => Some([(k, v)] + rest)
        case _ => None
  }

  lemma {:induction false} SplitNoSep(t: string, sep: char)
    requires sep !in t
    ensures Split(t, sep) == [t]
  {
    if t != [] {
      SplitNoSep(t[1..], sep);
      assert t == [t[0]] + t[1..];
    }
  }

  /** Splitting at one separator splits the two sides independently. */
  lemma {:induction false} SplitAppend(a: string, sep: char, b: string)
    ensures Split(a + [sep] + b, sep) == Split(a, sep) + Split(b, sep)
  {
    if a == [] {
      assert a + [sep] + b == [sep] + b;
    } else {
      assert (a + [sep] + b)[1..] == a[1..] + [sep] + b;
      SplitAppend(a[1..], sep, b);
    }
  }

  lemma {:induction false} CutFirst(a: string, sep: char, b: string)
    requires sep !in a
    ensures Cut(a + [sep] + b, sep) == Some((a, b))
  {
    if a == [] {
      assert a + [sep] + b == [sep] + b;
    } else {
      assert (a + [sep] + b)[1..] == a[1..] + [sep] + b;
      CutFirst(a[1..], sep, b);
      assert a == [a[0]] + a[1..];
    }
  }

  /** The `key=value` pieces `urlencode` joins, one per pair. */
  function Fields(pairs: seq<(string, string)>): (fields: seq<string>)
    ensures |fields| == |pairs|
  {
    if pairs == [] then [] else [Field(pairs[0].0, pairs[0].1)] + Fields(pairs[1..])
  }

  /** The `&`-separated pieces of an encoded query are its fields. */
  lemma {:induction false} SplitUrlencode(pairs: seq<(string, string)>)
    requires pairs != []
    ensures Split(Urlencode(pairs), '&') == Fields(pairs)
  {
    var f := Field(pairs[0].0, pairs[0].1);
    SplitNoSep(f, '&');
    if |pairs| > 1 {
      SplitUrlencode(pairs[1..]);
      SplitAppend(f, '&', Urlencode(pairs[1..]));
    }
  }

  /** One field splits at its only `=` into the quoted key and value, and both unquote. */
  lemma ParseField(key: string, value: string)
    ensures Cut(Field(key, value), '=') == Some((QuotePlus(key), QuotePlus(value)))
    ensures UnquotePlus(QuotePlus(key)) == Some(key) && UnquotePlus(QuotePlus(value)) == Some(value)
  {
    var k, v := QuotePlus(key), QuotePlus(value);
    assert forall i :: 0 <= i < |k| ==> k[i] != '=';
    CutFirst(k, '=', v);
    UnquotePlusQuotePlus(key);
    UnquotePlusQuotePlus(value);
  }

  /** Each field parses back into its pair. */
  lemma {:induction false} ParseFieldsEncoded(pairs: seq<(string, string)>)
    ensures ParseFields(Fields(pairs)) == Some(pairs)
  {
    if pairs != [] {
      ParseField(pairs[0].0, pairs[0].1);
      ParseFieldsEncoded(pairs[1..]);
      assert pairs == [pairs[0]] + pairs[1..];
    }
  }

  /** Parsing an encoded query gives back exactly the pairs, in order. */
  lemma ParseUrlencode(pairs: seq<(string, string)>)
    ensures ParseQuery(Urlencode(pairs)) == Some(pairs)
  {
    if pairs != [] {
      SplitUrlencode(pairs);
      ParseFieldsEncoded(pairs);
    }
  }
}
