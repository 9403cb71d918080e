/**
 * `urllib.parse.quote(s, safe="")` and its inverse `unquote_to_bytes`:
 * percent-encoding as section 2.1 of RFC 3986 defines it. Unreserved
 * characters (section 2.3 of RFC 3986) stay as they are; every other
 * character is encoded as UTF-8 and each byte written `%XY` with upper-case
 * hex digits. With an empty `safe` set even `/` is encoded, so a quoted
 * value can never add a path segment.
 */
module Quoting {
  import opened Wrappers

  type Byte = b: int | 0 <= b < 256

  /** ASCII letters and digits and `-._~`. */
  predicate Unreserved(c: char) {
    || 'A' <= c <= 'Z'
    || 'a' <= c <= 'z'
    || '0' <= c <= '9'
    || c == '-' || c == '.' || c == '_' || c == '~'
  }

  /** The UTF-8 encoding of one Unicode scalar value. */
  function Utf8(c: char): (r: seq<Byte>)
    ensures 1 <= |r| <= 4
    ensures |r| == 1 <==> (c as int) < 0x80
    ensures |r| == 1 ==> r[0] == c as int
  {
    var n := c as int;
    if n < 0x80 then [n]
    else if n < 0x800 then [0xC0 + n / 64, 0x80 + n % 64]
    else if n < 0x10000 then [0xE0 + n / 4096, 0x80 + (n / 64) % 64, 0x80 + n % 64]
    else [0xF0 + n / 262144, 0x80 + (n / 4096) % 64, 0x80 + (n / 64) % 64, 0x80 + n % 64]
  }

  /** `s.encode("utf-8")`. */
  function Encode(s: string): seq<Byte>
    decreases |s|
  {
    if |s| == 0 then [] else Utf8(s[0]) + Encode(s[1..])
  }

  const HexDigits: string := "0123456789ABCDEF"

  function Hex(n: nat): (c: char)
    requires n < 16
    ensures Unreserved(c)
  {
    HexDigits[n]
  }

  /** The value of a hex digit of either case. */
  function HexValue(c: char): (r: Option<nat>)
    ensures r.Some? ==> r.value < 16
  {
    if '0' <= c <= '9' then Some(c as int - '0' as int)
    else if 'A' <= c <= 'F' then Some(c as int - 'A' as int + 10)
    else if 'a' <= c <= 'f' then Some(c as int - 'a' as int + 10)
    else None
  }

  lemma HexRoundTrip(n: nat)
    requires n < 16
    ensures HexValue(Hex(n)) == Some(n)
  {
  }

  /** `%XY` for one byte. */
  function Escape(b: Byte): (r: string)
    ensures |r| == 3 && r[0] == '%' && Unreserved(r[1]) && Unreserved(r[2])
  {
    ['%', Hex(b / 16), Hex(b % 16)]
  }

  /** Text made of unreserved characters and `%` only. */
  predicate Encoded(r: string) {
    forall i | 0 <= i < |r| :: Unreserved(r[i]) || r[i] == '%'
  }

  /** Encoded text never holds a path separator or a placeholder brace. */
  lemma EncodedSafe(q: string)
    requires Encoded(q)
    ensures forall i | 0 <= i < |q| :: q[i] != '/' && q[i] != '{' && q[i] != '}'
  {
  }

  lemma EncodedConcat(a: string, b: string)
    requires Encoded(a) && Encoded(b)
    ensures Encoded(a + b)
  {
    forall i | 0 <= i < |a + b| ensures Unreserved((a + b)[i]) || (a + b)[i] == '%' {
      if i >= |a| {
        assert (a + b)[i] == b[i - |a|];
      }
    }
  }

  function EscapeAll(bs: seq<Byte>): (r: string)
    ensures |r| == 3 * |bs|
    ensures Encoded(r)
    decreases |bs|
  {
    if |bs| == 0 then []
    else
      var e := Escape(bs[0]);
      assert Encoded(e) by {
        assert forall i | 0 <= i < 3 :: Unreserved(e[i]) || e[i] == '%';
      }
      EncodedConcat(e, EscapeAll(bs[1..]));
      e + EscapeAll(bs[1..])
  }

  /** One character as `quote` writes it. */
  function QuoteChar(c: char): (r: string)
    ensures |r| >= 1
    ensures |r| == 1 <==> Unreserved(c)
    ensures Encoded(r)
  {
    if Unreserved(c) then [c] else EscapeAll(Utf8(c))
  }

  /** `quote(s, safe="")`: the result holds only unreserved characters and `%`. */
  function Quote(s: string): (r: string)
    ensures |r| >= |s|
    ensures Encoded(r)
    decreases |s|
  {
    if |s| == 0 then []
    else
      EncodedConcat(QuoteChar(s[0]), Quote(s[1..]));
      QuoteChar(s[0]) + Quote(s[1..])
  }

  /**
   * `unquote_to_bytes(t)`: a well-formed `%XY` becomes its byte; any other
   * character, a stray `%` included, stands for its own UTF-8 bytes.
   */
  function Unquote(t: string): seq<Byte>
    decreases |t|
  {
    if |t| == 0 then []
    else if |t| >= 3 && t[0] == '%' && HexValue(t[1]).Some? && HexValue(t[2]).Some? then
      [16 * HexValue(t[1]).value + HexValue(t[2]).value] + Unquote(t[3..])
    else Utf8(t[0]) + Unquote(t[1..])
  }

  lemma UnquoteEscape(b: Byte, rest: string)
    ensures Unquote(Escape(b) + rest) == [b] + Unquote(rest)
  {
    var t := Escape(b) + rest;
    HexRoundTrip(b / 16);
    HexRoundTrip(b % 16);
    assert t[0] == '%' && t[1] == Hex(b / 16) && t[2] == Hex(b % 16);
    assert 16 * (b / 16) + b % 16 == b;
    assert t[3..] == rest;
  }

  lemma EscapeAllCons(bs: seq<Byte>, rest: string)
    requires |bs| > 0
    ensures EscapeAll(bs) + rest == Escape(bs[0]) + (EscapeAll(bs[1..]) + rest)
  {
    assert EscapeAll(bs) == Escape(bs[0]) + EscapeAll(bs[1..]);
  }

  lemma ConsJoin(bs: seq<Byte>, whole: seq<Byte>, tail: seq<Byte>, rest: seq<Byte>)
    requires |bs| > 0
    requires whole == [bs[0]] + tail
    requires tail == bs[1..] + rest
    ensures whole == bs + rest
  {
    assert bs == [bs[0]] + bs[1..];
  }

  lemma {:induction false} UnquoteEscapes(bs: seq<Byte>, rest: string)
    ensures Unquote(EscapeAll(bs) + rest) == bs + Unquote(rest)
    decreases |bs|
  {
    if |bs| > 0 {
      var tail := EscapeAll(bs[1..]) + rest;
      EscapeAllCons(bs, rest);
      UnquoteEscape(bs[0], tail);
      UnquoteEscapes(bs[1..], rest);
      ConsJoin(bs, Unquote(EscapeAll(bs) + rest), Unquote(tail), Unquote(rest));
    } else {
      assert EscapeAll(bs) + rest == rest;
    }
  }

  lemma UnquoteQuoteChar(c: char, rest: string)
    ensures Unquote(QuoteChar(c) + rest) == Utf8(c) + Unquote(rest)
  {
    if Unreserved(c) {
      assert ([c] + rest)[1..] == rest;
    } else {
      UnquoteEscapes(Utf8(c), rest);
    }
  }

  /** Unquoting a quoted string gives back exactly its UTF-8 bytes. */
  lemma {:induction false} QuoteRoundTrip(s: string)
    ensures Unquote(Quote(s)) == Encode(s)
    decreases |s|
  {
    if |s| > 0 {
      UnquoteQuoteChar(s[0], Quote(s[1..]));
      QuoteRoundTrip(s[1..]);
    }
  }

  /** `quote` leaves a string alone exactly when every character is unreserved. */
  lemma {:induction false} QuoteFixed(s: string)
    ensures Quote(s) == s <==> forall i | 0 <= i < |s| :: Unreserved(s[i])
    decreases |s|
  {
    if |s| > 0 {
      QuoteFixed(s[1..]);
      var h := QuoteChar(s[0]);
      if Unreserved(s[0]) {
        assert Quote(s) == [s[0]] + Quote(s[1..]);
        assert s == [s[0]] + s[1..];
        assert (forall i | 0 <= i < |s| :: Unreserved(s[i]))
          <==> (forall i | 0 <= i < |s[1..]| :: Unreserved(s[1..][i]));
      } else {
        assert |Quote(s)| > |s| by {
          assert |h| > 1;
        }
      }
    }
  }
}
