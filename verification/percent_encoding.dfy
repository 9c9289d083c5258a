/** `Uri.EscapeDataString`: every character outside the unreserved set of
    section 2.3 of RFC 3986 is UTF-8 encoded and each of its bytes written
    as a percent-encoded triplet (section 2.1 of RFC 3986, upper-case hex).
    The partners are a percent-decoder and a UTF-8 decoder; together they
    undo the escaping. */
module PercentEncoding {
  import opened Wrappers

  type Byte = b: int | 0 <= b < 256

  /** ALPHA / DIGIT / "-" / "." / "_" / "~" as byte values. */
  predicate IsUnreservedByte(b: Byte) {
    || (0x41 <= b <= 0x5A)
    || (0x61 <= b <= 0x7A)
    || (0x30 <= b <= 0x39)
    || b == 0x2D || b == 0x2E || b == 0x5F || b == 0x7E
  }

  predicate IsUnreserved(c: char) {
    c as int < 0x80 && IsUnreservedByte(c as int)
  }

  const HexUpper := "0123456789ABCDEF"

  /** The characters an escaped string is made of. */
  predicate IsEscapedChar(c: char) {
    IsUnreserved(c) || c == '%' || c in HexUpper
  }

  // ---------------------------------------------------------------- UTF-8

  /** The UTF-8 encoding of one Unicode scalar value. */
  function Utf8(c: char): (r: seq<Byte>)
    ensures 1 <= |r| <= 4
    ensures |r| == 1 <==> c as int < 0x80
    ensures |r| == 1 ==> r[0] == c as int
    ensures |r| > 1 ==> forall i :: 0 <= i < |r| ==> r[i] >= 0x80
  {
    var n := c as int;
    if n < 0x80 then [n]
    else if n < 0x800 then [0xC0 + n / 0x40, 0x80 + n % 0x40]
    else if n < 0x1_0000 then [0xE0 + n / 0x1000, 0x80 + (n / 0x40) % 0x40, 0x80 + n % 0x40]
    else [0xF0 + n / 0x4_0000, 0x80 + (n / 0x1000) % 0x40, 0x80 + (n / 0x40) % 0x40, 0x80 + n % 0x40]
  }

  function Utf8String(s: string): seq<Byte> {
    if s == [] then [] else Utf8(s[0]) + Utf8String(s[1..])
  }

  /** The sequence length a lead byte announces, 0 for a byte that cannot
      lead a sequence. */
  function LeadLength(b: Byte): nat {
    if b < 0x80 then 1
    else if 0xC0 <= b < 0xE0 then 2
    else if 0xE0 <= b < 0xF0 then 3
    else if 0xF0 <= b < 0xF8 then 4
    else 0
  }

  predicate IsContinuation(b: Byte) {
    0x80 <= b < 0xC0
  }

  /** The code point carried by a well-shaped sequence. */
  function CodePoint(bs: seq<Byte>): int
    requires 1 <= |bs| <= 4
  {
    var b: seq<int> := bs;
    if |b| == 1 then b[0]
    else if |b| == 2 then (b[0] - 0xC0) * 0x40 + (b[1] - 0x80)
    else if |b| == 3 then ((b[0] - 0xE0) * 0x40 + (b[1] - 0x80)) * 0x40 + (b[2] - 0x80)
    else (((b[0] - 0xF0) * 0x40 + (b[1] - 0x80)) * 0x40 + (b[2] - 0x80)) * 0x40 + (b[3] - 0x80)
  }

  predicate IsScalarValue(v: int) {
    (0 <= v < 0xD800) || (0xE000 <= v < 0x11_0000)
  }

  /** A UTF-8 decoder: `None` for a malformed byte sequence. */
  function Utf8Decode(bs: seq<Byte>): Option<string>
    decreases |bs|
  {
    if bs == [] then Some([])
    else
      var n := LeadLength(bs[0]);
      if n == 0 || |bs| < n || exists i :: 1 <= i < n && !IsContinuation(bs[i]) then None
      else
        var v := CodePoint(bs[..n]);
        if !IsScalarValue(v) then None
        else
          match Utf8Decode(bs[n..])
          case None => None
          case Some(rest) => Some([v as char] + rest)
  }

  lemma Utf8Shape(c: char)
    ensures LeadLength(Utf8(c)[0]) == |Utf8(c)|
    ensures forall i :: 1 <= i < |Utf8(c)| ==> IsContinuation(Utf8(c)[i])
    ensures CodePoint(Utf8(c)) == c as int
  {
    var n := c as int;
    if n < 0x80 {
    } else if n < 0x800 {
      SixBits(n);
    } else if n < 0x1_0000 {
      SixBits(n);
      SixBits(n / 0x40);
      assert (n / 0x40) / 0x40 == n / 0x1000;
    } else {
      SixBits(n);
      SixBits(n / 0x40);
      SixBits(n / 0x1000);
      assert (n / 0x40) / 0x40 == n / 0x1000;
      assert (n / 0x1000) / 0x40 == n / 0x4_0000;
    }
  }

  /** Splitting off the low six bits. */
  lemma SixBits(n: int)
    requires n >= 0
    ensures n == (n / 0x40) * 0x40 + n % 0x40 && 0 <= n % 0x40 < 0x40
  {
  }

  /** UTF-8 decoding undoes UTF-8 encoding. */
  lemma {:induction false} Utf8RoundTrip(s: string)
    ensures Utf8Decode(Utf8String(s)) == Some(s)
  {
    if s != [] {
      var e := Utf8(s[0]);
      var bs := Utf8String(s);
      Utf8Shape(s[0]);
      assert bs[..|e|] == e;
      assert bs[|e|..] == Utf8String(s[1..]);
      Utf8RoundTrip(s[1..]);
      assert [s[0]] + s[1..] == s;
    }
  }

  // ------------------------------------------------------ percent-encoding

  /** One byte: itself when it is an unreserved character, else "%HH". */
  function EncodeByte(b: Byte): (r: string)
    ensures IsUnreservedByte(b) ==> r == [b as char]
    ensures !IsUnreservedByte(b) ==> |r| == 3 && r[0] == '%'
    ensures forall i :: 0 <= i < |r| ==> IsEscapedChar(r[i])
  {
    if IsUnreservedByte(b) then [b as char] else ['%', HexUpper[b / 16], HexUpper[b % 16]]
  }

  function EncodeBytes(bs: seq<Byte>): (r: string)
    ensures forall i :: 0 <= i < |r| ==> IsEscapedChar(r[i])
  {
    if bs == [] then [] else EncodeByte(bs[0]) + EncodeBytes(bs[1..])
  }

  /** An unreserved character is its own escape; any other character
      becomes at least one three-character triplet. */
  lemma EscapeChar(c: char)
    ensures IsUnreserved(c) ==> EncodeBytes(Utf8(c)) == [c]
    ensures !IsUnreserved(c) ==> |EncodeBytes(Utf8(c))| >= 3
  {
    var u := Utf8(c);
    assert u[1..] == [] || |u| > 1;
    if !IsUnreserved(c) {
      assert EncodeBytes(u) == EncodeByte(u[0]) + EncodeBytes(u[1..]);
    }
  }

  /** `Uri.EscapeDataString`, character by character: the result is made
      only of unreserved characters, '%' and upper-case hex digits, and it
      is never shorter than the input. */
  function EscapeDataString(s: string): (r: string)
    ensures forall i :: 0 <= i < |r| ==> IsEscapedChar(r[i])
    ensures |r| >= |s|
  {
    if s == [] then []
    else
      EscapeChar(s[0]);
      EncodeBytes(Utf8(s[0])) + EscapeDataString(s[1..])
  }

  /** Escaping leaves a string unchanged exactly when all its characters
      are unreserved. */
  lemma {:induction false} EscapeIdentity(s: string)
    ensures EscapeDataString(s) == s <==> forall i :: 0 <= i < |s| ==> IsUnreserved(s[i])
  {
    if s != [] {
      EscapeChar(s[0]);
      EscapeIdentity(s[1..]);
      var head := EncodeBytes(Utf8(s[0]));
      var tail := EscapeDataString(s[1..]);
      assert EscapeDataString(s) == head + tail;
      if forall i :: 0 <= i < |s| ==> IsUnreserved(s[i]) {
        assert forall i :: 0 <= i < |s[1..]| ==> IsUnreserved(s[1..][i]) by {
          forall i | 0 <= i < |s[1..]| ensures IsUnreserved(s[1..][i]) {
            assert s[1..][i] == s[i + 1];
          }
        }
        assert [s[0]] + s[1..] == s;
      } else if IsUnreserved(s[0]) {
        var j :| 0 <= j < |s| && !IsUnreserved(s[j]);
        assert !IsUnreserved(s[1..][j - 1]);
        assert tail != s[1..];
        assert (head + tail)[1..] == tail;
      } else {
        assert |head + tail| > |s|;
      }
    }
  }

  lemma {:induction false} EncodeBytesAppend(a: seq<Byte>, b: seq<Byte>)
    ensures EncodeBytes(a + b) == EncodeBytes(a) + EncodeBytes(b)
  {
    if a == [] {
      assert a + b == b;
    } else {
      assert (a + b)[0] == a[0];
      assert (a + b)[1..] == a[1..] + b;
      EncodeBytesAppend(a[1..], b);
    }
  }

  /** Escaping a string is percent-encoding its UTF-8 bytes. */
  lemma {:induction false} EscapeIsEncodedUtf8(s: string)
    ensures EscapeDataString(s) == EncodeBytes(Utf8String(s))
  {
    if s != [] {
      EscapeIsEncodedUtf8(s[1..]);
      EncodeBytesAppend(Utf8(s[0]), Utf8String(s[1..]));
    }
  }

  /** The value of a hexadecimal digit of either case. */
  function HexValue(c: char): (r: Option<nat>)
    ensures r.Some? ==> r.value < 16
  {
    if '0' <= c <= '9' then Some(c as int - '0' as int)
    else if 'A' <= c <= 'F' then Some(c as int - 'A' as int + 10)
    else if 'a' <= c <= 'f' then Some(c as int - 'a' as int + 10)
    else None
  }

  /** Decodes unreserved characters and "%HH" triplets to bytes; `None` for
      any other character or a broken triplet. */
  function PercentDecode(s: string): (r: Option<seq<Byte>>)
    ensures r.Some? ==> |r.value| <= |s|
    decreases |s|
  {
    if s == [] then Some([])
    else if s[0] == '%' then
      if |s| >= 3 && HexValue(s[1]).Some? && HexValue(s[2]).Some? then
        match PercentDecode(s[3..])
        case None => None
        case Some(rest) => Some([HexValue(s[1]).value * 16 + HexValue(s[2]).value] + rest)
      else None
    else if IsUnreserved(s[0]) then
      match PercentDecode(s[1..])
      case None => None
      case Some(rest) => Some([s[0] as int] + rest)
    else None
  }

  lemma HexDigitValue(d: nat)
    requires d < 16
    ensures HexValue(HexUpper[d]) == Some(d)
  {
  }

  /** Percent-decoding undoes percent-encoding. */
  lemma {:induction false} PercentRoundTrip(bs: seq<Byte>)
    ensures PercentDecode(EncodeBytes(bs)) == Some(bs)
  {
    if bs != [] {
      PercentRoundTrip(bs[1..]);
      ByteRoundTrip(bs[0], EncodeBytes(bs[1..]), bs[1..]);
      assert [bs[0]] + bs[1..] == bs;
    }
  }

  /** One byte's escape decodes to that byte, whatever decodes after it. */
  lemma ByteRoundTrip(b: Byte, t: string, rest: seq<Byte>)
    requires PercentDecode(t) == Some(rest)
    ensures PercentDecode(EncodeByte(b) + t) == Some([b] + rest)
  {
    if IsUnreservedByte(b) {
      assert (EncodeByte(b) + t)[1..] == t;
    } else {
      TripletRoundTrip(b / 16, b % 16, t, rest);
    }
  }

  /** A "%HH" triplet decodes to the byte its two hex digits spell. */
  lemma TripletRoundTrip(h: nat, l: nat, t: string, rest: seq<Byte>)
    requires h < 16 && l < 16
    requires PercentDecode(t) == Some(rest)
    ensures PercentDecode(['%', HexUpper[h], HexUpper[l]] + t) == Some([h * 16 + l] + rest)
  {
    HexDigitValue(h);
    HexDigitValue(l);
    assert (['%', HexUpper[h], HexUpper[l]] + t)[3..] == t;
  }

  /** Decoding an escaped string gives back the original text: first the
      bytes, then the characters. */
  lemma EscapeRoundTrip(s: string)
    ensures PercentDecode(EscapeDataString(s)) == Some(Utf8String(s))
    ensures Utf8Decode(PercentDecode(EscapeDataString(s)).value) == Some(s)
  {
    EscapeIsEncodedUtf8(s);
    PercentRoundTrip(Utf8String(s));
    Utf8RoundTrip(s);
  }
}
