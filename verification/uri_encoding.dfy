/** JavaScript's `encodeURIComponent` over Unicode scalar values: characters of
    its unreserved set pass through, every other character becomes the `%HH`
    triplets (upper-case hex, section 2.1 of RFC 3986) of its UTF-8 encoding
    (RFC 3629). `Decode` is the inverse `decodeURIComponent`, used to state
    what an encoded query value means. */
module UriEncoding {
  import opened Wrappers

  type Byte = b: int | 0 <= b < 256

  /** The characters `encodeURIComponent` leaves unescaped. */
  predicate Unreserved(c: char)
  {
    ('A' <= c <= 'Z') || ('a' <= c <= 'z') || ('0' <= c <= '9')
    || c == '-' || c == '_' || c == '.' || c == '!' || c == '~'
    || c == '*' || c == '\'' || c == '(' || c == ')'
  }

  /** The UTF-8 encoding of one scalar value: one to four bytes. */
  function Utf8(c: char): (bs: seq<Byte>)
    ensures 1 <= |bs| <= 4
    ensures |bs| == 1 <==> c as int < 0x80
  {
    var n := c as int;
    if n < 0x80 then [n]
    else if n < 0x800 then [0xC0 + n / 64, 0x80 + n % 64]
    else if n < 0x10000 then [0xE0 + n / 4096, 0x80 + (n / 64) % 64, 0x80 + n % 64]
    else [0xF0 + n / 262144, 0x80 + (n / 4096) % 64, 0x80 + (n / 64) % 64, 0x80 + n % 64]
  }

  /** A hexadecimal digit as `encodeURIComponent` writes it: upper case. */
  predicate UpperHex(c: char)
  {
    ('0' <= c <= '9') || ('A' <= c <= 'F')
  }

  /** The upper-case hexadecimal digit for `v`. */
  function HexDigit(v: nat): (c: char)
    requires v < 16
    ensures Unreserved(c)
    ensures UpperHex(c) && IsHex(c) && HexValue(c) == v
  {
    if v < 10 then ('0' as int + v) as char else ('A' as int + v - 10) as char
  }

  /** `%HH` for one byte. */
  function PercentByte(b: Byte): (r: string)
    ensures |r| == 3 && r[0] == '%'
    ensures UpperHex(r[1]) && UpperHex(r[2])
    ensures IsHex(r[1]) && IsHex(r[2]) && HexValue(r[1]) * 16 + HexValue(r[2]) == b
  {
    ['%', HexDigit(b / 16), HexDigit(b % 16)]
  }

  /** The two hex digits of a triplet are unreserved characters. */
  lemma PercentByteDigits(b: Byte)
    ensures Unreserved(PercentByte(b)[1]) && Unreserved(PercentByte(b)[2])
  {
  }

  function PercentBytes(bs: seq<Byte>): (r: string)
    ensures |r| == 3 * |bs|
    ensures forall i :: 0 <= i < |r| ==> Unreserved(r[i]) || r[i] == '%'
  {
    if |bs| == 0 then ""
    else
      PercentByteDigits(bs[0]);
      PercentByte(bs[0]) + PercentBytes(bs[1..])
  }

  function EncodeChar(c: char): (r: string)
    ensures forall i :: 0 <= i < |r| ==> Unreserved(r[i]) || r[i] == '%'
  {
    if Unreserved(c) then [c] else PercentBytes(Utf8(c))
  }

  /** `encodeURIComponent(s)`: the result holds only unreserved characters and
      `%`, so none of the delimiters `&`, `=`, `?`, `#` or `,`. */
  function Encode(s: string): (r: string)
    ensures forall i :: 0 <= i < |r| ==> Unreserved(r[i]) || r[i] == '%'
    ensures |r| >= |s|
  {
    if |s| == 0 then "" else EncodeChar(s[0]) + Encode(s[1..])
  }

  /** A hexadecimal digit of either case. */
  predicate IsHex(c: char)
  {
    ('0' <= c <= '9') || ('A' <= c <= 'F') || ('a' <= c <= 'f')
  }

  /** The value of a hexadecimal digit. */
  function HexValue(c: char): (v: nat)
    requires IsHex(c)
    ensures v < 16
  {
    if '0' <= c <= '9' then c as int - '0' as int
    else if 'A' <= c <= 'F' then c as int - 'A' as int + 10
    else c as int - 'a' as int + 10
  }

  /** The byte written as `%HH` at position `i` of `t`, if there is one. */
  function ByteAt(t: string, i: nat): (r: Option<Byte>)
    ensures r.Some? ==> i + 3 <= |t| && t[i] == '%'
  {
    if i + 3 <= |t| && t[i] == '%' && IsHex(t[i + 1]) && IsHex(t[i + 2]) then
      Some(HexValue(t[i + 1]) * 16 + HexValue(t[i + 2]))
    else None
  }

  /** The six payload bits of a continuation byte `10xxxxxx` at `i`. */
  function ContinuationAt(t: string, i: nat): (r: Option<nat>)
    ensures r.Some? ==> r.value < 64 && i + 3 <= |t|
  {
    match ByteAt(t, i)
    case Some(b) => if 0x80 <= b < 0xC0 then Some(b - 0x80) else None
    case None => None
  }

  /** A decoded code point, refused when it is overlong (below `min`), a
      surrogate, or beyond U+10FFFF. */
  function Scalar(cp: int, min: int, len: nat): (r: Option<(char, nat)>)
    ensures r.Some? ==> r.value.1 == len
  {
    if 0 <= min <= cp <= 0x10FFFF && !(0xD800 <= cp <= 0xDFFF) then Some((cp as char, len)) else None
  }

  /** What a lead byte announces: its payload bits, how many continuation
      bytes follow, and the smallest code point a sequence of that length
      may carry. Bytes `10xxxxxx` and `11111xxx` cannot lead. */
  function Lead(b0: Byte): (r: Option<(nat, nat, nat)>)
    ensures r.Some? ==> r.value.1 <= 3
  {
    if b0 < 0x80 then Some((b0, 0, 0))
    else if 0xC0 <= b0 < 0xE0 then Some((b0 - 0xC0, 1, 0x80))
    else if 0xE0 <= b0 < 0xF0 then Some((b0 - 0xE0, 2, 0x800))
    else if 0xF0 <= b0 < 0xF8 then Some((b0 - 0xF0, 3, 0x10000))
    else None
  }

  /** Reads `count` continuation triplets from position `i` on, shifting
      each one's six bits into `acc`. */
  function Trail(t: string, i: nat, count: nat, acc: nat): (r: Option<nat>)
    ensures r.Some? && count > 0 ==> i + 3 * count <= |t|
    decreases count
  {
    if count == 0 then Some(acc)
    else
      match ContinuationAt(t, i)
      case None => None
      case Some(x) => Trail(t, i + 3, count - 1, acc * 64 + x)
  }

  /** Decodes the `%HH` triplets of one UTF-8 sequence at the start of `t`:
      the character and the number of input characters it took. */
  function DecodeOne(t: string): (r: Option<(char, nat)>)
    ensures r.Some? ==> 3 <= r.value.1 <= |t|
  {
    match ByteAt(t, 0)
    case None => None
    case Some(b0) =>
      match Lead(b0)
      case None => None
      case Some((payload, count, min)) =>
        match Trail(t, 3, count, payload)
        case None => None
        case Some(cp) => Scalar(cp, min, 3 * (count + 1))
  }

  /** `decodeURIComponent(t)`, or `None` where it would throw a URIError. */
  function Decode(t: string): Option<string>
    decreases |t|
  {
    if |t| == 0 then Some("")
    else if t[0] != '%' then
      match Decode(t[1..])
      case Some(rest) => Some([t[0]] + rest)
      case None => None
    else
      match DecodeOne(t)
      case Some((c, k)) =>
        (match Decode(t[k..])
         case Some(rest) => Some([c] + rest)
         case None => None)
      case None => None
  }

  lemma HexDigitValue(v: nat)
    requires v < 16
    ensures IsHex(HexDigit(v)) && HexValue(HexDigit(v)) == v
  {
  }

  /** A `%HH` triplet written by `PercentByte` reads back as its byte. */
  lemma ByteAtPercent(t: string, i: nat, b: Byte)
    requires i + 3 <= |t| && t[i..i + 3] == PercentByte(b)
    ensures ByteAt(t, i) == Some(b)
  {
    assert t[i] == '%' && t[i + 1] == HexDigit(b / 16) && t[i + 2] == HexDigit(b % 16);
    HexDigitValue(b / 16);
    HexDigitValue(b % 16);
  }

  /** Bytes shifted in six bits at a time, as `Trail` does. */
  function Shifted(acc: int, bs: seq<Byte>): int
    decreases |bs|
  {
    if |bs| == 0 then acc else Shifted(acc * 64 + (bs[0] as int - 0x80), bs[1..])
  }

  predicate Continuation(b: Byte)
  {
    0x80 <= b < 0xC0
  }

  /** A continuation byte written by `PercentByte` reads back as its payload. */
  lemma ContinuationPercent(t: string, i: nat, b: Byte)
    requires Continuation(b)
    requires i + 3 <= |t| && t[i..i + 3] == PercentByte(b)
    ensures ContinuationAt(t, i) == Some(b - 0x80)
  {
    ByteAtPercent(t, i, b);
  }

  /** From position `i` on, `t` holds the triplets of `bs`. */
  predicate Triplets(t: string, i: nat, bs: seq<Byte>)
    decreases |bs|
  {
    |bs| == 0 || (i + 3 <= |t| && t[i..i + 3] == PercentByte(bs[0]) && Triplets(t, i + 3, bs[1..]))
  }

  /** Text put in front moves the triplets along with it. */
  lemma {:induction false} TripletsShift(p: string, u: string, i: nat, bs: seq<Byte>)
    requires Triplets(u, i, bs)
    ensures Triplets(p + u, |p| + i, bs)
    decreases |bs|
  {
    if |bs| > 0 {
      assert (p + u)[|p| + i..|p| + i + 3] == u[i..i + 3];
      TripletsShift(p, u, i + 3, bs[1..]);
    }
  }

  /** `PercentBytes` writes one triplet per byte, in order. */
  lemma {:induction false} PercentBytesTriplets(bs: seq<Byte>, rest: string)
    ensures Triplets(PercentBytes(bs) + rest, 0, bs)
    decreases |bs|
  {
    if |bs| > 0 {
      var u := PercentBytes(bs[1..]) + rest;
      PercentBytesTriplets(bs[1..], rest);
      TripletsShift(PercentByte(bs[0]), u, 0, bs[1..]);
      var t := PercentByte(bs[0]) + u;
      assert PercentBytes(bs) + rest == t;
      assert t[0..3] == PercentByte(bs[0]);
    }
  }

  lemma TrailStep(t: string, i: nat, count: nat, acc: nat, x: nat)
    requires count > 0 && ContinuationAt(t, i) == Some(x)
    ensures Trail(t, i, count, acc) == Trail(t, i + 3, count - 1, acc * 64 + x)
  {
  }

  lemma ShiftedStep(acc: int, bs: seq<Byte>)
    requires |bs| > 0
    ensures Shifted(acc, bs) == Shifted(acc * 64 + (bs[0] as int - 0x80), bs[1..])
  {
  }

  lemma TripletsHead(t: string, i: nat, bs: seq<Byte>)
    requires |bs| > 0 && Triplets(t, i, bs) && Continuation(bs[0])
    ensures ContinuationAt(t, i) == Some(bs[0] as int - 0x80)
    ensures Triplets(t, i + 3, bs[1..])
  {
    ContinuationPercent(t, i, bs[0]);
  }

  /** Continuation triplets read back as the bytes' bits, shifted in order. */
  lemma {:induction false} TrailTriplets(t: string, i: nat, bs: seq<Byte>, acc: nat)
    requires Triplets(t, i, bs)
    requires forall j :: 0 <= j < |bs| ==> Continuation(bs[j])
    ensures Trail(t, i, |bs|, acc).Some? && Trail(t, i, |bs|, acc).value == Shifted(acc, bs)
    decreases |bs|
  {
    if |bs| > 0 {
      var x := bs[0] as int - 0x80;
      TripletsHead(t, i, bs);
      TrailStep(t, i, |bs|, acc, x);
      ShiftedStep(acc, bs);
      TrailTriplets(t, i + 3, bs[1..], acc * 64 + x);
    }
  }

  /** The sequence `Utf8` writes for `c`: a lead byte that announces the
      right number of continuation bytes, whose bits spell `c` again. */
  lemma Utf8Shape(c: char)
    ensures var bs := Utf8(c);
      && (forall j :: 1 <= j < |bs| ==> Continuation(bs[j]))
      && Lead(bs[0]).Some?
      && Lead(bs[0]).value.1 == |bs| - 1
      && Lead(bs[0]).value.2 <= c as int
      && Shifted(Lead(bs[0]).value.0, bs[1..]) == c as int
  {
    var n := c as int;
    if n < 0x80 {
    } else if n < 0x800 {
      Utf8Two(c);
    } else if n < 0x10000 {
      Utf8Three(c);
    } else {
      Utf8Four(c);
    }
  }

  lemma Utf8Two(c: char)
    requires 0x80 <= c as int < 0x800
    ensures var bs := Utf8(c);
      && |bs| == 2 && Continuation(bs[1])
      && Lead(bs[0]) == Some((c as int / 64, 1, 0x80))
      && Shifted(c as int / 64, bs[1..]) == c as int
  {
    var n := c as int;
    var bs := Utf8(c);
    assert bs[1..] == [0x80 + n % 64];
  }

  lemma Utf8Three(c: char)
    requires 0x800 <= c as int < 0x10000
    ensures var bs := Utf8(c);
      && |bs| == 3 && Continuation(bs[1]) && Continuation(bs[2])
      && Lead(bs[0]) == Some((c as int / 4096, 2, 0x800))
      && Shifted(c as int / 4096, bs[1..]) == c as int
  {
    var n := c as int;
    var bs := Utf8(c);
    var d0, d1, d2 := n / 4096, (n / 64) % 64, n % 64;
    ThreeByteSplit(n);
    assert bs[1..] == [0x80 + d1, 0x80 + d2];
    assert [0x80 + d1, 0x80 + d2][1..] == [0x80 + d2];
    assert Shifted(d0, bs[1..]) == Shifted(d0 * 64 + d1, [0x80 + d2]);
    assert Shifted(d0 * 64 + d1, [0x80 + d2]) == Shifted((d0 * 64 + d1) * 64 + d2, []);
  }

  lemma Utf8Four(c: char)
    requires 0x10000 <= c as int
    ensures var bs := Utf8(c);
      && |bs| == 4 && Continuation(bs[1]) && Continuation(bs[2]) && Continuation(bs[3])
      && Lead(bs[0]) == Some((c as int / 262144, 3, 0x10000))
      && Shifted(c as int / 262144, bs[1..]) == c as int
  {
    var n := c as int;
    var bs := Utf8(c);
    var d0, d1, d2, d3 := n / 262144, (n / 4096) % 64, (n / 64) % 64, n % 64;
    assert 0 <= d0 < 8;
    FourByteSplit(n);
    var cs: seq<Byte> := [0x80 + d1, 0x80 + d2, 0x80 + d3];
    assert bs[1..] == cs;
    assert cs[1..] == [0x80 + d2, 0x80 + d3];
    assert [0x80 + d2, 0x80 + d3][1..] == [0x80 + d3];
    assert Shifted(d0, cs) == Shifted(d0 * 64 + d1, [0x80 + d2, 0x80 + d3]);
    assert Shifted(d0 * 64 + d1, [0x80 + d2, 0x80 + d3]) == Shifted((d0 * 64 + d1) * 64 + d2, [0x80 + d3]);
    assert Shifted((d0 * 64 + d1) * 64 + d2, [0x80 + d3]) == Shifted(((d0 * 64 + d1) * 64 + d2) * 64 + d3, []);
  }

  lemma ThreeByteSplit(n: int)
    requires 0x800 <= n < 0x10000
    ensures (n / 4096) * 4096 + ((n / 64) % 64) * 64 + n % 64 == n
  {
    var q := n / 64;
    assert n == 64 * q + n % 64;
    assert q == 64 * (q / 64) + q % 64;
    assert n / 4096 == q / 64;
  }

  lemma FourByteSplit(n: int)
    requires 0x10000 <= n < 0x110000
    ensures (n / 262144) * 262144 + ((n / 4096) % 64) * 4096 + ((n / 64) % 64) * 64 + n % 64 == n
  {
    var q := n / 64;
    var p := q / 64;
    assert n == 64 * q + n % 64;
    assert q == 64 * p + q % 64;
    assert p == 64 * (p / 64) + p % 64;
    assert n / 4096 == p;
    assert n / 262144 == p / 64;
  }

  /** The percent-encoding of a reserved character decodes back to it. */
  lemma DecodeOneEncoded(c: char, rest: string)
    requires !Unreserved(c)
    ensures DecodeOne(EncodeChar(c) + rest) == Some((c, |EncodeChar(c)|))
  {
    var bs := Utf8(c);
    var t := PercentBytes(bs) + rest;
    assert EncodeChar(c) == PercentBytes(bs);
    Utf8Shape(c);
    PercentBytesTriplets(bs, rest);
    ByteAtPercent(t, 0, bs[0]);
    var lead := Lead(bs[0]).value;
    TrailTriplets(t, 3, bs[1..], lead.0);
  }

  lemma DecodePlain(c: char, t: string)
    requires c != '%'
    ensures Decode([c] + t) == (match Decode(t) case Some(r) => Some([c] + r) case None => None)
  {
    assert ([c] + t)[1..] == t;
  }

  lemma DecodeEscaped(t: string, c: char, k: nat)
    requires |t| > 0 && t[0] == '%' && DecodeOne(t) == Some((c, k))
    ensures Decode(t) == (match Decode(t[k..]) case Some(r) => Some([c] + r) case None => None)
  {
  }

  /** Decoding the encoding of `c` in front of `tail` yields `c` in front
      of the decoding of `tail`. */
  lemma DecodeEncodedChar(c: char, tail: string)
    ensures Decode(EncodeChar(c) + tail)
            == (match Decode(tail) case Some(r) => Some([c] + r) case None => None)
  {
    var head := EncodeChar(c);
    if Unreserved(c) {
      DecodePlain(c, tail);
    } else {
      var t := head + tail;
      DecodeOneEncoded(c, tail);
      assert t[|head|..] == tail;
      DecodeEscaped(t, c, |head|);
    }
  }

  /** `decodeURIComponent(encodeURIComponent(s)) == s`. */
  lemma {:induction false} DecodeEncode(s: string)
    ensures Decode(Encode(s)) == Some(s)
    decreases |s|
  {
    if |s| > 0 {
      DecodeEncode(s[1..]);
      DecodeEncodedChar(s[0], Encode(s[1..]));
      assert s == [s[0]] + s[1..];
    }
  }

  /** Text made of unreserved characters only is left as it is. */
  lemma {:induction false} EncodeUnreserved(s: string)
    requires forall i :: 0 <= i < |s| ==> Unreserved(s[i])
    ensures Encode(s) == s
    decreases |s|
  {
    if |s| > 0 {
      EncodeUnreserved(s[1..]);
      assert s == [s[0]] + s[1..];
    }
  }

  /** Encoding works character by character. */
  lemma {:induction false} EncodeAppend(a: string, b: string)
    ensures Encode(a + b) == Encode(a) + Encode(b)
    decreases |a|
  {
    if |a| > 0 {
      assert (a + b)[1..] == a[1..] + b;
      EncodeAppend(a[1..], b);
    } else {
      assert a + b == b;
    }
  }

  /** The comma joining selected field names is sent as `%2C`. */
  lemma CommaEncoding()
    ensures EncodeChar(',') == "%2C"
  {
    assert Utf8(',') == [0x2C];
    assert HexDigit(2) == '2' && HexDigit(12) == 'C';
  }
}
