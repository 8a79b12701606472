/**
 JavaScript strings as UTF-16 code units, and their UTF-8 encoding as
 `Buffer.from(text, 'utf8')` and `hash.update(text, 'utf8')` perform it.
 */
module Unicode {
  import opened Bytes

  type Unit = u: int | 0 <= u < 0x1_0000
  type Text = seq<Unit>

  predicate IsHigh(u: Unit) { 0xD800 <= u < 0xDC00 }
  predicate IsLow(u: Unit) { 0xDC00 <= u < 0xE000 }
  predicate IsSurrogate(u: Unit) { 0xD800 <= u < 0xE000 }

  /** The text starts with a surrogate pair. */
  predicate StartsWithPair(t: Text) { 2 <= |t| && IsHigh(t[0]) && IsLow(t[1]) }

  /** Every surrogate belongs to a pair. */
  predicate IsWellFormed(t: Text)
  {
    if t == [] then true
    else if StartsWithPair(t) then IsWellFormed(t[2..])
    else !IsSurrogate(t[0]) && IsWellFormed(t[1..])
  }

  lemma {:induction false} WellFormedConcat(a: Text, b: Text)
    requires IsWellFormed(a)
    ensures IsWellFormed(a + b) <==> IsWellFormed(b)
    decreases |a|
  {
    if a == [] {
      assert a + b == b;
    } else {
      var k := if StartsWithPair(a) then 2 else 1;
      assert (a + b)[k..] == a[k..] + b;
      WellFormedConcat(a[k..], b);
    }
  }

  // ---- UTF-8 -------------------------------------------------------------

  /** One code unit outside the surrogate range. */
  function EncodeUnit(u: Unit): (bytes: seq<Byte>)
    ensures 1 <= |bytes| <= 3
  {
    if u < 0x80 then [u]
    else if u < 0x800 then [0xC0 + u / 0x40, 0x80 + u % 0x40]
    else [0xE0 + u / 0x1000, 0x80 + u / 0x40 % 0x40, 0x80 + u % 0x40]
  }

  function CodePoint(high: Unit, low: Unit): (c: int)
    requires IsHigh(high) && IsLow(low)
    ensures 0x1_0000 <= c < 0x11_0000
  {
    0x1_0000 + (high - 0xD800) * 0x400 + (low - 0xDC00)
  }

  /** A code point beyond the basic plane takes four bytes. */
  function EncodeCodePoint(c: int): (bytes: seq<Byte>)
    requires 0x1_0000 <= c < 0x11_0000
    ensures |bytes| == 4
  {
    [0xF0 + c / 0x4_0000, 0x80 + c / 0x1000 % 0x40, 0x80 + c / 0x40 % 0x40, 0x80 + c % 0x40]
  }

  /** A surrogate without its partner becomes U+FFFD. */
  function Utf8(t: Text): (bytes: seq<Byte>)
  {
    if t == [] then []
    else if StartsWithPair(t) then EncodeCodePoint(CodePoint(t[0], t[1])) + Utf8(t[2..])
    else EncodeUnit(if IsSurrogate(t[0]) then 0xFFFD else t[0]) + Utf8(t[1..])
  }

  /** The six payload bits of a continuation byte. */
  function Six(b: Byte): (n: int)
    ensures 0 <= n < 0x40
  {
    b % 0x40
  }

  function FourByteCode(b: Byte, x: Byte, y: Byte, z: Byte): int
  {
    (b as int - 0xF0) * 0x4_0000 + Six(x) * 0x1000 + Six(y) * 0x40 + Six(z)
  }

  /** Reads one encoded character off the front: its units and the number of bytes used. */
  function DecodeOne(bytes: seq<Byte>): (r: (Text, nat))
    requires bytes != []
    ensures 1 <= r.1 <= |bytes|
  {
    var b: int := bytes[0];
    if 0xC0 <= b < 0xE0 && 2 <= |bytes| then
      ([((b - 0xC0) * 0x40 + Six(bytes[1])) % 0x1_0000], 2)
    else if 0xE0 <= b < 0xF0 && 3 <= |bytes| then
      ([((b - 0xE0) * 0x1000 + Six(bytes[1]) * 0x40 + Six(bytes[2])) % 0x1_0000], 3)
    else if 0xF0 <= b && 4 <= |bytes| then
      var c := FourByteCode(bytes[0], bytes[1], bytes[2], bytes[3]) - 0x1_0000;
      ([(0xD800 + c / 0x400) % 0x1_0000, 0xDC00 + c % 0x400], 4)
    else ([b], 1)
  }

  function FromUtf8(bytes: seq<Byte>): Text
  {
    if bytes == [] then []
    else
      var (units, used) := DecodeOne(bytes);
      units + FromUtf8(bytes[used..])
  }

  lemma SixOf(n: int)
    requires 0 <= n < 0x40
    ensures Six(0x80 + n) == n
  {
  }

  lemma DecodeEncodedUnit(u: Unit, rest: seq<Byte>)
    ensures DecodeOne(EncodeUnit(u) + rest) == ([u], |EncodeUnit(u)|)
  {
    hide Six;
    SixOf(u % 0x40);
    SixOf(u / 0x40 % 0x40);
    assert u / 0x1000 == u / 0x40 / 0x40;
  }

  lemma DecodeEncodedPair(high: Unit, low: Unit, rest: seq<Byte>)
    requires IsHigh(high) && IsLow(low)
    ensures DecodeOne(EncodeCodePoint(CodePoint(high, low)) + rest) == ([high, low], 4)
  {
    hide FourByteCode, EncodeCodePoint;
    var c := CodePoint(high, low);
    var bytes := EncodeCodePoint(c);
    FourByteRoundTrip(c);
    assert (c - 0x1_0000) / 0x400 == high - 0xD800 && (c - 0x1_0000) % 0x400 == low - 0xDC00;
    assert bytes[0] == (bytes + rest)[0] && bytes[1] == (bytes + rest)[1] && bytes[2] == (bytes + rest)[2] && bytes[3] == (bytes + rest)[3];
  }

  lemma FourByteRoundTrip(c: int)
    requires 0x1_0000 <= c < 0x11_0000
    ensures var b := EncodeCodePoint(c);
            0xF0 <= b[0] && FourByteCode(b[0], b[1], b[2], b[3]) == c
  {
    PairDigits(c);
  }

  lemma PairDigits(c: nat)
    ensures c == c / 0x4_0000 * 0x4_0000 + c / 0x1000 % 0x40 * 0x1000 + c / 0x40 % 0x40 * 0x40 + c % 0x40
  {
    assert c / 0x1000 == c / 0x40 / 0x40;
    assert c / 0x4_0000 == c / 0x1000 / 0x40;
  }

  /** UTF-8 loses nothing on well-formed text. */
  lemma {:induction false} Utf8RoundTrip(t: Text)
    requires IsWellFormed(t)
    ensures FromUtf8(Utf8(t)) == t
    decreases |t|
  {
    if t != [] {
      if StartsWithPair(t) {
        Utf8RoundTrip(t[2..]);
        DecodeEncodedPair(t[0], t[1], Utf8(t[2..]));
        assert Utf8(t)[4..] == Utf8(t[2..]);
      } else {
        Utf8RoundTrip(t[1..]);
        DecodeEncodedUnit(t[0], Utf8(t[1..]));
        assert Utf8(t)[|EncodeUnit(t[0])|..] == Utf8(t[1..]);
      }
    }
  }

  lemma Utf8Injective(a: Text, b: Text)
    requires IsWellFormed(a) && IsWellFormed(b) && Utf8(a) == Utf8(b)
    ensures a == b
  {
    Utf8RoundTrip(a);
    Utf8RoundTrip(b);
  }
}
