/** Hexadecimal digits as code units. */
module Hex {
  import opened Wrappers
  import opened Bytes
  import opened Unicode

  /** Lower-case digits, as `toString('hex')`, `digest('hex')` and `JSON.stringify` print them. */
  function Digit(n: nat): (u: Unit)
    requires n < 16
    ensures IsLowerDigit(u)
  {
    if n < 10 then 48 + n else 87 + n
  }

  predicate IsLowerDigit(u: Unit) { 48 <= u < 58 || 97 <= u < 103 }

  /** Readers take both cases. */
  function Value(u: Unit): (n: Option<nat>)
    ensures n.Some? ==> n.value < 16
  {
    if 48 <= u < 58 then Some(u as nat - 48)
    else if 97 <= u < 103 then Some(u as nat - 87)
    else if 65 <= u < 71 then Some(u as nat - 55)
    else None
  }

  lemma ValueOfDigit(n: nat)
    requires n < 16
    ensures Value(Digit(n)) == Some(n)
  {
  }

  /** `buffer.toString('hex')` */
  function FromBytes(bytes: seq<Byte>): (t: Text)
    ensures forall i :: 0 <= i < |t| ==> IsLowerDigit(t[i])
  {
    if bytes == [] then [] else [Digit(bytes[0] / 16), Digit(bytes[0] % 16)] + FromBytes(bytes[1..])
  }

  /** `Buffer.from(text, 'hex')`, which stops at the first pair that is not two digits. */
  function ToBytes(t: Text): seq<Byte>
  {
    if |t| < 2 || Value(t[0]).None? || Value(t[1]).None? then []
    else [16 * Value(t[0]).value + Value(t[1]).value] + ToBytes(t[2..])
  }

  lemma {:induction false} BytesRoundTrip(bytes: seq<Byte>)
    ensures ToBytes(FromBytes(bytes)) == bytes
  {
    if bytes != [] {
      ValueOfDigit(bytes[0] / 16);
      ValueOfDigit(bytes[0] % 16);
      BytesRoundTrip(bytes[1..]);
      assert FromBytes(bytes)[2..] == FromBytes(bytes[1..]);
    }
  }

  /** Which characters are digits, in either case, and what they stand for. */
  lemma ValueIsExact(u: Unit)
    ensures Value(u).Some? <==> 48 <= u <= 57 || 65 <= u <= 70 || 97 <= u <= 102
    ensures 48 <= u <= 57 ==> Value(u).value == u - 48
    ensures 65 <= u <= 70 ==> Value(u).value == u - 55
    ensures 97 <= u <= 102 ==> Value(u).value == u - 87
  {
  }

  /** Reading stops at the first pair that is not two digits. */
  lemma {:induction false} ReadingStops(bytes: seq<Byte>, rest: Text)
    requires |rest| < 2 || Value(rest[0]).None? || Value(rest[1]).None?
    ensures ToBytes(FromBytes(bytes) + rest) == bytes
    decreases |bytes|
  {
    if bytes == [] {
      assert FromBytes(bytes) + rest == rest;
    } else {
      ValueOfDigit(bytes[0] / 16);
      ValueOfDigit(bytes[0] % 16);
      ReadingStops(bytes[1..], rest);
      assert (FromBytes(bytes) + rest)[2..] == FromBytes(bytes[1..]) + rest;
    }
  }
}
