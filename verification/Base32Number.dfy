/**
 The decoder against arithmetic: read as a number in base 256, the octets are the number
 the symbols denote in base 32, without the spare bits at its low end.
*/
module Base32Number {
  import opened Wrappers
  import opened Bits32
  import opened Base32

  /** The number a string of digits denotes, most significant first. */
  function Number(base: nat, digits: seq<nat>): nat
  {
    if digits == [] then 0 else base * Number(base, digits[..|digits| - 1]) + digits[|digits| - 1]
  }

  function TwoTo(n: nat): (p: nat)
    ensures 0 < p
  {
    if n == 0 then 1 else 2 * TwoTo(n - 1)
  }

  /** The place of a symbol in the alphabet `A` to `Z`, `2` to `7`. */
  function Place(c: char): nat { if c as int >= 65 then c as int - 65 else if c as int >= 50 then c as int - 24 else 0 }

  function Places(s: string): (ds: seq<nat>)
    ensures |ds| == |s|
  {
    seq(|s|, i requires 0 <= i < |s| => Place(s[i]))
  }

  function AsNumbers(xs: seq<bv32>): (ds: seq<nat>)
    ensures |ds| == |xs|
  {
    seq(|xs|, i requires 0 <= i < |xs| => xs[i] as nat)
  }

  // ---- bits as a number ----------------------------------------------------

  function BitNumber(bits: seq<bool>): nat
  {
    if bits == [] then 0 else 2 * BitNumber(bits[..|bits| - 1]) + if bits[|bits| - 1] then 1 else 0
  }

  lemma BitAppended(bits: seq<bool>, b: bool)
    ensures BitNumber(bits + [b]) == 2 * BitNumber(bits) + if b then 1 else 0
  {
    assert (bits + [b])[..|bits|] == bits;
  }

  lemma {:induction false} BitNumberConcat(a: seq<bool>, b: seq<bool>)
    ensures BitNumber(a + b) == BitNumber(a) * TwoTo(|b|) + BitNumber(b) && BitNumber(b) < TwoTo(|b|)
    decreases |b|
  {
    if b == [] {
      assert a + b == a;
    } else {
      var front, last := b[..|b| - 1], b[|b| - 1];
      BitNumberConcat(a, front);
      assert a + b == (a + front) + [last] && b == front + [last];
      BitAppended(a + front, last);
      assert BitNumber(a) * TwoTo(|b|) == 2 * (BitNumber(a) * TwoTo(|front|));
    }
  }

  lemma FiveBits(a: bool, b: bool, c: bool, d: bool, e: bool)
    ensures BitNumber([a, b, c, d, e]) ==
              (if a then 16 else 0) + (if b then 8 else 0) + (if c then 4 else 0) + (if d then 2 else 0) + if e then 1 else 0
  {
    assert BitNumber([]) == 0;
    hide BitNumber;
    assert [] + [a] == [a] && [a] + [b] == [a, b] && [a, b] + [c] == [a, b, c] && [a, b, c] + [d] == [a, b, c, d] && [a, b, c, d] + [e] == [a, b, c, d, e];
    BitAppended([], a);
    BitAppended([a], b);
    BitAppended([a, b], c);
    BitAppended([a, b, c], d);
    BitAppended([a, b, c, d], e);
  }

  lemma SymbolWeights(v: Symbol)
    ensures v as nat == (if Bit(v, 4) then 16 else 0) + (if Bit(v, 3) then 8 else 0) + (if Bit(v, 2) then 4 else 0)
                      + (if Bit(v, 1) then 2 else 0) + if Bit(v, 0) then 1 else 0
  {
  }

  lemma SymbolNumber(v: Symbol)
    ensures BitNumber(Bits(5, v)) == v as nat
  {
    SymbolWeights(v);
    hide Bit, BitNumber;
    var b := Bits(5, v);
    assert b == [Bit(v, 4), Bit(v, 3), Bit(v, 2), Bit(v, 1), Bit(v, 0)];
    FiveBits(b[0], b[1], b[2], b[3], b[4]);
  }

  lemma OctetWeights(v: Octet)
    ensures v as nat == (if Bit(v, 7) then 128 else 0) + (if Bit(v, 6) then 64 else 0) + (if Bit(v, 5) then 32 else 0)
                      + (if Bit(v, 4) then 16 else 0) + (if Bit(v, 3) then 8 else 0) + (if Bit(v, 2) then 4 else 0)
                      + (if Bit(v, 1) then 2 else 0) + if Bit(v, 0) then 1 else 0
  {
  }

  lemma OctetNumber(v: Octet)
    ensures BitNumber(Bits(8, v)) == v as nat
  {
    OctetWeights(v);
    OctetBitList(v);
    hide Bit, Bits, BitNumber;
    EightBits(Bit(v, 7), Bit(v, 6), Bit(v, 5), Bit(v, 4), Bit(v, 3), Bit(v, 2), Bit(v, 1), Bit(v, 0));
  }

  lemma OctetBitList(v: Octet)
    ensures Bits(8, v) == [Bit(v, 7), Bit(v, 6), Bit(v, 5)] + [Bit(v, 4), Bit(v, 3), Bit(v, 2), Bit(v, 1), Bit(v, 0)]
  {
    hide Bit;
  }

  lemma EightBits(a: bool, b: bool, c: bool, d: bool, e: bool, f: bool, g: bool, h: bool)
    ensures BitNumber([a, b, c] + [d, e, f, g, h]) ==
              (if a then 128 else 0) + (if b then 64 else 0) + (if c then 32 else 0)
            + (if d then 16 else 0) + (if e then 8 else 0) + (if f then 4 else 0) + (if g then 2 else 0) + if h then 1 else 0
  {
    hide BitNumber, TwoTo;
    FiveBits(d, e, f, g, h);
    ThreeBits(a, b, c);
    BitNumberConcat([a, b, c], [d, e, f, g, h]);
    Powers();
  }

  lemma ThreeBits(a: bool, b: bool, c: bool)
    ensures BitNumber([a, b, c]) == (if a then 4 else 0) + (if b then 2 else 0) + if c then 1 else 0
  {
    assert BitNumber([]) == 0;
    hide BitNumber;
    assert [] + [a] == [a] && [a] + [b] == [a, b] && [a, b] + [c] == [a, b, c];
    BitAppended([], a);
    BitAppended([a], b);
    BitAppended([a, b], c);
  }

  lemma Powers()
    ensures TwoTo(5) == 32 && TwoTo(8) == 256
  {
    assert TwoTo(2) == 4;
    assert TwoTo(4) == 16;
    assert TwoTo(6) == 64;
  }

  /** Bits of symbols or octets denote the number the symbols or octets do. */
  lemma {:induction false} NumberOfUnpacked(width: nat, xs: seq<bv32>)
    requires width == 5 || width == 8
    requires forall i :: 0 <= i < |xs| ==> if width == 5 then xs[i] < 0x20 else xs[i] < 0x100
    ensures BitNumber(Unpack(width, xs)) == Number(TwoTo(width), AsNumbers(xs))
    decreases |xs|
  {
    if xs != [] {
      var front, last := xs[..|xs| - 1], xs[|xs| - 1];
      NumberOfUnpacked(width, front);
      if width == 5 { SymbolNumber(last); } else { OctetNumber(last); }
      BitNumberConcat(Unpack(width, front), Bits(width, last));
      assert AsNumbers(xs)[..|front|] == AsNumbers(front);
      assert BitNumber(Unpack(width, front)) * TwoTo(width) == TwoTo(width) * Number(TwoTo(width), AsNumbers(front));
    }
  }

  lemma PlacesOfSymbols(s: string)
    requires AllSymbolChars(s)
    ensures AsNumbers(Values(s)) == Places(s)
  {
    forall i | 0 <= i < |s| ensures AsNumbers(Values(s))[i] == Places(s)[i] {
      IndexOfIsExact(s[i]);
      WordOfIndex(IndexOf(s[i]));
    }
  }

  lemma DecodedOctets(s: Ascii)
    requires AllSymbolChars(s) && Decode(s).Ok?
    ensures Decode(s) == Ok(Octets(Unpack(5, Values(s))))
  {
    hide IndexOf, ValueOf, Octets, Unpack, MatchesFormat;
    NormalizeFixesSymbols(s, 0);
    assert s + Padding(0) == s;
    assert PaddingIndex(s) == |s| && s[..|s|] == s;
  }

  lemma NumberOfOctets(bits: seq<bool>)
    ensures Number(256, AsNumbers(Octets(bits))) == BitNumber(bits) / TwoTo(|bits| % 8)
  {
    hide Octets, Unpack, BitNumber, Number, TwoTo, OctetOf;
    var whole := 8 * (|bits| / 8);
    UnpackedOctets(bits);
    NumberOfUnpacked(8, Octets(bits));
    Powers();
    BitNumberConcat(bits[..whole], bits[whole..]);
    assert bits[..whole] + bits[whole..] == bits;
    Quotient(BitNumber(bits[..whole]), TwoTo(|bits| - whole), BitNumber(bits[whole..]));
  }

  /** What an accepted run of symbols decodes to, as arithmetic. */
  lemma DecodedNumber(s: Ascii)
    requires AllSymbolChars(s) && Decode(s).Ok?
    ensures var bytes := Decode(s).value;
            && |bytes| == 5 * |s| / 8
            && Number(256, AsNumbers(bytes)) == Number(32, Places(s)) / TwoTo(5 * |s| % 8)
  {
    hide IndexOf, ValueOf, Decode, Octets, Unpack, Number, TwoTo;
    DecodedOctets(s);
    NumberOfUnpacked(5, Values(s));
    PlacesOfSymbols(s);
    Powers();
    NumberOfOctets(Unpack(5, Values(s)));
  }

  lemma Quotient(q: nat, d: nat, r: nat)
    requires r < d
    ensures (q * d + r) / d == q
  {
    var n := q * d + r;
    var k := n / d;
    assert n == k * d + n % d;
    assert (q - k) * d == n % d - r;
    Multiple(q - k, d);
  }

  lemma Multiple(x: int, d: nat)
    ensures x >= 1 ==> x * d >= d
    ensures x <= -1 ==> x * d + d <= 0
  {
  }
}
