/**
 The 32-bit integer operators a JavaScript number goes through under `<<`, `|`,
 `&` and `>>>`, and the big-endian bits of the low end of such a word.

 A word is a `bv32`: bits shifted past bit 31 are lost, exactly as in the
 accumulators of the Base32 codec, which are never masked.
 */
module Bits32 {

  type Octet = x: bv32 | x < 0x100
  type Symbol = x: bv32 | x < 0x20

  /** The widest run of bits the codec ever holds back: 7 pending bits and 5 new ones. */
  const WIDEST := 12

  predicate Bit(x: bv32, j: nat)
    requires j < WIDEST
  {
    match j
    case 0 => x & 0x1 != 0
    case 1 => x & 0x2 != 0
    case 2 => x & 0x4 != 0
    case 3 => x & 0x8 != 0
    case 4 => x & 0x10 != 0
    case 5 => x & 0x20 != 0
    case 6 => x & 0x40 != 0
    case 7 => x & 0x80 != 0
    case 8 => x & 0x100 != 0
    case 9 => x & 0x200 != 0
    case 10 => x & 0x400 != 0
    case _ => x & 0x800 != 0
  }

  /** The low `width` bits of `x`, most significant first. */
  function Bits(width: nat, x: bv32): (bits: seq<bool>)
    requires width <= WIDEST
    ensures |bits| == width
  {
    seq(width, i requires 0 <= i < width => Bit(x, width - 1 - i))
  }

  /** `x >>> amount`, for the amounts the codec uses. */
  function ShiftRight(x: bv32, amount: nat): bv32
    requires amount < 8
  {
    match amount
    case 0 => x
    case 1 => x >> 1
    case 2 => x >> 2
    case 3 => x >> 3
    case 4 => x >> 4
    case 5 => x >> 5
    case 6 => x >> 6
    case _ => x >> 7
  }

  /** `x << amount`, for the amounts the codec uses. */
  function ShiftLeft(x: bv32, amount: nat): bv32
    requires amount < 5
  {
    match amount
    case 0 => x
    case 1 => x << 1
    case 2 => x << 2
    case 3 => x << 3
    case _ => x << 4
  }

  // ---- one bit at a time -------------------------------------------------

  lemma BitAfterSymbol(x: bv32, v: Symbol, j: nat)
    requires j < WIDEST
    ensures Bit((x << 5) | v, j) == if j < 5 then Bit(v, j) else Bit(x, j - 5)
  {
    match j { case 0 => case 1 => case 2 => case 3 => case 4 => case 5 => case 6 => case 7 => case 8 => case 9 => case 10 => case _ => }
  }

  lemma BitAfterOctet(x: bv32, v: Octet, j: nat)
    requires j < WIDEST
    ensures Bit((x << 8) | v, j) == if j < 8 then Bit(v, j) else Bit(x, j - 8)
  {
    match j { case 0 => case 1 => case 2 => case 3 => case 4 => case 5 => case 6 => case 7 => case 8 => case 9 => case 10 => case _ => }
  }

  lemma BitOfOctet(x: bv32, s: nat, j: nat)
    requires s < 5 && j < 8
    ensures Bit(ShiftRight(x, s) & 0xff, j) == Bit(x, j + s)
  {
    match s {
      case 0 => match j { case 0 => case 1 => case 2 => case 3 => case 4 => case 5 => case 6 => case _ => }
      case 1 => match j { case 0 => case 1 => case 2 => case 3 => case 4 => case 5 => case 6 => case _ => }
      case 2 => match j { case 0 => case 1 => case 2 => case 3 => case 4 => case 5 => case 6 => case _ => }
      case 3 => match j { case 0 => case 1 => case 2 => case 3 => case 4 => case 5 => case 6 => case _ => }
      case _ => match j { case 0 => case 1 => case 2 => case 3 => case 4 => case 5 => case 6 => case _ => }
    }
  }

  lemma BitOfSymbol(x: bv32, s: nat, j: nat)
    requires s < 8 && j < 5
    ensures Bit(ShiftRight(x, s) & 0x1f, j) == Bit(x, j + s)
  {
    match s { case 0 => case 1 => case 2 => case 3 => case 4 => case 5 => case 6 => case _ => }
  }

  lemma BitOfLastSymbol(x: bv32, s: nat, j: nat)
    requires 1 <= s < 5 && j < 5
    ensures Bit(ShiftLeft(x, s) & 0x1f, j) == (j >= s && Bit(x, j - s))
  {
  }

  // ---- whole runs of bits ------------------------------------------------

  /** `buffer = (buffer << 5) | value` appends the symbol's bits to the pending ones. */
  lemma PushSymbol(k: nat, x: bv32, v: Symbol)
    requires k < 8
    ensures Bits(k + 5, (x << 5) | v) == Bits(k, x) + Bits(5, v)
  {
    forall i | 0 <= i < k + 5
      ensures Bits(k + 5, (x << 5) | v)[i] == (Bits(k, x) + Bits(5, v))[i]
    {
      BitAfterSymbol(x, v, k + 4 - i);
    }
  }

  /** `buffer = (buffer << 8) | byte` appends the octet's bits to the pending ones. */
  lemma PushOctet(k: nat, x: bv32, v: Octet)
    requires k < 5
    ensures Bits(k + 8, (x << 8) | v) == Bits(k, x) + Bits(8, v)
  {
    forall i | 0 <= i < k + 8
      ensures Bits(k + 8, (x << 8) | v)[i] == (Bits(k, x) + Bits(8, v))[i]
    {
      BitAfterOctet(x, v, k + 7 - i);
    }
  }

  /** `(buffer >>> bits) & 0xff` reads off the eight oldest pending bits. */
  lemma PopOctet(n: nat, x: bv32, top: bv32)
    requires 8 <= n <= WIDEST && top == ShiftRight(x, n - 8) & 0xff
    ensures Bits(n, x) == Bits(8, top) + Bits(n - 8, x)
  {
    hide Bit, ShiftRight;
    forall i | 0 <= i < 8 ensures Bits(n, x)[i] == Bits(8, top)[i] {
      BitOfOctet(x, n - 8, 7 - i);
    }
  }

  /** `(buffer >>> bits) & 0x1f` reads off the five oldest pending bits. */
  lemma PopSymbol(n: nat, x: bv32, top: bv32)
    requires 5 <= n <= WIDEST && top == ShiftRight(x, n - 5) & 0x1f
    ensures Bits(n, x) == Bits(5, top) + Bits(n - 5, x)
  {
    hide Bit, ShiftRight;
    forall i | 0 <= i < 5 ensures Bits(n, x)[i] == Bits(5, top)[i] {
      BitOfSymbol(x, n - 5, 4 - i);
    }
  }

  function Zeros(n: nat): (bits: seq<bool>)
    ensures |bits| == n
  {
    seq(n, _ => false)
  }

  /** `(buffer << (5 - bits)) & 0x1f` pads the left-over bits with zeros on the right. */
  lemma PadSymbol(k: nat, x: bv32)
    requires 1 <= k < 5
    ensures Bits(5, ShiftLeft(x, 5 - k) & 0x1f) == Bits(k, x) + Zeros(5 - k)
  {
    var last := ShiftLeft(x, 5 - k) & 0x1f;
    hide Bit, ShiftLeft;
    forall i | 0 <= i < 5 ensures Bits(5, last)[i] == (i < k && Bit(x, k - 1 - i)) {
      BitOfLastSymbol(x, 5 - k, 4 - i);
    }
  }

  // ---- from bits back to words -------------------------------------------

  function Weight(b: bool, w: bv32): bv32 { if b then w else 0 }

  function SymbolOf(bits: seq<bool>): (v: Symbol)
    requires |bits| == 5
  {
    Weight(bits[0], 0x10) | Weight(bits[1], 0x8) | Weight(bits[2], 0x4) | Weight(bits[3], 0x2) | Weight(bits[4], 0x1)
  }

  function OctetOf(bits: seq<bool>): (v: Octet)
    requires |bits| == 8
  {
    Weight(bits[0], 0x80) | Weight(bits[1], 0x40) | Weight(bits[2], 0x20) | Weight(bits[3], 0x10) |
    Weight(bits[4], 0x8) | Weight(bits[5], 0x4) | Weight(bits[6], 0x2) | Weight(bits[7], 0x1)
  }

  lemma SymbolBits(bits: seq<bool>)
    requires |bits| == 5
    ensures Bits(5, SymbolOf(bits)) == bits
  {
    var v := SymbolOf(bits);
    assert Bit(v, 4) == bits[0] && Bit(v, 3) == bits[1] && Bit(v, 2) == bits[2] && Bit(v, 1) == bits[3] && Bit(v, 0) == bits[4];
    forall i | 0 <= i < 5 ensures Bits(5, v)[i] == bits[i] {
      match i { case 0 => case 1 => case 2 => case 3 => case _ => }
    }
  }

  lemma OctetBits(bits: seq<bool>)
    requires |bits| == 8
    ensures Bits(8, OctetOf(bits)) == bits
  {
    var v := OctetOf(bits);
    assert Bit(v, 7) == bits[0] && Bit(v, 6) == bits[1] && Bit(v, 5) == bits[2] && Bit(v, 4) == bits[3];
    assert Bit(v, 3) == bits[4] && Bit(v, 2) == bits[5] && Bit(v, 1) == bits[6] && Bit(v, 0) == bits[7];
    forall i | 0 <= i < 8 ensures Bits(8, v)[i] == bits[i] {
      match i { case 0 => case 1 => case 2 => case 3 => case 4 => case 5 => case 6 => case _ => }
    }
  }

  lemma SymbolFromBits(v: Symbol)
    ensures SymbolOf(Bits(5, v)) == v
  {
    var b := Bits(5, v);
    assert b[0] == Bit(v, 4) && b[1] == Bit(v, 3) && b[2] == Bit(v, 2) && b[3] == Bit(v, 1) && b[4] == Bit(v, 0);
  }

  lemma OctetFromBits(v: Octet)
    ensures OctetOf(Bits(8, v)) == v
  {
    hide Bit, OctetOf, Weight;
    var u := OctetOf(Bits(8, v));
    OctetBits(Bits(8, v));
    forall j | 0 <= j < 8 ensures Bit(u, j) == Bit(v, j) {
      assert Bits(8, u)[7 - j] == Bit(u, j) && Bits(8, v)[7 - j] == Bit(v, j);
    }
    SameBits(u, v);
  }

  lemma SameBits(u: Octet, v: Octet)
    requires forall j :: 0 <= j < 8 ==> Bit(u, j) == Bit(v, j)
    ensures u == v
  {
    assert Bit(u, 0) == Bit(v, 0) && Bit(u, 1) == Bit(v, 1) && Bit(u, 2) == Bit(v, 2) && Bit(u, 3) == Bit(v, 3);
    assert Bit(u, 4) == Bit(v, 4) && Bit(u, 5) == Bit(v, 5) && Bit(u, 6) == Bit(v, 6) && Bit(u, 7) == Bit(v, 7);
  }
}
