/**
 The Base32 codec of the TOTP service (RFC 4648, section 6).

 The reference reading of the format is on bit strings: symbols are runs of five
 bits, octets runs of eight. The two loops below instead shift symbols or octets
 through one unmasked 32-bit accumulator; they are proved to compute the same.
 */
module Base32 {
  import opened Wrappers
  import opened Bits32

  const ALPHABET: string := "ABCDEFGHIJKLMNOPQRSTUVWXYZ234567"

  datatype Error = InvalidSecret | InvalidPadding | InvalidLength

  /** The text this model covers: a secret typed in ASCII. */
  predicate IsAscii(s: string) { forall i :: 0 <= i < |s| ==> s[i] as int < 128 }
  type Ascii = s: string | IsAscii(s)

  // ---- bit strings -------------------------------------------------------

  /** The big-endian bits of a string of octets (width 8) or symbols (width 5). */
  function Unpack(width: nat, xs: seq<bv32>): (bits: seq<bool>)
    requires width <= WIDEST
    ensures |bits| == width * |xs|
    decreases |xs|
  {
    if xs == [] then [] else Unpack(width, xs[..|xs| - 1]) + Bits(width, xs[|xs| - 1])
  }

  /** Whole octets from the left; a tail of fewer than eight bits is dropped. */
  function Octets(bits: seq<bool>): (xs: seq<Octet>)
    ensures |xs| == |bits| / 8
    decreases |bits|
  {
    if |bits| < 8 then [] else [OctetOf(bits[..8])] + Octets(bits[8..])
  }

  /** Whole symbols from the left; a tail of fewer than five bits is dropped. */
  function Symbols(bits: seq<bool>): (vs: seq<Symbol>)
    ensures |vs| == |bits| / 5
    decreases |bits|
  {
    if |bits| < 5 then [] else [SymbolOf(bits[..5])] + Symbols(bits[5..])
  }

  function Pad5(bits: seq<bool>): (padded: seq<bool>)
    ensures |padded| % 5 == 0 && |bits| <= |padded| < |bits| + 5
    ensures padded[..|bits|] == bits
  {
    bits + Zeros((5 - |bits| % 5) % 5)
  }

  lemma {:induction false} UnpackConcat(width: nat, xs: seq<bv32>, ys: seq<bv32>)
    requires width <= WIDEST
    ensures Unpack(width, xs + ys) == Unpack(width, xs) + Unpack(width, ys)
    decreases |ys|
  {
    if ys == [] {
      assert xs + ys == xs;
    } else {
      var front, last := ys[..|ys| - 1], ys[|ys| - 1];
      assert (xs + ys)[..|xs + ys| - 1] == xs + front;
      UnpackConcat(width, xs, front);
      assert Unpack(width, xs) + (Unpack(width, front) + Bits(width, last)) == (Unpack(width, xs) + Unpack(width, front)) + Bits(width, last);
    }
  }

  lemma UnpackOne(width: nat, x: bv32)
    requires width <= WIDEST
    ensures Unpack(width, [x]) == Bits(width, x)
  {
  }

  /** Packing octets undoes unpacking them, whatever short tail follows. */
  lemma {:induction false} OctetsOfUnpacked(xs: seq<Octet>, tail: seq<bool>)
    requires |tail| < 8
    ensures Octets(Unpack(8, xs) + tail) == xs
    decreases |xs|
  {
    if xs != [] {
      var bits := Unpack(8, xs) + tail;
      UnpackConcat(8, xs[..1], xs[1..]);
      assert xs == xs[..1] + xs[1..] && xs[..1] == [xs[0]];
      UnpackOne(8, xs[0]);
      assert bits[..8] == Bits(8, xs[0]);
      assert bits[8..] == Unpack(8, xs[1..]) + tail;
      OctetFromBits(xs[0]);
      OctetsOfUnpacked(xs[1..], tail);
    }
  }

  lemma {:induction false} SymbolsOfUnpacked(vs: seq<Symbol>, tail: seq<bool>)
    requires |tail| < 5
    ensures Symbols(Unpack(5, vs) + tail) == vs
    decreases |vs|
  {
    if vs != [] {
      var bits := Unpack(5, vs) + tail;
      UnpackConcat(5, vs[..1], vs[1..]);
      assert vs == vs[..1] + vs[1..] && vs[..1] == [vs[0]];
      UnpackOne(5, vs[0]);
      assert bits[..5] == Bits(5, vs[0]);
      assert bits[5..] == Unpack(5, vs[1..]) + tail;
      SymbolFromBits(vs[0]);
      SymbolsOfUnpacked(vs[1..], tail);
    }
  }

  lemma {:induction false} UnpackedOctets(bits: seq<bool>)
    ensures Unpack(8, Octets(bits)) == bits[..8 * (|bits| / 8)]
    decreases |bits|
  {
    hide OctetOf, Bits;
    if 8 <= |bits| {
      var first, rest := OctetOf(bits[..8]), Octets(bits[8..]);
      UnpackConcat(8, [first], rest);
      UnpackOne(8, first);
      OctetBits(bits[..8]);
      UnpackedOctets(bits[8..]);
    }
  }

  lemma {:induction false} UnpackedSymbols(bits: seq<bool>)
    ensures Unpack(5, Symbols(bits)) == bits[..5 * (|bits| / 5)]
    decreases |bits|
  {
    hide SymbolOf, Bits;
    if 5 <= |bits| {
      var first, rest := SymbolOf(bits[..5]), Symbols(bits[5..]);
      UnpackConcat(5, [first], rest);
      UnpackOne(5, first);
      SymbolBits(bits[..5]);
      UnpackedSymbols(bits[5..]);
    }
  }

  // ---- the alphabet ------------------------------------------------------

  /** `BASE32_ALPHABET.indexOf(c)`, searching from `i`. */
  function IndexFrom(c: char, i: nat): (index: int)
    requires i <= |ALPHABET|
    ensures index == -1 || (i <= index < |ALPHABET| && ALPHABET[index] == c)
    ensures index == -1 ==> forall j :: i <= j < |ALPHABET| ==> ALPHABET[j] != c
    decreases |ALPHABET| - i
  {
    if i == |ALPHABET| then -1 else if ALPHABET[i] == c then i else IndexFrom(c, i + 1)
  }

  function IndexOf(c: char): (index: int)
    ensures -1 <= index < 32
  {
    AlphabetLength();
    IndexFrom(c, 0)
  }

  lemma AlphabetLength()
    ensures |ALPHABET| == 32
  {
  }

  /** The character class `[A-Z2-7]` of the validating regular expression. */
  predicate IsSymbolChar(c: char) { 'A' <= c <= 'Z' || '2' <= c <= '7' }

  predicate AllSymbolChars(s: string) { forall i :: 0 <= i < |s| ==> IsSymbolChar(s[i]) }

  lemma AlphabetAt(i: nat)
    requires i < 32
    ensures |ALPHABET| == 32
    ensures ALPHABET[i] as int == if i < 26 then 65 + i else 24 + i
  {
  }

  /** The class and the alphabet agree, so the decoder's `value === -1` guard is dead. */
  lemma IndexOfIsExact(c: char)
    ensures IsSymbolChar(c) <==> IndexOf(c) != -1
    ensures IndexOf(c) != -1 ==> IndexOf(c) == (if 'A' <= c then c as int - 65 else c as int - 24)
  {
    var index := IndexOf(c);
    AlphabetLength();
    if index != -1 {
      AlphabetAt(index);
    } else if IsSymbolChar(c) {
      var at := if 'A' <= c then c as int - 65 else c as int - 24;
      AlphabetAt(at);
    }
  }

  function ValueOf(c: char): (v: Symbol)
    requires IsSymbolChar(c)
  {
    IndexOfIsExact(c);
    IndexOf(c) as bv32
  }

  function CharOf(v: Symbol): (c: char)
    ensures IsSymbolChar(c)
  {
    AlphabetLength();
    assert v as int < 32;
    AlphabetAt(v as int);
    ALPHABET[v as int]
  }

  lemma IndexOfWord(v: Symbol)
    ensures 0 <= v as int < 32 && (v as int) as bv32 == v
  {
  }

  lemma IndexOfCharOf(v: Symbol)
    ensures IndexOf(CharOf(v)) == v as int
  {
    IndexOfWord(v);
    AlphabetAt(v as int);
    IndexOfIsExact(CharOf(v));
  }

  lemma ValueOfCharOf(v: Symbol)
    ensures ValueOf(CharOf(v)) == v
  {
    hide IndexOf, CharOf;
    IndexOfWord(v);
    IndexOfCharOf(v);
  }

  lemma WordOfIndex(i: nat)
    requires i < 32
    ensures (i as bv32) < 32 && (i as bv32) as int == i
  {
  }

  lemma CharOfValueOf(c: char)
    requires IsSymbolChar(c)
    ensures CharOf(ValueOf(c)) == c
  {
    IndexOfIsExact(c);
    WordOfIndex(IndexOf(c));
    AlphabetLength();
  }

  function Values(s: string): (vs: seq<Symbol>)
    requires AllSymbolChars(s)
    ensures |vs| == |s|
  {
    seq(|s|, i requires 0 <= i < |s| => ValueOf(s[i]))
  }

  function Chars(vs: seq<Symbol>): (s: string)
    ensures |s| == |vs| && AllSymbolChars(s)
  {
    seq(|vs|, i requires 0 <= i < |vs| => CharOf(vs[i]))
  }

  lemma ValuesOfChars(vs: seq<Symbol>)
    ensures Values(Chars(vs)) == vs
  {
    forall i | 0 <= i < |vs| ensures Values(Chars(vs))[i] == vs[i] { ValueOfCharOf(vs[i]); }
  }

  lemma CharsOfValues(s: string)
    requires AllSymbolChars(s)
    ensures Chars(Values(s)) == s
  {
    forall i | 0 <= i < |s| ensures Chars(Values(s))[i] == s[i] { CharOfValueOf(s[i]); }
  }

  // ---- the text around the symbols ----------------------------------------

  /** `[\s-]` on ASCII text: white space and hyphens. */
  predicate IsSeparator(c: char) { c == '-' || c == ' ' || 9 <= c as int <= 13 }

  /** `toUpperCase` on one ASCII character. */
  function Upper(c: char): char { if 'a' <= c <= 'z' then (c as int - 32) as char else c }

  function Normalize(secret: Ascii): (n: string)
    ensures |n| <= |secret|
    decreases |secret|
  {
    if secret == "" then ""
    else if IsSeparator(secret[0]) then Normalize(secret[1..])
    else [Upper(secret[0])] + Normalize(secret[1..])
  }

  /** `/^[A-Z2-7]+={0,6}$/` */
  predicate MatchesFormat(n: string)
  {
    exists k | 1 <= k <= |n| :: FormatSplit(n, k) && |n| - k <= 6
  }

  predicate FormatSplit(n: string, k: nat)
    requires k <= |n|
  {
    && (forall i :: 0 <= i < k ==> IsSymbolChar(n[i]))
    && (forall i :: k <= i < |n| ==> n[i] == '=')
  }

  /** `normalized.indexOf('=')`, or the length when there is none. */
  function PaddingIndex(n: string): (p: nat)
    ensures p <= |n|
    ensures forall i :: 0 <= i < p ==> n[i] != '='
    ensures p < |n| ==> n[p] == '='
    decreases |n|
  {
    if n == "" || n[0] == '=' then 0 else 1 + PaddingIndex(n[1..])
  }

  predicate EndsOnOctet(symbols: nat) { symbols % 8 in {0, 2, 4, 5, 7} }

  /** `expectedPadding.get(remainder)`; 0 stands for `undefined`, which no padding length equals. */
  function ExpectedPadding(remainder: nat): nat
  {
    match remainder case 2 => 6 case 4 => 4 case 5 => 3 case 7 => 1 case _ => 0
  }

  /** The checks of the decoder in their order; the symbols before the padding when all pass. */
  function Validate(n: string): (r: Result<string, Error>)
    ensures r.Ok? ==> r.value != "" && AllSymbolChars(r.value) && r.value == n[..PaddingIndex(n)]
  {
    if n == "" || !MatchesFormat(n) then Err(InvalidSecret) else
    var p := PaddingIndex(n);
    FormatFixesPadding(n);
    var encoded := n[..p];
    if exists i | p <= i < |n| :: n[i] != '=' then Err(InvalidPadding)
    else if p == |n| then
      if EndsOnOctet(p) then Ok(encoded) else Err(InvalidLength)
    else
      if |n| % 8 != 0 || ExpectedPadding(p % 8) != |n| - p then Err(InvalidPadding) else Ok(encoded)
  }

  /** The regular expression already forces everything after the first `=` to be `=`: the second padding check is dead. */
  lemma FormatFixesPadding(n: string)
    requires MatchesFormat(n)
    ensures 1 <= PaddingIndex(n) && FormatSplit(n, PaddingIndex(n))
  {
  }

  // ---- reference codec ---------------------------------------------------

  function Decode(secret: Ascii): (r: Result<seq<Octet>, Error>)
  {
    match Validate(Normalize(secret))
    case Err(e) => Err(e)
    case Ok(encoded) => Ok(Octets(Unpack(5, Values(encoded))))
  }

  function Encode(bytes: seq<Octet>): (s: string)
    ensures AllSymbolChars(s)
  {
    Chars(Symbols(Pad5(Unpack(8, bytes))))
  }

  // ---- what the codec promises -------------------------------------------

  /** The documented input language: symbols ending on an octet boundary, then no padding or exactly the padding to a multiple of eight. */
  ghost predicate WellFormed(n: string)
  {
    exists k | 1 <= k <= |n| :: FormatSplit(n, k) && EndsOnOctet(k) && (k == |n| || (|n| % 8 == 0 && |n| - k < 8))
  }

  lemma FormatSplitIsUnique(n: string, k: nat)
    requires 1 <= k <= |n| && FormatSplit(n, k)
    ensures k == PaddingIndex(n)
  {
    assert k < |n| ==> n[k] == '=';
  }

  lemma PaddingArithmetic(k: nat, n: nat)
    requires k < n
    ensures (EndsOnOctet(k) && n % 8 == 0 && n - k < 8) <==> (n % 8 == 0 && ExpectedPadding(k % 8) == n - k)
  {
  }

  lemma AcceptanceIsExact(secret: Ascii)
    ensures Decode(secret).Ok? <==> WellFormed(Normalize(secret))
  {
    var n := Normalize(secret);
    var p := PaddingIndex(n);
    if p < |n| {
      PaddingArithmetic(p, |n|);
    }
    if WellFormed(n) {
      var k :| 1 <= k <= |n| && FormatSplit(n, k) && EndsOnOctet(k) && (k == |n| || (|n| % 8 == 0 && |n| - k < 8));
      FormatSplitIsUnique(n, k);
      assert MatchesFormat(n);
    }
  }

  function Padding(p: nat): (s: string)
    ensures |s| == p
  {
    seq(p, _ => '=')
  }

  lemma {:induction false} NormalizeFixesSymbols(s: Ascii, p: nat)
    requires AllSymbolChars(s)
    ensures IsAscii(s + Padding(p)) && Normalize(s + Padding(p)) == s + Padding(p)
    decreases |s| + p
  {
    var t := s + Padding(p);
    if s != "" {
      NormalizeFixesSymbols(s[1..], p);
      assert t[1..] == s[1..] + Padding(p);
    } else if p != 0 {
      NormalizeFixesSymbols("", p - 1);
      assert t[1..] == "" + Padding(p - 1);
    }
  }

  /** Decoding a run of symbols, padded or not, reads the same octets. */
  lemma PaddingIsIgnored(s: Ascii, p: nat)
    requires s != "" && AllSymbolChars(s) && EndsOnOctet(|s|)
    requires p == 0 || ((|s| + p) % 8 == 0 && p < 8)
    ensures IsAscii(s + Padding(p))
    ensures Decode(s + Padding(p)) == Ok(Octets(Unpack(5, Values(s))))
  {
    hide ValueOf, Octets, Unpack;
    var n := s + Padding(p);
    NormalizeFixesSymbols(s, p);
    assert FormatSplit(n, |s|);
    FormatSplitIsUnique(n, |s|);
    assert n[..|s|] == s;
    AcceptanceIsExact(n);
  }

  lemma EncodedLength(bytes: nat)
    ensures EndsOnOctet((8 * bytes + 4) / 5)
  {
  }

  /** Every string of octets but the empty one survives the round trip; the empty secret is refused. */
  lemma RoundTrip(bytes: seq<Octet>)
    ensures IsAscii(Encode(bytes))
    ensures Decode(Encode(bytes)) == if bytes == [] then Err(InvalidSecret) else Ok(bytes)
  {
    var bits := Unpack(8, bytes);
    var symbols := Symbols(Pad5(bits));
    var text := Encode(bytes);
    assert IsAscii(text);
    if bytes == [] {
      assert text == "";
    } else {
      EncodedLength(|bytes|);
      assert |symbols| == (8 * |bytes| + 4) / 5;
      assert text + Padding(0) == text;
      PaddingIsIgnored(text, 0);
      EncodedBits(bytes);
    }
  }

  lemma EncodedBits(bytes: seq<Octet>)
    ensures Octets(Unpack(5, Values(Encode(bytes)))) == bytes
  {
    hide Bits, SymbolOf, OctetOf, CharOf, ValueOf;
    var bits := Unpack(8, bytes);
    var padded := Pad5(bits);
    ValuesOfChars(Symbols(padded));
    UnpackedSymbols(padded);
    assert padded[..5 * (|padded| / 5)] == padded;
    OctetsOfUnpacked(bytes, Zeros((5 - |bits| % 5) % 5));
  }

  /** The bits of the last symbol that belong to no octet. */
  function SpareBits(symbols: string): (spare: seq<bool>)
    requires AllSymbolChars(symbols)
    ensures |spare| == 5 * |symbols| % 8
  {
    Unpack(5, Values(symbols))[8 * (5 * |symbols| / 8)..]
  }

  lemma SpareFitsOneSymbol(k: nat)
    requires EndsOnOctet(k)
    ensures 5 * k % 8 < 5
    ensures (5 - 8 * (5 * k / 8) % 5) % 5 == 5 * k % 8 == 5 * k - 8 * (5 * k / 8)
  {
    var q, r := k / 8, k % 8;
    assert k == 8 * q + r;
    assert 5 * k / 8 == 5 * q + 5 * r / 8 && 5 * k % 8 == 5 * r % 8;
  }

  /** Re-encoding replaces the spare bits by zeros and keeps everything else. */
  lemma ReencodedBits(symbols: string)
    requires AllSymbolChars(symbols) && EndsOnOctet(|symbols|)
    ensures var bits := Unpack(5, Values(symbols));
            var kept := 8 * (|bits| / 8);
            Pad5(Unpack(8, Octets(bits))) == bits[..kept] + Zeros(|bits| - kept)
  {
    hide Octets, Unpack, ValueOf;
    var k := |symbols|;
    SpareFitsOneSymbol(k);
    UnpackedOctets(Unpack(5, Values(symbols)));
    assert |Unpack(5, Values(symbols))| == 5 * k;
    assert |Unpack(8, Octets(Unpack(5, Values(symbols))))| == 8 * (5 * k / 8);
  }

  /**
   The other round trip. What comes back is the normalised secret without its
   padding, letter for letter, except that the last symbol may differ; and it is
   the same text exactly when the spare bits were zero (RFC 4648, section 3.5).
  */
  lemma ReverseRoundTrip(secret: Ascii)
    requires Decode(secret).Ok?
    ensures var n := Normalize(secret);
            var symbols := n[..PaddingIndex(n)];
            var again := Encode(Decode(secret).value);
            && AllSymbolChars(symbols) && symbols != ""
            && |again| == |symbols|
            && again[..|symbols| - 1] == symbols[..|symbols| - 1]
            && (again == symbols <==> SpareBits(symbols) == Zeros(|SpareBits(symbols)|))
  {
    var n := Normalize(secret);
    var symbols := n[..PaddingIndex(n)];
    AcceptanceIsExact(secret);
    var k :| 1 <= k <= |n| && FormatSplit(n, k) && EndsOnOctet(k) && (k == |n| || (|n| % 8 == 0 && |n| - k < 8));
    FormatSplitIsUnique(n, k);
    assert Validate(n) == Ok(symbols);
    ReencodedText(symbols);
  }

  lemma ReencodedSymbols(symbols: string)
    requires AllSymbolChars(symbols) && EndsOnOctet(|symbols|) && symbols != ""
    ensures var values := Values(symbols);
            var again := Symbols(Pad5(Unpack(8, Octets(Unpack(5, values)))));
            && |again| == |values|
            && again[..|values| - 1] == values[..|values| - 1]
            && (again == values <==> SpareBits(symbols) == Zeros(|SpareBits(symbols)|))
  {
    hide Bits, SymbolOf, OctetOf, ValueOf;
    var values := Values(symbols);
    var bits := Unpack(5, values);
    var kept := bits[..8 * (|bits| / 8)];
    var spare := SpareBits(symbols);
    var zeros := Zeros(|spare|);
    ReencodedBits(symbols);
    SpareFitsOneSymbol(|symbols|);
    assert |kept| == 8 * (5 * |symbols| / 8) && |spare| == 5 * |symbols| % 8;
    assert bits == kept + spare && bits + [] == bits;
    SymbolsOfUnpacked(values, []);
    SymbolsPrefix(kept, zeros, spare);
    UnpackedSymbols(kept + zeros);
    assert (kept + zeros)[|kept|..] == zeros && (kept + zeros)[..|bits|] == kept + zeros;
  }

  lemma ReencodedText(symbols: string)
    requires AllSymbolChars(symbols) && EndsOnOctet(|symbols|) && symbols != ""
    ensures var again := Encode(Octets(Unpack(5, Values(symbols))));
            && |again| == |symbols|
            && again[..|symbols| - 1] == symbols[..|symbols| - 1]
            && (again == symbols <==> SpareBits(symbols) == Zeros(|SpareBits(symbols)|))
  {
    hide SpareBits, Symbols, Pad5, Octets, Unpack, CharOf, ValueOf;
    var values := Values(symbols);
    var again := Symbols(Pad5(Unpack(8, Octets(Unpack(5, values)))));
    ReencodedSymbols(symbols);
    CharsOfValues(symbols);
    ValuesOfChars(again);
    assert Chars(again)[..|values| - 1] == Chars(again[..|values| - 1]);
    assert Chars(values)[..|values| - 1] == Chars(values[..|values| - 1]);
  }

  /** Two bit strings that differ only in a last run shorter than a symbol agree in all symbols but the last. */
  lemma {:induction false} SymbolsPrefix(front: seq<bool>, a: seq<bool>, b: seq<bool>)
    requires |a| == |b| < 5 && (|front| + |a|) % 5 == 0 && 0 < |front| + |a|
    ensures var x, y := Symbols(front + a), Symbols(front + b);
            |x| == |y| > 0 && x[..|x| - 1] == y[..|y| - 1]
    decreases |front|
  {
    if 5 < |front| + |a| {
      assert (front + a)[..5] == front[..5] && (front + a)[5..] == front[5..] + a;
      assert (front + b)[..5] == front[..5] && (front + b)[5..] == front[5..] + b;
      SymbolsPrefix(front[5..], a, b);
    }
  }

  // ---- the two loops -----------------------------------------------------

  /** `buffer = (buffer << 5) | value; bits += 5` */
  lemma SymbolIn(done: seq<bool>, bits: nat, buffer: bv32, v: Symbol)
    requires bits < 8
    ensures done + Bits(bits + 5, (buffer << 5) | v) == (done + Bits(bits, buffer)) + Bits(5, v)
  {
    hide Bits;
    PushSymbol(bits, buffer, v);
  }

  /** `bits -= 8; bytes.push((buffer >>> bits) & 0xff)` */
  lemma OctetOut(bytes: seq<Octet>, bits: nat, buffer: bv32, byte: Octet)
    requires 8 <= bits <= WIDEST && byte == ShiftRight(buffer, bits - 8) & 0xff
    ensures Unpack(8, bytes + [byte]) + Bits(bits - 8, buffer) == Unpack(8, bytes) + Bits(bits, buffer)
  {
    hide Bits, ShiftRight;
    PopOctet(bits, buffer, byte);
    assert (bytes + [byte])[..|bytes|] == bytes;
  }

  /** `buffer = (buffer << 8) | byte; bits += 8` */
  lemma OctetIn(done: seq<bool>, bits: nat, buffer: bv32, byte: Octet)
    requires bits < 5
    ensures done + Bits(bits + 8, (buffer << 8) | byte) == (done + Bits(bits, buffer)) + Bits(8, byte)
  {
    hide Bits;
    PushOctet(bits, buffer, byte);
  }

  /** `bits -= 5; result += BASE32_ALPHABET[(buffer >>> bits) & 0x1f]` */
  lemma SymbolOut(written: seq<Symbol>, bits: nat, buffer: bv32, v: Symbol)
    requires 5 <= bits <= WIDEST && v == ShiftRight(buffer, bits - 5) & 0x1f
    ensures Unpack(5, written + [v]) + Bits(bits - 5, buffer) == Unpack(5, written) + Bits(bits, buffer)
  {
    hide Bits, ShiftRight;
    PopSymbol(bits, buffer, v);
    assert (written + [v])[..|written|] == written;
  }

  /** `if (bits > 0) result += BASE32_ALPHABET[(buffer << (5 - bits)) & 0x1f]` */
  lemma LastSymbolOut(written: seq<Symbol>, bits: nat, buffer: bv32, v: Symbol)
    requires 1 <= bits < 5 && v == ShiftLeft(buffer, 5 - bits) & 0x1f
    ensures Unpack(5, written + [v]) == Pad5(Unpack(5, written) + Bits(bits, buffer))
  {
    hide Bits, ShiftLeft;
    PadSymbol(bits, buffer);
    assert (written + [v])[..|written|] == written;
  }

  lemma UnpackNothing(width: nat, x: bv32)
    requires width <= WIDEST
    ensures Unpack(width, []) == [] && Bits(0, x) == []
  {
  }

  lemma PadNothing(bits: seq<bool>)
    requires |bits| % 5 == 0
    ensures Pad5(bits) == bits
  {
  }

  lemma UnpackNext(width: nat, xs: seq<bv32>, i: nat)
    requires width <= WIDEST && i < |xs|
    ensures Unpack(width, xs[..i + 1]) == Unpack(width, xs[..i]) + Bits(width, xs[i])
  {
    assert xs[..i + 1][..i] == xs[..i];
  }

  lemma CharsNext(vs: seq<Symbol>, v: Symbol)
    ensures Chars(vs + [v]) == Chars(vs) + [CharOf(v)]
  {
  }

  /** The decoding loop, over symbols already validated; its own guard is kept and never fires. */
  method DecodeSymbols(encoded: string) returns (r: Result<seq<Octet>, Error>)
    requires AllSymbolChars(encoded)
    ensures r == Ok(Octets(Unpack(5, Values(encoded))))
  {
    hide IndexOf, ValueOf, ShiftRight, Bits, Unpack, Octets;
    var buffer: bv32 := 0;
    var bits := 0;
    var bytes: seq<Octet> := [];
    UnpackNothing(8, buffer);
    UnpackNothing(5, buffer);
    for i := 0 to |encoded|
      invariant bits < 8
      invariant Unpack(8, bytes) + Bits(bits, buffer) == Unpack(5, Values(encoded)[..i])
    {
      var value := IndexOf(encoded[i]);
      IndexOfIsExact(encoded[i]);
      if value == -1 {
        return Err(InvalidSecret);
      }
      var v: Symbol := ValueOf(encoded[i]);
      SymbolIn(Unpack(8, bytes), bits, buffer, v);
      UnpackNext(5, Values(encoded), i);
      buffer := (buffer << 5) | v;
      bits := bits + 5;
      while bits >= 8
        invariant bits < 13
        invariant Unpack(8, bytes) + Bits(bits, buffer) == Unpack(5, Values(encoded)[..i + 1])
      {
        bits := bits - 8;
        var byte: Octet := ShiftRight(buffer, bits) & 0xff;
        OctetOut(bytes, bits + 8, buffer, byte);
        bytes := bytes + [byte];
      }
    }
    assert Values(encoded)[..|encoded|] == Values(encoded);
    OctetsOfUnpacked(bytes, Bits(bits, buffer));
    r := Ok(bytes);
  }

  method DecodeBase32(secret: Ascii) returns (r: Result<seq<Octet>, Error>)
    ensures r == Decode(secret)
  {
    match Validate(Normalize(secret))
    case Err(e) => r := Err(e);
    case Ok(encoded) => r := DecodeSymbols(encoded);
  }

  method EncodeBase32(bytes: seq<Octet>) returns (result: string)
    ensures result == Encode(bytes)
  {
    hide CharOf, ShiftLeft, ShiftRight, Bits, Symbols;
    var buffer: bv32 := 0;
    var bits := 0;
    result := "";
    ghost var written: seq<Symbol> := [];
    UnpackNothing(8, buffer);
    UnpackNothing(5, buffer);
    for i := 0 to |bytes|
      invariant bits < 5
      invariant result == Chars(written)
      invariant Unpack(5, written) + Bits(bits, buffer) == Unpack(8, bytes[..i])
    {
      OctetIn(Unpack(5, written), bits, buffer, bytes[i]);
      UnpackNext(8, bytes, i);
      buffer := (buffer << 8) | bytes[i];
      bits := bits + 8;
      while bits >= 5
        invariant bits < 13
        invariant result == Chars(written)
        invariant Unpack(5, written) + Bits(bits, buffer) == Unpack(8, bytes[..i + 1])
      {
        bits := bits - 5;
        var v: Symbol := ShiftRight(buffer, bits) & 0x1f;
        SymbolOut(written, bits + 5, buffer, v);
        CharsNext(written, v);
        result := result + [CharOf(v)];
        written := written + [v];
      }
    }
    assert bytes[..|bytes|] == bytes;
    if bits > 0 {
      var v: Symbol := ShiftLeft(buffer, 5 - bits) & 0x1f;
      LastSymbolOut(written, bits, buffer, v);
      CharsNext(written, v);
      result := result + [CharOf(v)];
      written := written + [v];
    } else {
      UnpackNothing(5, buffer);
      PadNothing(Unpack(5, written));
    }
    assert Unpack(5, written) + [] == Pad5(Unpack(8, bytes));
    SymbolsOfUnpacked(written, []);
  }
}
