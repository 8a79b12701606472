/**
 Well-formed text and its UTF-8 bytes by position and by value, as section 3 of RFC 3629
 gives them: every character in its shortest form.
*/
module Utf8Text {
  import opened Bytes
  import opened Unicode

  predicate PairedAt(t: Text, i: nat)
    requires i < |t|
  {
    && (0xD800 <= t[i] <= 0xDBFF ==> i + 1 < |t| && 0xDC00 <= t[i + 1] <= 0xDFFF)
    && (0xDC00 <= t[i] <= 0xDFFF ==> 0 < i && 0xD800 <= t[i - 1] <= 0xDBFF)
  }

  /** Every leading surrogate is followed by a trailing one, and every trailing one follows a leading one. */
  predicate IsPaired(t: Text) { forall i :: 0 <= i < |t| ==> PairedAt(t, i) }

  lemma PairedAfter(t: Text, k: nat)
    requires 1 <= k <= |t| && !(0xD800 <= t[k - 1] <= 0xDBFF)
    ensures IsPaired(t[k..]) <==> forall i :: k <= i < |t| ==> PairedAt(t, i)
  {
    var rest := t[k..];
    forall i | k <= i < |t| ensures PairedAt(t, i) <==> PairedAt(rest, i - k) {
      assert rest[i - k] == t[i];
      assert i > k ==> rest[i - k - 1] == t[i - 1];
      assert i + 1 < |t| ==> rest[i - k + 1] == t[i + 1];
    }
    if IsPaired(rest) {
      forall i | k <= i < |t| ensures PairedAt(t, i) { assert PairedAt(rest, i - k); }
    }
    if forall i :: k <= i < |t| ==> PairedAt(t, i) {
      forall j | 0 <= j < |rest| ensures PairedAt(rest, j) { assert PairedAt(t, j + k); }
    }
  }

  lemma {:induction false} WellFormedIsPaired(t: Text)
    ensures IsWellFormed(t) <==> IsPaired(t)
    decreases |t|
  {
    if t != [] {
      var k := if StartsWithPair(t) then 2 else 1;
      WellFormedIsPaired(t[k..]);
      if k == 2 || !IsSurrogate(t[0]) {
        PairedAfter(t, k);
        assert forall i :: 0 <= i < k ==> PairedAt(t, i);
      } else {
        assert !PairedAt(t, 0);
      }
    }
  }

  /** The first character of a text, one unit or a pair. */
  function First(t: Text): (first: Text)
    requires t != []
  {
    if StartsWithPair(t) then t[..2] else t[..1]
  }

  lemma Utf8First(t: Text)
    requires t != []
    ensures Utf8(t) == Utf8(First(t)) + Utf8(t[|First(t)|..])
  {
    hide EncodeUnit, EncodeCodePoint;
    var first := First(t);
    assert first[|first|..] == [] && first[0] == t[0];
    if StartsWithPair(t) {
      assert first[1] == t[1];
    }
  }

  predicate CutsPair(a: Text, b: Text)
  {
    a != [] && b != [] && 0xD800 <= a[|a| - 1] <= 0xDBFF && 0xDC00 <= b[0] <= 0xDFFF
  }

  lemma FirstOfConcat(a: Text, b: Text)
    requires a != [] && !CutsPair(a, b)
    ensures var k := |First(a)|;
            First(a + b) == First(a) && (a + b)[k..] == a[k..] + b && !CutsPair(a[k..], b)
  {
    assert StartsWithPair(a + b) <==> StartsWithPair(a);
  }

  lemma Associative(x: seq<Byte>, y: seq<Byte>, z: seq<Byte>)
    ensures x + (y + z) == (x + y) + z
  {
  }

  /** Text is encoded piece by piece, as long as no surrogate pair is cut. */
  lemma {:induction false} Utf8Concat(a: Text, b: Text)
    requires !CutsPair(a, b)
    ensures Utf8(a + b) == Utf8(a) + Utf8(b)
    decreases |a|
  {
    if a == [] {
      assert a + b == b;
    } else {
      hide Utf8, CutsPair, First;
      var rest := a[|First(a)|..];
      FirstOfConcat(a, b);
      Utf8First(a);
      Utf8First(a + b);
      Utf8Concat(rest, b);
      Associative(Utf8(First(a)), Utf8(rest), Utf8(b));
    }
  }

  predicate IsTail(b: Byte) { 128 <= b <= 191 }

  /** One unit: itself below 128, two bytes below 2048, three above; U+FFFD for a lone surrogate. */
  lemma UnitBytes(u: Unit)
    ensures u < 128 ==> Utf8([u]) == [u]
    ensures 128 <= u < 2048 ==>
              var b := Utf8([u]);
              |b| == 2 && 194 <= b[0] <= 223 && IsTail(b[1]) && u == (b[0] as int - 192) * 64 + (b[1] as int - 128)
    ensures 2048 <= u && !(0xD800 <= u <= 0xDFFF) ==>
              var b := Utf8([u]);
              |b| == 3 && 224 <= b[0] <= 239 && IsTail(b[1]) && IsTail(b[2]) && u == (b[0] as int - 224) * 4096 + (b[1] as int - 128) * 64 + (b[2] as int - 128)
    ensures 0xD800 <= u <= 0xDFFF ==> Utf8([u]) == [239, 191, 189]
  {
    assert [u][1..] == [];
    assert Utf8([u]) == EncodeUnit(if IsSurrogate(u) then 0xFFFD else u);
    assert u / 4096 == u / 64 / 64;
  }

  /** A surrogate pair: four bytes for the code point it stands for. */
  lemma PairBytes(high: Unit, low: Unit)
    requires 0xD800 <= high <= 0xDBFF && 0xDC00 <= low <= 0xDFFF
    ensures var b := Utf8([high, low]);
            && |b| == 4 && 240 <= b[0] <= 244 && IsTail(b[1]) && IsTail(b[2]) && IsTail(b[3])
            && 65536 + (high - 0xD800) * 1024 + (low - 0xDC00) ==
                 (b[0] as int - 240) * 262144 + (b[1] as int - 128) * 4096 + (b[2] as int - 128) * 64 + (b[3] as int - 128)
  {
    var c := CodePoint(high, low);
    PairIsOneCharacter(high, low);
    PairDigits(c);
  }

  lemma PairIsOneCharacter(high: Unit, low: Unit)
    requires IsHigh(high) && IsLow(low)
    ensures Utf8([high, low]) == EncodeCodePoint(CodePoint(high, low))
  {
    assert [high, low][2..] == [];
  }
}
