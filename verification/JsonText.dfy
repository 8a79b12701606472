/**
 The printed text itself: which characters stay as they are, what the others become, and
 how strings, properties and objects are put together. Characters are given by their codes.
*/
module JsonText {
  import opened Unicode
  import opened Utf8Text
  import opened Json
  import Hex

  /** Neither a control character, nor a quotation mark, nor a backslash. */
  predicate IsPlainUnit(u: Unit) { 32 <= u && u != 34 && u != 92 }

  lemma {:induction false} EscapeIsLonger(s: Text)
    ensures |Escape(s)| >= |s|
    decreases |s|
  {
    if s != [] {
      EscapeIsLonger(s[if StartsWithPair(s) then 2 else 1..]);
    }
  }

  lemma EscapedUnit(u: Unit)
    ensures EscapeUnit(u) == [u] <==> IsPlainUnit(u) && !(0xD800 <= u <= 0xDFFF)
    ensures EscapeUnit(u) != [u] ==> |EscapeUnit(u)| >= 2
  {
  }

  /** A text is printed as it is exactly when it is paired and every unit is plain. */
  lemma {:induction false} PlainTextIsItself(s: Text)
    ensures Escape(s) == s <==> IsPaired(s) && forall i :: 0 <= i < |s| ==> IsPlainUnit(s[i])
    decreases |s|
  {
    WellFormedIsPaired(s);
    if s != [] {
      var k := if StartsWithPair(s) then 2 else 1;
      WellFormedIsPaired(s[k..]);
      PlainTextIsItself(s[k..]);
      EscapeIsLonger(s[k..]);
      EscapedUnit(s[0]);
      assert s == s[..k] + s[k..];
      if Escape(s) == s {
        assert k == 1 ==> |EscapeUnit(s[0])| == 1;
        assert Escape(s)[k..] == Escape(s[k..]);
      }
    }
  }

  /** Strings are escaped piece by piece, as long as no surrogate pair is cut. */
  lemma {:induction false} EscapeConcat(a: Text, b: Text)
    requires a == [] || b == [] || !(0xD800 <= a[|a| - 1] <= 0xDBFF && 0xDC00 <= b[0] <= 0xDFFF)
    ensures Escape(a + b) == Escape(a) + Escape(b)
    decreases |a|
  {
    if a == [] {
      assert a + b == b;
    } else if b == [] {
      assert a + b == a;
    } else {
      var k := if StartsWithPair(a) then 2 else 1;
      assert StartsWithPair(a + b) <==> StartsWithPair(a);
      assert (a + b)[k..] == a[k..] + b && (a + b)[..k] == a[..k];
      EscapeConcat(a[k..], b);
    }
  }

  /** `0` to `9`, `a` to `f` */
  function HexDigit(n: nat): Unit
    requires n < 16
  {
    [48, 49, 50, 51, 52, 53, 54, 55, 56, 57, 97, 98, 99, 100, 101, 102][n]
  }

  lemma EscapeOfOne(u: Unit)
    ensures Escape([u]) == EscapeUnit(u)
  {
    assert [u][1..] == [];
  }

  /** The seven short escapes; other control characters and lone surrogates get four lower-case digits; a pair stands for itself. */
  lemma EscapesAreExact(u: Unit)
    ensures Escape([8]) == [92, 98] && Escape([9]) == [92, 116] && Escape([10]) == [92, 110] && Escape([12]) == [92, 102]
    ensures Escape([13]) == [92, 114] && Escape([34]) == [92, 34] && Escape([92]) == [92, 92]
    ensures (u < 32 && u !in {8, 9, 10, 12, 13}) || 0xD800 <= u <= 0xDFFF ==>
              Escape([u]) == [92, 117, HexDigit(u / 4096), HexDigit(u / 256 % 16), HexDigit(u / 16 % 16), HexDigit(u % 16)]
    ensures forall low: Unit :: 0xD800 <= u <= 0xDBFF && 0xDC00 <= low <= 0xDFFF ==> Escape([u, low]) == [u, low]
  {
    EscapeOfOne(8); EscapeOfOne(9); EscapeOfOne(10); EscapeOfOne(12); EscapeOfOne(13); EscapeOfOne(34); EscapeOfOne(92);
    EscapeOfOne(u);
    DigitIsExact(u / 4096);
    DigitIsExact(u / 256 % 16);
    DigitIsExact(u / 16 % 16);
    DigitIsExact(u % 16);
    hide Hex.Digit, HexDigit, Escape;
    forall low: Unit | 0xD800 <= u <= 0xDBFF && 0xDC00 <= low <= 0xDFFF ensures Escape([u, low]) == [u, low] {
      EscapeOfPair(u, low);
    }
  }

  lemma EscapeOfPair(high: Unit, low: Unit)
    requires IsHigh(high) && IsLow(low)
    ensures Escape([high, low]) == [high, low]
  {
    assert [high, low][2..] == [] && [high, low][..2] == [high, low];
  }

  lemma DigitIsExact(n: nat)
    requires n < 16
    ensures Hex.Digit(n) == HexDigit(n)
  {
  }

  /** A single property, and the empty object. */
  lemma PropertyIsExact(key: Text, text: Text)
    ensures Stringify([]) == [123, 125]
    ensures Stringify([Entry(key, Str(text))]) == [123, 34] + Escape(key) + [34, 58, 34] + Escape(text) + [34, 125]
    ensures Stringify([Entry(key, Null)]) == [123, 34] + Escape(key) + [34, 58, 110, 117, 108, 108, 125]
  {
    hide Escape;
    var e, n := Entry(key, Str(text)), Entry(key, Null);
    assert [e][0] == e && [n][0] == n;
    calc {
      Stringify([e]);
      [OPEN] + (([QUOTE] + Escape(key) + [QUOTE]) + [COLON] + ([QUOTE] + Escape(text) + [QUOTE])) + [CLOSE];
      [123, 34] + Escape(key) + [34, 58, 34] + Escape(text) + [34, 125];
    }
    calc {
      Stringify([n]);
      [OPEN] + (([QUOTE] + Escape(key) + [QUOTE]) + [COLON] + NULL) + [CLOSE];
      [123, 34] + Escape(key) + [34, 58, 110, 117, 108, 108, 125];
    }
  }

  /** Longer objects: the properties of one, a comma, the properties of the other. */
  lemma {:induction false} PropertiesAreJoined(p: seq<Entry>, q: seq<Entry>)
    requires p != [] && q != []
    ensures var front, back := Stringify(p), Stringify(q);
            Stringify(p + q) == front[..|front| - 1] + [44] + back[1..]
  {
    hide PrintEntry;
    EntriesJoined(p, q);
  }

  lemma {:induction false} EntriesJoined(p: seq<Entry>, q: seq<Entry>)
    requires p != [] && q != []
    ensures PrintEntries(p + q) == PrintEntries(p) + [44] + PrintEntries(q)
    decreases |p|
  {
    hide PrintEntry;
    assert (p + q)[1..] == p[1..] + q;
    if |p| == 1 {
      assert (p + q)[1..] == q;
    } else {
      EntriesJoined(p[1..], q);
    }
  }
}
