/**
 `JSON.stringify` on flat objects whose values are strings or null (the shape of
 every payload the service signs or logs), and a parser that undoes it.

 Strings are quoted as RFC 8259, section 7 asks, with the refinement of ECMAScript
 2019 that a surrogate without a partner is escaped, so the text is always well-formed.
*/
module Json {
  import opened Wrappers
  import opened Bytes
  import opened Unicode
  import Hex

  datatype Value = Null | Str(text: Text)

  datatype Entry = Entry(key: Text, value: Value)

  /** The properties of an object in their own order; no two share a key. */
  type Object = p: seq<Entry> | DistinctKeys(p)

  ghost predicate DistinctKeys(p: seq<Entry>)
  {
    forall i, j :: 0 <= i < j < |p| ==> p[i].key != p[j].key
  }

  const QUOTE: Unit := 34
  const BACKSLASH: Unit := 92
  const COMMA: Unit := 44
  const COLON: Unit := 58
  const OPEN: Unit := 123
  const CLOSE: Unit := 125
  const NULL: Text := [110, 117, 108, 108]

  // ---- printer -----------------------------------------------------------

  function Hex4(u: Unit): (t: Text)
    ensures |t| == 4
  {
    [Hex.Digit(u / 0x1000), Hex.Digit(u / 0x100 % 16), Hex.Digit(u / 0x10 % 16), Hex.Digit(u % 16)]
  }

  /** The letter of a two-character escape, or 0 when the unit has none. */
  function ShortEscape(u: Unit): Unit
  {
    match u
    case 8 => 98
    case 9 => 116
    case 10 => 110
    case 12 => 102
    case 13 => 114
    case 34 => 34
    case 92 => 92
    case _ => 0
  }

  /** One code unit that is not part of a surrogate pair. */
  function EscapeUnit(u: Unit): (t: Text)
    ensures t != []
  {
    if ShortEscape(u) != 0 then [BACKSLASH, ShortEscape(u)]
    else if u < 0x20 || IsSurrogate(u) then [BACKSLASH, 117] + Hex4(u)
    else [u]
  }

  function Escape(s: Text): Text
  {
    if s == [] then []
    else if StartsWithPair(s) then s[..2] + Escape(s[2..])
    else EscapeUnit(s[0]) + Escape(s[1..])
  }

  function Quote(s: Text): Text { [QUOTE] + Escape(s) + [QUOTE] }

  function PrintValue(v: Value): Text { if v.Null? then NULL else Quote(v.text) }

  function PrintEntry(e: Entry): Text { Quote(e.key) + [COLON] + PrintValue(e.value) }

  function PrintEntries(p: seq<Entry>): Text
  {
    if p == [] then []
    else if |p| == 1 then PrintEntry(p[0])
    else PrintEntry(p[0]) + [COMMA] + PrintEntries(p[1..])
  }

  function Stringify(p: seq<Entry>): Text { [OPEN] + PrintEntries(p) + [CLOSE] }

  // ---- parser ------------------------------------------------------------

  function Read4(t: Text): Option<Unit>
    requires 4 <= |t|
  {
    var a, b, c, d := Hex.Value(t[0]), Hex.Value(t[1]), Hex.Value(t[2]), Hex.Value(t[3]);
    if a.Some? && b.Some? && c.Some? && d.Some?
    then Some(a.value * 0x1000 + b.value * 0x100 + c.value * 0x10 + d.value) else None
  }

  function LongEscape(u: Unit): Option<Unit>
  {
    match u
    case 98 => Some(8)
    case 116 => Some(9)
    case 110 => Some(10)
    case 102 => Some(12)
    case 114 => Some(13)
    case 34 => Some(34)
    case 92 => Some(92)
    case _ => None
  }

  /** One possibly escaped unit off the front. */
  function ReadUnit(t: Text): (r: Option<(Unit, Text)>)
    ensures r.Some? ==> |r.value.1| < |t|
  {
    if t == [] then None
    else if t[0] != BACKSLASH then Some((t[0], t[1..]))
    else if |t| < 2 then None
    else if t[1] == 117 then
      if |t| < 6 || Read4(t[2..]).None? then None else Some((Read4(t[2..]).value, t[6..]))
    else if LongEscape(t[1]).Some? then Some((LongEscape(t[1]).value, t[2..]))
    else None
  }

  /** The rest of a string whose opening quote has been read. */
  function ReadString(t: Text): (r: Option<(Text, Text)>)
    ensures r.Some? ==> |r.value.1| < |t|
    decreases |t|
  {
    if t == [] then None
    else if t[0] == QUOTE then Some(([], t[1..]))
    else
      match ReadUnit(t)
      case None => None
      case Some((u, rest)) =>
        match ReadString(rest)
        case None => None
        case Some((s, after)) => Some(([u] + s, after))
  }

  function ReadValue(t: Text): (r: Option<(Value, Text)>)
    ensures r.Some? ==> |r.value.1| < |t|
  {
    if NULL <= t then Some((Null, t[4..]))
    else if t != [] && t[0] == QUOTE then
      match ReadString(t[1..])
      case None => None
      case Some((s, rest)) => Some((Str(s), rest))
    else None
  }

  function ReadEntry(t: Text): (r: Option<(Entry, Text)>)
    ensures r.Some? ==> |r.value.1| < |t|
  {
    if t == [] || t[0] != QUOTE then None else
    match ReadString(t[1..])
    case None => None
    case Some((key, rest)) =>
      if rest == [] || rest[0] != COLON then None else
      match ReadValue(rest[1..])
      case None => None
      case Some((value, after)) => Some((Entry(key, value), after))
  }

  /** One or more entries separated by commas; what follows them is returned. */
  function ReadEntries(t: Text): (r: Option<(seq<Entry>, Text)>)
    decreases |t|
  {
    match ReadEntry(t)
    case None => None
    case Some((e, rest)) =>
      if rest == [] || rest[0] != COMMA then Some(([e], rest)) else
      match ReadEntries(rest[1..])
      case None => None
      case Some((es, after)) => Some(([e] + es, after))
  }

  function Parse(t: Text): Option<seq<Entry>>
  {
    if t == [OPEN, CLOSE] then Some([])
    else if t == [] || t[0] != OPEN then None
    else
      match ReadEntries(t[1..])
      case None => None
      case Some((es, rest)) => if rest == [CLOSE] then Some(es) else None
  }

  // ---- the parser undoes the printer --------------------------------------

  lemma Read4OfHex4(u: Unit)
    ensures Read4(Hex4(u)) == Some(u)
  {
    hide Hex.Digit, Hex.Value;
    Hex.ValueOfDigit(u / 0x1000);
    Hex.ValueOfDigit(u / 0x100 % 16);
    Hex.ValueOfDigit(u / 0x10 % 16);
    Hex.ValueOfDigit(u % 16);
    assert u / 0x100 == u / 0x10 / 0x10 && u / 0x1000 == u / 0x100 / 0x10;
  }

  lemma ReadUnitOfEscape(u: Unit, rest: Text)
    ensures ReadUnit(EscapeUnit(u) + rest) == Some((u, rest))
    ensures EscapeUnit(u) + rest != [] && (EscapeUnit(u) + rest)[0] != QUOTE
  {
    hide Hex4, Read4;
    Read4OfHex4(u);
    var t := [BACKSLASH, 117] + Hex4(u) + rest;
    assert t[2..][..4] == Hex4(u) && t[6..] == rest;
    Read4Prefix(t[2..]);
    assert ([u] + rest)[1..] == rest;
    assert ([BACKSLASH, ShortEscape(u)] + rest)[2..] == rest;
  }

  lemma Read4Prefix(t: Text)
    requires 4 <= |t|
    ensures Read4(t) == Read4(t[..4])
  {
  }

  lemma {:induction false} ReadStringOfEscape(s: Text, rest: Text)
    ensures ReadString(Escape(s) + [QUOTE] + rest) == Some((s, rest))
    decreases |s|
  {
    hide ReadUnit, EscapeUnit;
    if s == [] {
      assert ([QUOTE] + rest)[1..] == rest;
      assert Escape(s) + [QUOTE] + rest == [QUOTE] + rest;
    } else if StartsWithPair(s) {
      var after := Escape(s[2..]) + [QUOTE] + rest;
      ReadStringOfEscape(s[2..], rest);
      assert Escape(s) + [QUOTE] + rest == [s[0]] + ([s[1]] + after);
      ReadRawUnit(s[1], after);
      ReadRawUnit(s[0], [s[1]] + after);
      assert s == [s[0]] + ([s[1]] + s[2..]);
    } else {
      var after := Escape(s[1..]) + [QUOTE] + rest;
      ReadStringOfEscape(s[1..], rest);
      ReadUnitOfEscape(s[0], after);
      assert Escape(s) + [QUOTE] + rest == EscapeUnit(s[0]) + after;
      ReadEscapedUnit(EscapeUnit(s[0]) + after, s[0], after);
      assert s == [s[0]] + s[1..];
    }
  }

  lemma ReadEscapedUnit(t: Text, u: Unit, after: Text)
    requires t != [] && t[0] != QUOTE && ReadUnit(t) == Some((u, after)) && ReadString(after).Some?
    ensures ReadString(t) == Some(([u] + ReadString(after).value.0, ReadString(after).value.1))
  {
  }

  lemma ReadRawUnit(u: Unit, after: Text)
    requires IsSurrogate(u) && ReadString(after).Some?
    ensures ReadString([u] + after) == Some(([u] + ReadString(after).value.0, ReadString(after).value.1))
  {
  }

  lemma ReadValueOfPrint(v: Value, rest: Text)
    ensures ReadValue(PrintValue(v) + rest) == Some((v, rest))
  {
    hide ReadString, Escape;
    var t := PrintValue(v) + rest;
    if v.Null? {
      assert t[..4] == NULL && t[4..] == rest;
    } else {
      ReadStringOfEscape(v.text, rest);
      assert t[0] == QUOTE && NULL[0] == 110;
      assert t[1..] == Escape(v.text) + [QUOTE] + rest;
    }
  }

  lemma ReadEntryOfPrint(e: Entry, rest: Text)
    ensures ReadEntry(PrintEntry(e) + rest) == Some((e, rest))
  {
    hide ReadString, Escape, ReadValue, PrintValue;
    var t := PrintEntry(e) + rest;
    var tail := [COLON] + (PrintValue(e.value) + rest);
    ReadStringOfEscape(e.key, tail);
    assert t == [QUOTE] + (Escape(e.key) + [QUOTE] + tail);
    assert t[1..] == Escape(e.key) + [QUOTE] + tail;
    ReadValueOfPrint(e.value, rest);
    assert tail[1..] == PrintValue(e.value) + rest;
  }

  lemma {:induction false} ReadEntriesOfPrint(p: seq<Entry>)
    requires p != []
    ensures ReadEntries(PrintEntries(p) + [CLOSE]) == Some((p, [CLOSE]))
    decreases |p|
  {
    hide ReadEntry, PrintEntry;
    if |p| == 1 {
      ReadEntryOfPrint(p[0], [CLOSE]);
      assert p == [p[0]];
      LastEntry(PrintEntries(p) + [CLOSE], p[0], [CLOSE]);
    } else {
      var after := PrintEntries(p[1..]) + [CLOSE];
      ReadEntriesOfPrint(p[1..]);
      assert PrintEntries(p) + [CLOSE] == PrintEntry(p[0]) + ([COMMA] + after);
      ReadEntryOfPrint(p[0], [COMMA] + after);
      ReadEntriesStep(PrintEntries(p) + [CLOSE], p[0], after);
      assert p == [p[0]] + p[1..];
    }
  }

  lemma LastEntry(t: Text, e: Entry, rest: Text)
    requires ReadEntry(t) == Some((e, rest)) && rest != [] && rest[0] != COMMA
    ensures ReadEntries(t) == Some(([e], rest))
  {
  }

  lemma ReadEntriesStep(t: Text, e: Entry, after: Text)
    requires ReadEntry(t) == Some((e, [COMMA] + after)) && ReadEntries(after).Some?
    ensures ReadEntries(t) == Some(([e] + ReadEntries(after).value.0, ReadEntries(after).value.1))
  {
  }

  /** What was printed can be read back: keys, values and order. */
  lemma ParseOfStringify(p: seq<Entry>)
    ensures Parse(Stringify(p)) == Some(p)
  {
    hide ReadEntries, PrintEntries;
    NothingToPrint();
    if p != [] {
      ReadEntriesOfPrint(p);
      assert Stringify(p)[1..] == PrintEntries(p) + [CLOSE];
      assert [OPEN, CLOSE][1..] == [CLOSE];
    }
  }

  lemma NothingToPrint()
    ensures Stringify([]) == [OPEN, CLOSE]
    ensures ReadEntries([CLOSE]).None?
  {
  }

  lemma StringifyInjective(p: seq<Entry>, q: seq<Entry>)
    requires Stringify(p) == Stringify(q)
    ensures p == q
  {
    ParseOfStringify(p);
    ParseOfStringify(q);
  }

  // ---- the text is well-formed, so its UTF-8 bytes are as good as itself ---

  lemma PlainIsWellFormed(t: Text)
    requires forall i :: 0 <= i < |t| ==> !IsSurrogate(t[i])
    ensures IsWellFormed(t)
  {
  }

  lemma {:induction false} EscapeIsWellFormed(s: Text)
    ensures IsWellFormed(Escape(s))
    decreases |s|
  {
    if s != [] {
      if StartsWithPair(s) {
        EscapeIsWellFormed(s[2..]);
        assert Escape(s)[2..] == Escape(s[2..]);
      } else {
        EscapeIsWellFormed(s[1..]);
        PlainIsWellFormed(EscapeUnit(s[0]));
        WellFormedConcat(EscapeUnit(s[0]), Escape(s[1..]));
      }
    }
  }

  lemma QuoteIsWellFormed(s: Text)
    ensures IsWellFormed(Quote(s))
  {
    EscapeIsWellFormed(s);
    PlainIsWellFormed([QUOTE]);
    WellFormedConcat(Escape(s), [QUOTE]);
    WellFormedConcat([QUOTE], Escape(s) + [QUOTE]);
    assert Quote(s) == [QUOTE] + (Escape(s) + [QUOTE]);
  }

  lemma EntryIsWellFormed(e: Entry)
    ensures IsWellFormed(PrintEntry(e))
  {
    QuoteIsWellFormed(e.key);
    if e.value.Str? {
      QuoteIsWellFormed(e.value.text);
    } else {
      PlainIsWellFormed(NULL);
    }
    PlainIsWellFormed([COLON]);
    WellFormedConcat([COLON], PrintValue(e.value));
    WellFormedConcat(Quote(e.key), [COLON] + PrintValue(e.value));
    assert PrintEntry(e) == Quote(e.key) + ([COLON] + PrintValue(e.value));
  }

  lemma {:induction false} EntriesAreWellFormed(p: seq<Entry>)
    ensures IsWellFormed(PrintEntries(p))
    decreases |p|
  {
    if p != [] {
      EntryIsWellFormed(p[0]);
      if |p| != 1 {
        EntriesAreWellFormed(p[1..]);
        PlainIsWellFormed([COMMA]);
        WellFormedConcat([COMMA], PrintEntries(p[1..]));
        WellFormedConcat(PrintEntry(p[0]), [COMMA] + PrintEntries(p[1..]));
        assert PrintEntries(p) == PrintEntry(p[0]) + ([COMMA] + PrintEntries(p[1..]));
      }
    }
  }

  lemma StringifyIsWellFormed(p: seq<Entry>)
    ensures IsWellFormed(Stringify(p))
  {
    EntriesAreWellFormed(p);
    PlainIsWellFormed([OPEN]);
    PlainIsWellFormed([CLOSE]);
    WellFormedConcat(PrintEntries(p), [CLOSE]);
    WellFormedConcat([OPEN], PrintEntries(p) + [CLOSE]);
    assert Stringify(p) == [OPEN] + (PrintEntries(p) + [CLOSE]);
  }

  /** Equal bytes on the wire mean equal properties in equal order. */
  lemma BytesInjective(p: seq<Entry>, q: seq<Entry>)
    requires Utf8(Stringify(p)) == Utf8(Stringify(q))
    ensures p == q
  {
    StringifyIsWellFormed(p);
    StringifyIsWellFormed(q);
    Utf8Injective(Stringify(p), Stringify(q));
    StringifyInjective(p, q);
  }
}
