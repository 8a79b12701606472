/**
 The two orders in which the properties of a payload get written: the order of
 `Array.prototype.sort`, and the order a PostgreSQL `jsonb` column keeps.
*/
module KeyOrder {
  import opened Unicode
  import opened Json

  datatype Order =
    | ByUnits         // UTF-16 code units, as `Object.keys(payload).sort()` compares
    | ByStoredLength  // UTF-8 length first, then bytes, as `jsonb` compares

  predicate Lex(a: seq<int>, b: seq<int>)
  {
    a == [] || (b != [] && (a[0] < b[0] || (a[0] == b[0] && Lex(a[1..], b[1..]))))
  }

  /** Texts with the same bytes but different units (ill-formed ones, which `jsonb` refuses) are told apart by their units. */
  predicate Le(o: Order, a: Text, b: Text)
  {
    match o
    case ByUnits => Lex(a, b)
    case ByStoredLength =>
      var x, y := Utf8(a), Utf8(b);
      if |x| != |y| then |x| < |y| else if x != y then Lex(x, y) else Lex(a, b)
  }

  lemma {:induction false} LexTotal(a: seq<int>, b: seq<int>)
    ensures Lex(a, b) || Lex(b, a)
    ensures Lex(a, b) && Lex(b, a) ==> a == b
    decreases |a|
  {
    if a != [] && b != [] && a[0] == b[0] {
      LexTotal(a[1..], b[1..]);
      assert a == [a[0]] + a[1..] && b == [b[0]] + b[1..];
    }
  }

  lemma {:induction false} LexTransitive(a: seq<int>, b: seq<int>, c: seq<int>)
    requires Lex(a, b) && Lex(b, c)
    ensures Lex(a, c)
    decreases |a|
  {
    if a != [] && a[0] == b[0] == c[0] {
      LexTransitive(a[1..], b[1..], c[1..]);
    }
  }

  lemma LeTotal(o: Order, a: Text, b: Text)
    ensures Le(o, a, b) || Le(o, b, a)
    ensures Le(o, a, b) && Le(o, b, a) ==> a == b
  {
    LexTotal(a, b);
    LexTotal(Utf8(a), Utf8(b));
  }

  lemma LeTransitive(o: Order, a: Text, b: Text, c: Text)
    requires Le(o, a, b) && Le(o, b, c)
    ensures Le(o, a, c)
  {
    hide Utf8, Lex;
    var x, y, z := Utf8(a), Utf8(b), Utf8(c);
    if Lex(a, b) && Lex(b, c) { LexTransitive(a, b, c); }
    if Lex(x, y) && Lex(y, z) { LexTransitive(x, y, z); }
    LexTotal(x, y);
    LexTotal(y, z);
    LexTotal(x, z);
  }

  // ---- sorting keys ------------------------------------------------------

  ghost predicate Sorted(o: Order, keys: seq<Text>)
  {
    forall i, j :: 0 <= i < j < |keys| ==> Le(o, keys[i], keys[j])
  }

  ghost predicate Distinct(keys: seq<Text>)
  {
    forall i, j :: 0 <= i < j < |keys| ==> keys[i] != keys[j]
  }

  function Insert(o: Order, k: Text, keys: seq<Text>): (r: seq<Text>)
    ensures |r| == |keys| + 1
    ensures forall x :: x in r <==> x == k || x in keys
  {
    if keys == [] then [k]
    else if Le(o, k, keys[0]) then [k] + keys
    else [keys[0]] + Insert(o, k, keys[1..])
  }

  function SortKeys(o: Order, keys: seq<Text>): (r: seq<Text>)
    ensures |r| == |keys|
    ensures forall x :: x in r <==> x in keys
  {
    if keys == [] then [] else Insert(o, keys[0], SortKeys(o, keys[1..]))
  }

  lemma {:induction false} InsertSorts(o: Order, k: Text, keys: seq<Text>)
    requires Sorted(o, keys)
    ensures Sorted(o, Insert(o, k, keys))
  {
    if keys == [] {
    } else if Le(o, k, keys[0]) {
      forall j | 0 <= j < |keys| ensures Le(o, k, keys[j]) {
        if j != 0 { LeTransitive(o, k, keys[0], keys[j]); }
      }
    } else {
      InsertSorts(o, k, keys[1..]);
      LeTotal(o, k, keys[0]);
      var rest := Insert(o, k, keys[1..]);
      forall j | 0 <= j < |rest| ensures Le(o, keys[0], rest[j]) {
        assert rest[j] in rest;
      }
    }
  }

  lemma {:induction false} SortKeysSorts(o: Order, keys: seq<Text>)
    ensures Sorted(o, SortKeys(o, keys))
  {
    if keys != [] {
      SortKeysSorts(o, keys[1..]);
      InsertSorts(o, keys[0], SortKeys(o, keys[1..]));
    }
  }

  lemma {:induction false} InsertKeepsDistinct(o: Order, k: Text, keys: seq<Text>)
    requires Distinct(keys) && k !in keys
    ensures Distinct(Insert(o, k, keys))
  {
    if keys != [] && !Le(o, k, keys[0]) {
      InsertKeepsDistinct(o, k, keys[1..]);
      assert keys[0] !in Insert(o, k, keys[1..]);
    }
  }

  lemma {:induction false} SortKeysKeepsDistinct(o: Order, keys: seq<Text>)
    requires Distinct(keys)
    ensures Distinct(SortKeys(o, keys))
  {
    if keys != [] {
      SortKeysKeepsDistinct(o, keys[1..]);
      InsertKeepsDistinct(o, keys[0], SortKeys(o, keys[1..]));
    }
  }

  /** A set of keys has one sorted listing, so nothing depends on the sorting algorithm. */
  lemma {:induction false} SortedListingIsUnique(o: Order, a: seq<Text>, b: seq<Text>)
    requires Sorted(o, a) && Sorted(o, b) && Distinct(a) && Distinct(b)
    requires forall x :: x in a <==> x in b
    ensures a == b
  {
    assert a != [] ==> a[0] in b;
    assert b != [] ==> b[0] in a;
    if a != [] {
      LeTotal(o, a[0], b[0]);
      assert a[0] == b[0];
      forall x ensures x in a[1..] <==> x in b[1..] {
        assert x in a <==> x == a[0] || x in a[1..];
        assert x in b <==> x == b[0] || x in b[1..];
      }
      SortedListingIsUnique(o, a[1..], b[1..]);
      assert a == [a[0]] + a[1..] && b == [b[0]] + b[1..];
    }
  }

  // ---- objects as maps ---------------------------------------------------

  function Keys(p: seq<Entry>): (keys: seq<Text>)
    ensures |keys| == |p|
  {
    seq(|p|, i requires 0 <= i < |p| => p[i].key)
  }

  /** The key-to-value map an object denotes. */
  function AsMap(p: seq<Entry>): (m: map<Text, Value>)
    ensures forall k :: k in m <==> k in Keys(p)
  {
    if p == [] then map[] else
    assert Keys(p) == [p[0].key] + Keys(p[1..]);
    AsMap(p[1..])[p[0].key := p[0].value]
  }

  lemma {:induction false} MapAt(p: Object, i: nat)
    requires i < |p|
    ensures p[i].key in AsMap(p) && AsMap(p)[p[i].key] == p[i].value
    decreases |p|
  {
    if i != 0 {
      MapAt(p[1..], i - 1);
    }
  }

  /** The properties named by `keys`, in that order. */
  function Pick(m: map<Text, Value>, keys: seq<Text>): (p: seq<Entry>)
    requires forall k :: k in keys ==> k in m
    ensures |p| == |keys|
  {
    seq(|keys|, i requires 0 <= i < |keys| => Entry(keys[i], m[keys[i]]))
  }

  /** The same properties, written in the given order of keys. */
  function Reorder(o: Order, p: Object): (q: Object)
  {
    var keys := SortKeys(o, Keys(p));
    SortKeysKeepsDistinct(o, Keys(p));
    assert Distinct(keys);
    Pick(AsMap(p), keys)
  }

  lemma KeysOfReorder(o: Order, p: Object)
    ensures Keys(Reorder(o, p)) == SortKeys(o, Keys(p))
  {
  }

  lemma ReorderKeepsMap(o: Order, p: Object)
    ensures AsMap(Reorder(o, p)) == AsMap(p)
  {
    hide SortKeys, AsMap;
    var q := Reorder(o, p);
    KeysOfReorder(o, p);
    forall k | k in AsMap(p) ensures AsMap(q)[k] == AsMap(p)[k] {
      var i :| 0 <= i < |Keys(q)| && Keys(q)[i] == k;
      MapAt(q, i);
    }
  }

  /** Reordering forgets exactly the order: two objects agree afterwards iff they are the same map. */
  lemma ReorderIsCanonical(o: Order, p: Object, q: Object)
    ensures Reorder(o, p) == Reorder(o, q) <==> AsMap(p) == AsMap(q)
  {
    ReorderKeepsMap(o, p);
    ReorderKeepsMap(o, q);
    if AsMap(p) == AsMap(q) {
      SameSortedKeys(o, p, q);
    }
  }

  lemma SameSortedKeys(o: Order, p: Object, q: Object)
    requires AsMap(p) == AsMap(q)
    ensures SortKeys(o, Keys(p)) == SortKeys(o, Keys(q))
  {
    hide SortKeys;
    assert forall k :: k in Keys(p) <==> k in AsMap(p);
    assert forall k :: k in Keys(q) <==> k in AsMap(q);
    SortKeysSorts(o, Keys(p));
    SortKeysSorts(o, Keys(q));
    SortKeysKeepsDistinct(o, Keys(p));
    SortKeysKeepsDistinct(o, Keys(q));
    SortedListingIsUnique(o, SortKeys(o, Keys(p)), SortKeys(o, Keys(q)));
  }

  /** An object is left alone exactly when its keys are in order already. */
  lemma ReorderFixes(o: Order, p: Object)
    ensures Reorder(o, p) == p <==> Sorted(o, Keys(p))
  {
    hide SortKeys, AsMap;
    KeysOfReorder(o, p);
    SortKeysSorts(o, Keys(p));
    if Sorted(o, Keys(p)) {
      SortKeysKeepsDistinct(o, Keys(p));
      SortedListingIsUnique(o, SortKeys(o, Keys(p)), Keys(p));
      forall i | 0 <= i < |p| ensures Reorder(o, p)[i] == p[i] { MapAt(p, i); }
    }
  }

  // ---- what the two orders are -----------------------------------------------

  /** `a` is cut short where `b` goes on, or is smaller where the two first differ. */
  predicate ComesBefore(a: seq<int>, b: seq<int>)
  {
    (|a| < |b| && a == b[..|a|]) || exists k | 0 <= k < |a| && k < |b| :: DifferAt(a, b, k)
  }

  predicate DifferAt(a: seq<int>, b: seq<int>, k: nat)
    requires k < |a| && k < |b|
  {
    a[..k] == b[..k] && a[k] < b[k]
  }

  lemma {:induction false} LexIsFirstDifference(a: seq<int>, b: seq<int>)
    ensures Lex(a, b) <==> a == b || ComesBefore(a, b)
    decreases |a|
  {
    if a != [] && b != [] {
      var x, y := a[1..], b[1..];
      if a[0] < b[0] {
        assert DifferAt(a, b, 0);
      } else if a[0] == b[0] {
        LexIsFirstDifference(x, y);
        assert a == [a[0]] + x && b == [b[0]] + y;
        if k :| 0 <= k < |x| && k < |y| && DifferAt(x, y, k) {
          assert a[..k + 1] == [a[0]] + x[..k] && b[..k + 1] == [b[0]] + y[..k];
          assert DifferAt(a, b, k + 1);
        }
        if k :| 0 <= k < |a| && k < |b| && DifferAt(a, b, k) {
          assert a[..k][1..] == x[..k - 1] && b[..k][1..] == y[..k - 1];
          assert DifferAt(x, y, k - 1);
        }
      } else {
        forall k | 0 <= k < |a| && k < |b| ensures !DifferAt(a, b, k) {
          assert k > 0 ==> a[..k][0] == a[0] && b[..k][0] == b[0];
        }
      }
    }
  }

  /** Reordering keeps the properties themselves. */
  lemma ReorderKeepsEntries(o: Order, p: Object, e: Entry)
    ensures |Reorder(o, p)| == |p| && (e in Reorder(o, p) <==> e in p)
  {
    hide SortKeys, AsMap;
    var q := Reorder(o, p);
    KeysOfReorder(o, p);
    ReorderKeepsMap(o, p);
    if e in p {
      var i :| 0 <= i < |p| && p[i] == e;
      MapAt(p, i);
      assert e.key in Keys(q);
      var j :| 0 <= j < |q| && Keys(q)[j] == e.key;
      MapAt(q, j);
    }
    if e in q {
      var j :| 0 <= j < |q| && q[j] == e;
      MapAt(q, j);
      assert e.key in AsMap(p);
      var i :| 0 <= i < |p| && Keys(p)[i] == e.key;
      MapAt(p, i);
    }
  }

  /** Sorted for signing: keys ascend by their UTF-16 code units. */
  lemma SignedKeysAscend(p: Object, i: nat, j: nat)
    requires i < j < |p|
    ensures |Reorder(ByUnits, p)| == |p| && ComesBefore(Reorder(ByUnits, p)[i].key, Reorder(ByUnits, p)[j].key)
  {
    hide SortKeys, AsMap, Lex, ComesBefore;
    var q := Reorder(ByUnits, p);
    KeysOfReorder(ByUnits, p);
    SortKeysSorts(ByUnits, Keys(p));
    assert Le(ByUnits, Keys(q)[i], Keys(q)[j]);
    LexIsFirstDifference(q[i].key, q[j].key);
  }

  /** Stored as `jsonb`: keys ascend by the length of their UTF-8 bytes, and then by the bytes. */
  lemma StoredKeysAscend(p: Object, i: nat, j: nat)
    requires i < j < |p| && forall k :: 0 <= k < |p| ==> IsWellFormed(p[k].key)
    ensures |Reorder(ByStoredLength, p)| == |p|
    ensures var x, y := Utf8(Reorder(ByStoredLength, p)[i].key), Utf8(Reorder(ByStoredLength, p)[j].key);
            |x| < |y| || (|x| == |y| && ComesBefore(x, y))
  {
    hide SortKeys, AsMap, Lex, ComesBefore, Utf8;
    var q := Reorder(ByStoredLength, p);
    KeysOfReorder(ByStoredLength, p);
    SortKeysSorts(ByStoredLength, Keys(p));
    assert Le(ByStoredLength, Keys(q)[i], Keys(q)[j]);
    var x, y := Utf8(q[i].key), Utf8(q[j].key);
    assert Keys(q)[i] in Keys(p) && Keys(q)[j] in Keys(p);
    if x == y {
      Utf8Injective(q[i].key, q[j].key);
    }
    LexIsFirstDifference(x, y);
  }
}
