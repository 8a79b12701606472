/**
 The hash-chained audit log: the writer that appends rows, and the independent
 verifier that recomputes the chain.

 SHA-256 is a parameter: any function from bytes to 64 lower-case hexadecimal
 digits. No injectivity is assumed; results that need it end in "or these two
 inputs, taken from the logs, collide". An append is one atomic step, as the writer's transaction intends.
*/
module AuditLog {
  import opened Wrappers
  import opened Bytes
  import opened Unicode
  import opened Json
  import opened KeyOrder
  import opened Utf8Text
  import Hex

  const NO_DIGEST: Text := seq(64, _ => 48)

  type Digest = d: Text | |d| == 64 && forall i :: 0 <= i < |d| ==> Hex.IsLowerDigit(d[i])
    witness NO_DIGEST

  type Sha = seq<Byte> -> Digest

  /** 'GENESIS' */
  const GENESIS: Text := [71, 69, 78, 69, 83, 73, 83]

  datatype Row = Row(id: nat, entryType: Text, payload: Object, prevHash: Option<Text>, thisHash: Text)

  datatype Fault = PrevHashMismatch | HashMismatch

  /** What the verifier prints: valid up to the last id and the number of rows, or the first broken row. */
  datatype Verdict = Valid(lastId: nat, entries: nat) | Broken(row: nat, fault: Fault)

  // ---- hashing -----------------------------------------------------------

  function HashInput(prevHash: Text, payload: seq<Entry>): seq<Byte>
  {
    Utf8(prevHash + Stringify(payload))
  }

  function ComputeHash(sha: Sha, prevHash: Text, payload: seq<Entry>): Digest
  {
    sha(HashInput(prevHash, payload))
  }

  /** What can stand before the payload in a hash input. */
  predicate IsLink(t: Text) { t == GENESIS || (|t| == 64 && forall i :: 0 <= i < |t| ==> Hex.IsLowerDigit(t[i])) }

  /** `GENESIS` is not the start of any digest, so the input splits in one way, and UTF-8 loses nothing of it. */
  lemma HashInputIsExact(a: Text, p: Object, b: Text, q: Object)
    requires IsLink(a) && IsLink(b) && HashInput(a, p) == HashInput(b, q)
    ensures a == b && p == q
  {
    hide Stringify, Utf8;
    LinkIsWellFormed(a, p);
    LinkIsWellFormed(b, q);
    Utf8Injective(a + Stringify(p), b + Stringify(q));
    var x, y := a + Stringify(p), b + Stringify(q);
    assert a != [] && b != [] && a[0] == x[0] && b[0] == y[0];
    assert Hex.IsLowerDigit(x[0]) <==> a != GENESIS;
    assert |a| == |b| && x[..|a|] == a && y[..|b|] == b;
    assert x[|a|..] == Stringify(p) && y[|b|..] == Stringify(q);
    StringifyInjective(p, q);
  }

  lemma LinkIsWellFormed(a: Text, p: seq<Entry>)
    requires IsLink(a)
    ensures IsWellFormed(a + Stringify(p))
  {
    PlainIsWellFormed(a);
    StringifyIsWellFormed(p);
    WellFormedConcat(a, Stringify(p));
  }

  /**
   Two different inputs with one digest. Such inputs exist for every hash function;
   what the results below exhibit is two particular ones, taken from the logs at hand.
  */
  predicate Collide(sha: Sha, x: seq<Byte>, y: seq<Byte>) { x != y && sha(x) == sha(y) }

  /** Equal hashes come from equal links and equal payloads, or the two inputs collide. */
  lemma EqualHashes(sha: Sha, a: Text, p: Object, b: Text, q: Object)
    requires IsLink(a) && IsLink(b) && ComputeHash(sha, a, p) == ComputeHash(sha, b, q)
    ensures (a == b && p == q) || Collide(sha, HashInput(a, p), HashInput(b, q))
  {
    hide HashInput;
    if HashInput(a, p) == HashInput(b, q) {
      HashInputIsExact(a, p, b, q);
    }
  }

  // ---- the verifier --------------------------------------------------------

  /** The hash the next row has to name. */
  function LinkAt(rows: seq<Row>, i: nat): Text
    requires i <= |rows|
  {
    if i == 0 then GENESIS else rows[i - 1].thisHash
  }

  /** What the verifier hashes at row `i`. */
  function InputAt(rows: seq<Row>, i: nat): seq<Byte>
    requires i < |rows|
  {
    HashInput(LinkAt(rows, i), rows[i].payload)
  }

  /** A row of one log and a row of the other whose hash inputs collide. */
  ghost predicate CollisionBetween(sha: Sha, a: seq<Row>, b: seq<Row>)
  {
    exists i, j :: 0 <= i < |a| && 0 <= j < |b| && Collide(sha, InputAt(a, i), InputAt(b, j))
  }

  function StoredLink(row: Row): Text { if row.prevHash.Some? then row.prevHash.value else GENESIS }

  /** Row `i` names its predecessor and carries the hash of its own payload. */
  predicate RowFits(sha: Sha, rows: seq<Row>, i: nat)
    requires i < |rows|
  {
    && StoredLink(rows[i]) == LinkAt(rows, i)
    && rows[i].thisHash == ComputeHash(sha, LinkAt(rows, i), rows[i].payload)
  }

  predicate Accepted(sha: Sha, rows: seq<Row>)
  {
    forall i :: 0 <= i < |rows| ==> RowFits(sha, rows, i)
  }

  /** Row `i` breaks the chain and everything before it fits. */
  predicate FirstBreak(sha: Sha, rows: seq<Row>, i: nat)
    requires i < |rows|
  {
    !RowFits(sha, rows, i) && forall j :: 0 <= j < i ==> RowFits(sha, rows, j)
  }

  function FaultAt(rows: seq<Row>, i: nat): Fault
    requires i < |rows|
  {
    if StoredLink(rows[i]) != LinkAt(rows, i) then PrevHashMismatch else HashMismatch
  }

  /** The loop of the verification script. */
  method VerifyChain(sha: Sha, rows: seq<Row>) returns (v: Verdict)
    ensures v.Valid? <==> Accepted(sha, rows)
    ensures v.Valid? ==> v.entries == |rows| && v.lastId == if rows == [] then 0 else rows[|rows| - 1].id
    ensures v.Broken? ==>
              exists i :: 0 <= i < |rows| && FirstBreak(sha, rows, i) && v.row == rows[i].id && v.fault == FaultAt(rows, i)
  {
    hide ComputeHash;
    if |rows| == 0 {
      return Valid(0, 0);
    }
    var prevHash := GENESIS;
    for i := 0 to |rows|
      invariant prevHash == LinkAt(rows, i)
      invariant forall j :: 0 <= j < i ==> RowFits(sha, rows, j)
    {
      var row := rows[i];
      var storedPrevHash := if row.prevHash.Some? then row.prevHash.value else GENESIS;
      if storedPrevHash != prevHash {
        assert FirstBreak(sha, rows, i);
        return Broken(row.id, PrevHashMismatch);
      }
      var expected := ComputeHash(sha, prevHash, row.payload);
      if expected != row.thisHash {
        assert FirstBreak(sha, rows, i);
        return Broken(row.id, HashMismatch);
      }
      prevHash := row.thisHash;
    }
    v := Valid(rows[|rows| - 1].id, |rows|);
  }

  /** What the verifier compares at a row, and which of the two comparisons it reports. */
  lemma RowFitsIsExact(sha: Sha, rows: seq<Row>, i: nat)
    requires i < |rows|
    ensures var start: Text := [71, 69, 78, 69, 83, 73, 83];
            var link := if i == 0 then start else rows[i - 1].thisHash;
            var linked := rows[i].prevHash == Some(link) || (rows[i].prevHash == None && link == start);
            && (RowFits(sha, rows, i) <==> linked && rows[i].thisHash == sha(Utf8(link + Stringify(rows[i].payload))))
            && (FaultAt(rows, i) == PrevHashMismatch <==> !linked)
  {
    hide Stringify;
  }

  // ---- what acceptance commits to ------------------------------------------

  lemma LinksOfAccepted(sha: Sha, rows: seq<Row>, i: nat)
    requires Accepted(sha, rows) && i <= |rows|
    ensures IsLink(LinkAt(rows, i))
    ensures LinkAt(rows, i) == GENESIS <==> i == 0
  {
    if 0 < i {
      assert RowFits(sha, rows, i - 1);
      var hash: Digest := ComputeHash(sha, LinkAt(rows, i - 1), rows[i - 1].payload);
      assert |hash| == 64 && |GENESIS| == 7;
    }
  }

  /** Cutting rows off the end leaves an accepted log: truncation is not detected. */
  lemma PrefixIsAccepted(sha: Sha, rows: seq<Row>, n: nat)
    requires Accepted(sha, rows) && n <= |rows|
    ensures Accepted(sha, rows[..n])
  {
    forall i | 0 <= i < n ensures RowFits(sha, rows[..n], i) {
      assert RowFits(sha, rows, i);
      assert LinkAt(rows[..n], i) == LinkAt(rows, i);
    }
  }

  function Payloads(rows: seq<Row>): (ps: seq<Object>)
    ensures |ps| == |rows|
  {
    seq(|rows|, i requires 0 <= i < |rows| => rows[i].payload)
  }

  lemma PrefixCollision(sha: Sha, a: seq<Row>, m: nat, b: seq<Row>, n: nat)
    requires m <= |a| && n <= |b| && CollisionBetween(sha, a[..m], b[..n])
    ensures CollisionBetween(sha, a, b)
  {
    hide HashInput;
    var i, j :| 0 <= i < m && 0 <= j < n && Collide(sha, InputAt(a[..m], i), InputAt(b[..n], j));
    assert InputAt(a[..m], i) == InputAt(a, i) && InputAt(b[..n], j) == InputAt(b, j);
  }

  /**
   The last hash commits to the whole history: two accepted logs ending in the same
   hash have the same number of rows and the same payloads in the same order, or a row
   of one and a row of the other collide. The other direction holds outright.
  */
  lemma {:induction false} LastHashCommits(sha: Sha, a: seq<Row>, b: seq<Row>)
    requires Accepted(sha, a) && Accepted(sha, b)
    ensures LinkAt(a, |a|) == LinkAt(b, |b|) ==> Payloads(a) == Payloads(b) || CollisionBetween(sha, a, b)
    ensures Payloads(a) == Payloads(b) ==> LinkAt(a, |a|) == LinkAt(b, |b|)
    decreases |a|
  {
    hide ComputeHash, IsLink, HashInput;
    LinksOfAccepted(sha, a, |a|);
    LinksOfAccepted(sha, b, |b|);
    if a != [] && b != [] {
      var m, n := |a| - 1, |b| - 1;
      PrefixIsAccepted(sha, a, m);
      PrefixIsAccepted(sha, b, n);
      LastHashCommits(sha, a[..m], b[..n]);
      assert RowFits(sha, a, m) && RowFits(sha, b, n);
      assert LinkAt(a[..m], m) == LinkAt(a, m) && LinkAt(b[..n], n) == LinkAt(b, n);
      LinksOfAccepted(sha, a, m);
      LinksOfAccepted(sha, b, n);
      assert Payloads(a) == Payloads(a[..m]) + [a[m].payload] && Payloads(b) == Payloads(b[..n]) + [b[n].payload];
      assert Payloads(a)[..m] == Payloads(a[..m]) && Payloads(b)[..n] == Payloads(b[..n]);
      if LinkAt(a, |a|) == LinkAt(b, |b|) {
        EqualHashes(sha, LinkAt(a, m), a[m].payload, LinkAt(b, n), b[n].payload);
        assert Collide(sha, InputAt(a, m), InputAt(b, n)) ==> CollisionBetween(sha, a, b);
        if CollisionBetween(sha, a[..m], b[..n]) {
          PrefixCollision(sha, a, m, b, n);
        }
      }
    }
  }

  // ---- the writer ----------------------------------------------------------

  /** `jsonb` refuses the null character and surrogates without a partner. */
  predicate StorableText(t: Text) { IsWellFormed(t) && 0 !in t }

  predicate Storable(p: Object)
  {
    forall i :: 0 <= i < |p| ==> StorableText(p[i].key) && (p[i].value.Str? ==> StorableText(p[i].value.text))
  }

  /** What a `jsonb` column gives back: the same properties, in its own order of keys. */
  function Stored(p: Object): Object { Reorder(ByStoredLength, p) }

  function NewRow(sha: Sha, rows: seq<Row>, id: nat, entryType: Text, payload: Object): Row
  {
    var prevHash := LinkAt(rows, |rows|);
    Row(id, entryType, Stored(payload), if prevHash == GENESIS then None else Some(prevHash), ComputeHash(sha, prevHash, payload))
  }

  /** Row `i` was written for the payload `originals[i]`, hashed as given and stored as `jsonb`. */
  ghost predicate Written(sha: Sha, rows: seq<Row>, originals: seq<Object>)
  {
    && |originals| == |rows|
    && forall i :: 0 <= i < |rows| ==> RowWritten(sha, rows, i, originals[i])
  }

  ghost predicate RowWritten(sha: Sha, rows: seq<Row>, i: nat, original: Object)
    requires i < |rows|
  {
    && rows[i].payload == Stored(original)
    && StoredLink(rows[i]) == LinkAt(rows, i)
    && rows[i].thisHash == ComputeHash(sha, LinkAt(rows, i), original)
  }

  ghost predicate Increasing(rows: seq<Row>)
  {
    forall i, j :: 0 <= i < j < |rows| ==> rows[i].id < rows[j].id
  }

  lemma AppendKeepsWritten(sha: Sha, rows: seq<Row>, originals: seq<Object>, id: nat, entryType: Text, payload: Object)
    requires Written(sha, rows, originals)
    ensures Written(sha, rows + [NewRow(sha, rows, id, entryType, payload)], originals + [payload])
  {
    hide ComputeHash, Stored;
    var longer := rows + [NewRow(sha, rows, id, entryType, payload)];
    forall i | 0 <= i < |longer| ensures RowWritten(sha, longer, i, (originals + [payload])[i]) {
      assert LinkAt(longer, i) == LinkAt(rows, i);
      assert i < |rows| ==> RowWritten(sha, rows, i, originals[i]);
    }
  }

  /** An appended row: the previous hash, or none at first, and the SHA-256 of that hash, or of `GENESIS`, followed by the payload's JSON. */
  lemma NewRowIsExact(sha: Sha, rows: seq<Row>, originals: seq<Object>, id: nat, entryType: Text, payload: Object)
    requires Written(sha, rows, originals)
    ensures var row := NewRow(sha, rows, id, entryType, payload);
            && row.id == id && row.entryType == entryType && row.payload == Stored(payload)
            && (if rows == [] then row.prevHash == None && row.thisHash == sha(Utf8([71, 69, 78, 69, 83, 73, 83] + Stringify(payload)))
                else var last := rows[|rows| - 1];
                     row.prevHash == Some(last.thisHash) && row.thisHash == sha(Utf8(last.thisHash + Stringify(payload))))
  {
    hide Stored, Stringify;
    if rows != [] {
      var n := |rows| - 1;
      assert RowWritten(sha, rows, n, originals[n]);
      var hash: Digest := ComputeHash(sha, LinkAt(rows, n), originals[n]);
      assert |hash| == 64 && |GENESIS| == 7;
    }
  }

  /** The column takes exactly the payloads whose strings have their surrogates paired and no null character. */
  lemma StorableIsExact(p: Object)
    ensures Storable(p) <==>
              forall i :: 0 <= i < |p| ==>
                && IsPaired(p[i].key) && (forall k :: 0 <= k < |p[i].key| ==> p[i].key[k] != 0)
                && (p[i].value.Str? ==> IsPaired(p[i].value.text) && forall k :: 0 <= k < |p[i].value.text| ==> p[i].value.text[k] != 0)
  {
    hide IsPaired, IsWellFormed;
    forall i | 0 <= i < |p|
      ensures IsWellFormed(p[i].key) <==> IsPaired(p[i].key)
      ensures p[i].value.Str? ==> (IsWellFormed(p[i].value.text) <==> IsPaired(p[i].value.text))
    {
      WellFormedIsPaired(p[i].key);
      if p[i].value.Str? { WellFormedIsPaired(p[i].value.text); }
    }
  }

  class AuditTable {
    const sha: Sha
    var rows: seq<Row>
    var nextId: nat
    ghost var originals: seq<Object>

    ghost predicate Valid()
      reads this
    {
      && Written(sha, rows, originals)
      && Increasing(rows)
      && forall i :: 0 <= i < |rows| ==> rows[i].id < nextId
    }

    constructor (sha: Sha)
      ensures Valid() && this.sha == sha && rows == [] && nextId == 1
    {
      this.sha, rows, nextId, originals := sha, [], 1, [];
    }

    /** `appendAuditEntry`; a payload the column refuses rolls the transaction back. */
    method Append(entryType: Text, payload: Object) returns (r: Option<Row>)
      requires Valid()
      modifies this
      ensures Valid()
      ensures r.Some? <==> Storable(payload)
      ensures r.None? ==> rows == old(rows) && originals == old(originals)
      ensures r.Some? ==>
                && rows == old(rows) + [r.value] && originals == old(originals) + [payload] && nextId == old(nextId) + 1
                && r.value.id == old(nextId) && r.value.entryType == entryType && r.value.payload == Stored(payload)
                && (if old(rows) == [] then r.value.prevHash == None && r.value.thisHash == sha(Utf8([71, 69, 78, 69, 83, 73, 83] + Stringify(payload)))
                    else var last := old(rows)[|old(rows)| - 1];
                         r.value.prevHash == Some(last.thisHash) && r.value.thisHash == sha(Utf8(last.thisHash + Stringify(payload))))
    {
      NewRowIsExact(sha, rows, originals, nextId, entryType, payload);
      hide ComputeHash, Stored, Written;
      var prevHash := if rows != [] then rows[|rows| - 1].thisHash else GENESIS;
      var thisHash := ComputeHash(sha, prevHash, payload);
      if !Storable(payload) {
        return None;
      }
      var row := Row(nextId, entryType, Stored(payload), if prevHash == GENESIS then None else Some(prevHash), thisHash);
      AppendKeepsWritten(sha, rows, originals, nextId, entryType, payload);
      originals := originals + [payload];
      rows := rows + [row];
      nextId := nextId + 1;
      r := Some(row);
    }
  }

  // ---- writer against verifier ---------------------------------------------

  /** The payload as written and as read back give different inputs with one digest. */
  predicate StorageCollision(sha: Sha, rows: seq<Row>, i: nat, original: Object)
    requires i < |rows|
  {
    Collide(sha, HashInput(LinkAt(rows, i), original), InputAt(rows, i))
  }

  ghost predicate InStoredOrder(p: Object) { Sorted(ByStoredLength, Keys(p)) }

  /** A written row fits exactly when its payload's keys already stood in stored order, unless its two forms collide. */
  lemma WrittenRowFits(sha: Sha, rows: seq<Row>, i: nat, original: Object)
    requires i < |rows| && RowWritten(sha, rows, i, original) && IsLink(LinkAt(rows, i))
    ensures InStoredOrder(original) ==> RowFits(sha, rows, i)
    ensures !InStoredOrder(original) && RowFits(sha, rows, i) ==> StorageCollision(sha, rows, i, original)
    ensures !RowFits(sha, rows, i) ==> FaultAt(rows, i) == HashMismatch
  {
    hide ComputeHash, IsLink, HashInput, Reorder;
    ReorderFixes(ByStoredLength, original);
    if !InStoredOrder(original) && RowFits(sha, rows, i) {
      EqualHashes(sha, LinkAt(rows, i), original, LinkAt(rows, i), rows[i].payload);
    }
  }

  lemma LinksOfWritten(sha: Sha, rows: seq<Row>, originals: seq<Object>, i: nat)
    requires Written(sha, rows, originals) && i <= |rows|
    ensures IsLink(LinkAt(rows, i))
  {
    if 0 < i {
      assert RowWritten(sha, rows, i - 1, originals[i - 1]);
      var hash: Digest := ComputeHash(sha, LinkAt(rows, i - 1), originals[i - 1]);
    }
  }

  /**
   Does the verifier accept what the writer wrote? Exactly when every payload was
   given with its keys in the order `jsonb` keeps; otherwise the first payload that
   was not is the row reported, as a hash mismatch, unless its two forms collide.
  */
  lemma WriterMeetsVerifier(sha: Sha, rows: seq<Row>, originals: seq<Object>)
    requires Written(sha, rows, originals)
    ensures (forall i :: 0 <= i < |originals| ==> InStoredOrder(originals[i])) ==> Accepted(sha, rows)
    ensures forall i :: 0 <= i < |originals| && !InStoredOrder(originals[i]) && (forall j :: 0 <= j < i ==> InStoredOrder(originals[j])) ==>
              (FirstBreak(sha, rows, i) && FaultAt(rows, i) == HashMismatch) || StorageCollision(sha, rows, i, originals[i])
  {
    hide ComputeHash, IsLink, StorageCollision, InStoredOrder, RowFits, FaultAt;
    forall i | 0 <= i < |rows|
      ensures InStoredOrder(originals[i]) ==> RowFits(sha, rows, i)
      ensures !InStoredOrder(originals[i]) && RowFits(sha, rows, i) ==> StorageCollision(sha, rows, i, originals[i])
      ensures !RowFits(sha, rows, i) ==> FaultAt(rows, i) == HashMismatch
    {
      LinksOfWritten(sha, rows, originals, i);
      WrittenRowFits(sha, rows, i, originals[i]);
    }
  }

  // ---- the payloads the service logs ----------------------------------------

  function Property(key: Text, text: Text): Entry { Entry(key, Str(text)) }

  const USER_ID: Text := [117, 115, 101, 114, 73, 100]
  const REQUEST_ID: Text := [114, 101, 113, 117, 101, 115, 116, 73, 100]
  const APPROVER_ID: Text := [97, 112, 112, 114, 111, 118, 101, 114, 73, 100]
  const DECISION: Text := [100, 101, 99, 105, 115, 105, 111, 110]
  const SIGNATURE: Text := [115, 105, 103, 110, 97, 116, 117, 114, 101]
  const IP: Text := [105, 112]
  const USER_AGENT: Text := [117, 115, 101, 114, 65, 103, 101, 110, 116]
  const SCORE: Text := [115, 99, 111, 114, 101]
  const REASON: Text := [114, 101, 97, 115, 111, 110]
  const STATUS: Text := [115, 116, 97, 116, 117, 115]

  /** `{ userId }` */
  function LoginPayload(userId: Text): Object { [Property(USER_ID, userId)] }

  /** `{ requestId, approverId, decision, signature }` */
  function VotePayload(requestId: Text, approverId: Text, decision: Text, signature: Text): Object
  {
    assert |REQUEST_ID| == 9 && |APPROVER_ID| == 10 && |DECISION| == 8 && |SIGNATURE| == 9;
    assert REQUEST_ID[0] != SIGNATURE[0];
    [Property(REQUEST_ID, requestId), Property(APPROVER_ID, approverId), Property(DECISION, decision), Property(SIGNATURE, signature)]
  }

  /** `{ requestId, status }` */
  function ResolvedPayload(requestId: Text, status: Text): Object
  {
    assert |REQUEST_ID| == 9 && |STATUS| == 6;
    [Property(REQUEST_ID, requestId), Property(STATUS, status)]
  }

  /** `{ userId, ip, userAgent, score, reason }`, the address and agent possibly null */
  function RiskPayload(userId: Text, ip: Value, userAgent: Value, score: Text, reason: Text): Object
  {
    assert |USER_ID| == 6 && |IP| == 2 && |USER_AGENT| == 9 && |SCORE| == 5 && |REASON| == 6;
    assert USER_ID[0] != REASON[0];
    [Property(USER_ID, userId), Entry(IP, ip), Entry(USER_AGENT, userAgent), Property(SCORE, score), Property(REASON, reason)]
  }

  lemma {:induction false} AsciiLength(t: Text)
    requires forall i :: 0 <= i < |t| ==> t[i] < 0x80
    ensures |Utf8(t)| == |t|
    decreases |t|
  {
    if t != [] {
      AsciiLength(t[1..]);
    }
  }

  lemma LongerKeyIsNotFirst(p: Object, i: nat, j: nat)
    requires i < j < |p| && |Utf8(p[j].key)| < |Utf8(p[i].key)|
    ensures !InStoredOrder(p)
  {
    assert !Le(ByStoredLength, Keys(p)[i], Keys(p)[j]);
  }

  lemma KeyLengths()
    ensures |Utf8(USER_ID)| == 6 && |Utf8(REQUEST_ID)| == 9 && |Utf8(DECISION)| == 8 && |Utf8(STATUS)| == 6 && |Utf8(IP)| == 2
  {
    hide Utf8;
    AsciiLength(USER_ID);
    AsciiLength(REQUEST_ID);
    AsciiLength(DECISION);
    AsciiLength(STATUS);
    AsciiLength(IP);
  }

  /** Login payloads keep their order in the column; vote, resolution and risk payloads never do. */
  lemma LoggedPayloadOrders(a: Text, b: Text, c: Text, d: Text, v: Value, w: Value)
    ensures InStoredOrder(LoginPayload(a))
    ensures !InStoredOrder(VotePayload(a, b, c, d))
    ensures !InStoredOrder(ResolvedPayload(a, b))
    ensures !InStoredOrder(RiskPayload(a, v, w, b, c))
  {
    hide Utf8, InStoredOrder;
    KeyLengths();
    LongerKeyIsNotFirst(VotePayload(a, b, c, d), 0, 2);
    LongerKeyIsNotFirst(ResolvedPayload(a, b), 0, 1);
    LongerKeyIsNotFirst(RiskPayload(a, v, w, b, c), 0, 1);
    OneKeyIsInOrder(LoginPayload(a));
  }

  lemma OneKeyIsInOrder(p: Object)
    requires |p| == 1
    ensures InStoredOrder(p)
  {
  }

  /** A log of logins that then records one vote is reported broken at that vote, although nobody touched it. */
  lemma HonestVoteIsReported(sha: Sha, rows: seq<Row>, originals: seq<Object>, a: Text, b: Text, c: Text, d: Text)
    requires Written(sha, rows, originals) && 0 < |rows|
    requires forall i :: 0 <= i < |rows| - 1 ==> exists u :: originals[i] == LoginPayload(u)
    requires originals[|rows| - 1] == VotePayload(a, b, c, d)
    ensures FirstBreak(sha, rows, |rows| - 1) || StorageCollision(sha, rows, |rows| - 1, VotePayload(a, b, c, d))
  {
    hide InStoredOrder, LoginPayload, VotePayload, FirstBreak, StorageCollision, RowWritten;
    forall i | 0 <= i < |rows| - 1 ensures InStoredOrder(originals[i]) {
      var u :| originals[i] == LoginPayload(u);
      LoggedPayloadOrders(u, b, c, d, Null, Null);
    }
    LoggedPayloadOrders(a, b, c, d, Null, Null);
    WriterMeetsVerifier(sha, rows, originals);
  }

  // ---- tampering -----------------------------------------------------------

  /** In an accepted log no two neighbouring links are equal, or two of its rows collide. */
  lemma NeighboursDiffer(sha: Sha, rows: seq<Row>, i: nat)
    requires Accepted(sha, rows) && i < |rows|
    ensures LinkAt(rows, i) != LinkAt(rows, i + 1) || CollisionBetween(sha, rows, rows)
  {
    hide ComputeHash, CollisionBetween;
    PrefixIsAccepted(sha, rows, i);
    PrefixIsAccepted(sha, rows, i + 1);
    assert LinkAt(rows[..i], i) == LinkAt(rows, i) && LinkAt(rows[..i + 1], i + 1) == LinkAt(rows, i + 1);
    LastHashCommits(sha, rows[..i], rows[..i + 1]);
    assert |Payloads(rows[..i])| != |Payloads(rows[..i + 1])|;
    if CollisionBetween(sha, rows[..i], rows[..i + 1]) {
      PrefixCollision(sha, rows, i, rows, i + 1);
    }
  }

  /** Changing one payload is reported at that row. */
  lemma AlteredPayloadIsReported(sha: Sha, rows: seq<Row>, i: nat, forged: Object)
    requires Accepted(sha, rows) && i < |rows| && forged != rows[i].payload
    ensures var altered := rows[i := rows[i].(payload := forged)];
            (FirstBreak(sha, altered, i) && FaultAt(altered, i) == HashMismatch) || Collide(sha, InputAt(rows, i), InputAt(altered, i))
  {
    hide ComputeHash, IsLink, HashInput;
    var altered := rows[i := rows[i].(payload := forged)];
    assert RowFits(sha, rows, i);
    LinksOfAccepted(sha, rows, i);
    assert forall j :: 0 <= j <= i ==> LinkAt(altered, j) == LinkAt(rows, j);
    forall j | 0 <= j < i ensures RowFits(sha, altered, j) {
      assert RowFits(sha, rows, j);
    }
    if RowFits(sha, altered, i) {
      EqualHashes(sha, LinkAt(rows, i), rows[i].payload, LinkAt(rows, i), forged);
    }
  }

  /** Changing a payload together with its own hash is reported at the next row; on the last row it passes. */
  lemma RehashedPayloadIsReported(sha: Sha, rows: seq<Row>, i: nat, forged: Object)
    requires Accepted(sha, rows) && i < |rows| && forged != rows[i].payload
    ensures var altered := rows[i := rows[i].(payload := forged, thisHash := ComputeHash(sha, LinkAt(rows, i), forged))];
            if i == |rows| - 1 then Accepted(sha, altered)
            else (FirstBreak(sha, altered, i + 1) && FaultAt(altered, i + 1) == PrevHashMismatch) || Collide(sha, InputAt(rows, i), InputAt(altered, i))
  {
    hide ComputeHash, IsLink, HashInput;
    var altered := rows[i := rows[i].(payload := forged, thisHash := ComputeHash(sha, LinkAt(rows, i), forged))];
    assert RowFits(sha, rows, i);
    LinksOfAccepted(sha, rows, i);
    assert forall j :: 0 <= j <= i ==> LinkAt(altered, j) == LinkAt(rows, j);
    forall j | 0 <= j <= i ensures RowFits(sha, altered, j) {
      assert RowFits(sha, rows, j);
    }
    if i < |rows| - 1 {
      assert RowFits(sha, rows, i + 1);
      if StoredLink(altered[i + 1]) == LinkAt(altered, i + 1) {
        EqualHashes(sha, LinkAt(rows, i), rows[i].payload, LinkAt(rows, i), forged);
      }
    }
  }

  /** Removing any row but the last is reported at its successor. */
  lemma RemovedRowIsReported(sha: Sha, rows: seq<Row>, i: nat)
    requires Accepted(sha, rows) && i < |rows| - 1
    ensures var cut := rows[..i] + rows[i + 1..];
            (FirstBreak(sha, cut, i) && FaultAt(cut, i) == PrevHashMismatch && cut[i] == rows[i + 1]) || CollisionBetween(sha, rows, rows)
  {
    hide ComputeHash, CollisionBetween;
    var cut := rows[..i] + rows[i + 1..];
    assert RowFits(sha, rows, i + 1) && cut[i] == rows[i + 1];
    assert forall j :: 0 <= j <= i ==> LinkAt(cut, j) == LinkAt(rows, j);
    forall j | 0 <= j < i ensures RowFits(sha, cut, j) {
      assert RowFits(sha, rows, j);
    }
    NeighboursDiffer(sha, rows, i);
  }

  /** The chain says nothing about entry types and ids: any others pass as well. */
  lemma EntryTypesAreNotCovered(sha: Sha, rows: seq<Row>, others: seq<Row>)
    requires |others| == |rows|
    requires forall i :: 0 <= i < |rows| ==> others[i] == rows[i].(id := others[i].id, entryType := others[i].entryType)
    ensures Accepted(sha, others) <==> Accepted(sha, rows)
  {
    hide ComputeHash;
    forall i | 0 <= i < |rows| ensures RowFits(sha, others, i) <==> RowFits(sha, rows, i) {
      assert LinkAt(others, i) == LinkAt(rows, i);
    }
  }
}
