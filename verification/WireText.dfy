/** The very text that gets hashed and signed for payloads of the service. */
module WireText {
  import opened Bytes
  import opened Unicode
  import opened Utf8Text
  import opened Json
  import opened JsonText
  import opened KeyOrder
  import opened Signing
  import opened AuditLog

  /** The units of a literal. */
  function Ascii(s: string): (t: Text)
    ensures |t| == |s|
  {
    seq(|s|, i requires 0 <= i < |s| => s[i] as int % 0x1_0000)
  }

  /** Text that JSON prints as it is. */
  predicate IsPlain(t: Text) { IsPaired(t) && forall i :: 0 <= i < |t| ==> IsPlainUnit(t[i]) }

  lemma PlainEscape(t: Text)
    requires IsPlain(t)
    ensures Escape(t) == t
  {
    PlainTextIsItself(t);
  }

  /** A property with plain key and text, between its braces. */
  function PropertyText(key: Text, text: Text): Text { [34] + key + [34, 58, 34] + text + [34] }

  lemma PlainProperty(key: Text, text: Text)
    requires IsPlain(key) && IsPlain(text)
    ensures Stringify([Property(key, text)]) == [123] + PropertyText(key, text) + [125]
  {
    hide Stringify;
    PlainEscape(key);
    PlainEscape(text);
    PropertyIsExact(key, text);
  }

  lemma PlainKeys()
    ensures IsPlain(USER_ID) && IsPlain(REQUEST_ID) && IsPlain(DECISION) && IsPlain(TIMESTAMP)
    ensures USER_ID == Ascii("userId") && REQUEST_ID == Ascii("requestId") && DECISION == Ascii("decision") && TIMESTAMP == Ascii("timestamp")
  {
  }

  lemma KeyNames()
    ensures APPROVER_ID == Ascii("approverId") && SIGNATURE == Ascii("signature") && STATUS == Ascii("status")
    ensures IP == Ascii("ip") && USER_AGENT == Ascii("userAgent") && SCORE == Ascii("score") && REASON == Ascii("reason")
  {
  }

  /** The first entry of a log, when it records a login: the hash is taken over `GENESIS{"userId":"…"}`. */
  lemma FirstLoginText(sha: Sha, id: nat, entryType: Text, userId: Text)
    requires IsPlain(userId)
    ensures NewRow(sha, [], id, entryType, LoginPayload(userId)).thisHash ==
              sha(Utf8(Ascii("GENESIS") + [123] + PropertyText(Ascii("userId"), userId) + [125]))
  {
    hide Stringify, NewRow, IsPlain, PropertyText;
    NewRowIsExact(sha, [], [], id, entryType, LoginPayload(userId));
    PlainKeys();
    PlainProperty(USER_ID, userId);
    assert Ascii("GENESIS") == [71, 69, 78, 69, 83, 73, 83];
    hide Ascii;
    var x := PropertyText(USER_ID, userId);
    assert Ascii("GENESIS") + ([123] + x + [125]) == Ascii("GENESIS") + [123] + x + [125];
  }

  const TIMESTAMP: Text := [116, 105, 109, 101, 115, 116, 97, 109, 112]

  lemma DistinctVoteKeys()
    ensures DECISION != REQUEST_ID && DECISION != TIMESTAMP && REQUEST_ID != TIMESTAMP
    ensures Lex(DECISION, REQUEST_ID) && Lex(DECISION, TIMESTAMP) && Lex(REQUEST_ID, TIMESTAMP)
  {
    assert DECISION[0] == 100 && REQUEST_ID[0] == 114 && TIMESTAMP[0] == 116;
  }

  /** `{ requestId, decision, timestamp }`, as a vote is signed */
  function SignedVote(requestId: Text, decision: Text, timestamp: Text): Object
  {
    DistinctVoteKeys();
    [Property(REQUEST_ID, requestId), Property(DECISION, decision), Property(TIMESTAMP, timestamp)]
  }

  lemma SortedVote(requestId: Text, decision: Text, timestamp: Text)
    ensures Reorder(ByUnits, SignedVote(requestId, decision, timestamp)) ==
              [Property(DECISION, decision), Property(REQUEST_ID, requestId), Property(TIMESTAMP, timestamp)]
  {
    hide Reorder, Lex;
    DistinctVoteKeys();
    var d, r, t := Property(DECISION, decision), Property(REQUEST_ID, requestId), Property(TIMESTAMP, timestamp);
    var p, q: Object := [r, d, t], [d, r, t];
    assert p[1..] == [d, t] && [d, t][1..] == [t] && q[1..] == [r, t] && [r, t][1..] == [t] && [t][1..] == [];
    assert AsMap(p) == AsMap(q);
    ReorderIsCanonical(ByUnits, p, q);
    assert Keys(q) == [DECISION, REQUEST_ID, TIMESTAMP];
    ReorderFixes(ByUnits, q);
  }

  /** The signature on a vote is taken over `{"decision":"…","requestId":"…","timestamp":"…"}`: the keys in alphabetical order. */
  lemma SignedVoteText(requestId: Text, decision: Text, timestamp: Text)
    requires IsPlain(requestId) && IsPlain(decision) && IsPlain(timestamp)
    ensures Canonicalize(SignedVote(requestId, decision, timestamp)) ==
              Utf8([123] + PropertyText(Ascii("decision"), decision) + [44] + PropertyText(Ascii("requestId"), requestId)
                   + [44] + PropertyText(Ascii("timestamp"), timestamp) + [125])
  {
    hide Stringify, Reorder, IsPlain, SignedVote, PropertyText, Utf8;
    var d, r, t := Property(DECISION, decision), Property(REQUEST_ID, requestId), Property(TIMESTAMP, timestamp);
    SortedVote(requestId, decision, timestamp);
    PlainKeys();
    hide Ascii;
    PlainProperty(DECISION, decision);
    PlainProperty(REQUEST_ID, requestId);
    PlainProperty(TIMESTAMP, timestamp);
    PropertiesAreJoined([r], [t]);
    PropertiesAreJoined([d], [r, t]);
    assert [r] + [t] == [r, t] && [d] + [r, t] == [d, r, t];
    var x, y, z := PropertyText(DECISION, decision), PropertyText(REQUEST_ID, requestId), PropertyText(TIMESTAMP, timestamp);
    Joined(y, z);
    Joined(x, y + [44] + z);
    Rebracketed(x, y, z);
  }

  lemma Rebracketed(x: Text, y: Text, z: Text)
    ensures [123] + (x + [44] + (y + [44] + z)) + [125] == [123] + x + [44] + y + [44] + z + [125]
  {
  }

  lemma Joined(x: Text, y: Text)
    ensures var a, b: Text := [123] + x + [125], [123] + y + [125];
            a[..|a| - 1] + [44] + b[1..] == [123] + (x + [44] + y) + [125]
  {
  }
}
