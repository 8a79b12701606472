/**
 What the decoder accepts as typed: laws about the characters of a secret themselves.
 Separators and letter case do not matter, foreign characters are refused, and what is
 left is symbols and padding, where every length has its own answer.
*/
module Base32Text {
  import opened Wrappers
  import opened Base32

  lemma {:induction false} NormalizeConcat(a: Ascii, b: Ascii)
    ensures IsAscii(a + b) && Normalize(a + b) == Normalize(a) + Normalize(b)
    decreases |a|
  {
    if a == "" {
      assert a + b == b;
    } else {
      assert (a + b)[1..] == a[1..] + b;
      NormalizeConcat(a[1..], b);
    }
  }

  lemma NormalizeAround(a: Ascii, c: char, b: Ascii)
    requires c as int < 128
    ensures IsAscii(a + [c] + b) && IsAscii([c]) && Normalize(a + [c] + b) == Normalize(a) + Normalize([c]) + Normalize(b)
  {
    NormalizeConcat(a, [c]);
    NormalizeConcat(a + [c], b);
  }

  /** A hyphen or white space anywhere changes nothing. */
  lemma SeparatorsAreIgnored(a: Ascii, c: char, b: Ascii)
    requires c as int == 45 || c as int == 32 || 9 <= c as int <= 13
    ensures IsAscii(a + [c] + b) && IsAscii(a + b) && Decode(a + [c] + b) == Decode(a + b)
  {
    NormalizeAround(a, c, b);
    NormalizeConcat(a, b);
    assert [c][1..] == "";
    assert Normalize([c]) == "";
    assert Normalize(a) + "" + Normalize(b) == Normalize(a) + Normalize(b);
  }

  /** A small letter anywhere reads as the capital one. */
  lemma CaseIsIgnored(a: Ascii, c: char, b: Ascii)
    requires 97 <= c as int <= 122
    ensures var capital := (c as int - 32) as char;
            IsAscii(a + [c] + b) && IsAscii(a + [capital] + b) && Decode(a + [c] + b) == Decode(a + [capital] + b)
  {
    var capital := (c as int - 32) as char;
    NormalizeAround(a, c, b);
    NormalizeAround(a, capital, b);
    assert [c][1..] == "" && [capital][1..] == "";
    assert Normalize([c]) == [capital] && Normalize([capital]) == [capital];
  }

  /** `[A-Z2-7]` */
  predicate IsCapitalOrDigit(c: char) { 65 <= c as int <= 90 || 50 <= c as int <= 55 }

  lemma NormalizedChar(secret: Ascii, i: nat)
    requires i < |secret| && !IsSeparator(secret[i])
    ensures IsAscii(secret[..i]) && IsAscii(secret[i + 1..])
    ensures Normalize(secret) == Normalize(secret[..i]) + [Upper(secret[i])] + Normalize(secret[i + 1..])
  {
    var c := secret[i];
    assert secret == secret[..i] + [c] + secret[i + 1..];
    NormalizeAround(secret[..i], c, secret[i + 1..]);
    assert [c][1..] == "" && Normalize([c]) == [Upper(c)];
  }

  /** One character that is neither a letter, nor `2` to `7`, nor `=`, nor a separator spoils the secret. */
  lemma ForeignCharacterIsRefused(secret: Ascii, i: nat)
    requires i < |secret|
    requires var c := secret[i] as int;
             !(65 <= c <= 90 || 97 <= c <= 122 || 50 <= c <= 55 || c == 61 || c == 45 || c == 32 || 9 <= c <= 13)
    ensures Decode(secret) == Err(InvalidSecret)
  {
    NormalizedChar(secret, i);
    var n, at := Normalize(secret), |Normalize(secret[..i])|;
    assert n[at] == secret[i];
    assert !MatchesFormat(n);
  }

  /** Nothing but padding may follow padding. */
  lemma SymbolAfterPaddingIsRefused(secret: Ascii, i: nat, j: nat)
    requires i < j < |secret| && secret[i] == '='
    requires IsCapitalOrDigit(secret[j]) || 97 <= secret[j] as int <= 122
    ensures Decode(secret) == Err(InvalidSecret)
  {
    NormalizedChar(secret, j);
    NormalizedChar(secret[..j], i);
    var n := Normalize(secret);
    var first, second := |Normalize(secret[..j][..i])|, |Normalize(secret[..j])|;
    assert n[second] == Upper(secret[j]) && n[second] != '=';
    assert n[first] == Normalize(secret[..j])[first] == '=' && first < second;
    assert !MatchesFormat(n);
  }

  /** The answer for every run of symbols with every amount of padding. */
  lemma PaddedSymbolsAreExact(s: Ascii, p: nat)
    requires forall i :: 0 <= i < |s| ==> IsCapitalOrDigit(s[i])
    ensures IsAscii(s + Padding(p)) && AllSymbolChars(s)
    ensures Decode(s + Padding(p)) ==
              if s == "" || p > 6 then Err(InvalidSecret)
              else if p == 0 && |s| % 8 !in {0, 2, 4, 5, 7} then Err(InvalidLength)
              else if p != 0 && (|s| % 8, p) !in {(2, 6), (4, 4), (5, 3), (7, 1)} then Err(InvalidPadding)
              else Ok(Octets(Unpack(5, Values(s))))
  {
    hide Octets, Unpack, ValueOf, Validate, AllSymbolChars;
    assert AllSymbolChars(s) by { AllSymbols(s); }
    NormalizeFixesSymbols(s, p);
    ValidateIsExact(s, p);
  }

  lemma AllSymbols(s: string)
    requires forall i :: 0 <= i < |s| ==> IsCapitalOrDigit(s[i])
    ensures AllSymbolChars(s) && IsAscii(s)
  {
  }

  lemma ValidateIsExact(s: string, p: nat)
    requires AllSymbolChars(s)
    ensures Validate(s + Padding(p)) ==
              if s == "" || p > 6 then Err(InvalidSecret)
              else if p == 0 && |s| % 8 !in {0, 2, 4, 5, 7} then Err(InvalidLength)
              else if p != 0 && (|s| % 8, p) !in {(2, 6), (4, 4), (5, 3), (7, 1)} then Err(InvalidPadding)
              else Ok(s)
  {
    var n := s + Padding(p);
    FormatIsExact(s, p);
    if s != "" && p <= 6 {
      assert PaddingIndex(n) == |s| && n[..|s|] == s;
      hide MatchesFormat, PaddingIndex;
      if p != 0 { LengthsMatch(|s|, p); }
    }
  }

  lemma FormatIsExact(s: string, p: nat)
    requires AllSymbolChars(s)
    ensures MatchesFormat(s + Padding(p)) <==> s != "" && p <= 6
    ensures s != "" ==> PaddingIndex(s + Padding(p)) == |s|
  {
    var n := s + Padding(p);
    if s != "" {
      assert FormatSplit(n, |s|);
      FormatSplitIsUnique(n, |s|);
      forall k | 1 <= k <= |n| && FormatSplit(n, k) ensures k == |s| { FormatSplitIsUnique(n, k); }
    } else if p != 0 {
      assert n[0] == '=';
    }
  }

  lemma LengthsMatch(k: nat, p: nat)
    requires 1 <= p <= 6
    ensures ((k + p) % 8 == 0 && ExpectedPadding(k % 8) == p) <==> (k % 8, p) in {(2, 6), (4, 4), (5, 3), (7, 1)}
  {
  }
}
