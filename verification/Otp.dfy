/**
 HOTP (RFC 4226, section 5.3), TOTP and the drift window (RFC 6238) of the TOTP
 service. HMAC-SHA1 is a parameter: any function from a key and a message to
 twenty octets.
 */
module Otp {
  import opened Wrappers
  import opened Bits32
  import opened Bytes
  import Base32

  type Mac = m: seq<Octet> | |m| == 20 witness seq(20, _ => 0)
  type Hmac = (seq<Octet>, seq<Byte>) -> Mac

  /** A JavaScript number: a finite value, or one of NaN and the infinities. */
  datatype Number = NotFinite | Finite(value: real)

  predicate IsInteger(n: Number) { n.Finite? && n.value == n.value.Floor as real }

  datatype Error =
    | InvalidSecret(reason: Base32.Error)
    | InvalidDigits
    | InvalidCounter
    | InvalidWindow
    | InvalidTimestamp

  const OTP_DIGITS := 6
  const STEP_MS := 30_000
  const COUNTER_LIMIT := 0x1_0000_0000_0000_0000

  // ---- the counter block -------------------------------------------------

  /** The `width` low base-256 digits of `n`, most significant first. */
  function BigEndian(n: nat, width: nat): (bytes: seq<Byte>)
    ensures |bytes| == width
  {
    if width == 0 then [] else BigEndian(n / 0x100, width - 1) + [n % 0x100]
  }

  function BigEndianValue(bytes: seq<Byte>): nat
  {
    if bytes == [] then 0 else 0x100 * BigEndianValue(bytes[..|bytes| - 1]) + bytes[|bytes| - 1]
  }

  function Power(base: nat, exponent: nat): nat
  {
    if exponent == 0 then 1 else base * Power(base, exponent - 1)
  }

  /** `counterBuffer`: negative counters are refused by the guard, counters of more than 64 bits by `writeBigUInt64BE`. */
  function CounterBuffer(counter: int): (r: Result<seq<Byte>, Error>)
  {
    if counter < 0 || COUNTER_LIMIT <= counter then Err(InvalidCounter) else Ok(BigEndian(counter, 8))
  }

  lemma DivideBelow(n: nat, p: nat)
    requires n < 0x100 * p
    ensures n / 0x100 < p
  {
  }

  lemma {:induction false} BigEndianRoundTrip(n: nat, width: nat)
    requires n < Power(0x100, width)
    ensures BigEndianValue(BigEndian(n, width)) == n
  {
    if width != 0 {
      DivideBelow(n, Power(0x100, width - 1));
      BigEndianRoundTrip(n / 0x100, width - 1);
      assert BigEndian(n, width)[..width - 1] == BigEndian(n / 0x100, width - 1);
    }
  }

  /** The eight bytes of an accepted counter read back as that counter, so no two counters share a block. */
  lemma CounterBufferIsFaithful(counter: int)
    ensures CounterBuffer(counter).Ok? <==> 0 <= counter < COUNTER_LIMIT
    ensures CounterBuffer(counter).Ok? ==>
              |CounterBuffer(counter).value| == 8 && BigEndianValue(CounterBuffer(counter).value) == counter
  {
    if 0 <= counter < COUNTER_LIMIT {
      PowersOf256();
      BigEndianRoundTrip(counter, 8);
    }
  }

  lemma PowersOf256()
    ensures Power(0x100, 8) == COUNTER_LIMIT
  {
  }

  // ---- dynamic truncation ------------------------------------------------

  /** Octet `i` of a word, counted from the least significant end. */
  function OctetAt(x: bv32, i: nat): Octet
    requires i < 4
  {
    match i
    case 0 => x & 0xff
    case 1 => (x >> 8) & 0xff
    case 2 => (x >> 16) & 0xff
    case _ => x >> 24
  }

  /** The number a 32-bit word denotes after `>>> 0`, by its base-256 digits. */
  function Unsigned(x: bv32): nat
  {
    0x100_0000 * Digit256(OctetAt(x, 3)) + 0x1_0000 * Digit256(OctetAt(x, 2)) + 0x100 * Digit256(OctetAt(x, 1)) + Digit256(OctetAt(x, 0))
  }

  function Digit256(x: Octet): (d: Byte)
  {
    assert x as int < 0x100;
    x as int
  }

  function Offset(mac: Mac): (offset: nat)
    ensures offset < 16
  {
    Nibble(mac[19]);
    (mac[19] & 0x0f) as int
  }

  lemma Nibble(x: Octet)
    ensures (x & 0x0f) as int == Digit256(x) % 16
  {
  }

  /** `((a & 0x7f) << 24) | (b << 16) | (c << 8) | d` */
  function Join(a: bv32, b: bv32, c: bv32, d: bv32): bv32
  {
    ((a & 0x7f) << 24) | (b << 16) | (c << 8) | d
  }

  function BinaryCode(mac: Mac): nat
  {
    var o := Offset(mac);
    Unsigned(Join(mac[o], mac[o + 1], mac[o + 2], mac[o + 3]))
  }

  lemma JoinDigits(a: Octet, b: Octet, c: Octet, d: Octet)
    ensures var w := Join(a, b, c, d);
            OctetAt(w, 3) == a & 0x7f && OctetAt(w, 2) == b && OctetAt(w, 1) == c && OctetAt(w, 0) == d
  {
  }

  lemma JoinIsBigEndian(a: Octet, b: Octet, c: Octet, d: Octet)
    ensures Unsigned(Join(a, b, c, d)) == BigEndianValue([Digit256(a) % 0x80, Digit256(b), Digit256(c), Digit256(d)]) < 0x8000_0000
  {
    hide Digit256, OctetAt, Join;
    JoinDigits(a, b, c, d);
    SignBitCleared(a);
    FourBytes(Digit256(a) % 0x80, Digit256(b), Digit256(c), Digit256(d));
  }

  lemma SignBitCleared(x: Octet)
    ensures x & 0x7f < 0x80 && Digit256(x & 0x7f) == Digit256(x) % 0x80
  {
  }

  /** Shifting and or-ing four octets below the sign bit is the big-endian 31-bit number of RFC 4226. */
  lemma TruncationIsBigEndian(mac: Mac)
    ensures var o := Digit256(mac[19]) % 16;
            BinaryCode(mac) == BigEndianValue([Digit256(mac[o]) % 0x80, Digit256(mac[o + 1]), Digit256(mac[o + 2]), Digit256(mac[o + 3])])
    ensures BinaryCode(mac) < 0x8000_0000
  {
    hide Digit256, Unsigned, Join, BigEndianValue;
    var o := Offset(mac);
    Nibble(mac[19]);
    JoinIsBigEndian(mac[o], mac[o + 1], mac[o + 2], mac[o + 3]);
  }

  lemma FourBytes(a: Byte, b: Byte, c: Byte, d: Byte)
    ensures BigEndianValue([a, b, c, d]) == 0x100_0000 * a + 0x1_0000 * b + 0x100 * c + d
  {
    assert [a, b, c, d][..3] == [a, b, c] && [a, b, c][..2] == [a, b] && [a, b][..1] == [a] && [a][..0] == [];
    assert BigEndianValue([a]) == a;
    assert BigEndianValue([a, b]) == 0x100 * a + b;
    assert BigEndianValue([a, b, c]) == 0x1_0000 * a + 0x100 * b + c;
  }

  // ---- decimal text ------------------------------------------------------

  predicate IsDigit(c: char) { '0' <= c <= '9' }

  predicate AllDigits(s: string) { forall i :: 0 <= i < |s| ==> IsDigit(s[i]) }

  function DigitChar(d: nat): (c: char)
    requires d < 10
    ensures IsDigit(c) && c as int - 48 == d
  {
    (48 + d) as char
  }

  /** `String(n)` */
  function Decimal(n: nat): (s: string)
    ensures s != "" && AllDigits(s)
  {
    if n < 10 then [DigitChar(n)] else Decimal(n / 10) + [DigitChar(n % 10)]
  }

  /** `s.padStart(width, '0')` */
  function PadStart(s: string, width: nat): (padded: string)
    decreases width - |s|
  {
    if width <= |s| then s else PadStart("0" + s, width)
  }

  /** The number a string of decimal digits denotes. */
  function DecimalValue(s: string): nat
    requires AllDigits(s)
  {
    if s == "" then 0 else 10 * DecimalValue(s[..|s| - 1]) + (s[|s| - 1] as int - 48)
  }

  lemma {:induction false} DecimalRoundTrip(n: nat)
    ensures DecimalValue(Decimal(n)) == n
  {
    if n < 10 {
      assert [DigitChar(n)][..0] == "";
    } else {
      DecimalRoundTrip(n / 10);
      assert Decimal(n)[..|Decimal(n)| - 1] == Decimal(n / 10);
    }
  }

  lemma {:induction false} DecimalFits(n: nat, width: nat)
    requires 1 <= width && n < Power(10, width)
    ensures |Decimal(n)| <= width
  {
    if 10 <= n {
      assert width != 1 by { assert Power(10, 0) == 1; }
      DecimalFits(n / 10, width - 1);
    }
  }

  lemma {:induction false} LeadingZero(s: string)
    requires AllDigits(s)
    ensures AllDigits("0" + s) && DecimalValue("0" + s) == DecimalValue(s)
    decreases |s|
  {
    var t := "0" + s;
    if s == "" {
      assert t[..0] == "";
    } else {
      LeadingZero(s[..|s| - 1]);
      assert t[..|t| - 1] == "0" + s[..|s| - 1];
    }
  }

  lemma {:induction false} PadStartKeepsValue(s: string, width: nat)
    requires AllDigits(s) && |s| <= width
    ensures |PadStart(s, width)| == width && AllDigits(PadStart(s, width))
    ensures DecimalValue(PadStart(s, width)) == DecimalValue(s)
    decreases width - |s|
  {
    if |s| < width {
      LeadingZero(s);
      PadStartKeepsValue("0" + s, width);
    }
  }

  // ---- HOTP and TOTP -----------------------------------------------------

  function GenerateHotp(hmac: Hmac, secret: Base32.Ascii, counter: int, digits: Number): (r: Result<string, Error>)
  {
    if !IsInteger(digits) || digits.value < 6.0 || digits.value > 10.0 then Err(InvalidDigits) else
    match Base32.Decode(secret)
    case Err(e) => Err(InvalidSecret(e))
    case Ok(key) =>
      match CounterBuffer(counter)
      case Err(e) => Err(e)
      case Ok(block) => Ok(Code(hmac(key, block), digits.value.Floor))
  }

  function Code(mac: Mac, digits: nat): (code: string)
    requires 1 <= digits
  {
    PowerPositive(10, digits);
    PadStart(Decimal(BinaryCode(mac) % Power(10, digits)), digits)
  }

  lemma {:induction false} PowerPositive(base: nat, exponent: nat)
    requires 0 < base
    ensures 0 < Power(base, exponent)
  {
    if exponent != 0 {
      PowerPositive(base, exponent - 1);
    }
  }

  /** A code has exactly the digits asked for and reads back as the truncated MAC modulo `10^digits`. */
  lemma CodeIsWellFormed(mac: Mac, digits: nat)
    requires 1 <= digits
    ensures |Code(mac, digits)| == digits && AllDigits(Code(mac, digits))
    ensures Power(10, digits) != 0 && DecimalValue(Code(mac, digits)) == BinaryCode(mac) % Power(10, digits)
  {
    PowerPositive(10, digits);
    var n := BinaryCode(mac) % Power(10, digits);
    DecimalFits(n, digits);
    DecimalRoundTrip(n);
    PadStartKeepsValue(Decimal(n), digits);
  }

  lemma PowersOf10()
    ensures Power(10, 10) == 10_000_000_000
  {
  }

  /** Ten digits, the most the generator allows, hold the whole 31-bit code. */
  lemma TenDigitsKeepEverything(mac: Mac)
    ensures AllDigits(Code(mac, 10)) && DecimalValue(Code(mac, 10)) == BinaryCode(mac)
  {
    hide BinaryCode, Code;
    TruncationIsBigEndian(mac);
    CodeIsWellFormed(mac, 10);
    PowersOf10();
  }

  /** HOTP succeeds exactly on 6 to 10 digits, a decodable secret and a 64-bit counter. */
  lemma HotpAcceptance(hmac: Hmac, secret: Base32.Ascii, counter: int, digits: Number)
    ensures GenerateHotp(hmac, secret, counter, digits).Ok? <==>
              && IsInteger(digits) && 6.0 <= digits.value <= 10.0
              && Base32.WellFormed(Base32.Normalize(secret))
              && 0 <= counter < COUNTER_LIMIT
    ensures GenerateHotp(hmac, secret, counter, digits).Ok? ==>
              |GenerateHotp(hmac, secret, counter, digits).value| == digits.value.Floor
              && AllDigits(GenerateHotp(hmac, secret, counter, digits).value)
  {
    Base32.AcceptanceIsExact(secret);
    CounterBufferIsFaithful(counter);
    if GenerateHotp(hmac, secret, counter, digits).Ok? {
      CodeIsWellFormed(hmac(Base32.Decode(secret).value, CounterBuffer(counter).value), digits.value.Floor);
    }
  }

  /** `BigInt(Math.floor(timestamp / 30000))` */
  function CounterAt(ms: real): (counter: int)
    ensures 0.0 <= ms ==> 0 <= counter
  {
    (ms / STEP_MS as real).Floor
  }

  function Hotp6(hmac: Hmac, secret: Base32.Ascii, counter: int): Result<string, Error>
  {
    GenerateHotp(hmac, secret, counter, Finite(OTP_DIGITS as real))
  }

  function GenerateTotp(hmac: Hmac, secret: Base32.Ascii, timestamp: Number): Result<string, Error>
  {
    if timestamp.NotFinite? || timestamp.value < 0.0 then Err(InvalidTimestamp)
    else Hotp6(hmac, secret, CounterAt(timestamp.value))
  }

  // ---- verification in a drift window ------------------------------------

  /** `/^\d{6}$/` */
  predicate IsSixDigits(token: string) { |token| == OTP_DIGITS && AllDigits(token) }

  /** `timingSafeEqual`, which throws on unequal lengths; that never happens here. */
  function TimingSafeEqual(a: string, b: string): bool
    requires |a| == |b|
  {
    a == b
  }

  /** Some counter from `from` up to and excluding `to` generates the token. */
  ghost predicate Generated(hmac: Hmac, secret: Base32.Ascii, token: string, from: int, to: int)
  {
    exists c: nat :: from <= c < to && Hotp6(hmac, secret, c) == Ok(token)
  }

  method VerifyTotp(hmac: Hmac, secret: Base32.Ascii, token: string, window: Number, timestamp: Number)
    returns (r: Result<bool, Error>)
    ensures r == VerifyOutcome(hmac, secret, token, window, timestamp)
  {
    if !IsSixDigits(token) {
      return Ok(false);
    }
    if !IsInteger(window) || window.value < 0.0 {
      return Err(InvalidWindow);
    }
    if timestamp.NotFinite? || timestamp.value < 0.0 {
      return Err(InvalidTimestamp);
    }
    r := SearchWindow(hmac, secret, token, CounterAt(timestamp.value), window.value.Floor);
  }

  lemma GeneratedNext(hmac: Hmac, secret: Base32.Ascii, token: string, from: int, to: int)
    requires from <= to
    ensures Generated(hmac, secret, token, from, to + 1) <==>
              Generated(hmac, secret, token, from, to) || (0 <= to && Hotp6(hmac, secret, to) == Ok(token))
  {
  }

  lemma CandidateOutcome(hmac: Hmac, secret: Base32.Ascii, token: string, counter: nat)
    requires IsSixDigits(token)
    ensures var decoded, candidate := Base32.Decode(secret), Hotp6(hmac, secret, counter);
            && (decoded.Err? ==> candidate == Err(InvalidSecret(decoded.error)))
            && (decoded.Ok? && COUNTER_LIMIT <= counter ==> candidate == Err(InvalidCounter))
            && (candidate.Ok? <==> decoded.Ok? && counter < COUNTER_LIMIT)
            && (candidate.Ok? ==> |candidate.value| == |token|)
  {
    HotpOutcome(hmac, secret, counter);
  }

  /** The loop of the verification: every candidate is compared, and the loop never stops early on a match. */
  method SearchWindow(hmac: Hmac, secret: Base32.Ascii, token: string, current: nat, width: nat)
    returns (r: Result<bool, Error>)
    requires IsSixDigits(token)
    ensures r == WindowOutcome(hmac, secret, token, current, width)
  {
    hide Hotp6, Generated, Base32.Decode, IsSixDigits;
    var verified := false;
    var offset := 0 - width;
    NothingGenerated(hmac, secret, token, current - width);
    while offset <= width
      invariant 0 - width <= offset <= width + 1
      invariant verified == Generated(hmac, secret, token, current - width, current + offset)
      invariant 0 < current + offset && 0 - width < offset ==> Base32.Decode(secret).Ok? && current + offset <= COUNTER_LIMIT
    {
      var counter := current + offset;
      GeneratedNext(hmac, secret, token, current - width, counter);
      offset := offset + 1;
      if counter < 0 {
        continue;
      }
      CandidateOutcome(hmac, secret, token, counter);
      var candidate := Hotp6(hmac, secret, counter);
      if candidate.Err? {
        return Err(candidate.error);
      }
      verified := TimingSafeEqual(token, candidate.value) || verified;
    }
    r := Ok(verified);
  }

  lemma NothingGenerated(hmac: Hmac, secret: Base32.Ascii, token: string, from: int)
    ensures !Generated(hmac, secret, token, from, from)
  {
  }

  /** What the window search answers: the secret is looked at first, then the largest counter. */
  ghost function WindowOutcome(hmac: Hmac, secret: Base32.Ascii, token: string, current: nat, width: nat): Result<bool, Error>
  {
    if Base32.Decode(secret).Err? then Err(InvalidSecret(Base32.Decode(secret).error))
    else if COUNTER_LIMIT <= current + width then Err(InvalidCounter)
    else Ok(Generated(hmac, secret, token, current - width, current + width + 1))
  }

  /** What verification answers, in the order the conditions are looked at. */
  ghost function VerifyOutcome(hmac: Hmac, secret: Base32.Ascii, token: string, window: Number, timestamp: Number): Result<bool, Error>
  {
    if !IsSixDigits(token) then Ok(false)
    else if !IsInteger(window) || window.value < 0.0 then Err(InvalidWindow)
    else if timestamp.NotFinite? || timestamp.value < 0.0 then Err(InvalidTimestamp)
    else WindowOutcome(hmac, secret, token, CounterAt(timestamp.value), window.value.Floor)
  }

  lemma HotpOutcome(hmac: Hmac, secret: Base32.Ascii, counter: nat)
    ensures Hotp6(hmac, secret, counter) ==
              (if Base32.Decode(secret).Err? then Err(InvalidSecret(Base32.Decode(secret).error))
               else if COUNTER_LIMIT <= counter then Err(InvalidCounter)
               else Ok(Code(hmac(Base32.Decode(secret).value, BigEndian(counter, 8)), 6)))
    ensures Hotp6(hmac, secret, counter).Ok? ==> |Hotp6(hmac, secret, counter).value| == 6 && AllDigits(Hotp6(hmac, secret, counter).value)
  {
    if Hotp6(hmac, secret, counter).Ok? {
      CodeIsWellFormed(hmac(Base32.Decode(secret).value, BigEndian(counter, 8)), 6);
    }
  }

  lemma NearbyCounters(a: real, b: real, steps: nat)
    requires -(steps as real) * STEP_MS as real <= a - b <= steps as real * STEP_MS as real
    ensures CounterAt(b) - steps <= CounterAt(a) <= CounterAt(b) + steps
  {
  }

  lemma DistantCounters(a: real, b: real, steps: nat)
    requires a - b >= (steps + 1) as real * STEP_MS as real
    ensures CounterAt(a) - CounterAt(b) > steps
  {
  }

  lemma MemberOfWindow(hmac: Hmac, secret: Base32.Ascii, counter: nat, checked: real, window: nat)
    requires 0.0 <= checked && CounterAt(checked) + window < COUNTER_LIMIT
    requires CounterAt(checked) - window <= counter <= CounterAt(checked) + window
    requires Hotp6(hmac, secret, counter).Ok? && Base32.Decode(secret).Ok? && IsSixDigits(Hotp6(hmac, secret, counter).value)
    ensures VerifyOutcome(hmac, secret, Hotp6(hmac, secret, counter).value, Finite(window as real), Finite(checked)) == Ok(true)
  {
    hide Hotp6, Code, Base32.Decode, IsSixDigits, CounterAt;
    var token := Hotp6(hmac, secret, counter).value;
    assert Generated(hmac, secret, token, CounterAt(checked) - window, CounterAt(checked) + window + 1);
  }

  /** A code generated at most `window` steps of 30 s before or after the check passes it. */
  lemma DriftIsTolerated(hmac: Hmac, secret: Base32.Ascii, made: real, checked: real, window: nat)
    requires 0.0 <= made && 0.0 <= checked
    requires -(window as real) * STEP_MS as real <= made - checked <= window as real * STEP_MS as real
    requires CounterAt(checked) + window < COUNTER_LIMIT
    requires GenerateTotp(hmac, secret, Finite(made)).Ok?
    ensures VerifyOutcome(hmac, secret, GenerateTotp(hmac, secret, Finite(made)).value, Finite(window as real), Finite(checked)) == Ok(true)
  {
    hide Hotp6, Code, Base32.Decode, VerifyOutcome;
    NearbyCounters(made, checked, window);
    HotpOutcome(hmac, secret, CounterAt(made));
    MemberOfWindow(hmac, secret, CounterAt(made), checked, window);
  }

  /**
   A code generated `window + 1` steps or more before the check passes only if
   some counter inside the window happens to generate the same six digits.
  */
  lemma StaleCodeNeedsCollision(hmac: Hmac, secret: Base32.Ascii, made: real, checked: real, window: nat)
    requires 0.0 <= made && checked - made >= (window + 1) as real * STEP_MS as real
    requires GenerateTotp(hmac, secret, Finite(made)).Ok?
    requires VerifyOutcome(hmac, secret, GenerateTotp(hmac, secret, Finite(made)).value, Finite(window as real), Finite(checked)) == Ok(true)
    ensures exists c: nat :: c > CounterAt(made) && Hotp6(hmac, secret, c) == Hotp6(hmac, secret, CounterAt(made))
  {
    DistantCounters(checked, made, window);
    HotpOutcome(hmac, secret, CounterAt(made));
    var token := GenerateTotp(hmac, secret, Finite(made)).value;
    var current := CounterAt(checked);
    var c: nat :| current - window <= c < current + window + 1 && Hotp6(hmac, secret, c) == Ok(token);
  }

  /** Every secret the service itself hands out (20 random octets) works end to end with the default window of one step. */
  lemma EnrolledSecretVerifies(hmac: Hmac, random: seq<Octet>, ms: real)
    requires |random| == 20 && 0.0 <= ms && CounterAt(ms) + 1 < COUNTER_LIMIT
    ensures var secret := Base32.Encode(random);
            && Base32.IsAscii(secret)
            && GenerateTotp(hmac, secret, Finite(ms)).Ok?
            && VerifyOutcome(hmac, secret, GenerateTotp(hmac, secret, Finite(ms)).value, Finite(1.0), Finite(ms)) == Ok(true)
  {
    hide Code, Base32.Encode;
    var secret := Base32.Encode(random);
    Base32.RoundTrip(random);
    HotpOutcome(hmac, secret, CounterAt(ms));
    DriftIsTolerated(hmac, secret, ms, ms, 1);
  }

  // ---- in the terms of the standards -----------------------------------------

  /** The 31-bit number at the offset that the last octet names. */
  ghost predicate IsTruncation(mac: Mac, n: nat)
  {
    var o := mac[19] as nat % 16;
    n == 0x100_0000 * (mac[o] as nat % 128) + 0x1_0000 * mac[o + 1] as nat + 0x100 * mac[o + 2] as nat + mac[o + 3] as nat
  }

  /** `code` is the decimal writing of the low `digits` digits of the truncated MAC over the eight counter octets. */
  ghost predicate IsCode(hmac: Hmac, key: seq<Octet>, counter: nat, digits: nat, code: string)
  {
    && |code| == digits
    && (forall i :: 0 <= i < digits ==> 48 <= code[i] as int <= 57)
    && exists block: seq<Byte>, n: nat ::
         |block| == 8 && BigEndianValue(block) == counter && IsTruncation(hmac(key, block), n)
         && 0 < Power(10, digits) && DecimalValue(code) == n % Power(10, digits)
  }

  /** The code RFC 4226, section 5.3 prescribes, and every refusal in the order of the checks. */
  lemma HotpIsExact(hmac: Hmac, secret: Base32.Ascii, counter: int, digits: Number)
    ensures var r := GenerateHotp(hmac, secret, counter, digits);
            && (r == Err(InvalidDigits) <==> !(digits.Finite? && digits.value in {6.0, 7.0, 8.0, 9.0, 10.0}))
            && (r.Err? && r.error.InvalidSecret? <==> r != Err(InvalidDigits) && Base32.Decode(secret).Err?)
            && (r.Err? && r.error.InvalidSecret? ==> r.error.reason == Base32.Decode(secret).error)
            && (r == Err(InvalidCounter) <==> r != Err(InvalidDigits) && Base32.Decode(secret).Ok? && (counter < 0 || 18446744073709551616 <= counter))
            && (r.Ok? ==> IsCode(hmac, Base32.Decode(secret).value, counter, digits.value.Floor, r.value))
            && (r.Ok? || r.error in {InvalidDigits, InvalidCounter} || r.error.InvalidSecret?)
  {
    var r := GenerateHotp(hmac, secret, counter, digits);
    CounterBufferIsFaithful(counter);
    if r.Ok? {
      var key, block := Base32.Decode(secret).value, CounterBuffer(counter).value;
      CodeIsExact(hmac(key, block), digits.value.Floor);
      CodeIsWellFormed(hmac(key, block), digits.value.Floor);
      assert IsTruncation(hmac(key, block), BinaryCode(hmac(key, block)));
    }
  }

  lemma CodeIsExact(mac: Mac, digits: nat)
    requires 1 <= digits
    ensures IsTruncation(mac, BinaryCode(mac))
  {
    hide Digit256, BigEndianValue, BinaryCode;
    TruncationIsBigEndian(mac);
    DigitIsNumber(mac[19]);
    var o := mac[19] as nat % 16;
    DigitIsNumber(mac[o]);
    DigitIsNumber(mac[o + 1]);
    DigitIsNumber(mac[o + 2]);
    DigitIsNumber(mac[o + 3]);
    FourBytes(Digit256(mac[o]) % 0x80, Digit256(mac[o + 1]), Digit256(mac[o + 2]), Digit256(mac[o + 3]));
  }

  lemma DigitIsNumber(x: Octet)
    ensures Digit256(x) == x as nat
  {
  }

  lemma CounterOf(ms: real, c: nat)
    requires 30000.0 * c as real <= ms < 30000.0 * (c + 1) as real
    ensures CounterAt(ms) == c
  {
  }

  /** The code at a time is that of the 30-second step the time falls in; a time must be finite and not negative. */
  lemma TotpIsExact(hmac: Hmac, secret: Base32.Ascii, ms: real, c: nat)
    ensures 30000.0 * c as real <= ms < 30000.0 * (c + 1) as real ==>
              GenerateTotp(hmac, secret, Finite(ms)) == GenerateHotp(hmac, secret, c, Finite(6.0))
    ensures ms < 0.0 ==> GenerateTotp(hmac, secret, Finite(ms)) == Err(InvalidTimestamp)
    ensures GenerateTotp(hmac, secret, NotFinite) == Err(InvalidTimestamp)
  {
    if 30000.0 * c as real <= ms < 30000.0 * (c + 1) as real {
      CounterOf(ms, c);
    }
  }

  /** `/^\d{6}$/` */
  predicate LooksLikeCode(token: string) { |token| == 6 && forall i :: 0 <= i < 6 ==> 48 <= token[i] as int <= 57 }

  /** What is refused before the search, in the order of the checks. */
  lemma RefusedBeforeSearch(hmac: Hmac, secret: Base32.Ascii, token: string, window: Number, timestamp: Number)
    ensures var r := VerifyOutcome(hmac, secret, token, window, timestamp);
            var validWindow := window.Finite? && window.value >= 0.0 && window.value == window.value.Floor as real;
            && (!LooksLikeCode(token) ==> r == Ok(false))
            && (LooksLikeCode(token) ==> (r == Err(InvalidWindow) <==> !validWindow))
            && (LooksLikeCode(token) && validWindow ==> (r == Err(InvalidTimestamp) <==> timestamp.NotFinite? || timestamp.value < 0.0))
  {
  }

  /**
   With a token of six digits, a valid window and a time in the 30-second step `c`:
   the token passes if and only if it is the HOTP of a counter at most `window` steps away.
  */
  lemma VerificationIsExact(hmac: Hmac, secret: Base32.Ascii, token: string, window: nat, ms: real, c: nat)
    requires LooksLikeCode(token) && 30000.0 * c as real <= ms < 30000.0 * (c + 1) as real
    ensures var r := VerifyOutcome(hmac, secret, token, Finite(window as real), Finite(ms));
            if Base32.Decode(secret).Err? then r == Err(InvalidSecret(Base32.Decode(secret).error))
            else if 18446744073709551616 <= c + window then r == Err(InvalidCounter)
            else r.Ok? && (r.value <==> exists k: nat :: c - window <= k <= c + window && GenerateHotp(hmac, secret, k, Finite(6.0)) == Ok(token))
  {
    hide Base32.Decode, CounterAt, GenerateHotp;
    CounterOf(ms, c);
    var r := VerifyOutcome(hmac, secret, token, Finite(window as real), Finite(ms));
    assert r == WindowOutcome(hmac, secret, token, c, window);
    if k: nat :| c - window <= k <= c + window && GenerateHotp(hmac, secret, k, Finite(6.0)) == Ok(token) {
      assert Hotp6(hmac, secret, k) == Ok(token);
    }
    assert Hotp6(hmac, secret, c) == GenerateHotp(hmac, secret, c, Finite(6.0));
  }
}
