/**
 * The stateful and rule-based security helpers of api/utils/auth.js: the
 * per-key sliding-window rate limiter, the CSRF check, the password-strength
 * scorer with its feedback list, and the token alphabet mapping. Random bytes
 * and the clock are inputs.
 */
module Auth {
  import opened Wrappers
  import opened Text
  import Validation

  // ----------------------------------------------------------- secure token

  newtype byte = x: int | 0 <= x < 256

  /** Position `i` of `chars`: 'A'..'Z', then 'a'..'z', then '0'..'9'. */
  function AlphabetChar(i: nat): char
    requires i < 62
  {
    if i < 26 then (65 + i) as char else if i < 52 then (97 + i - 26) as char else (48 + i - 52) as char
  }


  predicate IsAlnum(c: char) { IsLower(c) || IsUpper(c) || IsDigit(c) }

  const Uppers: string := "ABCDEFGHIJKLMNOPQRSTUVWXYZ"
  const Lowers: string := "abcdefghijklmnopqrstuvwxyz"
  const Digits: string := "0123456789"

  /** `chars`: the upper-case letters, the lower-case letters and the digits, in that order. */
  const TokenAlphabet: string := Uppers + Lowers + Digits

  /** Position `i` of the alphabet holds `AlphabetChar(i)`. */
  lemma {:induction false} AlphabetPositions()
    ensures |TokenAlphabet| == 62
    ensures forall i :: 0 <= i < 62 ==> TokenAlphabet[i] == AlphabetChar(i)
  {
    UppersConsecutive();
    LowersConsecutive();
    DigitsConsecutive();
    forall i | 0 <= i < 62 ensures TokenAlphabet[i] == AlphabetChar(i) {
      if i < 26 {
        assert TokenAlphabet[i] == Uppers[i];
      } else if i < 52 {
        assert TokenAlphabet[i] == Lowers[i - 26];
      } else {
        assert TokenAlphabet[i] == Digits[i - 52];
      }
    }
  }

  /** The characters of `s` are consecutive code points from `first` on. */
  predicate ConsecutiveFrom(s: string, first: char) {
    forall i :: 0 <= i < |s| ==> s[i] as int == first as int + i
  }

  lemma {:induction false} UppersConsecutive()
    ensures |Uppers| == 26 && ConsecutiveFrom(Uppers, 'A')
  {
  }

  lemma {:induction false} LowersConsecutive()
    ensures |Lowers| == 26 && ConsecutiveFrom(Lowers, 'a')
  {
  }

  lemma {:induction false} DigitsConsecutive()
    ensures |Digits| == 10 && ConsecutiveFrom(Digits, '0')
  {
  }

  /** The alphabet's characters are 62 distinct ASCII letters and digits. */
  lemma {:induction false} AlphabetShape()
    ensures |TokenAlphabet| == 62
    ensures forall i :: 0 <= i < 62 ==> IsAlnum(TokenAlphabet[i])
    ensures forall i, j :: 0 <= i < j < 62 ==> TokenAlphabet[i] != TokenAlphabet[j]
  {
    AlphabetPositions();
  }

  /** The character one random byte turns into: `chars.charAt(b % chars.length)`. */
  function TokenChar(b: byte): (c: char)
    ensures IsAlnum(c)
  {
    AlphabetShape();
    TokenAlphabet[b as int % 62]
  }

  /**
   * `generateSecureToken`, with the `length` random bytes given: one
   * alphabet character per byte.
   */
  method GenerateSecureToken(bytes: seq<byte>) returns (result: string)
    ensures |result| == |bytes|
    ensures forall i :: 0 <= i < |bytes| ==> result[i] == TokenAlphabet[bytes[i] as int % 62]
    ensures forall i :: 0 <= i < |result| ==> IsAlnum(result[i])
  {
    result := "";
    for i := 0 to |bytes|
      invariant |result| == i
      invariant forall k :: 0 <= k < i ==> result[k] == TokenChar(bytes[k])
    {
      result := result + [TokenChar(bytes[i])];
    }
  }

  /** Every alphabet character is produced by some byte, so any token over the alphabet can come out. */
  lemma {:induction false} EveryTokenCharReachable(c: char)
    requires c in TokenAlphabet
    ensures exists b: byte :: TokenChar(b) == c
  {
    var i :| 0 <= i < |TokenAlphabet| && TokenAlphabet[i] == c;
    TokenCharAt(i);
  }

  /** The byte `i` picks position `i` of the alphabet. */
  lemma {:induction false} TokenCharAt(i: nat)
    requires i < 62
    ensures TokenChar(i as byte) == TokenAlphabet[i]
  {
    var b: byte := i as byte;
    assert b as int % 62 == b as int;
  }

  // ------------------------------------------------------------ rate limit

  /** The key a request is counted under: `req.ip || req.headers['x-forwarded-for'] || 'unknown'`. */
  function RequestKey(ip: Option<string>, forwardedFor: Option<string>): (k: string)
    ensures Truthy(ip) ==> k == ip.value
    ensures !Truthy(ip) && Truthy(forwardedFor) ==> k == forwardedFor.value
    ensures !Truthy(ip) && !Truthy(forwardedFor) ==> k == "unknown"
    ensures k != ""
  {
    if Truthy(ip) then ip.value else if Truthy(forwardedFor) then forwardedFor.value else "unknown"
  }

  /** `timestamps.filter(t => t > windowStart)`. */
  function After(timestamps: seq<int>, windowStart: int): (r: seq<int>)
    ensures |r| <= |timestamps|
    ensures forall t :: t in r <==> t in timestamps && t > windowStart
  {
    if timestamps == [] then []
    else
      var rest := After(timestamps[1..], windowStart);
      assert timestamps == [timestamps[0]] + timestamps[1..];
      if timestamps[0] > windowStart then [timestamps[0]] + rest else rest
  }

  /** The filter keeps every timestamp inside the window as often as it occurs, and no other. */
  lemma {:induction false} AfterCount(timestamps: seq<int>, windowStart: int)
    ensures forall t :: multiset(After(timestamps, windowStart))[t]
                        == if t > windowStart then multiset(timestamps)[t] else 0
  {
    if timestamps != [] {
      AfterCount(timestamps[1..], windowStart);
      assert timestamps == [timestamps[0]] + timestamps[1..];
    }
  }

  /** The filter keeps the order of the log: it distributes over concatenation. */
  lemma {:induction false} AfterAppend(a: seq<int>, b: seq<int>, windowStart: int)
    ensures After(a + b, windowStart) == After(a, windowStart) + After(b, windowStart)
  {
    if a == [] {
      assert a + b == b;
    } else {
      assert (a + b)[0] == a[0] && (a + b)[1..] == a[1..] + b;
      AfterAppend(a[1..], b, windowStart);
      var h := if a[0] > windowStart then [a[0]] else [];
      calc {
        After(a + b, windowStart);
        h + After(a[1..] + b, windowStart);
        h + (After(a[1..], windowStart) + After(b, windowStart));
        { AppendAssoc(h, After(a[1..], windowStart), After(b, windowStart)); }
        (h + After(a[1..], windowStart)) + After(b, windowStart);
        After(a, windowStart) + After(b, windowStart);
      }
    }
  }

  /** `Math.ceil(windowMs / 1000)`: Dafny's `/` by a positive divisor rounds down. */
  function CeilSeconds(windowMs: int): (s: int)
    ensures s * 1000 >= windowMs > (s - 1) * 1000
  {
    if windowMs % 1000 == 0 then windowMs / 1000 else windowMs / 1000 + 1
  }

  datatype Outcome =
    | Allowed
    | Limited(status: nat, message: string, retryAfter: int)

  const DefaultLimitMessage := "Too many requests, please try again later."

  /** The timestamps of `key` still inside the window once the stale ones are dropped. */
  function Recent(requests: map<string, seq<int>>, key: string, now: int, windowMs: int): seq<int> {
    if key in requests then After(requests[key], now - windowMs) else []
  }

  /**
   * One request of `key` at time `now`: the new table and the answer. The
   * request is refused with 429 exactly when the recent timestamps already
   * number `max`; only an allowed request records `now`.
   */
  function RateStep(requests: map<string, seq<int>>, key: string, now: int,
                    windowMs: int, max: int, message: Option<string>)
    : (r: (map<string, seq<int>>, Outcome))
    ensures r.1.Limited? <==> |Recent(requests, key, now, windowMs)| >= max
    ensures r.1.Limited? ==> r.0 == requests[key := Recent(requests, key, now, windowMs)]
    ensures r.1.Allowed? ==> r.0 == requests[key := Recent(requests, key, now, windowMs) + [now]]
    ensures r.1.Limited? ==> r.1.status == 429 && r.1.retryAfter == CeilSeconds(windowMs)
    ensures r.1.Limited? ==> r.1.message == if Truthy(message) then message.value else DefaultLimitMessage
  {
    var recent := Recent(requests, key, now, windowMs);
    if |recent| >= max then
      (requests[key := recent],
       Limited(429, if Truthy(message) then message.value else DefaultLimitMessage, CeilSeconds(windowMs)))
    else
      (requests[key := recent + [now]], Allowed)
  }

  /** The limiter's invariant: no key holds more than `max` timestamps (none when `max` is not positive). */
  predicate Bounded(requests: map<string, seq<int>>, max: int) {
    forall k :: k in requests ==> |requests[k]| <= (if max < 0 then 0 else max)
  }

  /** Every request keeps the invariant. */
  lemma {:induction false} RateStepBounded(requests: map<string, seq<int>>, key: string, now: int,
                        windowMs: int, max: int, message: Option<string>)
    requires Bounded(requests, max)
    ensures Bounded(RateStep(requests, key, now, windowMs, max, message).0, max)
  {
    var recent := Recent(requests, key, now, windowMs);
    assert key in requests ==> |recent| <= |requests[key]|;
  }

  /** A request changes only its own key's list. */
  lemma {:induction false} RateStepOtherKeys(requests: map<string, seq<int>>, key: string, now: int,
                          windowMs: int, max: int, message: Option<string>, other: string)
    requires other != key
    ensures var r := RateStep(requests, key, now, windowMs, max, message).0;
            (other in r <==> other in requests) && (other in requests ==> r[other] == requests[other])
  {
  }

  /**
   * After any request the key's list holds exactly its timestamps inside the
   * window, plus `now` when the request was allowed.
   */
  lemma {:induction false} RateStepWindow(requests: map<string, seq<int>>, key: string, now: int,
                       windowMs: int, max: int, message: Option<string>)
    ensures var (r, out) := RateStep(requests, key, now, windowMs, max, message);
            forall t :: t in r[key] <==>
              (key in requests && t in requests[key] && t > now - windowMs) || (out.Allowed? && t == now)
  {
  }

  /** The middleware returned by `createRateLimiter(windowMs, max, message)`, with its private map. */
  class RateLimiter {
    const windowMs: int
    const max: int
    const message: Option<string>
    var requests: map<string, seq<int>>

    predicate Valid()
      reads this
    {
      Bounded(requests, max)
    }

    constructor (windowMs: int, max: int, message: Option<string>)
      ensures this.windowMs == windowMs && this.max == max && this.message == message
      ensures requests == map[] && Valid()
    {
      this.windowMs := windowMs;
      this.max := max;
      this.message := message;
      requests := map[];
    }

    /** Handles one request of `key` at time `now`. */
    method Handle(key: string, now: int) returns (outcome: Outcome)
      requires Valid()
      modifies this
      ensures Valid()
      ensures (requests, outcome) == RateStep(old(requests), key, now, windowMs, max, message)
    {
      if key in requests {
        requests := requests[key := After(requests[key], now - windowMs)];
      } else {
        requests := requests[key := []];
      }
      var userRequests := requests[key];
      assert userRequests == Recent(old(requests), key, now, windowMs);
      assert requests == old(requests)[key := userRequests];
      if |userRequests| >= max {
        outcome := Limited(429, if Truthy(message) then message.value else DefaultLimitMessage,
                           CeilSeconds(windowMs));
        RateStepBounded(old(requests), key, now, windowMs, max, message);
        return;
      }
      requests := requests[key := userRequests + [now]];
      assert requests == old(requests)[key := userRequests + [now]];
      outcome := Allowed;
      RateStepBounded(old(requests), key, now, windowMs, max, message);
    }
  }

  // ------------------------------------------------------------------ CSRF

  datatype CsrfRequest = CsrfRequest(
    httpMethod: string,
    headerToken: Option<string>,   // `x-csrf-token` header
    bodyToken: Option<string>,     // `req.body._csrf`
    sessionToken: Option<string>)  // `req.session?.csrfToken`

  datatype CsrfOutcome = Pass | Forbidden(status: nat)

  /** The token the request presents: the header when it is set, else the body field. */
  function PresentedToken(req: CsrfRequest): Option<string> {
    if Truthy(req.headerToken) then req.headerToken else req.bodyToken
  }

  /** `csrfProtection`. */
  function CsrfProtection(req: CsrfRequest): (r: CsrfOutcome)
    ensures r.Pass? <==> (req.httpMethod == "GET"
                          || (Truthy(PresentedToken(req)) && Truthy(req.sessionToken)
                              && PresentedToken(req) == req.sessionToken))
    ensures r.Forbidden? ==> r.status == 403
  {
    if req.httpMethod == "GET" then Pass
    else
      var token := PresentedToken(req);
      if !Truthy(token) || !Truthy(req.sessionToken) || token != req.sessionToken then Forbidden(403)
      else Pass
  }

  /**
   * A set header token decides alone: a state-changing request passes with a
   * correct header whatever the body says, and fails with a wrong one even
   * when the body carries the right token.
   */
  lemma {:induction false} CsrfHeaderWins(req: CsrfRequest)
    requires req.httpMethod != "GET" && Truthy(req.headerToken)
    ensures CsrfProtection(req).Pass? <==> req.headerToken == req.sessionToken
  {
  }

  /** Without a session token only GET requests pass. */
  lemma {:induction false} CsrfNeedsSession(req: CsrfRequest)
    requires !Truthy(req.sessionToken)
    ensures CsrfProtection(req).Pass? <==> req.httpMethod == "GET"
  {
  }

  // ----------------------------------------------------- password strength

  datatype Checks = Checks(length: bool, lowercase: bool, uppercase: bool, numbers: bool, special: bool)

  /** `[@$!%*?&]`. */
  predicate IsSpecial(c: char) { c in "@$!%*?&" }

  predicate HasSpecial(s: string) { exists i | 0 <= i < |s| :: IsSpecial(s[i]) }

  /** The five tests of `checkPasswordStrength`. */
  function PasswordChecks(password: string): Checks {
    Checks(|password| >= 8, Validation.HasLower(password), Validation.HasUpper(password),
           Validation.HasDigit(password), HasSpecial(password))
  }

  function Bit(b: bool): nat { if b then 1 else 0 }

  /** `Object.values(checks).filter(Boolean).length`: the number of satisfied checks. */
  function Score(c: Checks): (n: nat)
    ensures n <= 5
    ensures n == 5 <==> c.length && c.lowercase && c.uppercase && c.numbers && c.special
    ensures n == 0 <==> !c.length && !c.lowercase && !c.uppercase && !c.numbers && !c.special
  {
    Bit(c.length) + Bit(c.lowercase) + Bit(c.uppercase) + Bit(c.numbers) + Bit(c.special)
  }

  const LengthMessage := "Password must be at least 8 characters long"
  const LowercaseMessage := "Include at least one lowercase letter"
  const UppercaseMessage := "Include at least one uppercase letter"
  const NumberMessage := "Include at least one number"
  const SpecialMessage := "Include at least one special character (@$!%*?&)"

  /** The five messages in the order the checks are listed. */
  const Messages: seq<string> := [LengthMessage, LowercaseMessage, UppercaseMessage, NumberMessage, SpecialMessage]

  /** Whether check number `i` (in the order of `Messages`) passed. */
  function Passed(c: Checks, i: nat): bool
    requires i < 5
  {
    match i
    case 0 => c.length
    case 1 => c.lowercase
    case 2 => c.uppercase
    case 3 => c.numbers
    case _ => c.special
  }

  /** The position of a message in `Messages` (5 for any other string). */
  function MessageIndex(m: string): (i: nat)
    ensures i <= 5 && (i < 5 ==> Messages[i] == m)
  {
    if m == LengthMessage then 0
    else if m == LowercaseMessage then 1
    else if m == UppercaseMessage then 2
    else if m == NumberMessage then 3
    else if m == SpecialMessage then 4
    else 5
  }

  /** The messages of the failed checks among the first `n`, in order. */
  function FailedMessages(c: Checks, n: nat): (r: seq<string>)
    requires n <= 5
    ensures |r| <= n
    decreases n
  {
    if n == 0 then []
    else
      var prev := FailedMessages(c, n - 1);
      if Passed(c, n - 1) then prev else prev + [Messages[n - 1]]
  }

  /** Which messages `FailedMessages` holds. */
  lemma {:induction false} FailedMessagesFacts(c: Checks, n: nat)
    requires n <= 5
    ensures var r := FailedMessages(c, n);
            && (forall i :: 0 <= i < n ==> (Messages[i] in r <==> !Passed(c, i)))
            && (forall m :: m in r ==> m in Messages[..n])
    decreases n
  {
    if n > 0 {
      FailedMessagesFacts(c, n - 1);
      assert Messages[..n] == Messages[..n - 1] + [Messages[n - 1]];
      assert Messages[n - 1] !in Messages[..n - 1];
    }
  }

  /** `FailedMessages` follows the order of `Messages`. */
  lemma {:induction false} FailedMessagesOrder(c: Checks, n: nat)
    requires n <= 5
    ensures var r := FailedMessages(c, n);
            && (forall p :: 0 <= p < |r| ==> MessageIndex(r[p]) < n)
            && (forall p, q :: 0 <= p < q < |r| ==> MessageIndex(r[p]) < MessageIndex(r[q]))
    decreases n
  {
    if n > 0 {
      FailedMessagesOrder(c, n - 1);
      assert MessageIndex(Messages[n - 1]) == n - 1;
    }
  }

  /**
   * One message per failed check, in the order the checks are listed (each
   * message comes after those of earlier checks); its length is `5 - Score(c)`.
   */
  function Feedback(c: Checks): (r: seq<string>)
    ensures |r| == 5 - Score(c)
    ensures forall i :: 0 <= i < 5 ==> (Messages[i] in r <==> !Passed(c, i))
    ensures forall p, q :: 0 <= p < q < |r| ==> MessageIndex(r[p]) < MessageIndex(r[q])
  {
    FeedbackCount(c, 5);
    FailuresScore(c);
    FailedMessagesFacts(c, 5);
    FailedMessagesOrder(c, 5);
    FailedMessages(c, 5)
  }

  /** The number of failed checks among the first `n`. */
  function Failures(c: Checks, n: nat): nat
    requires n <= 5
  {
    if n == 0 then 0 else Failures(c, n - 1) + Bit(!Passed(c, n - 1))
  }

  /** One message per failed check among the first `n`. */
  lemma {:induction false} FeedbackCount(c: Checks, n: nat)
    requires n <= 5
    ensures |FailedMessages(c, n)| == Failures(c, n)
    decreases n
  {
    if n > 0 {
      FeedbackCount(c, n - 1);
    }
  }

  /** The failed checks and the score add up to five. */
  lemma {:induction false} FailuresScore(c: Checks)
    ensures Failures(c, 5) == 5 - Score(c)
  {
    assert Failures(c, 1) == Bit(!c.length);
    assert Failures(c, 3) == Failures(c, 1) + Bit(!c.lowercase) + Bit(!c.uppercase);
    assert Failures(c, 5) == Failures(c, 3) + Bit(!c.numbers) + Bit(!c.special);
  }

  /** `getPasswordFeedback`: pushes the message of each failed check in turn. */
  method GetPasswordFeedback(c: Checks) returns (feedback: seq<string>)
    ensures feedback == Feedback(c)
  {
    feedback := [];
    if !c.length { feedback := feedback + [LengthMessage]; }
    if !c.lowercase { feedback := feedback + [LowercaseMessage]; }
    if !c.uppercase { feedback := feedback + [UppercaseMessage]; }
    if !c.numbers { feedback := feedback + [NumberMessage]; }
    if !c.special { feedback := feedback + [SpecialMessage]; }
  }

  datatype Strength = Strength(score: nat, isStrong: bool, checks: Checks, feedback: seq<string>)

  /** `checkPasswordStrength`. */
  function CheckPasswordStrength(password: string): (r: Strength)
    ensures r.score <= 5 && (r.isStrong <==> r.score >= 4)
    ensures r.score == 5 - |r.feedback|
    ensures r.checks == PasswordChecks(password)
    ensures r.score == Score(r.checks) && r.feedback == Feedback(r.checks)
  {
    var c := PasswordChecks(password);
    Strength(Score(c), Score(c) >= 4, c, Feedback(c))
  }

  /** A password `validatePassword` accepts is strong: it passes the first four checks. */
  lemma {:induction false} AcceptedPasswordIsStrong(password: string)
    requires Validation.ValidatePassword(password)
    ensures CheckPasswordStrength(password).isStrong
  {
    Validation.PasswordRule(password);
  }
}
