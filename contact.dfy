/**
 * The guard logic of the contact form's API route, src/pages/api/contact.js:
 * a per-IP sliding-window rate limiter over a module-level map, an ordered
 * input validator with an email shape check, a sanitiser, and the order in
 * which the handler picks its response. `Date.now()` is the `now` parameter;
 * whether mail is configured and how sending ends are parameters too.
 */
module Contact {
  import opened Text

  /** RATE_LIMIT_WINDOW, in milliseconds. */
  const RateLimitWindow: int := 60000

  /** RATE_LIMIT_MAX_REQUESTS. */
  const RateLimitMaxRequests: nat := 3

  /** `now - time < RATE_LIMIT_WINDOW`. */
  predicate InWindow(now: int, time: int) {
    now - time < RateLimitWindow
  }

  /** `rateLimitMap.get(ip) || []`. */
  function Stored(requests: map<string, seq<int>>, ip: string): seq<int> {
    if ip in requests then requests[ip] else []
  }

  /** `requests.filter(time => now - time < RATE_LIMIT_WINDOW)`. */
  function Recent(times: seq<int>, now: int): (r: seq<int>)
    ensures |r| <= |times|
    ensures forall i | 0 <= i < |r| :: InWindow(now, r[i])
  {
    Filter(times, (time: int) => InWindow(now, time))
  }

  /** Whether a request from `ip` at `now` is refused: three or more of its stored times are in the window. */
  predicate Limited(requests: map<string, seq<int>>, ip: string, now: int) {
    |Recent(Stored(requests, ip), now)| >= RateLimitMaxRequests
  }

  /** The map after a request from `ip` at `now`: unchanged when refused, else the recent times and `now`. */
  function AfterRequest(requests: map<string, seq<int>>, ip: string, now: int): (m: map<string, seq<int>>)
    ensures Limited(requests, ip, now) ==> m == requests
    ensures !Limited(requests, ip, now) ==>
      ip in m && 1 <= |m[ip]| <= RateLimitMaxRequests && m[ip][|m[ip]| - 1] == now
      && forall i | 0 <= i < |m[ip]| :: InWindow(now, m[ip][i])
    ensures forall other | other != ip :: Stored(m, other) == Stored(requests, other)
  {
    if Limited(requests, ip, now) then requests
    else requests[ip := Recent(Stored(requests, ip), now) + [now]]
  }

  /** rateLimitMap and isRateLimited. */
  class RateLimiter {
    var requests: map<string, seq<int>>

    constructor ()
      ensures requests == map[]
    {
      requests := map[];
    }

    /**
     * isRateLimited: refuses the request when three or more of the IP's
     * stored times lie within the last minute, leaving the map alone;
     * otherwise stores the in-window times followed by `now`.
     */
    method IsRateLimited(ip: string, now: int) returns (limited: bool)
      modifies this
      ensures limited == Limited(old(requests), ip, now)
      ensures requests == AfterRequest(old(requests), ip, now)
    {
      var stored := if ip in requests then requests[ip] else [];
      var recentRequests := Recent(stored, now);
      if |recentRequests| >= RateLimitMaxRequests {
        return true;
      }
      recentRequests := recentRequests + [now];
      requests := requests[ip := recentRequests];
      return false;
    }
  }

  /** One call of isRateLimited in a trace. */
  datatype Call = Call(ip: string, now: int)

  /** The map after a trace of calls, starting from the empty map. */
  function Replay(calls: seq<Call>): map<string, seq<int>> {
    if calls == [] then map[]
    else
      var c := calls[|calls| - 1];
      AfterRequest(Replay(calls[..|calls| - 1]), c.ip, c.now)
  }

  /** The times of the calls from `ip` that were let through, in order. */
  function Accepted(calls: seq<Call>, ip: string): seq<int> {
    if calls == [] then []
    else
      var before := calls[..|calls| - 1];
      var c := calls[|calls| - 1];
      Accepted(before, ip) + (if c.ip == ip && !Limited(Replay(before), c.ip, c.now) then [c.now] else [])
  }

  /** The clock never goes back over the trace. */
  predicate Monotone(calls: seq<Call>) {
    forall i, j | 0 <= i < j < |calls| :: calls[i].now <= calls[j].now
  }

  /** Every stored list holds at most three times. */
  lemma {:induction false} StoredAtMostThree(calls: seq<Call>, ip: string)
    ensures |Stored(Replay(calls), ip)| <= RateLimitMaxRequests
  {
    if calls != [] {
      StoredAtMostThree(calls[..|calls| - 1], ip);
    }
  }

  /** The in-window part of a list, taken at a later time, only shrinks further. */
  lemma RecentLater(times: seq<int>, earlier: int, later: int)
    requires earlier <= later
    ensures Recent(Recent(times, earlier), later) == Recent(times, later)
  {
    FilterOfFilter(times, (time: int) => InWindow(earlier, time), (time: int) => InWindow(later, time));
  }

  /** Appending an accepted time keeps the stored and the accepted lists in step. */
  lemma AppendAccepted(stored: seq<int>, accepted: seq<int>, time: int, now: int)
    requires Recent(stored, time) == Recent(accepted, time) && time <= now
    ensures Recent(Recent(stored, time) + [time], now) == Recent(accepted + [time], now)
  {
    var inWindow := (t: int) => InWindow(now, t);
    FilterAppend(Recent(stored, time), [time], inWindow);
    FilterAppend(accepted, [time], inWindow);
    RecentLater(accepted, time, now);
  }

  lemma MonotonePrefix(calls: seq<Call>)
    requires Monotone(calls) && calls != []
    ensures Monotone(calls[..|calls| - 1])
    ensures |calls| >= 2 ==> calls[|calls| - 2].now <= calls[|calls| - 1].now
  {
    var before := calls[..|calls| - 1];
    forall i, j | 0 <= i < j < |before|
      ensures before[i].now <= before[j].now
    {
      assert before[i] == calls[i] && before[j] == calls[j];
    }
  }

  /**
   * What the map remembers for an IP is exactly enough: at any time from the
   * last call on, its in-window stored times are the in-window accepted times.
   */
  lemma {:induction false} ReplayRemembersAccepted(calls: seq<Call>, ip: string, now: int)
    requires Monotone(calls)
    requires calls != [] ==> calls[|calls| - 1].now <= now
    ensures Recent(Stored(Replay(calls), ip), now) == Recent(Accepted(calls, ip), now)
  {
    if calls != [] {
      var before := calls[..|calls| - 1];
      var c := calls[|calls| - 1];
      var m := Replay(before);
      MonotonePrefix(calls);
      if before != [] {
        assert before[|before| - 1] == calls[|calls| - 2];
      }
      if c.ip == ip && !Limited(m, ip, c.now) {
        ReplayRemembersAccepted(before, ip, c.now);
        AppendAccepted(Stored(m, ip), Accepted(before, ip), c.now, now);
      } else {
        ReplayRemembersAccepted(before, ip, now);
        ConcatEmpty(Accepted(before, ip));
      }
    }
  }

  /**
   * The limiter's guarantee: with a clock that never goes back, at any
   * time from the last call on, at most three of an IP's accepted requests
   * lie within the window.
   */
  lemma AtMostThreePerWindow(calls: seq<Call>, ip: string, now: int)
    requires Monotone(calls)
    requires calls != [] ==> calls[|calls| - 1].now <= now
    ensures |Recent(Accepted(calls, ip), now)| <= RateLimitMaxRequests
  {
    ReplayRemembersAccepted(calls, ip, now);
    StoredAtMostThree(calls, ip);
  }

  /** A contact form submission; an absent field is the empty string, as both are falsy. */
  datatype ContactForm = ContactForm(name: string, email: string, subject: string, message: string)

  datatype Validation = Valid | Invalid(error: string)

  /** `[^\s@]`. */
  predicate EmailChar(c: char) {
    !IsSpace(c) && c != '@'
  }

  predicate AllEmailChars(s: string) {
    forall i | 0 <= i < |s| :: EmailChar(s[i])
  }

  /**
   * `[^\s@]+\.[^\s@]+$` after the `@`: the greedy first run takes the whole
   * domain and gives it back until a `.` is followed by at least one
   * character, so it matches at the last `.` before the final character,
   * provided the run before that `.` is not empty.
   */
  predicate DomainMatches(d: string) {
    |d| >= 3 && AllEmailChars(d)
    && match LastIndex(d[..|d| - 1], '.')
       case Some(k) => k >= 1
       case None => false
  }

  /** `/^[^\s@]+@[^\s@]+\.[^\s@]+$/.test(email)`: the local part runs to the first `@`. */
  predicate EmailMatches(email: string) {
    var a := IndexOf(email, '@');
    1 <= a < |email| && AllEmailChars(email[..a]) && DomainMatches(email[a + 1..])
  }

  /**
   * The shape the pattern accepts: no whitespace, exactly one `@` with a
   * non-empty part before it, and a `.` in the domain that is neither its
   * first nor its last character.
   */
  predicate EmailShape(email: string) {
    var a := IndexOf(email, '@');
    && (forall i | 0 <= i < |email| :: !IsSpace(email[i]))
    && 1 <= a < |email|
    && (forall i | a < i < |email| :: email[i] != '@')
    && (exists k | a + 1 < k < |email| - 1 :: email[k] == '.')
  }

  lemma EmailMatchesShape(email: string)
    ensures EmailMatches(email) <==> EmailShape(email)
  {
    if EmailMatches(email) {
      MatchesHasShape(email);
    }
    if EmailShape(email) {
      ShapeMatches(email);
    }
  }

  lemma MatchesHasShape(email: string)
    requires EmailMatches(email)
    ensures EmailShape(email)
  {
    var a := IndexOf(email, '@');
    var d := email[a + 1..];
    assert forall i | a < i < |email| :: email[i] == d[i - a - 1];
    var k := LastIndex(d[..|d| - 1], '.').value;
    assert email[a + 1 + k] == d[k];
    forall i | 0 <= i < |email|
      ensures !IsSpace(email[i])
    {
      if i < a {
        assert email[i] == email[..a][i];
      } else if i > a {
        assert email[i] == d[i - a - 1];
      }
    }
  }

  lemma ShapeMatches(email: string)
    requires EmailShape(email)
    ensures EmailMatches(email)
  {
    var a := IndexOf(email, '@');
    var local := email[..a];
    var d := email[a + 1..];
    forall i | 0 <= i < |local|
      ensures EmailChar(local[i])
    {
      assert local[i] == email[i];
    }
    forall i | 0 <= i < |d|
      ensures EmailChar(d[i])
    {
      assert d[i] == email[a + 1 + i];
    }
    var k :| a + 1 < k < |email| - 1 && email[k] == '.';
    var body := d[..|d| - 1];
    assert body[k - a - 1] == email[k];
    LastIndexIsLast(body, '.', k - a - 1);
  }

  /** No occurrence of `c` comes after the last one. */
  lemma {:induction false} LastIndexIsLast(t: string, c: char, i: nat)
    requires i < |t| && t[i] == c
    ensures LastIndex(t, c).Some? && LastIndex(t, c).value >= i
  {
    if t[|t| - 1] != c {
      assert t[..|t| - 1][i] == c;
      LastIndexIsLast(t[..|t| - 1], c, i);
    }
  }

  /** validateInput's error messages. */
  const NameTooShort: string := "Name must be at least 2 characters long"
  const InvalidEmail: string := "Please provide a valid email address"
  const SubjectTooShort: string := "Subject must be at least 3 characters long"
  const MessageTooShort: string := "Message must be at least 10 characters long"
  const NameTooLong: string := "Name is too long"
  const SubjectTooLong: string := "Subject is too long"
  const MessageTooLong: string := "Message is too long"

  /** validateInput: the first failing check, in the source's order, with its message. */
  function ValidateInput(form: ContactForm): (v: Validation)
    ensures v.Valid? ==>
      && 2 <= |Trim(form.name)| && |form.name| <= 100
      && EmailShape(form.email)
      && 3 <= |Trim(form.subject)| && |form.subject| <= 200
      && 10 <= |Trim(form.message)| && |form.message| <= 5000
  {
    EmailMatchesShape(form.email);
    if form.name == [] || |Trim(form.name)| < 2 then Invalid(NameTooShort)
    else if form.email == [] || !EmailMatches(form.email) then Invalid(InvalidEmail)
    else if form.subject == [] || |Trim(form.subject)| < 3 then Invalid(SubjectTooShort)
    else if form.message == [] || |Trim(form.message)| < 10 then Invalid(MessageTooShort)
    else if |form.name| > 100 then Invalid(NameTooLong)
    else if |form.subject| > 200 then Invalid(SubjectTooLong)
    else if |form.message| > 5000 then Invalid(MessageTooLong)
    else Valid
  }

  /** The checks validateInput makes, in order, each as "fails" with its message. */
  function Checks(form: ContactForm): seq<(bool, string)> {
    [ (|Trim(form.name)| < 2, NameTooShort),
      (!EmailShape(form.email), InvalidEmail),
      (|Trim(form.subject)| < 3, SubjectTooShort),
      (|Trim(form.message)| < 10, MessageTooShort),
      (|form.name| > 100, NameTooLong),
      (|form.subject| > 200, SubjectTooLong),
      (|form.message| > 5000, MessageTooLong) ]
  }

  /**
   * validateInput accepts exactly when no check fails, and otherwise reports
   * the message of the first check that fails.
   */
  lemma ValidateFirstFailure(form: ContactForm)
    ensures var checks := Checks(form);
      && (ValidateInput(form).Valid? <==> forall i | 0 <= i < |checks| :: !checks[i].0)
      && (ValidateInput(form).Invalid? ==>
            exists i | 0 <= i < |checks| ::
              checks[i].0 && ValidateInput(form).error == checks[i].1
              && forall j | 0 <= j < i :: !checks[j].0)
  {
    EmailMatchesShape(form.email);
    var checks := Checks(form);
    var v := ValidateInput(form);
    var first :=
      if checks[0].0 then 0 else if checks[1].0 then 1 else if checks[2].0 then 2
      else if checks[3].0 then 3 else if checks[4].0 then 4 else if checks[5].0 then 5
      else if checks[6].0 then 6 else 7;
    forall j | 0 <= j < first
      ensures !checks[j].0
    {
      assert j == 0 || j == 1 || j == 2 || j == 3 || j == 4 || j == 5 || j == 6;
    }
    if first < 7 {
      assert checks[first].0 && v.error == checks[first].1;
    }
  }

  /** A name that is too long is only reported once the email is valid. */
  lemma EmailCheckedBeforeNameLength(form: ContactForm)
    requires 2 <= |Trim(form.name)| && |form.name| > 100
    requires !EmailShape(form.email)
    ensures ValidateInput(form) == Invalid(InvalidEmail)
  {
    EmailMatchesShape(form.email);
  }

  /** A character `/[<>]/` does not match. */
  predicate NotAngle(c: char) {
    c != '<' && c != '>'
  }

  /** `str.trim().replace(/[<>]/g, '')`. */
  function SanitizeInput(s: string): (r: string)
    ensures '<' !in r && '>' !in r
  {
    Filter(Trim(s), NotAngle)
  }

  /** Sanitising only deletes characters. */
  lemma SanitizeDeletesOnly(s: string)
    ensures IsSubseq(SanitizeInput(s), s)
  {
    var t := Trim(s);
    SubseqFilter(t, NotAngle);
    SubseqSlice(s, LeadingSpaces(s), LeadingSpaces(s) + |t|);
    SubseqTrans(SanitizeInput(s), t, s);
  }

  /** Sanitising twice only trims again: the first pass left no angle brackets. */
  lemma SanitizeTwice(s: string)
    ensures SanitizeInput(SanitizeInput(s)) == Trim(SanitizeInput(s))
  {
    var r := SanitizeInput(s);
    TrimPreserves(r, NotAngle);
    FilterKeepsAll(Trim(r), NotAngle);
  }

  /** Trimming before removal: `"a <"` becomes `"a "`, which sanitises to `"a"`, so sanitizeInput is not idempotent. */
  lemma SanitizeNotIdempotent()
    ensures SanitizeInput("a <") == "a "
    ensures SanitizeInput(SanitizeInput("a <")) == "a"
  {
    var keep := NotAngle;
    assert LeadingSpaces("a <") == 0;
    assert TrailingSpaces("a <") == 0;
    assert Trim("a <") == "a <";
    assert "a <"[1..] == " <" && " <"[1..] == "<" && "<"[1..] == [];
    assert Filter("<", keep) == [];
    assert Filter(" <", keep) == " ";
    assert Filter("a <", keep) == "a ";
    assert LeadingSpaces("a ") == 0;
    assert "a "[..1] == "a";
    assert TrailingSpaces("a ") == 1;
    assert Trim("a ") == "a";
    assert "a"[1..] == [];
    assert Filter("a", keep) == "a";
  }

  /** The handler's fixed reply texts. */
  const MethodNotAllowed: string := "Method not allowed"
  const TooManyRequests: string := "Too many requests. Please wait a minute before sending another message."
  const NotConfigured: string := "Email service not configured. Please contact the administrator."
  const SentMessage: string := "Email sent successfully!"
  const AuthFailed: string := "Email service configuration error. Please try again later."
  const SendFailed: string := "Failed to send email. Please try again later."

  /** How sending the mail ends: delivered, refused with EAUTH, or failed otherwise. */
  datatype SendOutcome = Sent | AuthError | OtherError

  /** The JSON reply: its status and the `error` or `message` text. */
  datatype Reply = Failure(status: nat, error: string) | Success(message: string)

  /** The sanitised fields the handler passes on to the mailer. */
  datatype Mail = Mail(name: string, email: string, subject: string, message: string)

  /**
   * The handler's decision order: method, then rate limit, then
   * validation, then configuration, then the outcome of sending.
   */
  function Decide(isPost: bool, limited: bool, validation: Validation, configured: bool, outcome: SendOutcome): (r: Reply)
    ensures r.Success? <==> isPost && !limited && validation.Valid? && configured && outcome == Sent
    ensures !isPost ==> r == Failure(405, MethodNotAllowed)
    ensures isPost && limited ==> r.Failure? && r.status == 429
    ensures isPost && !limited && validation.Invalid? ==> r == Failure(400, validation.error)
  {
    if !isPost then Failure(405, MethodNotAllowed)
    else if limited then Failure(429, TooManyRequests)
    else if validation.Invalid? then Failure(400, validation.error)
    else if !configured then Failure(500, NotConfigured)
    else
      match outcome
      case Sent => Success(SentMessage)
      case AuthError => Failure(500, AuthFailed)
      case OtherError => Failure(500, SendFailed)
  }

  /**
   * handler: a non-POST request is refused without touching the limiter;
   * a POST always goes through the limiter first, so an invalid submission
   * still uses up quota. The mail, when one is prepared, holds the
   * sanitised fields.
   */
  method Handle(limiter: RateLimiter, requestMethod: string, ip: string, form: ContactForm, now: int,
                configured: bool, outcome: SendOutcome)
    returns (reply: Reply, mail: Option<Mail>)
    modifies limiter
    ensures requestMethod != "POST" ==> limiter.requests == old(limiter.requests)
    ensures requestMethod == "POST" ==> limiter.requests == AfterRequest(old(limiter.requests), ip, now)
    ensures reply == Decide(requestMethod == "POST", Limited(old(limiter.requests), ip, now),
                            ValidateInput(form), configured, outcome)
    ensures mail.Some? <==> requestMethod == "POST" && !Limited(old(limiter.requests), ip, now)
                            && ValidateInput(form).Valid? && configured
    ensures mail.Some? ==> mail.value == Mail(SanitizeInput(form.name), SanitizeInput(form.email),
                                              SanitizeInput(form.subject), SanitizeInput(form.message))
  {
    mail := None;
    if requestMethod != "POST" {
      return Failure(405, MethodNotAllowed), mail;
    }
    var limited := limiter.IsRateLimited(ip, now);
    if limited {
      return Failure(429, TooManyRequests), mail;
    }
    reply, mail := Respond(ValidateInput(form), form, configured, outcome);
  }

  /** The handler once the request has passed the method check and the limiter. */
  method Respond(validation: Validation, form: ContactForm, configured: bool, outcome: SendOutcome)
    returns (reply: Reply, mail: Option<Mail>)
    ensures reply == Decide(true, false, validation, configured, outcome)
    ensures mail.Some? <==> validation.Valid? && configured
    ensures mail.Some? ==> mail.value == Mail(SanitizeInput(form.name), SanitizeInput(form.email),
                                              SanitizeInput(form.subject), SanitizeInput(form.message))
  {
    mail := None;
    if validation.Invalid? {
      return Failure(400, validation.error), mail;
    }
    var name := SanitizeInput(form.name);
    var email := SanitizeInput(form.email);
    var subject := SanitizeInput(form.subject);
    var message := SanitizeInput(form.message);
    if !configured {
      return Failure(500, NotConfigured), mail;
    }
    mail := Some(Mail(name, email, subject, message));
    match outcome
    case Sent => reply := Success(SentMessage);
    case AuthError => reply := Failure(500, AuthFailed);
    case OtherError => reply := Failure(500, SendFailed);
  }

  /**
   * Three requests from one IP inside a minute, whatever they carry, use up
   * its quota: the fourth is refused, valid or not.
   */
  lemma FourthRequestRefused(m: map<string, seq<int>>, ip: string, t1: int, t2: int, t3: int, t4: int)
    requires ip !in m
    requires t1 <= t2 <= t3 <= t4 && t4 - t1 < RateLimitWindow
    ensures var m3 := AfterRequest(AfterRequest(AfterRequest(m, ip, t1), ip, t2), ip, t3);
      !Limited(m, ip, t1) && !Limited(AfterRequest(m, ip, t1), ip, t2)
      && !Limited(AfterRequest(AfterRequest(m, ip, t1), ip, t2), ip, t3)
      && Limited(m3, ip, t4)
  {
    var m1 := AfterRequest(m, ip, t1);
    AcceptedStep(m, ip, t1, []);
    RecentAllInWindow([t1], t2);
    var m2 := AfterRequest(m1, ip, t2);
    AcceptedStep(m1, ip, t2, [t1]);
    RecentAllInWindow([t1] + [t2], t3);
    AcceptedStep(m2, ip, t3, [t1] + [t2]);
    RecentAllInWindow([t1] + [t2] + [t3], t4);
  }

  /** A request whose IP has fewer than three recent times is let through and stored after them. */
  lemma AcceptedStep(m: map<string, seq<int>>, ip: string, now: int, recent: seq<int>)
    requires Recent(Stored(m, ip), now) == recent && |recent| < RateLimitMaxRequests
    ensures !Limited(m, ip, now) && Stored(AfterRequest(m, ip, now), ip) == recent + [now]
  {
  }

  /** Times that all lie in the window are all recent. */
  lemma RecentAllInWindow(times: seq<int>, now: int)
    requires forall i | 0 <= i < |times| :: InWindow(now, times[i])
    ensures Recent(times, now) == times
  {
    FilterKeepsAll(times, (time: int) => InWindow(now, time));
  }
}
