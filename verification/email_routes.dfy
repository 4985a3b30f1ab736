/** The verification-code store of `backend/src/emailRoutes.js`: a map from email
    to the code sent and the time it expires, with `/send-verification`,
    `/verify-code` and the periodic sweep as transitions. The clock (`Date.now()`),
    `Math.random()` and the outcome of sending the email are parameters. */
module EmailRoutes {
  import opened Wrappers
  import opened Strings
  import Http

  /** The code sent to an email and the millisecond time after which it is stale. */
  datatype Entry = Entry(code: string, expires: int)

  /** `verificationCodes`: at most one live entry per email. */
  type Store = map<string, Entry>

  /** A code stays valid for 10 minutes, in milliseconds. */
  const CodeLifetime := 600000

  /** The message the route asks the mail service to send, if any. */
  datatype Mail = Mail(to: string, code: string)

  /** A route's status and, for `/send-verification`, the email it tried to send. */
  datatype Reply = Reply(status: int, mail: Option<Mail>)

  /** `Math.floor(100000 + random * 900000)` for a `random` in [0, 1). */
  function CodeNumber(random: real): (n: int)
    requires 0.0 <= random < 1.0
    ensures 100000 <= n <= 999999
    ensures n as real <= 100000.0 + random * 900000.0 < n as real + 1.0
  {
    (100000.0 + random * 900000.0).Floor
  }

  /** `generateVerificationCode`: the decimal form of `CodeNumber`, always six digits. */
  function GenerateCode(random: real): (code: string)
    requires 0.0 <= random < 1.0
    ensures |code| == 6
    ensures forall i :: 0 <= i < |code| ==> '0' <= code[i] <= '9'
    ensures code[0] != '0'
    ensures ParseInt(code) == Some(CodeNumber(random))
  {
    var n := CodeNumber(random);
    assert Pow10(5) == 100000 && Pow10(6) == 1000000;
    NatToStringLength(n, 6);
    ParseIntOfNatToString(n);
    NatToString(n)
  }

  /** `email && email.includes('@')`. */
  predicate AcceptableEmail(email: Option<string>) {
    Truthy(email) && '@' in email.value
  }

  /** `POST /send-verification`: a missing or '@'-less email is 400 with the store
      untouched. Otherwise a fresh code is stored for the email, replacing any
      earlier one, BEFORE the email goes out; a failed send is 500 but keeps the
      stored entry. */
  function SendVerification(store: Store, email: Option<string>, now: int, random: real, sendSucceeds: bool): (r: (Store, Reply))
    requires 0.0 <= random < 1.0
    ensures !AcceptableEmail(email) ==> r == (store, Reply(Http.BadRequest, None))
    ensures AcceptableEmail(email) ==>
      && r.0 == store[email.value := Entry(GenerateCode(random), now + CodeLifetime)]
      && r.1.mail == Some(Mail(email.value, GenerateCode(random)))
      && r.1.status == (if sendSucceeds then Http.OK else Http.ServerError)
  {
    if !AcceptableEmail(email) then (store, Reply(Http.BadRequest, None))
    else
      var code := GenerateCode(random);
      var store' := store[email.value := Entry(code, now + CodeLifetime)];
      (store', Reply(if sendSucceeds then Http.OK else Http.ServerError, Some(Mail(email.value, code))))
  }

  /** `POST /verify-code`. Missing fields and an email with no entry are 400 with
      the store untouched; a stale entry (`now > expires`) is deleted and 400; a
      wrong code is 400 and the entry stays for another try; the right code in
      time is 200 and the entry is consumed. */
  function VerifyCode(store: Store, email: Option<string>, code: Option<string>, now: int): (r: (Store, int))
    ensures r.1 == Http.OK || r.1 == Http.BadRequest
    ensures r.1 == Http.OK <==>
      Truthy(email) && Truthy(code) && email.value in store
      && now <= store[email.value].expires && store[email.value].code == code.value
    ensures r.1 == Http.OK ==> r.0 == store - {email.value}
    ensures r.1 == Http.BadRequest ==> r.0 == store || (email.Some? && r.0 == store - {email.value})
    ensures Truthy(email) && Truthy(code) && email.value in store && now > store[email.value].expires ==>
      r.0 == store - {email.value}
    ensures (Truthy(email) && Truthy(code) && email.value in store && now <= store[email.value].expires
             && store[email.value].code != code.value) ==> r.0 == store
  {
    if !Truthy(email) || !Truthy(code) then (store, Http.BadRequest)
    else if email.value !in store then (store, Http.BadRequest)
    else
      var stored := store[email.value];
      if now > stored.expires then (store - {email.value}, Http.BadRequest)
      else if stored.code != code.value then (store, Http.BadRequest)
      else (store - {email.value}, Http.OK)
  }

  /** The five-minute cleanup: drop every entry with `now > expires`. */
  function Sweep(store: Store, now: int): (r: Store)
    ensures forall e :: e in r <==> e in store && now <= store[e].expires
    ensures forall e :: e in r ==> r[e] == store[e]
  {
    map e | e in store && now <= store[e].expires :: store[e]
  }

  /** A code sent at `now` verifies with the same code up to and including
      `now + CodeLifetime`, and the entry is then gone. */
  lemma SendThenVerify(store: Store, email: string, now: int, random: real, sendSucceeds: bool, later: int)
    requires 0.0 <= random < 1.0 && '@' in email
    requires now <= later <= now + CodeLifetime
    ensures var (s1, reply) := SendVerification(store, Some(email), now, random, sendSucceeds);
      reply.mail.Some? && VerifyCode(s1, Some(email), Some(reply.mail.value.code), later) == (s1 - {email}, Http.OK)
  {
    SendStores(store, email, now, random, sendSucceeds);
  }

  /** What a successful `/send-verification` leaves behind: a non-empty code, both
      mailed and stored under the email with the full lifetime. */
  lemma SendStores(store: Store, email: string, now: int, random: real, sendSucceeds: bool)
    requires 0.0 <= random < 1.0 && '@' in email
    ensures var (s1, reply) := SendVerification(store, Some(email), now, random, sendSucceeds);
      && reply.mail.Some? && reply.mail.value.code != ""
      && email in s1 && s1[email] == Entry(reply.mail.value.code, now + CodeLifetime)
  {
  }

  /** One millisecond after the deadline the right code no longer verifies, and the entry goes. */
  lemma SendThenLate(store: Store, email: string, now: int, random: real, sendSucceeds: bool)
    requires 0.0 <= random < 1.0 && '@' in email
    ensures var (s1, reply) := SendVerification(store, Some(email), now, random, sendSucceeds);
      reply.mail.Some? &&
      VerifyCode(s1, Some(email), Some(reply.mail.value.code), now + CodeLifetime + 1) == (s1 - {email}, Http.BadRequest)
  {
    SendStores(store, email, now, random, sendSucceeds);
  }

  /** A code is single use: after a successful verification the same request fails. */
  lemma SingleUse(store: Store, email: Option<string>, code: Option<string>, now: int, later: int)
    requires VerifyCode(store, email, code, now).1 == Http.OK
    ensures VerifyCode(VerifyCode(store, email, code, now).0, email, code, later).1 == Http.BadRequest
  {
  }

  /** A wrong guess does not use up the code: the right one still works afterwards. */
  lemma RetryAfterWrongGuess(store: Store, email: string, guess: string, now: int, later: int)
    requires email != "" && email in store && guess != "" && store[email].code != ""
    requires guess != store[email].code && now <= later <= store[email].expires
    ensures var s1 := VerifyCode(store, Some(email), Some(guess), now);
      s1 == (store, Http.BadRequest) &&
      VerifyCode(s1.0, Some(email), Some(store[email].code), later) == (store - {email}, Http.OK)
  {
  }

  /** The sweep never changes how a verification at the same time is answered. */
  lemma SweepKeepsVerifyAnswers(store: Store, email: Option<string>, code: Option<string>, now: int)
    ensures VerifyCode(Sweep(store, now), email, code, now).1 == VerifyCode(store, email, code, now).1
  {
  }

  /** Sweeping twice at the same time is sweeping once, and a later sweep removes
      at least what an earlier one did. */
  lemma SweepIdempotentAndMonotone(store: Store, now: int, later: int)
    requires now <= later
    ensures Sweep(Sweep(store, now), now) == Sweep(store, now)
    ensures Sweep(Sweep(store, now), later) == Sweep(store, later)
  {
    assert Sweep(Sweep(store, now), now).Keys == Sweep(store, now).Keys;
    assert Sweep(Sweep(store, now), later).Keys == Sweep(store, later).Keys;
  }
}
