/** Where a login comes from: whoever is let in was enrolled by an exchange in the run, and
    shows the code or the signature that goes with what that exchange stored. */
module Authenticity {
  import opened Machine
  import opened Primitives
  import opened Challenges
  import opened Enrollment
  import opened Server
  import opened ServerRuns
  import opened ServerInvariants
  import PqTotp

  lemma {:induction false} RunConcat(lib: Library, s: State, events1: seq<Event>, events2: seq<Event>)
    ensures Run(lib, s, events1 + events2) == Run(lib, Run(lib, s, events1), events2)
    decreases |events1|
  {
    var all := events1 + events2;
    if events1 == [] {
      assert all == events2;
    } else {
      assert all[0] == events1[0] && all[1..] == events1[1..] + events2;
      RunConcat(lib, Step(lib, s, events1[0]).0, events1[1..], events2);
    }
  }

  /** The state before request `n`, and the reply to it. */
  ghost function Before(lib: Library, serverId: Bytes, events: seq<Event>, n: nat): State
    requires n <= |events|
  {
    Run(lib, Init(serverId), events[..n])
  }

  ghost function ReplyTo(lib: Library, serverId: Bytes, events: seq<Event>, n: nat): Reply
    requires n < |events|
  {
    Step(lib, Before(lib, serverId, events, n), events[n]).1
  }

  lemma NextState(lib: Library, serverId: Bytes, events: seq<Event>, n: nat)
    requires n < |events|
    ensures Before(lib, serverId, events, n + 1) == Step(lib, Before(lib, serverId, events, n), events[n]).0
  {
    assert events[..n + 1] == events[..n] + [events[n]];
    RunConcat(lib, Init(serverId), events[..n], [events[n]]);
  }

  // Origins.

  /** Request `i` began this enrollment. */
  ghost predicate BegunAt(lib: Library, serverId: Bytes, events: seq<Event>, i: int, user: string, enrolling: ServerEnrollment) {
    && 0 <= i < |events| && events[i].op.EnrollBegin? && events[i].op.user == user
    && ReplyTo(lib, serverId, events, i).Begun?
    && var kp := lib.kyberKeypair(events[i].op.seed);
       enrolling == ServerEnrollment(kp.publicKey, kp.secretKey, serverId)
  }

  /** Request `i` issued this challenge. */
  ghost predicate IssuedAt(lib: Library, serverId: Bytes, events: seq<Event>, i: int, user: string, c: Challenge) {
    && 0 <= i < |events| && events[i].op == IssueChallenge(user, c.nonce) && events[i].clock.main == c.issuedAt
    && ReplyTo(lib, serverId, events, i).Issued?
  }

  /** Requests `i` and `j` are the two of the exchange that stored this record: the key is
      the one sent, and the seed is hashed from the domain, the secret that the key pair of
      the first request decapsulates, and the server's identity. */
  ghost predicate ExchangeAt(lib: Library, serverId: Bytes, events: seq<Event>, i: int, j: int, user: string, record: EnrollmentRecord) {
    && 0 <= i < j < |events|
    && events[i].op.EnrollBegin? && events[i].op.user == user && ReplyTo(lib, serverId, events, i).Begun?
    && events[j].op.EnrollComplete? && events[j].op.user == user && ReplyTo(lib, serverId, events, j) == Enrolled
    && lib.hexDecode(events[j].op.publicKeyHex) == Some(record.dilithiumPublicKey)
    && lib.hexDecode(events[j].op.ciphertextHex).Some?
    && var secret := lib.decapsulate(lib.kyberKeypair(events[i].op.seed).secretKey, lib.hexDecode(events[j].op.ciphertextHex).value);
    && secret.Ok?
    && record.serverId == serverId
    && record.totpSeed == lib.shake(TOTP_SEED_DOMAIN + secret.value + serverId, 32)
  }

  /** Everything held about the user was put there by one of the first `n` requests. */
  ghost predicate Traceable(lib: Library, serverId: Bytes, events: seq<Event>, n: nat, user: string)
    requires n <= |events|
  {
    var v := ViewOf(Before(lib, serverId, events, n), user);
    && (v.enrolling.Some? ==> exists i :: i < n && BegunAt(lib, serverId, events, i, user, v.enrolling.value))
    && (v.challenge.Some? ==> exists i :: i < n && IssuedAt(lib, serverId, events, i, user, v.challenge.value))
    && (v.record.Some? ==> exists i, j :: j < n && ExchangeAt(lib, serverId, events, i, j, user, v.record.value))
  }

  /** What a request can put there. */
  ghost predicate Originates(lib: Library, serverId: Bytes, v: View, effect: Effect, e: Event) {
    var Effect(v', logged, reply) := effect;
    && (v'.enrolling.Some? && v'.enrolling != v.enrolling ==>
          && e.op.EnrollBegin? && reply.Begun?
          && var kp := lib.kyberKeypair(e.op.seed);
             v'.enrolling == Some(ServerEnrollment(kp.publicKey, kp.secretKey, serverId)))
    && (v'.challenge.Some? && v'.challenge != v.challenge ==>
          e.op == IssueChallenge(e.op.user, v'.challenge.value.nonce) && reply.Issued? && v'.challenge.value.issuedAt == e.clock.main)
    && (v'.record.Some? && v'.record != v.record ==>
          && e.op.EnrollComplete? && reply == Enrolled && v.enrolling.Some?
          && v.enrolling.value.Complete(lib, EnrollmentResponse(DecodeOrEmpty(lib, e.op.ciphertextHex),
                                                                DecodeOrEmpty(lib, e.op.publicKeyHex))) == Ok(v'.record.value))
  }

  lemma LocalOriginates(lib: Library, serverId: Bytes, v: View, replayed: bool, e: Event)
    ensures Originates(lib, serverId, v, LocalStep(lib, serverId, v, replayed, e), e)
  {
  }

  /** A record completed at request `n` comes from the exchange that began at request `i`. */
  lemma CompletedAt(lib: Library, serverId: Bytes, events: seq<Event>, i: nat, n: nat, enrolling: ServerEnrollment, record: EnrollmentRecord)
    requires i < n < |events| && events[n].op.EnrollComplete? && ReplyTo(lib, serverId, events, n) == Enrolled
    requires BegunAt(lib, serverId, events, i, events[n].op.user, enrolling)
    requires enrolling.Complete(lib, EnrollmentResponse(DecodeOrEmpty(lib, events[n].op.ciphertextHex),
                                                        DecodeOrEmpty(lib, events[n].op.publicKeyHex))) == Ok(record)
    ensures ExchangeAt(lib, serverId, events, i, n, events[n].op.user, record)
  {
    CompleteExactly(lib, enrolling, EnrollmentResponse(DecodeOrEmpty(lib, events[n].op.ciphertextHex),
                                                       DecodeOrEmpty(lib, events[n].op.publicKeyHex)));
  }

  lemma StepTraceable(lib: Library, serverId: Bytes, events: seq<Event>, n: nat, user: string)
    requires n < |events| && Traceable(lib, serverId, events, n, user)
    requires Before(lib, serverId, events, n).serverId == serverId
    ensures Traceable(lib, serverId, events, n + 1, user)
  {
    var s, e := Before(lib, serverId, events, n), events[n];
    var v, v' := ViewOf(s, user), ViewOf(Before(lib, serverId, events, n + 1), user);
    NextState(lib, serverId, events, n);
    StepIsLocal(lib, s, e);
    if e.op.user == user {
      LocalOriginates(lib, serverId, v, Replayed(lib, s, e), e);
      OwnTraceable(lib, serverId, events, n, v, LocalStep(lib, serverId, v, Replayed(lib, s, e), e));
    } else {
      assert v' == v;
    }
  }

  lemma OwnTraceable(lib: Library, serverId: Bytes, events: seq<Event>, n: nat, v: View, effect: Effect)
    requires n < |events| && Traceable(lib, serverId, events, n, events[n].op.user)
    requires v == ViewOf(Before(lib, serverId, events, n), events[n].op.user)
    requires effect.view == ViewOf(Before(lib, serverId, events, n + 1), events[n].op.user)
    requires effect.reply == ReplyTo(lib, serverId, events, n) && Originates(lib, serverId, v, effect, events[n])
    ensures Traceable(lib, serverId, events, n + 1, events[n].op.user)
  {
    var user, v' := events[n].op.user, effect.view;
    if v'.enrolling.Some? && v'.enrolling != v.enrolling {
      assert BegunAt(lib, serverId, events, n, user, v'.enrolling.value);
    }
    if v'.challenge.Some? && v'.challenge != v.challenge {
      assert IssuedAt(lib, serverId, events, n, user, v'.challenge.value);
    }
    if v'.record.Some? && v'.record != v.record {
      var i :| i < n && BegunAt(lib, serverId, events, i, user, v.enrolling.value);
      CompletedAt(lib, serverId, events, i, n, v.enrolling.value, v'.record.value);
    }
  }

  lemma {:induction false} RunTraceable(lib: Library, serverId: Bytes, events: seq<Event>, n: nat, user: string)
    requires n <= |events|
    ensures Traceable(lib, serverId, events, n, user)
  {
    if n > 0 {
      RunTraceable(lib, serverId, events, n - 1, user);
      ReachableWellFormed(lib, serverId, events[..n - 1]);
      StepTraceable(lib, serverId, events, n - 1, user);
    }
  }

  /** Whoever is enrolled before request `n` of a run is enrolled with the same record after it. */
  lemma RecordSince(lib: Library, serverId: Bytes, events: seq<Event>, n: nat, user: string)
    requires n <= |events| && user in Before(lib, serverId, events, n).users
    ensures
      var s := Run(lib, Init(serverId), events);
      user in s.users && s.users[user] == Before(lib, serverId, events, n).users[user]
  {
    assert events == events[..n] + events[n..];
    RunConcat(lib, Init(serverId), events[..n], events[n..]);
    ReachableWellFormed(lib, serverId, events[..n]);
    RecordsWrittenOnce(lib, Before(lib, serverId, events, n), events[n..], serverId, user);
  }

  // Logins.

  /** The answer goes with an enrollment of its user at requests `begin` and `complete` and
      a challenge issued afterwards at request `issue`. */
  ghost predicate AnswersFor(lib: Library, serverId: Bytes, events: seq<Event>, last: Event,
                             begin: int, complete: int, issue: int, record: EnrollmentRecord, c: Challenge)
  {
    && begin < complete < issue && last.op.VerifyChallenge?
    && ExchangeAt(lib, serverId, events, begin, complete, last.op.user, record)
    && IssuedAt(lib, serverId, events, issue, last.op.user, c)
    && last.clock.main <= c.issuedAt + 300
    && last.clock.main - 60 <= last.op.clientTimestamp <= last.clock.main + 60
    && var signature := lib.hexDecode(last.op.signatureHex);
       lib.verifySignature(record.dilithiumPublicKey, c.nonce + BigEndian(last.op.clientTimestamp, 8),
                           if signature.Some? then signature.value else []).Ok?
  }

  /** In every run, a login by challenge has three requests of the same user before it: the
      two of an enrollment, then one that issued a challenge at most 300 seconds before;
      and its signature is good, under the key sent in the enrollment, for that challenge's
      nonce and the answer's own timestamp, which is within 60 seconds. */
  lemma ChallengeLoginsAreAuthentic(lib: Library, serverId: Bytes, events: seq<Event>, last: Event)
    requires AcceptsAnswer(lib, Run(lib, Init(serverId), events), last)
    ensures exists begin, complete, issue, record, c ::
      AnswersFor(lib, serverId, events, last, begin, complete, issue, record, c)
  {
    var s, user := Run(lib, Init(serverId), events), last.op.user;
    GoodAnswerIff(lib, s, last.clock, user, last.op.nonceHex, last.op.clientTimestamp, last.op.signatureHex);
    assert events[..|events|] == events;
    var record, c := s.users[user], s.pendingChallenges[user];
    RunTraceable(lib, serverId, events, |events|, user);
    assert ViewOf(s, user).challenge == Some(c);
    var issue :| issue < |events| && IssuedAt(lib, serverId, events, issue, user, c);
    var begin, complete := EnrolledBefore(lib, serverId, events, issue, user, c);
    assert AnswersFor(lib, serverId, events, last, begin, complete, issue, record, c);
  }

  lemma EnrolledBefore(lib: Library, serverId: Bytes, events: seq<Event>, issue: nat, user: string, c: Challenge)
    returns (begin: nat, complete: nat)
    requires issue < |events| && IssuedAt(lib, serverId, events, issue, user, c)
    ensures begin < complete < issue
    ensures user in Run(lib, Init(serverId), events).users
    ensures ExchangeAt(lib, serverId, events, begin, complete, user, Run(lib, Init(serverId), events).users[user])
  {
    var s := Before(lib, serverId, events, issue);
    assert user in s.users;
    assert ViewOf(s, user).record == Some(s.users[user]);
    RunTraceable(lib, serverId, events, issue, user);
    RecordSince(lib, serverId, events, issue, user);
    var i, j :| j < issue && ExchangeAt(lib, serverId, events, i, j, user, s.users[user]);
    begin, complete := i, j;
  }

  /** The code goes with an enrollment of its user at requests `begin` and `complete`. */
  ghost predicate CodeFor(lib: Library, serverId: Bytes, events: seq<Event>, clock: Clock, user: string, code: u32,
                          begin: int, complete: int, record: EnrollmentRecord, step: u64)
  {
    && ExchangeAt(lib, serverId, events, begin, complete, user, record)
    && clock.main / 30 - 1 <= step <= clock.main / 30 + 1
    && code == PqTotp.GenerateAtStep(lib.shake, record.totpSeed, step)
  }

  /** In every run, a login by code has the two requests of an enrollment before it, and the
      code is that of the seed of that enrollment for the present step or one next to it. */
  lemma CodeLoginsAreAuthentic(lib: Library, serverId: Bytes, events: seq<Event>, clock: Clock, user: string, code: u32)
    requires Step(lib, Run(lib, Init(serverId), events), Event(clock, VerifyTotp(user, code))).1 == Verified(true)
    ensures exists begin, complete, record, step: u64 ::
      CodeFor(lib, serverId, events, clock, user, code, begin, complete, record, step)
  {
    var s := Run(lib, Init(serverId), events);
    GoodCodeIff(lib, s, clock, user, code);
    assert events[..|events|] == events;
    RunTraceable(lib, serverId, events, |events|, user);
    var record := s.users[user];
    assert ViewOf(s, user).record == Some(record);
    var begin, complete :| complete < |events| && ExchangeAt(lib, serverId, events, begin, complete, user, record);
    var step: u64 :| clock.main / 30 - 1 <= step <= clock.main / 30 + 1
                  && PqTotp.GenerateAtStep(lib.shake, record.totpSeed, step) == code;
    assert CodeFor(lib, serverId, events, clock, user, code, begin, complete, record, step);
  }
}
