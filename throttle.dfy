/**
 * The brute-force throttle of the login handler: a table keyed by email
 * that counts failed logins and locks an email out for 30 minutes once it
 * has failed five times.
 *
 * `Step` specifies one login as a function of the table; `LoginThrottle`
 * holds the table and updates it in place the way the handler does.
 * `Replay` runs a sequence of logins, and the lemmas at the end state what
 * holds across several of them.
 */
module Throttle {

  /** Failed logins after which an email is locked out. */
  const Threshold: int := 5
  /** Length of a lockout, in whole minutes since the latest failure. */
  const LockoutMinutes: int := 30
  /** Timestamps are milliseconds; the handler divides by this to get minutes. */
  const MillisPerMinute: int := 60000

  /** One row of the table: failures counted so far and the time of the latest. */
  datatype Attempt = Attempt(count: int, lastAttempt: int)

  type Table = map<string, Attempt>

  /** What the credential check answers, or that it threw. */
  datatype Verdict = Match | NoMatch | Fault

  /**
   * How a login ends: success, a wrong password, a lockout, or the error the
   * credential check threw, handed on to the next handler.
   */
  datatype Outcome = Success | InvalidCredentials | Forbidden | CheckFailed

  /** One login: its outcome, the new table and whether the credentials were checked. */
  datatype StepResult = StepResult(outcome: Outcome, attempts: Table, verified: bool)

  /** Whole minutes elapsed between two timestamps, rounded down. */
  function MinutesSince(lastAttempt: int, now: int): (m: int)
    ensures m * MillisPerMinute <= now - lastAttempt < (m + 1) * MillisPerMinute
    ensures m < LockoutMinutes <==> now - lastAttempt < LockoutMinutes * MillisPerMinute
  {
    (now - lastAttempt) / MillisPerMinute
  }

  /** The email has reached the threshold and its latest failure is under 30 minutes old. */
  predicate LockedOut(t: Table, email: string, now: int)
  {
    email in t && t[email].count >= Threshold
    && MinutesSince(t[email].lastAttempt, now) < LockoutMinutes
  }

  /** Every row counts at least one and at most `Threshold` failures. */
  ghost predicate Bounded(t: Table)
  {
    forall e :: e in t ==> 1 <= t[e].count <= Threshold
  }

  /** No row counts fewer than zero or more than `Threshold` failures. */
  ghost predicate Capped(t: Table)
  {
    forall e :: e in t ==> 0 <= t[e].count <= Threshold
  }

  /** No row has a negative count. */
  ghost predicate NonNegative(t: Table)
  {
    forall e :: e in t ==> t[e].count >= 0
  }

  /** The table once an expired lockout of `email` has been zeroed (`login`, authentication-controller.js:28-31). */
  function Admitted(t: Table, email: string): Table
  {
    if email in t && t[email].count >= Threshold then t[email := t[email].(count := 0)] else t
  }

  /**
   * One login for `email` at time `now`; `verdict` is what the credential
   * check would answer if it were asked.
   */
  function Step(t: Table, email: string, verdict: Verdict, now: int): (r: StepResult)
    // a locked-out email is refused, unchecked, and the table is left alone
    ensures LockedOut(t, email, now) ==> r == StepResult(Forbidden, t, false)
    // otherwise the credentials are checked
    ensures !LockedOut(t, email, now) ==> r.verified
    ensures r.outcome == Success <==> r.verified && verdict == Match
    ensures r.outcome == CheckFailed <==> r.verified && verdict == Fault
    // a success removes the row, present or not
    ensures r.verified && verdict == Match ==> r.attempts == t - {email}
    // a first failure creates the row
    ensures r.verified && verdict == NoMatch && email !in t ==> r.attempts == t[email := Attempt(1, now)]
    // a failure below the threshold adds one and stamps the time
    ensures r.verified && verdict == NoMatch && email in t && t[email].count < Threshold
      ==> r.attempts == t[email := Attempt(t[email].count + 1, now)]
    // a failure after an expired lockout counts from zero again
    ensures r.verified && verdict == NoMatch && email in t && t[email].count >= Threshold
      ==> r.attempts == t[email := Attempt(1, now)]
    // a failure is reported as a lockout exactly when it reaches the threshold
    ensures r.verified && verdict == NoMatch
      ==> email in r.attempts && (r.outcome == Forbidden <==> r.attempts[email].count >= Threshold)
    // a check that throws keeps an expired lockout zeroed, with its old time
    ensures r.verified && verdict == Fault && email in t && t[email].count >= Threshold
      ==> r.attempts == t[email := Attempt(0, t[email].lastAttempt)]
    ensures r.verified && verdict == Fault && (email !in t || t[email].count < Threshold)
      ==> r.attempts == t
    // no other row changes
    ensures r.attempts - {email} == t - {email}
    ensures NonNegative(t) ==> NonNegative(r.attempts)
    ensures Capped(t) ==> Capped(r.attempts)
    ensures Bounded(t) && verdict != Fault ==> Bounded(r.attempts)
  {
    if LockedOut(t, email, now) then
      StepResult(Forbidden, t, false)
    else
      var admitted := Admitted(t, email);
      match verdict
      case Fault => StepResult(CheckFailed, admitted, true)
      case Match => StepResult(Success, admitted - {email}, true)
      case NoMatch =>
        var failed :=
          if email in admitted then admitted[email := Attempt(admitted[email].count + 1, now)]
          else admitted[email := Attempt(1, now)];
        StepResult(if failed[email].count >= Threshold then Forbidden else InvalidCredentials, failed, true)
  }

  /**
   * The table the handler keeps across requests. `Login` changes it in
   * place: it zeroes a count, creates a row, bumps a count and its time, or
   * deletes a row.
   */
  class LoginThrottle {
    var attempts: Table

    ghost predicate Valid()
      reads this
    {
      Capped(attempts)
    }

    constructor ()
      ensures Valid() && attempts == map[]
    {
      attempts := map[];
    }

    /**
     * Handles one login. `verified` tells whether the credential check was
     * consulted; `verdict` is its answer.
     */
    method Login(email: string, verdict: Verdict, now: int) returns (outcome: Outcome, verified: bool)
      requires Valid()
      modifies this
      ensures Valid()
      ensures StepResult(outcome, attempts, verified) == Step(old(attempts), email, verdict, now)
    {
      if email in attempts && attempts[email].count >= Threshold {
        var timeDiff := MinutesSince(attempts[email].lastAttempt, now);
        if timeDiff < LockoutMinutes {
          return Forbidden, false;
        }
        attempts := attempts[email := attempts[email].(count := 0)];
      }
      verified := true;
      if verdict == Fault {
        return CheckFailed, true;
      }
      if verdict == NoMatch {
        if email !in attempts {
          attempts := attempts[email := Attempt(1, now)];
        } else {
          attempts := attempts[email := attempts[email].(count := attempts[email].count + 1, lastAttempt := now)];
        }
        if attempts[email].count >= Threshold {
          return Forbidden, true;
        }
        return InvalidCredentials, true;
      }
      attempts := attempts - {email};
      outcome := Success;
    }
  }

  /** One login request as the throttle sees it. */
  datatype Request = Request(email: string, verdict: Verdict, now: int)

  /** The table after a run of logins, with each login's outcome and whether it was checked. */
  datatype Run = Run(attempts: Table, outcomes: seq<Outcome>, verified: seq<bool>)

  /** Handles the requests one after the other, each as one atomic step. */
  function Replay(t: Table, reqs: seq<Request>): (r: Run)
    ensures |r.outcomes| == |reqs| && |r.verified| == |reqs|
    decreases |reqs|
  {
    if reqs == [] then Run(t, [], [])
    else
      var s := Step(t, reqs[0].email, reqs[0].verdict, reqs[0].now);
      var rest := Replay(s.attempts, reqs[1..]);
      Run(rest.attempts, [s.outcome] + rest.outcomes, [s.verified] + rest.verified)
  }

  /** Failed logins for one email at the given times. */
  function Failures(email: string, times: seq<int>): (reqs: seq<Request>)
    ensures |reqs| == |times|
    ensures forall k :: 0 <= k < |times| ==> reqs[k] == Request(email, NoMatch, times[k])
  {
    seq(|times|, k requires 0 <= k < |times| => Request(email, NoMatch, times[k]))
  }

  /** Failures counted for the email, zero when it has no row. */
  function CountOf(t: Table, email: string): int
  {
    if email in t then t[email].count else 0
  }

  /** No run of logins leaves a count below zero or above `Threshold`. */
  lemma {:induction false} ReplayKeepsCapped(t: Table, reqs: seq<Request>)
    requires Capped(t)
    ensures Capped(Replay(t, reqs).attempts)
    decreases |reqs|
  {
    if reqs != [] {
      var s := Step(t, reqs[0].email, reqs[0].verdict, reqs[0].now);
      ReplayKeepsCapped(s.attempts, reqs[1..]);
    }
  }

  /**
   * While the credential check never throws, every row counts 1 to 5
   * failures between logins: the zeroed row of an expired lockout never
   * outlives the login that zeroed it.
   */
  lemma {:induction false} ReplayKeepsBounded(t: Table, reqs: seq<Request>)
    requires Bounded(t)
    requires forall k :: 0 <= k < |reqs| ==> reqs[k].verdict != Fault
    ensures Bounded(Replay(t, reqs).attempts)
    decreases |reqs|
  {
    if reqs != [] {
      var s := Step(t, reqs[0].email, reqs[0].verdict, reqs[0].now);
      ReplayKeepsBounded(s.attempts, reqs[1..]);
    }
  }

  /** Logins for other emails never touch this email's row. */
  lemma {:induction false} OthersDoNotInterfere(t: Table, email: string, reqs: seq<Request>)
    requires forall k :: 0 <= k < |reqs| ==> reqs[k].email != email
    ensures email in Replay(t, reqs).attempts <==> email in t
    ensures email in t ==> Replay(t, reqs).attempts[email] == t[email]
    decreases |reqs|
  {
    if reqs != [] {
      var s := Step(t, reqs[0].email, reqs[0].verdict, reqs[0].now);
      assert s.attempts - {reqs[0].email} == t - {reqs[0].email};
      assert email in s.attempts <==> email in t by {
        assert email in s.attempts <==> email in s.attempts - {reqs[0].email};
        assert email in t <==> email in t - {reqs[0].email};
      }
      if email in t {
        assert s.attempts[email] == (s.attempts - {reqs[0].email})[email];
      }
      OthersDoNotInterfere(s.attempts, email, reqs[1..]);
    }
  }

  /**
   * While an email is locked out, every login for it within 30 minutes of
   * its latest failure is refused without checking the credentials, whatever
   * the password, and its row stays as it was.
   */
  lemma {:induction false} LockoutHolds(t: Table, email: string, reqs: seq<Request>)
    requires email in t && t[email].count >= Threshold
    requires forall k :: (0 <= k < |reqs| && reqs[k].email == email
                          ==> reqs[k].now - t[email].lastAttempt < LockoutMinutes * MillisPerMinute)
    ensures email in Replay(t, reqs).attempts && Replay(t, reqs).attempts[email] == t[email]
    ensures forall k :: (0 <= k < |reqs| && reqs[k].email == email
                         ==> Replay(t, reqs).outcomes[k] == Forbidden && !Replay(t, reqs).verified[k])
    decreases |reqs|
  {
    if reqs != [] {
      var s := Step(t, reqs[0].email, reqs[0].verdict, reqs[0].now);
      if reqs[0].email == email {
        assert LockedOut(t, email, reqs[0].now);
      } else {
        assert s.attempts[email] == (s.attempts - {reqs[0].email})[email];
      }
      LockoutHolds(s.attempts, email, reqs[1..]);
      var r := Replay(t, reqs);
      forall k | 0 <= k < |reqs| && reqs[k].email == email
        ensures r.outcomes[k] == Forbidden && !r.verified[k]
      {
        if k > 0 {
          assert reqs[1..][k - 1] == reqs[k];
        }
      }
    }
  }

  /** A failure while under the threshold: no lockout check applies; the count goes up by one. */
  lemma FailureUnderThreshold(t: Table, email: string, now: int)
    requires CountOf(t, email) < Threshold
    ensures Step(t, email, NoMatch, now)
            == StepResult(if CountOf(t, email) + 1 >= Threshold then Forbidden else InvalidCredentials,
                          t[email := Attempt(CountOf(t, email) + 1, now)], true)
  {
  }

  /**
   * Failures for an email that stays under the threshold before each of
   * them: every one is checked, adds one to the count and stamps its time,
   * and is reported as a lockout exactly when it brings the count to five.
   */
  lemma {:induction false} ConsecutiveFailures(t: Table, email: string, times: seq<int>)
    requires CountOf(t, email) + |times| <= Threshold
    ensures |times| == 0 ==> Replay(t, Failures(email, times)).attempts == t
    ensures |times| > 0 ==>
              Replay(t, Failures(email, times)).attempts
              == t[email := Attempt(CountOf(t, email) + |times|, times[|times| - 1])]
    ensures forall k :: 0 <= k < |times| ==>
      Replay(t, Failures(email, times)).verified[k]
      && Replay(t, Failures(email, times)).outcomes[k]
        == (if CountOf(t, email) + k + 1 >= Threshold then Forbidden else InvalidCredentials)
    decreases |times|
  {
    var reqs := Failures(email, times);
    if times != [] {
      var s := Step(t, email, NoMatch, times[0]);
      FailureUnderThreshold(t, email, times[0]);
      assert reqs[1..] == Failures(email, times[1..]);
      ConsecutiveFailures(s.attempts, email, times[1..]);
      var r := Replay(t, reqs);
      assert r == Run(Replay(s.attempts, reqs[1..]).attempts,
                      [s.outcome] + Replay(s.attempts, reqs[1..]).outcomes,
                      [true] + Replay(s.attempts, reqs[1..]).verified);
      forall k | 0 <= k < |times|
        ensures r.verified[k]
        ensures r.outcomes[k] == (if CountOf(t, email) + k + 1 >= Threshold then Forbidden else InvalidCredentials)
      {
        if k > 0 {
          assert r.outcomes[k] == Replay(s.attempts, reqs[1..]).outcomes[k - 1];
          assert r.verified[k] == Replay(s.attempts, reqs[1..]).verified[k - 1];
        }
      }
    }
  }

  /**
   * Five failures for an email with no row: the first four are reported as
   * invalid credentials and the fifth as a lockout. From then on the email
   * is refused unchecked until 30 minutes after the fifth failure, and
   * checked again from then on.
   */
  lemma FifthFailureLocks(t: Table, email: string, times: seq<int>)
    requires email !in t && |times| == Threshold
    ensures Replay(t, Failures(email, times)).outcomes
      == [InvalidCredentials, InvalidCredentials, InvalidCredentials, InvalidCredentials, Forbidden]
    ensures forall ok, now ::
              (Step(Replay(t, Failures(email, times)).attempts, email, ok, now).verified
               <==> now - times[Threshold - 1] >= LockoutMinutes * MillisPerMinute)
  {
    ConsecutiveFailures(t, email, times);
    var r := Replay(t, Failures(email, times));
    assert r.outcomes[0] == InvalidCredentials;
    assert r.outcomes[4] == Forbidden;
  }

  /**
   * A success clears the count, whatever it was: the next failure for the
   * same email starts again at one.
   */
  lemma SuccessRestartsCount(t: Table, email: string, now1: int, now2: int)
    requires !LockedOut(t, email, now1)
    ensures var r := Replay(t, [Request(email, Match, now1), Request(email, NoMatch, now2)]);
      r.outcomes == [Success, InvalidCredentials]
      && r.attempts == (t - {email})[email := Attempt(1, now2)]
  {
    var s := Step(t, email, Match, now1);
    assert email !in s.attempts;
    var s2 := Step(s.attempts, email, NoMatch, now2);
    assert s2.attempts == s.attempts[email := Attempt(1, now2)];
    assert Replay(s.attempts, [Request(email, NoMatch, now2)]) == Run(s2.attempts, [InvalidCredentials], [true]);
    assert [Request(email, Match, now1), Request(email, NoMatch, now2)][1..] == [Request(email, NoMatch, now2)];
  }
}
