/**
 The two-phase refresh of an imported OAuth grant (packages/connectors/src/imported-refresh.ts).

 Many processes share one stored connector row. A refresh claims the row under its lock
 (`owned` becomes `refreshing(attempt)`), then takes the lock again, presents the refresh
 token and saves the outcome. Any process may stop between any two steps, and other writers
 (a new sign-in, a sign-out, a native refresh) may replace the row whenever it is unlocked.
 */
module ImportedRefresh {
  import opened Options

  datatype GrantState = Owned | Refreshing | Signin | Uncertain

  datatype Imported = Imported(state: GrantState, scope: Option<string>, attempt: Option<nat>)

  datatype Tokens = Tokens(access: string, refreshToken: Option<string>, resource: Option<string>,
      expiresAt: Option<int>)

  datatype Secret = NotOAuth | OAuth(imported: Option<Imported>, tokens: Option<Tokens>)

  /** A sealed row. Every seal carries a fresh stamp, and the stamp is the credential revision. */
  datatype Row = Row(secret: Secret, seal: nat)

  datatype Edit = Unchanged | Save(secret: Secret)

  /** What the token endpoint answered; `Failed` is every error but `invalid_grant`. */
  datatype Answer = Granted(access: string, refreshToken: Option<string>,
      expiresAt: Option<int>) | InvalidGrant | Failed

  // ------------------------------------------------------------------ the edits

  predicate InState(secret: Secret, state: GrantState) {
    secret.OAuth? && secret.imported.Some? && secret.imported.value.state == state
  }

  predicate HoldsAttempt(secret: Secret, attempt: nat) {
    InState(secret, Refreshing) && secret.imported.value.attempt == Some(attempt)
  }

  predicate Presentable(secret: Secret) {
    secret.OAuth? && secret.tokens.Some? && secret.tokens.value.refreshToken.Some? && secret.tokens.value.resource.Some?
  }

  function TokenOf(secret: Secret): Option<string> {
    if secret.OAuth? && secret.tokens.Some? then secret.tokens.value.refreshToken else None
  }

  predicate NeedsRefresh(row: Row, now: int, forced: Option<nat>) {
    InState(row.secret, Owned) && Presentable(row.secret) &&
    match forced
    case Some(revision) => row.seal == revision
    case None =>
      var expiry := row.secret.tokens.value.expiresAt;
      expiry.Some? && expiry.value <= now
  }

  /** The first locked edit: claim an owned grant for `attempt`. */
  function ClaimEdit(row: Row, now: int, forced: Option<nat>, attempt: nat): Edit {
    if NeedsRefresh(row, now, forced) then
      Save(row.secret.(imported := Some(row.secret.imported.value.(state := Refreshing, attempt := Some(attempt)))))
    else
      Unchanged
  }

  /** The second locked edit sends only while its own attempt id is stored. */
  predicate MaySend(row: Row, attempt: nat) {
    HoldsAttempt(row.secret, attempt) && Presentable(row.secret)
  }

  /** What the second edit saves for each answer. */
  function Settled(secret: Secret, answer: Answer): Secret
    requires secret.OAuth? && secret.imported.Some? && Presentable(secret)
  {
    var held := secret.tokens.value;
    match answer
    case Granted(access, rotated, expiresAt) =>
      secret.(imported := Some(Imported(Owned, secret.imported.value.scope, None)),
              tokens :=
                  Some(Tokens(access, if rotated.Some? then rotated else held.refreshToken, held.resource, expiresAt)))
    case InvalidGrant => secret.(imported := Some(secret.imported.value.(state := Signin)))
    case Failed => secret.(imported := Some(secret.imported.value.(state := Uncertain)))
  }

  // ------------------------------------------------- one run over the shared row

  class ConnectorRow {
    var row: Row

    constructor (row: Row)
      ensures this.row == row
    {
      this.row := row;
    }

    /** The body of one `lock` call: an edit is applied to the current row and resealed. */
    method Locked(edit: Edit, seal: nat)
      modifies this
      ensures row == (if edit.Save? then Row(edit.secret, seal) else old(row))
    {
      if edit.Save? {
        row := Row(edit.secret, seal);
      }
    }

    /**
     One whole run. `between` is what other writers stored while the lock was free between
     the two phases. The run touches the second row only if it still is its own claim.
     */
    method RefreshImported(now: int, forced: Option<nat>, attempt: nat, between: Option<Row>, answer: Answer,
        seals: (nat, nat))
      returns (sent: Option<string>)
      requires between.Some? && between.value.secret.OAuth? && between.value.secret.imported.Some? ==>
                 between.value.secret.imported.value.attempt != Some(attempt)
      modifies this
      ensures var was := old(row);
              var tokens := if was.secret.OAuth? then was.secret.tokens else None;
              var due := was.secret.OAuth? && was.secret.imported.Some? && was.secret.imported.value.state == Owned
                         && tokens.Some? && tokens.value.refreshToken.Some? && tokens.value.resource.Some?
                         && (if forced.Some? then forced.value == was.seal
                             else tokens.value.expiresAt.Some? && tokens.value.expiresAt.value <= now);
              && (sent.Some? <==> due && between.None?)
              && (!due ==> row == was)
              && (due && between.Some? ==> row == between.value)
              && (due && between.None? ==>
                    var grant, held := was.secret.imported.value, was.secret.tokens.value;
                    && sent == held.refreshToken && row.seal == seals.1
                    && row.secret == match answer
                         case Granted(access, rotated, expiresAt) =>
                           OAuth(Some(Imported(Owned, grant.scope, None)),
                                 Some(Tokens(access, if rotated.Some? then rotated else held.refreshToken,
                                             held.resource, expiresAt)))
                         case InvalidGrant => OAuth(Some(Imported(Signin, grant.scope, Some(attempt))), Some(held))
                         case Failed => OAuth(Some(Imported(Uncertain, grant.scope, Some(attempt))), Some(held)))
    {
      sent := None;
      var claim := ClaimEdit(row, now, forced, attempt);
      Locked(claim, seals.0);
      if claim.Unchanged? {
        return;
      }
      if between.Some? {
        row := between.value;
      }
      if !MaySend(row, attempt) {
        return;
      }
      sent := row.secret.tokens.value.refreshToken;
      Locked(Save(Settled(row.secret, answer)), seals.1);
    }
  }

  // -------------------------------------------------------- the transition system

  /** Where a run is. `Ended` is a finished run and a crashed one alike. */
  datatype Phase = Claimed(attempt: nat) | Sending(attempt: nat) | Ended

  /** One token request, with the generation whose token it presented. */
  datatype Sent = Sent(generation: nat, token: string, attempt: nat)

  /**
   `stored` lists the refresh token of every generation, one entry for each saved `owned`
   state. `used`, `seals` and `claims` record the attempt ids and seals handed out and the row
   each claim saved; nothing the code decides reads them.
   */
  datatype System = System(
    row: Row,
    lock: Option<nat>,
    runs: map<nat, Phase>,
    used: set<nat>,
    seals: set<nat>,
    claims: map<nat, Row>,
    stored: seq<Option<string>>,
    sent: seq<Sent>)

  datatype Step =
    | Claim(run: nat, now: int, forced: Option<nat>, attempt: nat, seal: nat)
    | Enter(run: nat)
    | Commit(run: nat, answer: Answer, seal: nat)
    | Crash(run: nat)
    | Outside(secret: Secret, seal: nat)

  /** The generations recorded when `secret` is saved after `stored`. */
  function Generations(stored: seq<Option<string>>, secret: Secret): seq<Option<string>> {
    if InState(secret, Owned) then stored + [TokenOf(secret)] else stored
  }

  function Init(row: Row): System {
    System(row, None, map[],
           if InState(row.secret, Refreshing)
               && row.secret.imported.value.attempt.Some? then {row.secret.imported.value.attempt.value} else {},
           {row.seal}, map[], Generations([], row.secret), [])
  }

  /** Which steps the row lock, the program order and the fresh ids allow. */
  predicate Enabled(s: System, step: Step) {
    match step
    case Claim(run, _, _, attempt, seal) => run !in s.runs && s.lock.None? && attempt !in s.used && seal !in s.seals
    case Enter(run) => run in s.runs && s.runs[run].Claimed? && s.lock.None?
    case Commit(run, _, seal) => run in s.runs && s.runs[run].Sending? && s.lock == Some(run)
        && Presentable(s.row.secret) && s.row.secret.imported.Some? && seal !in s.seals
    case Crash(run) => true
    case Outside(secret, seal) => s.lock.None? && !InState(secret, Refreshing) && seal !in s.seals
  }

  function Do(s: System, step: Step): System
    requires Enabled(s, step)
  {
    match step
    case Claim(run, now, forced, attempt, seal) =>
      var edit := ClaimEdit(s.row, now, forced, attempt);
      if edit.Unchanged? then
        s.(runs := s.runs[run := Ended])
      else
        var claimed := Row(edit.secret, seal);
        s.(row := claimed, runs := s.runs[run := Claimed(attempt)], used := s.used + {attempt},
           seals := s.seals + {seal}, claims := s.claims[attempt := claimed])
    case Enter(run) =>
      var attempt := s.runs[run].attempt;
      if MaySend(s.row, attempt) then
        s.(lock := Some(run), runs := s.runs[run := Sending(attempt)],
           sent := s.sent + [Sent(|s.stored|, s.row.secret.tokens.value.refreshToken.value, attempt)])
      else
        s.(runs := s.runs[run := Ended])
    case Commit(run, answer, seal) =>
      var secret := Settled(s.row.secret, answer);
      s.(row := Row(secret, seal), lock := None, runs := s.runs[run := Ended], seals := s.seals + {seal},
         stored := Generations(s.stored, secret))
    case Crash(run) =>
      s.(runs := s.runs[run := Ended], lock := if s.lock == Some(run) then None else s.lock)
    case Outside(secret, seal) =>
      s.(row := Row(secret, seal), seals := s.seals + {seal}, stored := Generations(s.stored, secret))
  }

  /** A claim changes the row exactly when the grant is owned, can be presented and is forced or expired. */
  lemma ClaimsExactlyWhen(s: System, run: nat, now: int, forced: Option<nat>, attempt: nat, seal: nat)
    requires Enabled(s, Claim(run, now, forced, attempt, seal))
    ensures var r, t := s.row, Do(s, Claim(run, now, forced, attempt, seal));
            var due := r.secret.OAuth? && r.secret.imported.Some? && r.secret.imported.value.state == Owned
                       && r.secret.tokens.Some? && r.secret.tokens.value.refreshToken.Some?
                       && r.secret.tokens.value.resource.Some?
                       && (if forced.Some? then forced.value == r.seal
                           else r.secret.tokens.value.expiresAt.Some? && r.secret.tokens.value.expiresAt.value <= now);
            && (t.row != r <==> due)
            && (due ==> t.row == Row(OAuth(Some(Imported(Refreshing, r.secret.imported.value.scope, Some(attempt))),
                                           r.secret.tokens), seal))
            && (run in t.runs && t.runs[run] == if due then Claimed(attempt) else Ended)
  {}

  /** A claimed run sends exactly when its attempt is still stored, and then the stored token. */
  lemma SendsExactlyWhen(s: System, run: nat)
    requires Enabled(s, Enter(run))
    ensures var r, t, attempt := s.row, Do(s, Enter(run)), s.runs[run].attempt;
            && (|t.sent| > |s.sent| <==>
                  && r.secret.OAuth? && r.secret.imported.Some? && r.secret.imported.value.state == Refreshing
                  && r.secret.imported.value.attempt == Some(attempt)
                  && r.secret.tokens.Some? && r.secret.tokens.value.refreshToken.Some?
                  && r.secret.tokens.value.resource.Some?)
            && (|t.sent| > |s.sent| ==>
                  && t.sent == s.sent + [Sent(|s.stored|, r.secret.tokens.value.refreshToken.value, attempt)]
                  && t.lock == Some(run))
            && t.row == r
  {}

  /** What each answer leaves stored, under the new seal. */
  lemma CommitsSpelled(s: System, run: nat, answer: Answer, seal: nat)
    requires Enabled(s, Commit(run, answer, seal))
    ensures var was, t := s.row.secret, Do(s, Commit(run, answer, seal));
            var grant, held := was.imported.value, was.tokens.value;
            && t.lock == None && t.runs == s.runs[run := Ended]
            && t.row == match answer
                 case Granted(access, rotated, expiresAt) =>
                   Row(OAuth(Some(Imported(Owned, grant.scope, None)),
                             Some(Tokens(access, if rotated.Some? then rotated else held.refreshToken,
                                         held.resource, expiresAt))), seal)
                 case InvalidGrant => Row(OAuth(Some(Imported(Signin, grant.scope, grant.attempt)), Some(held)), seal)
                 case Failed => Row(OAuth(Some(Imported(Uncertain, grant.scope, grant.attempt)), Some(held)), seal)
  {}

  /** The state after `steps`, or none when one of them is not allowed where it stands. */
  function Exec(s: System, steps: seq<Step>): Option<System>
    decreases |steps|
  {
    if steps == [] then Some(s)
    else if Enabled(s, steps[0]) then Exec(Do(s, steps[0]), steps[1..])
    else None
  }

  /**
   Any step that the lock, the order of the program and the fresh ids leave open can come next; a crash can always.
   */
  lemma {:induction false} RunsGoOn(s: System, steps: seq<Step>, step: Step)
    requires Exec(s, steps).Some?
    requires var t := Exec(s, steps).value;
      match step
      case Claim(run, _, _, attempt, seal) => t.lock == None && run !in t.runs && attempt !in t.used && seal !in t.seals
      case Enter(run) => t.lock == None && run in t.runs && t.runs[run].Claimed?
      case Commit(run, _, seal) => t.lock == Some(run) && run in t.runs && t.runs[run].Sending? && seal !in t.seals
          && t.row.secret.OAuth? && t.row.secret.imported.Some? && t.row.secret.tokens.Some?
          && t.row.secret.tokens.value.refreshToken.Some? && t.row.secret.tokens.value.resource.Some?
      case Crash(_) => true
      case Outside(OAuth(imported, _), seal) => t.lock == None && seal !in t.seals
          && (imported.Some? ==> imported.value.state != Refreshing)
      case Outside(_, seal) => t.lock == None && seal !in t.seals
    ensures Exec(s, []) == Some(s)
    ensures Exec(s, steps + [step]) == Some(Do(Exec(s, steps).value, step))
    decreases |steps|
  {
    hide Do;
    if steps == [] {
      assert ([] + [step])[1..] == [];
    } else {
      assert (steps + [step])[1..] == steps[1..] + [step];
      RunsGoOn(Do(s, steps[0]), steps[1..], step);
    }
  }

  /** `s` is reached from a stored row by some interleaving. */
  ghost predicate Reached(row: Row, steps: seq<Step>, s: System) {
    Exec(Init(row), steps) == Some(s)
  }

  // ------------------------------------------------------------------ the invariant

  ghost predicate Live(s: System, attempt: nat) {
    exists run :: run in s.runs && !s.runs[run].Ended? && s.runs[run].attempt == attempt
  }

  ghost predicate AttemptsUnique(s: System) {
    && (forall run :: run in s.runs && !s.runs[run].Ended? ==>
        s.runs[run].attempt in s.used && s.runs[run].attempt in s.claims)
    && (forall a, b :: a in s.runs && b in s.runs && !s.runs[a].Ended? && !s.runs[b].Ended? && a != b ==>
        s.runs[a].attempt != s.runs[b].attempt)
    && (InState(s.row.secret, Refreshing) && s.row.secret.imported.value.attempt.Some? ==>
        s.row.secret.imported.value.attempt.value in s.used)
    && (forall a :: a in s.claims ==> a in s.used)
  }

  /** The lock is held exactly by the run that is sending, over the row that run claimed. */
  ghost predicate LockAgrees(s: System) {
    && (forall run :: run in s.runs && s.runs[run].Sending? ==>
        s.lock == Some(run) && MaySend(s.row, s.runs[run].attempt))
    && (s.lock.Some? ==> s.lock.value in s.runs && s.runs[s.lock.value].Sending?)
  }

  /** A stored attempt id means the row still is, seal and all, what that claim saved. */
  ghost predicate ClaimIntact(s: System) {
    forall a :: a in s.claims && HoldsAttempt(s.row.secret, a) ==> s.row == s.claims[a]
  }

  /** Every request presented its generation's token, and generations and attempts never repeat. */
  ghost predicate RequestsAgree(s: System) {
    && (forall i :: 0 <= i < |s.sent| ==>
          && 0 < s.sent[i].generation <= |s.stored|
          && s.stored[s.sent[i].generation - 1] == Some(s.sent[i].token)
          && s.sent[i].attempt in s.used)
    && (forall i, j :: 0 <= i < j < |s.sent| ==> s.sent[i].generation < s.sent[j].generation)
    && (forall i, j :: 0 <= i < j < |s.sent| ==> s.sent[i].attempt != s.sent[j].attempt)
  }

  /** The row holds the newest generation, and nobody has presented its token yet. */
  ghost predicate Unsent(s: System) {
    && 0 < |s.stored| && s.stored[|s.stored| - 1] == TokenOf(s.row.secret)
    && (s.sent != [] ==> s.sent[|s.sent| - 1].generation < |s.stored|)
  }

  /** An owned row, and one whose claim has not yet sent, is unsent. */
  ghost predicate PendingUnsent(s: System) {
    && (InState(s.row.secret, Owned) ==> Unsent(s))
    && (forall run :: run in s.runs && s.runs[run].Claimed? ==>
          && (forall i :: 0 <= i < |s.sent| ==> s.sent[i].attempt != s.runs[run].attempt)
          && (HoldsAttempt(s.row.secret, s.runs[run].attempt) ==> Unsent(s)))
  }

  ghost predicate Inv(s: System) {
    AttemptsUnique(s) && LockAgrees(s) && ClaimIntact(s) && RequestsAgree(s) && PendingUnsent(s)
  }

  lemma StepKeepsAttempts(s: System, step: Step)
    requires Inv(s) && Enabled(s, step)
    ensures AttemptsUnique(Do(s, step)) && ClaimIntact(Do(s, step))
  {}

  lemma StepKeepsLock(s: System, step: Step)
    requires Inv(s) && Enabled(s, step)
    ensures LockAgrees(Do(s, step))
  {}

  lemma StepKeepsRequests(s: System, step: Step)
    requires Inv(s) && Enabled(s, step)
    ensures RequestsAgree(Do(s, step))
  {
    if step.Enter? {
      EnterKeepsRequests(s, step.run);
    } else {
      var d := Do(s, step);
      assert d.sent == s.sent && s.stored <= d.stored && s.used <= d.used;
      hide Do, AttemptsUnique, LockAgrees, ClaimIntact, PendingUnsent;
    }
  }

  lemma EnterKeepsRequests(s: System, run: nat)
    requires Inv(s) && Enabled(s, Enter(run))
    ensures RequestsAgree(Do(s, Enter(run)))
  {
    hide ClaimIntact, LockAgrees, Generations;
    assert s.stored == Do(s, Enter(run)).stored;
  }

  lemma StepKeepsPending(s: System, step: Step)
    requires Inv(s) && Enabled(s, step)
    ensures PendingUnsent(Do(s, step))
  {}

  lemma StepKeepsInv(s: System, step: Step)
    requires Inv(s) && Enabled(s, step)
    ensures Inv(Do(s, step))
  {
    StepKeepsAttempts(s, step);
    StepKeepsLock(s, step);
    StepKeepsRequests(s, step);
    StepKeepsPending(s, step);
  }

  lemma {:induction false} RunKeepsInv(s: System, steps: seq<Step>)
    requires Inv(s) && Exec(s, steps).Some?
    ensures Inv(Exec(s, steps).value)
    decreases |steps|
  {
    if steps != [] {
      StepKeepsInv(s, steps[0]);
      RunKeepsInv(Do(s, steps[0]), steps[1..]);
    }
  }

  // ------------------------------------------------------------------ the theorems

  /**
   In every interleaving, with crashes anywhere, each stored generation is presented to the
   token endpoint at most once, each attempt sends at most once, and both of any two requests
   present exactly the token their generations stored.
   */
  lemma AtMostOneSendPerGeneration(row: Row, steps: seq<Step>, s: System, i: nat, j: nat)
    requires Reached(row, steps, s) && i < j < |s.sent|
    ensures s.sent[i].generation < s.sent[j].generation <= |s.stored|
    ensures s.sent[i].attempt != s.sent[j].attempt
    ensures 0 < s.sent[i].generation && s.stored[s.sent[i].generation - 1] == Some(s.sent[i].token)
    ensures s.stored[s.sent[j].generation - 1] == Some(s.sent[j].token)
  {
    RunKeepsInv(Init(row), steps);
  }

  /** Every request of every run, the first included, presents exactly the token its generation stored. */
  lemma EachRequestPresentsItsGeneration(row: Row, steps: seq<Step>, s: System, i: nat)
    requires Reached(row, steps, s) && i < |s.sent|
    ensures 0 < s.sent[i].generation <= |s.stored| && s.stored[s.sent[i].generation - 1] == Some(s.sent[i].token)
  {
    RunKeepsInv(Init(row), steps);
  }

  /**
   A refresh token is presented twice exactly when two generations stored the same token,
   so where every saved grant brings a new token (RFC 6749, section 6) none is.
   */
  lemma TokenReuseNeedsStoredReuse(row: Row, steps: seq<Step>, s: System, i: nat, j: nat)
    requires Reached(row, steps, s) && i < j < |s.sent|
    ensures 0 < s.sent[i].generation < s.sent[j].generation <= |s.stored|
    ensures s.sent[i].token == s.sent[j].token <==>
        s.stored[s.sent[i].generation - 1] == s.stored[s.sent[j].generation - 1]
  {
    RunKeepsInv(Init(row), steps);
  }

  /**
   A run that has sent can always commit, and its commit replaces exactly the row its own
   claim saved, seal included: nothing another writer stored after the claim is overwritten.
   */
  lemma CommitReplacesOnlyItsClaim(row: Row, steps: seq<Step>, s: System, run: nat, answer: Answer, seal: nat)
    requires Reached(row, steps, s) && run in s.runs && s.runs[run].Sending? && seal !in s.seals
    ensures Enabled(s, Commit(run, answer, seal))
    ensures s.runs[run].attempt in s.claims && s.row == s.claims[s.runs[run].attempt]
  {
    RunKeepsInv(Init(row), steps);
  }

  predicate NoOutside(steps: seq<Step>) {
    forall step :: step in steps ==> !step.Outside?
  }

  /** A claim whose run ended without a commit is never resumed: only another writer frees the row. */
  lemma {:induction false} AbandonedAttemptStays(s: System, more: seq<Step>, attempt: nat)
    requires Inv(s) && HoldsAttempt(s.row.secret, attempt) && !Live(s, attempt)
    requires Exec(s, more).Some? && NoOutside(more)
    ensures Exec(s, more).value.row == s.row && Exec(s, more).value.sent == s.sent
    decreases |more|
  {
    if more != [] {
      var t := Do(s, more[0]);
      StepKeepsInv(s, more[0]);
      assert t.row == s.row && t.sent == s.sent && !Live(t, attempt);
      AbandonedAttemptStays(t, more[1..], attempt);
    }
  }

  lemma AbandonedAttemptIsNeverResumed(row: Row, steps: seq<Step>, s: System, more: seq<Step>, attempt: nat)
    requires Reached(row, steps, s) && HoldsAttempt(s.row.secret, attempt) && !Live(s, attempt)
    requires Exec(s, more).Some? && NoOutside(more)
    ensures Exec(s, more).value.row == s.row && Exec(s, more).value.sent == s.sent
  {
    RunKeepsInv(Init(row), steps);
    AbandonedAttemptStays(s, more, attempt);
  }
}
