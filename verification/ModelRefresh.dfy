/**
 The refresh of a Codex model connection (packages/connectors/src/model-refresh.ts): one
 flight per connection in a process, and a counted revision plus a gap between processes.
 */
module ModelRefresh {
  import opened Options

  const REFRESH_BEFORE_MS := 300_000
  const FORCED_GAP_MS := 60_000

  datatype Codex = Codex(access: string, refreshToken: string, expiresAt: int)

  /** What a connection signs in with. Times are milliseconds; `secret` is none when it is no Codex secret. */
  datatype Credential = Credential(secret: Option<Codex>, signedOut: bool, refreshedAt: Option<int>,
      signedInAt: Option<int>)

  datatype Connection = Connection(codex: bool, title: string, revision: nat, held: Credential)

  datatype Answer = Refreshed(secret: Codex) | DeadGrant | Failed

  /** `liveCodex` finds a secret. */
  predicate Live(c: Connection) {
    c.codex && !c.held.signedOut && c.held.secret.Some?
  }

  predicate Within(at: Option<int>, now: int) {
    at.Some? && now - at.value < FORCED_GAP_MS
  }

  predicate IssuedWithin(c: Connection, now: int) {
    Within(c.held.refreshedAt, now) || Within(c.held.signedInAt, now)
  }

  /** Whether the locked edit presents the refresh token. */
  predicate Sends(c: Connection, forced: Option<nat>, now: int) {
    && (forced.Some? ==> c.revision == forced.value && !IssuedWithin(c, now))
    && Live(c)
    && (forced.None? ==> c.held.secret.value.expiresAt - now <= REFRESH_BEFORE_MS)
  }

  // ------------------------------------------------------------ the edits of one row

  /**
   Everything that edits the row under its lock. A refresh reads the clock when it checks and again
   when it sends. A sign-in read its clock before it took the lock; it is refused for another
   account. A patch changes what is no credential. A key edit is for other providers.
   */
  datatype Edit =
    | Refresh(forced: Option<nat>, checked: int, sent: int, answer: Answer)
    | SignIn(secret: Codex, at: int, refused: bool)
    | Patch(title: string)
    | KeyEdit

  predicate SignsIn(c: Connection, edit: Edit) { edit.SignIn? && c.codex && !edit.refused }

  predicate Presents(c: Connection, edit: Edit) { edit.Refresh? && Sends(c, edit.forced, edit.checked) }

  /** A refresh that saves a new token. */
  predicate Renews(c: Connection, edit: Edit) { Presents(c, edit) && edit.answer.Refreshed? }

  /** A credential edit replaces the credential and counts the revision up. */
  function Credited(c: Connection, held: Credential): Connection {
    c.(held := held, revision := c.revision + 1)
  }

  function Edited(c: Connection, edit: Edit): Connection {
    match edit
    case Refresh(_, _, sent, answer) =>
      if !Presents(c, edit) then c
      else (match answer
            case Refreshed(secret) => Credited(c, c.held.(secret := Some(secret), refreshedAt := Some(sent)))
            case DeadGrant => Credited(c, c.held.(signedOut := true))
            case Failed => c)
    case SignIn(secret, at, _) =>
      if SignsIn(c, edit) then Credited(c, Credential(Some(secret), false, None, Some(at))) else c
    case Patch(title) => c.(title := title)
    case KeyEdit => if c.codex then c else Credited(c, c.held.(signedOut := false))
  }

  /** What a refresh looks at and what each answer leaves stored. */
  lemma RefreshSpelled(c: Connection, forced: Option<nat>, checked: int, sent: int, answer: Answer)
    ensures var e, h := Refresh(forced, checked, sent, answer), c.held;
            var recent := (h.refreshedAt.Some? && checked - h.refreshedAt.value < 60000)
                          || (h.signedInAt.Some? && checked - h.signedInAt.value < 60000);
            var sends := c.codex && !h.signedOut && h.secret.Some?
                         && (if forced.Some? then forced.value == c.revision && !recent
                             else h.secret.value.expiresAt - checked <= 300000);
            && (Presents(c, e) <==> sends)
            && Edited(c, e) == (if !sends || answer.Failed? then c
                                else Connection(c.codex, c.title, c.revision + 1,
                                                if answer.DeadGrant?
                                                then Credential(h.secret, true, h.refreshedAt, h.signedInAt)
                                                else Credential(Some(answer.secret), h.signedOut, Some(sent),
                                                    h.signedInAt)))
  {}

  /** What a sign-in, a patch and a key edit leave stored. */
  lemma OtherEditsSpelled(c: Connection, secret: Codex, at: int, refused: bool, title: string)
    ensures Edited(c, SignIn(secret, at, refused)) ==
              (if !c.codex || refused then c
               else Connection(true, c.title, c.revision + 1, Credential(Some(secret), false, None, Some(at))))
    ensures Edited(c, Patch(title)) == Connection(c.codex, title, c.revision, c.held)
    ensures c.codex ==> Edited(c, KeyEdit) == c
    ensures !c.codex ==>
              Edited(c, KeyEdit) == Connection(false, c.title, c.revision + 1,
                                               Credential(c.held.secret, false, c.held.refreshedAt, c.held.signedInAt))
  {}

  /** The edits of all processes, serialised by the row lock. */
  function After(c: Connection, edits: seq<Edit>): Connection
    decreases |edits|
  {
    if edits == [] then c else After(Edited(c, edits[0]), edits[1..])
  }

  /** Over any edits the revision only grows, and while it stands the credential does. */
  lemma {:induction false} RevisionNamesTheCredential(c: Connection, edits: seq<Edit>)
    ensures c.revision <= After(c, edits).revision <= c.revision + |edits|
    ensures After(c, edits).revision == c.revision ==> After(c, edits).held == c.held
    ensures After(c, edits).codex == c.codex
    decreases |edits|
  {
    if edits != [] {
      RevisionNamesTheCredential(Edited(c, edits[0]), edits[1..]);
    }
  }

  /**
   Of all edits forced with one revision, once one changed the row none ever sends again,
   whatever sign-ins, patches and refreshes come between.
   */
  lemma ForcedRevisionCommitsOnce(c: Connection, first: Edit, between: seq<Edit>, second: Edit)
    requires first.Refresh? && second.Refresh? && first.forced.Some? && second.forced == first.forced
    requires Edited(c, first) != c
    ensures var d := After(Edited(c, first), between); !Presents(d, second) && Edited(d, second) == d
  {
    RevisionNamesTheCredential(Edited(c, first), between);
  }

  predicate NoSignIn(edits: seq<Edit>) { forall e :: e in edits ==> !(e.SignIn? && !e.refused) }

  /** A signed-out credential stays, and presents nothing, exactly until someone signs in. */
  lemma {:induction false} SignedOutUntilSignIn(c: Connection, edits: seq<Edit>)
    requires c.codex && c.held.signedOut && NoSignIn(edits)
    ensures After(c, edits).held == c.held
    ensures forall next :: !Presents(After(c, edits), next)
    ensures forall next :: !Edited(After(c, edits), next).held.signedOut <==> SignsIn(After(c, edits), next)
    decreases |edits|
  {
    if edits != [] {
      assert edits[0] in edits;
      SignedOutUntilSignIn(Edited(c, edits[0]), edits[1..]);
    }
  }

  // ------------------------------------------------------------ the newest token

  /** The newest refresh token after an edit; none once the grant is dead, until the next sign-in. */
  function Newest(token: Option<string>, c: Connection, edit: Edit): Option<string> {
    if SignsIn(c, edit) then Some(edit.secret.refreshToken)
    else if !Presents(c, edit) then token
    else match edit.answer
      case Refreshed(secret) => Some(secret.refreshToken)
      case DeadGrant => None
      case Failed => token
  }

  /** The newest refresh token issued over a run of edits, by a sign-in or by a refresh. */
  function NewestOf(token: Option<string>, c: Connection, edits: seq<Edit>): Option<string>
    decreases |edits|
  {
    if edits == [] then token else NewestOf(Newest(token, c, edits[0]), Edited(c, edits[0]), edits[1..])
  }

  /** Over any run, whatever a refresh presents is the newest token issued, and it is none after a dead grant. */
  lemma {:induction false} OnlyTheNewestIsPresented(c: Connection, edits: seq<Edit>, next: Edit, token: Option<string>)
    requires Live(c) ==> token == Some(c.held.secret.value.refreshToken)
    ensures var d := After(c, edits);
            Presents(d, next) ==> NewestOf(token, c, edits) == Some(d.held.secret.value.refreshToken)
    decreases |edits|
  {
    if edits != [] {
      OnlyTheNewestIsPresented(Edited(c, edits[0]), edits[1..], next, Newest(token, c, edits[0]));
    }
  }

  // ------------------------------------------------------------ the gap between forced requests

  /** Refreshes run under one clock: each checks, then sends, then frees the lock. */
  ghost predicate ClockOrdered(edits: seq<Edit>, floor: int) {
    && (forall i :: 0 <= i < |edits| && edits[i].Refresh? ==> floor <= edits[i].checked <= edits[i].sent)
    && (forall i, j :: 0 <= i < j < |edits| && edits[i].Refresh? && edits[j].Refresh? ==>
        edits[i].sent <= edits[j].checked)
  }

  /** No sign-in and no refresh saves anything over the edits. */
  predicate Untouched(c: Connection, edits: seq<Edit>)
    decreases |edits|
  {
    edits == [] || (!SignsIn(c, edits[0]) && !Renews(c, edits[0]) && Untouched(Edited(c, edits[0]), edits[1..]))
  }

  /**
   The last credential the edits saved is a sign-in that read its clock at least the gap before
   `now`, however late it got the lock.
   */
  predicate LateSignIn(c: Connection, edits: seq<Edit>, now: int)
    decreases |edits|
  {
    edits != [] &&
    var d := Edited(c, edits[0]);
    || LateSignIn(d, edits[1..], now)
    || (SignsIn(c, edits[0]) && now - edits[0].at >= FORCED_GAP_MS && Untouched(d, edits[1..]))
  }

  /** When the stamps are old enough at `now`, where every refresh of the run was sent less than the gap before. */
  lemma {:induction false} IssuedExactlyWhen(c: Connection, edits: seq<Edit>, now: int)
    requires forall e :: e in edits && e.Refresh? ==> now - e.sent < FORCED_GAP_MS
    ensures !IssuedWithin(After(c, edits), now) <==>
              LateSignIn(c, edits, now) || (!IssuedWithin(c, now) && Untouched(c, edits))
    decreases |edits|
  {
    if edits != [] {
      assert edits[0] in edits;
      IssuedExactlyWhen(Edited(c, edits[0]), edits[1..], now);
    }
  }

  /**
   Whether no stamp holds a request back at `now`, less than the gap after `first` was sent: a refresh
   that was answered with a token stamped itself, so only a late sign-in can have replaced that; one
   that failed or found its grant dead stamped nothing, so the stamps before it may still be old and
   untouched.
   */
  predicate NothingHoldsBack(c: Connection, first: Edit, between: seq<Edit>, now: int) {
    || LateSignIn(Edited(c, first), between, now)
    || (!Renews(c, first) && !IssuedWithin(c, now) && Untouched(Edited(c, first), between))
  }

  /**
   The exact gap: within a minute of any refresh that was sent, another is sent by force if and only
   if it is forced with the current revision of a live connection and nothing holds it back.
   */
  lemma ForcedWithinTheGapExactlyWhen(c: Connection, first: Edit, between: seq<Edit>, second: Edit)
    requires Presents(c, first) && second.Refresh? && second.forced.Some?
    requires ClockOrdered([first] + between + [second], first.checked)
    requires second.checked - first.sent < FORCED_GAP_MS
    ensures var d := After(Edited(c, first), between);
            Presents(d, second) <==>
              second.forced.value == d.revision && Live(d) && NothingHoldsBack(c, first, between, second.checked)
  {
    var all := [first] + between + [second];
    assert all[0] == first && all[|all| - 1] == second;
    forall e | e in between && e.Refresh? ensures second.checked - e.sent < FORCED_GAP_MS {
      var i :| 0 <= i < |between| && between[i] == e;
      assert all[i + 1] == e;
    }
    IssuedExactlyWhen(Edited(c, first), between, second.checked);
  }

  lemma {:induction false} LateSignInSignsIn(c: Connection, edits: seq<Edit>, now: int)
    requires LateSignIn(c, edits, now)
    ensures exists e :: e in edits && e.SignIn? && !e.refused && now - e.at >= FORCED_GAP_MS
    decreases |edits|
  {
    assert edits[0] in edits;
    if LateSignIn(Edited(c, edits[0]), edits[1..], now) {
      LateSignInSignsIn(Edited(c, edits[0]), edits[1..], now);
      var e :| e in edits[1..] && e.SignIn? && !e.refused && now - e.at >= FORCED_GAP_MS;
      assert e in edits;
    }
  }

  /**
   So after a refresh that brought a token, where no sign-in waits a minute for its lock, no forced
   request is sent within a minute; after one that brought none, one is sent only with stamps that
   were old before it and that nothing replaced.
   */
  lemma ForcedRequestsKeepTheGap(c: Connection, first: Edit, between: seq<Edit>, second: Edit)
    requires Presents(c, first) && second.Refresh? && second.forced.Some?
    requires ClockOrdered([first] + between + [second], first.checked)
    requires forall e :: e in between && e.SignIn? && !e.refused ==> second.checked - e.at < FORCED_GAP_MS
    requires Presents(After(Edited(c, first), between), second)
    ensures || second.sent - first.sent >= FORCED_GAP_MS
            || (!Renews(c, first) && !IssuedWithin(c, second.checked) && Untouched(Edited(c, first), between))
  {
    var all := [first] + between + [second];
    assert all[|all| - 1] == second;
    if second.checked - first.sent < FORCED_GAP_MS {
      ForcedWithinTheGapExactlyWhen(c, first, between, second);
      if LateSignIn(Edited(c, first), between, second.checked) {
        LateSignInSignsIn(Edited(c, first), between, second.checked);
      }
    }
  }

  /**
   The first way the gap fails: a sign-in stamped 0 gets the lock after a refresh at 1000, and a forced one goes out
   at 60000.
   */
  lemma GapFails(c: Connection, secret: Codex, signedIn: Codex, answer: Answer)
    requires Live(c) && !IssuedWithin(c, 1000)
    ensures var first := Refresh(Some(c.revision), 1000, 1000, Refreshed(secret));
            var second := Refresh(Some(c.revision + 2), 60000, 60000, answer);
            Presents(c, first) && Presents(After(Edited(c, first), [SignIn(signedIn, 0, false)]), second)
  {
    var d := Edited(c, Refresh(Some(c.revision), 1000, 1000, Refreshed(secret)));
    assert After(Edited(d, SignIn(signedIn, 0, false)), []) == Edited(d, SignIn(signedIn, 0, false));
  }

  /** The second: a refresh that failed leaves no stamp, and the same token goes out by force a second later. */
  lemma GapFailsAfterAFailure(c: Connection, answer: Answer, at: int)
    requires Live(c) && !IssuedWithin(c, at)
    ensures var first := Refresh(Some(c.revision), at, at, Failed);
            var second := Refresh(Some(c.revision), at + 1000, at + 1000, answer);
            Presents(c, first) && Edited(c, first) == c && Presents(After(Edited(c, first), []), second)
  {}

  // ------------------------------------------------------------ single flight

  /** The module-level `flights` map; `running` names every flight whose promise is not settled. */
  class Flights {
    var flights: map<string, nat>
    var running: map<nat, string>
    var minted: nat

    /** The table holds exactly the running flights, one for each name. */
    ghost predicate Valid()
      reads this
    {
      && (forall name :: name in flights ==> flights[name] in running && running[flights[name]] == name)
      && (forall flight :: flight in running ==>
          flight < minted && running[flight] in flights && flights[running[flight]] == flight)
    }

    constructor ()
      ensures Valid() && flights == map[] && running == map[]
    {
      flights, running, minted := map[], map[], 0;
    }

    /** A request joins the running flight of its connection, or starts the only one. */
    method Request(name: string) returns (flight: nat, started: bool)
      requires Valid()
      modifies this
      ensures Valid() && name in flights && flights[name] == flight && running[flight] == name
      ensures started <==> name !in old(flights)
      ensures !started ==> flights == old(flights) && running == old(running)
      ensures started ==>
          flight !in old(running) && flights == old(flights)[name := flight] && running == old(running)[flight := name]
    {
      if name in flights {
        return flights[name], false;
      }
      flight, started := minted, true;
      flights, running, minted := flights[name := flight], running[flight := name], minted + 1;
    }

    /** `finally` deletes by name; what it deletes is always its own flight. */
    method Settle(flight: nat)
      requires Valid() && flight in running
      modifies this
      ensures Valid() && flight !in running && minted == old(minted)
      ensures running == old(running) - {flight}
      ensures flights == old(flights) - {old(running[flight])}
      ensures forall name :: name in old(flights) && old(flights)[name] != flight ==>
          name in flights && flights[name] == old(flights)[name]
    {
      flights, running := flights - {running[flight]}, running - {flight};
    }
  }
}
