/**
 Disconnecting a Gmail account (packages/gmail/src/accounts.ts) while tokens are refreshed and
 requests are under way. Handlers interleave at every `await`; between two awaits one runs alone.
 */
module GmailAccount {
  import opened Options

  /**
   A suspended handler: `token` awaiting its refresh, `fetch` awaiting its response, `disconnect`
   awaiting the refreshes pending when it began, and `disconnect` awaiting the revocation.
   */
  datatype Frame = Refreshing(settled: bool) | Fetching | Draining(waits: set<nat>) | Revoking

  /** The account's flags, `pendingTokens` by handler, and the suspended handlers. */
  datatype State = State(closing: bool, revoked: bool, pending: set<nat>, frames: map<nat, Frame>)

  const OPEN := State(false, false, {}, map[])

  /**
   `bound` says that the managed binding still checks out, `matches` that the authorization id is
   the account's own, `ok` that the awaited work succeeded.
   */
  datatype Step =
    | StartToken(handler: nat, bound: bool)
    | Settle(handler: nat)
    | EndToken(handler: nat, ok: bool, bound: bool)
    | StartFetch(handler: nat, bound: bool)
    | EndFetch(handler: nat, ok: bool, bound: bool)
    | StartDisconnect(handler: nat, matches: bool)
    | SendRevoke(handler: nat)
    | EndRevoke(handler: nat, ok: bool)

  predicate InFlight(s: State, h: nat) { h in s.frames && s.frames[h] == Refreshing(false) }

  predicate Enabled(s: State, step: Step) {
    var h := step.handler;
    match step
    case StartToken(_, _) => h !in s.frames
    case Settle(_) => InFlight(s, h)
    case EndToken(_, _, _) => h in s.frames && s.frames[h] == Refreshing(true)
    case StartFetch(_, _) => h !in s.frames
    case EndFetch(_, _, _) => h in s.frames && s.frames[h].Fetching?
    case StartDisconnect(_, _) => h !in s.frames
    case SendRevoke(_) => h in s.frames && s.frames[h].Draining? && forall t :: t in s.frames[h].waits ==>
        !InFlight(s, t)
    case EndRevoke(_, _) => h in s.frames && s.frames[h].Revoking?
  }

  /** `check` */
  predicate Checks(s: State, bound: bool) { !s.closing && bound }

  predicate Starts(s: State, matches: bool) { matches && !s.revoked && !s.closing }

  /** One stretch of synchronous code. */
  function Do(s: State, step: Step): State
    requires Enabled(s, step)
  {
    match step
    case StartToken(h, bound) =>
      if Checks(s, bound) then s.(pending := s.pending + {h}, frames := s.frames[h := Refreshing(false)]) else s
    case Settle(h) => s.(frames := s.frames[h := Refreshing(true)])
    case EndToken(h, _, _) => s.(pending := s.pending - {h}, frames := s.frames - {h})
    case StartFetch(h, bound) => if Checks(s, bound) then s.(frames := s.frames[h := Fetching]) else s
    case EndFetch(h, _, _) => s.(frames := s.frames - {h})
    case StartDisconnect(h, matches) =>
      if Starts(s, matches) then s.(closing := true, frames := s.frames[h := Draining(s.pending)]) else s
    case SendRevoke(h) => s.(frames := s.frames[h := Revoking])
    case EndRevoke(h, ok) =>
      if ok then s.(revoked := true, frames := s.frames - {h}) else s.(closing := false, frames := s.frames - {h})
  }

  /** Whether this step hands a token or a response to its caller. */
  predicate Hands(s: State, step: Step) {
    match step
    case EndToken(_, ok, bound) => ok && Checks(s, bound)
    case EndFetch(_, ok, bound) => ok && Checks(s, bound)
    case _ => false
  }

  datatype Answer = Changed | Disconnecting | Done | Underway

  class Account {
    var closing: bool
    var revoked: bool
    var pendingTokens: set<nat>
    var frames: map<nat, Frame>

    function Now(): State
      reads this
    {
      State(closing, revoked, pendingTokens, frames)
    }

    constructor ()
      ensures Now() == OPEN
    {
      closing, revoked, pendingTokens, frames := false, false, {}, map[];
    }

    method StartToken(h: nat, bound: bool) returns (started: bool)
      requires h !in frames
      modifies this`pendingTokens, this`frames
      ensures Now() == Do(old(Now()), Step.StartToken(h, bound)) && started == Checks(old(Now()), bound)
      ensures started <==> !old(closing) && bound
      ensures pendingTokens == (if started then old(pendingTokens) + {h} else old(pendingTokens))
      ensures frames == (if started then old(frames)[h := Refreshing(false)] else old(frames))
    {
      if closing || !bound { return false; }
      pendingTokens, frames := pendingTokens + {h}, frames[h := Refreshing(false)];
      started := true;
    }

    /** The code after `await pending`, with its `finally`. */
    method EndToken(h: nat, ok: bool, bound: bool) returns (handed: bool)
      requires h in frames && frames[h] == Refreshing(true)
      modifies this`pendingTokens, this`frames
      ensures Now() == Do(old(Now()), Step.EndToken(h, ok, bound))
          && handed == Hands(old(Now()), Step.EndToken(h, ok, bound))
      ensures handed <==> ok && bound && !old(closing)
      ensures pendingTokens == old(pendingTokens) - {h} && frames == old(frames) - {h}
    {
      handed := ok && !closing && bound;
      pendingTokens, frames := pendingTokens - {h}, frames - {h};
    }

    /** `disconnect` up to its first await. */
    method StartDisconnect(h: nat, matches: bool) returns (answer: Answer)
      requires h !in frames
      modifies this`closing, this`frames
      ensures Now() == Do(old(Now()), Step.StartDisconnect(h, matches))
      ensures answer == Done <==> matches && old(revoked)
      ensures answer == Underway <==> matches && !old(revoked) && !old(closing)
      ensures answer == Changed <==> !matches
      ensures closing == (old(closing) || answer == Underway)
      ensures frames == (if answer == Underway then old(frames)[h := Draining(old(pendingTokens))] else old(frames))
    {
      if !matches { return Changed; }
      if revoked { return Done; }
      if closing { return Disconnecting; }
      closing := true;
      frames := frames[h := Draining(pendingTokens)];
      answer := Underway;
    }

    /** `disconnect` after its revocation: a failure opens the account again. */
    method EndRevoke(h: nat, ok: bool)
      requires h in frames && frames[h].Revoking?
      modifies this`closing, this`revoked, this`frames
      ensures Now() == Do(old(Now()), Step.EndRevoke(h, ok))
      ensures revoked == (old(revoked) || ok) && closing == (old(closing) && ok) && frames == old(frames) - {h}
    {
      if ok {
        revoked := true;
      } else {
        closing := false;
      }
      frames := frames - {h};
    }
  }

  // ------------------------------------------------------------ whole runs

  /** `handed` counts tokens and responses handed out, `revocations` the revocations that succeeded. */
  datatype History = History(s: State, handed: nat, revocations: nat)

  const START := History(OPEN, 0, 0)

  function After(h: History, step: Step): History
    requires Enabled(h.s, step)
  {
    History(Do(h.s, step), h.handed + if Hands(h.s, step) then 1 else 0,
            h.revocations + if step.EndRevoke? && step.ok then 1 else 0)
  }

  function Exec(h: History, steps: seq<Step>): Option<History>
    decreases |steps|
  {
    if steps == [] then Some(h)
    else if Enabled(h.s, steps[0]) then Exec(After(h, steps[0]), steps[1..])
    else None
  }

  /**
   Handlers start at any time and go on where they stand; a revocation is sent once the refreshes waited for settled.
   */
  lemma {:induction false} RunsGoOn(h: History, steps: seq<Step>, step: Step)
    requires Exec(h, steps).Some?
    requires var t := Exec(h, steps).value;
      match step
      case StartToken(k, _) => k !in t.s.frames
      case Settle(k) => k in t.s.frames && t.s.frames[k] == Refreshing(false)
      case EndToken(k, _, _) => k in t.s.frames && t.s.frames[k] == Refreshing(true)
      case StartFetch(k, _) => k !in t.s.frames
      case EndFetch(k, _, _) => k in t.s.frames && t.s.frames[k] == Fetching
      case StartDisconnect(k, _) => k !in t.s.frames
      case SendRevoke(k) => k in t.s.frames && t.s.frames[k].Draining?
          && forall w :: w in t.s.frames[k].waits && w in t.s.frames ==> t.s.frames[w] != Refreshing(false)
      case EndRevoke(k, _) => k in t.s.frames && t.s.frames[k] == Revoking
    ensures Exec(h, []) == Some(h)
    ensures Exec(h, steps + [step]) == Some(After(Exec(h, steps).value, step))
    decreases |steps|
  {
    hide After;
    if steps == [] {
      assert ([] + [step])[1..] == [];
    } else {
      assert (steps + [step])[1..] == steps[1..] + [step];
      RunsGoOn(After(h, steps[0]), steps[1..], step);
    }
  }

  /** The steps of a handler that are no method of the account. */
  lemma OtherStepsSpelled(s: State, step: Step)
    requires Enabled(s, step)
    ensures step.StartFetch? ==>
              Do(s, step) == if s.closing || !step.bound then s
                             else State(s.closing, s.revoked, s.pending, s.frames[step.handler := Fetching])
    ensures step.EndFetch? ==> Do(s, step) == State(s.closing, s.revoked, s.pending, s.frames - {step.handler})
    ensures step.Settle? ==>
              Do(s, step) == State(s.closing, s.revoked, s.pending, s.frames[step.handler := Refreshing(true)])
    ensures step.SendRevoke? ==>
              Do(s, step) == State(s.closing, s.revoked, s.pending, s.frames[step.handler := Revoking])
  {}

  predicate Disconnects(s: State, h: nat) { h in s.frames && (s.frames[h].Draining? || s.frames[h].Revoking?) }

  ghost predicate Underway(s: State) { exists h :: Disconnects(s, h) }

  ghost predicate OneDisconnect(s: State) { forall a, b :: Disconnects(s, a) && Disconnects(s, b) ==> a == b }

  /** The account is closing exactly while a disconnect is under way or once it is revoked. */
  ghost predicate ClosingAgrees(s: State) {
    && (s.closing <==> s.revoked || Underway(s))
    && !(s.revoked && Underway(s))
  }

  /** A draining disconnect waits for every refresh in flight, and a revocation goes out only when none is. */
  ghost predicate Drains(s: State) {
    && (forall h, t :: h in s.frames && s.frames[h].Draining? && InFlight(s, t) ==> t in s.frames[h].waits)
    && (forall h, t :: h in s.frames && s.frames[h].Revoking? ==> !InFlight(s, t))
  }

  ghost predicate PendingAgrees(s: State) { forall h :: h in s.pending <==> h in s.frames && s.frames[h].Refreshing? }

  ghost predicate Inv(h: History) {
    && OneDisconnect(h.s) && ClosingAgrees(h.s) && Drains(h.s) && PendingAgrees(h.s)
    && h.revocations == if h.s.revoked then 1 else 0
  }

  /** Who disconnects after a step: who did before, but for one that starts or one that ends. */
  lemma StepOnDisconnects(s: State, step: Step, h: nat)
    requires Enabled(s, step)
    ensures Disconnects(Do(s, step), h) <==>
              (Disconnects(s, h) && !(step.EndRevoke? && step.handler == h))
              || (step.StartDisconnect? && step.handler == h && Starts(s, step.matches))
  {}

  lemma StepKeepsClosing(s: State, step: Step)
    requires OneDisconnect(s) && ClosingAgrees(s) && Enabled(s, step)
    ensures OneDisconnect(Do(s, step)) && ClosingAgrees(Do(s, step))
  {
    forall h: nat ensures Disconnects(Do(s, step), h) <==>
              (Disconnects(s, h) && !(step.EndRevoke? && step.handler == h))
              || (step.StartDisconnect? && step.handler == h && Starts(s, step.matches)) {
      StepOnDisconnects(s, step, h);
    }
    if step.EndRevoke? {
      assert Disconnects(s, step.handler);
    }
    hide Disconnects;
    if step.StartDisconnect? && Starts(s, step.matches) {
      assert Disconnects(Do(s, step), step.handler);
    } else if !step.EndRevoke? {
      assert forall h: nat :: Disconnects(Do(s, step), h) <==> Disconnects(s, h);
    }
  }

  lemma StepKeepsDrains(s: State, step: Step)
    requires ClosingAgrees(s) && OneDisconnect(s) && Drains(s) && PendingAgrees(s) && Enabled(s, step)
    ensures Drains(Do(s, step))
  {
    var t := Do(s, step);
    assert forall h: nat :: InFlight(t, h) ==> InFlight(s, h) || (step.StartToken? && step.handler == h && !s.closing);
    forall h: nat | h in s.frames && (s.frames[h].Draining? || s.frames[h].Revoking?)
        ensures s.closing { assert Disconnects(s, h); }
  }

  lemma StepKeepsPending(s: State, step: Step)
    requires PendingAgrees(s) && Enabled(s, step)
    ensures PendingAgrees(Do(s, step))
  {}

  lemma StepKeepsInv(h: History, step: Step)
    requires Inv(h) && Enabled(h.s, step)
    ensures Inv(After(h, step))
  {
    StepKeepsClosing(h.s, step);
    StepKeepsDrains(h.s, step);
    StepKeepsPending(h.s, step);
    if step.EndRevoke? { assert Disconnects(h.s, step.handler); }
  }

  lemma {:induction false} RunKeepsInv(h: History, steps: seq<Step>)
    requires Inv(h) && Exec(h, steps).Some?
    ensures Inv(Exec(h, steps).value)
    decreases |steps|
  {
    hide Inv, Do;
    if steps != [] {
      StepKeepsInv(h, steps[0]);
      RunKeepsInv(After(h, steps[0]), steps[1..]);
    }
  }

  // ------------------------------------------------------------ the theorems

  /**
   When the revocation is sent, and until it ends, no refresh is in flight that could save another token, and none
   starts.
   */
  lemma RevocationSeesNoRefresh(steps: seq<Step>, h: History, d: nat, t: nat, bound: bool)
    requires Exec(START, steps) == Some(h) && d in h.s.frames && h.s.frames[d].Revoking?
    ensures t in h.s.frames ==> h.s.frames[t] != Refreshing(false)
    ensures !Checks(h.s, bound)
  {
    RunKeepsInv(START, steps);
    assert Disconnects(h.s, d) && !InFlight(h.s, t);
  }

  /** Two disconnects are never under way together, and over a whole run at most one revocation succeeds. */
  lemma DisconnectsExclude(steps: seq<Step>, h: History, a: nat, b: nat)
    requires Exec(START, steps) == Some(h)
    ensures Disconnects(h.s, a) && Disconnects(h.s, b) ==> a == b
    ensures h.revocations <= 1 && (h.s.revoked <==> h.revocations == 1)
    ensures h.s.closing <==> h.s.revoked || exists d :: Disconnects(h.s, d)
  {
    RunKeepsInv(START, steps);
  }

  /**
   In every run, a step hands something out exactly when it ends a refresh or a request that succeeded on a binding
   that still checks out, while no disconnect is under way and none has succeeded.
   */
  lemma HandsExactlyWhen(steps: seq<Step>, h: History, step: Step)
    requires Exec(START, steps) == Some(h) && Enabled(h.s, step)
    ensures After(h, step).handed == h.handed + 1 || After(h, step).handed == h.handed
    ensures After(h, step).handed == h.handed + 1 <==>
              && ((step.EndToken? && step.ok && step.bound) || (step.EndFetch? && step.ok && step.bound))
              && h.revocations == 0
              && forall d :: d in h.s.frames ==> !h.s.frames[d].Draining? && !h.s.frames[d].Revoking?
  {
    RunKeepsInv(START, steps);
    if Underway(h.s) { var d :| Disconnects(h.s, d); }
    assert forall d :: d in h.s.frames && (h.s.frames[d].Draining? || h.s.frames[d].Revoking?) ==>
        Disconnects(h.s, d);
    hide Exec;
  }

  /** From a successful revocation on, whatever was under way, no token and no response is handed out again. */
  lemma NothingIsHandedAfterRevocation(steps: seq<Step>, h: History, more: seq<Step>)
    requires Exec(START, steps) == Some(h) && h.s.revoked && Exec(h, more).Some?
    ensures Exec(h, more).value.handed == h.handed && Exec(h, more).value.s.revoked
        && Exec(h, more).value.revocations == 1
  {
    RunKeepsInv(START, steps);
    RevokedStays(h, more);
  }

  lemma {:induction false} RevokedStays(h: History, more: seq<Step>)
    requires Inv(h) && h.s.revoked && Exec(h, more).Some?
    ensures var t := Exec(h, more).value; t.s.revoked && t.handed == h.handed && t.revocations == 1
    decreases |more|
  {
    if more != [] {
      StepKeepsInv(h, more[0]);
      if more[0].EndRevoke? { assert Disconnects(h.s, more[0].handler); }
      assert After(h, more[0]).s.revoked && !Hands(h.s, more[0]);
      RevokedStays(After(h, more[0]), more[1..]);
    }
  }

  /**
   While a disconnect is under way nothing is handed out either, and the step that ends it in failure lets tokens
   flow again.
   */
  lemma ClosedWhileDisconnecting(steps: seq<Step>, h: History, d: nat, step: Step)
    requires Exec(START, steps) == Some(h) && Disconnects(h.s, d) && Enabled(h.s, step)
    ensures !Hands(h.s, step)
    ensures !Do(h.s, step).closing <==> step == EndRevoke(d, false)
  {
    RunKeepsInv(START, steps);
    if step.EndRevoke? { assert Disconnects(h.s, step.handler); }
  }
}
