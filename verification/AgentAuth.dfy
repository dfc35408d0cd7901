/**
 The replay cache of signed agent requests (packages/connectors/src/agent-auth.ts): a map of
 remembered nonces, counters derived from it for every key and owner, and throttled pruning.
 */
module AgentAuth {
  import opened Options
  import Sets

  const CLOCK_SKEW_MS := 300000
  const PRUNE_MS := 60000

  datatype Limits = Limits(total: nat, perOwner: nat, perKey: nat)

  datatype Proof = Proof(keyId: string, time: nat, nonce: string)

  datatype Seen = Seen(keyId: string, owner: string, until: int)

  datatype Verdict = Accepted | Replayed | KeyBusy | OwnerBusy | Busy

  /** What decides: the remembered nonces and when they were last pruned. */
  datatype Cache = Cache(nonces: map<string, Seen>, pruned: int)

  /** The base64url text of a SHA-256 digest. */
  predicate KeyIdOk(keyId: string) { |keyId| == 43 }

  predicate WithinSkew(time: int, now: int) {
    -CLOCK_SKEW_MS <= now - time <= CLOCK_SKEW_MS
  }

  function NonceName(proof: Proof): string { proof.keyId + "." + proof.nonce }

  function KeyName(keyId: string): string { "key " + keyId }

  function OwnerName(owner: string): string { "owner " + owner }

  lemma NonceNameInjective(a: Proof, b: Proof)
    requires KeyIdOk(a.keyId) && KeyIdOk(b.keyId)
    ensures NonceName(a) == NonceName(b) <==> a.keyId == b.keyId && a.nonce == b.nonce
  {
    if NonceName(a) == NonceName(b) {
      assert a.keyId == NonceName(a)[..43] && b.keyId == NonceName(b)[..43];
      assert a.nonce == NonceName(a)[44..] && b.nonce == NonceName(b)[44..];
    }
  }

  lemma CounterNamesDistinct(keyId: string, owner: string)
    ensures KeyName(keyId) != OwnerName(owner)
  {
    assert KeyName(keyId)[0] == 'k' && OwnerName(owner)[0] == 'o';
  }

  // --------------------------------------------------------------- the counters

  predicate Counts(seen: Seen, name: string) {
    name == KeyName(seen.keyId) || name == OwnerName(seen.owner)
  }

  function Counted(nonces: map<string, Seen>, name: string): set<string> {
    set n | n in nonces && Counts(nonces[n], name)
  }

  function CountOf(nonces: map<string, Seen>, name: string): nat { |Counted(nonces, name)| }

  function HeldCount(held: map<string, int>, name: string): int {
    if name in held then held[name] else 0
  }

  /** Every counter equals the number of remembered nonces it counts, and is absent exactly at zero. */
  ghost predicate Agrees(nonces: map<string, Seen>, held: map<string, int>) {
    forall name: string :: HeldCount(held, name) == CountOf(nonces, name)
        && (name in held <==> CountOf(nonces, name) > 0)
  }

  function Bumped(held: map<string, int>, name: string, delta: int): map<string, int> {
    var next := HeldCount(held, name) + delta;
    if next > 0 then held[name := next] else held - {name}
  }

  lemma CountWithout(nonces: map<string, Seen>, nonce: string, name: string)
    requires nonce in nonces
    ensures CountOf(nonces - {nonce}, name) == CountOf(nonces, name) - if Counts(nonces[nonce], name) then 1 else 0
  {
    assert Counted(nonces - {nonce}, name) == Counted(nonces, name) - {nonce};
  }

  lemma CountWith(nonces: map<string, Seen>, nonce: string, seen: Seen, name: string)
    requires nonce !in nonces
    ensures CountOf(nonces[nonce := seen], name) == CountOf(nonces, name) + if Counts(seen, name) then 1 else 0
  {
    if Counts(seen, name) {
      assert Counted(nonces[nonce := seen], name) == Counted(nonces, name) + {nonce};
    } else {
      assert Counted(nonces[nonce := seen], name) == Counted(nonces, name);
    }
  }

  lemma ForgetKeepsAgreement(nonces: map<string, Seen>, held: map<string, int>, nonce: string)
    requires Agrees(nonces, held) && nonce in nonces
    ensures var seen := nonces[nonce];
        Agrees(nonces - {nonce}, Bumped(Bumped(held, KeyName(seen.keyId), -1), OwnerName(seen.owner), -1))
  {
    var seen := nonces[nonce];
    CounterNamesDistinct(seen.keyId, seen.owner);
    var after := Bumped(Bumped(held, KeyName(seen.keyId), -1), OwnerName(seen.owner), -1);
    forall name: string
      ensures HeldCount(after, name) == CountOf(nonces - {nonce}, name)
          && (name in after <==> CountOf(nonces - {nonce}, name) > 0)
    {
      CountWithout(nonces, nonce, name);
    }
  }

  lemma RememberKeepsAgreement(nonces: map<string, Seen>, held: map<string, int>, nonce: string, seen: Seen)
    requires Agrees(nonces, held) && nonce !in nonces
    ensures Agrees(nonces[nonce := seen], Bumped(Bumped(held, KeyName(seen.keyId), 1), OwnerName(seen.owner), 1))
  {
    CounterNamesDistinct(seen.keyId, seen.owner);
    var after := Bumped(Bumped(held, KeyName(seen.keyId), 1), OwnerName(seen.owner), 1);
    forall name: string
      ensures HeldCount(after, name) == CountOf(nonces[nonce := seen], name)
          && (name in after <==> CountOf(nonces[nonce := seen], name) > 0)
    {
      CountWith(nonces, nonce, seen, name);
    }
  }

  // ------------------------------------------------------------- what a call does

  function Kept(nonces: map<string, Seen>, now: int): map<string, Seen> {
    map n | n in nonces && nonces[n].until >= now :: nonces[n]
  }

  function Pruned(c: Cache, now: int): Cache {
    if now - c.pruned < PRUNE_MS then c else Cache(Kept(c.nonces, now), now)
  }

  /** `remember`: prune, then the first limit that refuses, else one more nonce. */
  function Remembered(c: Cache, limits: Limits, proof: Proof, owner: string, now: int): (Cache, Verdict) {
    var p := Pruned(c, now);
    if NonceName(proof) in p.nonces then (p, Replayed)
    else if CountOf(p.nonces, KeyName(proof.keyId)) >= limits.perKey then (p, KeyBusy)
    else if CountOf(p.nonces, OwnerName(owner)) >= limits.perOwner then (p, OwnerBusy)
    else if |p.nonces| >= limits.total then (p, Busy)
    else (p.(nonces := p.nonces[NonceName(proof) := Seen(proof.keyId, owner, proof.time + CLOCK_SKEW_MS)]), Accepted)
  }

  lemma CountsByKeyAndOwner(nonces: map<string, Seen>, keyId: string, owner: string)
    ensures CountOf(nonces, KeyName(keyId)) == |set n | n in nonces && nonces[n].keyId == keyId|
    ensures CountOf(nonces, OwnerName(owner)) == |set n | n in nonces && nonces[n].owner == owner|
  {
    forall n | n in nonces
      ensures Counts(nonces[n], KeyName(keyId)) <==> nonces[n].keyId == keyId
      ensures Counts(nonces[n], OwnerName(owner)) <==> nonces[n].owner == owner
    {
      CounterNamesDistinct(keyId, nonces[n].owner);
      CounterNamesDistinct(nonces[n].keyId, owner);
      NamesInjective(keyId, nonces[n].keyId, owner, nonces[n].owner);
    }
    hide Counts;
    assert Counted(nonces, KeyName(keyId)) == set n | n in nonces && nonces[n].keyId == keyId;
    assert Counted(nonces, OwnerName(owner)) == set n | n in nonces && nonces[n].owner == owner;
  }

  lemma NamesInjective(a: string, b: string, c: string, d: string)
    ensures KeyName(a) == KeyName(b) <==> a == b
    ensures OwnerName(c) == OwnerName(d) <==> c == d
  {
    assert KeyName(a)[4..] == a && KeyName(b)[4..] == b && OwnerName(c)[6..] == c && OwnerName(d)[6..] == d;
  }

  /**
   What a proof is answered and what is then remembered, by the nonces that stand: those before, less
   the ones past their time when the last pruning is a minute old or more.
   */
  ghost predicate Judged(before: Cache, after: Cache, limits: Limits, proof: Proof, owner: string, now: int,
                         verdict: Verdict) {
    var late, name := now - before.pruned >= 60000, proof.keyId + "." + proof.nonce;
    var stands := map n | n in before.nonces && (late ==> before.nonces[n].until >= now) :: before.nonces[n];
    var withKey := |set n | n in stands && stands[n].keyId == proof.keyId|;
    var withOwner := |set n | n in stands && stands[n].owner == owner|;
    && (verdict == Replayed <==> name in stands)
    && (verdict == KeyBusy <==> name !in stands && withKey >= limits.perKey)
    && (verdict == OwnerBusy <==> name !in stands && withKey < limits.perKey && withOwner >= limits.perOwner)
    && (verdict == Busy <==> name !in stands && withKey < limits.perKey && withOwner < limits.perOwner
                             && |stands| >= limits.total)
    && (verdict == Accepted <==> name !in stands && withKey < limits.perKey && withOwner < limits.perOwner
                                 && |stands| < limits.total)
    && after.pruned == (if late then now else before.pruned)
    && after.nonces == (if verdict == Accepted then stands[name := Seen(proof.keyId, owner, proof.time + 300000)]
                        else stands)
  }

  lemma RemembersExactly(c: Cache, limits: Limits, proof: Proof, owner: string, now: int)
    ensures var (next, verdict) := Remembered(c, limits, proof, owner, now);
            Judged(c, next, limits, proof, owner, now, verdict)
  {
    var late := now - c.pruned >= 60000;
    var stands := map n | n in c.nonces && (late ==> c.nonces[n].until >= now) :: c.nonces[n];
    assert Pruned(c, now).nonces == stands;
    CountsByKeyAndOwner(stands, proof.keyId, owner);
    hide CountOf;
  }

  class Auth {
    const limits: Limits
    var nonces: map<string, Seen>
    var held: map<string, int>
    var pruned: int

    ghost predicate Valid()
      reads this
    {
      Agrees(nonces, held)
    }

    function State(): Cache
      reads this
    {
      Cache(nonces, pruned)
    }

    constructor (limits: Limits)
      ensures Valid() && this.limits == limits && State() == Cache(map[], 0)
    {
      this.limits := limits;
      nonces, held, pruned := map[], map[], 0;
    }

    method Bump(name: string, delta: int)
      modifies this`held
      ensures held == Bumped(old(held), name, delta)
    {
      var next := HeldCount(held, name) + delta;
      if next > 0 {
        held := held[name := next];
      } else {
        held := held - {name};
      }
    }

    /** The deletions happen one nonce at a time, each with its two counters. */
    method Prune(now: int)
      requires Valid()
      modifies this
      ensures Valid() && State() == Pruned(old(State()), now)
    {
      hide Agrees, Bumped;
      if now - pruned < PRUNE_MS { return; }
      pruned := now;
      var left := nonces.Keys;
      while left != {}
        invariant Valid() && left <= nonces.Keys && pruned == now
        invariant nonces == map n | n in old(nonces) && (n in left || old(nonces)[n].until >= now) :: old(nonces)[n]
        decreases left
      {
        var nonce :| nonce in left;
        left := left - {nonce};
        if nonces[nonce].until >= now { continue; }
        var seen := nonces[nonce];
        ForgetKeepsAgreement(nonces, held, nonce);
        nonces := nonces - {nonce};
        Bump(KeyName(seen.keyId), -1);
        Bump(OwnerName(seen.owner), -1);
      }
      assert nonces == Kept(old(nonces), now);
    }

    /**
     `remember` reads only the counters and the size; they decide as the nonces themselves would. What
     stands are the nonces before, less those past their time when the last pruning is a minute old.
     */
    method Remember(proof: Proof, owner: string, now: int) returns (verdict: Verdict)
      requires Valid()
      modifies this
      ensures Valid() && (State(), verdict) == Remembered(old(State()), limits, proof, owner, now)
      ensures Judged(old(State()), State(), limits, proof, owner, now, verdict)
    {
      RemembersExactly(State(), limits, proof, owner, now);
      hide CountOf, Judged;
      Prune(now);
      var nonce := NonceName(proof);
      if nonce in nonces { return Replayed; }
      assert HeldCount(held, KeyName(proof.keyId)) == CountOf(nonces, KeyName(proof.keyId));
      assert HeldCount(held, OwnerName(owner)) == CountOf(nonces, OwnerName(owner));
      if HeldCount(held, KeyName(proof.keyId)) >= limits.perKey { return KeyBusy; }
      if HeldCount(held, OwnerName(owner)) >= limits.perOwner { return OwnerBusy; }
      if |nonces| >= limits.total { return Busy; }
      RememberKeepsAgreement(nonces, held, nonce, Seen(proof.keyId, owner, proof.time + CLOCK_SKEW_MS));
      nonces := nonces[nonce := Seen(proof.keyId, owner, proof.time + CLOCK_SKEW_MS)];
      Bump(KeyName(proof.keyId), 1);
      Bump(OwnerName(owner), 1);
      verdict := Accepted;
    }
  }

  // ------------------------------------------------------------------ whole runs

  /** A request with a valid signature: `proofOf` reads the clock at `checked`, `accept` at `now`. */
  datatype Request = Request(proof: Proof, owner: string, checked: int, now: int)

  datatype History = History(cache: Cache, clock: int, accepted: seq<Request>)

  const FRESH := History(Cache(map[], 0), 0, [])

  /** The clock never goes back, and only a proof `proofOf` let through reaches `accept`. */
  predicate Arrives(h: History, r: Request) {
    KeyIdOk(r.proof.keyId) && WithinSkew(r.proof.time, r.checked) && r.checked <= r.now && h.clock <= r.now
  }

  function Serve(h: History, limits: Limits, r: Request): History {
    var (cache, verdict) := Remembered(h.cache, limits, r.proof, r.owner, r.now);
    History(cache, r.now, if verdict == Accepted then h.accepted + [r] else h.accepted)
  }

  function ServeAll(h: History, limits: Limits, requests: seq<Request>): Option<History>
    decreases |requests|
  {
    if requests == [] then Some(h)
    else if Arrives(h, requests[0]) then ServeAll(Serve(h, limits, requests[0]), limits, requests[1..])
    else None
  }

  /** An accepted proof is still remembered, or its window has passed. */
  ghost predicate Guarded(h: History, r: Request) {
    && KeyIdOk(r.proof.keyId)
    && (|| (NonceName(r.proof) in h.cache.nonces
        && h.cache.nonces[NonceName(r.proof)].until == r.proof.time + CLOCK_SKEW_MS)
        || r.proof.time + CLOCK_SKEW_MS < h.clock)
  }

  /** A second acceptance of a proof comes only after its window. */
  ghost predicate NoReplay(first: Request, second: Request) {
    first.proof == second.proof ==> second.now > second.proof.time + CLOCK_SKEW_MS
  }

  ghost predicate WithinLimits(c: Cache, limits: Limits) {
    && |c.nonces| <= limits.total
    && (forall keyId: string :: CountOf(c.nonces, KeyName(keyId)) <= limits.perKey)
    && (forall owner: string :: CountOf(c.nonces, OwnerName(owner)) <= limits.perOwner)
  }

  ghost predicate Inv(h: History, limits: Limits) {
    && WithinLimits(h.cache, limits)
    && (forall i :: 0 <= i < |h.accepted| ==> Guarded(h, h.accepted[i]))
    && (forall i, j :: 0 <= i < j < |h.accepted| ==> NoReplay(h.accepted[i], h.accepted[j]))
  }

  lemma PruneKeepsLimits(c: Cache, limits: Limits, now: int)
    requires WithinLimits(c, limits)
    ensures WithinLimits(Pruned(c, now), limits)
  {
    var p := Pruned(c, now);
    assert |p.nonces| == |p.nonces.Keys| && |c.nonces| == |c.nonces.Keys|;
    Sets.SubsetSize(p.nonces.Keys, c.nonces.Keys);
    forall name: string ensures CountOf(p.nonces, name) <= CountOf(c.nonces, name) {
      Sets.SubsetSize(Counted(p.nonces, name), Counted(c.nonces, name));
    }
  }

  lemma ServeKeepsLimits(h: History, limits: Limits, r: Request)
    requires WithinLimits(h.cache, limits)
    ensures WithinLimits(Serve(h, limits, r).cache, limits)
  {
    PruneKeepsLimits(h.cache, limits, r.now);
    var p, t := Pruned(h.cache, r.now), Serve(h, limits, r).cache;
    if t != p {
      var seen := Seen(r.proof.keyId, r.owner, r.proof.time + CLOCK_SKEW_MS);
      forall keyId: string ensures CountOf(t.nonces, KeyName(keyId)) <= limits.perKey {
        CountWith(p.nonces, NonceName(r.proof), seen, KeyName(keyId));
        CounterNamesDistinct(keyId, r.owner);
      }
      forall owner: string ensures CountOf(t.nonces, OwnerName(owner)) <= limits.perOwner {
        CountWith(p.nonces, NonceName(r.proof), seen, OwnerName(owner));
        CounterNamesDistinct(r.proof.keyId, owner);
      }
    }
  }

  lemma ServeKeepsGuarded(h: History, limits: Limits, r: Request, e: Request)
    requires Arrives(h, r) && Guarded(h, e)
    ensures Guarded(Serve(h, limits, r), e)
    ensures Remembered(h.cache, limits, r.proof, r.owner, r.now).1 == Accepted ==>
        NoReplay(e, r) && Guarded(Serve(h, limits, r), r)
  {
    NonceNameInjective(e.proof, r.proof);
  }

  lemma {:induction false} RunKeepsInv(h: History, limits: Limits, requests: seq<Request>)
    requires Inv(h, limits) && ServeAll(h, limits, requests).Some?
    ensures Inv(ServeAll(h, limits, requests).value, limits)
    decreases |requests|
  {
    if requests != [] {
      var r := requests[0];
      var t := Serve(h, limits, r);
      ServeKeepsLimits(h, limits, r);
      forall i | 0 <= i < |h.accepted|
        ensures Guarded(t, h.accepted[i])
        ensures |t.accepted| > |h.accepted| ==> NoReplay(h.accepted[i], r)
      {
        ServeKeepsGuarded(h, limits, r, h.accepted[i]);
      }
      assert |t.accepted| > |h.accepted| ==> t.accepted == h.accepted + [r] && Guarded(t, r);
      RunKeepsInv(t, limits, requests[1..]);
    }
  }

  lemma FreshInv(limits: Limits)
    ensures Inv(FRESH, limits)
  {
    assert forall name: string :: Counted(map[], name) == {};
  }

  // ------------------------------------------------------------------ the theorems

  /**
   Whatever pruning forgot, a proof is never accepted a second time at an instant inside its
   window; so where `accept` reads the instant `proofOf` checked, it is never accepted twice.
   */
  lemma NoProofTwiceInItsWindow(limits: Limits, requests: seq<Request>, h: History, i: nat, j: nat)
    requires ServeAll(FRESH, limits, requests) == Some(h)
    requires i < j < |h.accepted| && h.accepted[i].proof == h.accepted[j].proof
    ensures h.accepted[j].now > h.accepted[j].proof.time + 300000
    ensures h.accepted[j].checked < h.accepted[j].now
  {
    FreshInv(limits);
    RunKeepsInv(FRESH, limits, requests);
    assert NoReplay(h.accepted[i], h.accepted[j]);
    ServedArrived(FRESH, limits, requests);
  }

  lemma {:induction false} ServedArrived(h: History, limits: Limits, requests: seq<Request>)
    requires ServeAll(h, limits, requests).Some?
    requires forall r :: r in h.accepted ==> WithinSkew(r.proof.time, r.checked) && r.checked <= r.now
    ensures forall r :: r in ServeAll(h, limits, requests).value.accepted ==>
        WithinSkew(r.proof.time, r.checked) && r.checked <= r.now
    decreases |requests|
  {
    if requests != [] {
      ServedArrived(Serve(h, limits, requests[0]), limits, requests[1..]);
    }
  }

  /** A run whose last acceptance is `last`, of a proof it had accepted before. */
  ghost predicate AcceptedAgain(limits: Limits, requests: seq<Request>, last: Request) {
    && ServeAll(FRESH, limits, requests).Some?
    && var accepted := ServeAll(FRESH, limits, requests).value.accepted;
       accepted != [] && accepted[|accepted| - 1] == last
       && exists i :: 0 <= i < |accepted| - 1 && accepted[i].proof == last.proof
  }

  lemma EmptyCounts(proof: Proof, owner: string)
    ensures CountOf(map[], KeyName(proof.keyId)) == 0 && CountOf(map[], OwnerName(owner)) == 0
  {
    assert Counted(map[], KeyName(proof.keyId)) == {} && Counted(map[], OwnerName(owner)) == {};
  }

  lemma FirstIsAccepted(limits: Limits, first: Request)
    requires limits.total > 0 && limits.perKey > 0 && limits.perOwner > 0 && first.now >= 0
    ensures var one := Serve(FRESH, limits, first);
            && one.accepted == [first] && one.clock == first.now
            && one.cache.nonces == map[NonceName(first.proof) :=
                Seen(first.proof.keyId, first.owner, first.proof.time + CLOCK_SKEW_MS)]
            && one.cache.pruned <= first.now
  {
    EmptyCounts(first.proof, first.owner);
    assert Pruned(FRESH.cache, first.now).nonces == map[];
  }

  lemma ForgottenIsAcceptedAgain(limits: Limits, one: History, r: Request)
    requires limits.total > 0 && limits.perKey > 0 && limits.perOwner > 0
    requires r.now - one.cache.pruned >= PRUNE_MS && Kept(one.cache.nonces, r.now) == map[]
    ensures Serve(one, limits, r).accepted == one.accepted + [r]
  {
    EmptyCounts(r.proof, r.owner);
    assert Pruned(one.cache, r.now).nonces == map[];
  }

  /**
   The exact condition when the two clock readings may differ: a checked proof can be
   accepted after its own earlier acceptance if and only if `accept` reads its clock after
   the proof's window.
   */
  lemma AcceptedAgainExactlyPastTheWindow(limits: Limits, r: Request)
    requires limits.total > 0 && limits.perKey > 0 && limits.perOwner > 0
    requires |r.proof.keyId| == 43 && r.proof.time - 300000 <= r.checked <= r.proof.time + 300000 && r.checked <= r.now
    ensures (exists requests :: AcceptedAgain(limits, requests, r)) <==> r.now > r.proof.time + 300000
  {
    hide Serve, ServeAll, CountOf;
    if requests :| AcceptedAgain(limits, requests, r) {
      var h := ServeAll(FRESH, limits, requests).value;
      var i :| 0 <= i < |h.accepted| - 1 && h.accepted[i].proof == r.proof;
      NoProofTwiceInItsWindow(limits, requests, h, i, |h.accepted| - 1);
    }
    if r.now > r.proof.time + CLOCK_SKEW_MS {
      LateAcceptRuns(limits, r);
    }
  }

  lemma LateAcceptRuns(limits: Limits, r: Request)
    requires limits.total > 0 && limits.perKey > 0 && limits.perOwner > 0
    requires KeyIdOk(r.proof.keyId) && WithinSkew(r.proof.time, r.checked) && r.checked <= r.now
    requires r.now > r.proof.time + CLOCK_SKEW_MS
    ensures exists requests :: AcceptedAgain(limits, requests, r)
  {
    var first := Request(r.proof, r.owner, r.proof.time, r.proof.time);
    var one := Serve(FRESH, limits, first);
    FirstIsAccepted(limits, first);
    ForgottenIsAcceptedAgain(limits, one, r);
    var two := Serve(one, limits, r);
    hide Serve, Remembered, Pruned, KeyIdOk, CountOf;
    assert [r][1..] == [];
    assert ServeAll(one, limits, [r]) == Some(two);
    assert [first, r][1..] == [r];
    assert ServeAll(FRESH, limits, [first, r]) == Some(two);
    assert two.accepted == [first, r];
    assert two.accepted[0].proof == r.proof;
    assert AcceptedAgain(limits, [first, r], r);
  }

  /** Whatever came before, a checked proof that arrives no earlier than the last one is served. */
  lemma {:induction false} ServiceGoesOn(h: History, limits: Limits, requests: seq<Request>, r: Request)
    requires ServeAll(h, limits, requests).Some?
    requires |r.proof.keyId| == 43 && r.proof.time - 300000 <= r.checked <= r.proof.time + 300000 && r.checked <= r.now
    requires ServeAll(h, limits, requests).value.clock <= r.now
    ensures var t := ServeAll(h, limits, requests).value;
            ServeAll(h, limits, []) == Some(h) && ServeAll(h, limits, requests + [r]) == Some(Serve(t, limits, r))
    decreases |requests|
  {
    hide Serve;
    if requests == [] {
      assert ([] + [r])[1..] == [];
    } else {
      assert (requests + [r])[1..] == requests[1..] + [r];
      ServiceGoesOn(Serve(h, limits, requests[0]), limits, requests[1..], r);
    }
  }

  /** In every reachable state the total, per-key and per-owner limits hold. */
  lemma LimitsAlwaysHold(limits: Limits, requests: seq<Request>, h: History, keyId: string, owner: string)
    requires ServeAll(FRESH, limits, requests) == Some(h)
    ensures |h.cache.nonces| <= limits.total
    ensures CountOf(h.cache.nonces, KeyName(keyId)) <= limits.perKey
    ensures CountOf(h.cache.nonces, OwnerName(owner)) <= limits.perOwner
  {
    FreshInv(limits);
    RunKeepsInv(FRESH, limits, requests);
  }
}
