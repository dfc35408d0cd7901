/**
 Who may change one EC2 instance: the claim sets and job maps of apps/api/src/size.ts,
 storage.ts and deletion.ts. Handlers are asynchronous and interleave at every `await`;
 between two awaits a handler runs alone. A claim is replaced by a running job in one such
 stretch, and a job runs on until it reports `done` or `failed`.
 */
module InstanceClaims {
  import opened Options

  datatype Instance = Instance(region: string, id: string)

  datatype Kind = Resize | Grow

  datatype Job = Job(kind: Kind, key: Instance)

  /** A server with no instance is deleted under its agent id. */
  datatype Doomed = Server(key: Instance) | Entry(agent: string)

  /** A handler suspended at an `await` after it claimed. */
  datatype Frame =
    | ResizeReading(key: Instance)
    | GrowReading(key: Instance)
    | GrowViewing(key: Instance, job: nat)
    | Deleting(doomed: Doomed)

  /**
   The module-level state. `frames` are the suspended handlers and `running` the jobs that
   have not finished; `sizeJobs` and `growJobs` keep the last job of each instance.
   */
  datatype State = State(
    sizeClaims: set<Instance>, sizeJobs: map<Instance, nat>,
    growClaims: set<Instance>, growJobs: map<Instance, nat>,
    deletions: set<Doomed>,
    frames: map<nat, Frame>, running: map<nat, Job>, minted: nat)

  const IDLE := State({}, map[], {}, map[], {}, map[], map[], 0)

  predicate JobRunning(s: State, jobs: map<Instance, nat>, key: Instance) {
    key in jobs && jobs[key] in s.running
  }

  predicate Resizing(s: State, key: Instance) {
    key in s.sizeClaims || JobRunning(s, s.sizeJobs, key)
  }

  predicate Growing(s: State, key: Instance) {
    key in s.growClaims || JobRunning(s, s.growJobs, key)
  }

  /** What `deletionCore` and `resize`/`grow` together look at. */
  predicate Changing(s: State, key: Instance) {
    Resizing(s, key) || Growing(s, key)
  }

  datatype Step =
    | StartResize(handler: nat, key: Instance)
    | LaunchResize(handler: nat)
    | RefuseResize(handler: nat)
    | StartGrow(handler: nat, key: Instance)
    | FollowGrow(handler: nat)
    | RefuseGrow(handler: nat)
    | ShowGrow(handler: nat)
    | FinishJob(job: nat)
    | StartDeletion(handler: nat, doomed: Doomed)
    | EndDeletion(handler: nat)

  predicate Enabled(s: State, step: Step) {
    match step
    case StartResize(h, _) => h !in s.frames
    case LaunchResize(h) => h in s.frames && s.frames[h].ResizeReading?
    case RefuseResize(h) => h in s.frames && s.frames[h].ResizeReading?
    case StartGrow(h, _) => h !in s.frames
    case FollowGrow(h) => h in s.frames && s.frames[h].GrowReading?
    case RefuseGrow(h) => h in s.frames && s.frames[h].GrowReading?
    case ShowGrow(h) => h in s.frames && s.frames[h].GrowViewing?
    case FinishJob(job) => job in s.running
    case StartDeletion(h, _) => h !in s.frames
    case EndDeletion(h) => h in s.frames && s.frames[h].Deleting?
  }

  /** One stretch of synchronous code. A start that is refused changes nothing. */
  function Do(s: State, step: Step): State
    requires Enabled(s, step)
  {
    match step
    case StartResize(h, key) =>
      if Changing(s, key) then s
      else s.(sizeClaims := s.sizeClaims + {key}, frames := s.frames[h := ResizeReading(key)])
    case LaunchResize(h) =>
      var key := s.frames[h].key;
      s.(sizeClaims := s.sizeClaims - {key}, sizeJobs := s.sizeJobs[key := s.minted],
         frames := s.frames - {h}, running := s.running[s.minted := Job(Resize, key)], minted := s.minted + 1)
    case RefuseResize(h) =>
      s.(sizeClaims := s.sizeClaims - {s.frames[h].key}, frames := s.frames - {h})
    case StartGrow(h, key) =>
      if Changing(s, key) then s
      else s.(growClaims := s.growClaims + {key}, frames := s.frames[h := GrowReading(key)])
    case FollowGrow(h) =>
      var key := s.frames[h].key;
      s.(growJobs := s.growJobs[key := s.minted], frames := s.frames[h := GrowViewing(key, s.minted)],
         running := s.running[s.minted := Job(Grow, key)], minted := s.minted + 1)
    case RefuseGrow(h) =>
      s.(growClaims := s.growClaims - {s.frames[h].key}, frames := s.frames - {h})
    case ShowGrow(h) =>
      s.(growClaims := s.growClaims - {s.frames[h].key}, frames := s.frames - {h})
    case FinishJob(job) => s.(running := s.running - {job})
    case StartDeletion(h, doomed) =>
      if (doomed.Server? && Changing(s, doomed.key)) || doomed in s.deletions then s
      else s.(deletions := s.deletions + {doomed}, frames := s.frames[h := Deleting(doomed)])
    case EndDeletion(h) =>
      s.(deletions := s.deletions - {s.frames[h].doomed}, frames := s.frames - {h})
  }

  function Exec(s: State, steps: seq<Step>): Option<State>
    decreases |steps|
  {
    if steps == [] then Some(s)
    else if Enabled(s, steps[0]) then Exec(Do(s, steps[0]), steps[1..])
    else None
  }

  /** Handlers start at any time, and each goes on from where it is suspended; a job may end while it runs. */
  lemma {:induction false} RunsGoOn(s: State, steps: seq<Step>, step: Step)
    requires Exec(s, steps).Some?
    requires var t := Exec(s, steps).value;
      match step
      case StartResize(h, _) => h !in t.frames
      case LaunchResize(h) => h in t.frames && t.frames[h].ResizeReading?
      case RefuseResize(h) => h in t.frames && t.frames[h].ResizeReading?
      case StartGrow(h, _) => h !in t.frames
      case FollowGrow(h) => h in t.frames && t.frames[h].GrowReading?
      case RefuseGrow(h) => h in t.frames && t.frames[h].GrowReading?
      case ShowGrow(h) => h in t.frames && t.frames[h].GrowViewing?
      case FinishJob(job) => job in t.running
      case StartDeletion(h, _) => h !in t.frames
      case EndDeletion(h) => h in t.frames && t.frames[h].Deleting?
    ensures Exec(s, []) == Some(s)
    ensures Exec(s, steps + [step]) == Some(Do(Exec(s, steps).value, step))
    decreases |steps|
  {
    hide Do;
    if steps == [] {
      assert ([] + [step])[1..] == [];
    } else {
      assert (steps + [step])[1..] == steps[1..] + [step];
      RunsGoOn(Do(s, steps[0]), steps[1..], step);
    }
  }

  // -------------------------------------------------- the module-level variables

  class Api {
    var sizeClaims: set<Instance>
    var sizeJobs: map<Instance, nat>
    var growClaims: set<Instance>
    var growJobs: map<Instance, nat>
    var deletions: set<Doomed>
    var frames: map<nat, Frame>
    var running: map<nat, Job>
    var minted: nat

    function Now(): State
      reads this
    {
      State(sizeClaims, sizeJobs, growClaims, growJobs, deletions, frames, running, minted)
    }

    constructor ()
      ensures Now() == IDLE
    {
      sizeClaims, sizeJobs, growClaims, growJobs := {}, map[], {}, map[];
      deletions, frames, running, minted := {}, map[], map[], 0;
    }

    /** `resize` up to its first await after the checks. */
    method TryResize(h: nat, key: Instance) returns (claimed: bool)
      requires h !in frames
      modifies this`sizeClaims, this`frames
      ensures Now() == Do(old(Now()), StartResize(h, key)) && claimed == !Changing(old(Now()), key)
      ensures claimed <==>
                  && key !in old(sizeClaims) && (key in old(sizeJobs) ==> old(sizeJobs)[key] !in old(running))
                  && key !in old(growClaims) && (key in old(growJobs) ==> old(growJobs)[key] !in old(running))
      ensures sizeClaims == (if claimed then old(sizeClaims) + {key} else old(sizeClaims))
      ensures frames == (if claimed then old(frames)[h := ResizeReading(key)] else old(frames))
    {
      if Resizing(Now(), key) { return false; }
      if Growing(Now(), key) { return false; }
      sizeClaims := sizeClaims + {key};
      frames := frames[h := ResizeReading(key)];
      claimed := true;
    }

    /** The rest of `resize`: launch the job when AWS and the request allow it, then drop the claim. */
    method SettleResize(h: nat, allowed: bool)
      requires h in frames && frames[h].ResizeReading?
      modifies this
      ensures Now() == Do(old(Now()), if allowed then LaunchResize(h) else RefuseResize(h))
      ensures unchanged(this`growClaims, this`growJobs, this`deletions)
      ensures sizeClaims == old(sizeClaims) - {old(frames[h].key)} && frames == old(frames) - {h}
      ensures if !allowed then unchanged(this`sizeJobs, this`running, this`minted)
          else
            && sizeJobs == old(sizeJobs)[old(frames[h].key) := old(minted)] && minted == old(minted) + 1
            && running == old(running)[old(minted) := Job(Resize, old(frames[h].key))]
    {
      var key := frames[h].key;
      if allowed {
        sizeJobs, running, minted := sizeJobs[key := minted], running[minted := Job(Resize, key)], minted + 1;
      }
      sizeClaims := sizeClaims - {key};
      frames := frames - {h};
    }

    method TryGrow(h: nat, key: Instance) returns (claimed: bool)
      requires h !in frames
      modifies this`growClaims, this`frames
      ensures Now() == Do(old(Now()), StartGrow(h, key)) && claimed == !Changing(old(Now()), key)
      ensures claimed <==>
                  && key !in old(sizeClaims) && (key in old(sizeJobs) ==> old(sizeJobs)[key] !in old(running))
                  && key !in old(growClaims) && (key in old(growJobs) ==> old(growJobs)[key] !in old(running))
      ensures growClaims == (if claimed then old(growClaims) + {key} else old(growClaims))
      ensures frames == (if claimed then old(frames)[h := GrowReading(key)] else old(frames))
    {
      if Growing(Now(), key) { return false; }
      if Resizing(Now(), key) { return false; }
      growClaims := growClaims + {key};
      frames := frames[h := GrowReading(key)];
      claimed := true;
    }

    /** `follow` stores the job while the claim is still held. */
    method Follow(h: nat)
      requires h in frames && frames[h].GrowReading?
      modifies this
      ensures Now() == Do(old(Now()), FollowGrow(h))
      ensures unchanged(this`sizeClaims, this`sizeJobs, this`growClaims, this`deletions)
      ensures growJobs == old(growJobs)[old(frames[h].key) := old(minted)] && minted == old(minted) + 1
      ensures running == old(running)[old(minted) := Job(Grow, old(frames[h].key))]
      ensures frames == old(frames)[h := GrowViewing(old(frames[h].key), old(minted))]
    {
      var key := frames[h].key;
      growJobs, running := growJobs[key := minted], running[minted := Job(Grow, key)];
      frames, minted := frames[h := GrowViewing(key, minted)], minted + 1;
    }

    /** The `finally` of `grow`, reached from either await. */
    method LeaveGrow(h: nat)
      requires h in frames && (frames[h].GrowReading? || frames[h].GrowViewing?)
      modifies this`growClaims, this`frames
      ensures Now() == Do(old(Now()), if old(frames)[h].GrowReading? then RefuseGrow(h) else ShowGrow(h))
      ensures growClaims == old(growClaims) - {old(frames[h].key)} && frames == old(frames) - {h}
    {
      growClaims := growClaims - {frames[h].key};
      frames := frames - {h};
    }

    /** `confirmDeletion` and the head of `deleteAll`. */
    method TryDelete(h: nat, doomed: Doomed) returns (claimed: bool)
      requires h !in frames
      modifies this`deletions, this`frames
      ensures Now() == Do(old(Now()), StartDeletion(h, doomed))
      ensures claimed <==>
                && doomed !in old(deletions)
                && (doomed.Server? ==> var key := doomed.key;
                  && key !in old(sizeClaims) && (key in old(sizeJobs) ==> old(sizeJobs)[key] !in old(running))
                  && key !in old(growClaims) && (key in old(growJobs) ==> old(growJobs)[key] !in old(running)))
      ensures deletions == (if claimed then old(deletions) + {doomed} else old(deletions))
      ensures frames == (if claimed then old(frames)[h := Deleting(doomed)] else old(frames))
    {
      if doomed.Server? && Changing(Now(), doomed.key) { return false; }
      if doomed in deletions { return false; }
      deletions := deletions + {doomed};
      frames := frames[h := Deleting(doomed)];
      claimed := true;
    }

    method LeaveDelete(h: nat)
      requires h in frames && frames[h].Deleting?
      modifies this`deletions, this`frames
      ensures Now() == Do(old(Now()), EndDeletion(h))
      ensures deletions == old(deletions) - {old(frames[h].doomed)} && frames == old(frames) - {h}
    {
      deletions := deletions - {frames[h].doomed};
      frames := frames - {h};
    }
  }

  // ------------------------------------------------------------------ who holds

  /** A suspended handler or an unfinished job. */
  datatype Holder = Handler(frame: nat) | Work(job: nat)

  predicate HoldsResize(s: State, a: Holder, key: Instance) {
    match a
    case Handler(h) => h in s.frames && s.frames[h] == ResizeReading(key)
    case Work(j) => j in s.running && s.running[j] == Job(Resize, key)
  }

  predicate HoldsGrow(s: State, a: Holder, key: Instance) {
    match a
    case Handler(h) => h in s.frames && (s.frames[h].GrowReading? || s.frames[h].GrowViewing?) && s.frames[h].key == key
    case Work(j) => j in s.running && s.running[j] == Job(Grow, key)
  }

  /** A grow's handler stays while its own job runs: both are one grow. */
  predicate OneGrow(s: State, a: Holder, b: Holder) {
    a.Handler? && b.Work? && a.frame in s.frames && s.frames[a.frame].GrowViewing? && s.frames[a.frame].job == b.job
  }

  predicate GrowFrame(f: Frame) { f.GrowReading? || f.GrowViewing? }

  /** Each claim set lists exactly what its suspended handlers claimed. */
  ghost predicate SizeClaims(s: State) {
    && (forall h :: h in s.frames && s.frames[h].ResizeReading? ==> s.frames[h].key in s.sizeClaims)
    && (forall key :: key in s.sizeClaims ==> exists h :: HoldsResize(s, Handler(h), key))
  }

  ghost predicate GrowClaims(s: State) {
    && (forall h :: h in s.frames && GrowFrame(s.frames[h]) ==> s.frames[h].key in s.growClaims)
    && (forall key :: key in s.growClaims ==> exists h :: HoldsGrow(s, Handler(h), key))
  }

  ghost predicate DeletionClaims(s: State) {
    && (forall h :: h in s.frames && s.frames[h].Deleting? ==> s.frames[h].doomed in s.deletions)
    && (forall d :: d in s.deletions ==> exists h :: h in s.frames && s.frames[h] == Deleting(d))
    && (forall a, b :: a in s.frames && b in s.frames && s.frames[a].Deleting? && s.frames[a] == s.frames[b] ==> a == b)
  }

  ghost predicate Minted(s: State) {
    && (forall j :: j in s.running ==> j < s.minted)
    && (forall h :: h in s.frames && s.frames[h].GrowViewing? ==> s.frames[h].job < s.minted)
    && (forall key :: key in s.sizeJobs ==> s.sizeJobs[key] < s.minted)
    && (forall key :: key in s.growJobs ==> s.growJobs[key] < s.minted)
  }

  /** Every running job is the one its map holds for its instance. */
  ghost predicate SizeJobs(s: State) {
    && (forall key :: key in s.sizeJobs && s.sizeJobs[key] in s.running ==>
        s.running[s.sizeJobs[key]] == Job(Resize, key))
    && (forall j :: j in s.running && s.running[j].kind == Resize ==>
        s.running[j].key in s.sizeJobs && s.sizeJobs[s.running[j].key] == j)
  }

  ghost predicate GrowJobs(s: State) {
    && (forall key :: key in s.growJobs && s.growJobs[key] in s.running ==>
        s.running[s.growJobs[key]] == Job(Grow, key))
    && (forall j :: j in s.running && s.running[j].kind == Grow ==>
        s.running[j].key in s.growJobs && s.growJobs[s.running[j].key] == j)
  }

  ghost predicate OneResizeEach(s: State) {
    forall a, b, key :: HoldsResize(s, a, key) && HoldsResize(s, b, key) ==> a == b
  }

  ghost predicate OneGrowEach(s: State) {
    forall a, b, key :: HoldsGrow(s, a, key) && HoldsGrow(s, b, key) ==> a == b || OneGrow(s, a, b) || OneGrow(s, b, a)
  }

  ghost predicate NeverBoth(s: State) {
    forall a, b, key :: HoldsResize(s, a, key) ==> !HoldsGrow(s, b, key)
  }

  ghost predicate Inv(s: State) {
    && SizeClaims(s) && GrowClaims(s) && DeletionClaims(s)
    && Minted(s) && SizeJobs(s) && GrowJobs(s)
    && OneResizeEach(s) && OneGrowEach(s) && NeverBoth(s)
  }

  /** The module-level checks say exactly whether some handler or job holds the instance. */
  lemma ChecksSeeEveryHolder(s: State, key: Instance)
    requires Inv(s)
    ensures Resizing(s, key) <==> exists a :: HoldsResize(s, a, key)
    ensures Growing(s, key) <==> exists a :: HoldsGrow(s, a, key)
  {
    if key in s.sizeClaims {
      var h :| HoldsResize(s, Handler(h), key);
    } else if JobRunning(s, s.sizeJobs, key) {
      assert HoldsResize(s, Work(s.sizeJobs[key]), key);
    }
    if key in s.growClaims {
      var h :| HoldsGrow(s, Handler(h), key);
    } else if JobRunning(s, s.growJobs, key) {
      assert HoldsGrow(s, Work(s.growJobs[key]), key);
    }
  }

  lemma StepKeepsSizeClaims(s: State, step: Step)
    requires Inv(s) && Enabled(s, step)
    ensures SizeClaims(Do(s, step))
  {
    hide GrowClaims, DeletionClaims, Minted, SizeJobs, GrowJobs, OneGrowEach, NeverBoth;
    var t := Do(s, step);
    forall key | key in t.sizeClaims ensures exists h :: HoldsResize(t, Handler(h), key) {
      if key in s.sizeClaims {
        var h :| HoldsResize(s, Handler(h), key);
        assert HoldsResize(t, Handler(h), key);
      } else {
        assert HoldsResize(t, Handler(step.handler), key);
      }
    }
    forall h | h in t.frames && t.frames[h].ResizeReading? ensures t.frames[h].key in t.sizeClaims {
      assert step.LaunchResize? || step.RefuseResize? ==>
          HoldsResize(s, Handler(step.handler), s.frames[step.handler].key);
      assert h in s.frames ==> HoldsResize(s, Handler(h), t.frames[h].key);
    }
  }

  lemma GrowClaimHasFrame(s: State, step: Step, key: Instance)
    requires Inv(s) && Enabled(s, step) && key in Do(s, step).growClaims
    ensures exists h :: HoldsGrow(Do(s, step), Handler(h), key)
  {
    hide SizeClaims, DeletionClaims, Minted, SizeJobs, GrowJobs, OneResizeEach, OneGrowEach, NeverBoth;
    var t := Do(s, step);
    if key in s.growClaims {
      var h :| HoldsGrow(s, Handler(h), key);
      assert HoldsGrow(t, Handler(h), key);
    } else {
      assert HoldsGrow(t, Handler(step.handler), key);
    }
  }

  lemma GrowFrameHasClaim(s: State, step: Step, h: nat)
    requires Inv(s) && Enabled(s, step) && h in Do(s, step).frames && GrowFrame(Do(s, step).frames[h])
    ensures Do(s, step).frames[h].key in Do(s, step).growClaims
  {
    hide SizeClaims, DeletionClaims, Minted, SizeJobs, GrowJobs, OneResizeEach, NeverBoth;
    assert step.RefuseGrow? || step.ShowGrow? ==> HoldsGrow(s, Handler(step.handler), s.frames[step.handler].key);
    assert h in s.frames && GrowFrame(s.frames[h]) ==> HoldsGrow(s, Handler(h), s.frames[h].key);
  }

  lemma StepKeepsGrowClaims(s: State, step: Step)
    requires Inv(s) && Enabled(s, step)
    ensures GrowClaims(Do(s, step))
  {
    hide Inv, Do;
    forall key | key in Do(s, step).growClaims ensures exists h :: HoldsGrow(Do(s, step), Handler(h), key) {
      GrowClaimHasFrame(s, step, key);
    }
    forall h | h in Do(s, step).frames && GrowFrame(Do(s, step).frames[h])
        ensures Do(s, step).frames[h].key in Do(s, step).growClaims {
      GrowFrameHasClaim(s, step, h);
    }
  }

  lemma StartKeepsDeletions(s: State, h: nat, doomed: Doomed)
    requires DeletionClaims(s) && Enabled(s, StartDeletion(h, doomed))
    ensures DeletionClaims(Do(s, StartDeletion(h, doomed)))
  {
    hide Changing;
    var t := Do(s, StartDeletion(h, doomed));
    forall d | d in t.deletions ensures exists k :: k in t.frames && t.frames[k] == Deleting(d) {
      if d in s.deletions {
        var k :| k in s.frames && s.frames[k] == Deleting(d);
        assert k in t.frames && t.frames[k] == Deleting(d);
      } else {
        assert t.frames[h] == Deleting(d);
      }
    }
  }

  lemma EndKeepsDeletions(s: State, h: nat)
    requires DeletionClaims(s) && Enabled(s, EndDeletion(h))
    ensures DeletionClaims(Do(s, EndDeletion(h)))
  {
    var t := Do(s, EndDeletion(h));
    forall d | d in t.deletions ensures exists k :: k in t.frames && t.frames[k] == Deleting(d) {
      var k :| k in s.frames && s.frames[k] == Deleting(d);
      assert k in t.frames && t.frames[k] == Deleting(d);
    }
  }

  /** No other step touches a deletion. */
  lemma DeletionFrames(s: State, step: Step, h: nat)
    requires Enabled(s, step) && !step.StartDeletion? && !step.EndDeletion?
    ensures var t := Do(s, step);
            && t.deletions == s.deletions
            && (h in t.frames && t.frames[h].Deleting? <==> h in s.frames && s.frames[h].Deleting?)
            && (h in t.frames && t.frames[h].Deleting? ==> t.frames[h] == s.frames[h])
  {
    hide Changing;
  }

  lemma StepKeepsDeletions(s: State, step: Step)
    requires Inv(s) && Enabled(s, step)
    ensures DeletionClaims(Do(s, step))
  {
    assert DeletionClaims(s);
    if step.StartDeletion? {
      StartKeepsDeletions(s, step.handler, step.doomed);
    } else if step.EndDeletion? {
      EndKeepsDeletions(s, step.handler);
    } else {
      forall h: nat
        ensures h in Do(s, step).frames && Do(s, step).frames[h].Deleting? <==> h in s.frames && s.frames[h].Deleting?
        ensures Do(s, step).deletions == s.deletions
        ensures h in Do(s, step).frames && Do(s, step).frames[h].Deleting? ==> Do(s, step).frames[h] == s.frames[h]
      {
        DeletionFrames(s, step, h);
      }
      hide Inv, Do, Enabled;
      var t := Do(s, step);
      forall d | d in t.deletions ensures exists h :: h in t.frames && t.frames[h] == Deleting(d) {
        var h :| h in s.frames && s.frames[h] == Deleting(d);
        assert h in t.frames && t.frames[h] == Deleting(d);
      }
    }
  }

  lemma StepKeepsMinted(s: State, step: Step)
    requires Inv(s) && Enabled(s, step)
    ensures Minted(Do(s, step))
  {
    hide SizeClaims, GrowClaims, DeletionClaims, SizeJobs, GrowJobs, OneResizeEach, OneGrowEach, NeverBoth;
  }

  /** A launch finds no job of its instance running, so the map entry it replaces is finished. */
  lemma StepKeepsSizeJobs(s: State, step: Step)
    requires Inv(s) && Enabled(s, step)
    ensures SizeJobs(Do(s, step))
  {
    hide SizeClaims, GrowClaims, DeletionClaims, GrowJobs, OneGrowEach, NeverBoth;
    if step.LaunchResize? {
      var key := s.frames[step.handler].key;
      assert HoldsResize(s, Handler(step.handler), key);
      forall j | j in s.running && s.running[j].kind == Resize ensures s.running[j].key != key {
        assert HoldsResize(s, Work(j), s.running[j].key);
      }
    }
  }

  lemma StepKeepsGrowJobs(s: State, step: Step)
    requires Inv(s) && Enabled(s, step)
    ensures GrowJobs(Do(s, step))
  {
    hide SizeClaims, GrowClaims, DeletionClaims, SizeJobs, OneResizeEach, NeverBoth;
    if step.FollowGrow? {
      var key := s.frames[step.handler].key;
      assert HoldsGrow(s, Handler(step.handler), key);
      forall j | j in s.running && s.running[j].kind == Grow ensures s.running[j].key != key {
        assert HoldsGrow(s, Work(j), s.running[j].key);
      }
    }
  }

  /**
   Where a resize holder comes from: it held before, a start that saw nobody just claimed, or
   a launch in the same stretch turned the claim of `step.handler` into a job.
   */
  lemma ResizeHolderOrigin(s: State, step: Step, a: Holder, key: Instance)
    requires Inv(s) && Enabled(s, step) && HoldsResize(Do(s, step), a, key)
    ensures || HoldsResize(s, a, key)
            || (step == StartResize(step.handler, key) && a == Handler(step.handler) && !Changing(s, key))
            || (step.LaunchResize? && a == Work(s.minted) && HoldsResize(s, Handler(step.handler), key))
    ensures step.LaunchResize? ==> a != Handler(step.handler)
  {
    hide SizeClaims, GrowClaims, DeletionClaims, SizeJobs, GrowJobs, OneResizeEach, OneGrowEach, NeverBoth;
  }

  lemma GrowHolderOrigin(s: State, step: Step, a: Holder, key: Instance)
    requires Inv(s) && Enabled(s, step) && HoldsGrow(Do(s, step), a, key)
    ensures || HoldsGrow(s, a, key)
            || (step == StartGrow(step.handler, key) && a == Handler(step.handler) && !Changing(s, key))
            || (step.FollowGrow? && a == Work(s.minted) && HoldsGrow(s, Handler(step.handler), key))
  {
    hide SizeClaims, GrowClaims, DeletionClaims, SizeJobs, GrowJobs, OneResizeEach, OneGrowEach, NeverBoth;
  }

  lemma StepKeepsOneResize(s: State, step: Step)
    requires Inv(s) && Enabled(s, step)
    ensures OneResizeEach(Do(s, step))
  {
    var t := Do(s, step);
    forall a, b, key | HoldsResize(t, a, key) && HoldsResize(t, b, key) ensures a == b {
      ResizeHolderOrigin(s, step, a, key);
      ResizeHolderOrigin(s, step, b, key);
      ChecksSeeEveryHolder(s, key);
      assert HoldsResize(s, a, key) && HoldsResize(s, b, key) ==> a == b;
      hide Do, Inv, Enabled;
    }
  }

  lemma StepKeepsNeverBoth(s: State, step: Step)
    requires Inv(s) && Enabled(s, step)
    ensures NeverBoth(Do(s, step))
  {
    var t := Do(s, step);
    forall a, b, key | HoldsResize(t, a, key) ensures !HoldsGrow(t, b, key) {
      if HoldsGrow(t, b, key) {
        ResizeHolderOrigin(s, step, a, key);
        GrowHolderOrigin(s, step, b, key);
        ChecksSeeEveryHolder(s, key);
      }
    }
  }

  lemma OneGrowStays(s: State, step: Step, a: Holder, b: Holder, key: Instance)
    requires Inv(s) && Enabled(s, step) && OneGrow(s, a, b) && HoldsGrow(Do(s, step), a, key)
    ensures OneGrow(Do(s, step), a, b)
  {
    hide SizeClaims, GrowClaims, DeletionClaims, SizeJobs, GrowJobs, OneResizeEach, OneGrowEach, NeverBoth;
  }

  lemma GrowPairStays(s: State, step: Step, a: Holder, b: Holder, key: Instance)
    requires Inv(s) && Enabled(s, step) && HoldsGrow(Do(s, step), a, key) && HoldsGrow(Do(s, step), b, key)
    ensures a == b || OneGrow(Do(s, step), a, b) || OneGrow(Do(s, step), b, a)
  {
    hide SizeClaims, GrowClaims, DeletionClaims, Minted, SizeJobs, GrowJobs, OneResizeEach, NeverBoth;
    GrowHolderOrigin(s, step, a, key);
    GrowHolderOrigin(s, step, b, key);
    ChecksSeeEveryHolder(s, key);
    if HoldsGrow(s, a, key) && HoldsGrow(s, b, key) {
      if OneGrow(s, a, b) {
        OneGrowStays(s, step, a, b, key);
      } else if OneGrow(s, b, a) {
        OneGrowStays(s, step, b, a, key);
      }
    } else if HoldsGrow(s, a, key) {
      FollowMakesOneGrow(s, step, a, b, key);
    } else if HoldsGrow(s, b, key) {
      FollowMakesOneGrow(s, step, b, a, key);
    }
  }

  /** The one handler whose claim a followed job joins is that job's grow. */
  lemma FollowMakesOneGrow(s: State, step: Step, a: Holder, b: Holder, key: Instance)
    requires Inv(s) && Enabled(s, step) && step.FollowGrow? && HoldsGrow(s, Handler(step.handler), key)
    requires HoldsGrow(s, a, key) && b == Work(s.minted)
    ensures a == Handler(step.handler) && OneGrow(Do(s, step), a, b)
  {
    hide SizeClaims, GrowClaims, DeletionClaims, SizeJobs, GrowJobs, OneResizeEach, NeverBoth;
    assert a == Handler(step.handler) || OneGrow(s, Handler(step.handler), a) || OneGrow(s, a, Handler(step.handler));
  }

  lemma StepKeepsOneGrow(s: State, step: Step)
    requires Inv(s) && Enabled(s, step)
    ensures OneGrowEach(Do(s, step))
  {
    hide Inv, Do;
    forall a, b, key | HoldsGrow(Do(s, step), a, key) && HoldsGrow(Do(s, step), b, key)
      ensures a == b || OneGrow(Do(s, step), a, b) || OneGrow(Do(s, step), b, a)
    {
      GrowPairStays(s, step, a, b, key);
    }
  }

  lemma StepKeepsInv(s: State, step: Step)
    requires Inv(s) && Enabled(s, step)
    ensures Inv(Do(s, step))
  {
    StepKeepsSizeClaims(s, step);
    StepKeepsGrowClaims(s, step);
    StepKeepsDeletions(s, step);
    StepKeepsMinted(s, step);
    StepKeepsSizeJobs(s, step);
    StepKeepsGrowJobs(s, step);
    StepKeepsOneResize(s, step);
    StepKeepsNeverBoth(s, step);
    StepKeepsOneGrow(s, step);
    hide Do, SizeClaims, GrowClaims, DeletionClaims, Minted, SizeJobs, GrowJobs, OneResizeEach, OneGrowEach, NeverBoth;
  }

  lemma {:induction false} RunKeepsInv(s: State, steps: seq<Step>)
    requires Inv(s) && Exec(s, steps).Some?
    ensures Inv(Exec(s, steps).value)
    decreases |steps|
  {
    hide Inv, Do;
    if steps != [] {
      StepKeepsInv(s, steps[0]);
      RunKeepsInv(Do(s, steps[0]), steps[1..]);
    }
  }

  lemma IdleInv()
    ensures Inv(IDLE)
  {}

  // ------------------------------------------------------------------ the theorems

  /**
   In every interleaving: two resizes never hold one instance, nor two grows, nor a resize
   and a grow, whether a suspended handler or a running job holds it; and no two deletions
   of one server overlap.
   */
  lemma HoldersExclude(steps: seq<Step>, s: State, a: Holder, b: Holder, key: Instance)
    requires Exec(IDLE, steps) == Some(s) && a != b
    ensures !(HoldsResize(s, a, key) && HoldsResize(s, b, key))
    ensures HoldsGrow(s, a, key) && HoldsGrow(s, b, key) ==> OneGrow(s, a, b) || OneGrow(s, b, a)
    ensures !(HoldsResize(s, a, key) && HoldsGrow(s, b, key))
  {
    IdleInv();
    RunKeepsInv(IDLE, steps);
  }

  lemma DeletionsNeverOverlap(steps: seq<Step>, s: State, a: nat, b: nat)
    requires Exec(IDLE, steps) == Some(s)
    requires a in s.frames && b in s.frames && a != b && s.frames[a].Deleting?
    ensures s.frames[a] != s.frames[b]
  {
    IdleInv();
    RunKeepsInv(IDLE, steps);
  }

  /** The checks are exact, so no start of any kind is let in while a handler or a job holds the instance. */
  lemma HeldInstanceAdmitsNoStart(steps: seq<Step>, s: State, key: Instance, h: nat)
    requires Exec(IDLE, steps) == Some(s) && h !in s.frames
    ensures Changing(s, key) <==> exists a :: HoldsResize(s, a, key) || HoldsGrow(s, a, key)
    ensures Changing(s, key) ==>
              Do(s, StartResize(h, key)) == Do(s, StartGrow(h, key)) == Do(s, StartDeletion(h, Server(key))) == s
    ensures !Changing(s, key) ==>
              && HoldsResize(Do(s, StartResize(h, key)), Handler(h), key)
              && HoldsGrow(Do(s, StartGrow(h, key)), Handler(h), key)
              && (Server(key) !in s.deletions ==>
                    h in Do(s, StartDeletion(h, Server(key))).frames
                        && Do(s, StartDeletion(h, Server(key))).frames[h] == Deleting(Server(key)))
  {
    StartsFollowTheChecks(s, key, h);
    IdleInv();
    RunKeepsInv(IDLE, steps);
    hide Inv, Exec, Do, Changing, HoldsResize, HoldsGrow;
    ChecksSeeEveryHolder(s, key);
    ChangingIsEither(s, key);
  }

  lemma ChangingIsEither(s: State, key: Instance)
    ensures Changing(s, key) <==> Resizing(s, key) || Growing(s, key)
  {}

  lemma StartsFollowTheChecks(s: State, key: Instance, h: nat)
    requires h !in s.frames
    ensures Changing(s, key) ==>
              Do(s, StartResize(h, key)) == Do(s, StartGrow(h, key)) == Do(s, StartDeletion(h, Server(key))) == s
    ensures !Changing(s, key) ==>
              && HoldsResize(Do(s, StartResize(h, key)), Handler(h), key)
              && HoldsGrow(Do(s, StartGrow(h, key)), Handler(h), key)
              && (Server(key) !in s.deletions ==>
                    h in Do(s, StartDeletion(h, Server(key))).frames
                        && Do(s, StartDeletion(h, Server(key))).frames[h] == Deleting(Server(key)))
  {
    hide Resizing, Growing;
  }

  /**
   No gap: from its claim to the end of its job an instance reads as held after every step.
   It is free again only by the step that refuses the request, shows a grow whose job has
   ended, or ends the job.
   */
  lemma HeldUntilTheWorkEnds(steps: seq<Step>, s: State, step: Step, key: Instance)
    requires Exec(IDLE, steps) == Some(s) && Enabled(s, step)
    requires Resizing(s, key) && !Resizing(Do(s, step), key)
    ensures || (step.RefuseResize? && s.frames[step.handler].key == key)
            || (step.FinishJob? && s.running[step.job] == Job(Resize, key))
  {
    IdleInv();
    RunKeepsInv(IDLE, steps);
  }

  lemma GrowHeldUntilTheWorkEnds(steps: seq<Step>, s: State, step: Step, key: Instance)
    requires Exec(IDLE, steps) == Some(s) && Enabled(s, step)
    requires Growing(s, key) && !Growing(Do(s, step), key)
    ensures || ((step.RefuseGrow? || step.ShowGrow?) && s.frames[step.handler].key == key
        && !JobRunning(s, s.growJobs, key))
            || (step.FinishJob? && s.running[step.job] == Job(Grow, key) && key !in s.growClaims)
  {
    IdleInv();
    RunKeepsInv(IDLE, steps);
  }

  /** The last holder leaves. */
  predicate Leaves(s: State, step: Step, key: Instance)
    requires Enabled(s, step)
  {
    || ((step.RefuseResize? || step.RefuseGrow?) && s.frames[step.handler].key == key)
    || (step.ShowGrow? && s.frames[step.handler].key == key && !JobRunning(s, s.growJobs, key))
    || (step.FinishJob? && s.running[step.job].key == key
          && (s.running[step.job].kind == Grow ==> key !in s.growClaims))
  }

  /** The instance of a suspended resize is held by nobody else. */
  lemma OnlyTheResize(s: State, h: nat, key: Instance)
    requires Inv(s) && h in s.frames && s.frames[h] == ResizeReading(key)
    ensures !JobRunning(s, s.sizeJobs, key) && !Growing(s, key)
  {
    assert HoldsResize(s, Handler(h), key);
    if JobRunning(s, s.sizeJobs, key) { assert HoldsResize(s, Work(s.sizeJobs[key]), key); }
    ChecksSeeEveryHolder(s, key);
  }

  lemma OnlyTheGrow(s: State, h: nat, key: Instance)
    requires Inv(s) && h in s.frames && GrowFrame(s.frames[h]) && s.frames[h].key == key
    ensures !Resizing(s, key) && (s.frames[h].GrowReading? ==> !JobRunning(s, s.growJobs, key))
  {
    hide SizeClaims, DeletionClaims, Minted, SizeJobs, OneResizeEach;
    assert HoldsGrow(s, Handler(h), key);
    if JobRunning(s, s.growJobs, key) { assert HoldsGrow(s, Work(s.growJobs[key]), key); }
    ChecksSeeEveryHolder(s, key);
  }

  /** The instance of a running job has it in its map; only the handler of the same grow may hold it too. */
  lemma OnlyTheJob(s: State, j: nat, key: Instance)
    requires Inv(s) && j in s.running && s.running[j].key == key
    ensures s.running[j].kind == Resize ==>
        key in s.sizeJobs && s.sizeJobs[key] == j && key !in s.sizeClaims && !Growing(s, key)
    ensures s.running[j].kind == Grow ==> key in s.growJobs && s.growJobs[key] == j && !Resizing(s, key)
  {
    ChecksSeeEveryHolder(s, key);
    if s.running[j].kind == Resize {
      assert HoldsResize(s, Work(j), key);
      assert forall h :: !HoldsResize(s, Handler(h), key);
    } else {
      assert HoldsGrow(s, Work(j), key);
    }
  }

  lemma LeavingFrees(s: State, step: Step, key: Instance)
    requires Inv(s) && Enabled(s, step)
    requires Leaves(s, step, key)
    ensures !Changing(Do(s, step), key)
  {
    if step.RefuseResize? { OnlyTheResize(s, step.handler, key); }
    else if step.FinishJob? { OnlyTheJob(s, step.job, key); }
    else { OnlyTheGrow(s, step.handler, key); }
    hide Inv;
  }

  lemma FreedByLeaving(s: State, step: Step, key: Instance)
    requires Inv(s) && Enabled(s, step) && Changing(s, key) && !Changing(Do(s, step), key)
    ensures Leaves(s, step, key)
  {
    hide SizeClaims, GrowClaims, DeletionClaims, OneResizeEach, OneGrowEach, NeverBoth;
  }

  /**
   Nothing stays held for good: a held instance is freed exactly by the refusal of its resize
   or grow, by the showing of a grow whose job has ended, or by the end of its job when no
   grow is still to be shown; and a deletion can be started again exactly once it has ended.
   */
  lemma FreedExactlyWhen(steps: seq<Step>, s: State, step: Step, key: Instance)
    requires Exec(IDLE, steps) == Some(s) && Enabled(s, step) && Changing(s, key)
    ensures !Changing(Do(s, step), key) <==>
            || ((step.RefuseResize? || step.RefuseGrow?) && s.frames[step.handler].key == key)
            || (step.ShowGrow? && s.frames[step.handler].key == key
                && (key in s.growJobs ==> s.growJobs[key] !in s.running))
            || (step.FinishJob? && s.running[step.job].key == key
                && (s.running[step.job].kind == Grow ==> key !in s.growClaims))
  {
    IdleInv();
    RunKeepsInv(IDLE, steps);
    hide Exec, Inv, Do, Changing;
    if !Changing(Do(s, step), key) { FreedByLeaving(s, step, key); }
    if Leaves(s, step, key) { LeavingFrees(s, step, key); }
  }

  lemma DeletionFreedExactlyWhen(steps: seq<Step>, s: State, step: Step, doomed: Doomed)
    requires Exec(IDLE, steps) == Some(s) && Enabled(s, step) && doomed in s.deletions
    ensures doomed !in Do(s, step).deletions <==> step.EndDeletion? && s.frames[step.handler] == Deleting(doomed)
    ensures exists h :: h in s.frames && s.frames[h] == Deleting(doomed)
  {
    IdleInv();
    RunKeepsInv(IDLE, steps);
    assert DeletionClaims(s);
    hide Inv, Exec, Do;
    OnlyItsEndFrees(s, step, doomed);
  }

  lemma OnlyItsEndFrees(s: State, step: Step, doomed: Doomed)
    requires DeletionClaims(s) && Enabled(s, step) && doomed in s.deletions
    ensures doomed !in Do(s, step).deletions <==> step.EndDeletion? && s.frames[step.handler] == Deleting(doomed)
  {}
}
