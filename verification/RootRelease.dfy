/**
 Installing a release for root (packages/cli/src/root-release.ts, packages/cli/src/root-release-io.ts).
 A call looks at what is installed, checks the new release over the network, unpacks it into the one
 staging directory, moves the old release away and the new one in. Calls of different processes may
 interleave between any two of these, and a call may stop anywhere.
 */
module RootRelease {
  import opened Options
  import opened Text
  import opened Version

  // ------------------------------------------------------------ the form of a release

  predicate Alphanumeric(c: char) { PreChar(c) && c != '.' && c != '-' }

  predicate ShortWord(s: string) { 1 <= |s| <= 20 && forall c :: c in s ==> Alphanumeric(c) }

  /** `isVersion`: the shorter form a release must have. */
  predicate IsVersion(raw: string) {
    var m := Scan(raw);
    && m.Some? && |m.value.major| <= 9 && |m.value.minor| <= 9 && |m.value.patch| <= 9
    && (m.value.pre.Some? ==> var words := Split(m.value.pre.value, '.');
                              |words| <= 5 && forall i :: 0 <= i < |words| ==> ShortWord(words[i]))
  }

  ghost predicate ShortNumber(s: string) { 1 <= |s| <= 9 && forall c :: c in s ==> '0' <= c <= '9' }

  ghost predicate ReleaseWord(s: string) {
    1 <= |s| <= 20 && forall c :: c in s ==> '0' <= c <= '9' || 'A' <= c <= 'Z' || 'a' <= c <= 'z'
  }

  /** `^\d{1,9}\.\d{1,9}\.\d{1,9}(?:-[0-9A-Za-z]{1,20}(?:\.[0-9A-Za-z]{1,20}){0,4})?$` */
  ghost predicate Written(raw: string, major: string, minor: string, patch: string, words: seq<string>) {
    && ShortNumber(major) && ShortNumber(minor) && ShortNumber(patch)
    && |words| <= 5 && (forall w :: w in words ==> ReleaseWord(w))
    && raw == major + ("." + (minor + ("." + (patch + if words == [] then "" else "-" + Join(words, '.')))))
  }

  /** A text is a release exactly when it is written as the expression says. */
  lemma IsVersionExactlyWhen(raw: string)
    ensures IsVersion(raw) <==> exists major, minor, patch, words :: Written(raw, major, minor, patch, words)
  {
    if IsVersion(raw) {
      var m := Scan(raw).value;
      ScansExactly(raw, m);
      var words := if m.pre.None? then [] else Split(m.pre.value, '.');
      WordsAreShort(m, words);
      assert Written(raw, m.major, m.minor, m.patch, words);
    }
    if exists major, minor, patch, words :: Written(raw, major, minor, patch, words) {
      var major, minor, patch, words :| Written(raw, major, minor, patch, words);
      WrittenIsVersion(raw, major, minor, patch, words);
    }
  }

  lemma WordsAreShort(m: Match, words: seq<string>)
    requires m.pre.Some? ==> words == Split(m.pre.value, '.') && forall i :: 0 <= i < |words| ==> ShortWord(words[i])
    requires m.pre.None? ==> words == []
    ensures forall w :: w in words ==> ReleaseWord(w)
    ensures m.pre.Some? ==> Join(words, '.') == m.pre.value
  {
    if m.pre.Some? { JoinSplit(m.pre.value, '.'); }
  }

  lemma WrittenIsVersion(raw: string, major: string, minor: string, patch: string, words: seq<string>)
    requires Written(raw, major, minor, patch, words)
    ensures IsVersion(raw)
  {
    var m := Match(major, minor, patch, if words == [] then None else Some(Join(words, '.')));
    if words != [] {
      JoinedWords(words);
      SplitJoin(words, '.');
    }
    ScansExactly(raw, m);
    hide Scan, Split, Join;
  }

  lemma {:induction false} JoinedWords(words: seq<string>)
    requires words != [] && forall w :: w in words ==> ReleaseWord(w)
    ensures PreText(Join(words, '.')) && forall i :: 0 <= i < |words| ==> '.' !in words[i] && ShortWord(words[i])
  {
    assert words[0] in words;
    if |words| > 1 { JoinedWords(words[1..]); }
  }

  /** A release's form is a version without anything to trim. */
  lemma ReleasesAreVersions(raw: string)
    requires Scan(raw).Some?
    ensures ParseVersion(raw).Some?
  {
    ScanReads(raw);
    hide Scan, PreText;
    ShownIsTrim(Scan(raw).value);
  }

  ghost predicate Held(have: Option<string>) { have.Some? ==> IsVersion(have.value) }

  lemma VersionsCompare(a: string, b: string, c: string)
    requires IsVersion(a) && IsVersion(b) && IsVersion(c)
    ensures Compare(a, a) == 0 && (Compare(a, b) > 0 && Compare(b, c) >= 0 ==> Compare(a, c) > 0)
  {
    ReleasesAreVersions(a);
    ReleasesAreVersions(b);
    ReleasesAreVersions(c);
    hide ParseVersion, Compare, IsVersion;
    CompareIsATotalPreorder(a, a, a);
    CompareIsATotalPreorder(c, b, a);
    CompareIsATotalPreorder(a, b, c);
    CompareIsATotalPreorder(a, c, b);
    CompareIsATotalPreorder(b, c, a);
  }

  // ------------------------------------------------------------ the steps of a call

  /**
   A release on its way in. What its call found installed and how many releases had been moved in by
   then are recorded for the theorems; nothing the code decides reads them.
   */
  datatype Package = Package(version: string, seen: Option<string>, landings: nat)

  /** Where a call is: checking over the network, staged, or between moving the old one away and the new one in. */
  datatype Frame = Checked(p: Package) | Unpacked(p: Package) | Between(p: Package)

  /** The release directory, the staging directory, and the calls under way. */
  datatype State = State(release: Option<string>, staged: Option<Package>, frames: map<nat, Frame>, landings: nat)

  datatype Step =
    | Check(call: nat, version: string)
    | Unpack(call: nat)
    | MoveAway(call: nat)
    | MoveIn(call: nat)
    | Stop(call: nat)

  /** `Stop` is every refusal, failure and crash. */
  predicate Enabled(s: State, step: Step) {
    match step
    case Check(h, _) => h !in s.frames
    case Unpack(h) => h in s.frames && s.frames[h].Checked?
    case MoveAway(h) => h in s.frames && s.frames[h].Unpacked?
    case MoveIn(h) => h in s.frames && s.frames[h].Between?
    case Stop(h) => h in s.frames
  }

  /** What `installRelease` asks before it does anything. */
  ghost predicate Allows(s: State, version: string) {
    IsVersion(version) && (s.release.Some? ==> Compare(version, s.release.value) > 0)
  }

  /** Renaming the staging directory fails when it is gone or a release is in place. */
  predicate Lands(s: State) { s.release.None? && s.staged.Some? }

  ghost function Do(s: State, step: Step): State
    requires Enabled(s, step)
  {
    match step
    case Check(h, version) =>
      if Allows(s, version) then s.(frames := s.frames[h := Checked(Package(version, s.release, s.landings))]) else s
    case Unpack(h) => s.(staged := Some(s.frames[h].p), frames := s.frames[h := Unpacked(s.frames[h].p)])
    case MoveAway(h) => s.(release := None, frames := s.frames[h := Between(s.frames[h].p)])
    case MoveIn(h) =>
      if Lands(s) then State(Some(s.staged.value.version), None, s.frames - {h}, s.landings + 1)
      else s.(frames := s.frames - {h})
    case Stop(h) => s.(frames := s.frames - {h})
  }

  datatype Trigger = Root | Metro

  /**
   How far the work of an undisturbed call gets once it is allowed: refused or failed before the old
   release is moved away, moved in, or stopped between the two.
   */
  datatype Work = Refused | Swapped | Interrupted

  datatype Answer = NotAVersion | Current | Refreshed | Installed | Failed

  datatype Call = Call(version: string, trigger: Trigger, work: Work)

  /** What one undisturbed call leaves installed. */
  ghost function AfterInstall(have: Option<string>, call: Call): Option<string> {
    if !IsVersion(call.version) then have
    else if have.Some? && Compare(call.version, have.value) <= 0 then have
    else match call.work
      case Refused => have
      case Swapped => Some(call.version)
      case Interrupted => None
  }

  /** The directories, and the calls under way on them. */
  class Directories {
    var release: Option<string>
    var staged: Option<Package>
    var frames: map<nat, Frame>
    var landings: nat

    function Now(): State
      reads this
    {
      State(release, staged, frames, landings)
    }

    constructor ()
      ensures Now() == State(None, None, map[], 0)
    {
      release, staged, frames, landings := None, None, map[], 0;
    }

    /** `installRelease` up to its first await; no answer means that the call goes on. */
    method Begin(h: nat, version: string, trigger: Trigger) returns (r: Option<Answer>)
      requires h !in frames
      modifies this`frames
      ensures Now() == Do(old(Now()), Check(h, version))
      ensures r.None? <==>
                IsVersion(version) && (old(release).Some? ==> Compare(version, old(release).value) > 0)
      ensures frames ==
              (if r.Some? then old(frames) else old(frames)[h := Checked(Package(version, release, landings))])
      ensures r == Some(NotAVersion) <==> !IsVersion(version)
      ensures r.Some? && IsVersion(version) ==> r == Some(if trigger == Metro then Current else Refreshed)
    {
      if !IsVersion(version) { return Some(NotAVersion); }
      if release.Some? {
        var cmp := CompareVersions(version, release.value);
        if cmp <= 0 {
          return Some(if trigger == Metro then Current else Refreshed);
        }
      }
      frames := frames[h := Checked(Package(version, release, landings))];
      r := None;
    }

    /** `unpack`, which empties the staging directory first. */
    method Stage(h: nat)
      requires h in frames && frames[h].Checked?
      modifies this`staged, this`frames
      ensures Now() == Do(old(Now()), Unpack(h))
      ensures staged == Some(old(frames[h].p)) && frames == old(frames)[h := Unpacked(old(frames[h].p))]
    {
      staged := Some(frames[h].p);
      frames := frames[h := Unpacked(frames[h].p)];
    }

    /** The first rename of `swap`. */
    method Away(h: nat)
      requires h in frames && frames[h].Unpacked?
      modifies this`release, this`frames
      ensures Now() == Do(old(Now()), MoveAway(h))
      ensures release == None && frames == old(frames)[h := Between(old(frames[h].p))]
    {
      if release.Some? { release := None; }
      frames := frames[h := Between(frames[h].p)];
    }

    /** The second rename of `swap`, which throws when it cannot be done. */
    method In(h: nat) returns (landed: bool)
      requires h in frames && frames[h].Between?
      modifies this
      ensures Now() == Do(old(Now()), MoveIn(h)) && frames == old(frames) - {h}
      ensures landed <==> old(release).None? && old(staged).Some?
      ensures if landed then release == Some(old(staged.value.version)) && staged == None
          && landings == old(landings) + 1
          else unchanged(this`release, this`staged, this`landings)
    {
      landed := release.None? && staged.Some?;
      if landed {
        release, staged, landings := Some(staged.value.version), None, landings + 1;
      }
      frames := frames - {h};
    }

    method Leave(h: nat)
      requires h in frames
      modifies this`frames
      ensures Now() == Do(old(Now()), Stop(h)) && frames == old(frames) - {h}
    {
      frames := frames - {h};
    }

    /** A whole call that no other disturbs. */
    method Install(h: nat, call: Call) returns (r: Answer)
      requires h !in frames
      modifies this
      ensures release == AfterInstall(old(release), call) && frames == old(frames)
      ensures r == Installed <==> IsVersion(call.version) && call.work == Swapped
                                  && (old(release).Some? ==> Compare(call.version, old(release).value) > 0)
      ensures r == NotAVersion <==> !IsVersion(call.version)
      ensures r == Current || r == Refreshed <==>
                IsVersion(call.version) && old(release).Some? && Compare(call.version, old(release).value) <= 0
      ensures (r == Current ==> call.trigger == Metro) && (r == Refreshed ==> call.trigger == Root)
    {
      hide IsVersion, Compare;
      var answer := Begin(h, call.version, call.trigger);
      if answer.Some? { return answer.value; }
      if call.work == Refused {
        Leave(h);
        return Failed;
      }
      Stage(h);
      Away(h);
      if call.work == Interrupted {
        Leave(h);
        return Failed;
      }
      var landed := In(h);
      r := Installed;
    }
  }

  /** What is installed is lower than `top`. */
  ghost predicate Below(have: Option<string>, top: string) { have.Some? && Compare(have.value, top) < 0 }

  /** A call that finds no release and swaps one lower than `top` in. */
  ghost predicate FillsBelow(have: Option<string>, call: Call, top: string) {
    have.None? && IsVersion(call.version) && call.work.Swapped? && Compare(call.version, top) < 0
  }

  /**
   One undisturbed call takes what is installed below `top` if and only if it finds nothing installed and swaps a lower
   one in.
   */
  lemma OneCallLowersExactlyWhen(have: Option<string>, call: Call, top: string)
    requires Held(have) && IsVersion(top) && !Below(have, top)
    ensures Below(AfterInstall(have, call), top) <==> FillsBelow(have, call, top)
  {
    if have.Some? && IsVersion(call.version) {
      VersionsCompare(call.version, have.value, top);
    }
    hide Compare, IsVersion;
  }

  // ------------------------------------------------------------ whole runs

  /** `held` are the versions that have been installed, and `last` is the one installed last. */
  datatype History = History(s: State, held: set<string>, last: Option<string>)

  ghost function Start(have: Option<string>): History {
    History(State(have, None, map[], 0), if have.Some? then {have.value} else {}, have)
  }

  ghost function After(h: History, step: Step): History
    requires Enabled(h.s, step)
  {
    var s := Do(h.s, step);
    if s.release.Some? then History(s, h.held + {s.release.value}, s.release) else History(s, h.held, h.last)
  }

  ghost function Exec(h: History, steps: seq<Step>): Option<History>
    decreases |steps|
  {
    if steps == [] then Some(h)
    else if Enabled(h.s, steps[0]) then Exec(After(h, steps[0]), steps[1..])
    else None
  }

  /** Calls begin at any time, each goes on from where it is, and may stop anywhere. */
  lemma {:induction false} RunsGoOn(h: History, steps: seq<Step>, step: Step)
    requires Exec(h, steps).Some?
    requires var t := Exec(h, steps).value;
      match step
      case Check(k, _) => k !in t.s.frames
      case Unpack(k) => k in t.s.frames && t.s.frames[k].Checked?
      case MoveAway(k) => k in t.s.frames && t.s.frames[k].Unpacked?
      case MoveIn(k) => k in t.s.frames && t.s.frames[k].Between?
      case Stop(k) => k in t.s.frames
    ensures Exec(h, []) == Some(h)
    ensures Exec(h, steps + [step]) == Some(After(Exec(h, steps).value, step))
    decreases |steps|
  {
    hide After;
    if steps == [] {
      assert ([] + [step])[1..] == [];
    } else {
      assert (steps + [step])[1..] == steps[1..] + [step];
      RunsGoOn(After(h, steps[0]), steps[1..], step);
    }
  }

  /** What is installed is lower than a version installed before. */
  ghost predicate Lowered(h: History) {
    h.s.release.Some? && exists x :: x in h.held && Compare(h.s.release.value, x) < 0
  }

  /** The release goes back somewhere in the run. */
  ghost predicate GoesBack(h: History, steps: seq<Step>)
    decreases |steps|
  {
    Lowered(h) || (steps != [] && Enabled(h.s, steps[0]) && GoesBack(After(h, steps[0]), steps[1..]))
  }

  /** The package's call found nothing installed, or another release was moved in since it looked. */
  predicate Stale(s: State, p: Package) { p.seen.None? || p.landings != s.landings }

  /** A stale package is moved in that is lower than a version installed before. */
  ghost predicate StaleLanding(h: History, step: Step) {
    && step.MoveIn? && Lands(h.s) && Stale(h.s, h.s.staged.value)
    && exists x :: x in h.held && Compare(h.s.staged.value.version, x) < 0
  }

  ghost predicate SomeStaleLanding(h: History, steps: seq<Step>)
    decreases |steps|
  {
    steps != [] && Enabled(h.s, steps[0])
    && (StaleLanding(h, steps[0]) || SomeStaleLanding(After(h, steps[0]), steps[1..]))
  }

  /** No version installed before is above the last one. */
  ghost predicate LastIsHighest(h: History) {
    && (forall x :: x in h.held ==> IsVersion(x))
    && (h.last.None? <==> h.held == {})
    && (h.last.Some? ==> h.last.value in h.held && forall x :: x in h.held ==> Compare(h.last.value, x) >= 0)
    && (h.s.release.Some? ==> h.s.release == h.last)
  }

  /** A package that is not stale is above the last version installed, which is what its call found. */
  ghost predicate Fits(h: History, p: Package) {
    && IsVersion(p.version) && p.landings <= h.s.landings
    && (!Stale(h.s, p) ==> h.last == p.seen && Compare(p.version, p.seen.value) > 0)
  }

  ghost predicate PackagesFit(h: History) {
    && (forall c :: c in h.s.frames ==> Fits(h, h.s.frames[c].p))
    && (h.s.staged.Some? ==> Fits(h, h.s.staged.value))
  }

  ghost predicate Inv(h: History) { LastIsHighest(h) && PackagesFit(h) }

  lemma StartInv(have: Option<string>)
    requires Held(have)
    ensures Inv(Start(have))
  {
    hide IsVersion, Compare;
    if have.Some? { VersionsCompare(have.value, have.value, have.value); }
  }

  /** A step that moves nothing in keeps the last version and what is installed, or takes it away. */
  lemma StepWithoutLanding(h: History, step: Step)
    requires Inv(h) && Enabled(h.s, step) && !(step.MoveIn? && Lands(h.s))
    ensures Inv(After(h, step)) && !Lowered(After(h, step))
  {
    hide IsVersion, Compare;
    var t := After(h, step);
    assert t.held == h.held && t.last == h.last && t.s.landings == h.s.landings;
  }

  /** A landing lowers exactly when it is a stale and lower one, and otherwise what landed is the highest. */
  lemma StepThatLands(h: History, step: Step)
    requires Inv(h) && Enabled(h.s, step) && step.MoveIn? && Lands(h.s)
    ensures Lowered(After(h, step)) <==> StaleLanding(h, step)
    ensures !StaleLanding(h, step) ==> Inv(After(h, step))
  {
    hide IsVersion, Compare;
    var t, p := After(h, step), h.s.staged.value;
    assert t.s.release == Some(p.version) && t.held == h.held + {p.version} && t.last == Some(p.version);
    assert t.s.landings == h.s.landings + 1 && t.s.staged.None? && forall c :: c in t.s.frames ==> c in h.s.frames;
    LandedAgainst(h, p);
    hide Do, After, Lands;
    if !StaleLanding(h, step) {
      assert forall x :: x in h.held ==> Compare(p.version, x) >= 0;
      assert LastIsHighest(t);
    }
  }

  /** A package that is not stale is above all versions installed before; one against itself is level. */
  lemma LandedAgainst(h: History, p: Package)
    requires LastIsHighest(h) && Fits(h, p)
    ensures Compare(p.version, p.version) == 0
    ensures !Stale(h.s, p) ==> forall x :: x in h.held ==> Compare(p.version, x) > 0
  {
    hide IsVersion, Compare;
    VersionsCompare(p.version, p.version, p.version);
    forall x | x in h.held ensures !Stale(h.s, p) ==> Compare(p.version, x) > 0 {
      if !Stale(h.s, p) { VersionsCompare(p.version, h.last.value, x); }
    }
  }

  lemma {:induction false} BackExactlyWhenStale(h: History, steps: seq<Step>)
    requires Inv(h) && Exec(h, steps).Some?
    ensures GoesBack(h, steps) <==> SomeStaleLanding(h, steps)
    decreases |steps|
  {
    HighestIsNotLowered(h);
    if steps != [] {
      var step := steps[0];
      if step.MoveIn? && Lands(h.s) { StepThatLands(h, step); } else { StepWithoutLanding(h, step); }
      hide Inv, Lowered, StaleLanding, Do, After, Lands;
      if !StaleLanding(h, step) { BackExactlyWhenStale(After(h, step), steps[1..]); }
    }
  }

  lemma HighestIsNotLowered(h: History)
    requires LastIsHighest(h)
    ensures !Lowered(h)
  {
    hide IsVersion, Compare;
  }

  // ------------------------------------------------------------ the theorems

  /**
   In every interleaving of calls that may stop anywhere, the release goes back if and only if a
   package lower than a version installed before is moved in whose call found nothing installed, or
   looked before another release was moved in.
   */
  lemma GoesBackExactlyWhen(have: Option<string>, steps: seq<Step>)
    requires Held(have) && Exec(Start(have), steps).Some?
    ensures GoesBack(Start(have), steps) <==> SomeStaleLanding(Start(have), steps)
  {
    StartInv(have);
    BackExactlyWhenStale(Start(have), steps);
  }

  /** No call begins while another is under way, and none stops between moving away and moving in. */
  ghost predicate Orderly(h: History, steps: seq<Step>)
    decreases |steps|
  {
    steps != [] && Enabled(h.s, steps[0]) ==>
      && (steps[0].Check? ==> h.s.frames == map[])
      && (steps[0].Stop? ==> !h.s.frames[steps[0].call].Between?)
      && Orderly(After(h, steps[0]), steps[1..])
  }

  /** One call at a time, none stale; a release is missing only while that call is between its two renames. */
  ghost predicate Alone(h: History) {
    && (forall a, b :: a in h.s.frames && b in h.s.frames ==> a == b)
    && (forall c :: c in h.s.frames ==> !Stale(h.s, h.s.frames[c].p))
    && (forall c :: c in h.s.frames && !h.s.frames[c].Checked? ==> h.s.staged == Some(h.s.frames[c].p))
    && (h.s.release.None? <==> exists c :: c in h.s.frames && h.s.frames[c].Between?)
  }

  lemma OrderlyStep(h: History, step: Step)
    requires Alone(h) && Enabled(h.s, step)
    requires (step.Check? ==> h.s.frames == map[]) && (step.Stop? ==> !h.s.frames[step.call].Between?)
    ensures Alone(After(h, step)) && !StaleLanding(h, step)
  {
    hide IsVersion, Compare;
    var t := After(h, step);
    if step.Check? {
      assert t.s.frames == map[] || t.s.frames.Keys == {step.call};
    } else {
      assert forall c :: c in t.s.frames ==> c in h.s.frames;
      assert t.s.release.None? ==> h.s.release.None? || step.MoveAway?;
    }
    if step.MoveAway? { assert t.s.frames[step.call].Between?; }
  }

  lemma {:induction false} OrderlyNeverStale(h: History, steps: seq<Step>)
    requires Alone(h) && Orderly(h, steps)
    ensures !SomeStaleLanding(h, steps)
    decreases |steps|
  {
    if steps != [] && Enabled(h.s, steps[0]) {
      OrderlyStep(h, steps[0]);
      hide Alone, StaleLanding, After;
      OrderlyNeverStale(After(h, steps[0]), steps[1..]);
    }
  }

  /** So calls that do not overlap and are not stopped between their renames never take an installed release back. */
  lemma NeverLowered(have: string, steps: seq<Step>)
    requires IsVersion(have) && Exec(Start(Some(have)), steps).Some? && Orderly(Start(Some(have)), steps)
    ensures !GoesBack(Start(Some(have)), steps)
  {
    assert Alone(Start(Some(have)));
    OrderlyNeverStale(Start(Some(have)), steps);
    GoesBackExactlyWhen(Some(have), steps);
  }

  /** A call ends between its renames: it stops there, or its second rename fails. */
  ghost predicate EndsBetween(h: History, steps: seq<Step>)
    decreases |steps|
  {
    steps != [] && Enabled(h.s, steps[0])
    && ((steps[0].Stop? && h.s.frames[steps[0].call].Between?) || (steps[0].MoveIn? && !Lands(h.s))
        || EndsBetween(After(h, steps[0]), steps[1..]))
  }

  /** An installed release is missing only while a call is between its two renames, or after one ended there. */
  lemma {:induction false} MissingOnlyBetweenRenames(h: History, steps: seq<Step>, t: History)
    requires h.s.release.Some? || exists c :: c in h.s.frames && h.s.frames[c].Between?
    requires Exec(h, steps) == Some(t) && t.s.release.None?
    ensures EndsBetween(h, steps) || exists c :: c in t.s.frames && t.s.frames[c].Between?
    decreases |steps|
  {
    if steps != [] {
      var next := After(h, steps[0]);
      if !((steps[0].Stop? && h.s.frames[steps[0].call].Between?) || (steps[0].MoveIn? && !Lands(h.s))) {
        OneStepBetween(h, steps[0]);
        MissingOnlyBetweenRenames(next, steps[1..], t);
      }
    }
  }

  lemma OneStepBetween(h: History, step: Step)
    requires Enabled(h.s, step) && (h.s.release.Some? || exists c :: c in h.s.frames && h.s.frames[c].Between?)
    requires !(step.Stop? && h.s.frames[step.call].Between?) && !(step.MoveIn? && !Lands(h.s))
    ensures var next := After(h, step).s; next.release.Some? || exists c :: c in next.frames && next.frames[c].Between?
  {
    hide IsVersion, Compare;
    var next := After(h, step).s;
    if step.MoveAway? {
      assert next.frames[step.call].Between?;
    } else if h.s.release.None? && !step.MoveIn? {
      var c :| c in h.s.frames && h.s.frames[c].Between?;
      assert c in next.frames && next.frames[c] == h.s.frames[c];
    }
  }

  // ------------------------------------------------------------ the runs that go back

  lemma ExecStep(h: History, step: Step, rest: seq<Step>)
    requires Enabled(h.s, step)
    ensures Exec(h, [step] + rest) == Exec(After(h, step), rest)
  {
    assert ([step] + rest)[1..] == rest;
  }

  /** The steps of a call, from its check on. */
  function SwapSteps(call: nat): seq<Step> { [Unpack(call), MoveAway(call), MoveIn(call)] }

  lemma SwapLands(h: History, call: nat)
    requires call in h.s.frames && h.s.frames[call].Checked?
    ensures var t := Exec(h, SwapSteps(call));
            && t.Some? && t.value.s.release == Some(h.s.frames[call].p.version)
            && t.value.s.frames == h.s.frames - {call}
            && t.value.held == h.held + (if h.s.release.Some? then {h.s.release.value} else {})
                 + {h.s.frames[call].p.version}
  {
    var a := After(h, Unpack(call));
    var b := After(a, MoveAway(call));
    var c := After(b, MoveIn(call));
    ExecStep(h, Unpack(call), [MoveAway(call), MoveIn(call)]);
    ExecStep(a, MoveAway(call), [MoveIn(call)]);
    ExecStep(b, MoveIn(call), []);
    assert SwapSteps(call) == [Unpack(call)] + [MoveAway(call), MoveIn(call)];
    assert [MoveAway(call), MoveIn(call)] == [MoveAway(call)] + [MoveIn(call)];
    assert c.s.frames == h.s.frames - {call};
    assert c.held == h.held + (if h.s.release.Some? then {h.s.release.value} else {}) + {h.s.frames[call].p.version};
  }

  /**
   Overlapping calls do go back: two look at the same release, the higher one is moved in first, and
   the lower one after it.
   */
  lemma OverlapGoesBack(have: string, low: string, high: string)
    requires IsVersion(have) && IsVersion(low) && IsVersion(high)
    requires Compare(low, have) > 0 && Compare(high, have) > 0 && Compare(low, high) < 0
    ensures var steps := [Check(1, low), Check(2, high)] + SwapSteps(2) + SwapSteps(1);
            && Exec(Start(Some(have)), steps).Some?
            && Exec(Start(Some(have)), steps).value.s.release == Some(low)
            && Lowered(Exec(Start(Some(have)), steps).value)
  {
    hide IsVersion, Compare;
    var s := Start(Some(have));
    var a := After(s, Check(1, low));
    var b := After(a, Check(2, high));
    SwapLands(b, 2);
    var c := Exec(b, SwapSteps(2)).value;
    SwapLands(c, 1);
    var d := Exec(c, SwapSteps(1)).value;
    assert high in d.held && d.s.release == Some(low);
    hide After, Exec, Do;
    ExecStep(s, Check(1, low), [Check(2, high)] + (SwapSteps(2) + SwapSteps(1)));
    ExecStep(a, Check(2, high), SwapSteps(2) + SwapSteps(1));
    ExecConcat(b, SwapSteps(2), SwapSteps(1));
    assert [Check(1, low), Check(2, high)] + SwapSteps(2) + SwapSteps(1) ==
           [Check(1, low)] + ([Check(2, high)] + (SwapSteps(2) + SwapSteps(1)));
  }

  lemma {:induction false} ExecConcat(h: History, first: seq<Step>, more: seq<Step>)
    requires Exec(h, first).Some?
    ensures Exec(h, first + more) == Exec(Exec(h, first).value, more)
    decreases |first|
  {
    if first == [] {
      assert first + more == more;
    } else {
      assert (first + more)[1..] == first[1..] + more;
      ExecConcat(After(h, first[0]), first[1..], more);
    }
  }

  /** And so does an interruption: once a newer release was stopped between its renames, any release at all goes in. */
  lemma AfterAnInterruptionAnyGoesIn(have: string, newer: string, other: string)
    requires IsVersion(newer) && Compare(newer, have) > 0 && IsVersion(other)
    ensures var stopped := [Check(1, newer), Unpack(1), MoveAway(1), Stop(1)];
            var t := Exec(Start(Some(have)), stopped + [Check(2, other)] + SwapSteps(2));
            t.Some? && t.value.s.release == Some(other) && have in t.value.held
  {
    hide IsVersion, Compare;
    var stopped := [Check(1, newer), Unpack(1), MoveAway(1), Stop(1)];
    var s := Start(Some(have));
    var a := After(s, Check(1, newer));
    var b := After(a, Unpack(1));
    var c := After(b, MoveAway(1));
    var d := After(c, Stop(1));
    var e := After(d, Check(2, other));
    assert d.s.release.None? && d.s.frames == map[] && have in d.held;
    SwapLands(e, 2);
    hide After, Do;
    assert stopped == [Check(1, newer)] + ([Unpack(1)] + ([MoveAway(1)] + ([Stop(1)] + [])));
    ExecStep(s, Check(1, newer), [Unpack(1)] + ([MoveAway(1)] + ([Stop(1)] + [])));
    ExecStep(a, Unpack(1), [MoveAway(1)] + ([Stop(1)] + []));
    ExecStep(b, MoveAway(1), [Stop(1)] + []);
    ExecStep(c, Stop(1), []);
    ExecConcat(s, stopped, [Check(2, other)] + SwapSteps(2));
    ExecStep(d, Check(2, other), SwapSteps(2));
    assert stopped + [Check(2, other)] + SwapSteps(2) == stopped + ([Check(2, other)] + SwapSteps(2));
  }
}
