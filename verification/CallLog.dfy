/**
 The log of model calls (apps/gateway/src/recorder.ts): rows gather into batches, a batch leaves
 when it is full or its timer fires, and batches are written one after another.
 */
module CallLog {
  import opened Options

  const BATCH_MAX := 100
  const QUEUE_MAX := 10_000

  type Row = nat

  type Batch = seq<Row>

  /** How a write ends: recorded, refused because the table does not exist, or failed otherwise. */
  datatype Written = Recorded | NoTable | Failed

  /** What is logged when the table goes missing and when it is back. */
  datatype Notice = Lost | Again

  /** The promise chain `writing` is the batch being written and the batches waiting behind it. */
  datatype State = State(rows: Batch, timer: bool, writing: Option<Batch>, waiting: seq<Batch>, missing: bool)

  const EMPTY := State([], false, None, [], false)

  function Flushed(s: State): State {
    s.(rows := [], timer := false, waiting := if s.rows == [] then s.waiting else s.waiting + [s.rows])
  }

  function Added(s: State, row: Row): State {
    if |s.rows| >= QUEUE_MAX then s
    else
      var t := s.(rows := s.rows + [row]);
      if |t.rows| >= BATCH_MAX then Flushed(t) else t.(timer := true)
  }

  function NoticeOf(s: State, written: Written): Option<Notice> {
    match written
    case Recorded => if s.missing then Some(Again) else None
    case NoTable => if s.missing then None else Some(Lost)
    case Failed => None
  }

  class Log {
    var rows: Batch
    var timer: bool
    var writing: Option<Batch>
    var waiting: seq<Batch>
    var missing: bool

    function Now(): State
      reads this
    {
      State(rows, timer, writing, waiting, missing)
    }

    constructor ()
      ensures Now() == EMPTY
    {
      rows, timer, writing, waiting, missing := [], false, None, [], false;
    }

    method Add(row: Row)
      modifies this
      ensures Now() == Added(old(Now()), row)
      ensures unchanged(this`writing, this`missing)
      ensures if |old(rows)| >= 10000 then unchanged(this)
          else if |old(rows)| >= 99 then rows == [] && !timer && waiting == old(waiting) + [old(rows) + [row]]
          else rows == old(rows) + [row] && timer && waiting == old(waiting)
    {
      if |rows| >= QUEUE_MAX { return; }
      rows := rows + [row];
      if |rows| >= BATCH_MAX {
        Flush();
      } else if !timer {
        timer := true;
      }
    }

    method Flush()
      modifies this`rows, this`timer, this`waiting
      ensures Now() == Flushed(old(Now()))
      ensures rows == [] && !timer && waiting == old(waiting) + if old(rows) == [] then [] else [old(rows)]
    {
      timer := false;
      var batch := rows;
      rows := [];
      if |batch| == 0 { return; }
      waiting := waiting + [batch];
    }

    /** The end of `write`: the next batch of the chain may start. */
    method EndWrite(written: Written) returns (notice: Option<Notice>)
      requires writing.Some?
      modifies this`writing, this`missing
      ensures writing == None && notice == NoticeOf(old(Now()), written)
      ensures notice == Some(Lost) <==> written == NoTable && !old(missing)
      ensures notice == Some(Again) <==> written == Recorded && old(missing)
      ensures missing == if written == Failed then old(missing) else written == NoTable
    {
      writing, notice := None, None;
      match written {
        case Recorded =>
          if missing { notice := Some(Again); }
          missing := false;
        case NoTable =>
          if !missing { notice := Some(Lost); }
          missing := true;
        case Failed =>
      }
    }
  }

  // ------------------------------------------------------------ whole runs

  datatype Step = Add(row: Row) | TimerFires | Drain | StartWrite | EndWrite(written: Written)

  /** `added` are all rows given to `add`, `done` the batches whose write ended, `notices` what was logged. */
  datatype History = History(s: State, added: seq<Row>, done: seq<Batch>, notices: seq<Notice>)

  const START := History(EMPTY, [], [], [])

  predicate Enabled(h: History, step: Step) {
    match step
    case TimerFires => h.s.timer
    case StartWrite => h.s.writing.None? && h.s.waiting != []
    case EndWrite(_) => h.s.writing.Some?
    case _ => true
  }

  function Do(h: History, step: Step): History
    requires Enabled(h, step)
  {
    match step
    case Add(row) => h.(s := Added(h.s, row), added := h.added + [row])
    case TimerFires => h.(s := Flushed(h.s))
    case Drain => h.(s := Flushed(h.s))
    case StartWrite => h.(s := h.s.(writing := Some(h.s.waiting[0]), waiting := h.s.waiting[1..]))
    case EndWrite(written) =>
      var notice := NoticeOf(h.s, written);
      h.(s := h.s.(writing := None, missing := if written == Failed then h.s.missing else written == NoTable),
         done := h.done + [h.s.writing.value],
         notices := if notice.Some? then h.notices + [notice.value] else h.notices)
  }

  function Exec(h: History, steps: seq<Step>): Option<History>
    decreases |steps|
  {
    if steps == [] then Some(h)
    else if Enabled(h, steps[0]) then Exec(Do(h, steps[0]), steps[1..])
    else None
  }

  /** Rows come and batches are flushed at any time; one write ends before the next starts. */
  lemma {:induction false} RunsGoOn(h: History, steps: seq<Step>, step: Step)
    requires Exec(h, steps).Some?
    requires var t := Exec(h, steps).value;
      match step
      case Add(_) => true
      case TimerFires => t.s.timer
      case Drain => true
      case StartWrite => t.s.writing == None && t.s.waiting != []
      case EndWrite(_) => t.s.writing.Some?
    ensures Exec(h, []) == Some(h)
    ensures Exec(h, steps + [step]) == Some(Do(Exec(h, steps).value, step))
    decreases |steps|
  {
    hide Do;
    if steps == [] {
      assert ([] + [step])[1..] == [];
    } else {
      assert (steps + [step])[1..] == steps[1..] + [step];
      RunsGoOn(Do(h, steps[0]), steps[1..], step);
    }
  }

  function Flat(batches: seq<Batch>): seq<Row> {
    if batches == [] then [] else Flat(batches[..|batches| - 1]) + batches[|batches| - 1]
  }

  /** The chain in its order: written, being written, waiting. */
  function Chain(h: History): seq<Batch> {
    h.done + (if h.s.writing.Some? then [h.s.writing.value] else []) + h.s.waiting
  }

  ghost predicate SmallBatches(batches: seq<Batch>) { forall b :: b in batches ==> 1 <= |b| <= BATCH_MAX }

  /** Notices alternate, beginning with the loss, and the last one says what the log believes. */
  ghost predicate Alternate(notices: seq<Notice>, missing: bool) {
    && (forall i :: 0 <= i < |notices| ==> notices[i] == if i % 2 == 0 then Lost else Again)
    && (missing <==> |notices| % 2 == 1)
  }

  /** The rows added are the rows of the chain's batches and the rows still gathering, in order. */
  ghost predicate Conserved(h: History) { h.added == Flat(Chain(h)) + h.s.rows }

  ghost predicate Gathering(h: History) { |h.s.rows| < BATCH_MAX && (h.s.timer <==> h.s.rows != []) }

  ghost predicate Inv(h: History) {
    Conserved(h) && Gathering(h) && SmallBatches(Chain(h)) && Alternate(h.notices, h.s.missing)
  }

  lemma FlatSnoc(batches: seq<Batch>, batch: Batch)
    ensures Flat(batches + [batch]) == Flat(batches) + batch
  {
    assert (batches + [batch])[..|batches|] == batches;
  }

  lemma {:induction false} FlatConcat(a: seq<Batch>, b: seq<Batch>)
    ensures Flat(a + b) == Flat(a) + Flat(b)
  {
    if b == [] {
      assert a + b == a;
    } else {
      var init, last := b[..|b| - 1], b[|b| - 1];
      FlatConcat(a, init);
      FlatSnoc(a + init, last);
      FlatSnoc(init, last);
      hide Flat;
      assert b == init + [last] && a + b == (a + init) + [last];
      assert (Flat(a) + Flat(init)) + last == Flat(a) + (Flat(init) + last);
    }
  }

  /** What a step does to the chain: a flush adds one batch at its end, and nothing else changes it. */
  lemma StepOnChain(h: History, step: Step)
    requires Enabled(h, step)
    ensures var t := Do(h, step);
            Chain(t) == Chain(h) + if |t.s.waiting| > |h.s.waiting| then [t.s.waiting[|h.s.waiting|]] else []
  {
    hide NoticeOf;
    if step.StartWrite? {
      assert h.s.waiting == [h.s.waiting[0]] + h.s.waiting[1..];
    }
  }

  lemma BatchJoins(batches: seq<Batch>, batch: Batch)
    requires SmallBatches(batches) && 1 <= |batch| <= BATCH_MAX
    ensures SmallBatches(batches + [batch]) && Flat(batches + [batch]) == Flat(batches) + batch
  {
    FlatSnoc(batches, batch);
  }

  /** A batch leaves exactly when what has gathered, with the row added, is full or a flush finds some. */
  lemma StepOnRows(h: History, step: Step)
    requires Gathering(h) && Enabled(h, step)
    ensures var t, all := Do(h, step), if step.Add? then h.s.rows + [step.row] else h.s.rows;
            && t.added == h.added + (if step.Add? then [step.row] else []) && Gathering(t)
            && (if |t.s.waiting| > |h.s.waiting| then t.s.waiting[|h.s.waiting|] == all && t.s.rows == []
                && 1 <= |all| <= BATCH_MAX
                else t.s.rows == all)
  {
    hide NoticeOf;
  }

  /** Rows that gather or leave as a batch keep what was added equal to the chain and the gathering rows. */
  lemma RowsMove(chain: seq<Batch>, rows: Batch, more: Batch, leave: bool)
    ensures (Flat(chain) + rows) + more == if leave then Flat(chain + [rows + more]) + []
        else Flat(chain) + (rows + more)
  {
    FlatSnoc(chain, rows + more);
    hide Flat;
    assert (Flat(chain) + rows) + more == Flat(chain) + (rows + more);
  }

  lemma StepKeepsRows(h: History, step: Step)
    requires Gathering(h) && Conserved(h) && SmallBatches(Chain(h)) && Enabled(h, step)
    ensures Gathering(Do(h, step)) && Conserved(Do(h, step)) && SmallBatches(Chain(Do(h, step)))
  {
    StepOnChain(h, step);
    StepOnRows(h, step);
    var t, more := Do(h, step), if step.Add? then [step.row] else [];
    var leave := |t.s.waiting| > |h.s.waiting|;
    assert !step.Add? ==> h.s.rows + more == h.s.rows;
    hide Flat, Chain, SmallBatches, Do, Gathering, Enabled;
    RowsMove(Chain(h), h.s.rows, more, leave);
    if leave {
      BatchJoins(Chain(h), h.s.rows + more);
    } else {
      assert Chain(t) == Chain(h);
    }
  }

  lemma StepKeepsNotices(h: History, step: Step)
    requires Alternate(h.notices, h.s.missing) && Enabled(h, step)
    ensures Alternate(Do(h, step).notices, Do(h, step).s.missing)
  {}

  lemma StepKeepsInv(h: History, step: Step)
    requires Inv(h) && Enabled(h, step)
    ensures Inv(Do(h, step))
  {
    StepKeepsRows(h, step);
    StepKeepsNotices(h, step);
  }

  lemma {:induction false} RunKeepsInv(h: History, steps: seq<Step>)
    requires Inv(h) && Exec(h, steps).Some?
    ensures Inv(Exec(h, steps).value)
    decreases |steps|
  {
    hide Inv;
    if steps != [] {
      StepKeepsInv(h, steps[0]);
      RunKeepsInv(Do(h, steps[0]), steps[1..]);
    }
  }

  lemma {:induction false} ChainOnlyGrows(h: History, steps: seq<Step>)
    requires Exec(h, steps).Some?
    ensures Chain(h) <= Chain(Exec(h, steps).value)
    decreases |steps|
  {
    hide Chain, Do;
    if steps != [] {
      StepOnChain(h, steps[0]);
      ChainOnlyGrows(Do(h, steps[0]), steps[1..]);
    }
  }

  // ------------------------------------------------------------ the theorems

  /**
   No row is lost, repeated or reordered before its write: the rows of the chain's batches and the
   rows still gathering are exactly the rows added, in order. Every batch has 1 to 100 rows. The
   bound of 10 000 is never reached, because a batch leaves at 100, so `add` drops nothing; and
   rows that gather always have a timer.
   */
  lemma EveryRowIsWrittenOnceInOrder(steps: seq<Step>, h: History)
    requires Exec(START, steps) == Some(h)
    ensures h.added == Flat(Chain(h)) + h.s.rows
    ensures SmallBatches(Chain(h)) && |h.s.rows| < BATCH_MAX
    ensures h.s.timer <==> h.s.rows != []
  {
    RunKeepsInv(START, steps);
  }

  /** When the writes that stood in the chain at a drain have ended, every row added before it was written. */
  lemma DrainWaitsForEverythingBefore(before: seq<Step>, h: History, after: seq<Step>, t: History)
    requires Exec(START, before) == Some(h) && Exec(Do(h, Drain), after) == Some(t)
    requires |t.done| >= |Chain(Do(h, Drain))|
    ensures h.added <= Flat(t.done)
  {
    var d := Do(h, Drain);
    RunKeepsInv(START, before);
    StepKeepsInv(h, Drain);
    ChainOnlyGrows(d, after);
    assert d.added == h.added && d.s.rows == [] && Conserved(d);
    hide Exec, Do, Flat, Gathering, SmallBatches, Alternate;
    assert t.done <= Chain(t);
    EndedChainIsWritten(Chain(d), Chain(t), t.done);
    assert Flat(Chain(d)) + [] == Flat(Chain(d));
  }

  lemma EndedChainIsWritten(chain: seq<Batch>, later: seq<Batch>, done: seq<Batch>)
    requires chain <= later && done <= later && |chain| <= |done|
    ensures Flat(chain) <= Flat(done)
  {
    hide Flat;
    var rest := done[|chain|..];
    assert done == chain + rest by { assert done == later[..|done|] && chain == later[..|chain|]; }
    FlatConcat(chain, rest);
  }

  /** The loss of the table is logged once until it is back, and its return once. */
  lemma OutagesAreAnnouncedOnce(steps: seq<Step>, h: History, i: nat)
    requires Exec(START, steps) == Some(h) && i < |h.notices|
    ensures h.notices[i] == if i % 2 == 0 then Lost else Again
    ensures h.s.missing <==> |h.notices| % 2 == 1
  {
    RunKeepsInv(START, steps);
  }
}
