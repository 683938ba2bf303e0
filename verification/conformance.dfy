/** Any legal run, carried out on an empty engine, gets the answers of the snapshot-isolation store: in memory, or in a
    log file that may be closed and opened again or compacted between any two calls. */
module Conformance {
  import opened ByteOrder
  import opened StorageEngine
  import opened Backends
  import opened MvccState
  import opened Representation
  import opened Runs
  import opened SnapshotStore
  import opened TxnHistory
  import Mvcc

  type Handles = map<u64, Mvcc.Transaction>

  datatype Event = Call(step: Step) | Reopen | Compact

  function StepsOf(events: seq<Event>): seq<Step> {
    if events == [] then []
    else if events[0].Call? then [events[0].step] + StepsOf(events[1..])
    else StepsOf(events[1..])
  }

  /** In a log file, there is room for the records of a write. */
  predicate StepFits(step: Step) {
    step.Write? ==> WriteFits(step.key, step.value)
  }

  ghost predicate Linked(engine: Backend, handles: Handles, s: Sys)
    reads engine, engine.disk, engine.Repr()
  {
    && Mvcc.Ready(engine) && Logical(engine.data) == s.db
    && HandlesOf(engine, handles, s)
  }

  /** The handles are those of the running transactions. */
  ghost predicate HandlesOf(engine: Backend, handles: Handles, s: Sys) {
    && handles.Keys == s.live && s.live <= s.begun.Keys
    && (forall t :: t in handles ==>
          handles[t].engine == engine && handles[t].version == t && handles[t].active == s.begun[t])
  }

  lemma OneMoreHandle(engine: Backend, handles: Handles, t: Mvcc.Transaction, s: Sys)
    requires HandlesOf(engine, handles, s) && Enabled(s, Begin) && NextOf(s.db) !in s.begun
    requires t.engine == engine && t.version == NextOf(s.db) && t.active == ActiveOf(s.db)
    ensures HandlesOf(engine, handles[t.version := t], Next(s, Begin))
  {
  }

  /** One step on the bytes is the same step of the system. */
  method Perform(engine: Backend, handles: Handles, step: Step, ghost s: Sys)
    returns (handles': Handles, out: Output)
    requires Linked(engine, handles, s) && Inv(s) && Enabled(s, step)
    requires engine.disk != null ==> StepFits(step)
    modifies engine.Repr()
    ensures Linked(engine, handles', Next(s, step)) && Inv(Next(s, step)) && Mvcc.Same(engine)
    ensures out == Out(s, step)
  {
    StepKeeps(s, step);
    if step.Begin? {
      handles', out := PerformBegin(engine, handles, s);
    } else {
      out := PerformOn(handles[step.t], step);
      handles' := if step.Commit? || step.Rollback? then handles - {step.t} else handles;
    }
  }

  method PerformBegin(engine: Backend, handles: Handles, ghost s: Sys) returns (handles': Handles, out: Output)
    requires Linked(engine, handles, s) && Inv(s) && Enabled(s, Begin)
    modifies engine.Repr()
    ensures Linked(engine, handles', Next(s, Begin)) && Mvcc.Same(engine)
    ensures out == Out(s, Begin)
  {
    BeginKeeps(s);
    var t := Mvcc.Transaction.Begin(engine);
    OneMoreHandle(engine, handles, t, s);
    handles' := handles[t.version := t];
    out := Began(t.version);
  }

  /** A step of a running transaction. */
  method PerformOn(t: Mvcc.Transaction, step: Step) returns (out: Output)
    requires Mvcc.Ready(t.engine) && !step.Begin? && step.t == t.version && t.version < MAX_U64
    requires t.engine.disk != null ==> StepFits(step)
    modifies t.engine.Repr()
    ensures Mvcc.Ready(t.engine) && Mvcc.Same(t.engine)
    ensures var db := Logical(old(t.engine.data));
      out == OutOn(db, step, t.active) && Logical(t.engine.data) == NextOn(db, step, t.active)
  {
    if step.Get? || step.Scan? {
      out := PerformRead(t, step);
    } else if step.Write? {
      var r := t.WriteInner(step.key, step.value);
      out := if r.Done? then Written else WriteConflict;
    } else {
      out := PerformFinish(t, step);
    }
  }

  method PerformRead(t: Mvcc.Transaction, step: Step) returns (out: Output)
    requires Mvcc.Ready(t.engine) && (step.Get? || step.Scan?) && step.t == t.version
    ensures out == OutOn(Logical(t.engine.data), step, t.active)
  {
    if step.Get? {
      var value := t.Get(step.key);
      out := Found(value);
    } else {
      var rows := t.ScanPrefix(step.prefix);
      out := Rows(rows);
    }
  }

  method PerformFinish(t: Mvcc.Transaction, step: Step) returns (out: Output)
    requires Mvcc.Ready(t.engine) && (step.Commit? || step.Rollback?) && step.t == t.version
    modifies t.engine.Repr()
    ensures Mvcc.Ready(t.engine) && Mvcc.Same(t.engine)
    ensures var db := Logical(old(t.engine.data));
      out == OutOn(db, step, t.active) && Logical(t.engine.data) == NextOn(db, step, t.active)
  {
    if step.Commit? { t.Commit(); } else { t.Rollback(); }
    out := Finished;
  }

  method Execute(engine: Backend, events: seq<Event>) returns (outs: seq<Output>)
    requires engine.Valid() && engine.data == map[] && StoreLegal(EMPTY, StepsOf(events))
    requires engine.disk != null ==> forall step :: step in StepsOf(events) ==> StepFits(step)
    modifies engine.Repr()
    ensures outs == StoreOutputs(EMPTY, StepsOf(events)) && AllExpected(StepsOf(events), outs)
  {
    RefinesSnapshotIsolation(StepsOf(events));
    AnswersExactly(StepsOf(events), StoreOutputs(EMPTY, StepsOf(events)));
    EmptyEngine();
    outs := ExecuteFrom(engine, map[], events, INIT);
  }

  method ExecuteFrom(engine: Backend, handles: Handles, events: seq<Event>, ghost s: Sys)
    returns (outs: seq<Output>)
    requires Linked(engine, handles, s) && Inv(s) && Legal(s, StepsOf(events))
    requires engine.disk != null ==> forall step :: step in StepsOf(events) ==> StepFits(step)
    modifies engine.Repr()
    ensures outs == Outputs(s, StepsOf(events))
    decreases events
  {
    if events == [] { return []; }
    if events[0].Call? {
      var step := events[0].step;
      assert StepsOf(events)[0] == step && StepsOf(events)[1..] == StepsOf(events[1..]);
      var handles', out := Perform(engine, handles, step, s);
      var rest := ExecuteFrom(engine, handles', events[1..], Next(s, step));
      outs := [out] + rest;
    } else {
      if events[0].Reopen? { engine.Reopen(); } else { engine.Compact(); }
      outs := ExecuteFrom(engine, handles, events[1..], s);
    }
  }
}
