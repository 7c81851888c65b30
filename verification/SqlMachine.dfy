/** The database layer under its mutex: any number of threads, any interleaving, SQLITE3 or PGSQL. */
module SqlMachine {
  datatype Backend = Sqlite3 | Pgsql

  datatype Op = Query | Update | Disconnect | GetSequence

  // What is done to the client library. Handles carry the number of the open call that made them.
  datatype Event =
    | Load
    | Unload
    | Open(h: nat, good: bool)
    | Exec(h: nat)
    | Close(h: nat)

  // Where a thread stands. Everything between Waiting and Unlock holds the mutex.
  datatype Pc =
    | Idle
    | Waiting(op: Op)
    | Entered(op: Op)         // the query may turn out to be empty
    | Loading(op: Op)         // xxxDLLInit
    | Connecting(op: Op)      // xxxConnect after the library is there
    | Setup(op: Op, left: nat)  // the PRAGMA statements
    | Executing(op: Op, stage: nat)
    | InnerClose              // pgsqlQuery disconnects before it returns -1
    | OuterClose              // _sql_query disconnects on a negative result
    | Disconnecting           // _sql_disconnect
    | Unloading               // _sql_dll_unload
    | Unlock

  datatype State = State(
    pcs: map<nat, Pc>,
    holder: int,  // the thread that holds the mutex, -1 for none
    loaded: bool,
    connected: bool,
    handle: nat,  // 0 is NULL
    next: nat,
    trace: seq<Event>)

  // What the environment decides at a step.
  datatype Choice = Choice(op: Op, ok: bool, symbols: bool)

  function Initial(): State {
    State(map[], -1, false, false, 0, 1, [])
  }

  function PcOf(s: State, t: nat): Pc {
    if t in s.pcs then s.pcs[t] else Idle
  }

  function At(s: State, t: nat, pc: Pc): State {
    s.(pcs := s.pcs[t := pc])
  }

  function Log(s: State, e: Event): State {
    s.(trace := s.trace + [e])
  }

  // sqlite3Disconnect and pgsqlDisconnect.
  function Closed(b: Backend, s: State): State {
    match b
    case Sqlite3 => if !s.connected then s else Log(s, Close(s.handle)).(connected := false)
    case Pgsql =>
      var s' := if s.handle != 0 then Log(s, Close(s.handle)).(handle := 0) else s;
      s'.(connected := false)
  }

  // After stage k of an operation, with a result that is good or not.
  function AfterStage(b: Backend, op: Op, k: nat, ok: bool): Pc {
    if b == Sqlite3 then
      // exec, changes, and for a successful update last_insert_rowid
      if k == 0 then Executing(op, if ok then 1 else 10)
      else if k == 1 then (if op == Update then Executing(op, 2) else Unlock)
      else if k == 10 then (if op == Query then OuterClose else Unlock)
      else Unlock
    else if op == Query then
      // BEGIN, DECLARE, FETCH can fail; CLOSE and END are not looked at
      if k <= 2 && !ok then InnerClose
      else if k < 4 then Executing(op, k + 1)
      else Unlock
    else
      // BEGIN and the statement can fail; END is not looked at
      if k <= 1 && !ok then Unlock
      else if k < 2 then Executing(op, k + 1)
      else Unlock
  }

  // One step of thread t.
  function Step(b: Backend, s: State, t: nat, c: Choice): State {
    match PcOf(s, t)
    case Idle =>
      // sql_getsequence returns -1 for these backends without touching anything
      if c.op == GetSequence then s else At(s, t, Waiting(c.op))
    case Waiting(op) =>
      if s.holder != -1 then s else At(s, t, Entered(op)).(holder := t)
    case Entered(op) =>
      if op == Disconnect then At(s, t, Disconnecting)
      else if !c.ok then At(s, t, Unlock)
      else At(s, t, Loading(op))
    case Loading(op) =>
      if s.loaded then At(s, t, Connecting(op))
      else if !c.ok then At(s, t, Unlock)
      else if !c.symbols then At(Log(Log(s, Load), Unload), t, Unlock)
      else At(Log(s, Load).(loaded := true), t, Connecting(op))
    case Connecting(op) =>
      if s.connected then At(s, t, Executing(op, 0))
      else
        var s' := Log(s, Open(s.next, c.ok)).(handle := s.next, next := s.next + 1);
        if !c.ok then At(s', t, Unlock)
        else At(s'.(connected := true), t, if b == Sqlite3 then Setup(op, 3) else Executing(op, 0))
    case Setup(op, left) =>
      if left == 0 then At(s, t, Executing(op, 0)) else At(Log(s, Exec(s.handle)), t, Setup(op, left - 1))
    case Executing(op, stage) =>
      // no table for the rows: back before anything is executed
      if b == Sqlite3 && op == Query && stage == 0 && !c.symbols then At(s, t, OuterClose)
      else
      // an update without a result object does not ask for the number of changes; no memory for DECLARE
      var skipped := !c.symbols && if b == Sqlite3 then op == Update && (stage == 1 || stage == 10)
                                   else op == Query && stage == 1 && !c.ok;
      At(if skipped then s else Log(s, Exec(s.handle)), t, AfterStage(b, op, stage, c.ok))
    case InnerClose => At(Closed(b, s), t, OuterClose)
    case OuterClose => At(Closed(b, s), t, Unlock)
    case Disconnecting => At(Closed(b, s), t, Unloading)
    case Unloading =>
      At(if s.loaded then Log(s, Unload).(loaded := false) else s, t, Unlock)
    case Unlock => At(s, t, Idle).(holder := -1)
  }

  // Every interleaving is a schedule: which thread moves, and what the environment answers.
  function Run(b: Backend, schedule: seq<(nat, Choice)>): State {
    if schedule == [] then Initial()
    else
      var n := |schedule| - 1;
      Step(b, Run(b, schedule[..n]), schedule[n].0, schedule[n].1)
  }

  // ---------- what a trace must satisfy ----------

  predicate LoadedAfter(trace: seq<Event>) {
    trace != [] &&
    match trace[|trace| - 1]
    case Load => true
    case Unload => false
    case _ => LoadedAfter(trace[..|trace| - 1])
  }

  // No call reaches an unloaded library.
  ghost predicate CallsLoaded(trace: seq<Event>) {
    forall i :: 0 <= i < |trace| && !trace[i].Load? ==> LoadedAfter(trace[..i])
  }

  // Nothing is executed on a closed handle, and none is closed twice.
  ghost predicate NoUseAfterClose(trace: seq<Event>) {
    forall i, j :: 0 <= i < j < |trace| && trace[i].Close? ==>
      trace[j] != Exec(trace[i].h) && trace[j] != Close(trace[i].h)
  }

  ghost predicate ClosedBetween(trace: seq<Event>, h: nat, i: nat, j: nat)
    requires j <= |trace|
  {
    exists k :: i < k < j && trace[k] == Close(h)
  }

  // A successfully opened handle is closed before the next successful open.
  ghost predicate OpensAlternate(trace: seq<Event>) {
    forall i, j :: 0 <= i < j < |trace| && trace[i].Open? && trace[i].good && trace[j].Open? && trace[j].good ==>
      ClosedBetween(trace, trace[i].h, i, j)
  }

  // Only opened handles are used.
  ghost predicate UsesOpened(trace: seq<Event>) {
    forall j :: 0 <= j < |trace| && trace[j].Exec? ==>
      exists i :: 0 <= i < j && trace[i] == Open(trace[j].h, true)
  }

  ghost predicate Safe(trace: seq<Event>) {
    CallsLoaded(trace) && NoUseAfterClose(trace) && OpensAlternate(trace) && UsesOpened(trace)
  }

  predicate InBackend(pc: Pc) {
    !pc.Idle? && !pc.Waiting?
  }

  ghost predicate OneInside(s: State) {
    forall t: nat, u: nat :: InBackend(PcOf(s, t)) && InBackend(PcOf(s, u)) ==> t == u
  }

  // ---------- the invariant ----------

  ghost predicate NotClosed(trace: seq<Event>, h: nat) {
    forall i :: 0 <= i < |trace| ==> trace[i] != Close(h)
  }

  // Every successfully opened handle but the given one has been closed since.
  ghost predicate AllClosedBut(trace: seq<Event>, h: nat) {
    forall i :: 0 <= i < |trace| && trace[i].Open? && trace[i].good && trace[i].h != h ==>
      ClosedBetween(trace, trace[i].h, i, |trace|)
  }

  ghost predicate IdsBelow(trace: seq<Event>, next: nat) {
    forall i :: 0 <= i < |trace| && !trace[i].Load? && !trace[i].Unload? ==> 0 < trace[i].h < next
  }

  // The library and the connection.
  ghost predicate Linked(b: Backend, s: State) {
    && s.next >= 1
    && s.loaded == LoadedAfter(s.trace)
    && (s.connected ==> s.loaded && s.handle != 0 && Open(s.handle, true) in s.trace && NotClosed(s.trace, s.handle))
    && (b == Pgsql && s.handle != 0 ==> s.loaded && NotClosed(s.trace, s.handle))
    && AllClosedBut(s.trace, if s.connected then s.handle else 0)
    && IdsBelow(s.trace, s.next) && s.handle < s.next
    && Safe(s.trace)
  }

  // What a thread at a program point relies on.
  ghost predicate Expects(b: Backend, s: State, pc: Pc) {
    match pc
    case Connecting(_) => s.loaded
    case Setup(_, _) => s.connected
    case Executing(_, _) => s.connected
    case Unloading => !s.connected && (b == Pgsql ==> s.handle == 0)
    case _ => true
  }

  ghost predicate Inv(b: Backend, s: State) {
    && Linked(b, s)
    && forall t: nat :: InBackend(PcOf(s, t)) ==> s.holder == t && Expects(b, s, PcOf(s, t))
  }

  lemma ClosedBetweenGrows(trace: seq<Event>, e: Event, h: nat, i: nat, j: nat)
    requires j <= |trace| && ClosedBetween(trace, h, i, j)
    ensures ClosedBetween(trace + [e], h, i, j) && ClosedBetween(trace + [e], h, i, |trace| + 1)
  {
    var k :| i < k < j && trace[k] == Close(h);
    assert (trace + [e])[k] == Close(h);
  }

  // One more event keeps a trace safe.
  lemma SafeAppend(trace: seq<Event>, e: Event)
    requires Safe(trace)
    requires e.Load? || LoadedAfter(trace)
    requires e.Exec? || e.Close? ==> NotClosed(trace, e.h)
    requires e.Exec? ==> Open(e.h, true) in trace
    requires e.Open? && e.good ==> AllClosedBut(trace, 0) && IdsBelow(trace, e.h)
    ensures Safe(trace + [e])
  {
    var after := trace + [e];
    forall i | 0 <= i < |after| && !after[i].Load?
      ensures LoadedAfter(after[..i])
    {
      assert after[..i] == trace[..i];
      assert trace[..|trace|] == trace;
    }
    forall i, j | 0 <= i < j < |after| && after[i].Open? && after[i].good && after[j].Open? && after[j].good
      ensures ClosedBetween(after, after[i].h, i, j)
    {
      ClosedBetweenGrows(trace, e, trace[i].h, i, j);
    }
    forall j | 0 <= j < |after| && after[j].Exec?
      ensures exists i :: 0 <= i < j && after[i] == Open(after[j].h, true)
    {
      var i :| 0 <= i < j && trace[i] == Open(after[j].h, true);
      assert after[i] == trace[i];
    }
  }

  lemma LoadedAppend(trace: seq<Event>, e: Event)
    ensures LoadedAfter(trace + [e]) == (e.Load? || (!e.Unload? && LoadedAfter(trace)))
  {}

  lemma StillClosed(trace: seq<Event>, e: Event, h: nat)
    requires AllClosedBut(trace, h)
    ensures !(e.Open? && e.good) ==> AllClosedBut(trace + [e], h)
    ensures e.Open? && e.good && h == 0 && IdsBelow(trace, e.h) ==> AllClosedBut(trace + [e], e.h)
    ensures e == Close(h) ==> AllClosedBut(trace + [e], 0)
  {
    var after := trace + [e];
    forall i | 0 <= i < |trace| && trace[i].Open? && trace[i].good && trace[i].h != h
      ensures ClosedBetween(after, trace[i].h, i, |after|)
    {
      ClosedBetweenGrows(trace, e, trace[i].h, i, |trace|);
    }
    if e == Close(h) {
      assert after[|trace|] == Close(h);
      assert forall i :: 0 <= i < |trace| ==> ClosedBetween(after, h, i, |after|);
    }
  }

  // Every library call the machine makes keeps the link between state and trace.
  lemma LoadKeeps(b: Backend, s: State)
    requires Linked(b, s) && !s.loaded
    ensures Linked(b, Log(s, Load).(loaded := true))
  {
    SafeAppend(s.trace, Load);
    LoadedAppend(s.trace, Load);
    StillClosed(s.trace, Load, 0);
  }

  lemma UnloadKeeps(b: Backend, s: State)
    requires Linked(b, s) && s.loaded && !s.connected && (b == Pgsql ==> s.handle == 0)
    ensures Linked(b, Log(s, Unload).(loaded := false))
  {
    SafeAppend(s.trace, Unload);
    LoadedAppend(s.trace, Unload);
    StillClosed(s.trace, Unload, 0);
  }

  lemma ExecKeeps(b: Backend, s: State)
    requires Linked(b, s) && s.connected
    ensures Linked(b, Log(s, Exec(s.handle)))
  {
    SafeAppend(s.trace, Exec(s.handle));
    LoadedAppend(s.trace, Exec(s.handle));
    StillClosed(s.trace, Exec(s.handle), s.handle);
  }

  lemma OpenKeeps(b: Backend, s: State, ok: bool)
    requires Linked(b, s) && s.loaded && !s.connected
    ensures var s' := Log(s, Open(s.next, ok)).(handle := s.next, next := s.next + 1);
            Linked(b, if ok then s'.(connected := true) else s')
  {
    var e := Open(s.next, ok);
    SafeAppend(s.trace, e);
    LoadedAppend(s.trace, e);
    StillClosed(s.trace, e, 0);
    assert (s.trace + [e])[|s.trace|] == e;
  }

  lemma ClosedKeeps(b: Backend, s: State)
    requires Linked(b, s)
    ensures Linked(b, Closed(b, s)) && !Closed(b, s).connected && (b == Pgsql ==> Closed(b, s).handle == 0)
  {
    hide Safe, LoadedAfter, ClosedBetween;
    var e := Close(s.handle);
    if (b == Sqlite3 && s.connected) || (b == Pgsql && s.handle != 0) {
      SafeAppend(s.trace, e);
      LoadedAppend(s.trace, e);
      StillClosed(s.trace, e, if s.connected then s.handle else 0);
    }
  }

  // A step at a program point whose expectations hold keeps the link.
  lemma StepLinked(b: Backend, s: State, t: nat, c: Choice)
    requires Linked(b, s) && Expects(b, s, PcOf(s, t))
    ensures Linked(b, Step(b, s, t, c))
  {
    hide Safe, IdsBelow, AllClosedBut, NotClosed, LoadedAfter;
    match PcOf(s, t)
    case Loading(op) =>
      if !s.loaded && c.ok {
        LoadKeeps(b, s);
        UnloadKeeps(b, Log(s, Load).(loaded := true));
      }
    case Connecting(op) =>
      if !s.connected {
        OpenKeeps(b, s, c.ok);
      }
    case Setup(op, left) => ExecKeeps(b, s);
    case Executing(op, stage) => ExecKeeps(b, s);
    case InnerClose => ClosedKeeps(b, s);
    case OuterClose => ClosedKeeps(b, s);
    case Disconnecting => ClosedKeeps(b, s);
    case Unloading =>
      if s.loaded {
        UnloadKeeps(b, s);
      }
    case _ =>
  }

  // It moves only its own thread.
  lemma StepMovesOne(b: Backend, s: State, t: nat, c: Choice, u: nat)
    requires u != t
    ensures PcOf(Step(b, s, t, c), u) == PcOf(s, u)
  {
    hide AfterStage, Closed;
    SamePcs(b, s);
    match PcOf(s, t)
    case Idle =>
    case Waiting(_) =>
    case Entered(_) =>
    case Loading(_) =>
    case Connecting(_) =>
    case Setup(_, _) =>
    case Executing(_, _) =>
    case InnerClose =>
    case OuterClose =>
    case Disconnecting =>
    case Unloading =>
    case Unlock =>
  }

  lemma SamePcs(b: Backend, s: State)
    ensures Closed(b, s).pcs == s.pcs
  {}

  // It moves it to a point whose expectations hold, inside only with the mutex.
  lemma StepExpects(b: Backend, s: State, t: nat, c: Choice)
    requires Linked(b, s) && Expects(b, s, PcOf(s, t))
    requires InBackend(PcOf(s, t)) ==> s.holder == t
    ensures var s' := Step(b, s, t, c);
      InBackend(PcOf(s', t)) ==> s'.holder == t && Expects(b, s', PcOf(s', t))
  {
    hide Linked;
    if PcOf(s, t) == Disconnecting {
      ClosedKeeps(b, s);
    }
  }

  // Every step of every thread keeps the invariant.
  lemma StepKeeps(b: Backend, s: State, t: nat, c: Choice)
    requires Inv(b, s)
    ensures Inv(b, Step(b, s, t, c))
  {
    hide Linked, Step, PcOf;
    StartsAnywhere(b, s, t);
    StepLinked(b, s, t, c);
    StepExpects(b, s, t, c);
    OthersWait(b, s, t, c);
    forall u: nat | u != t
      ensures PcOf(Step(b, s, t, c), u) == PcOf(s, u)
    {
      StepMovesOne(b, s, t, c, u);
    }
  }

  lemma StartsAnywhere(b: Backend, s: State, t: nat)
    requires Inv(b, s)
    ensures Expects(b, s, PcOf(s, t))
  {}

  // While a thread is inside, the others do not depend on anything it changes.
  lemma OthersWait(b: Backend, s: State, t: nat, c: Choice)
    requires Inv(b, s)
    ensures forall u: nat :: u != t && InBackend(PcOf(s, u)) ==>
      Step(b, s, t, c).holder == u && Expects(b, Step(b, s, t, c), PcOf(s, u))
  {}

  // In every interleaving at most one thread is inside, and what the library sees is safe.
  lemma {:induction false} EveryRunSafe(b: Backend, schedule: seq<(nat, Choice)>)
    ensures var s := Run(b, schedule); Inv(b, s) && OneInside(s) && Safe(s.trace)
  {
    if schedule == [] {
    } else {
      var n := |schedule| - 1;
      EveryRunSafe(b, schedule[..n]);
      StepKeeps(b, Run(b, schedule[..n]), schedule[n].0, schedule[n].1);
    }
  }

  // ---------- what a completed call does ----------

  function Good(op: Op): Choice { Choice(op, true, true) }

  // Thread t takes n steps, and every answer is good.
  function Work(b: Backend, s: State, t: nat, op: Op, n: nat): State
    decreases n
  {
    if n == 0 then s else Work(b, Step(b, s, t, Good(op)), t, op, n - 1)
  }

  lemma {:induction false} WorkOn(b: Backend, s: State, t: nat, op: Op, m: nat, n: nat)
    ensures Work(b, s, t, op, m + n) == Work(b, Work(b, s, t, op, m), t, op, n)
    decreases m
  {
    hide Step;
    if m > 0 {
      WorkOn(b, Step(b, s, t, Good(op)), t, op, m - 1, n);
    }
  }

  function Times(e: Event, n: nat): seq<Event> {
    if n == 0 then [] else [e] + Times(e, n - 1)
  }

  // The thread stands at pc inside the mutex, and the library calls since s are these.
  ghost predicate Stands(s: State, r: State, t: nat, pc: Pc, events: seq<Event>) {
    PcOf(r, t) == pc && r.holder == t && r.trace == s.trace + events
  }

  ghost predicate SameBackend(s: State, r: State) {
    r.loaded == s.loaded && r.connected == s.connected && r.handle == s.handle && r.next == s.next
  }

  lemma Enters(b: Backend, s: State, t: nat, op: Op)
    requires PcOf(s, t) == Idle && s.holder == -1 && (op == Query || op == Update)
    ensures var r := Work(b, s, t, op, 3); Stands(s, r, t, Loading(op), []) && SameBackend(s, r)
  {
    var s1 := Step(b, s, t, Good(op));
    var s2 := Step(b, s1, t, Good(op));
    var s3 := Step(b, s2, t, Good(op));
    assert PcOf(s1, t) == Waiting(op) && PcOf(s2, t) == Entered(op);
    assert Work(b, s2, t, op, 1) == s3 && Work(b, s1, t, op, 2) == s3;
    assert s.trace + [] == s.trace;
  }

  lemma Loads(b: Backend, s: State, t: nat, op: Op)
    requires PcOf(s, t) == Loading(op) && s.holder == t
    ensures var r := Work(b, s, t, op, 1);
      && Stands(s, r, t, Connecting(op), if s.loaded then [] else [Load])
      && r.loaded && r.connected == s.connected && r.handle == s.handle && r.next == s.next
  {
    var s1 := Step(b, s, t, Good(op));
    assert Work(b, s, t, op, 1) == s1;
    assert s.trace + [] == s.trace;
  }

  lemma {:induction false} SetsUp(b: Backend, s: State, t: nat, op: Op, left: nat)
    requires PcOf(s, t) == Setup(op, left) && s.holder == t
    ensures var r := Work(b, s, t, op, left + 1);
      Stands(s, r, t, Executing(op, 0), Times(Exec(s.handle), left)) && SameBackend(s, r)
    decreases left
  {
    var s1 := Step(b, s, t, Good(op));
    if left == 0 {
      assert Work(b, s, t, op, 1) == s1;
      assert s.trace + [] == s.trace;
    } else {
      assert PcOf(s1, t) == Setup(op, left - 1);
      SetsUp(b, s1, t, op, left - 1);
      var e := Times(Exec(s.handle), left - 1);
      assert s.trace + [Exec(s.handle)] + e == s.trace + ([Exec(s.handle)] + e);
    }
  }

  // A new connection: the open, and for SQLITE3 the three PRAGMA statements.
  function ConnectEvents(b: Backend, h: nat): seq<Event> {
    if b == Sqlite3 then [Open(h, true), Exec(h), Exec(h), Exec(h)] else [Open(h, true)]
  }

  lemma Connects(b: Backend, s: State, t: nat, op: Op) returns (n: nat)
    requires PcOf(s, t) == Connecting(op) && s.holder == t && s.loaded
    ensures var r := Work(b, s, t, op, n);
      && Stands(s, r, t, Executing(op, 0), if s.connected then [] else ConnectEvents(b, s.next))
      && r.loaded && r.connected && r.handle == if s.connected then s.handle else s.next
  {
    var s1 := Step(b, s, t, Good(op));
    assert Work(b, s, t, op, 1) == s1;
    assert s.trace + [] == s.trace;
    n := 1;
    if !s.connected && b == Sqlite3 {
      assert PcOf(s1, t) == Setup(op, 3) && s1.trace == s.trace + [Open(s.next, true)];
      SetsUp(b, s1, t, op, 3);
      var e := Exec(s.next);
      assert Times(e, 1) == [e] && Times(e, 2) == [e, e] && Times(e, 3) == [e, e, e];
      assert s.trace + [Open(s.next, true)] + [e, e, e] == s.trace + [Open(s.next, true), e, e, e];
      n := 5;
    }
  }

  // The statements of a call: exec and changes, and last_insert_rowid of an update, or BEGIN, the statements, END.
  function CallLength(b: Backend, op: Op): nat {
    if b == Sqlite3 then (if op == Update then 3 else 2) else (if op == Query then 5 else 3)
  }

  lemma ExecutesOne(b: Backend, s: State, t: nat, op: Op, stage: nat)
    requires PcOf(s, t) == Executing(op, stage) && s.holder == t && (op == Query || op == Update)
    requires stage < CallLength(b, op)
    ensures var r := Step(b, s, t, Good(op));
      var next := if stage + 1 == CallLength(b, op) then Unlock else Executing(op, stage + 1);
      Stands(s, r, t, next, [Exec(s.handle)]) && SameBackend(s, r)
  {}

  lemma {:induction false} Executes(b: Backend, s: State, t: nat, op: Op, stage: nat)
    requires PcOf(s, t) == Executing(op, stage) && s.holder == t && (op == Query || op == Update)
    requires stage < CallLength(b, op)
    ensures var n := CallLength(b, op) - stage;
      var r := Work(b, s, t, op, n);
      Stands(s, r, t, Unlock, Times(Exec(s.handle), n)) && SameBackend(s, r)
    decreases CallLength(b, op) - stage
  {
    hide Step, CallLength, PcOf;
    ExecutesOne(b, s, t, op, stage);
    var s1 := Step(b, s, t, Good(op));
    var n := CallLength(b, op) - stage;
    var e := Times(Exec(s.handle), n - 1);
    if n == 1 {
      assert Work(b, s, t, op, 1) == s1;
      assert e == [] && Times(Exec(s.handle), 1) == [Exec(s.handle)];
    } else {
      Executes(b, s1, t, op, stage + 1);
      assert s.trace + [Exec(s.handle)] + e == s.trace + ([Exec(s.handle)] + e);
    }
  }

  // What a query or an update does to the library when every answer is good.
  function CallEvents(b: Backend, op: Op, s: State): seq<Event> {
    (if s.loaded then [] else [Load])
    + (if s.connected then [] else ConnectEvents(b, s.next))
    + Times(Exec(if s.connected then s.handle else s.next), CallLength(b, op))
  }

  // A call that is alone and meets no failure loads and connects only if needed, executes its statements on the
  // open handle, stays connected and gives the mutex back.
  lemma CallCompletes(b: Backend, s: State, t: nat, op: Op) returns (n: nat)
    requires PcOf(s, t) == Idle && s.holder == -1 && (op == Query || op == Update)
    ensures var r := Work(b, s, t, op, n);
      && PcOf(r, t) == Idle && r.holder == -1 && r.loaded && r.connected
      && r.trace == s.trace + CallEvents(b, op, s)
  {
    hide Work, CallLength, Times, ConnectEvents, Step, PcOf;
    LengthIs(b, op);
    Enters(b, s, t, op);
    var s1 := Work(b, s, t, op, 3);
    Loads(b, s1, t, op);
    var s2 := Work(b, s1, t, op, 1);
    var k := Connects(b, s2, t, op);
    var s3 := Work(b, s2, t, op, k);
    Executes(b, s3, t, op, 0);
    var m := CallLength(b, op);
    var s4 := Work(b, s3, t, op, m);
    Leaves(b, s4, t, op);
    WorkOn(b, s, t, op, 3, 1);
    WorkOn(b, s, t, op, 4, k);
    WorkOn(b, s, t, op, 4 + k, m);
    WorkOn(b, s, t, op, 4 + k + m, 1);
    n := 4 + k + m + 1;
    var e1 := if s.loaded then [] else [Load];
    var e2 := if s.connected then [] else ConnectEvents(b, s.next);
    var e3 := Times(Exec(s3.handle), m);
    assert s4.trace == s.trace + [] + e1 + e2 + e3;
    assert s.trace + [] + e1 + e2 + e3 == s.trace + (e1 + e2 + e3);
  }

  lemma LengthIs(b: Backend, op: Op)
    ensures CallLength(b, op) > 0
  {}

  lemma Leaves(b: Backend, s: State, t: nat, op: Op)
    requires PcOf(s, t) == Unlock
    ensures var r := Work(b, s, t, op, 1);
      PcOf(r, t) == Idle && r.holder == -1 && r.trace == s.trace && SameBackend(s, r)
  {
    var s1 := Step(b, s, t, Good(op));
    assert Work(b, s, t, op, 1) == s1;
  }

  // A disconnect closes what is open and unloads what is loaded.
  lemma DisconnectCompletes(b: Backend, s: State, t: nat)
    requires PcOf(s, t) == Entered(Disconnect) && s.holder == t && (b == Pgsql && s.connected ==> s.handle != 0)
    ensures var r := Work(b, s, t, Disconnect, 4);
      && PcOf(r, t) == Idle && r.holder == -1 && !r.loaded && !r.connected
      && r.trace == s.trace
           + (if s.connected || (b == Pgsql && s.handle != 0) then [Close(s.handle)] else [])
           + (if s.loaded then [Unload] else [])
  {
    var c := Good(Disconnect);
    var s1 := Step(b, s, t, c);
    var s2 := Step(b, s1, t, c);
    var s3 := Step(b, s2, t, c);
    var s4 := Step(b, s3, t, c);
    assert PcOf(s1, t) == Disconnecting && PcOf(s2, t) == Unloading && PcOf(s3, t) == Unlock;
    assert Work(b, s3, t, Disconnect, 1) == s4 && Work(b, s2, t, Disconnect, 2) == s4;
    assert Work(b, s1, t, Disconnect, 3) == s4;
    assert s.trace + [] + [] == s.trace && s.trace + [] == s.trace;
  }

  // ---------- what a failing statement does ----------

  function Bad(op: Op): Choice { Choice(op, false, true) }

  // SQLITE3: the number of changes is still asked for; a failed query closes the connection, a failed update does not.
  lemma SqliteFails(s: State, t: nat, op: Op)
    requires PcOf(s, t) == Executing(op, 0) && s.holder == t && s.connected && (op == Query || op == Update)
    ensures var s1 := Step(Sqlite3, s, t, Bad(op));
      var s2 := Step(Sqlite3, s1, t, Good(op));
      var s3 := Step(Sqlite3, s2, t, Good(op));
      && (op == Query ==> Stands(s, s3, t, Unlock, [Exec(s.handle), Exec(s.handle), Close(s.handle)]) && !s3.connected)
      && (op == Update ==> Stands(s, s2, t, Unlock, [Exec(s.handle), Exec(s.handle)]) && SameBackend(s, s2))
  {
    var s1 := Step(Sqlite3, s, t, Bad(op));
    var s2 := Step(Sqlite3, s1, t, Good(op));
    assert s1.trace == s.trace + [Exec(s.handle)] && s2.trace == s.trace + [Exec(s.handle)] + [Exec(s.handle)];
    assert op == Query ==> PcOf(s2, t) == OuterClose;
  }

  // PGSQL queries: a failed BEGIN, DECLARE or FETCH closes the connection, once; CLOSE and END are not looked at.
  lemma PgsqlQueryFails(s: State, t: nat, stage: nat)
    requires PcOf(s, t) == Executing(Query, stage) && s.holder == t && s.connected && s.handle != 0 && stage <= 4
    ensures var s1 := Step(Pgsql, s, t, Bad(Query));
      var s3 := Step(Pgsql, Step(Pgsql, s1, t, Good(Query)), t, Good(Query));
      && (stage <= 2 ==> Stands(s, s3, t, Unlock, [Exec(s.handle), Close(s.handle)]) && !s3.connected && s3.handle == 0)
      && (stage >= 3 ==> s1 == Step(Pgsql, s, t, Good(Query)))
  {
    var s1 := Step(Pgsql, s, t, Bad(Query));
    var s2 := Step(Pgsql, s1, t, Good(Query));
    assert s1.trace == s.trace + [Exec(s.handle)];
    assert stage <= 2 ==> PcOf(s1, t) == InnerClose && PcOf(s2, t) == OuterClose;
  }

  // PGSQL updates: a failed BEGIN or statement ends the call and leaves the connection; END is not looked at.
  lemma PgsqlUpdateFails(s: State, t: nat, stage: nat)
    requires PcOf(s, t) == Executing(Update, stage) && s.holder == t && stage <= 2
    ensures var r := Step(Pgsql, s, t, Bad(Update)); Stands(s, r, t, Unlock, [Exec(s.handle)]) && SameBackend(s, r)
  {}

  // The statements that are left out: no table for the rows of a SQLITE3 query, no result object of an update, and no
  // memory for DECLARE.
  lemma LeftOut(s: State, t: nat, ok: bool)
    requires s.holder == t
    ensures PcOf(s, t) == Executing(Query, 0) ==>
      Stands(s, Step(Sqlite3, s, t, Choice(Query, ok, false)), t, OuterClose, [])
    ensures PcOf(s, t) == Executing(Update, 0) ==>
      s.trace + [Exec(s.handle)] == Step(Sqlite3, s, t, Choice(Update, ok, false)).trace
    ensures PcOf(s, t) == Executing(Update, 1) ==>
      Stands(s, Step(Sqlite3, s, t, Choice(Update, ok, false)), t, Executing(Update, 2), [])
    ensures PcOf(s, t) == Executing(Update, 10) ==>
      Stands(s, Step(Sqlite3, s, t, Choice(Update, ok, false)), t, Unlock, [])
    ensures PcOf(s, t) == Executing(Query, 1) ==>
      && Stands(s, Step(Pgsql, s, t, Choice(Query, false, false)), t, InnerClose, [])
      && Stands(s, Step(Pgsql, s, t, Choice(Query, true, false)), t, Executing(Query, 2), [Exec(s.handle)])
    ensures PcOf(s, t) == Executing(Query, 0) ==>
      Step(Pgsql, s, t, Choice(Query, ok, false)).trace == s.trace + [Exec(s.handle)]
  {
    assert s.trace + [] == s.trace;
  }

  // An empty query, a library that is not there or lacks a symbol, and a failed open end the call.
  lemma EarlyFailures(b: Backend, s: State, t: nat, op: Op)
    requires s.holder == t && op != Disconnect
    ensures var bad := Choice(op, false, true);
      && (PcOf(s, t) == Entered(op) ==> Stands(s, Step(b, s, t, bad), t, Unlock, []))
      && (PcOf(s, t) == Loading(op) && !s.loaded ==>
            && Stands(s, Step(b, s, t, bad), t, Unlock, [])
            && Stands(s, Step(b, s, t, Choice(op, true, false)), t, Unlock, [Load, Unload]))
      && (PcOf(s, t) == Connecting(op) && !s.connected ==>
            Stands(s, Step(b, s, t, bad), t, Unlock, [Open(s.next, false)]) && !Step(b, s, t, bad).connected)
  {
    assert s.trace + [] == s.trace && s.trace + [Load] + [Unload] == s.trace + [Load, Unload];
  }
}
