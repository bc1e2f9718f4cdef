/**
 Callers of UpsertPeer and DeletePeer interleaved statement by statement. The database handle is
 capped at one connection (internal/store/store.go:56), which a transaction holds from BeginTx to
 Commit or Rollback; every other caller waits for it. Each caller runs one operation.
 */
module Transactions {
  import opened Text
  import opened Ipv4
  import opened Allocator
  import opened PeerStore
  import opened PeerRuns

  datatype Reply = Answer(out: Outcome) | Removed | Aborted

  /**
   How far a caller has come: the statements of its transaction, one by one. Spinning is a caller whose
   transaction was rolled back under an endless scan: it never returns.
   */
  datatype Phase =
    | Waiting
    | Begun
    | LookedUpId(existing: Option<Peer>)
    | LookedUpKey(existing: Option<Peer>)
    | Picked(cidr: string)
    | Written(work: Table, out: Outcome)
    | Spinning
    | Done(reply: Reply)
  {
    predicate InTx() { !Waiting? && !Spinning? && !Done? }
  }

  /** The committed table, the caller holding the connection, all callers, and the order they finished in. */
  datatype Sys = Sys(table: Table, conn: Option<nat>, phases: seq<Phase>, log: seq<nat>)

  datatype Event = Step(caller: nat) | Cancel(caller: nat)

  // ---- one statement ----

  /** Ends caller i's transaction with table t, giving the connection back. */
  ghost function Finish(s: Sys, i: nat, t: Table, reply: Reply): Sys
    requires i < |s.phases|
  {
    Sys(t, None, s.phases[i := Done(reply)], s.log + [i])
  }

  ghost function Goto(s: Sys, i: nat, p: Phase): Sys
    requires i < |s.phases|
  {
    s.(phases := s.phases[i := p])
  }

  /** The UPDATE or INSERT inside the transaction; a violated UNIQUE column rolls back. */
  ghost function WriteStep(s: Sys, i: nat, p: Peer): Sys
    requires i < |s.phases|
  {
    var (work, out) := Write(s.table, p);
    if out.Stored? then Goto(s, i, Written(work, out)) else Finish(s, i, s.table, Answer(out))
  }

  ghost function UpsertStep(s: Sys, subnet: string, i: nat, req: Request, creds: Creds, now: int): Sys
    requires i < |s.phases|
  {
    match s.phases[i]
    case Waiting => if s.conn.None? then Goto(s, i, Begun).(conn := Some(i)) else s
    case Begun => Goto(s, i, LookedUpId(if req.id in s.table then Some(s.table[req.id]) else None))
    case LookedUpId(existing) =>
      Goto(s, i, LookedUpKey(if existing.Some? || req.wgKey == "" then existing else ByKey(s.table, req.wgKey)))
    case LookedUpKey(Some(p)) => WriteStep(s, i, Refreshed(p, req, now))
    case LookedUpKey(None) => (
      match Allocate(Taken(s.table), subnet)
      case Refused(e) => Finish(s, i, s.table, Answer(Failed(Allocation(e))))
      case Endless => s
      case Allocated(cidr) => Goto(s, i, Picked(cidr)))
    case Picked(cidr) => WriteStep(s, i, Created(req, cidr, creds, now))
    case Written(work, out) => Finish(s, i, work, Answer(out))
    case Spinning => s
    case Done(_) => s
  }

  /** One event: caller i executes its next statement, or its context is cancelled and it rolls back. */
  ghost function Next(s: Sys, subnet: string, ops: seq<Op>, e: Event): (s': Sys)
    requires |s.phases| == |ops|
    ensures |s'.phases| == |ops|
  {
    var i := e.caller;
    if i >= |ops| then s
    else if e.Cancel? then
      if s.phases[i].Done? || s.phases[i].Spinning? then s
      else
        var endless := s.phases[i] == LookedUpKey(None) && Allocate(Taken(s.table), subnet).Endless?;
        Goto(s, i, if endless then Spinning else Done(Aborted)).(conn := if s.conn == Some(i) then None else s.conn)
    else
      match ops[i]
      case UpsertOp(req, creds, now) => UpsertStep(s, subnet, i, req, creds, now)
      case DeleteOp(id) =>
        if s.phases[i].Waiting? && s.conn.None? then Finish(s, i, s.table - {id}, Removed) else s
  }

  ghost function Start(t: Table, n: nat): Sys {
    Sys(t, None, seq(n, _ => Waiting), [])
  }

  /** The system after a schedule of events. */
  ghost function Interleave(t: Table, subnet: string, ops: seq<Op>, events: seq<Event>): (s: Sys)
    ensures |s.phases| == |ops|
  {
    if events == [] then Start(t, |ops|)
    else Next(Interleave(t, subnet, ops, events[..|events| - 1]), subnet, ops, events[|events| - 1])
  }

  // ---- serial meaning ----

  ghost predicate Indices(log: seq<nat>, n: nat) {
    forall k :: 0 <= k < |log| ==> log[k] < n
  }

  /** The operations in the order they finished. */
  ghost function Order(ops: seq<Op>, log: seq<nat>): (r: seq<Op>)
    requires Indices(log, |ops|)
    ensures |r| == |log|
  {
    seq(|log|, k requires 0 <= k < |log| => ops[log[k]])
  }

  /** The reply a serial execution on table t gives. */
  ghost function SerialReply(t: Table, subnet: string, op: Op): Reply {
    match op
    case UpsertOp(req, creds, now) => Answer(Upsert(t, req, subnet, creds, now).1)
    case DeleteOp(_) => Removed
  }

  /** Inside its transaction a caller knows exactly what a serial upsert on the committed table would. */
  ghost predicate Local(t: Table, subnet: string, op: Op, p: Phase) {
    && (p.InTx() ==> op.UpsertOp?)
    && (p.LookedUpId? ==> p.existing == if op.req.id in t then Some(t[op.req.id]) else None)
    && (p.LookedUpKey? ==> p.existing == Find(t, op.req))
    && (p.Picked? ==> Find(t, op.req).None? && Allocate(Taken(t), subnet) == Allocated(p.cidr))
    && (p.Written? ==> p.out.Stored? && (p.work, p.out) == Upsert(t, op.req, subnet, op.creds, op.now))
  }

  /** Exactly the holder of the connection is inside a transaction. */
  ghost predicate Exclusive(s: Sys) {
    forall i :: 0 <= i < |s.phases| ==> (s.phases[i].InTx() <==> s.conn == Some(i))
  }

  /** A caller is in the log exactly once it has finished uncancelled, and no caller is logged twice. */
  ghost predicate Logged(s: Sys) {
    && Indices(s.log, |s.phases|)
    && (forall j, k :: 0 <= j < k < |s.log| ==> s.log[j] != s.log[k])
    && (forall i :: 0 <= i < |s.phases| ==> (i in s.log <==> s.phases[i].Done? && s.phases[i].reply != Aborted))
  }

  /** The committed table and every reply are those of the serial run in log order. */
  ghost predicate Serial(s: Sys, t: Table, subnet: string, ops: seq<Op>)
    requires |s.phases| == |ops| && Indices(s.log, |ops|)
  {
    && s.table == Run(t, subnet, Order(ops, s.log))
    && forall k :: 0 <= k < |s.log| && s.phases[s.log[k]].Done? ==>
         s.phases[s.log[k]].reply == SerialReply(Run(t, subnet, Order(ops, s.log)[..k]), subnet, ops[s.log[k]])
  }

  ghost predicate Inv(s: Sys, t: Table, subnet: string, ops: seq<Op>) {
    && |s.phases| == |ops| && Exclusive(s) && Logged(s) && Serial(s, t, subnet, ops)
    && (forall i :: 0 <= i < |ops| ==> Local(s.table, subnet, ops[i], s.phases[i]))
    && forall i :: 0 <= i < |ops| ==> s.phases[i] != Done(Answer(Hangs))
  }

  // ---- preservation ----

  lemma OrderAppend(ops: seq<Op>, log: seq<nat>, i: nat)
    requires Indices(log, |ops|) && i < |ops|
    ensures Indices(log + [i], |ops|) && Order(ops, log + [i]) == Order(ops, log) + [ops[i]]
  {
  }

  lemma RunAppend(t: Table, subnet: string, ops: seq<Op>, op: Op)
    ensures Run(t, subnet, ops + [op]) == Exec(Run(t, subnet, ops), subnet, op)
  {
    assert (ops + [op])[..|ops|] == ops;
  }

  /** Moving caller i inside its transaction keeps the invariant when its knowledge stays serial. */
  lemma GotoKeeps(s: Sys, t: Table, subnet: string, ops: seq<Op>, i: nat, p: Phase)
    requires Inv(s, t, subnet, ops) && i < |ops| && s.phases[i].InTx() && p.InTx()
    requires Local(s.table, subnet, ops[i], p)
    ensures Inv(Goto(s, i, p), t, subnet, ops)
  {
    hide Local, Run, SerialReply;
    var s' := Goto(s, i, p);
    assert forall k :: 0 <= k < |s.log| ==> s.log[k] in s.log;
    assert forall k :: 0 <= k < |s.log| ==> s'.phases[s.log[k]] == s.phases[s.log[k]];
  }

  lemma FinishLogged(s: Sys, i: nat, table: Table, reply: Reply)
    requires Logged(s) && i < |s.phases| && !s.phases[i].Done? && reply != Aborted
    ensures Logged(Finish(s, i, table, reply)) && i !in s.log
  {
    var s' := Finish(s, i, table, reply);
    assert forall k :: 0 <= k < |s'.log| ==> s'.log[k] == if k < |s.log| then s.log[k] else i;
    assert forall k :: 0 <= k < |s.log| ==> s.log[k] in s.log;
  }

  lemma FinishSerial(s: Sys, t: Table, subnet: string, ops: seq<Op>, i: nat, table: Table, reply: Reply)
    requires |s.phases| == |ops| && Indices(s.log, |ops|) && Serial(s, t, subnet, ops)
    requires i < |ops| && i !in s.log && Indices(s.log + [i], |ops|)
    requires table == Exec(s.table, subnet, ops[i]) && reply == SerialReply(s.table, subnet, ops[i])
    ensures Serial(Finish(s, i, table, reply), t, subnet, ops)
  {
    hide Run, Exec, SerialReply;
    var s' := Finish(s, i, table, reply);
    var order := Order(ops, s.log);
    OrderAppend(ops, s.log, i);
    RunAppend(t, subnet, order, ops[i]);
    forall k | 0 <= k < |s'.log| && s'.phases[s'.log[k]].Done?
      ensures s'.phases[s'.log[k]].reply
           == SerialReply(Run(t, subnet, Order(ops, s'.log)[..k]), subnet, ops[s'.log[k]])
    {
      assert Order(ops, s'.log)[..k] == order[..k];
      if k < |s.log| {
        assert s.log[k] in s.log;
        assert s'.phases[s'.log[k]] == s.phases[s.log[k]];
      } else {
        assert order[..k] == order;
      }
    }
  }

  /** Finishing with the table and reply of a serial execution appends that execution to the run. */
  lemma FinishKeeps(s: Sys, t: Table, subnet: string, ops: seq<Op>, i: nat, table: Table, reply: Reply)
    requires Inv(s, t, subnet, ops) && i < |ops| && !s.phases[i].Done?
    requires s.conn == None || s.conn == Some(i)
    requires table == Exec(s.table, subnet, ops[i]) && reply == SerialReply(s.table, subnet, ops[i])
    requires reply != Answer(Hangs)
    ensures Inv(Finish(s, i, table, reply), t, subnet, ops)
  {
    hide Run, Exec, Serial;
    assert reply != Aborted;
    FinishLogged(s, i, table, reply);
    OrderAppend(ops, s.log, i);
    FinishSerial(s, t, subnet, ops, i, table, reply);
    var s' := Finish(s, i, table, reply);
    forall j | 0 <= j < |ops| ensures Local(s'.table, subnet, ops[j], s'.phases[j]) {
      assert !s'.phases[j].InTx();
    }
  }

  lemma WriteKeeps(s: Sys, t: Table, subnet: string, ops: seq<Op>, i: nat, p: Peer)
    requires Inv(s, t, subnet, ops) && i < |ops| && s.phases[i].InTx() && ops[i].UpsertOp?
    requires Write(s.table, p) == Upsert(s.table, ops[i].req, subnet, ops[i].creds, ops[i].now)
    ensures Inv(WriteStep(s, i, p), t, subnet, ops)
  {
    hide Serial, Logged, Upsert, Clashes;
    var (work, out) := Write(s.table, p);
    if out.Stored? {
      GotoKeeps(s, t, subnet, ops, i, Written(work, out));
    } else {
      FinishKeeps(s, t, subnet, ops, i, s.table, Answer(out));
    }
  }

  lemma UpsertStepKeeps(s: Sys, t: Table, subnet: string, ops: seq<Op>, i: nat)
    requires Inv(s, t, subnet, ops) && i < |ops| && ops[i].UpsertOp? && s.phases[i].InTx()
    ensures Inv(UpsertStep(s, subnet, i, ops[i].req, ops[i].creds, ops[i].now), t, subnet, ops)
  {
    hide Serial, Logged, Write, Allocate, Taken;
    var UpsertOp(req, creds, now) := ops[i];
    assert Local(s.table, subnet, ops[i], s.phases[i]);
    match s.phases[i]
    case Begun =>
      GotoKeeps(s, t, subnet, ops, i, LookedUpId(if req.id in s.table then Some(s.table[req.id]) else None));
    case LookedUpId(existing) =>
      GotoKeeps(s, t, subnet, ops, i,
        LookedUpKey(if existing.Some? || req.wgKey == "" then existing else ByKey(s.table, req.wgKey)));
    case LookedUpKey(Some(p)) =>
      WriteKeeps(s, t, subnet, ops, i, Refreshed(p, req, now));
    case LookedUpKey(None) => {
      match Allocate(Taken(s.table), subnet)
      case Refused(e) => FinishKeeps(s, t, subnet, ops, i, s.table, Answer(Failed(Allocation(e))));
      case Endless =>
      case Allocated(cidr) => GotoKeeps(s, t, subnet, ops, i, Picked(cidr));
    }
    case Picked(cidr) =>
      WriteKeeps(s, t, subnet, ops, i, Created(req, cidr, creds, now));
    case Written(work, out) =>
      FinishKeeps(s, t, subnet, ops, i, work, Answer(out));
  }

  /** Taking the free connection changes nothing else. */
  lemma BeginKeeps(s: Sys, t: Table, subnet: string, ops: seq<Op>, i: nat)
    requires Inv(s, t, subnet, ops) && i < |ops| && ops[i].UpsertOp? && s.phases[i].Waiting? && s.conn.None?
    ensures Inv(Goto(s, i, Begun).(conn := Some(i)), t, subnet, ops)
  {
    hide Run, SerialReply;
    assert i !in s.log;
    assert forall k :: 0 <= k < |s.log| ==> s.log[k] in s.log;
  }

  /** A cancelled caller leaves no trace. */
  lemma CancelKeeps(s: Sys, t: Table, subnet: string, ops: seq<Op>, i: nat)
    requires Inv(s, t, subnet, ops) && i < |ops| && !s.phases[i].Done?
    ensures Inv(Next(s, subnet, ops, Cancel(i)), t, subnet, ops)
  {
    hide Run, SerialReply, Allocate, Taken, Upsert;
    assert i !in s.log;
    assert forall k :: 0 <= k < |s.log| ==> s.log[k] in s.log;
  }

  lemma NextKeeps(s: Sys, t: Table, subnet: string, ops: seq<Op>, e: Event)
    requires Inv(s, t, subnet, ops)
    ensures Inv(Next(s, subnet, ops, e), t, subnet, ops)
  {
    hide Serial, Logged, Upsert;
    var i := e.caller;
    if i < |ops| && !s.phases[i].Done? {
      if e.Cancel? {
        CancelKeeps(s, t, subnet, ops, i);
      } else if ops[i].DeleteOp? {
        assert Local(s.table, subnet, ops[i], s.phases[i]);
        if s.conn.None? {
          FinishKeeps(s, t, subnet, ops, i, s.table - {ops[i].id}, Removed);
        }
      } else if s.phases[i].InTx() {
        UpsertStepKeeps(s, t, subnet, ops, i);
      } else if s.phases[i].Waiting? && s.conn.None? {
        BeginKeeps(s, t, subnet, ops, i);
      }
    }
  }

  lemma StartInv(t: Table, subnet: string, ops: seq<Op>)
    ensures Inv(Start(t, |ops|), t, subnet, ops)
  {
    assert Order(ops, []) == [];
  }

  // ---- theorems ----

  /**
   Every interleaving is serialisable: the committed table is that of running, one after another,
   exactly the operations that finished, and every caller was told what that serial run tells it.
   */
  lemma {:induction false} InterleavingsAreSerial(t: Table, subnet: string, ops: seq<Op>, events: seq<Event>)
    ensures Inv(Interleave(t, subnet, ops, events), t, subnet, ops)
  {
    hide Next, Local, SerialReply, Inv;
    if events == [] {
      StartInv(t, subnet, ops);
    } else {
      var init := events[..|events| - 1];
      InterleavingsAreSerial(t, subnet, ops, init);
      NextKeeps(Interleave(t, subnet, ops, init), t, subnet, ops, events[|events| - 1]);
    }
  }

  // ---- progress ----

  /** Caller i holds the connection, or can take it with its next statement. */
  ghost predicate CanRun(s: Sys, i: nat) {
    i < |s.phases| && (s.phases[i].InTx() || (s.phases[i].Waiting? && s.conn.None?))
  }

  /** At most how many statements a caller has left. */
  ghost function StatementsLeft(p: Phase): nat {
    match p
    case Waiting => 6
    case Begun => 5
    case LookedUpId(_) => 4
    case LookedUpKey(_) => 3
    case Picked(_) => 2
    case Written(_, _) => 1
    case _ => 0
  }

  /** From s to s', caller i has finished as in a serial execution on the table of s, and nothing else has happened. */
  ghost predicate Finished(s: Sys, s': Sys, subnet: string, ops: seq<Op>, i: nat) {
    && |s.phases| == |s'.phases| == |ops| && i < |ops|
    && s'.table == Exec(s.table, subnet, ops[i]) && s'.log == s.log + [i] && s'.conn == None
    && s'.phases == s.phases[i := Done(SerialReply(s.table, subnet, ops[i]))]
  }

  lemma Advance(s: Sys, t: Table, subnet: string, ops: seq<Op>, i: nat)
    requires Inv(s, t, subnet, ops) && CanRun(s, i) && SerialReply(s.table, subnet, ops[i]) != Answer(Hangs)
    ensures
      var s' := Next(s, subnet, ops, Step(i));
      || Finished(s, s', subnet, ops, i)
      || (&& CanRun(s', i) && s'.table == s.table && s'.log == s.log
          && s'.phases == s.phases[i := s'.phases[i]]
          && StatementsLeft(s'.phases[i]) < StatementsLeft(s.phases[i]))
  {
    hide Serial, Logged, Allocate, Taken, Clashes, ByKey, Exclusive;
    assert Local(s.table, subnet, ops[i], s.phases[i]);
  }

  lemma {:induction false} DoneIdles(t: Table, subnet: string, ops: seq<Op>, events: seq<Event>, i: nat, n: nat)
    requires i < |ops| && Interleave(t, subnet, ops, events).phases[i].Done?
    ensures Interleave(t, subnet, ops, events + seq(n, _ => Step(i))) == Interleave(t, subnet, ops, events)
  {
    hide Interleave;
    var steps := seq(n, _ => Step(i));
    if n == 0 {
      assert events + steps == events;
    } else {
      DoneIdles(t, subnet, ops, events, i, n - 1);
      assert events + steps == (events + seq(n - 1, _ => Step(i))) + [Step(i)];
      InterleaveNext(t, subnet, ops, events + seq(n - 1, _ => Step(i)), Step(i));
    }
  }

  lemma {:induction false} StepsFinish(t: Table, subnet: string, ops: seq<Op>, events: seq<Event>, i: nat, n: nat)
    requires
      var s := Interleave(t, subnet, ops, events);
      CanRun(s, i) && n >= StatementsLeft(s.phases[i]) && SerialReply(s.table, subnet, ops[i]) != Answer(Hangs)
    ensures
      var s, s' := Interleave(t, subnet, ops, events), Interleave(t, subnet, ops, events + seq(n, _ => Step(i)));
      Finished(s, s', subnet, ops, i)
    decreases n
  {
    hide Interleave, Next, Inv, SerialReply, Exec;
    var s := Interleave(t, subnet, ops, events);
    InterleavingsAreSerial(t, subnet, ops, events);
    Advance(s, t, subnet, ops, i);
    InterleaveNext(t, subnet, ops, events, Step(i));
    var events1 := events + [Step(i)];
    assert events + seq(n, _ => Step(i)) == events1 + seq(n - 1, _ => Step(i));
    if Interleave(t, subnet, ops, events1).phases[i].Done? {
      DoneIdles(t, subnet, ops, events1, i, n - 1);
    } else {
      StepsFinish(t, subnet, ops, events1, i, n - 1);
    }
  }

  /**
   Whatever has happened before: a caller that holds the connection, or finds it free, finishes within
   six statements of its own with exactly the serial reply and table, unless its scan does not end.
   */
  lemma CallerFinishes(t: Table, subnet: string, ops: seq<Op>, events: seq<Event>, i: nat)
    requires
      var s := Interleave(t, subnet, ops, events);
      CanRun(s, i) && SerialReply(s.table, subnet, ops[i]) != Answer(Hangs)
    ensures
      var s := Interleave(t, subnet, ops, events);
      Finished(s, Interleave(t, subnet, ops, events + seq(6, _ => Step(i))), subnet, ops, i)
  {
    hide Interleave, SerialReply, Finished;
    StepsFinish(t, subnet, ops, events, i, 6);
  }

  /** Caller i is in its transaction, scanning a full block of prefix length 0. */
  ghost predicate HangsIn(s: Sys, subnet: string, ops: seq<Op>, i: nat) {
    && |s.phases| == |ops| && i < |ops| && ops[i].UpsertOp?
    && s.conn == Some(i) && s.phases[i] == LookedUpKey(None) && Allocate(Taken(s.table), subnet).Endless?
  }

  /**
   A caller whose scan does not end keeps the connection until it is cancelled: nobody's statement
   is executed and the table stays as it is, whatever the schedule.
   */
  lemma {:induction false} HangingHoldsAll(t: Table, subnet: string, ops: seq<Op>, before: seq<Event>,
                                           after: seq<Event>, i: nat)
    requires HangsIn(Interleave(t, subnet, ops, before), subnet, ops, i) && Cancel(i) !in after
    ensures
      var s, s' := Interleave(t, subnet, ops, before), Interleave(t, subnet, ops, before + after);
      HangsIn(s', subnet, ops, i) && s'.table == s.table && s'.log == s.log
  {
    hide Next, Interleave, HangsIn, Inv;
    if after == [] {
      assert before + after == before;
    } else {
      var n := |after| - 1;
      HangingHoldsAll(t, subnet, ops, before, after[..n], i);
      var init := before + after[..n];
      assert before + after == init + [after[n]];
      InterleaveNext(t, subnet, ops, init, after[n]);
      InterleavingsAreSerial(t, subnet, ops, init);
      OneHolder(Interleave(t, subnet, ops, init), t, subnet, ops);
      OthersWait(Interleave(t, subnet, ops, init), subnet, ops, after[n], i);
    }
  }

  /** Cancelling such a caller gives the connection back, but the caller never returns. */
  lemma {:induction false} CancelledScanNeverReturns(t: Table, subnet: string, ops: seq<Op>, before: seq<Event>,
                                                     after: seq<Event>, i: nat)
    requires HangsIn(Interleave(t, subnet, ops, before), subnet, ops, i)
    ensures
      var s := Interleave(t, subnet, ops, before + [Cancel(i)]);
      s.conn == None && Interleave(t, subnet, ops, before + [Cancel(i)] + after).phases[i] == Spinning
  {
    hide Next, Interleave, Inv;
    InterleaveNext(t, subnet, ops, before, Cancel(i));
    CancelSpins(Interleave(t, subnet, ops, before), subnet, ops, i);
    var start := before + [Cancel(i)];
    if after == [] {
      assert start + after == start;
    } else {
      var n := |after| - 1;
      CancelledScanNeverReturns(t, subnet, ops, before, after[..n], i);
      assert start + after == (start + after[..n]) + [after[n]];
      InterleaveNext(t, subnet, ops, start + after[..n], after[n]);
      InterleavingsAreSerial(t, subnet, ops, start + after[..n]);
      OneHolder(Interleave(t, subnet, ops, start + after[..n]), t, subnet, ops);
      SpinsOn(Interleave(t, subnet, ops, start + after[..n]), subnet, ops, after[n], i);
    }
  }

  lemma CancelSpins(s: Sys, subnet: string, ops: seq<Op>, i: nat)
    requires HangsIn(s, subnet, ops, i)
    ensures Next(s, subnet, ops, Cancel(i)).phases[i] == Spinning && Next(s, subnet, ops, Cancel(i)).conn == None
  {
    hide Allocate, Taken;
  }

  lemma SpinsOn(s: Sys, subnet: string, ops: seq<Op>, e: Event, i: nat)
    requires |s.phases| == |ops| && i < |ops| && s.phases[i] == Spinning && Exclusive(s)
    ensures Next(s, subnet, ops, e).phases[i] == Spinning
  {
    hide Allocate, Taken, Write, ByKey;
  }

  /** Such a caller is reached: some run of creates fills the block, and one more create scans for ever. */
  lemma HangReached(subnet: string) returns (ops: seq<Op>, op: Op)
    requires ParseCIDR(subnet).Some? && ParseCIDR(subnet).value.prefix == 0
    ensures HangsIn(Interleave(Run(map[], subnet, ops), subnet, [op], [Step(0), Step(0), Step(0)]), subnet, [op], 0)
  {
    hide ParseCIDR, BlockOf, Run, Upsert, Consistent, Placed, Numbered, Allocate, Taken, Interleave, HangsIn;
    var b := BlockOf(ParseCIDR(subnet).value);
    ReservedRoom(ParseCIDR(subnet).value);
    ops := BlockCanBeFilled(subnet, b.size - |b.Reserved()|);
    var t := Run(map[], subnet, ops);
    op := NthCreate(|t|);
    NewNumber(t, |t|);
    CreateSucceedsIffRoom(t, op.req, subnet, op.creds, op.now);
    PlacedIsCanonical(t, b);
    CreateFollowsAllocator(t, op.req, subnet, op.creds, op.now);
    ThreeSteps(t, subnet, op);
  }

  lemma ReservedRoom(s: Cidr)
    requires s.Valid() && s.prefix == 0
    ensures |BlockOf(s).Reserved()| <= BlockOf(s).size
  {
    UsableSize(BlockOf(s));
  }

  /** A create that finds no row gets to its scan in three statements. */
  lemma ThreeSteps(t: Table, subnet: string, op: Op)
    requires op.UpsertOp? && Find(t, op.req).None? && Allocate(Taken(t), subnet).Endless?
    ensures HangsIn(Interleave(t, subnet, [op], [Step(0), Step(0), Step(0)]), subnet, [op], 0)
  {
    hide Allocate, Taken, Interleave;
    var ops := [op];
    NoEventsYet(t, subnet, ops);
    InterleaveNext(t, subnet, ops, [], Step(0));
    InterleaveNext(t, subnet, ops, [Step(0)], Step(0));
    InterleaveNext(t, subnet, ops, [Step(0), Step(0)], Step(0));
    assert [] + [Step(0)] == [Step(0)] && [Step(0)] + [Step(0)] == [Step(0), Step(0)];
    assert [Step(0), Step(0)] + [Step(0)] == [Step(0), Step(0), Step(0)];
  }

  lemma NoEventsYet(t: Table, subnet: string, ops: seq<Op>)
    ensures Interleave(t, subnet, ops, []) == Start(t, |ops|)
  {
  }

  lemma InterleaveNext(t: Table, subnet: string, ops: seq<Op>, events: seq<Event>, e: Event)
    ensures Interleave(t, subnet, ops, events + [e]) == Next(Interleave(t, subnet, ops, events), subnet, ops, e)
  {
    hide Next;
    assert (events + [e])[..|events|] == events;
  }

  lemma OneHolder(s: Sys, t: Table, subnet: string, ops: seq<Op>)
    requires Inv(s, t, subnet, ops)
    ensures |s.phases| == |ops| && Exclusive(s)
  {
  }

  lemma OthersWait(s: Sys, subnet: string, ops: seq<Op>, e: Event, i: nat)
    requires |s.phases| == |ops| && Exclusive(s) && HangsIn(s, subnet, ops, i) && e != Cancel(i)
    ensures
      var s' := Next(s, subnet, ops, e);
      HangsIn(s', subnet, ops, i) && s'.table == s.table && s'.log == s.log
  {
    hide Allocate, Taken, Write, ByKey;
  }

  /** Whatever the schedule, rows stay pairwise distinct in every unique column and placed in the block. */
  lemma InterleavingsKeepTable(t: Table, subnet: string, ops: seq<Op>, events: seq<Event>)
    requires ParseCIDR(subnet).Some?
    requires Consistent(t) && Placed(t, BlockOf(ParseCIDR(subnet).value))
    ensures
      var s := Interleave(t, subnet, ops, events);
      Consistent(s.table) && Placed(s.table, BlockOf(ParseCIDR(subnet).value))
  {
    hide Run, Local, Exclusive, ParseCIDR, Placed, Consistent;
    InterleavingsAreSerial(t, subnet, ops, events);
    RunKeepsTable(t, subnet, Order(ops, Interleave(t, subnet, ops, events).log));
  }

  /**
   Whatever the schedule, an upsert that a UNIQUE column refuses was never refused for its address,
   and was refused for a non-empty key only if it addressed by id a peer that then existed.
   */
  lemma RefusalsAreExplained(t: Table, subnet: string, ops: seq<Op>, events: seq<Event>, k: nat, columns: set<Column>)
    requires ParseCIDR(subnet).Some?
    requires Consistent(t) && Placed(t, BlockOf(ParseCIDR(subnet).value))
    requires
      var s := Interleave(t, subnet, ops, events);
      && k < |s.log| && s.log[k] < |ops| && Indices(s.log, |ops|)
      && s.phases[s.log[k]] == Done(Answer(Failed(Unique(columns))))
    ensures
      var s := Interleave(t, subnet, ops, events);
      var op := ops[s.log[k]];
      && op.UpsertOp? && WGAllowedIP !in columns
      && (WGPublicKey in columns && op.req.wgKey != "" ==>
            op.req.id in Run(t, subnet, Order(ops, s.log)[..k]))
  {
    hide Run, Local, Exclusive, ParseCIDR, Placed, Consistent, Upsert, Logged;
    InterleavingsAreSerial(t, subnet, ops, events);
    var s := Interleave(t, subnet, ops, events);
    var before := Order(ops, s.log)[..k];
    RunKeepsTable(t, subnet, before);
    var op := ops[s.log[k]];
    assert SerialReply(Run(t, subnet, before), subnet, op) == Answer(Failed(Unique(columns)));
    RefusalExplained(Run(t, subnet, before), op.req, subnet, op.creds, op.now);
  }
}
