/**
 The Drop runtime of internal/drop/service.go: identity preparation, health polling and the
 admission of operations. The lock is taken separately by the writable check and the snapshot read
 of an upload, so an upload is two steps and polls may come between them.
 */
module DropService {
  import opened Text

  const MAX_OBJECT_BYTES: int := 1_000_000_000

  const INT64_MAX: int := 0x7FFF_FFFF_FFFF_FFFF

  newtype int64 = x: int | -0x8000_0000_0000_0000 <= x <= 0x7FFF_FFFF_FFFF_FFFF

  /** Two's-complement subtraction. */
  function Sub64(a: int64, b: int64): int64 {
    var d := a as int - b as int;
    if d > INT64_MAX then (d - 0x1_0000_0000_0000_0000) as int64
    else if d < -INT64_MAX - 1 then (d + 0x1_0000_0000_0000_0000) as int64
    else d as int64
  }

  datatype Health = Disabled | Starting | Active | Degraded | Full | Unreachable

  datatype Snapshot = Snapshot(state: Health, version: string, repoSize: int64, storageMax: int64, numObjects: int64)

  /** What one poll of Kubo yields: no version, a version without statistics, or both. */
  datatype Poll = NoAnswer | VersionOnly(version: string) | Stats(version: string, repoSize: int64, numObjects: int64)

  datatype Upload = Upload(declared: int64, maxBytes: int64)

  /** A request that reached Kubo; an upload carries the snapshot it was admitted against. */
  datatype Call = AddCall(upload: Upload, against: Snapshot) | OtherCall

  datatype Reply = ErrDisabled | ErrUnavailable | ErrByteLimit | ErrStorageFull | Passed

  // ---- decisions ----

  function Blank(state: Health, version: string, storageMax: int64): Snapshot {
    Snapshot(state, version, 0, storageMax, 0)
  }

  /** The snapshot refresh takes from a poll. */
  function Refreshed(poll: Poll, storageMax: int64): Snapshot {
    match poll
    case NoAnswer => Blank(Unreachable, "", storageMax)
    case VersionOnly(v) => Blank(Degraded, v, storageMax)
    case Stats(v, size, n) => Snapshot(if size >= storageMax then Full else Active, v, size, storageMax, n)
  }

  /** The limit an upload is passed on with. */
  function EffectiveLimit(maxBytes: int64): int64 {
    if maxBytes <= 0 || maxBytes as int > MAX_OBJECT_BYTES then MAX_OBJECT_BYTES as int64 else maxBytes
  }

  /** The part of Upload after the writable check, up to the size check of AddAndPin. */
  function Admit(u: Upload, snap: Snapshot): Reply {
    if u.declared as int > MAX_OBJECT_BYTES then ErrByteLimit
    else if snap.repoSize >= snap.storageMax || u.declared > Sub64(snap.storageMax, snap.repoSize) then ErrStorageFull
    else if u.declared < 0 || u.declared > EffectiveLimit(u.maxBytes) then ErrByteLimit
    else Passed
  }

  // ---- the service as a state machine ----

  /** An upload past its writable check, and how many events had happened before that check. */
  datatype Pending = Pending(upload: Upload, arrived: nat)

  /** The service's fields, the uploads past their writable check, what reached Kubo, and the number of events. */
  datatype Drop = Drop(
    enabled: bool, storageMax: int64, snapshot: Snapshot, ready: bool, polling: bool,
    pending: seq<Pending>, calls: seq<Call>, clock: nat)
  {
    predicate Operational() {
      ready && (snapshot.state.Active? || snapshot.state.Degraded? || snapshot.state.Full?)
    }

    predicate Writable() {
      ready && snapshot.state.Active?
    }
  }

  datatype Event =
    | Started(prepared: bool)
    | Polled(poll: Poll)
    | UploadArrives(upload: Upload)
    | UploadProceeds(k: nat)
    | Operation

  function NewDrop(enabled: bool, storageMax: int64): Drop {
    Drop(enabled, storageMax, Blank(if enabled then Starting else Disabled, "", storageMax), false, false, [], [], 0)
  }

  function Next(s: Drop, e: Event): Drop {
    Step(s, e).(clock := s.clock + 1)
  }

  function Step(s: Drop, e: Event): Drop {
    match e
    case Started(prepared) =>
      if !s.enabled then s
      else if !prepared then s.(snapshot := Blank(Degraded, "", s.storageMax))
      else s.(ready := true, polling := true)
    case Polled(poll) => if s.polling then s.(snapshot := Refreshed(poll, s.storageMax)) else s
    case UploadArrives(u) =>
      if s.enabled && s.Writable() then s.(pending := s.pending + [Pending(u, s.clock)]) else s
    case UploadProceeds(k) =>
      if k >= |s.pending| then s else
      var u := s.pending[k].upload;
      var s' := s.(pending := s.pending[..k] + s.pending[k + 1..]);
      if Admit(u, s.snapshot).Passed?
      then s'.(calls := s.calls + [AddCall(u.(maxBytes := EffectiveLimit(u.maxBytes)), s.snapshot)])
      else s'
    case Operation => if s.enabled && s.Operational() then s.(calls := s.calls + [OtherCall]) else s
  }

  function Run(s: Drop, events: seq<Event>): Drop {
    if events == [] then s else Next(Run(s, events[..|events| - 1]), events[|events| - 1])
  }

  // ---- the same as an object ----

  class Service {
    const enabled: bool
    const storageMax: int64
    var snapshot: Snapshot
    var identityReady: bool
    var polling: bool
    var pending: seq<Pending>
    var calls: seq<Call>
    var clock: nat

    constructor (enabled: bool, storageMax: int64)
      ensures State() == NewDrop(enabled, storageMax)
    {
      this.enabled, this.storageMax := enabled, storageMax;
      var state := Disabled;
      if enabled {
        state := Starting;
      }
      snapshot := Snapshot(state, "", 0, storageMax, 0);
      identityReady, polling := false, false;
      pending, calls, clock := [], [], 0;
    }

    function State(): Drop
      reads this
    {
      Drop(enabled, storageMax, snapshot, identityReady, polling, pending, calls, clock)
    }

    /** Start: prepares the identity and begins polling; a failed preparation degrades Drop. */
    method Start(prepared: bool) returns (ok: bool)
      modifies this
      ensures State() == Next(old(State()), Started(prepared))
      ensures ok <==> !enabled || prepared
    {
      clock := clock + 1;
      if !enabled {
        return true;
      }
      if !prepared {
        snapshot := Snapshot(Degraded, "", 0, storageMax, 0);
        return false;
      }
      identityReady := true;
      polling := true;
      return true;
    }

    /** refresh, called by the polling loop: one poll of Kubo. */
    method Refresh(poll: Poll)
      requires polling
      modifies this
      ensures State() == Next(old(State()), Polled(poll))
    {
      clock := clock + 1;
      match poll
      case NoAnswer => snapshot := Snapshot(Unreachable, "", 0, storageMax, 0);
      case VersionOnly(v) => snapshot := Snapshot(Degraded, v, 0, storageMax, 0);
      case Stats(v, size, n) =>
        var state := Active;
        if size >= storageMax {
          state := Full;
        }
        snapshot := Snapshot(state, v, size, storageMax, n);
    }

    /** The first part of Upload, up to the writable check; None lets the upload go on. */
    method BeginUpload(u: Upload) returns (r: Option<Reply>)
      modifies this
      ensures State() == Next(old(State()), UploadArrives(u))
      ensures r.None? <==> |pending| == |old(pending)| + 1
      ensures r == Some(ErrDisabled) <==> !enabled
      ensures r == Some(ErrUnavailable) <==> enabled && !(identityReady && snapshot.state.Active?)
    {
      clock := clock + 1;
      if !enabled {
        return Some(ErrDisabled);
      }
      if !Writable() {
        return Some(ErrUnavailable);
      }
      pending := pending + [Pending(u, clock - 1)];
      return None;
    }

    /** The rest of Upload, from reading the snapshot to the size check of AddAndPin. */
    method FinishUpload(k: nat) returns (r: Reply)
      requires k < |pending|
      modifies this
      ensures State() == Next(old(State()), UploadProceeds(k))
      ensures r == Admit(old(pending)[k].upload, snapshot)
      ensures r.Passed? <==> |calls| == |old(calls)| + 1
    {
      clock := clock + 1;
      var u := pending[k].upload;
      pending := pending[..k] + pending[k + 1..];
      if u.declared as int > MAX_OBJECT_BYTES {
        return ErrByteLimit;
      }
      var snap := snapshot;
      if snap.repoSize >= snap.storageMax || u.declared > Sub64(snap.storageMax, snap.repoSize) {
        return ErrStorageFull;
      }
      var limit := u.maxBytes;
      if limit <= 0 || limit as int > MAX_OBJECT_BYTES {
        limit := MAX_OBJECT_BYTES as int64;
      }
      if u.declared < 0 || u.declared > limit {
        return ErrByteLimit;
      }
      calls := calls + [AddCall(u.(maxBytes := limit), snap)];
      return Passed;
    }

    /** Read, PinStatus and Unpin up to the request they send. */
    method Operate() returns (r: Reply)
      modifies this
      ensures State() == Next(old(State()), Operation)
      ensures r.Passed? <==> |calls| == |old(calls)| + 1
      ensures r == ErrDisabled <==> !enabled
    {
      clock := clock + 1;
      if !enabled {
        return ErrDisabled;
      }
      if !Operational() {
        return ErrUnavailable;
      }
      calls := calls + [OtherCall];
      return Passed;
    }

    predicate Operational()
      reads this
    {
      if !identityReady then false
      else
        match snapshot.state
        case Active => true
        case Degraded => true
        case Full => true
        case _ => false
    }

    predicate Writable()
      reads this
    {
      identityReady && snapshot.state == Active
    }
  }

  // ---- admission ----

  /** The upload fits the object limit, its own limit and the free space, as integers. */
  predicate FitsIn(u: Upload, snap: Snapshot) {
    && 0 <= u.declared <= 1_000_000_000 && (u.maxBytes > 0 ==> u.declared <= u.maxBytes)
    && snap.repoSize < snap.storageMax && u.declared as int + snap.repoSize as int <= snap.storageMax as int
  }

  /**
   An upload passes exactly when it fits and the free space is representable in 64 bits. In
   particular nothing passes that does not fit, whatever Kubo says the repository size is.
   */
  lemma AdmitIff(u: Upload, snap: Snapshot)
    ensures Admit(u, snap).Passed? <==>
      FitsIn(u, snap) && snap.storageMax as int - snap.repoSize as int <= 0x7FFF_FFFF_FFFF_FFFF
  {
  }

  /** Which refusal an upload gets while the free space is representable: too large an object comes first. */
  lemma RefusalIs(u: Upload, snap: Snapshot)
    requires snap.storageMax as int - snap.repoSize as int <= 0x7FFF_FFFF_FFFF_FFFF
    ensures
      var full := snap.repoSize >= snap.storageMax || u.declared as int + snap.repoSize as int > snap.storageMax as int;
      && (Admit(u, snap) == ErrStorageFull <==> u.declared <= 1_000_000_000 && full)
      && (Admit(u, snap) == ErrByteLimit <==>
            u.declared > 1_000_000_000 || (!full && (u.declared < 0 || (0 < u.maxBytes < u.declared))))
  {
  }

  /** Admission is exact for every upload if and only if the free space is representable in 64 bits. */
  lemma AdmissionExactIff(snap: Snapshot)
    ensures (forall u :: Admit(u, snap).Passed? <==> FitsIn(u, snap)) <==>
            snap.storageMax as int - snap.repoSize as int <= INT64_MAX
  {
    if snap.storageMax as int - snap.repoSize as int <= INT64_MAX {
      forall u ensures Admit(u, snap).Passed? <==> FitsIn(u, snap) {
        AdmitIff(u, snap);
      }
    } else {
      var u := Upload(0, 0);
      AdmitIff(u, snap);
      assert FitsIn(u, snap) && !Admit(u, snap).Passed?;
    }
  }

  /** A negative repository size can wrap the subtraction and refuse an upload that fits. */
  lemma NegativeSizeCanRefuse()
    ensures
      var u, snap := Upload(1, 1), Snapshot(Active, "", -1, 0x7FFF_FFFF_FFFF_FFFF, 0);
      FitsIn(u, snap) && Admit(u, snap) == ErrStorageFull
  {
  }

  // ---- every reachable state ----

  /** A snapshot tells the configured maximum, and its state agrees with the repository size. */
  predicate Truthful(snap: Snapshot, storageMax: int64) {
    && snap.storageMax == storageMax
    && (snap.state.Active? ==> snap.repoSize < storageMax)
    && (snap.state.Full? ==> snap.repoSize >= storageMax)
    && (!snap.state.Active? && !snap.state.Full? ==> snap.repoSize == 0)
  }

  /** An upload that reached Kubo fits the object limit, its own limit and the space free in the snapshot it read. */
  predicate Fits(c: Call, storageMax: int64) {
    c.AddCall? ==>
      && Truthful(c.against, storageMax) && FitsIn(c.upload, c.against)
      && 0 < c.upload.maxBytes <= 1_000_000_000
  }

  predicate Inv(s: Drop) {
    && Truthful(s.snapshot, s.storageMax)
    && (s.ready ==> s.enabled) && (s.polling <==> s.ready)
    && (!s.ready ==> s.pending == [] && s.calls == [])
    && forall i :: 0 <= i < |s.calls| ==> Fits(s.calls[i], s.storageMax)
  }

  lemma NextKeeps(s: Drop, e: Event)
    requires Inv(s)
    ensures Inv(Next(s, e)) && Next(s, e).enabled == s.enabled && Next(s, e).storageMax == s.storageMax
    ensures Next(s, e).ready ==> s.ready || e == Started(true)
  {
    hide Admit, FitsIn;
    if e.UploadProceeds? && e.k < |s.pending| {
      var u := s.pending[e.k].upload;
      AdmitIff(u, s.snapshot);
      SameLimit(u, s.snapshot);
    }
  }

  lemma SameLimit(u: Upload, snap: Snapshot)
    ensures FitsIn(u, snap) ==> FitsIn(u.(maxBytes := EffectiveLimit(u.maxBytes)), snap)
    ensures 0 < EffectiveLimit(u.maxBytes) <= 1_000_000_000
  {
  }

  lemma {:induction false} RunKeeps(enabled: bool, storageMax: int64, events: seq<Event>)
    ensures
      var s := Run(NewDrop(enabled, storageMax), events);
      && Inv(s) && s.enabled == enabled && s.storageMax == storageMax && s.clock == |events|
      && (s.ready ==> Started(true) in events)
  {
    if events != [] {
      hide Inv, Step;
      var n := |events| - 1;
      RunKeeps(enabled, storageMax, events[..n]);
      NextKeeps(Run(NewDrop(enabled, storageMax), events[..n]), events[n]);
      assert events[n] in events && forall e :: e in events[..n] ==> e in events;
    }
  }

  /** In every reachable state the snapshot is truthful and every upload that reached Kubo fits. */
  lemma DropIsTruthful(enabled: bool, storageMax: int64, events: seq<Event>)
    ensures
      var s := Run(NewDrop(enabled, storageMax), events);
      && Truthful(s.snapshot, storageMax)
      && forall i :: 0 <= i < |s.calls| ==> Fits(s.calls[i], storageMax)
  {
    hide Run;
    RunKeeps(enabled, storageMax, events);
  }

  /** Nothing reaches Kubo unless a preparation of the identity has succeeded before, however many failed. */
  lemma IdentityFirst(enabled: bool, storageMax: int64, events: seq<Event>)
    ensures Run(NewDrop(enabled, storageMax), events).calls != [] ==> enabled && Started(true) in events
  {
    hide Run;
    RunKeeps(enabled, storageMax, events);
  }

  // ---- what the service lets through ----

  /** Without another poll or failed preparation the snapshot stays, and a ready service stays ready. */
  lemma {:induction false} QuietKeeps(enabled: bool, storageMax: int64, before: seq<Event>, after: seq<Event>)
    requires forall e :: e in after ==> !Replaces(e)
    ensures
      var s, s' := Run(NewDrop(enabled, storageMax), before), Run(NewDrop(enabled, storageMax), before + after);
      s'.snapshot == s.snapshot && (s.ready ==> s'.ready)
  {
    hide Run, Admit, Refreshed;
    if after == [] {
      assert before + after == before;
    } else {
      var n := |after| - 1;
      assert after[n] in after && forall e :: e in after[..n] ==> e in after;
      QuietKeeps(enabled, storageMax, before, after[..n]);
      assert before + after == (before + after[..n]) + [after[n]];
      RunNext(NewDrop(enabled, storageMax), before + after[..n], after[n]);
    }
  }

  lemma RunNext(s: Drop, events: seq<Event>, e: Event)
    ensures Run(s, events + [e]) == Next(Run(s, events), e)
  {
    hide Next;
    assert (events + [e])[..|events|] == events;
  }

  /** A successful preparation makes an enabled service ready, for good. */
  lemma {:induction false} PreparedIsReady(storageMax: int64, events: seq<Event>)
    requires Started(true) in events
    ensures var s := Run(NewDrop(true, storageMax), events); s.ready && s.polling && s.enabled
  {
    hide Admit, Refreshed;
    var n := |events| - 1;
    RunKeeps(true, storageMax, events[..n]);
    if events[n] != Started(true) {
      assert events == events[..n] + [events[n]];
      PreparedIsReady(storageMax, events[..n]);
    }
  }

  /**
   Once the identity is prepared, the last poll decides until the next one: without an answer nothing
   reaches Kubo; with a version operations do; with statistics uploads are taken on exactly while the
   repository is smaller than the configured maximum. The snapshot reports what was polled.
   */
  lemma LastPollDecides(storageMax: int64, before: seq<Event>, poll: Poll, after: seq<Event>, u: Upload)
    requires Started(true) in before && forall e :: e in after ==> !Replaces(e)
    ensures
      var s := Run(NewDrop(true, storageMax), before + [Polled(poll)] + after);
      var (full, size) := (poll.Stats? && poll.repoSize >= storageMax, if poll.Stats? then poll.repoSize else 0);
      && s.snapshot.state == (if poll.NoAnswer? then Unreachable else if poll.VersionOnly? then Degraded
                              else if full then Full else Active)
      && s.snapshot.repoSize == size && s.snapshot.storageMax == storageMax
      && s.snapshot.version == (if poll.NoAnswer? then "" else poll.version)
      && s.snapshot.numObjects == (if poll.Stats? then poll.numObjects else 0)
      && Next(s, Operation).calls == (if poll.NoAnswer? then s.calls else s.calls + [OtherCall])
      && Next(s, UploadArrives(u)).pending
         == (if poll.Stats? && !full then s.pending + [Pending(u, s.clock)] else s.pending)
  {
    hide Run, Admit;
    PreparedIsReady(storageMax, before);
    RunNext(NewDrop(true, storageMax), before, Polled(poll));
    QuietKeeps(true, storageMax, before + [Polled(poll)], after);
    RunKeeps(true, storageMax, before + [Polled(poll)] + after);
    RunKeeps(true, storageMax, before);
  }

  /** A failed preparation degrades Drop: operations go on if and only if another one succeeded, uploads never. */
  lemma LastFailureDecides(storageMax: int64, before: seq<Event>, after: seq<Event>, u: Upload)
    requires forall e :: e in after ==> !Replaces(e)
    ensures
      var s := Run(NewDrop(true, storageMax), before + [Started(false)] + after);
      && s.snapshot == Snapshot(Degraded, "", 0, storageMax, 0)
      && Next(s, Operation).calls == (if Started(true) in before + after then s.calls + [OtherCall] else s.calls)
      && Next(s, UploadArrives(u)).pending == s.pending
  {
    hide Run, Admit;
    var events := before + [Started(false)] + after;
    assert Started(true) in before + after <==> Started(true) in events;
    if Started(true) in events {
      PreparedIsReady(storageMax, events);
    }
    RunNext(NewDrop(true, storageMax), before, Started(false));
    RunKeeps(true, storageMax, before);
    QuietKeeps(true, storageMax, before + [Started(false)], after);
    RunKeeps(true, storageMax, events);
  }

  /** Before the first poll nothing gets through, whether or not the identity is prepared. */
  lemma NothingBeforePoll(enabled: bool, storageMax: int64, events: seq<Event>, u: Upload)
    requires forall e :: e in events ==> !Replaces(e)
    ensures
      var s := Run(NewDrop(enabled, storageMax), events);
      && s.snapshot == Snapshot(if enabled then Starting else Disabled, "", 0, storageMax, 0)
      && Next(s, Operation).calls == s.calls && Next(s, UploadArrives(u)).pending == s.pending
  {
    hide Run, Admit;
    QuietKeeps(enabled, storageMax, [], events);
    assert [] + events == events;
    NothingRun(enabled, storageMax);
  }

  lemma NothingRun(enabled: bool, storageMax: int64)
    ensures Run(NewDrop(enabled, storageMax), []) == NewDrop(enabled, storageMax)
  {
  }

  /** In every run, an upload past its writable check reaches Kubo if and only if it fits what is known then. */
  lemma UploadReachesIff(enabled: bool, storageMax: int64, events: seq<Event>, k: nat)
    requires k < |Run(NewDrop(enabled, storageMax), events).pending|
    ensures
      var s := Run(NewDrop(enabled, storageMax), events);
      var (u, s') := (s.pending[k].upload, Next(s, UploadProceeds(k)));
      var limit := if 0 < u.maxBytes <= 1_000_000_000 then u.maxBytes else 1_000_000_000;
      && s'.pending == s.pending[..k] + s.pending[k + 1..]
      && s'.calls == if FitsIn(u, s.snapshot) && storageMax as int - s.snapshot.repoSize as int <= 0x7FFF_FFFF_FFFF_FFFF
                     then s.calls + [AddCall(Upload(u.declared, limit), s.snapshot)] else s.calls
  {
    hide Run, Admit;
    RunKeeps(enabled, storageMax, events);
    var s := Run(NewDrop(enabled, storageMax), events);
    AdmitIff(s.pending[k].upload, s.snapshot);
  }

  // ---- between the two checks of an upload ----

  /** The event replaces the snapshot of a ready service. */
  predicate Replaces(e: Event) {
    e.Polled? || e == Started(false)
  }

  /** The last event of a sequence that replaced the snapshot. */
  function LastReplacement(events: seq<Event>): (r: Option<Event>)
    ensures r.Some? ==> Replaces(r.value)
  {
    if events == [] then None
    else if Replaces(events[|events| - 1]) then Some(events[|events| - 1])
    else LastReplacement(events[..|events| - 1])
  }

  function Replacement(e: Event, storageMax: int64): Snapshot
    requires Replaces(e)
  {
    if e.Polled? then Refreshed(e.poll, storageMax) else Blank(Degraded, "", storageMax)
  }

  /** What a pending upload will be checked against: the active snapshot it saw, or what replaced it since. */
  ghost predicate Traced(s: Drop, events: seq<Event>, p: Pending) {
    && p.arrived <= |events|
    && var last := LastReplacement(events[p.arrived..]);
       if last.Some? then s.snapshot == Replacement(last.value, s.storageMax) else s.snapshot.state.Active?
  }

  lemma {:induction false} PendingTraced(enabled: bool, storageMax: int64, events: seq<Event>, k: nat)
    requires k < |Run(NewDrop(enabled, storageMax), events).pending|
    ensures
      var s := Run(NewDrop(enabled, storageMax), events);
      Traced(s, events, s.pending[k])
  {
    hide Next, Replacement;
    if events != [] {
      var n := |events| - 1;
      var init, e := events[..n], events[n];
      var s := Run(NewDrop(enabled, storageMax), init);
      RunReady(enabled, storageMax, init);
      var j := PendingStep(s, e, k);
      if j == |s.pending| {
        assert events[n..] == [e] && LastReplacement([e]) == LastReplacement([]);
      } else {
        PendingTraced(enabled, storageMax, init, j);
        var since := events[s.pending[j].arrived..];
        assert since[..|since| - 1] == init[s.pending[j].arrived..] && since[|since| - 1] == e;
      }
    }
  }

  /** Where a pending upload comes from, and what an event does to the snapshot it waits on. */
  lemma PendingStep(s: Drop, e: Event, k: nat) returns (j: nat)
    requires k < |Next(s, e).pending| && (s.pending != [] ==> s.enabled && s.polling)
    ensures
      var s' := Next(s, e);
      && j <= |s.pending| && s'.storageMax == s.storageMax
      && (j == |s.pending| ==>
            !Replaces(e) && s'.pending[k].arrived == s.clock && s'.snapshot == s.snapshot && s.snapshot.state.Active?)
      && (j < |s.pending| ==>
            && s'.pending[k] == s.pending[j]
            && s'.snapshot == if Replaces(e) then Replacement(e, s.storageMax) else s.snapshot)
  {
    hide Admit, Refreshed;
    j := if e.UploadProceeds? && e.k <= k && e.k < |s.pending| then k + 1 else k;
  }

  lemma RunReady(enabled: bool, storageMax: int64, events: seq<Event>)
    ensures
      var s := Run(NewDrop(enabled, storageMax), events);
      && s.clock == |events| && s.storageMax == storageMax
      && (s.pending != [] ==> s.enabled && s.polling)
  {
    hide Run;
    RunKeeps(enabled, storageMax, events);
  }

  /** The event leaves a snapshot without statistics: a poll that got none, or a failed preparation. */
  predicate Silent(e: Event) {
    e == Started(false) || (e.Polled? && !e.poll.Stats?)
  }

  /**
   In every run, an upload past its writable check reaches Kubo against a snapshot that is not
   active if and only if the last event since that check to replace the snapshot was one without
   statistics, and the upload fits an empty repository. With statistics, full or not, it never does.
   */
  lemma OutlivesActiveIff(enabled: bool, storageMax: int64, events: seq<Event>, k: nat)
    requires k < |Run(NewDrop(enabled, storageMax), events).pending|
    ensures
      var s := Run(NewDrop(enabled, storageMax), events);
      var (u, arrived) := (s.pending[k].upload, s.pending[k].arrived);
      var calls := Next(s, UploadProceeds(k)).calls;
      && arrived <= |events|
      && var last := LastReplacement(events[arrived..]);
         (|calls| == |s.calls| + 1 && !calls[|s.calls|].against.state.Active? <==>
            && last.Some? && Silent(last.value)
            && 0 <= u.declared <= 1_000_000_000 && (u.maxBytes > 0 ==> u.declared <= u.maxBytes)
            && 0 < storageMax && u.declared <= storageMax)
  {
    hide Run, Admit, Inv;
    var s := Run(NewDrop(enabled, storageMax), events);
    RunKeeps(enabled, storageMax, events);
    PendingTraced(enabled, storageMax, events, k);
    AdmitIff(s.pending[k].upload, s.snapshot);
    RunReady(enabled, storageMax, events);
  }

  /** A run in which an upload reaches Kubo while it is unreachable. */
  lemma UploadMayOutliveActive(storageMax: int64)
    requires storageMax >= 1
    ensures
      var s := Run(NewDrop(true, storageMax),
        [Started(true), Polled(Stats("v", 0, 0)), UploadArrives(Upload(1, 1)), Polled(NoAnswer), UploadProceeds(0)]);
      |s.calls| == 1 && s.calls[0].AddCall? && s.calls[0].against.state.Unreachable?
  {
    var s0 := NewDrop(true, storageMax);
    var a, b, c := Started(true), Polled(Stats("v", 0, 0)), UploadArrives(Upload(1, 1));
    var d, e := Polled(NoAnswer), UploadProceeds(0);
    assert [a, b, c, d, e][..4] == [a, b, c, d] && [a, b, c, d][..3] == [a, b, c];
    assert [a, b, c][..2] == [a, b] && [a, b][..1] == [a] && [a][..0] == [];
    assert Run(s0, [a]) == Next(s0, a);
    assert Run(s0, [a, b]) == Next(Next(s0, a), b);
    var s2 := Run(s0, [a, b]);
    assert Run(s0, [a, b, c]) == Next(s2, c);
    assert Run(s0, [a, b, c, d]) == Next(Next(s2, c), d);
  }
}
