/**
 The Kubo identity hand-off: PrepareKuboIdentity in the node (internal/drop/identity.go) and the
 sidecar's init script (deploy/compose/kubo-init.sh) share one repository directory. Every file
 operation is one step; the two processes interleave freely and either may crash at any point. A
 write that installs by rename is atomic. Before the script runs, the container creates a
 configuration with a newly generated identity if there is none.
 */
module IdentityHandoff {
  import opened Text

  /** A Kubo identity as the configuration stores it. */
  datatype Identity = Identity(peer: string, key: string)

  /** config.erebrus while awk fills it: created and truncated first, complete later. */
  datatype Temp = NoTemp | Partial | Full(identity: Identity)

  datatype Repo = Repo(
    peerFile: Option<string>, privateFile: Option<string>, ready: Option<string>,
    conflict: bool, config: Option<Identity>, temp: Temp, managed: bool)

  const EMPTY := Repo(None, None, None, false, None, NoTemp, false)

  // ---- the node ----

  datatype Verdict = Prepared | Conflict

  /** Where PrepareKuboIdentity is; d is the identity derived from the mnemonic of this run. */
  datatype NodePc =
    | NodeIdle
    | CheckMarker(d: Identity)
    | WritePeer(d: Identity)
    | ReadConfig(d: Identity)
    | WritePrivate(d: Identity)
    | RemovePrivate(d: Identity)
    | WriteReady(d: Identity, verdict: Verdict)
    | NodeDone(d: Identity, verdict: Verdict)

  function NodeStep(r: Repo, pc: NodePc): (Repo, NodePc) {
    match pc
    case NodeIdle => (r, pc)
    case CheckMarker(d) => (r, if r.conflict then NodeDone(d, Conflict) else WritePeer(d))
    case WritePeer(d) => (r.(peerFile := Some(d.peer)), ReadConfig(d))
    case ReadConfig(d) =>
      (r, if r.config.None? then WritePrivate(d)
          else if r.config.value.peer != "" && r.config.value.peer != d.peer then WriteReady(d, Conflict)
          else RemovePrivate(d))
    case WritePrivate(d) => (r.(privateFile := Some(d.key)), WriteReady(d, Prepared))
    case RemovePrivate(d) => (r.(privateFile := None), WriteReady(d, Prepared))
    case WriteReady(d, v) => (r.(ready := Some(d.peer)), NodeDone(d, v))
    case NodeDone(_, _) => (r, pc)
  }

  // ---- the sidecar ----

  /** Where the sidecar is; p is the expected peer id it read, k the private key it read. */
  datatype SidePc =
    | AwaitReady
    | InitRepo
    | ReadExpected
    | Compare(p: string)
    | NeedKey(p: string)
    | MarkConflict(p: string)
    | OpenTemp(p: string)
    | FillTemp(p: string, k: string)
    | Move(p: string)
    | Verify(p: string)
    | Configure
    | DropPrivate
    | DropMarker
    | Touch
    | SideDone
    | SideFailed

  function SideStep(r: Repo, pc: SidePc, generated: Identity): (Repo, SidePc) {
    match pc
    case AwaitReady => (r, if NonEmpty(r.ready) then InitRepo else AwaitReady)
    case InitRepo => (if r.config.None? then r.(config := Some(generated)) else r, ReadExpected)
    case ReadExpected => (r, if NonEmpty(r.peerFile) then Compare(r.peerFile.value) else SideFailed)
    case Compare(p) =>
      (r, if r.config.None? then SideFailed else if r.config.value.peer == p then Configure else NeedKey(p))
    case NeedKey(p) => (r, if NonEmpty(r.privateFile) then OpenTemp(p) else MarkConflict(p))
    case MarkConflict(_) => (r.(conflict := true), SideFailed)
    case OpenTemp(p) =>
      (r.(temp := Partial), if NonEmpty(r.privateFile) then FillTemp(p, r.privateFile.value) else SideFailed)
    case FillTemp(p, k) => (r.(temp := Full(Identity(p, k))), Move(p))
    case Move(p) =>
      if r.temp.Full? then (r.(config := Some(r.temp.identity), temp := NoTemp), Verify(p)) else (r, SideFailed)
    case Verify(p) => (r, if r.config.Some? && r.config.value.peer == p then Configure else SideFailed)
    case Configure => (r, DropPrivate)
    case DropPrivate => (r.(privateFile := None), DropMarker)
    case DropMarker => (r.(conflict := false), Touch)
    case Touch => (r.(managed := true), SideDone)
    case SideDone => (r, pc)
    case SideFailed => (r, pc)
  }

  predicate NonEmpty(f: Option<string>) {
    f.Some? && f.value != ""
  }

  // ---- the two processes together ----

  /** born is the identity the container generated for this repository, if it did. */
  datatype State = State(repo: Repo, node: NodePc, side: SidePc, born: Option<Identity>)

  datatype Event =
    | NodeStarts(d: Identity)
    | NodeSteps
    | NodeCrashes
    | SideSteps(generated: Identity)
    | SideCrashes

  function Next(s: State, e: Event): State {
    match e
    case NodeStarts(d) => if s.node.NodeIdle? || s.node.NodeDone? then s.(node := CheckMarker(d)) else s
    case NodeSteps =>
      var (r, pc) := NodeStep(s.repo, s.node);
      s.(repo := r, node := pc)
    case NodeCrashes => s.(node := NodeIdle)
    case SideSteps(generated) =>
      var (r, pc) := SideStep(s.repo, s.side, generated);
      State(r, s.node, pc, if s.side.InitRepo? && s.repo.config.None? then Some(generated) else s.born)
    case SideCrashes => s.(side := AwaitReady)
  }

  function Run(s: State, events: seq<Event>): State {
    if events == [] then s else Next(Run(s, events[..|events| - 1]), events[|events| - 1])
  }

  function Idle(r: Repo): State {
    State(r, NodeIdle, AwaitReady, None)
  }

  /** The mnemonics used derive identities of M, and generated identities collide with none of them. */
  ghost predicate Permitted(e: Event, m: set<Identity>) {
    && (e.NodeStarts? ==> e.d in m)
    && (e.SideSteps? ==> e.generated.peer != "" && forall d :: d in m ==> d.peer != e.generated.peer)
  }

  ghost predicate AllPermitted(events: seq<Event>, m: set<Identity>) {
    forall i :: 0 <= i < |events| ==> Permitted(events[i], m)
  }

  // ---- one mnemonic, empty volume ----

  ghost predicate RepoInv(s: State, d: Identity) {
    var r := s.repo;
    && (r.peerFile.Some? ==> r.peerFile.value == d.peer)
    && (r.privateFile.Some? ==> r.privateFile.value == d.key)
    && !r.conflict
    && (r.ready.Some? ==> r.peerFile.Some? && (r.config.Some? || r.privateFile.Some?))
    && (r.temp.Full? ==> r.temp.identity == d)
    && (r.config.Some? && r.config.value != d ==>
          r.config == s.born && r.config.value.peer != d.peer && r.config.value.peer != "" && r.privateFile.Some?)
    && (r.config.Some? ==> r.ready.Some?)
    && (s.born.Some? ==> r.config.Some?)
  }

  ghost predicate NodeInv(s: State, d: Identity) {
    var r := s.repo;
    && (!s.node.NodeIdle? ==> s.node.d == d)
    && (s.node.ReadConfig? || s.node.WritePrivate? || s.node.RemovePrivate? || s.node.WriteReady? ==> r.peerFile.Some?)
    && (s.node.RemovePrivate? ==> r.config == Some(d))
    && (s.node.WriteReady? ==> r.config.Some? || r.privateFile.Some?)
  }

  ghost predicate SideInv(s: State, d: Identity) {
    var r := s.repo;
    && (!s.side.AwaitReady? ==> r.ready.Some?)
    && (!s.side.AwaitReady? && !s.side.InitRepo? && !s.side.SideFailed? ==> r.config.Some?)
    && (s.side.Compare? || s.side.NeedKey? || s.side.OpenTemp? || s.side.FillTemp? || s.side.Move? || s.side.Verify? ==>
          s.side.p == d.peer)
    && (s.side.NeedKey? || s.side.OpenTemp? ==> r.config != Some(d))
    && !s.side.MarkConflict?
    && (s.side.FillTemp? ==> s.side.k == d.key)
    && (s.side.Move? ==> r.temp == Full(d))
    && (s.side.Verify? || s.side.Configure? || s.side.DropPrivate? || s.side.DropMarker? || s.side.Touch?
        || s.side.SideDone? ==>
          r.config == Some(d))
  }

  ghost predicate Inv(s: State, d: Identity) {
    RepoInv(s, d) && NodeInv(s, d) && SideInv(s, d)
  }

  lemma NodeStepKeeps(s: State, d: Identity)
    requires d.peer != "" && d.key != "" && Inv(s, d)
    ensures Inv(Next(s, NodeSteps), d)
  {
  }

  lemma SideStepKeeps(s: State, generated: Identity, d: Identity)
    requires d.peer != "" && d.key != "" && Inv(s, d) && Permitted(SideSteps(generated), {d})
    ensures Inv(Next(s, SideSteps(generated)), d)
  {
    assert d in {d};
  }

  lemma {:induction false} RunKeeps(events: seq<Event>, d: Identity)
    requires d.peer != "" && d.key != "" && AllPermitted(events, {d})
    ensures Inv(Run(Idle(EMPTY), events), d)
  {
    if events != [] {
      var n := |events| - 1;
      RunKeeps(events[..n], d);
      var s := Run(Idle(EMPTY), events[..n]);
      assert Permitted(events[n], {d});
      match events[n]
      case NodeSteps => NodeStepKeeps(s, d);
      case SideSteps(generated) => SideStepKeeps(s, generated, d);
      case _ =>
    }
  }

  /**
   With one mnemonic and an initially empty volume, under every interleaving and every crash: the
   installed pair is the generated one or exactly the derived one, no conflict is ever marked, the
   ready file comes with the right peer id and a way to complete the hand-off, and every completed
   sidecar run leaves the derived pair installed.
   */
  lemma HandoffIsSafe(events: seq<Event>, d: Identity)
    requires d.peer != "" && d.key != "" && AllPermitted(events, {d})
    ensures
      var s := Run(Idle(EMPTY), events);
      var r := s.repo;
      && (r.config.None? || r.config == s.born || r.config == Some(d))
      && !r.conflict && !s.side.MarkConflict?
      && (r.ready.Some? ==> r.peerFile == Some(d.peer) && (r.config.Some? || r.privateFile == Some(d.key)))
      && (s.side.SideDone? ==> r.config == Some(d))
  {
    RunKeeps(events, d);
  }

  /** Once installed, the derived pair is never replaced. */
  lemma {:induction false} InstalledStays(s: State, events: seq<Event>, d: Identity)
    requires d.peer != "" && d.key != "" && Inv(s, d) && s.repo.config == Some(d) && AllPermitted(events, {d})
    ensures Inv(Run(s, events), d) && Run(s, events).repo.config == Some(d)
  {
    if events != [] {
      var n := |events| - 1;
      InstalledStays(s, events[..n], d);
      var t := Run(s, events[..n]);
      assert Permitted(events[n], {d});
      match events[n]
      case NodeSteps => NodeStepKeeps(t, d);
      case SideSteps(generated) => SideStepKeeps(t, generated, d);
      case _ =>
    }
  }

  // ---- uninterrupted runs ----

  function NodeRank(pc: NodePc): nat {
    match pc
    case CheckMarker(_) => 5
    case WritePeer(_) => 4
    case ReadConfig(_) => 3
    case WritePrivate(_) => 2
    case RemovePrivate(_) => 2
    case WriteReady(_, _) => 1
    case _ => 0
  }

  /** The node running on its own until it stops. */
  function NodeToEnd(r: Repo, pc: NodePc): (Repo, NodePc)
    decreases NodeRank(pc)
  {
    if NodeRank(pc) == 0 then (r, pc) else
    var (r', pc') := NodeStep(r, pc);
    NodeToEnd(r', pc')
  }

  lemma NodeUnroll(r: Repo, pc: NodePc)
    ensures NodeRank(pc) == 0 ==> NodeToEnd(r, pc) == (r, pc)
    ensures NodeRank(pc) > 0 ==> NodeToEnd(r, pc) == NodeToEnd(NodeStep(r, pc).0, NodeStep(r, pc).1)
  {
    hide NodeStep;
  }

  function SideRank(pc: SidePc): nat {
    match pc
    case InitRepo => 12
    case ReadExpected => 11
    case Compare(_) => 10
    case NeedKey(_) => 9
    case MarkConflict(_) => 1
    case OpenTemp(_) => 8
    case FillTemp(_, _) => 7
    case Move(_) => 6
    case Verify(_) => 5
    case Configure => 4
    case DropPrivate => 3
    case DropMarker => 2
    case Touch => 1
    case _ => 0
  }

  /** The sidecar running on its own, from the repository initialisation on, until it stops. */
  function SideToEnd(r: Repo, pc: SidePc, generated: Identity): (Repo, SidePc)
    decreases SideRank(pc)
  {
    if SideRank(pc) == 0 then (r, pc) else
    var (r', pc') := SideStep(r, pc, generated);
    SideToEnd(r', pc', generated)
  }

  lemma SideUnroll(r: Repo, pc: SidePc, generated: Identity)
    ensures SideRank(pc) == 0 ==> SideToEnd(r, pc, generated) == (r, pc)
    ensures SideRank(pc) > 0 ==>
      SideToEnd(r, pc, generated) == SideToEnd(SideStep(r, pc, generated).0, SideStep(r, pc, generated).1, generated)
  {
    hide SideStep;
  }

  /**
   Recovery: whatever crashes came before, one undisturbed node run makes the sidecar startable,
   one undisturbed sidecar run then installs the derived pair and removes the private-key file,
   and a further node run reports success.
   */
  lemma HandoffRecovers(events: seq<Event>, d: Identity, generated: Identity)
    requires d.peer != "" && d.key != "" && AllPermitted(events, {d})
    requires generated.peer != "" && generated.peer != d.peer
    ensures
      var r := Run(Idle(EMPTY), events).repo;
      var r1 := NodeToEnd(r, CheckMarker(d)).0;
      var (r2, side) := SideToEnd(r1, InitRepo, generated);
      && NonEmpty(r1.ready)
      && side == SideDone && r2.config == Some(d) && r2.privateFile == None
      && NodeToEnd(r2, CheckMarker(d)).1 == NodeDone(d, Prepared)
  {
    RunKeeps(events, d);
    var r := Run(Idle(EMPTY), events).repo;
    NodeEnds(r, d);
    var r1 := NodeToEnd(r, CheckMarker(d)).0;
    SideEnds(r1, d, generated);
    NodeEnds(SideToEnd(r1, InitRepo, generated).0, d);
  }

  /** What an undisturbed node run does to an unmarked repository. */
  lemma NodeEnds(r: Repo, d: Identity)
    requires !r.conflict
    ensures
      var (r', pc) := NodeToEnd(r, CheckMarker(d));
      var foreign := r.config.Some? && r.config.value.peer != "" && r.config.value.peer != d.peer;
      && r' == r.(peerFile := Some(d.peer), ready := Some(d.peer),
                  privateFile := if r.config.None? then Some(d.key) else if foreign then r.privateFile else None)
      && pc == NodeDone(d, if foreign then Conflict else Prepared)
  {
    hide NodeToEnd;
    var r1 := r.(peerFile := Some(d.peer));
    var (r2, pc2) := NodeStep(r1, ReadConfig(d));
    var (r3, pc3) := NodeStep(r1, pc2);
    NodeUnroll(r, CheckMarker(d));
    NodeUnroll(r, WritePeer(d));
    NodeUnroll(r1, ReadConfig(d));
    NodeUnroll(r1, pc2);
    NodeUnroll(r3, pc3);
    NodeUnroll(NodeStep(r3, pc3).0, NodeStep(r3, pc3).1);
  }

  /** What an undisturbed sidecar run does to a repository prepared for d. */
  lemma SideEnds(r: Repo, d: Identity, generated: Identity)
    requires r.peerFile == Some(d.peer) && d.peer != "" && d.key != "" && generated.peer != d.peer
    requires r.config != Some(d) ==> r.privateFile == Some(d.key)
    requires r.config.Some? && r.config != Some(d) ==> r.config.value.peer != d.peer
    ensures
      var (r', pc) := SideToEnd(r, InitRepo, generated);
      pc == SideDone && r'.config == Some(d) && r'.privateFile == None && !r'.conflict
  {
    SideRunIs(r, generated);
  }

  lemma SettleEnds(r: Repo, generated: Identity)
    ensures SideToEnd(r, Configure, generated)
         == (r.(privateFile := None, conflict := false, managed := true), SideDone)
  {
    hide SideToEnd;
    var r1 := r.(privateFile := None);
    var r2 := r1.(conflict := false);
    SideUnroll(r, Configure, generated);
    SideUnroll(r, DropPrivate, generated);
    SideUnroll(r1, DropMarker, generated);
    SideUnroll(r2, Touch, generated);
    SideUnroll(r2.(managed := true), SideDone, generated);
  }

  /** A node run on a marked repository reports the conflict and touches nothing. */
  lemma MarkedNodeRun(r: Repo, d: Identity)
    requires r.conflict
    ensures NodeToEnd(r, CheckMarker(d)) == (r, NodeDone(d, Conflict))
  {
    hide NodeToEnd;
    NodeUnroll(r, CheckMarker(d));
    NodeUnroll(r, NodeDone(d, Conflict));
  }

  /**
   What an undisturbed sidecar run does to any repository: without an expected peer id it gives up; a
   configuration with that id is kept; another one is replaced when there is a private key, and the
   repository is marked when there is none. Every completed run removes the key and the marker.
   */
  lemma SideRunIs(r: Repo, generated: Identity)
    ensures
      var r0 := r.(config := if r.config.None? then Some(generated) else r.config);
      var done := r0.(privateFile := None, conflict := false, managed := true);
      SideToEnd(r, InitRepo, generated)
      == if !NonEmpty(r.peerFile) then (r0, SideFailed)
         else if r0.config.value.peer == r.peerFile.value then (done, SideDone)
         else if NonEmpty(r.privateFile)
              then (done.(config := Some(Identity(r.peerFile.value, r.privateFile.value)), temp := NoTemp), SideDone)
         else (r0.(conflict := true), SideFailed)
  {
    hide SideToEnd;
    var r0 := r.(config := if r.config.None? then Some(generated) else r.config);
    SideUnroll(r, InitRepo, generated);
    SideUnroll(r0, ReadExpected, generated);
    if !NonEmpty(r.peerFile) {
      SideUnroll(r0, SideFailed, generated);
    } else {
      var p := r.peerFile.value;
      SideUnroll(r0, Compare(p), generated);
      if r0.config.value.peer == p {
        SettleEnds(r0, generated);
      } else if NonEmpty(r.privateFile) {
        InstallSteps(r0, p, generated);
        SettleEnds(r0.(config := Some(Identity(p, r.privateFile.value)), temp := NoTemp), generated);
      } else {
        SideUnroll(r0, NeedKey(p), generated);
        MarkEnds(r0, p, generated);
      }
    }
  }

  // ---- several mnemonics ----

  /** State t can be reached from s while the mnemonics derive identities of m. */
  ghost predicate Reaches(s: State, t: State, m: set<Identity>) {
    exists events :: AllPermitted(events, m) && Run(s, events) == t
  }

  lemma ReachStart(s: State, m: set<Identity>)
    ensures Reaches(s, s, m)
  {
    assert AllPermitted([], m) && Run(s, []) == s;
  }

  lemma ReachNext(s: State, t: State, e: Event, m: set<Identity>)
    requires Reaches(s, t, m) && Permitted(e, m)
    ensures Reaches(s, Next(t, e), m)
  {
    hide Next, Permitted;
    var events :| AllPermitted(events, m) && Run(s, events) == t;
    var more := events + [e];
    assert more[..|events|] == events;
    assert AllPermitted(more, m) && Run(s, more) == Next(t, e);
  }

  /** Running the node alone for as long as it goes. */
  lemma {:induction false} ReachNodeEnd(s: State, t: State, m: set<Identity>)
    requires Reaches(s, t, m)
    ensures
      var (r, pc) := NodeToEnd(t.repo, t.node);
      Reaches(s, t.(repo := r, node := pc), m)
    decreases NodeRank(t.node)
  {
    hide Reaches;
    if NodeRank(t.node) > 0 {
      ReachNext(s, t, NodeSteps, m);
      ReachNodeEnd(s, Next(t, NodeSteps), m);
    }
  }

  /** Identities derived from different mnemonics differ in both halves. */
  ghost predicate Derived(m: set<Identity>) {
    && (forall d :: d in m ==> d.peer != "" && d.key != "")
    && (forall d, e :: d in m && e in m && d != e ==> d.peer != e.peer && d.key != e.key)
  }

  /** The installed pair is none, the generated one, or one of the derived ones as a whole. */
  ghost predicate Unmixed(s: State, m: set<Identity>) {
    s.repo.config.None? || s.repo.config == s.born || s.repo.config.value in m
  }

  ghost predicate NeverMixed(m: set<Identity>) {
    forall s :: Reaches(Idle(EMPTY), s, m) ==> Unmixed(s, m)
  }

  /** The state in which a second mnemonic has replaced the peer id file but not yet the private key. */
  lemma SwappedPeerFile(d: Identity, e: Identity, m: set<Identity>)
    requires d in m && e in m
    ensures
      var r := EMPTY.(peerFile := Some(e.peer), privateFile := Some(d.key), ready := Some(d.peer));
      Reaches(Idle(EMPTY), State(r, ReadConfig(e), AwaitReady, None), m)
  {
    hide Reaches;
    var s0 := Idle(EMPTY);
    ReachStart(s0, m);
    ReachNext(s0, s0, NodeStarts(d), m);
    var s1 := Next(s0, NodeStarts(d));
    ReachNodeEnd(s0, s1, m);
    NodeEnds(EMPTY, d);
    var (r, pc) := NodeToEnd(EMPTY, CheckMarker(d));
    var s2 := s1.(repo := r, node := pc);
    ReachNext(s0, s2, NodeStarts(e), m);
    var s3 := Next(s2, NodeStarts(e));
    ReachNext(s0, s3, NodeSteps, m);
    var s4 := Next(s3, NodeSteps);
    ReachNext(s0, s4, NodeSteps, m);
  }

  /** From there the sidecar installs the new peer id with the old private key. */
  lemma MixIsReachable(d: Identity, e: Identity, m: set<Identity>, g: Identity)
    requires Derived(m) && d in m && e in m && d != e && Permitted(SideSteps(g), m)
    ensures exists s :: Reaches(Idle(EMPTY), s, m) && s.repo.config == Some(Identity(e.peer, d.key))
                        && s.born == Some(g)
  {
    hide Reaches;
    var s0 := Idle(EMPTY);
    var r := EMPTY.(peerFile := Some(e.peer), privateFile := Some(d.key), ready := Some(d.peer));
    SwappedPeerFile(d, e, m);
    var node := ReadConfig(e);
    var step := SideSteps(g);
    var s1 := State(r, node, AwaitReady, None);
    ReachNext(s0, s1, step, m);
    ReachNext(s0, State(r, node, InitRepo, None), step, m);
    var r1 := r.(config := Some(g));
    var born := Some(g);
    ReachNext(s0, State(r1, node, ReadExpected, born), step, m);
    ReachNext(s0, State(r1, node, Compare(e.peer), born), step, m);
    ReachNext(s0, State(r1, node, NeedKey(e.peer), born), step, m);
    ReachNext(s0, State(r1, node, OpenTemp(e.peer), born), step, m);
    var r2 := r1.(temp := Partial);
    ReachNext(s0, State(r2, node, FillTemp(e.peer, d.key), born), step, m);
    var mix := Identity(e.peer, d.key);
    ReachNext(s0, State(r2.(temp := Full(mix)), node, Move(e.peer), born), step, m);
    var end := State(r1.(config := Some(mix), temp := NoTemp), node, Verify(e.peer), born);
    assert Reaches(s0, end, m);
  }

  /**
   The installed pair is never a mix in any run from an empty volume if and only if all mnemonics
   used derive the same identity: the node replaces the peer id file before the private key file.
   */
  lemma NeverMixedIff(m: set<Identity>, g: Identity)
    requires Derived(m) && Permitted(SideSteps(g), m)
    ensures NeverMixed(m) <==> forall d, e :: d in m && e in m ==> d == e
  {
    if forall d, e :: d in m && e in m ==> d == e {
      forall s | Reaches(Idle(EMPTY), s, m) ensures Unmixed(s, m) {
        OneIdentityUnmixed(s, m);
      }
    } else {
      var d, e :| d in m && e in m && d != e;
      MixIsReachable(d, e, m, g);
      hide Reaches;
      var s :| Reaches(Idle(EMPTY), s, m) && s.repo.config == Some(Identity(e.peer, d.key)) && s.born == Some(g);
      assert Identity(e.peer, d.key) !in m;
      assert !Unmixed(s, m);
    }
  }

  lemma OneIdentityUnmixed(s: State, m: set<Identity>)
    requires Derived(m) && (forall d, e :: d in m && e in m ==> d == e) && Reaches(Idle(EMPTY), s, m)
    ensures Unmixed(s, m)
  {
    var events :| AllPermitted(events, m) && Run(Idle(EMPTY), events) == s;
    if d :| d in m {
      assert m == {d};
      RunKeeps(events, d);
    } else {
      assert m == {};
      NoNodeNoConfig(events);
    }
  }

  /** Without a node run nothing happens: the sidecar keeps waiting. */
  lemma {:induction false} NoNodeNoConfig(events: seq<Event>)
    requires AllPermitted(events, {})
    ensures Run(Idle(EMPTY), events) == Idle(EMPTY)
  {
    if events != [] {
      var n := |events| - 1;
      NoNodeNoConfig(events[..n]);
      assert Permitted(events[n], {});
    }
  }

  // ---- a repository with an identity of its own ----

  /** Without a private-key file the configured identity cannot be replaced. */
  ghost predicate Locked(s: State, own: Identity) {
    && s.repo.config == Some(own) && s.repo.privateFile == None
    && !s.node.WritePrivate? && !s.side.OpenTemp? && !s.side.FillTemp? && !s.side.Move?
  }

  /** A repository that holds an identity and no private-key file keeps it, whatever mnemonics are used. */
  lemma {:induction false} ForeignIdentityKept(s: State, events: seq<Event>, own: Identity)
    requires Locked(s, own)
    ensures Locked(Run(s, events), own)
  {
    if events != [] {
      ForeignIdentityKept(s, events[..|events| - 1], own);
    }
  }

  /**
   A marked repository of another peer id, in the middle of anything except a run with the
   repository's own mnemonic: the peer id file and what the sidecar has read of it disagree with the
   configuration, and a node run past its marker check is for yet another identity.
   */
  ghost predicate Stuck(s: State, own: Identity) {
    && Locked(s, own) && own.peer != "" && s.repo.conflict && s.repo.peerFile != Some(own.peer)
    && (s.node.WritePeer? || s.node.ReadConfig? ==> s.node.d.peer != own.peer)
    && !s.node.RemovePrivate? && (s.node.WriteReady? || s.node.NodeDone? ==> s.node.verdict == Conflict)
    && (s.side.Compare? || s.side.NeedKey? || s.side.MarkConflict? ==> s.side.p != own.peer)
    && (s.side.AwaitReady? || s.side.InitRepo? || s.side.ReadExpected? || s.side.Compare? || s.side.NeedKey?
        || s.side.MarkConflict? || s.side.SideFailed?)
  }

  lemma StuckStep(s: State, e: Event, own: Identity)
    requires Stuck(s, own)
    ensures Stuck(Next(s, e), own)
  {
    match e
    case NodeSteps => StuckNodeStep(s, own);
    case SideSteps(generated) => StuckSideStep(s, generated, own);
    case _ =>
  }

  lemma StuckNodeStep(s: State, own: Identity)
    requires Stuck(s, own)
    ensures Stuck(Next(s, NodeSteps), own)
  {
  }

  lemma StuckSideStep(s: State, generated: Identity, own: Identity)
    requires Stuck(s, own)
    ensures Stuck(Next(s, SideSteps(generated)), own)
  {
  }

  /**
   From then on the marker stays and every preparation reports the conflict, with any mnemonics
   whatsoever, the repository's own included.
   */
  lemma {:induction false} ConflictIsPermanent(s: State, events: seq<Event>, own: Identity)
    requires Stuck(s, own)
    ensures Stuck(Run(s, events), own)
  {
    hide Next, Stuck;
    if events != [] {
      var n := |events| - 1;
      ConflictIsPermanent(s, events[..n], own);
      StuckStep(Run(s, events[..n]), events[n], own);
    }
  }

  /** A marked repository the sidecar was never started for stays as it is. */
  lemma {:induction false} NeverReady(r: Repo, events: seq<Event>)
    requires r.conflict && !NonEmpty(r.ready)
    ensures
      var s := Run(Idle(r), events);
      && s.repo == r && s.side == AwaitReady
      && (s.node.NodeIdle? || s.node.CheckMarker? || (s.node.NodeDone? && s.node.verdict == Conflict))
  {
    if events != [] {
      NeverReady(r, events[..|events| - 1]);
    }
  }

  /** Running the sidecar alone for as long as it goes, on a repository with a configuration. */
  lemma {:induction false} ReachSideEnd(s: State, t: State, g: Identity, m: set<Identity>)
    requires Reaches(s, t, m) && Permitted(SideSteps(g), m) && t.repo.config.Some?
    ensures
      var (r, pc) := SideToEnd(t.repo, t.side, g);
      Reaches(s, t.(repo := r, side := pc), m)
    decreases SideRank(t.side)
  {
    hide Reaches, Permitted;
    if SideRank(t.side) > 0 {
      ReachNext(s, t, SideSteps(g), m);
      ReachSideEnd(s, Next(t, SideSteps(g)), g, m);
    }
  }

  /** One whole node run. */
  lemma ReachNodeRun(s: State, t: State, d: Identity, m: set<Identity>)
    requires Reaches(s, t, m) && d in m && (t.node.NodeIdle? || t.node.NodeDone?)
    ensures
      var (r, pc) := NodeToEnd(t.repo, CheckMarker(d));
      Reaches(s, t.(repo := r, node := pc), m)
  {
    hide Reaches, NodeToEnd;
    ReachNext(s, t, NodeStarts(d), m);
    ReachNodeEnd(s, Next(t, NodeStarts(d)), m);
  }

  /** One whole sidecar run, on a repository with a configuration. */
  lemma ReachSideRun(s: State, t: State, g: Identity, m: set<Identity>)
    requires Reaches(s, t, m) && Permitted(SideSteps(g), m) && t.repo.config.Some?
    requires t.side == AwaitReady && NonEmpty(t.repo.ready)
    ensures
      var (r, pc) := SideToEnd(t.repo, InitRepo, g);
      Reaches(s, t.(repo := r, side := pc), m)
  {
    hide Reaches, SideToEnd;
    ReachNext(s, t, SideSteps(g), m);
    ReachSideEnd(s, t.(side := InitRepo), g, m);
  }

  /** An identity the container may generate while only d is derived. */
  function Other(d: Identity): (g: Identity)
    ensures g.peer != "" && g.peer != d.peer
  {
    Identity(d.peer + "x", d.key)
  }

  /** A repository with an identity of its own gets stuck after one run of each side with another mnemonic. */
  lemma ConflictArises(r: Repo, own: Identity, d: Identity)
    requires r.config == Some(own) && r.privateFile == None && !r.conflict
    requires own.peer != "" && d.peer != "" && d.peer != own.peer
    ensures exists s :: Reaches(Idle(r), s, {d}) && Stuck(s, own)
  {
    hide Reaches, NodeToEnd, SideToEnd;
    var (m, s0, g) := ({d}, Idle(r), Other(d));
    ReachStart(s0, m);
    ReachNodeRun(s0, s0, d, m);
    NodeEnds(r, d);
    var r1 := r.(peerFile := Some(d.peer), ready := Some(d.peer));
    var s1 := s0.(repo := r1, node := NodeDone(d, Conflict));
    ReachSideRun(s0, s1, g, m);
    ForeignGetsMarked(r1, own, d.peer, g);
    assert Reaches(s0, s1.(repo := r1.(conflict := true), side := SideFailed), m);
  }

  /**
   Restoring the mnemonic: on an idle repository with an identity of its own and no key file, some
   run with its own mnemonic gets a preparation to succeed if and only if no marker is set, or the
   peer id file already names that identity and the sidecar may start.
   */
  lemma RestoringHelpsIff(r: Repo, own: Identity)
    requires r.config == Some(own) && r.privateFile == None && own.peer != ""
    ensures (exists s :: Reaches(Idle(r), s, {own}) && s.node == NodeDone(own, Prepared)) <==>
            !r.conflict || (r.peerFile == Some(own.peer) && NonEmpty(r.ready))
  {
    if !r.conflict || (r.peerFile == Some(own.peer) && NonEmpty(r.ready)) {
      RestoringHelps(r, own);
    } else {
      forall s | Reaches(Idle(r), s, {own}) ensures s.node != NodeDone(own, Prepared) {
        var events :| AllPermitted(events, {own}) && Run(Idle(r), events) == s;
        if r.peerFile != Some(own.peer) {
          ConflictIsPermanent(Idle(r), events, own);
        } else {
          NeverReady(r, events);
        }
      }
    }
  }

  lemma RestoringHelps(r: Repo, own: Identity)
    requires r.config == Some(own) && r.privateFile == None && own.peer != ""
    requires !r.conflict || (r.peerFile == Some(own.peer) && NonEmpty(r.ready))
    ensures exists s :: Reaches(Idle(r), s, {own}) && s.node == NodeDone(own, Prepared)
  {
    hide Reaches, NodeToEnd, SideToEnd;
    var (m, s0, g) := ({own}, Idle(r), Other(own));
    ReachStart(s0, m);
    if !r.conflict {
      NodeEnds(r, own);
      ReachNodeRun(s0, s0, own, m);
    } else {
      ReachSideRun(s0, s0, g, m);
      SideSettles(r, own, g);
      var (r1, pc) := SideToEnd(r, InitRepo, g);
      ReachNodeRun(s0, s0.(repo := r1, side := pc), own, m);
      NodeEnds(r1, own);
    }
  }

  /** A sidecar run on a repository whose peer id file agrees clears the marker. */
  lemma SideSettles(r: Repo, own: Identity, generated: Identity)
    requires r.config == Some(own) && r.peerFile == Some(own.peer) && own.peer != ""
    ensures SideToEnd(r, InitRepo, generated)
         == (r.(privateFile := None, conflict := false, managed := true), SideDone)
  {
    hide SideToEnd;
    SideUnroll(r, InitRepo, generated);
    SideUnroll(r, ReadExpected, generated);
    SideUnroll(r, Compare(own.peer), generated);
    SettleEnds(r, generated);
  }

  /**
   A marker that is written while a run with the repository's own mnemonic is already past its
   check does not stop that run, and the next sidecar run clears it.
   */
  lemma MarkerCanComeTooLate(own: Identity, d: Identity)
    requires own.peer != "" && d.peer != "" && d.peer != own.peer
    ensures exists s, s' ::
      && Reaches(Idle(EMPTY.(config := Some(own))), s, {own, d}) && s.repo.conflict && s.node == WritePeer(own)
      && Reaches(s, s', {own, d}) && s'.node == NodeDone(own, Prepared) && s'.side == SideDone && !s'.repo.conflict
  {
    hide Reaches, NodeToEnd, SideToEnd;
    var m := {own, d};
    var g := Identity(own.peer + d.peer, "");
    var r0 := EMPTY.(config := Some(own));
    var s0 := Idle(r0);
    var step := SideSteps(g);
    ReachStart(s0, m);
    NodeEnds(r0, d);
    ReachNodeRun(s0, s0, d, m);
    var r1 := r0.(peerFile := Some(d.peer), ready := Some(d.peer));
    var done := NodeDone(d, Conflict);
    ReachNext(s0, State(r1, done, AwaitReady, None), step, m);
    ReachNext(s0, State(r1, done, InitRepo, None), step, m);
    ReachNext(s0, State(r1, done, ReadExpected, None), step, m);
    ReachNext(s0, State(r1, done, Compare(d.peer), None), step, m);
    ReachNext(s0, State(r1, done, NeedKey(d.peer), None), step, m);
    ReachNext(s0, State(r1, done, MarkConflict(d.peer), None), NodeStarts(own), m);
    ReachNext(s0, State(r1, CheckMarker(own), MarkConflict(d.peer), None), NodeSteps, m);
    ReachNext(s0, State(r1, WritePeer(own), MarkConflict(d.peer), None), step, m);
    var r2 := r1.(conflict := true);
    var s := State(r2, WritePeer(own), SideFailed, None);
    assert Reaches(s0, s, m);
    ReachStart(s, m);
    ReachNodeEnd(s, s, m);
    var r3 := r2.(peerFile := Some(own.peer), ready := Some(own.peer));
    OwnRunEnds(r2, own);
    var t := State(r3, NodeDone(own, Prepared), SideFailed, None);
    ReachNext(s, t, SideCrashes, m);
    ReachSideRun(s, t.(side := AwaitReady), g, m);
    SideSettles(r3, own, g);
    var s' := State(r3.(conflict := false, managed := true), NodeDone(own, Prepared), SideDone, None);
    assert Reaches(s, s', m);
  }

  /** What a run past its marker check does when the configuration agrees with it. */
  lemma OwnRunEnds(r: Repo, own: Identity)
    requires r.config == Some(own)
    ensures NodeToEnd(r, WritePeer(own))
         == (r.(peerFile := Some(own.peer), privateFile := None, ready := Some(own.peer)), NodeDone(own, Prepared))
  {
    hide NodeToEnd;
    var r1 := r.(peerFile := Some(own.peer));
    var r2 := r1.(privateFile := None);
    NodeUnroll(r, WritePeer(own));
    NodeUnroll(r1, ReadConfig(own));
    NodeUnroll(r1, RemovePrivate(own));
    NodeUnroll(r2, WriteReady(own, Prepared));
    NodeUnroll(r2.(ready := Some(own.peer)), NodeDone(own, Prepared));
  }

  lemma MarkEnds(r: Repo, p: string, generated: Identity)
    ensures SideToEnd(r, MarkConflict(p), generated) == (r.(conflict := true), SideFailed)
  {
    hide SideToEnd;
    SideUnroll(r, MarkConflict(p), generated);
    SideUnroll(r.(conflict := true), SideFailed, generated);
  }

  /** An undisturbed sidecar run on such a repository marks the conflict and changes nothing else. */
  lemma ForeignGetsMarked(r: Repo, own: Identity, p: string, generated: Identity)
    requires r.config == Some(own) && r.privateFile == None && r.peerFile == Some(p) && p != "" && p != own.peer
    ensures SideToEnd(r, InitRepo, generated) == (r.(conflict := true), SideFailed)
  {
    SideRunIs(r, generated);
  }

  /** With one mnemonic for another identity, a repository with its own identity reports only conflicts. */
  ghost predicate Foreign(s: State, own: Identity, d: Identity) {
    && Locked(s, own) && own.peer != d.peer && own.peer != ""
    && (s.repo.peerFile.Some? ==> s.repo.peerFile.value == d.peer)
    && (!s.node.NodeIdle? ==> s.node.d == d)
    && !s.node.RemovePrivate? && (s.node.WriteReady? || s.node.NodeDone? ==> s.node.verdict == Conflict)
    && (s.side.Compare? || s.side.NeedKey? || s.side.MarkConflict? ==> s.side.p == d.peer)
    && (s.side.AwaitReady? || s.side.InitRepo? || s.side.ReadExpected? || s.side.Compare? || s.side.NeedKey?
        || s.side.MarkConflict? || s.side.SideFailed?)
  }

  /** With a fixed mnemonic every preparation reports the conflict, and a written marker persists. */
  lemma {:induction false} ForeignAlwaysConflicts(s: State, events: seq<Event>, own: Identity, d: Identity)
    requires Foreign(s, own, d) && AllPermitted(events, {d})
    ensures Foreign(Run(s, events), own, d)
    ensures s.repo.conflict ==> Run(s, events).repo.conflict
  {
    if events != [] {
      var n := |events| - 1;
      ForeignAlwaysConflicts(s, events[..n], own, d);
      var t := Run(s, events[..n]);
      assert Permitted(events[n], {d});
      match events[n]
      case NodeSteps => ForeignNodeStep(t, own, d);
      case SideSteps(generated) => ForeignSideStep(t, own, d, generated);
      case _ =>
    }
  }

  lemma ForeignNodeStep(s: State, own: Identity, d: Identity)
    requires Foreign(s, own, d)
    ensures Foreign(Next(s, NodeSteps), own, d) && Next(s, NodeSteps).repo.conflict == s.repo.conflict
  {
  }

  lemma ForeignSideStep(s: State, own: Identity, d: Identity, generated: Identity)
    requires Foreign(s, own, d)
    ensures Foreign(Next(s, SideSteps(generated)), own, d)
    ensures s.repo.conflict ==> Next(s, SideSteps(generated)).repo.conflict
  {
  }

  /** A node restarted while the sidecar is still installing reports a conflict although there is none. */
  lemma ConflictCanBeSpurious(d: Identity, g: Identity)
    requires d.peer != "" && d.key != "" && g.peer != "" && g.peer != d.peer
    ensures exists s :: Reaches(Idle(EMPTY), s, {d}) && s.node == NodeDone(d, Conflict) && s.repo.config == Some(g)
                        && s.side == ReadExpected && SideToEnd(s.repo, s.side, g).0.config == Some(d)
  {
    hide Reaches;
    var m := {d};
    var s0 := Idle(EMPTY);
    ReachStart(s0, m);
    ReachNext(s0, s0, NodeStarts(d), m);
    var s1 := Next(s0, NodeStarts(d));
    ReachNodeEnd(s0, s1, m);
    NodeEnds(EMPTY, d);
    var (r, pc) := NodeToEnd(EMPTY, CheckMarker(d));
    var s2 := s1.(repo := r, node := pc);
    ReachNext(s0, s2, SideSteps(g), m);
    ReachNext(s0, s2.(side := InitRepo), SideSteps(g), m);
    var r1 := r.(config := Some(g));
    var s3 := State(r1, pc, ReadExpected, Some(g));
    ReachNext(s0, s3, NodeStarts(d), m);
    var s4 := Next(s3, NodeStarts(d));
    ReachNodeEnd(s0, s4, m);
    NodeEnds(r1, d);
    SideEnds(r1, d, g);
    var end := s4.(repo := NodeToEnd(r1, CheckMarker(d)).0, node := NodeDone(d, Conflict));
    assert Reaches(s0, end, m);
  }

  /**
   In every state reachable with one mnemonic from an empty volume, a node run reports a conflict
   if and only if a configuration exists in which the derived identity is not installed yet.
   */
  lemma SpuriousIff(events: seq<Event>, d: Identity)
    requires d.peer != "" && d.key != "" && AllPermitted(events, {d})
    ensures
      var s := Run(Idle(EMPTY), events);
      NodeToEnd(s.repo, CheckMarker(d)).1 == NodeDone(d, Conflict) <==>
        s.repo.config.Some? && s.repo.config != Some(d)
  {
    hide NodeToEnd, Run;
    RunKeeps(events, d);
    NodeEnds(Run(Idle(EMPTY), events).repo, d);
  }

  // ---- the two programs as they are written ----

  /** The shared directory, changed in place by the node and by the script. */
  class KuboRepo {
    var peerFile: Option<string>
    var privateFile: Option<string>
    var ready: Option<string>
    var conflict: bool
    var config: Option<Identity>
    var temp: Temp
    var managed: bool

    function Files(): Repo
      reads this
    {
      Repo(peerFile, privateFile, ready, conflict, config, temp, managed)
    }

    /** PrepareKuboIdentity: the node's steps, uninterrupted. */
    method PrepareKuboIdentity(d: Identity) returns (verdict: Verdict)
      modifies this
      ensures (Files(), NodeDone(d, verdict)) == NodeToEnd(old(Files()), CheckMarker(d))
    {
      if conflict {
        return Conflict;
      }
      NodeEnds(Files(), d);
      peerFile := Some(d.peer);
      if config.None? {
        privateFile := Some(d.key);
        ready := Some(d.peer);
        return Prepared;
      }
      if config.value.peer != "" && config.value.peer != d.peer {
        ready := Some(d.peer);
        return Conflict;
      }
      privateFile := None;
      ready := Some(d.peer);
      return Prepared;
    }

    /** kubo-init.sh: the sidecar's steps, uninterrupted, from reading the expected peer id on. */
    method InitScript(ghost generated: Identity) returns (ok: bool)
      modifies this
      ensures (Files(), if ok then SideDone else SideFailed) == SideToEnd(old(Files()), ReadExpected, generated)
    {
      ghost var r := Files();
      if !NonEmpty(peerFile) {
        return false;
      }
      var expected := peerFile.value;
      assert SideToEnd(r, ReadExpected, generated) == SideToEnd(r, Compare(expected), generated);
      if config.None? {
        return false;
      }
      if config.value.peer != expected {
        assert SideToEnd(r, Compare(expected), generated) == SideToEnd(r, NeedKey(expected), generated);
        if !NonEmpty(privateFile) {
          assert SideToEnd(r, NeedKey(expected), generated) == SideToEnd(r, MarkConflict(expected), generated);
          MarkEnds(r, expected, generated);
          conflict := true;
          return false;
        }
        InstallSteps(r, expected, generated);
        temp := Partial;
        var key := privateFile.value;
        temp := Full(Identity(expected, key));
        config, temp := Some(temp.identity), NoTemp;
      }
      SettleEnds(Files(), generated);
      privateFile := None;
      conflict := false;
      managed := true;
      return true;
    }
  }

  lemma InstallSteps(r: Repo, p: string, generated: Identity)
    requires NonEmpty(r.privateFile)
    ensures SideToEnd(r, NeedKey(p), generated)
         == SideToEnd(r.(config := Some(Identity(p, r.privateFile.value)), temp := NoTemp), Configure, generated)
  {
    hide SideToEnd;
    var k := r.privateFile.value;
    var r1 := r.(temp := Partial);
    var r2 := r.(temp := Full(Identity(p, k)));
    var r3 := r.(config := Some(Identity(p, k)), temp := NoTemp);
    SideUnroll(r, NeedKey(p), generated);
    SideUnroll(r, OpenTemp(p), generated);
    SideUnroll(r1, FillTemp(p, k), generated);
    SideUnroll(r2, Move(p), generated);
    SideUnroll(r3, Verify(p), generated);
  }
}
