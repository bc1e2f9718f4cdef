/**
 Carrier secrets: loadOrCreateKeys (internal/wg/wg.go), loadOrCreateSecrets, getOrSet and
 loadOrCreateCert (internal/stealth), and the stealth manager's Init, Start, rotations and Close.
 Every settings operation may fail; a load stops at the first failure, keeping what it wrote.
 */
module CarrierSecrets {
  import opened Text

  // ---- the settings table ----

  datatype Name =
    | WGPrivate | WGPublic
    | RealityPrivate | RealityPublic | RealityShortID | VLESSUUID | Hysteria2Pass
    | Hysteria2Cert | Hysteria2Key

  type Settings = map<Name, string>

  /** The settings, and how many more operations on them succeed before one fails. */
  datatype Disk = Disk(m: Settings, left: nat)

  /** GetSetting: an absent key reads as the empty string. */
  function Value(m: Settings, name: Name): string {
    if name in m then m[name] else ""
  }

  function Get(d: Disk, name: Name): (Option<string>, Disk) {
    if d.left == 0 then (None, d) else (Some(Value(d.m, name)), d.(left := d.left - 1))
  }

  function Set(d: Disk, name: Name, value: string): (bool, Disk) {
    if d.left == 0 then (false, d) else (true, Disk(d.m[name := value], d.left - 1))
  }

  // ---- pairs ----

  /** Two values that belong together: a private and a public key, or a certificate and its key. */
  datatype Pair = Pair(first: string, second: string)

  /** loadOrCreateKeys: the private half alone decides whether a pair is generated; it is stored first. */
  function LoadKeys(d: Disk, priv: Name, pub: Name, made: Pair): (Option<Pair>, Disk) {
    var (v, d1) := Get(d, priv);
    if v.None? then (None, d1)
    else if v.value != "" then ReadPublic(d1, pub, v.value)
    else
      var (ok2, d2) := Set(d1, priv, made.first);
      if !ok2 then (None, d2) else
      var (ok3, d3) := Set(d2, pub, made.second);
      if !ok3 then (None, d3) else ReadPublic(d3, pub, made.first)
  }

  function ReadPublic(d: Disk, pub: Name, priv: string): (Option<Pair>, Disk) {
    var (v, d1) := Get(d, pub);
    if v.None? then (None, d1) else (Some(Pair(priv, v.value)), d1)
  }

  /** loadOrCreateCert: both halves are needed, else both are generated and stored, certificate first. */
  function LoadCert(d: Disk, cert: Name, key: Name, made: Pair): (Option<Pair>, Disk) {
    var (c, d1) := Get(d, cert);
    if c.None? then (None, d1) else
    var (k, d2) := Get(d1, key);
    if k.None? then (None, d2)
    else if c.value != "" && k.value != "" then (Some(Pair(c.value, k.value)), d2)
    else
      var (ok3, d3) := Set(d2, cert, made.first);
      if !ok3 then (None, d3) else
      var (ok4, d4) := Set(d3, key, made.second);
      if !ok4 then (None, d4) else (Some(made), d4)
  }

  /** The settings a pair load may leave behind, in the order it writes them. */
  ghost predicate Progress(m: Settings, m': Settings, a: Name, b: Name, made: Pair, complete: bool) {
    || m' == m[a := made.first][b := made.second]
    || (!complete && (m' == m || m' == m[a := made.first]))
  }

  lemma KeyCases(d: Disk, priv: Name, pub: Name, made: Pair)
    requires priv != pub
    ensures
      var (p, d') := LoadKeys(d, priv, pub, made);
      && (Value(d.m, priv) != "" ==>
            d'.m == d.m && (p.Some? ==> p.value == Pair(Value(d.m, priv), Value(d.m, pub))))
      && (Value(d.m, priv) == "" ==>
            Progress(d.m, d'.m, priv, pub, made, p.Some?) && (p.Some? ==> p.value == made))
  {
  }

  lemma CertCases(d: Disk, cert: Name, key: Name, made: Pair)
    requires cert != key
    ensures
      var (p, d') := LoadCert(d, cert, key, made);
      var whole := Value(d.m, cert) != "" && Value(d.m, key) != "";
      && (whole ==> d'.m == d.m && (p.Some? ==> p.value == Pair(Value(d.m, cert), Value(d.m, key))))
      && (!whole ==> Progress(d.m, d'.m, cert, key, made, p.Some?) && (p.Some? ==> p.value == made))
  {
  }

  datatype Kind = KeyPair | Certificate

  function LoadPair(kind: Kind, d: Disk, a: Name, b: Name, made: Pair): (Option<Pair>, Disk) {
    if kind.KeyPair? then LoadKeys(d, a, b, made) else LoadCert(d, a, b, made)
  }

  /** One load: what it would generate, and how many settings operations it gets before one fails. */
  datatype Load = Load(made: Pair, left: nat)

  /** The settings after a sequence of loads, complete or interrupted. */
  function RunLoads(kind: Kind, m: Settings, a: Name, b: Name, loads: seq<Load>): Settings {
    if loads == [] then m else
    var last := loads[|loads| - 1];
    LoadPair(kind, Disk(RunLoads(kind, m, a, b, loads[..|loads| - 1]), last.left), a, b, last.made).1.m
  }

  /** Generated values are non-empty and belong together. */
  ghost predicate Proper(p: Pair, belong: Pair -> bool) {
    p.first != "" && p.second != "" && belong(p)
  }

  ghost predicate AllProper(loads: seq<Load>, belong: Pair -> bool) {
    forall i :: 0 <= i < |loads| ==> Proper(loads[i].made, belong)
  }

  /** A stored second half belongs to the stored first half. */
  ghost predicate Coherent(m: Settings, a: Name, b: Name, belong: Pair -> bool) {
    Value(m, b) != "" ==> Value(m, a) != "" && belong(Pair(Value(m, a), Value(m, b)))
  }

  /** A load, however far it gets, keeps the stored pair coherent, and returns no pair that does not belong together. */
  lemma LoadKeepsCoherent(kind: Kind, d: Disk, a: Name, b: Name, made: Pair, belong: Pair -> bool)
    requires a != b && Coherent(d.m, a, b, belong) && Proper(made, belong)
    ensures
      var (p, d') := LoadPair(kind, d, a, b, made);
      && Coherent(d'.m, a, b, belong)
      && (p.Some? && p.value.first != "" && p.value.second != "" ==> belong(p.value))
      && (p.Some? && kind.Certificate? ==> Proper(p.value, belong))
  {
    hide LoadKeys, LoadCert;
    KeyCases(d, a, b, made);
    CertCases(d, a, b, made);
  }

  lemma {:induction false} LoadsKeepCoherent(kind: Kind, m: Settings, a: Name, b: Name, loads: seq<Load>,
                                             belong: Pair -> bool)
    requires a != b && Coherent(m, a, b, belong) && AllProper(loads, belong)
    ensures Coherent(RunLoads(kind, m, a, b, loads), a, b, belong)
  {
    hide LoadPair, Coherent;
    if loads != [] {
      var init, last := loads[..|loads| - 1], loads[|loads| - 1];
      LoadsKeepCoherent(kind, m, a, b, init, belong);
      LoadKeepsCoherent(kind, Disk(RunLoads(kind, m, a, b, init), last.left), a, b, last.made, belong);
    }
  }

  /**
   After any sequence of loads interrupted anywhere, a pair that a load returns with both halves
   non-empty belongs together; a certificate load always returns such a pair.
   */
  lemma LoadedPairsBelong(kind: Kind, a: Name, b: Name, loads: seq<Load>, next: Load, belong: Pair -> bool)
    requires a != b && AllProper(loads, belong) && Proper(next.made, belong)
    ensures
      var (p, _) := LoadPair(kind, Disk(RunLoads(kind, map[], a, b, loads), next.left), a, b, next.made);
      && (p.Some? && p.value.first != "" && p.value.second != "" ==> belong(p.value))
      && (p.Some? && kind.Certificate? ==> Proper(p.value, belong))
  {
    hide LoadPair, RunLoads;
    LoadsKeepCoherent(kind, map[], a, b, loads, belong);
    LoadKeepsCoherent(kind, Disk(RunLoads(kind, map[], a, b, loads), next.left), a, b, next.made, belong);
  }

  /** A certificate torn between its two writes is replaced as a whole by the next completed load. */
  lemma TornCertificateRepaired(m: Settings, cert: Name, key: Name, next: Load)
    requires cert != key && (Value(m, cert) == "" || Value(m, key) == "")
    ensures
      var (p, d) := LoadCert(Disk(m, next.left), cert, key, next.made);
      p.Some? ==> p.value == next.made && Value(d.m, cert) == next.made.first && Value(d.m, key) == next.made.second
  {
  }

  /** A key pair torn between its two writes is never repaired: every later load completes with an empty public half. */
  lemma {:induction false} TornKeysStay(m: Settings, priv: Name, pub: Name, loads: seq<Load>, next: Load)
    requires priv != pub && Value(m, priv) != "" && Value(m, pub) == ""
    ensures RunLoads(KeyPair, m, priv, pub, loads) == m
    ensures
      var (p, _) := LoadKeys(Disk(m, next.left), priv, pub, next.made);
      p.Some? <==> next.left >= 2
    ensures
      var (p, _) := LoadKeys(Disk(m, next.left), priv, pub, next.made);
      p.Some? ==> p.value == Pair(Value(m, priv), "")
  {
    if loads != [] {
      TornKeysStay(m, priv, pub, loads[..|loads| - 1], next);
    }
  }

  /** A completed key load yields both halves if and only if the stored pair is not torn. */
  lemma KeysCompleteIff(m: Settings, priv: Name, pub: Name, next: Load, belong: Pair -> bool)
    requires priv != pub && Coherent(m, priv, pub, belong) && Proper(next.made, belong)
    requires LoadKeys(Disk(m, next.left), priv, pub, next.made).0.Some?
    ensures
      var p := LoadKeys(Disk(m, next.left), priv, pub, next.made).0.value;
      Proper(p, belong) <==> !(Value(m, priv) != "" && Value(m, pub) == "")
  {
  }

  /** The settings hold a pair that every load accepts as it is. */
  ghost predicate Settled(kind: Kind, m: Settings, a: Name, b: Name, p: Pair) {
    Value(m, a) == p.first != "" && Value(m, b) == p.second && (kind.Certificate? ==> p.second != "")
  }

  lemma CompleteLoadSettles(kind: Kind, d: Disk, a: Name, b: Name, made: Pair)
    requires a != b && made.first != "" && made.second != ""
    ensures
      var (p, d') := LoadPair(kind, d, a, b, made);
      p.Some? ==> Settled(kind, d'.m, a, b, p.value)
  {
    hide LoadKeys, LoadCert;
    KeyCases(d, a, b, made);
    CertCases(d, a, b, made);
  }

  lemma SettledLoad(kind: Kind, d: Disk, a: Name, b: Name, made: Pair, p: Pair)
    requires a != b && Settled(kind, d.m, a, b, p)
    ensures LoadPair(kind, d, a, b, made).1.m == d.m
    ensures LoadPair(kind, d, a, b, made).0.Some? ==> LoadPair(kind, d, a, b, made).0.value == p
  {
    hide LoadKeys, LoadCert;
    KeyCases(d, a, b, made);
    CertCases(d, a, b, made);
  }

  lemma {:induction false} SettledLoads(kind: Kind, m: Settings, a: Name, b: Name, loads: seq<Load>, p: Pair)
    requires a != b && Settled(kind, m, a, b, p)
    ensures RunLoads(kind, m, a, b, loads) == m
  {
    hide LoadPair, Settled;
    if loads != [] {
      SettledLoads(kind, m, a, b, loads[..|loads| - 1], p);
      SettledLoad(kind, Disk(m, loads[|loads| - 1].left), a, b, loads[|loads| - 1].made, p);
    }
  }

  /** After one complete load every later load returns the same pair, if it completes, and writes nothing. */
  lemma LoadsAreStable(kind: Kind, m: Settings, a: Name, b: Name, first: Load, later: seq<Load>, last: Load)
    requires a != b && first.made.first != "" && first.made.second != ""
    requires LoadPair(kind, Disk(m, first.left), a, b, first.made).0.Some?
    ensures
      var (p, d) := LoadPair(kind, Disk(m, first.left), a, b, first.made);
      var (q, e) := LoadPair(kind, Disk(RunLoads(kind, d.m, a, b, later), last.left), a, b, last.made);
      RunLoads(kind, d.m, a, b, later) == d.m && e.m == d.m && (q.Some? ==> q == p)
  {
    hide LoadPair, RunLoads, Settled;
    CompleteLoadSettles(kind, Disk(m, first.left), a, b, first.made);
    var (p, d) := LoadPair(kind, Disk(m, first.left), a, b, first.made);
    SettledLoads(kind, d.m, a, b, later, p.value);
    SettledLoad(kind, Disk(d.m, last.left), a, b, last.made, p.value);
  }

  // ---- all carrier secrets ----

  datatype Secrets = Secrets(priv: string, pub: string, shortID: string, vless: string, hysteria2: string)

  /** getOrSet: the stored value, or the default stored first. */
  function GetOrSet(d: Disk, name: Name, def: string): (Option<string>, Disk) {
    var (v, d1) := Get(d, name);
    if v.None? || v.value != "" then (v, d1) else
    var (ok, d2) := Set(d1, name, def);
    if ok then (Some(def), d2) else (None, d2)
  }

  /** loadOrCreateSecrets. */
  function LoadSecrets(d: Disk, made: Secrets): (Option<Secrets>, Disk) {
    var (keys, d1) := LoadKeys(d, RealityPrivate, RealityPublic, Pair(made.priv, made.pub));
    if keys.None? then (None, d1) else
    var (shortID, d2) := GetOrSet(d1, RealityShortID, made.shortID);
    if shortID.None? then (None, d2) else
    var (vless, d3) := GetOrSet(d2, VLESSUUID, made.vless);
    if vless.None? then (None, d3) else
    var (hysteria2, d4) := GetOrSet(d3, Hysteria2Pass, made.hysteria2);
    if hysteria2.None? then (None, d4) else
    (Some(Secrets(keys.value.first, keys.value.second, shortID.value, vless.value, hysteria2.value)), d4)
  }

  /** The secrets as stored. */
  function Stored(m: Settings): Secrets {
    Secrets(Value(m, RealityPrivate), Value(m, RealityPublic), Value(m, RealityShortID), Value(m, VLESSUUID),
            Value(m, Hysteria2Pass))
  }

  predicate AllNonEmpty(s: Secrets) {
    s.priv != "" && s.pub != "" && s.shortID != "" && s.vless != "" && s.hysteria2 != ""
  }

  /** Everything but the public key, which a torn pair lacks, is non-empty. */
  predicate Filled(s: Secrets) {
    s.priv != "" && s.shortID != "" && s.vless != "" && s.hysteria2 != ""
  }

  /** getOrSet touches one setting, keeps it if held, and returns what it then holds. */
  lemma GetOrSetValues(d: Disk, name: Name, def: string)
    requires def != ""
    ensures
      var (v, d') := GetOrSet(d, name, def);
      && (forall n :: n != name ==> Value(d'.m, n) == Value(d.m, n))
      && (Value(d.m, name) != "" ==> Value(d'.m, name) == Value(d.m, name))
      && (v.Some? ==> v.value == Value(d'.m, name) != "")
  {
  }

  /** A key load touches two settings, keeps them if a private key is held, and returns what they then hold. */
  lemma KeyValues(d: Disk, priv: Name, pub: Name, made: Pair)
    requires priv != pub && made.first != ""
    ensures
      var (p, d') := LoadKeys(d, priv, pub, made);
      && (forall n :: n != priv && n != pub ==> Value(d'.m, n) == Value(d.m, n))
      && (Value(d.m, priv) != "" ==> Value(d'.m, priv) == Value(d.m, priv) && Value(d'.m, pub) == Value(d.m, pub))
      && (p.Some? ==> p.value == Pair(Value(d'.m, priv), Value(d'.m, pub)) && p.value.first != "")
  {
    hide LoadKeys;
    KeyCases(d, priv, pub, made);
  }

  /** m' agrees with m on every secret that m already holds, and on the key pair if m holds a private key. */
  ghost predicate KeepsHeld(m: Settings, m': Settings) {
    && (Value(m, RealityPrivate) != "" ==> Stored(m').priv == Stored(m).priv && Stored(m').pub == Stored(m).pub)
    && (Value(m, RealityShortID) != "" ==> Stored(m').shortID == Stored(m).shortID)
    && (Value(m, VLESSUUID) != "" ==> Stored(m').vless == Stored(m).vless)
    && (Value(m, Hysteria2Pass) != "" ==> Stored(m').hysteria2 == Stored(m).hysteria2)
  }

  /** A completed load returns exactly what is stored then; no load, complete or not, changes a held secret. */
  lemma LoadReturnsStored(d: Disk, made: Secrets)
    requires AllNonEmpty(made)
    ensures
      var (s, d') := LoadSecrets(d, made);
      && KeepsHeld(d.m, d'.m)
      && (s.Some? ==> s.value == Stored(d'.m) && Filled(s.value))
  {
    hide LoadKeys, GetOrSet, Value;
    KeyValues(d, RealityPrivate, RealityPublic, Pair(made.priv, made.pub));
    var (keys, d1) := LoadKeys(d, RealityPrivate, RealityPublic, Pair(made.priv, made.pub));
    if keys.Some? {
      GetOrSetValues(d1, RealityShortID, made.shortID);
      var (shortID, d2) := GetOrSet(d1, RealityShortID, made.shortID);
      if shortID.Some? {
        GetOrSetValues(d2, VLESSUUID, made.vless);
        var (vless, d3) := GetOrSet(d2, VLESSUUID, made.vless);
        if vless.Some? {
          GetOrSetValues(d3, Hysteria2Pass, made.hysteria2);
          var (hysteria2, d4) := GetOrSet(d3, Hysteria2Pass, made.hysteria2);
          assert Value(d4.m, VLESSUUID) == Value(d3.m, VLESSUUID);
          assert Value(d4.m, RealityShortID) == Value(d3.m, RealityShortID) == Value(d2.m, RealityShortID);
          assert Value(d4.m, RealityPrivate) == Value(d3.m, RealityPrivate) == Value(d2.m, RealityPrivate);
          assert Value(d4.m, RealityPublic) == Value(d3.m, RealityPublic) == Value(d2.m, RealityPublic);
        }
      }
    }
  }

  // ---- the manager ----

  /** The settings, what the manager holds in memory, and what the running instance serves. */
  datatype Manager = Manager(
    disk: Disk, enabled: bool, secrets: Option<Secrets>, cert: Option<Pair>, served: Option<Secrets>)

  /** Init: loads secrets and certificate; memory changes only when both load. */
  function Init(g: Manager, made: Secrets, cert: Pair): (bool, Manager) {
    var (s, d1) := LoadSecrets(g.disk, made);
    if s.None? then (false, g.(disk := d1)) else
    var (c, d2) := LoadCert(d1, Hysteria2Cert, Hysteria2Key, cert);
    if c.None? then (false, g.(disk := d2)) else (true, g.(disk := d2, secrets := s, cert := c))
  }

  /** Start: a new instance serves the secrets in memory. */
  function Start(g: Manager, starts: bool): (bool, Manager) {
    if !g.enabled then (true, g)
    else if g.secrets.None? || !starts then (false, g)
    else (true, g.(served := g.secrets))
  }

  function Close(g: Manager): Manager {
    g.(served := None)
  }

  /** RotateReality: stores and adopts a new short id, then restarts a running instance. */
  function RotateReality(g: Manager, shortID: string, starts: bool): (bool, Manager) {
    if g.secrets.None? then (false, g) else
    var (ok, d) := Set(g.disk, RealityShortID, shortID);
    if !ok then (false, g.(disk := d)) else
    var g1 := g.(disk := d, secrets := Some(g.secrets.value.(shortID := shortID)));
    if g.served.Some? then Start(Close(g1), starts) else (true, g1)
  }

  /** RotateAllSecrets: stores three new secrets, reloads, then restarts a running instance. */
  function RotateAll(g: Manager, made: Secrets, cert: Pair, fallback: Secrets, starts: bool): (bool, Manager) {
    var (ready, g0) := if g.secrets.Some? then (true, g) else Init(g, fallback, cert);
    if !ready then (false, g0) else
    var (ok1, d1) := Set(g0.disk, VLESSUUID, made.vless);
    if !ok1 then (false, g0.(disk := d1)) else
    var (ok2, d2) := Set(d1, RealityShortID, made.shortID);
    if !ok2 then (false, g0.(disk := d2)) else
    var (ok3, d3) := Set(d2, Hysteria2Pass, made.hysteria2);
    if !ok3 then (false, g0.(disk := d3)) else
    var (s, d4) := LoadSecrets(d3, made);
    if s.None? then (false, g0.(disk := d4)) else
    var g1 := g0.(disk := d4, secrets := s);
    if g0.served.Some? then Start(Close(g1), starts) else (true, g1)
  }

  // ---- the same as objects that change in place ----

  class SettingsStore {
    var disk: Disk

    method GetSetting(name: Name) returns (v: Option<string>)
      modifies this
      ensures (v, disk) == Get(old(disk), name)
    {
      if disk.left == 0 {
        return None;
      }
      disk := disk.(left := disk.left - 1);
      return Some(if name in disk.m then disk.m[name] else "");
    }

    method SetSetting(name: Name, value: string) returns (ok: bool)
      modifies this
      ensures (ok, disk) == Set(old(disk), name, value)
    {
      if disk.left == 0 {
        return false;
      }
      disk := Disk(disk.m[name := value], disk.left - 1);
      return true;
    }

    method LoadOrCreateKeys(priv: Name, pub: Name, made: Pair) returns (p: Option<Pair>)
      modifies this
      ensures (p, disk) == LoadKeys(old(disk), priv, pub, made)
    {
      var v := GetSetting(priv);
      if v.None? {
        return None;
      }
      var first := v.value;
      if first == "" {
        first := made.first;
        var ok := SetSetting(priv, made.first);
        if !ok {
          return None;
        }
        ok := SetSetting(pub, made.second);
        if !ok {
          return None;
        }
      }
      var second := GetSetting(pub);
      if second.None? {
        return None;
      }
      return Some(Pair(first, second.value));
    }

    method LoadOrCreateCert(cert: Name, key: Name, made: Pair) returns (p: Option<Pair>)
      modifies this
      ensures (p, disk) == LoadCert(old(disk), cert, key, made)
    {
      var c := GetSetting(cert);
      if c.None? {
        return None;
      }
      var k := GetSetting(key);
      if k.None? {
        return None;
      }
      if c.value != "" && k.value != "" {
        return Some(Pair(c.value, k.value));
      }
      var ok := SetSetting(cert, made.first);
      if !ok {
        return None;
      }
      ok := SetSetting(key, made.second);
      if !ok {
        return None;
      }
      return Some(made);
    }

    method GetOrSetDefault(name: Name, def: string) returns (v: Option<string>)
      modifies this
      ensures (v, disk) == GetOrSet(old(disk), name, def)
    {
      v := GetSetting(name);
      if v.None? || v.value != "" {
        return;
      }
      var ok := SetSetting(name, def);
      v := if ok then Some(def) else None;
    }

    method LoadOrCreateSecrets(made: Secrets) returns (s: Option<Secrets>)
      modifies this
      ensures (s, disk) == LoadSecrets(old(disk), made)
    {
      hide LoadKeys, GetOrSet;
      var keys := LoadOrCreateKeys(RealityPrivate, RealityPublic, Pair(made.priv, made.pub));
      if keys.None? {
        return None;
      }
      var shortID := GetOrSetDefault(RealityShortID, made.shortID);
      if shortID.None? {
        return None;
      }
      var vless := GetOrSetDefault(VLESSUUID, made.vless);
      if vless.None? {
        return None;
      }
      var hysteria2 := GetOrSetDefault(Hysteria2Pass, made.hysteria2);
      if hysteria2.None? {
        return None;
      }
      return Some(Secrets(keys.value.first, keys.value.second, shortID.value, vless.value, hysteria2.value));
    }
  }

  class StealthManager {
    const st: SettingsStore
    const enabled: bool
    var secrets: Option<Secrets>
    var cert: Option<Pair>
    var instance: Option<Secrets>
    var running: bool

    constructor (st: SettingsStore, enabled: bool)
      ensures this.st == st && View() == Manager(st.disk, enabled, None, None, None) && Valid()
    {
      this.st, this.enabled := st, enabled;
      secrets, cert, instance, running := None, None, None, false;
    }

    function View(): Manager
      reads this, st
    {
      Manager(st.disk, enabled, secrets, cert, instance)
    }

    predicate Valid()
      reads this
    {
      running <==> instance.Some?
    }

    method InitManager(made: Secrets, pair: Pair) returns (ok: bool)
      requires Valid()
      modifies this`secrets, this`cert, st
      ensures (ok, View()) == Init(old(View()), made, pair) && Valid()
    {
      hide LoadSecrets, LoadCert;
      var s := st.LoadOrCreateSecrets(made);
      if s.None? {
        return false;
      }
      var c := st.LoadOrCreateCert(Hysteria2Cert, Hysteria2Key, pair);
      if c.None? {
        return false;
      }
      secrets, cert := s, c;
      return true;
    }

    method StartInstance(starts: bool) returns (ok: bool)
      requires Valid()
      modifies this`instance, this`running
      ensures (ok, View()) == Start(old(View()), starts) && Valid()
    {
      if !enabled {
        return true;
      }
      if secrets.None? || !starts {
        return false;
      }
      instance, running := secrets, true;
      return true;
    }

    method CloseInstance()
      modifies this`instance, this`running
      ensures View() == Close(old(View())) && Valid()
    {
      instance, running := None, false;
    }

    method RotateRealityShortID(shortID: string, starts: bool) returns (ok: bool)
      requires Valid()
      modifies this, st
      ensures (ok, View()) == RotateReality(old(View()), shortID, starts) && Valid()
    {
      if secrets.None? {
        return false;
      }
      ok := st.SetSetting(RealityShortID, shortID);
      if !ok {
        return;
      }
      secrets := Some(secrets.value.(shortID := shortID));
      if running {
        CloseInstance();
        ok := StartInstance(starts);
      }
    }

    method RotateAllSecrets(made: Secrets, pair: Pair, fallback: Secrets, starts: bool) returns (ok: bool)
      requires Valid()
      modifies this, st
      ensures (ok, View()) == RotateAll(old(View()), made, pair, fallback, starts) && Valid()
    {
      hide LoadSecrets, Set, Init;
      if secrets.None? {
        ok := InitManager(fallback, pair);
        if !ok {
          return;
        }
      }
      ok := st.SetSetting(VLESSUUID, made.vless);
      if !ok {
        return;
      }
      ok := st.SetSetting(RealityShortID, made.shortID);
      if !ok {
        return;
      }
      ok := st.SetSetting(Hysteria2Pass, made.hysteria2);
      if !ok {
        return;
      }
      var s := st.LoadOrCreateSecrets(made);
      if s.None? {
        return false;
      }
      secrets := s;
      var wasRunning := running;
      if wasRunning {
        CloseInstance();
      }
      if wasRunning && enabled {
        ok := StartInstance(starts);
      }
    }
  }

  // ---- runs ----

  datatype Action =
    | InitAction(made: Secrets, cert: Pair, left: nat)
    | StartAction(starts: bool)
    | RotateRealityAction(shortID: string, left: nat, starts: bool)
    | RotateAllAction(made: Secrets, cert: Pair, fallback: Secrets, left: nat, starts: bool)
    | ElsewhereAction(made: Secrets, cert: Pair, fallback: Secrets, left: nat)
    | CloseAction

  /** The manager of another process over the same settings, before it has loaded anything. */
  function Outside(g: Manager, left: nat): Manager {
    Manager(Disk(g.disk.m, left), g.enabled, None, None, None)
  }

  /** The rotation command: a process of its own loads the secrets, rotates all of them and serves nothing. */
  function Elsewhere(g: Manager, a: Action): (bool, Manager)
    requires a.ElsewhereAction?
  {
    RotateAll(Outside(g, a.left), a.made, a.cert, a.fallback, false)
  }

  /** One call, here or by another process; Init is called only while nothing is running. */
  function Next(g: Manager, a: Action): Manager {
    match a
    case InitAction(made, cert, left) => if g.served.Some? then g else Init(WithLeft(g, left), made, cert).1
    case StartAction(starts) => Start(g, starts).1
    case RotateRealityAction(shortID, left, starts) => RotateReality(WithLeft(g, left), shortID, starts).1
    case RotateAllAction(made, cert, fallback, left, starts) =>
      RotateAll(WithLeft(g, left), made, cert, fallback, starts).1
    case ElsewhereAction(_, _, _, _) => g.(disk := g.disk.(m := Elsewhere(g, a).1.disk.m))
    case CloseAction => Close(g)
  }

  function WithLeft(g: Manager, left: nat): Manager {
    g.(disk := g.disk.(left := left))
  }

  function Run(g: Manager, actions: seq<Action>): Manager {
    if actions == [] then g else Next(Run(g, actions[..|actions| - 1]), actions[|actions| - 1])
  }

  function New(m: Settings, enabled: bool): Manager {
    Manager(Disk(m, 0), enabled, None, None, None)
  }

  /** Generated secrets are non-empty. */
  predicate Generated(a: Action) {
    match a
    case InitAction(made, _, _) => AllNonEmpty(made)
    case RotateRealityAction(shortID, _, _) => shortID != ""
    case RotateAllAction(made, _, fallback, _, _) => AllNonEmpty(made) && AllNonEmpty(fallback)
    case ElsewhereAction(made, _, fallback, _) => AllNonEmpty(made) && AllNonEmpty(fallback)
    case _ => true
  }

  predicate AllGenerated(actions: seq<Action>) {
    forall i :: 0 <= i < |actions| ==> Generated(actions[i])
  }

  /** A running instance serves the secrets in memory, none empty, and the key pair in memory is the stored one. */
  predicate Inv(g: Manager) {
    && (g.served.Some? ==> g.served == g.secrets && g.enabled)
    && (g.secrets.Some? ==> Filled(g.secrets.value) && SameKeys(g.secrets.value, Stored(g.disk.m)))
  }

  predicate SameKeys(s: Secrets, t: Secrets) {
    s.priv == t.priv && s.pub == t.pub
  }

  lemma SetValues(d: Disk, name: Name, value: string)
    ensures
      var (ok, d') := Set(d, name, value);
      && (forall n :: n != name ==> Value(d'.m, n) == Value(d.m, n))
      && (if ok then Value(d'.m, name) == value else d'.m == d.m)
  {
  }

  /** What a call of RotateAllSecrets does, whether it succeeds or not. */
  lemma RotateAllEffect(g: Manager, made: Secrets, cert: Pair, fallback: Secrets, starts: bool)
    requires Inv(g) && AllNonEmpty(made) && AllNonEmpty(fallback)
    ensures
      var (ok, g') := RotateAll(g, made, cert, fallback, starts);
      && Inv(g')
      && (ok ==> g'.secrets.Some? && g'.secrets.value == Stored(g'.disk.m))
      && (ok ==> g'.secrets.value.vless == made.vless && g'.secrets.value.shortID == made.shortID
                 && g'.secrets.value.hysteria2 == made.hysteria2 && (g.served.Some? ==> g'.served == g'.secrets))
      && (g.secrets.Some? ==> g'.secrets.Some? && SameKeys(g'.secrets.value, g.secrets.value)
                              && SameKeys(Stored(g'.disk.m), Stored(g.disk.m)))
  {
    hide LoadSecrets, Set, Value, LoadCert;
    var (ready, g0) := if g.secrets.Some? then (true, g) else Init(g, fallback, cert);
    if g.secrets.None? {
      InitEffect(g, fallback, cert);
    }
    if ready {
      SetValues(g0.disk, VLESSUUID, made.vless);
      var (ok1, d1) := Set(g0.disk, VLESSUUID, made.vless);
      SetValues(d1, RealityShortID, made.shortID);
      var (ok2, d2) := Set(d1, RealityShortID, made.shortID);
      SetValues(d2, Hysteria2Pass, made.hysteria2);
      var (ok3, d3) := Set(d2, Hysteria2Pass, made.hysteria2);
      LoadReturnsStored(d3, made);
    }
  }

  /** Init leaves memory equal to the stored secrets, or as it was. */
  lemma InitEffect(g: Manager, made: Secrets, cert: Pair)
    requires Inv(g) && g.served.None? && AllNonEmpty(made)
    ensures
      var (ok, g') := Init(g, made, cert);
      && Inv(g') && g'.served.None?
      && (ok ==> g'.secrets.Some? && g'.secrets.value == Stored(g'.disk.m))
      && (ok ==> g'.cert == Some(Pair(Value(g'.disk.m, Hysteria2Cert), Value(g'.disk.m, Hysteria2Key))))
      && (!ok ==> g'.secrets == g.secrets)
  {
    hide LoadSecrets, LoadCert, Value;
    LoadReturnsStored(g.disk, made);
    var (s, d1) := LoadSecrets(g.disk, made);
    if s.Some? {
      CertLeavesSecrets(d1, cert);
    }
  }

  /** A certificate load touches no secret and returns what is stored then. */
  lemma CertLeavesSecrets(d: Disk, cert: Pair)
    ensures
      var (c, d') := LoadCert(d, Hysteria2Cert, Hysteria2Key, cert);
      && Stored(d'.m) == Stored(d.m)
      && (c.Some? ==> c.value == Pair(Value(d'.m, Hysteria2Cert), Value(d'.m, Hysteria2Key)))
  {
    hide LoadCert;
    CertCases(d, Hysteria2Cert, Hysteria2Key, cert);
  }

  lemma RotateRealityEffect(g: Manager, shortID: string, starts: bool)
    requires Inv(g) && shortID != ""
    ensures
      var (ok, g') := RotateReality(g, shortID, starts);
      && Inv(g')
      && (ok <==> g.secrets.Some? && g.disk.left > 0 && (g.served.Some? ==> starts))
      && (ok ==> g'.secrets == Some(g.secrets.value.(shortID := shortID)) && Stored(g'.disk.m).shortID == shortID
                 && (g.served.Some? ==> g'.served == g'.secrets))
      && (g.secrets.Some? ==> g'.secrets.Some? && SameKeys(g'.secrets.value, g.secrets.value)
                              && SameKeys(Stored(g'.disk.m), Stored(g.disk.m)))
  {
    hide Value;
    SetValues(g.disk, RealityShortID, shortID);
  }

  /** What is held in the settings stays there while secrets and certificate are loaded. */
  lemma InitKeepsStored(g: Manager, made: Secrets, cert: Pair)
    requires AllNonEmpty(made)
    ensures KeepsHeld(g.disk.m, Init(g, made, cert).1.disk.m)
  {
    hide LoadSecrets, LoadCert, Value;
    LoadReturnsStored(g.disk, made);
    var (s, d1) := LoadSecrets(g.disk, made);
    if s.Some? {
      CertLeavesSecrets(d1, cert);
    }
  }

  /** A rotation elsewhere keeps the stored key pair, if there is one, and touches nothing but the settings. */
  lemma ElsewhereKeepsKeys(g: Manager, a: Action)
    requires a.ElsewhereAction? && Generated(a)
    ensures
      var g' := Next(g, a);
      && g'.secrets == g.secrets && g'.served == g.served && g'.enabled == g.enabled
      && (Stored(g.disk.m).priv != "" ==> SameKeys(Stored(g'.disk.m), Stored(g.disk.m)))
  {
    hide Init, RotateAll, Value;
    var other := Outside(g, a.left);
    InitKeepsStored(other, a.fallback, a.cert);
    InitEffect(other, a.fallback, a.cert);
    var (ok, g1) := Init(other, a.fallback, a.cert);
    RotateFromInit(other, a);
    if ok {
      RotateAllEffect(g1, a.made, a.cert, a.fallback, false);
    }
  }

  /** Rotating without secrets in memory is loading them and rotating. */
  lemma RotateFromInit(g: Manager, a: Action)
    requires a.ElsewhereAction? && g.secrets.None?
    ensures
      var (ok, g1) := Init(g, a.fallback, a.cert);
      && (ok ==> g1.secrets.Some?
                 && RotateAll(g, a.made, a.cert, a.fallback, false) == RotateAll(g1, a.made, a.cert, a.fallback, false))
      && (!ok ==> RotateAll(g, a.made, a.cert, a.fallback, false) == (false, g1))
  {
    hide LoadSecrets, LoadCert, Set;
  }

  lemma {:induction false} RunKeeps(m: Settings, enabled: bool, actions: seq<Action>)
    requires AllGenerated(actions)
    ensures Inv(Run(New(m, enabled), actions))
  {
    hide Init, RotateAll, RotateReality;
    if actions != [] {
      var n := |actions| - 1;
      RunKeeps(m, enabled, actions[..n]);
      var g := Run(New(m, enabled), actions[..n]);
      assert Generated(actions[n]);
      match actions[n]
      case InitAction(made, cert, left) =>
        if g.served.None? {
          InitEffect(WithLeft(g, left), made, cert);
        }
      case RotateRealityAction(shortID, left, starts) => RotateRealityEffect(WithLeft(g, left), shortID, starts);
      case RotateAllAction(made, cert, fallback, left, starts) =>
        RotateAllEffect(WithLeft(g, left), made, cert, fallback, starts);
      case ElsewhereAction(_, _, _, _) => ElsewhereKeepsKeys(g, actions[n]);
      case _ =>
    }
  }

  // ---- theorems ----

  /** Under arbitrary failures a running carrier serves exactly the secrets in memory. */
  lemma RunningServesMemory(m: Settings, enabled: bool, actions: seq<Action>)
    requires AllGenerated(actions)
    ensures
      var g := Run(New(m, enabled), actions);
      g.served.Some? ==> g.served == g.secrets && enabled
  {
    RunKeeps(m, enabled, actions);
    EnabledStays(m, enabled, actions);
  }

  lemma {:induction false} EnabledStays(m: Settings, enabled: bool, actions: seq<Action>)
    ensures Run(New(m, enabled), actions).enabled == enabled
  {
    hide LoadSecrets, LoadCert, Set;
    if actions != [] {
      EnabledStays(m, enabled, actions[..|actions| - 1]);
    }
  }

  /** Every successful full rotation leaves memory equal to the stored settings, whatever failed before. */
  lemma FullRotationAgrees(m: Settings, enabled: bool, actions: seq<Action>, a: Action)
    requires AllGenerated(actions) && a.RotateAllAction? && Generated(a)
    ensures
      var g := Run(New(m, enabled), actions);
      var (ok, g') := RotateAll(WithLeft(g, a.left), a.made, a.cert, a.fallback, a.starts);
      ok ==> g'.secrets == Some(Stored(g'.disk.m)) && (g'.served.Some? ==> g'.served == Some(Stored(g'.disk.m)))
  {
    hide RotateAll, Run;
    RunKeeps(m, enabled, actions);
    var g := Run(New(m, enabled), actions);
    RotateAllEffect(WithLeft(g, a.left), a.made, a.cert, a.fallback, a.starts);
  }

  /**
   A successful short-id rotation leaves memory equal to the stored settings if and only if they
   already agreed on the VLESS id and the Hysteria2 password.
   */
  lemma RealityRotationAgreesIff(m: Settings, enabled: bool, actions: seq<Action>, shortID: string, left: nat,
                                 starts: bool)
    requires AllGenerated(actions) && shortID != ""
    requires RotateReality(WithLeft(Run(New(m, enabled), actions), left), shortID, starts).0
    ensures
      var g := Run(New(m, enabled), actions);
      var g' := RotateReality(WithLeft(g, left), shortID, starts).1;
      && g.secrets.Some?
      && (g'.secrets == Some(Stored(g'.disk.m)) <==>
            g.secrets.value.vless == Stored(g.disk.m).vless && g.secrets.value.hysteria2 == Stored(g.disk.m).hysteria2)
  {
    hide Run, Set, Value;
    RunKeeps(m, enabled, actions);
    SetValues(Disk(Run(New(m, enabled), actions).disk.m, left), RealityShortID, shortID);
  }

  // ---- which histories leave memory behind ----

  /** The settings hold every secret that memory holds. */
  predicate Held(g: Manager) {
    g.secrets.Some? ==> Filled(Stored(g.disk.m))
  }

  /** Memory and settings agree on the VLESS id and the Hysteria2 password. */
  predicate Agree(g: Manager) {
    g.secrets.Some? ==>
      var s := Stored(g.disk.m);
      g.secrets.value.vless == s.vless && g.secrets.value.hysteria2 == s.hysteria2
  }

  /** A full rotation once it has secrets to replace: those in memory, or loaded first. None when that load fails. */
  function Ready(g: Manager, a: Action): Option<Manager>
    requires a.RotateAllAction?
  {
    var g0 := WithLeft(g, a.left);
    if g.secrets.Some? then Some(g0) else
    var (ok, g1) := Init(g0, a.fallback, a.cert);
    if ok then Some(g1) else None
  }

  /** The settings operations of a full rotation: three writes and the five reads of the load after them. */
  const OPERATIONS := 8

  /** The rotation elsewhere gets to store at least its first secret. */
  predicate StoresElsewhere(g: Manager, a: Action)
    requires a.ElsewhereAction?
  {
    var (ok, g1) := Init(Outside(g, a.left), a.fallback, a.cert);
    ok && g1.disk.left > 0
  }

  /** A full rotation, here or elsewhere, that stores at least its first secret without this manager adopting it. */
  predicate Outdates(g: Manager, a: Action) {
    || (a.RotateAllAction? && Ready(g, a).Some? && 0 < Ready(g, a).value.disk.left < OPERATIONS)
    || (a.ElsewhereAction? && g.secrets.Some? && StoresElsewhere(g, a))
  }

  /** This manager loads all secrets from the settings, or rotates all of them. */
  predicate Reloads(g: Manager, a: Action) {
    || (a.InitAction? && g.served.None? && Init(WithLeft(g, a.left), a.made, a.cert).0)
    || (a.RotateAllAction? && Ready(g, a).Some?
        && (Ready(g, a).value.disk.left >= OPERATIONS || (g.secrets.None? && Ready(g, a).value.disk.left == 0)))
  }

  /** A generated VLESS id is not the one in memory. */
  predicate Renews(g: Manager, a: Action) {
    && (a.RotateAllAction? && Ready(g, a).Some? && Ready(g, a).value.secrets.Some? ==>
          a.made.vless != Ready(g, a).value.secrets.value.vless)
    && (a.ElsewhereAction? && g.secrets.Some? ==> a.made.vless != g.secrets.value.vless)
  }

  lemma LoadOfHeld(d: Disk, made: Secrets)
    requires Filled(Stored(d.m))
    ensures LoadSecrets(d, made).1.m == d.m
    ensures LoadSecrets(d, made).0.Some? <==> d.left >= 5
  {
    hide Value;
  }

  /** What a full rotation does, by how many settings operations succeed. */
  lemma RotateAllByBudget(g: Manager, a: Action)
    requires a.RotateAllAction? && g.secrets.Some? && Held(g) && AllNonEmpty(a.made)
    ensures
      var g' := RotateAll(g, a.made, a.cert, a.fallback, a.starts).1;
      && g'.secrets.Some? && Held(g')
      && (g.disk.left == 0 ==> g'.secrets == g.secrets && g'.disk.m == g.disk.m)
      && (0 < g.disk.left < OPERATIONS ==> g'.secrets == g.secrets && Stored(g'.disk.m).vless == a.made.vless)
      && (g.disk.left >= OPERATIONS ==> Agree(g') && Stored(g'.disk.m).vless == a.made.vless)
  {
    hide LoadSecrets, Value, Init;
    var (ok1, d1) := Set(g.disk, VLESSUUID, a.made.vless);
    var (ok2, d2) := Set(d1, RealityShortID, a.made.shortID);
    var (ok3, d3) := Set(d2, Hysteria2Pass, a.made.hysteria2);
    SetValues(g.disk, VLESSUUID, a.made.vless);
    SetValues(d1, RealityShortID, a.made.shortID);
    SetValues(d2, Hysteria2Pass, a.made.hysteria2);
    if ok3 {
      LoadOfHeld(d3, a.made);
      LoadReturnsStored(d3, a.made);
    }
  }

  lemma ReadyRotates(g: Manager, a: Action)
    requires a.RotateAllAction?
    ensures Ready(g, a).Some? ==>
      && Ready(g, a).value.secrets.Some?
      && Next(g, a) == RotateAll(Ready(g, a).value, a.made, a.cert, a.fallback, a.starts).1
    ensures Ready(g, a).None? ==> Next(g, a).secrets.None?
  {
    hide LoadSecrets, LoadCert, Set;
  }

  lemma InitKeepsHeld(g: Manager, made: Secrets, cert: Pair)
    requires Held(g) && AllNonEmpty(made)
    ensures
      var (ok, g') := Init(g, made, cert);
      && Held(g') && (ok ==> Agree(g') && g'.secrets.Some?)
      && (!ok ==> g'.secrets == g.secrets && (Agree(g) <==> Agree(g')))
  {
    hide LoadSecrets, LoadCert, Value;
    LoadReturnsStored(g.disk, made);
    var (s, d1) := LoadSecrets(g.disk, made);
    if s.Some? {
      CertLeavesSecrets(d1, cert);
    }
  }

  /** One action: agreement comes with a reload, and goes with a full rotation this manager does not adopt. */
  lemma AgreementStep(g: Manager, a: Action)
    requires Held(g) && Generated(a)
    ensures
      var g' := Next(g, a);
      && Held(g') && (g.secrets.Some? ==> g'.secrets.Some?)
      && (Reloads(g, a) ==> Agree(g') && !Outdates(g, a))
      && (Outdates(g, a) && Renews(g, a) ==> g'.secrets.Some? && !Agree(g'))
      && (!Reloads(g, a) && !Outdates(g, a) ==> (Agree(g') <==> Agree(g)))
  {
    hide RotateAll, Init, Value, Held, Agree;
    HeldIgnoresBudget(g, if a.StartAction? || a.CloseAction? || a.ElsewhereAction? then 0 else a.left);
    match a
    case InitAction(made, cert, left) => InitKeepsHeld(WithLeft(g, left), made, cert);
    case RotateRealityAction(shortID, left, starts) => ShortIDKeeps(WithLeft(g, left), shortID, starts);
    case RotateAllAction(made, cert, fallback, left, starts) => FullRotationStep(g, a);
    case ElsewhereAction(_, _, _, _) => ElsewhereStep(g, a);
    case _ => SameMemory(g, Next(g, a));
  }

  lemma HeldIgnoresBudget(g: Manager, left: nat)
    ensures Held(WithLeft(g, left)) == Held(g) && Agree(WithLeft(g, left)) == Agree(g)
  {
  }

  lemma SameMemory(g: Manager, g': Manager)
    requires g'.secrets == g.secrets && g'.disk == g.disk
    ensures Held(g') == Held(g) && Agree(g') == Agree(g)
  {
  }

  lemma ShortIDKeeps(g: Manager, shortID: string, starts: bool)
    requires Held(g) && shortID != ""
    ensures
      var g' := RotateReality(g, shortID, starts).1;
      Held(g') && (Agree(g') <==> Agree(g)) && (g.secrets.Some? ==> g'.secrets.Some?)
  {
    hide Set, Value;
    SetValues(g.disk, RealityShortID, shortID);
  }

  lemma FullRotationStep(g: Manager, a: Action)
    requires a.RotateAllAction? && Held(g) && Generated(a)
    ensures
      var g' := Next(g, a);
      && Held(g') && (g.secrets.Some? ==> g'.secrets.Some?)
      && (Reloads(g, a) ==> Agree(g') && !Outdates(g, a))
      && (Outdates(g, a) && Renews(g, a) ==> g'.secrets.Some? && !Agree(g'))
      && (!Reloads(g, a) && !Outdates(g, a) ==> (Agree(g') <==> Agree(g)))
  {
    hide RotateAll, Init, Value;
    ReadyRotates(g, a);
    if g.secrets.None? {
      InitKeepsHeld(WithLeft(g, a.left), a.fallback, a.cert);
    }
    if Ready(g, a).Some? {
      RotateAllByBudget(Ready(g, a).value, a);
    }
  }

  /** A full rotation elsewhere ends the agreement as soon as it stores its first secret. */
  lemma ElsewhereStep(g: Manager, a: Action)
    requires a.ElsewhereAction? && Held(g) && Generated(a)
    ensures
      var g' := Next(g, a);
      && g'.secrets == g.secrets && Held(g')
      && (Outdates(g, a) ==> Stored(g'.disk.m).vless == a.made.vless && (Renews(g, a) ==> !Agree(g')))
      && (!Outdates(g, a) ==> (Agree(g') <==> Agree(g)))
  {
    hide RotateAll, Init, Value;
    if g.secrets.Some? {
      var other := Outside(g, a.left);
      InitKeepsStored(other, a.fallback, a.cert);
      InitEffect(other, a.fallback, a.cert);
      RotateFromInit(other, a);
      var (ok, g1) := Init(other, a.fallback, a.cert);
      if ok {
        RotateAllByBudget(g1, RotateAllAction(a.made, a.cert, a.fallback, a.left, false));
        if g1.disk.left >= OPERATIONS {
          RotateAllEffect(g1, a.made, a.cert, a.fallback, false);
        }
      }
    }
  }

  predicate AllRenew(g: Manager, actions: seq<Action>) {
    forall i :: 0 <= i < |actions| ==> Renews(Run(g, actions[..i]), actions[i])
  }

  /** Some full rotation, here or elsewhere, was not adopted, and nothing was reloaded after it. */
  ghost predicate LeftBehind(g: Manager, actions: seq<Action>) {
    exists j :: BehindSince(g, actions, j)
  }

  ghost predicate BehindSince(g: Manager, actions: seq<Action>, j: nat) {
    && j < |actions| && Outdates(Run(g, actions[..j]), actions[j])
    && forall k :: j < k < |actions| ==> !Reloads(Run(g, actions[..k]), actions[k])
  }

  lemma LeftBehindNext(g: Manager, actions: seq<Action>)
    requires actions != []
    ensures
      var n := |actions| - 1;
      var before := Run(g, actions[..n]);
      LeftBehind(g, actions) <==>
        Outdates(before, actions[n]) || (LeftBehind(g, actions[..n]) && !Reloads(before, actions[n]))
  {
    hide Outdates, Reloads, Run;
    var n := |actions| - 1;
    var init := actions[..n];
    forall j: nat | j < n
      ensures BehindSince(g, actions, j) <==> BehindSince(g, init, j) && !Reloads(Run(g, init), actions[n])
    {
      forall k | 0 <= k < n ensures init[..k] == actions[..k] && init[k] == actions[k] {
      }
      assert actions[..n] == init;
    }
    assert BehindSince(g, actions, n) <==> Outdates(Run(g, init), actions[n]);
    if LeftBehind(g, actions) {
      var j: nat :| BehindSince(g, actions, j);
      assert j < n ==> BehindSince(g, init, j);
    }
    if LeftBehind(g, init) && !Reloads(Run(g, init), actions[n]) {
      var j: nat :| BehindSince(g, init, j);
      assert BehindSince(g, actions, j);
    }
  }

  /**
   With generated VLESS ids never repeating, memory and settings disagree after a run if and only if
   a full rotation, here or in another process, stored a secret that this manager has not loaded since.
   */
  lemma {:induction false} DisagreesIffBehind(m: Settings, enabled: bool, actions: seq<Action>)
    requires AllGenerated(actions) && AllRenew(New(m, enabled), actions)
    ensures
      var g := Run(New(m, enabled), actions);
      && Held(g) && (Agree(g) <==> !LeftBehind(New(m, enabled), actions))
      && (LeftBehind(New(m, enabled), actions) ==> g.secrets.Some?)
  {
    hide Next, Held, Agree, LeftBehind, Outdates, Reloads, Renews, Generated;
    var g := New(m, enabled);
    if actions == [] {
      NothingBehind(m, enabled);
    } else {
      var n := |actions| - 1;
      var init := actions[..n];
      forall i | 0 <= i < n ensures Renews(Run(g, init[..i]), init[i]) {
        assert init[..i] == actions[..i] && init[i] == actions[i];
      }
      DisagreesIffBehind(m, enabled, init);
      LeftBehindNext(g, actions);
      assert Renews(Run(g, actions[..n]), actions[n]);
      AgreementStep(Run(g, init), actions[n]);
    }
  }

  /** Hence a successful short-id rotation leaves memory equal to the settings iff this manager is not left behind. */
  lemma RealityRotationAgreesIffCurrent(m: Settings, enabled: bool, actions: seq<Action>, shortID: string, left: nat,
                                       starts: bool)
    requires AllGenerated(actions) && AllRenew(New(m, enabled), actions) && shortID != ""
    requires RotateReality(WithLeft(Run(New(m, enabled), actions), left), shortID, starts).0
    ensures
      var g' := RotateReality(WithLeft(Run(New(m, enabled), actions), left), shortID, starts).1;
      g'.secrets == Some(Stored(g'.disk.m)) <==> !LeftBehind(New(m, enabled), actions)
  {
    hide Run, RotateReality, LeftBehind, AllRenew, AllGenerated;
    DisagreesIffBehind(m, enabled, actions);
    RealityRotationAgreesIff(m, enabled, actions, shortID, left, starts);
  }

  lemma NothingBehind(m: Settings, enabled: bool)
    ensures !LeftBehind(New(m, enabled), []) && Held(New(m, enabled)) && Agree(New(m, enabled))
  {
  }

  /** In every run the settings hold every secret that memory holds. */
  lemma {:induction false} RunHolds(m: Settings, enabled: bool, actions: seq<Action>)
    requires AllGenerated(actions)
    ensures Held(Run(New(m, enabled), actions))
  {
    hide Next, Held, Outdates, Reloads, Renews, Generated, Agree;
    if actions == [] {
      NothingBehind(m, enabled);
    } else {
      var n := |actions| - 1;
      RunHolds(m, enabled, actions[..n]);
      AgreementStep(Run(New(m, enabled), actions[..n]), actions[n]);
    }
  }

  // ---- what is served ----

  /**
   In every run: with stealth enabled and secrets in memory a start that works serves them and reports
   success; it fails and changes nothing otherwise, except that without stealth it does nothing.
   */
  lemma StartServes(m: Settings, enabled: bool, actions: seq<Action>, starts: bool)
    requires AllGenerated(actions)
    ensures
      var g := Run(New(m, enabled), actions);
      var (ok, g') := Start(g, starts);
      && (enabled && g.secrets.Some? && starts ==> ok && g'.served == g.secrets && g'.served.Some?)
      && (enabled && (g.secrets.None? || !starts) ==> !ok && g'.served == g.served)
      && (!enabled ==> ok && g'.served.None?)
      && g'.secrets == g.secrets && g'.disk == g.disk
  {
    hide Run;
    RunKeeps(m, enabled, actions);
    EnabledStays(m, enabled, actions);
  }

  /**
   A short-id rotation of a serving manager succeeds if and only if the id is stored and the restart
   works, and then the new short id is served beside the other secrets served before.
   */
  lemma RealityRotationServes(m: Settings, enabled: bool, actions: seq<Action>, shortID: string, left: nat,
                              starts: bool)
    requires AllGenerated(actions) && shortID != "" && Run(New(m, enabled), actions).served.Some?
    ensures
      var g := Run(New(m, enabled), actions);
      var (ok, g') := RotateReality(WithLeft(g, left), shortID, starts);
      && (ok <==> left > 0 && starts)
      && (ok ==> g'.served == Some(g.served.value.(shortID := shortID)) && Stored(g'.disk.m).shortID == shortID)
      && (left > 0 && !starts ==> g'.served.None?) && (left == 0 ==> g'.served == g.served)
  {
    hide Run, Value;
    RunKeeps(m, enabled, actions);
    RotateRealityEffect(WithLeft(Run(New(m, enabled), actions), left), shortID, starts);
  }

  /**
   A full rotation of a serving manager succeeds if and only if its three writes and the load after
   them get their eight settings operations and the restart works; what is served then is what is
   stored: the new VLESS id, short id and Hysteria2 password.
   */
  lemma FullRotationServes(m: Settings, enabled: bool, actions: seq<Action>, a: Action)
    requires AllGenerated(actions) && a.RotateAllAction? && Generated(a)
    requires Run(New(m, enabled), actions).served.Some?
    ensures
      var g := Run(New(m, enabled), actions);
      var (ok, g') := RotateAll(WithLeft(g, a.left), a.made, a.cert, a.fallback, a.starts);
      && (ok <==> a.left >= 8 && a.starts)
      && (ok ==> && g'.served == Some(Stored(g'.disk.m)) && g'.served.value.vless == a.made.vless
                 && g'.served.value.shortID == a.made.shortID && g'.served.value.hysteria2 == a.made.hysteria2)
      && (a.left >= 8 && !a.starts ==> g'.served.None?) && (a.left < 8 ==> g'.served == g.served)
  {
    hide Run, RotateAll, Value;
    RunKeeps(m, enabled, actions);
    RunHolds(m, enabled, actions);
    var g := WithLeft(Run(New(m, enabled), actions), a.left);
    RotateAllEffect(g, a.made, a.cert, a.fallback, a.starts);
    RotateAllOutcome(g, a.made, a.cert, a.fallback, a.starts);
  }

  /** When a full rotation with secrets in memory succeeds, and what it leaves running. */
  lemma RotateAllOutcome(g: Manager, made: Secrets, cert: Pair, fallback: Secrets, starts: bool)
    requires Inv(g) && Held(g) && g.secrets.Some? && AllNonEmpty(made)
    ensures
      var (ok, g') := RotateAll(g, made, cert, fallback, starts);
      && (ok <==> g.disk.left >= 8 && (g.served.Some? ==> starts))
      && (g.disk.left < 8 ==> g'.served == g.served)
      && (g.disk.left >= 8 && g.served.Some? && !starts ==> g'.served.None?)
  {
    hide LoadSecrets, Value, Init;
    var (ok1, d1) := Set(g.disk, VLESSUUID, made.vless);
    var (ok2, d2) := Set(d1, RealityShortID, made.shortID);
    var (ok3, d3) := Set(d2, Hysteria2Pass, made.hysteria2);
    SetValues(g.disk, VLESSUUID, made.vless);
    SetValues(d1, RealityShortID, made.shortID);
    SetValues(d2, Hysteria2Pass, made.hysteria2);
    if ok3 {
      LoadOfHeld(d3, made);
    }
  }

  /** A load completes if and only if it gets its settings operations: two, or four when it has to generate. */
  lemma PairLoadsIff(kind: Kind, d: Disk, a: Name, b: Name, made: Pair)
    requires a != b
    ensures LoadPair(kind, d, a, b, made).0.Some? <==>
      d.left >= if Value(d.m, a) != "" && (kind.Certificate? ==> Value(d.m, b) != "") then 2 else 4
  {
    hide LoadKeys, LoadCert;
    if kind.KeyPair? {
      KeysLoadIff(d, a, b, made);
    } else {
      CertLoadsIff(d, a, b, made);
    }
  }

  lemma CertLoadsIff(d: Disk, cert: Name, key: Name, made: Pair)
    ensures LoadCert(d, cert, key, made).0.Some? <==>
      d.left >= if Value(d.m, cert) != "" && Value(d.m, key) != "" then 2 else 4
  {
  }

  /** The settings operations of one get-or-set: a read, and a write when nothing is held. */
  function Cost(m: Settings, name: Name): nat {
    if Value(m, name) != "" then 1 else 2
  }

  lemma GetOrSetIff(d: Disk, name: Name, def: string)
    ensures
      var (v, d') := GetOrSet(d, name, def);
      && (v.Some? <==> d.left >= Cost(d.m, name))
      && (v.Some? ==> d'.left == d.left - Cost(d.m, name) && forall n :: n != name ==> Cost(d'.m, n) == Cost(d.m, n))
  {
  }

  /** Loading all secrets completes if and only if every read and every write of a missing one gets its operation. */
  lemma SecretsLoadIff(d: Disk, made: Secrets)
    ensures LoadSecrets(d, made).0.Some? <==>
      d.left >= (if Value(d.m, RealityPrivate) != "" then 2 else 4)
              + Cost(d.m, RealityShortID) + Cost(d.m, VLESSUUID) + Cost(d.m, Hysteria2Pass)
  {
    hide LoadKeys, GetOrSet, Cost;
    KeysLoadIff(d, RealityPrivate, RealityPublic, Pair(made.priv, made.pub));
    KeysKeepCosts(d, RealityPrivate, RealityPublic, Pair(made.priv, made.pub));
    var (keys, d1) := LoadKeys(d, RealityPrivate, RealityPublic, Pair(made.priv, made.pub));
    if keys.Some? {
      GetOrSetIff(d1, RealityShortID, made.shortID);
      var (shortID, d2) := GetOrSet(d1, RealityShortID, made.shortID);
      if shortID.Some? {
        assert Cost(d2.m, VLESSUUID) == Cost(d1.m, VLESSUUID) && Cost(d2.m, Hysteria2Pass) == Cost(d1.m, Hysteria2Pass);
        GetOrSetIff(d2, VLESSUUID, made.vless);
        var (vless, d3) := GetOrSet(d2, VLESSUUID, made.vless);
        if vless.Some? {
          GetOrSetIff(d3, Hysteria2Pass, made.hysteria2);
          assert Cost(d3.m, Hysteria2Pass) == Cost(d2.m, Hysteria2Pass);
          var (hysteria2, _) := GetOrSet(d3, Hysteria2Pass, made.hysteria2);
          assert LoadSecrets(d, made).0.Some? <==> hysteria2.Some?;
        }
      }
    }
  }

  lemma KeysLoadIff(d: Disk, priv: Name, pub: Name, made: Pair)
    ensures
      var (p, d') := LoadKeys(d, priv, pub, made);
      var cost := if Value(d.m, priv) != "" then 2 else 4;
      (p.Some? <==> d.left >= cost) && (p.Some? ==> d'.left == d.left - cost)
  {
    hide ReadPublic, Value;
    if d.left > 0 {
      var d1 := d.(left := d.left - 1);
      if Value(d.m, priv) != "" {
        ReadPublicIff(d1, pub, Value(d.m, priv));
      } else if d.left >= 3 {
        var d3 := Disk(d.m[priv := made.first][pub := made.second], d.left - 3);
        assert Set(Set(d1, priv, made.first).1, pub, made.second) == (true, d3);
        ReadPublicIff(d3, pub, made.first);
      }
    }
  }

  lemma ReadPublicIff(d: Disk, pub: Name, priv: string)
    ensures
      var (p, d') := ReadPublic(d, pub, priv);
      (p.Some? <==> d.left >= 1) && (p.Some? ==> d'.left == d.left - 1)
  {
  }

  lemma KeysKeepCosts(d: Disk, priv: Name, pub: Name, made: Pair)
    requires priv != pub
    ensures
      var d' := LoadKeys(d, priv, pub, made).1;
      forall n :: n != priv && n != pub ==> Cost(d'.m, n) == Cost(d.m, n)
  {
    hide LoadKeys;
    KeyCases(d, priv, pub, made);
  }

  /** A full rotation elsewhere with enough operations succeeds, and its own memory then equals the settings. */
  lemma ElsewhereSucceeds(g: Manager, a: Action)
    requires a.ElsewhereAction? && Generated(a) && g.secrets.Some? && Held(g) && a.left >= 9 + OPERATIONS
    ensures
      var (ok, other) := Elsewhere(g, a);
      ok && other.secrets == Some(Stored(other.disk.m)) && Next(g, a).disk.m == other.disk.m && StoresElsewhere(g, a)
  {
    hide RotateAll, Init, Value;
    var other := Outside(g, a.left);
    InitOfHeld(other, a.fallback, a.cert);
    InitEffect(other, a.fallback, a.cert);
    InitKeepsStored(other, a.fallback, a.cert);
    RotateFromInit(other, a);
    var g1 := Init(other, a.fallback, a.cert).1;
    RotateAllOutcome(g1, a.made, a.cert, a.fallback, false);
    RotateAllEffect(g1, a.made, a.cert, a.fallback, false);
  }

  lemma InitOfHeld(g: Manager, made: Secrets, cert: Pair)
    requires Filled(Stored(g.disk.m)) && g.disk.left >= 9
    ensures Init(g, made, cert).0 && Init(g, made, cert).1.disk.left >= g.disk.left - 9
  {
    hide Value;
  }

  /**
   The ordinary failure, with nothing torn: the node has loaded its secrets, the rotation command
   succeeds, and the node's short-id rotation then succeeds with the replaced VLESS id in memory.
   */
  lemma RealityRotationCanDisagree(made: Secrets, cert: Pair, next: Secrets, shortID: string)
    requires AllNonEmpty(made) && AllNonEmpty(next) && next.vless != made.vless && shortID != ""
    ensures
      var loaded := Next(New(map[], true), InitAction(made, cert, 20));
      var command := ElsewhereAction(next, cert, made, 20);
      var (done, other) := Elsewhere(loaded, command);
      var (ok, g) := RotateReality(WithLeft(Next(loaded, command), 1), shortID, true);
      && done && other.secrets == Some(Stored(other.disk.m))
      && ok && g.secrets.value.vless == made.vless && Stored(g.disk.m).vless == next.vless
  {
    hide RotateAll, Init, Value;
    var loaded := Next(New(map[], true), InitAction(made, cert, 20));
    var command := ElsewhereAction(next, cert, made, 20);
    FreshInit(made, cert);
    ElsewhereSucceeds(loaded, command);
    ElsewhereStep(loaded, command);
    SetValues(Disk(Next(loaded, command).disk.m, 1), RealityShortID, shortID);
  }

  lemma FreshInit(made: Secrets, cert: Pair)
    requires AllNonEmpty(made)
    ensures
      var (ok, g) := Init(WithLeft(New(map[], true), 20), made, cert);
      ok && g.secrets == Some(made) && Stored(g.disk.m) == made && g.served.None?
  {
    var d := Disk(map[], 20);
    var (keys, d1) := LoadKeys(d, RealityPrivate, RealityPublic, Pair(made.priv, made.pub));
    assert keys == Some(Pair(made.priv, made.pub));
    assert d1 == Disk(map[RealityPrivate := made.priv, RealityPublic := made.pub], 16);
    var (shortID, d2) := GetOrSet(d1, RealityShortID, made.shortID);
    assert shortID == Some(made.shortID) && d2 == Disk(d1.m[RealityShortID := made.shortID], 14);
    var (v, d3) := GetOrSet(d2, VLESSUUID, made.vless);
    assert v == Some(made.vless) && d3 == Disk(d2.m[VLESSUUID := made.vless], 12);
    var (h, d4) := GetOrSet(d3, Hysteria2Pass, made.hysteria2);
    assert h == Some(made.hysteria2) && d4 == Disk(d3.m[Hysteria2Pass := made.hysteria2], 10);
    CertLeavesSecrets(d4, cert);
    assert LoadCert(d4, Hysteria2Cert, Hysteria2Key, cert).0.Some?;
  }

  /** No rotation, successful or not, here or elsewhere, changes the REALITY key pair, in memory or in the settings. */
  lemma RotationsKeepKeyPair(m: Settings, enabled: bool, actions: seq<Action>, a: Action)
    requires AllGenerated(actions) && Generated(a)
    requires a.RotateAllAction? || a.RotateRealityAction? || a.ElsewhereAction?
    requires Run(New(m, enabled), actions).secrets.Some?
    ensures
      var g := Run(New(m, enabled), actions);
      var g' := Next(g, a);
      && g'.secrets.Some? && SameKeys(g'.secrets.value, g.secrets.value)
      && SameKeys(Stored(g'.disk.m), Stored(g.disk.m))
  {
    hide RotateAll, RotateReality, Run;
    RunKeeps(m, enabled, actions);
    var g := Run(New(m, enabled), actions);
    match a
    case RotateRealityAction(shortID, left, starts) => RotateRealityEffect(WithLeft(g, left), shortID, starts);
    case RotateAllAction(made, cert, fallback, left, starts) =>
      RotateAllEffect(WithLeft(g, left), made, cert, fallback, starts);
    case ElsewhereAction(_, _, _, _) => ElsewhereKeepsKeys(g, a);
  }
}
