/** Runs of webconfig requests: static-client and LAN documents, served one after the other over
    one database and the two caches that outlive a request. */
module Sessions {
  import opened Syscfg
  import opened Atomicity
  import opened LanAtomicity
  import opened Validation
  import opened LanCheck

  /** The error code of a request. */
  datatype Code = Success | ValidationFailed | SyscfgFailure | SyncFailed

  datatype Request = Clients(doc: seq<Client>) | Lan(block: LanDoc)

  /** The database, the backup cache and the number of received parameters. */
  datatype Session = Session(db: Db, bkup: seq<Param>, received: nat)

  // ---------------------------------------------------------------- one request

  /** syscfg calls for a parameter list: one a key and a commit, and none for an empty list. */
  function Writes(n: nat): nat {
    if n == 0 then 0 else n + 1
  }

  /** Refused before anything is written. */
  predicate Refuses(db: Db, req: Request) {
    BridgeMode(db) || match req
      case Clients(doc) => StaticVerdict(db, doc) !in {Valid, EmptyBlob}
      case Lan(block) => LanVerdict(block) != Valid
  }

  /** What a request saves and unsets, and what it then sets. */
  function Saved(db: Db, req: Request): seq<Param> {
    match req
    case Clients(_) => Backup(db)
    case Lan(_) => LanBackup(db)
  }

  function Wanted(req: Request): seq<Param> {
    match req
    case Clients(doc) => if doc == [] then [] else Cache(doc)
    case Lan(block) => LanCache(block.param)
  }

  function Window(db: Db, req: Request): nat {
    Writes(|Saved(db, req)|) + Writes(|Wanted(req)|)
  }

  /** Where a request with these list lengths stops when call number `fault` fails. */
  function StopsAt(saved: nat, wanted: nat, fault: int): Progress {
    if 0 <= fault < Writes(saved) then Unsetting(fault)
    else if wanted == 0 then Unsetting(saved)
    else if Writes(saved) <= fault < Writes(saved) + Writes(wanted) then Applying(fault - Writes(saved))
    else Applying(wanted)
  }

  function Point(db: Db, req: Request, fault: int): (at: Progress)
    ensures match req
      case Clients(doc) => Reaches(db, doc, at)
      case Lan(_) => LanReaches(db, at)
  {
    StopsAt(|Saved(db, req)|, |Wanted(req)|, fault)
  }

  function StoppedBy(db: Db, req: Request, fault: int): Db {
    match req
    case Clients(doc) => Stopped(db, Cache(doc), Point(db, req, fault))
    case Lan(block) => LanStopped(db, block.param, Point(db, req, fault))
  }

  function CodeOf(db: Db, req: Request, fault: int, present: bool): Code {
    if 0 <= fault < Window(db, req) then SyscfgFailure else if present then Success else SyncFailed
  }

  /** There is nothing to set. */
  lemma StopsAfterUnset(db: Db, req: Request, fault: int, present: bool)
    requires !(0 <= fault < Writes(|Saved(db, req)|)) && Wanted(req) == []
    ensures StoppedBy(db, req, fault) == UnsetAll(db, Saved(db, req))
    ensures Point(db, req, fault).Unsetting?
    ensures CodeOf(db, req, fault, present) == if present then Success else SyncFailed
  {
    assert Saved(db, req)[..|Saved(db, req)|] == Saved(db, req);
  }

  /** A call of the set list fails, or none. */
  lemma StopsInApply(db: Db, req: Request, fault: int, present: bool)
    requires !(0 <= fault < Writes(|Saved(db, req)|)) && Wanted(req) != []
    ensures var late := fault - Writes(|Saved(db, req)|);
      var fails := 0 <= late < Writes(|Wanted(req)|);
      StoppedBy(db, req, fault)
      == SetAll(UnsetAll(db, Saved(db, req)), Wanted(req)[..if fails then late else |Wanted(req)|]) &&
      CodeOf(db, req, fault, present) == if fails then SyscfgFailure else if present then Success else SyncFailed
    ensures Point(db, req, fault).Applying?
  {
    hide Backup, LanBackup, Cache, LanCache;
  }

  /** Process_StaticClients_WebConfigRequest and Process_Lan_WebConfigRequest: only bridge mode
      leaves the caches as they were. */
  function Processed(s: Session, req: Request, fault: int, present: bool): (Session, Code) {
    if BridgeMode(s.db) then (s, ValidationFailed)
    else if Refuses(s.db, req) then (Session(s.db, [], 0), ValidationFailed)
    else
      (Session(StoppedBy(s.db, req, fault), Saved(s.db, req),
               if Point(s.db, req, fault).Unsetting? then 0 else |Wanted(req)|),
       CodeOf(s.db, req, fault, present))
  }

  /** rollback_StaticClients or rollback_Lan. */
  function Undone(s: Session, req: Request): Session {
    s.(db := match req
             case Clients(_) => RolledBack(s.db, s.bkup, s.received)
             case Lan(_) => SetAll(s.db, s.bkup))
  }

  /** A request whose caller rolls back after every error. */
  function Serve(s: Session, req: Request, fault: int, present: bool): (Session, Code) {
    var (t, code) := Processed(s, req, fault, present);
    if code == Success then (t, code) else (Undone(t, req), code)
  }

  lemma PointOfClients(db: Db, doc: seq<Client>, fault: int, present: bool)
    ensures var saved, wanted := |Backup(db)|, if doc == [] then 0 else |Cache(doc)|;
      Point(db, Clients(doc), fault) == StopsAt(saved, wanted, fault) &&
      CodeOf(db, Clients(doc), fault, present) ==
        if 0 <= fault < Writes(saved) + Writes(wanted) then SyscfgFailure else if present then Success else SyncFailed
  {
  }

  lemma PointOfLan(db: Db, block: LanDoc, fault: int, present: bool)
    ensures var saved := |LanBackup(db)|;
      Point(db, Lan(block), fault) == StopsAt(saved, 6, fault) &&
      CodeOf(db, Lan(block), fault, present) ==
        if 0 <= fault < Writes(saved) + Writes(6) then SyscfgFailure else if present then Success else SyncFailed
  {
  }

  // ---------------------------------------------------------------- what a request leaves alone

  predicate SameKey(a: Db, b: Db, k: Key) {
    (k in a <==> k in b) && (k in a ==> a[k] == b[k])
  }

  lemma {:induction false} SetAllKeeps(db: Db, ps: seq<Param>, k: Key)
    requires !Names(ps, k)
    ensures SameKey(SetAll(db, ps), db, k)
  {
    if ps != [] {
      var n := |ps| - 1;
      assert ps == ps[..n] + [ps[n]] && ps[n] in ps;
      SetAllKeeps(db, ps[..n], k);
    }
  }

  lemma {:induction false} UnsetAllKeeps(db: Db, ps: seq<Param>, k: Key)
    requires !Names(ps, k)
    ensures SameKey(UnsetAll(db, ps), db, k)
  {
    if ps != [] {
      var n := |ps| - 1;
      assert ps == ps[..n] + [ps[n]] && ps[n] in ps;
      UnsetAllKeeps(db, ps[..n], k);
    }
  }

  lemma {:induction false} CleanupKeeps(db: Db, received: nat, kept: nat, k: Key)
    requires !IsSlotKey(k)
    ensures SameKey(Cleanup(db, received, kept), db, k)
    decreases received
  {
    if received > kept {
      CleanupKeeps(db, received - 1, kept, k);
    }
  }

  /** Keys that static-client requests may touch. */
  predicate ClientKey(k: Key) {
    !LanKey(k) && !k.Other?
  }

  predicate LanKey(k: Key) {
    k.LanIp? || k.LanMask? || k.ServerEnabled? || k.StartIp? || k.EndIp? || k.LeaseTime?
  }

  lemma LanKeys(k: Key)
    ensures k in LAN_KEYS <==> LanKey(k)
  {
    assert LAN_KEYS[0] == LanIp && LAN_KEYS[1] == LanMask && LAN_KEYS[2] == ServerEnabled;
    assert LAN_KEYS[3] == StartIp && LAN_KEYS[4] == EndIp && LAN_KEYS[5] == LeaseTime;
  }

  predicate OwnKey(req: Request, k: Key) {
    if req.Clients? then ClientKey(k) else LanKey(k)
  }

  ghost predicate Within(ps: seq<Param>, req: Request) {
    forall p :: p in ps ==> OwnKey(req, p.cmd)
  }

  lemma WithinConcat(a: seq<Param>, b: seq<Param>, req: Request)
    requires Within(a, req) && Within(b, req)
    ensures Within(a + b, req)
  {
  }

  lemma EntryWithin(db: Db, k: Key, req: Request)
    requires OwnKey(req, k)
    ensures Within(Entry(db, k), req)
  {
  }

  lemma SlotWithin(db: Db, i: nat, req: Request)
    requires req.Clients?
    ensures Within(BackupSlot(db, i), req)
  {
    var mac := Inet.Before(Get(db, Host(i)), ',');
    EntryWithin(db, Host(i), req);
    EntryWithin(db, InsNum(i), req);
    EntryWithin(db, HostAlias(i), req);
    EntryWithin(db, LanComment(i), req);
    EntryWithin(db, CommentFor(mac), req);
    var a := Entry(db, Host(i)) + Entry(db, InsNum(i));
    WithinConcat(Entry(db, Host(i)), Entry(db, InsNum(i)), req);
    WithinConcat(a, Entry(db, HostAlias(i)), req);
    WithinConcat(a + Entry(db, HostAlias(i)), Entry(db, LanComment(i)), req);
    WithinConcat(a + Entry(db, HostAlias(i)) + Entry(db, LanComment(i)), CommentEntry(db, mac), req);
  }

  lemma {:induction false} BackupSlotsWithin(db: Db, n: nat, req: Request)
    requires req.Clients?
    ensures Within(BackupSlots(db, n), req)
  {
    hide BackupSlot;
    if n > 0 {
      var front, slot := BackupSlots(db, n - 1), BackupSlot(db, n);
      BackupSlotsWithin(db, n - 1, req);
      SlotWithin(db, n, req);
      WithinConcat(front, slot, req);
      assert BackupSlots(db, n) == front + slot;
    }
  }

  lemma {:induction false} CacheSlotsWithin(doc: seq<Client>, req: Request)
    requires req.Clients?
    ensures Within(CacheSlots(doc), req)
  {
    if doc != [] {
      var n := |doc| - 1;
      CacheSlotsWithin(doc[..n], req);
      WithinConcat(CacheSlots(doc[..n]), CacheSlot(doc[n], |doc|), req);
    }
  }

  lemma ClientListsWithin(db: Db, doc: seq<Client>, req: Request)
    requires req.Clients?
    ensures Within(Backup(db), req) && Within(Cache(doc), req)
  {
    BackupSlotsWithin(db, HostCount(db), req);
    CacheSlotsWithin(doc, req);
    EntryWithin(db, NumHosts, req);
    EntryWithin(db, CommentCount, req);
    WithinConcat(Entry(db, NumHosts), BackupSlots(db, HostCount(db)), req);
    WithinConcat(Entry(db, NumHosts) + BackupSlots(db, HostCount(db)), Entry(db, CommentCount), req);
    WithinConcat([Param(NumHosts, Decimal.Dec(|doc|))], CacheSlots(doc), req);
  }

  lemma LanListsWithin(db: Db, p: LanParam, req: Request)
    requires req.Lan?
    ensures Within(LanBackup(db), req) && Within(LanCache(p), req)
  {
    forall q | q in LanBackup(db) ensures LanKey(q.cmd) {
      EntriesNames(db, LAN_KEYS, q.cmd);
      assert Names(LanBackup(db), q.cmd);
      LanKeys(q.cmd);
    }
    forall q | q in LanCache(p) ensures LanKey(q.cmd) {
      assert q.cmd in LAN_KEYS;
      LanKeys(q.cmd);
    }
  }

  lemma ListsWithin(db: Db, req: Request)
    ensures Within(Saved(db, req), req) && Within(Wanted(req), req)
  {
    match req {
      case Clients(doc) => ClientListsWithin(db, doc, req);
      case Lan(block) => LanListsWithin(db, block.param, req);
    }
  }

  lemma PrefixWithin(ps: seq<Param>, j: nat, req: Request, k: Key)
    requires Within(ps, req) && j <= |ps| && !OwnKey(req, k)
    ensures !Names(ps[..j], k)
  {
    forall p | p in ps[..j] ensures p.cmd != k {
      assert p in ps;
    }
  }

  lemma StoppedIs(db: Db, req: Request, fault: int)
    ensures StoppedBy(db, req, fault) == match Point(db, req, fault)
      case Unsetting(j) => UnsetAll(db, Saved(db, req)[..j])
      case Applying(j) => SetAll(UnsetAll(db, Saved(db, req)), Wanted(req)[..j])
  {
  }

  lemma StoppedKeeps(db: Db, req: Request, fault: int, k: Key)
    requires !OwnKey(req, k)
    ensures SameKey(StoppedBy(db, req, fault), db, k)
  {
    var ps, qs := Saved(db, req), Wanted(req);
    ListsWithin(db, req);
    StoppedIs(db, req, fault);
    match Point(db, req, fault) {
      case Unsetting(j) =>
        PrefixWithin(ps, j, req, k);
        UnsetAllKeeps(db, ps[..j], k);
      case Applying(j) =>
        PrefixWithin(ps, |ps|, req, k);
        assert ps[..|ps|] == ps;
        PrefixWithin(qs, j, req, k);
        UnsetAllKeeps(db, ps, k);
        SetAllKeeps(UnsetAll(db, ps), qs[..j], k);
    }
  }

  lemma UndoneKeeps(s: Session, req: Request, k: Key)
    requires !OwnKey(req, k) && !Names(s.bkup, k)
    ensures SameKey(Undone(s, req).db, s.db, k)
  {
    SetAllKeeps(s.db, s.bkup, k);
    if req.Clients? {
      CleanupKeeps(SetAll(s.db, s.bkup), s.received, |s.bkup|, k);
    }
  }

  lemma ProcessedKeeps(s: Session, req: Request, fault: int, present: bool, k: Key)
    requires !BridgeMode(s.db) && !OwnKey(req, k)
    ensures var t := Processed(s, req, fault, present).0;
      SameKey(t.db, s.db, k) && !Names(t.bkup, k)
  {
    if !Refuses(s.db, req) {
      var ps := Saved(s.db, req);
      StoppedKeeps(s.db, req, fault, k);
      ListsWithin(s.db, req);
      PrefixWithin(ps, |ps|, req, k);
      assert ps[..|ps|] == ps;
    }
  }

  /** Outside bridge mode a request of one kind leaves every key of the other kind alone, and
      every key of neither. */
  lemma ServeKeeps(s: Session, req: Request, fault: int, present: bool, k: Key)
    requires !BridgeMode(s.db) && !OwnKey(req, k)
    ensures SameKey(Serve(s, req, fault, present).0.db, s.db, k)
  {
    ProcessedKeeps(s, req, fault, present, k);
    UndoneKeeps(Processed(s, req, fault, present).0, req, k);
  }

  // ---------------------------------------------------------------- the table over one request

  /** A success shows the document; an error leaves a well-formed table as it was. */
  lemma ServeClients(s: Session, doc: seq<Client>, fault: int, present: bool)
    requires !BridgeMode(s.db)
    ensures var (t, code) := Serve(s, Clients(doc), fault, present);
      (code == Success ==> Visible(t.db) == if doc == [] then Table("", []) else DocTable(doc)) &&
      (code == ValidationFailed ==> t.db == s.db) &&
      (code != Success && WellFormed(s.db) ==> Visible(t.db) == Visible(s.db))
  {
    var (t, code) := Serve(s, Clients(doc), fault, present);
    if Refuses(s.db, Clients(doc)) {
      InvalidChangesNothing(s, Clients(doc), fault, present);
    } else if code == Success {
      SuccessLeaves(s, doc, fault, present);
      Finished(s.db, doc);
    } else {
      UndoneIsRecovered(s, doc, fault, present);
      if WellFormed(s.db) {
        WellFormedRecovers(s.db, doc, Point(s.db, Clients(doc), fault));
      }
    }
  }

  /** A document that does not pass validation changes nothing and clears the caches. */
  lemma InvalidChangesNothing(s: Session, req: Request, fault: int, present: bool)
    requires !BridgeMode(s.db) && Refuses(s.db, req)
    ensures Serve(s, req, fault, present) == (Session(s.db, [], 0), ValidationFailed)
  {
  }

  lemma UndoneIsRecovered(s: Session, doc: seq<Client>, fault: int, present: bool)
    requires !Refuses(s.db, Clients(doc))
    requires CodeOf(s.db, Clients(doc), fault, present) != Success
    ensures Serve(s, Clients(doc), fault, present).0.db == Recovered(s.db, doc, Point(s.db, Clients(doc), fault))
  {
  }

  /** What is in the database after the last write. */
  function Final(db: Db, doc: seq<Client>): Db {
    if doc == [] then UnsetAll(db, Backup(db)) else Committed(db, doc)
  }

  lemma Finished(db: Db, doc: seq<Client>)
    ensures doc == [] ==> Stopped(db, Cache(doc), Unsetting(|Backup(db)|)) == Final(db, doc)
    ensures doc != [] ==> Stopped(db, Cache(doc), Applying(|Cache(doc)|)) == Final(db, doc)
    ensures Visible(Final(db, doc)) == if doc == [] then Table("", []) else DocTable(doc)
  {
    if doc == [] {
      assert Backup(db)[..|Backup(db)|] == Backup(db);
      ClearEmpties(db);
    } else {
      StoppedAtEnd(db, doc);
      CommitShowsDocument(db, doc);
    }
  }

  lemma SuccessLeaves(s: Session, doc: seq<Client>, fault: int, present: bool)
    requires Serve(s, Clients(doc), fault, present).1 == Success
    ensures Serve(s, Clients(doc), fault, present).0
         == Session(Final(s.db, doc), Backup(s.db), if doc == [] then 0 else |Cache(doc)|)
  {
    if doc == [] {
      StopsAfterUnset(s.db, Clients(doc), fault, present);
    } else {
      StopsInApply(s.db, Clients(doc), fault, present);
      assert Cache(doc)[..|Cache(doc)|] == Cache(doc);
    }
  }

  lemma LanSuccessLeaves(s: Session, block: LanDoc, fault: int, present: bool)
    requires Serve(s, Lan(block), fault, present).1 == Success
    ensures Serve(s, Lan(block), fault, present).0
         == Session(LanStopped(s.db, block.param, Applying(|LAN_KEYS|)), LanBackup(s.db), |LAN_KEYS|)
  {
  }

  lemma ServeLan(s: Session, block: LanDoc, fault: int, present: bool)
    requires !BridgeMode(s.db)
    ensures Visible(Serve(s, Lan(block), fault, present).0.db) == Visible(s.db)
  {
    hide Serve, Visible, HostCount;
    var t := Serve(s, Lan(block), fault, present).0;
    forall x | VisibleKey(s.db, x) ensures Get(t.db, x) == Get(s.db, x) {
      ServeKeeps(s, Lan(block), fault, present, x);
    }
    SameVisibleIff(t.db, s.db);
  }

  lemma WellFormedIsVisible(a: Db, b: Db)
    requires Visible(a) == Visible(b)
    ensures WellFormed(a) <==> WellFormed(b)
  {
    assert HostCount(a) == |Visible(a).slots| == |Visible(b).slots| == HostCount(b);
    forall i | 1 <= i <= HostCount(a) ensures SlotAt(a, i) == SlotAt(b, i) {
      assert SlotAt(a, i) == Visible(a).slots[i - 1] && SlotAt(b, i) == Visible(b).slots[i - 1];
    }
    assert Get(a, NumHosts) == Visible(a).count && Get(b, NumHosts) == Visible(b).count;
  }

  /** A success with a document leaves a well-formed table, and one without does not. */
  lemma CommitIsWellFormedIff(db: Db, doc: seq<Client>)
    ensures WellFormed(Final(db, doc)) <==> doc != []
  {
    Finished(db, doc);
    var now := Final(db, doc);
    if doc == [] {
      assert Get(now, NumHosts) == Visible(now).count;
    } else {
      CommittedCount(db, doc);
      forall i | 1 <= i <= |doc| ensures Complete(SlotAt(now, i)) {
        CommittedSlot(db, doc, i - 1);
      }
    }
  }

  /** So the next document that fails after its last write shows up in the cleared table. */
  lemma FailureAfterClear(db: Db, doc: seq<Client>)
    requires doc != []
    ensures var cleared := Final(db, []);
      Visible(Recovered(cleared, doc, Applying(|Cache(doc)|))) != Visible(cleared)
  {
    var cleared := Final(db, []);
    CommitIsWellFormedIff(db, []);
    Finished(db, []);
    assert HostCount(cleared) == |Visible(cleared).slots|;
    NotWellFormedIsDamaged(cleared, doc);
  }

  // ---------------------------------------------------------------- runs

  datatype Event = Asked(req: Request, fault: int, present: bool) | ModeSet(mode: string)

  function Step(s: Session, e: Event): Session {
    match e
    case Asked(req, fault, present) => Serve(s, req, fault, present).0
    case ModeSet(mode) => s.(db := s.db[Other("bridge_mode") := mode])
  }

  function Run(s: Session, es: seq<Event>): Session
    decreases |es|
  {
    if es == [] then s else Run(Step(s, es[0]), es[1..])
  }

  predicate Succeeds(s: Session, e: Event) {
    e.Asked? && Serve(s, e.req, e.fault, e.present).1 == Success
  }

  /** The table that the static-client requests of a run have agreed on. */
  function LastShown(t: Table, s: Session, es: seq<Event>): Table
    decreases |es|
  {
    if es == [] then t
    else LastShown(Shown(t, s, es[0]), Step(s, es[0]), es[1..])
  }

  function Shown(t: Table, s: Session, e: Event): Table {
    if Succeeds(s, e) && e.req.Clients? then
      if e.req.doc == [] then Table("", []) else DocTable(e.req.doc)
    else t
  }

  /** Requests never switch bridge mode: a run without a switch stays outside it. */
  lemma {:induction false} RequestsKeepMode(s: Session, es: seq<Event>)
    requires !BridgeMode(s.db) && forall i :: 0 <= i < |es| ==> es[i].Asked?
    ensures !BridgeMode(Run(s, es).db)
    decreases |es|
  {
    if es != [] {
      ServeKeeps(s, es[0].req, es[0].fault, es[0].present, Other("bridge_mode"));
      RequestsKeepMode(Step(s, es[0]), es[1..]);
    }
  }

  /** Every request comes outside bridge mode, and the table is well-formed when a static-client
      request fails that was not refused. */
  ghost predicate FailsSafely(s: Session, e: Event) {
    e.Asked? ==> !BridgeMode(s.db) && (e.req.Clients? && !Succeeds(s, e) && !Refuses(s.db, e.req) ==> WellFormed(s.db))
  }

  ghost predicate AllSafe(s: Session, es: seq<Event>)
    decreases |es|
  {
    es == [] || (FailsSafely(s, es[0]) && AllSafe(Step(s, es[0]), es[1..]))
  }

  lemma StepShows(s: Session, e: Event)
    requires FailsSafely(s, e)
    ensures Visible(Step(s, e).db) == Shown(Visible(s.db), s, e)
  {
    match e {
      case ModeSet(mode) =>
        RolledBackModeless(s.db, mode, [], 0);
      case Asked(req, fault, present) =>
        match req {
          case Clients(doc) => ServeClients(s, doc, fault, present);
          case Lan(block) => ServeLan(s, block, fault, present);
        }
    }
  }

  /** Over every run, in any order and with any failures, the table is that of the last
      static-client request that succeeded. */
  lemma {:induction false} RunShowsLast(s: Session, es: seq<Event>)
    requires AllSafe(s, es)
    ensures Visible(Run(s, es).db) == LastShown(Visible(s.db), s, es)
    decreases |es|
  {
    if es != [] {
      StepShows(s, es[0]);
      RunShowsLast(Step(s, es[0]), es[1..]);
    }
  }

  /** No request clears the table, and none comes in bridge mode. */
  ghost predicate NeverClears(s: Session, es: seq<Event>)
    decreases |es|
  {
    es == [] ||
    ((es[0].Asked? ==> !BridgeMode(s.db) && !(es[0].req == Clients([]) && Succeeds(s, es[0]))) &&
     NeverClears(Step(s, es[0]), es[1..]))
  }

  lemma StepWellFormed(s: Session, e: Event)
    requires WellFormed(s.db) && FailsSafely(s, e)
    requires e.Asked? ==> !(e.req == Clients([]) && Succeeds(s, e))
    ensures WellFormed(Step(s, e).db)
  {
    StepShows(s, e);
    if Succeeds(s, e) && e.req.Clients? {
      CommitIsWellFormedIff(s.db, e.req.doc);
      Finished(s.db, e.req.doc);
      WellFormedIsVisible(Step(s, e).db, Final(s.db, e.req.doc));
    } else {
      WellFormedIsVisible(Step(s, e).db, s.db);
    }
  }

  /** From a well-formed table a run is safe as long as no request clears the table. */
  lemma {:induction false} NeverClearsIsSafe(s: Session, es: seq<Event>)
    requires WellFormed(s.db) && NeverClears(s, es)
    ensures AllSafe(s, es) && WellFormed(Run(s, es).db)
    decreases |es|
  {
    if es != [] {
      StepWellFormed(s, es[0]);
      NeverClearsIsSafe(Step(s, es[0]), es[1..]);
    }
  }

  /** The six keys over one request: a success writes them, and an error leaves them alone when
      all were there. */
  lemma ServeLanKeys(s: Session, block: LanDoc, fault: int, present: bool, k: Key)
    requires !BridgeMode(s.db) && k in LAN_KEYS
    ensures var (t, code) := Serve(s, Lan(block), fault, present);
      if code == Success then Get(t.db, k) == LanText(block.param, k)
      else LanComplete(s.db) || code == ValidationFailed ==> Get(t.db, k) == Get(s.db, k)
  {
    var (t, code) := Serve(s, Lan(block), fault, present);
    if Refuses(s.db, Lan(block)) {
      InvalidChangesNothing(s, Lan(block), fault, present);
    } else if code == Success {
      LanSuccessLeaves(s, block, fault, present);
      LanCommitted(s.db, block.param, k);
    } else {
      LanUndoneIsRecovered(s, block, fault, present);
      LanRecoveredGet(s.db, block.param, Point(s.db, Lan(block), fault), k);
    }
  }

  ghost predicate LanComplete(db: Db) {
    forall k :: k in LAN_KEYS ==> Get(db, k) != ""
  }

  lemma LanUndoneIsRecovered(s: Session, block: LanDoc, fault: int, present: bool)
    requires !Refuses(s.db, Lan(block)) && CodeOf(s.db, Lan(block), fault, present) != Success
    ensures Serve(s, Lan(block), fault, present).0.db
         == LanRecovered(s.db, block.param, Point(s.db, Lan(block), fault))
  {
  }

  /** An error leaves every key as it read, when all six were there. */
  lemma ServeLanReads(s: Session, block: LanDoc, fault: int, present: bool)
    requires !BridgeMode(s.db)
    ensures var (t, code) := Serve(s, Lan(block), fault, present);
      if code == Success then forall k :: k in LAN_KEYS ==> Get(t.db, k) == LanText(block.param, k)
      else LanComplete(s.db) || code == ValidationFailed ==> SameReads(t.db, s.db)
  {
    var (t, code) := Serve(s, Lan(block), fault, present);
    forall k | k in LAN_KEYS
      ensures if code == Success then Get(t.db, k) == LanText(block.param, k)
              else LanComplete(s.db) || code == ValidationFailed ==> Get(t.db, k) == Get(s.db, k)
    {
      ServeLanKeys(s, block, fault, present, k);
    }
    forall k | k !in LAN_KEYS ensures Get(t.db, k) == Get(s.db, k) {
      LanKeys(k);
      ServeKeeps(s, Lan(block), fault, present, k);
    }
  }

  ghost predicate LanFailsSafely(s: Session, e: Event) {
    e.Asked? ==> !BridgeMode(s.db) && (e.req.Lan? && !Succeeds(s, e) && !Refuses(s.db, e.req) ==> LanComplete(s.db))
  }

  ghost predicate AllLanSafe(s: Session, es: seq<Event>)
    decreases |es|
  {
    es == [] || (LanFailsSafely(s, es[0]) && AllLanSafe(Step(s, es[0]), es[1..]))
  }

  /** What the LAN requests of a run have agreed on for one of the six keys. */
  function LastLan(text: string, s: Session, es: seq<Event>, k: Key): string
    decreases |es|
  {
    if es == [] then text
    else LastLan(LanShown(text, s, es[0], k), Step(s, es[0]), es[1..], k)
  }

  function LanShown(text: string, s: Session, e: Event, k: Key): string {
    if Succeeds(s, e) && e.req.Lan? then LanText(e.req.block.param, k) else text
  }

  lemma LanStepShows(s: Session, e: Event, k: Key)
    requires LanFailsSafely(s, e) && k in LAN_KEYS
    ensures Get(Step(s, e).db, k) == LanShown(Get(s.db, k), s, e, k)
  {
    LanKeys(k);
    match e {
      case ModeSet(_) =>
      case Asked(req, fault, present) =>
        match req {
          case Clients(_) => ServeKeeps(s, req, fault, present, k);
          case Lan(block) => ServeLanKeys(s, block, fault, present, k);
        }
    }
  }

  /** Over every run each of the six LAN keys is that of the last LAN request that succeeded. */
  lemma {:induction false} RunShowsLastLan(s: Session, es: seq<Event>, k: Key)
    requires AllLanSafe(s, es) && k in LAN_KEYS
    ensures Get(Run(s, es).db, k) == LastLan(Get(s.db, k), s, es, k)
    decreases |es|
  {
    if es != [] {
      LanStepShows(s, es[0], k);
      RunShowsLastLan(Step(s, es[0]), es[1..], k);
    }
  }

  // ---------------------------------------------------------------- bridge mode

  /** A refusal in bridge mode is harmless exactly when the caches are. */
  lemma RefusalHarmlessIff(s: Session, doc: seq<Client>, fault: int, present: bool)
    requires BridgeMode(s.db)
    ensures var (t, code) := Serve(s, Clients(doc), fault, present);
      code == ValidationFailed && t.bkup == s.bkup && t.received == s.received &&
      (Visible(t.db) == Visible(s.db) <==> Harmless(s.db, s.bkup, s.received))
  {
    RollbackHarmlessIff(s.db, s.bkup, s.received);
  }

  lemma LanRefusalHarmlessIff(s: Session, block: LanDoc, fault: int, present: bool)
    requires BridgeMode(s.db)
    ensures var (t, code) := Serve(s, Lan(block), fault, present);
      code == ValidationFailed && t.bkup == s.bkup && t.received == s.received &&
      (SameReads(t.db, s.db) <==> Agrees(s.bkup, s.db))
  {
    RefusedLanIff(s.db, s.bkup);
  }

  /** A static-client request succeeds, bridge mode is switched on, the next one is refused: the
      table is again the one from before the request that succeeded. */
  lemma CommitThenRefuse(s: Session, doc: seq<Client>, fault: int, mode: string, next: seq<Client>,
      fault2: int, present: bool)
    requires WellFormed(s.db) && mode != "0"
    requires Serve(s, Clients(doc), fault, true).1 == Success
    ensures var s1 := Step(Step(s, Asked(Clients(doc), fault, true)), ModeSet(mode));
      var (t, code) := Serve(s1, Clients(next), fault2, present);
      code == ValidationFailed && Visible(t.db) == Visible(s.db) &&
      Visible(s1.db) == if doc == [] then Table("", []) else DocTable(doc)
  {
    SuccessLeaves(s, doc, fault, true);
    RefusalUndoesLastCommit(s.db, doc, mode);
    RefusedServe(Step(Step(s, Asked(Clients(doc), fault, true)), ModeSet(mode)), Clients(next), fault2, present);
  }

  lemma SuccessShows(s: Session, doc: seq<Client>, fault: int)
    requires Serve(s, Clients(doc), fault, true).1 == Success
    ensures HostCount(Serve(s, Clients(doc), fault, true).0.db) <= |doc|
  {
    SuccessLeaves(s, doc, fault, true);
    Finished(s.db, doc);
    assert HostCount(Final(s.db, doc)) == |Visible(Final(s.db, doc)).slots|;
  }

  lemma RefusedServe(s: Session, req: Request, fault: int, present: bool)
    requires BridgeMode(s.db)
    ensures Serve(s, req, fault, present) == (Undone(s, req), ValidationFailed)
  {
  }

  /** The same for LAN requests: each of the six keys that had a value has it again. */
  lemma LanCommitThenRefuse(s: Session, block: LanDoc, fault: int, mode: string, next: LanDoc, fault2: int,
      present: bool)
    requires mode != "0" && Serve(s, Lan(block), fault, true).1 == Success
    ensures var s1 := Step(Step(s, Asked(Lan(block), fault, true)), ModeSet(mode));
      var (t, code) := Serve(s1, Lan(next), fault2, present);
      code == ValidationFailed &&
      forall k :: k in LAN_KEYS ==> Get(t.db, k) == if Get(s.db, k) != "" then Get(s.db, k) else LanText(block.param, k)
  {
    var s1 := Step(Step(s, Asked(Lan(block), fault, true)), ModeSet(mode));
    LanSuccessLeaves(s, block, fault, true);
    LanRefusalUndoesLastCommit(s.db, block.param, mode);
    RefusedServe(s1, Lan(next), fault2, present);
  }

  // ---------------------------------------------------------------- the handlers

  /** What the static-client handler establishes, for a document that it refuses or not. */
  ghost predicate HandledClients(s: Session, doc: seq<Client>, refused: bool, fault: int, present: bool,
      t: Session, code: Code) {
    (code == ValidationFailed <==> refused) &&
    (refused ==> t == if BridgeMode(s.db) then s else Session(s.db, [], 0)) &&
    (!refused ==>
       var at := Point(s.db, Clients(doc), fault);
       t == Session(Stopped(s.db, Cache(doc), at), Backup(s.db), Received(Cache(doc), at)) &&
       code == CodeOf(s.db, Clients(doc), fault, present))
  }

  lemma ReplacedIsHandled(s: Session, doc: seq<Client>, fault: int, present: bool, t: Session, code: Code, at: Progress)
    requires at == StopsAt(|Backup(s.db)|, if doc == [] then 0 else |Cache(doc)|, fault) && Reaches(s.db, doc, at)
    requires t == Session(Stopped(s.db, Cache(doc), at), Backup(s.db), Received(Cache(doc), at))
    requires code ==
      if 0 <= fault < Writes(|Backup(s.db)|) + (if doc == [] then 0 else Writes(|Cache(doc)|)) then SyscfgFailure
      else if present then Success else SyncFailed
    ensures HandledClients(s, doc, false, fault, present, t, code)
  {
    PointOfClients(s.db, doc, fault, present);
  }

  ghost predicate HandledLan(s: Session, block: LanDoc, refused: bool, fault: int, present: bool, t: Session,
      code: Code) {
    (code == ValidationFailed <==> refused) &&
    (refused ==> t == if BridgeMode(s.db) then s else Session(s.db, [], 0)) &&
    (!refused ==>
       var at := Point(s.db, Lan(block), fault);
       t == Session(LanStopped(s.db, block.param, at), LanBackup(s.db), if at.Unsetting? then 0 else 6) &&
       code == CodeOf(s.db, Lan(block), fault, present))
  }

  lemma ReplacedLanIsHandled(s: Session, block: LanDoc, fault: int, present: bool, t: Session, code: Code, at: Progress)
    requires at == StopsAt(|LanBackup(s.db)|, 6, fault) && LanReaches(s.db, at)
    requires t == Session(LanStopped(s.db, block.param, at), LanBackup(s.db), if at.Unsetting? then 0 else 6)
    requires code ==
      if 0 <= fault < Writes(|LanBackup(s.db)|) + Writes(6) then SyscfgFailure
      else if present then Success else SyncFailed
    ensures HandledLan(s, block, false, fault, present, t, code)
  {
    PointOfLan(s.db, block, fault, present);
  }

  /** A static-client request and the rollback after an error, from session s to session u: it
      succeeds exactly when it is not refused, the data model is there and no call of its window
      fails. A success shows the document, and an error what was shown before, if that was
      well-formed; a refusal for bridge mode is harmless exactly when the old caches are. */
  ghost predicate ServedClients(s: Session, doc: seq<Client>, fault: int, present: bool, u: Session, code: Code) {
    (u, code) == Serve(s, Clients(doc), fault, present) &&
    (code == ValidationFailed <==> Refuses(s.db, Clients(doc))) &&
    (code == Success <==> !Refuses(s.db, Clients(doc)) && present && !(0 <= fault < Window(s.db, Clients(doc)))) &&
    (code == Success ==> Visible(u.db) == if doc == [] then Table("", []) else DocTable(doc)) &&
    (code != Success && !BridgeMode(s.db) && WellFormed(s.db) ==> Visible(u.db) == Visible(s.db)) &&
    (BridgeMode(s.db) ==> (Visible(u.db) == Visible(s.db) <==> Harmless(s.db, s.bkup, s.received)))
  }

  lemma ClientsAreServed(s: Session, doc: seq<Client>, fault: int, present: bool, t: Session, code: Code, u: Session)
    requires HandledClients(s, doc, Refuses(s.db, Clients(doc)), fault, present, t, code)
    requires u == if code == Success then t else t.(db := RolledBack(t.db, t.bkup, t.received))
    ensures ServedClients(s, doc, fault, present, u, code)
  {
    assert (t, code) == Processed(s, Clients(doc), fault, present);
    if BridgeMode(s.db) {
      RefusalHarmlessIff(s, doc, fault, present);
    } else {
      ServeClients(s, doc, fault, present);
    }
  }

  /** The same for a LAN request and its six keys. */
  ghost predicate ServedLan(s: Session, block: LanDoc, fault: int, present: bool, u: Session, code: Code) {
    (u, code) == Serve(s, Lan(block), fault, present) &&
    (code == ValidationFailed <==> Refuses(s.db, Lan(block))) &&
    (code == Success <==> !Refuses(s.db, Lan(block)) && present && !(0 <= fault < Window(s.db, Lan(block)))) &&
    (code == Success ==> ShowsLan(u.db, block.param)) &&
    (code != Success && !BridgeMode(s.db) && LanComplete(s.db) ==> SameReads(u.db, s.db)) &&
    (BridgeMode(s.db) ==> (SameReads(u.db, s.db) <==> Agrees(s.bkup, s.db)))
  }

  lemma LanIsServed(s: Session, block: LanDoc, fault: int, present: bool, t: Session, code: Code, u: Session)
    requires HandledLan(s, block, Refuses(s.db, Lan(block)), fault, present, t, code)
    requires u == if code == Success then t else t.(db := SetAll(t.db, t.bkup))
    ensures ServedLan(s, block, fault, present, u, code)
  {
    assert (t, code) == Processed(s, Lan(block), fault, present);
    if BridgeMode(s.db) {
      LanRefusalHarmlessIff(s, block, fault, present);
    } else {
      ServeLanReads(s, block, fault, present);
      if code == Success {
        TextsShowLan(u.db, block.param);
      }
    }
  }
}
