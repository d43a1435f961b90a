/** The static-client webconfig request as a database transformation, and when a failed request
    followed by its rollback is unobservable. */
module Atomicity {
  import opened Decimal
  import opened Inet
  import opened Syscfg
  import opened Wrappers

  // ---------------------------------------------------------------- static clients

  /** The database when the request stopped. */
  function Stopped(db: Db, cache: seq<Param>, at: Progress): Db
    requires at.done <= if at.Unsetting? then |Backup(db)| else |cache|
  {
    match at
    case Unsetting(j) => UnsetAll(db, Backup(db)[..j])
    case Applying(j) => SetAll(UnsetAll(db, Backup(db)), cache[..j])
  }

  /** rollback_StaticClients, given the backup and the number of received parameters. An
      empty backup is not applied. */
  function RolledBack(now: Db, backup: seq<Param>, received: nat): Db {
    Cleanup(SetAll(now, backup), received, |backup|)
  }

  function Received(cache: seq<Param>, at: Progress): nat {
    if at.Unsetting? then 0 else |cache|
  }

  /** The points where a request for this document can stop: any unset or set, or what
      follows the last one (the commit, the table flag). */
  predicate Reaches(db: Db, doc: seq<Client>, at: Progress) {
    match at
    case Unsetting(j) => j <= |Backup(db)|
    case Applying(j) => doc != [] && j <= |Cache(doc)|
  }

  function Recovered(db: Db, doc: seq<Client>, at: Progress): Db
    requires Reaches(db, doc, at)
  {
    RolledBack(Stopped(db, Cache(doc), at), Backup(db), Received(Cache(doc), at))
  }

  predicate Complete(s: Slot) { s.host != "" && s.insNum != "" && s.alias != "" }

  predicate Blank(s: Slot) { s.host == "" && s.insNum == "" && s.alias == "" }

  /** The table writer's own form: a count, and all three keys in every slot. */
  predicate WellFormed(db: Db) {
    Get(db, NumHosts) != "" && forall i :: 1 <= i <= HostCount(db) ==> Complete(SlotAt(db, i))
  }

  /** Complete slots give at least three parameters each. */
  lemma {:induction false} BackupSize(db: Db, n: nat)
    requires forall i :: 1 <= i <= n ==> Complete(SlotAt(db, i))
    ensures |BackupSlots(db, n)| >= 3 * n
  {
    if n > 0 {
      BackupSize(db, n - 1);
      assert Complete(SlotAt(db, n));
    }
  }

  lemma {:induction false} BackupGrows(db: Db, m: nat, n: nat)
    requires m <= n
    ensures |BackupSlots(db, m)| <= |BackupSlots(db, n)|
  {
    if m < n {
      BackupGrows(db, m, n - 1);
    }
  }

  lemma {:induction false} FirstIncomplete(db: Db, n: nat) returns (i: nat)
    requires exists j :: 1 <= j <= n && !Complete(SlotAt(db, j))
    ensures 1 <= i <= n && !Complete(SlotAt(db, i))
    ensures forall j :: 1 <= j < i ==> Complete(SlotAt(db, j))
  {
    if exists j :: 1 <= j <= n - 1 && !Complete(SlotAt(db, j)) {
      i := FirstIncomplete(db, n - 1);
    } else {
      i := n;
    }
  }

  /** The cleanup loop starts at the number of backed-up parameters, not of hosts. It starts
      behind the first incomplete slot all the same: the slots before it are backed up. */
  lemma IncompleteIsNotCleaned(db: Db) returns (i: nat)
    requires Get(db, NumHosts) != "" && !WellFormed(db)
    ensures 1 <= i <= HostCount(db) && !Complete(SlotAt(db, i)) && i <= |Backup(db)|
  {
    i := FirstIncomplete(db, HostCount(db));
    BackupSize(db, i - 1);
    BackupGrows(db, i - 1, HostCount(db));
  }

  /** So a table whose incomplete slots are all blank and within reach of the cleanup loop has
      no incomplete slot. */
  lemma BlankSlotsDoNotHelp(db: Db)
    ensures WellFormed(db) <==> (Get(db, NumHosts) != "" &&
      forall i :: 1 <= i <= HostCount(db) ==>
        Complete(SlotAt(db, i)) || (i > |Backup(db)| && Blank(SlotAt(db, i))))
  {
    if Get(db, NumHosts) != "" && !WellFormed(db) {
      var i := IncompleteIsNotCleaned(db);
    }
  }

  /** One key after a rollback. */
  lemma RolledBackGet(now: Db, b: seq<Param>, r: nat, x: Key)
    ensures Get(RolledBack(now, b, r), x) == if IsSlotKey(x) && |b| < x.i <= r then "" else After(b, now, x)
  {
    SetAllAfter(now, b, x);
    CleanupGet(SetAll(now, b), r, |b|, x);
  }

  /** One key of the table after a failure and the rollback. */
  lemma RecoveredGet(db: Db, doc: seq<Client>, at: Progress, x: Key)
    requires Reaches(db, doc, at)
    requires IsSlotKey(x) || x == NumHosts
    ensures Get(Recovered(db, doc, at), x) ==
      if IsSlotKey(x) && |Backup(db)| < x.i <= Received(Cache(doc), at) then ""
      else if Names(Backup(db), x) then Get(db, x)
      else Get(Stopped(db, Cache(doc), at), x)
  {
    BackupNames(db, x);
    WrittenTaken(Backup(db), db, x);
    RolledBackGet(Stopped(db, Cache(doc), at), Backup(db), Received(Cache(doc), at), x);
  }

  lemma SameVisible(a: Db, b: Db)
    requires Get(a, NumHosts) == Get(b, NumHosts)
    requires forall i :: 1 <= i <= HostCount(b) ==> SlotAt(a, i) == SlotAt(b, i)
    ensures Visible(a) == Visible(b)
  {
    assert HostCount(a) == HostCount(b);
    forall j | 0 <= j < HostCount(b) ensures Visible(a).slots[j] == Visible(b).slots[j] {
      assert SlotAt(a, j + 1) == SlotAt(b, j + 1);
    }
  }

  /** A well-formed table is enough, for every document and every point of failure. */
  lemma WellFormedRecovers(db: Db, doc: seq<Client>, at: Progress)
    requires WellFormed(db) && Reaches(db, doc, at)
    ensures Visible(Recovered(db, doc, at)) == Visible(db)
  {
    var now := Recovered(db, doc, at);
    RecoveredGet(db, doc, at, NumHosts);
    BackupNames(db, NumHosts);
    forall i | 1 <= i <= HostCount(db) ensures SlotAt(now, i) == SlotAt(db, i) {
      WellFormedSlot(db, doc, at, Host(i));
      WellFormedSlot(db, doc, at, InsNum(i));
      WellFormedSlot(db, doc, at, HostAlias(i));
    }
    SameVisible(now, db);
  }

  lemma WellFormedSlot(db: Db, doc: seq<Client>, at: Progress, x: Key)
    requires WellFormed(db) && IsSlotKey(x) && 1 <= x.i <= HostCount(db)
    requires Reaches(db, doc, at)
    ensures Get(Recovered(db, doc, at), x) == Get(db, x)
  {
    RecoveredGet(db, doc, at, x);
    BackupNames(db, x);
    BackupSize(db, HostCount(db));
    assert Complete(SlotAt(db, x.i));
  }

  /** A key without a value within reach of the backup, which a finished but failed request
      leaves with one after the rollback. */
  lemma MissingKeyAppears(db: Db, doc: seq<Client>, x: Key)
    requires IsSlotKey(x) && 1 <= x.i <= HostCount(db) && |doc| >= x.i
    requires x.i <= |Backup(db)| && Get(db, x) == ""
    ensures Get(Recovered(db, doc, Applying(|Cache(doc)|)), x) != Get(db, x)
  {
    RecoveredGet(db, doc, Applying(|Cache(doc)|), x);
    BackupNames(db, x);
    StoppedAtEnd(db, doc);
    CommittedGet(db, doc, x);
  }

  /** A key of the table once the whole document is applied. */
  lemma CommittedGet(db: Db, doc: seq<Client>, x: Key)
    requires x == NumHosts || (IsSlotKey(x) && 1 <= x.i <= |doc|)
    ensures Get(Committed(db, doc), x) ==
      if x == NumHosts then Dec(|doc|) else SlotText(doc[x.i - 1], x)
    ensures Get(Committed(db, doc), x) != ""
  {
    var base := UnsetAll(db, Backup(db));
    SetAllHead(base, Param(NumHosts, Dec(|doc|)), CacheSlots(doc));
    CacheSlotsGet(base[NumHosts := Dec(|doc|)], doc, x);
  }

  function Committed(db: Db, doc: seq<Client>): Db {
    SetAll(UnsetAll(db, Backup(db)), Cache(doc))
  }

  lemma StoppedAtEnd(db: Db, doc: seq<Client>)
    ensures Stopped(db, Cache(doc), Applying(|Cache(doc)|)) == Committed(db, doc)
  {
    assert Cache(doc)[..|Cache(doc)|] == Cache(doc);
  }

  lemma {:induction false} SetAllHead(db: Db, p: Param, ps: seq<Param>)
    ensures SetAll(db, [p] + ps) == SetAll(db[p.cmd := p.val], ps)
  {
    if ps == [] {
      assert ([p] + ps)[..0] == [];
    } else {
      var n := |ps| - 1;
      SetAllHead(db, p, ps[..n]);
      assert ([p] + ps)[..n + 1] == [p] + ps[..n];
    }
  }

  /** A document with n entries, whatever they are. */
  function AnyDoc(n: nat): seq<Client> {
    seq(n, i => Client("00:11:22:33:44:55", "10.0.0.2"))
  }

  /** Main theorem: exactly the well-formed tables survive every failed request. */
  lemma AtomicIff(db: Db)
    ensures WellFormed(db) <==>
      forall doc: seq<Client>, at: Progress ::
        Reaches(db, doc, at) ==>
          Visible(Recovered(db, doc, at)) == Visible(db)
  {
    if WellFormed(db) {
      forall doc: seq<Client>, at: Progress
        | Reaches(db, doc, at)
        ensures Visible(Recovered(db, doc, at)) == Visible(db)
      {
        WellFormedRecovers(db, doc, at);
      }
    } else {
      var doc := AnyDoc(HostCount(db) + 1);
      NotWellFormedIsDamaged(db, doc);
    }
  }

  /** Every document longer than a table that is not well-formed damages it, when the
      request fails after its last write. */
  lemma NotWellFormedIsDamaged(db: Db, doc: seq<Client>)
    requires !WellFormed(db) && |doc| > HostCount(db)
    ensures Visible(Recovered(db, doc, Applying(|Cache(doc)|))) != Visible(db)
  {
    if Get(db, NumHosts) == "" {
      CountAppears(db, doc);
    } else {
      var i := IncompleteIsNotCleaned(db);
      var x := if Get(db, Host(i)) == "" then Host(i)
               else if Get(db, InsNum(i)) == "" then InsNum(i) else HostAlias(i);
      MissingKeyAppears(db, doc, x);
      SlotsDiffer(db, Recovered(db, doc, Applying(|Cache(doc)|)), x);
    }
  }

  lemma CountAppears(db: Db, doc: seq<Client>)
    requires Get(db, NumHosts) == "" && doc != []
    ensures Visible(Recovered(db, doc, Applying(|Cache(doc)|))).count != ""
  {
    RecoveredGet(db, doc, Applying(|Cache(doc)|), NumHosts);
    BackupNames(db, NumHosts);
    StoppedAtEnd(db, doc);
    CommittedGet(db, doc, NumHosts);
  }

  lemma SlotsDiffer(db: Db, now: Db, x: Key)
    requires IsSlotKey(x) && 1 <= x.i <= HostCount(db) && Get(now, x) != Get(db, x)
    ensures Visible(now) != Visible(db)
  {
    assert Visible(db).slots[x.i - 1] == SlotAt(db, x.i);
    if HostCount(now) == HostCount(db) {
      assert Visible(now).slots[x.i - 1] == SlotAt(now, x.i);
    } else {
      assert |Visible(now).slots| != |Visible(db).slots|;
    }
  }

  // ---------------------------------------------------------------- rollback of a refused request

  /** The keys that a reader of the table sees. */
  predicate VisibleKey(db: Db, x: Key) {
    x == NumHosts || (IsSlotKey(x) && 1 <= x.i <= HostCount(db))
  }

  lemma SameVisibleIff(a: Db, b: Db)
    ensures Visible(a) == Visible(b) <==> forall x :: VisibleKey(b, x) ==> Get(a, x) == Get(b, x)
  {
    if forall x :: VisibleKey(b, x) ==> Get(a, x) == Get(b, x) {
      assert VisibleKey(b, NumHosts);
      forall i | 1 <= i <= HostCount(b) ensures SlotAt(a, i) == SlotAt(b, i) {
        assert VisibleKey(b, Host(i)) && VisibleKey(b, InsNum(i)) && VisibleKey(b, HostAlias(i));
      }
      SameVisible(a, b);
    } else {
      var x :| VisibleKey(b, x) && Get(a, x) != Get(b, x);
      if x == NumHosts {
        assert Visible(a).count != Visible(b).count;
      } else {
        SlotsDiffer(b, a, x);
      }
    }
  }

  /** The rollback of a request that never touched the database: each key that is seen has no
      value where the cleanup loop passes, and is given its own value by the list b elsewhere,
      if b gives it one. */
  ghost predicate Harmless(now: Db, b: seq<Param>, r: nat) {
    forall x :: VisibleKey(now, x) ==>
      if IsSlotKey(x) && |b| < x.i <= r then Get(now, x) == ""
      else Written(b, x) == None || Written(b, x) == Some(Get(now, x))
  }

  /** The caches outlive a request, and a refusal for bridge mode does not reset them. Its
      rollback is unobservable exactly when what they hold is harmless. */
  lemma RollbackHarmlessIff(now: Db, b: seq<Param>, r: nat)
    ensures Visible(RolledBack(now, b, r)) == Visible(now) <==> Harmless(now, b, r)
  {
    SameVisibleIff(RolledBack(now, b, r), now);
    forall x ensures Get(RolledBack(now, b, r), x) ==
      if IsSlotKey(x) && |b| < x.i <= r then "" else After(b, now, x)
    {
      RolledBackGet(now, b, r, x);
    }
  }

  /** The database after a request that succeeded, once bridge mode has been switched on. */
  function InBridgeMode(db: Db, doc: seq<Client>, mode: string): Db {
    (if doc == [] then UnsetAll(db, Backup(db)) else Committed(db, doc))[Other("bridge_mode") := mode]
  }

  lemma RolledBackModeless(a: Db, mode: string, b: seq<Param>, r: nat)
    ensures Visible(a[Other("bridge_mode") := mode]) == Visible(a)
    ensures Visible(RolledBack(a[Other("bridge_mode") := mode], b, r)) == Visible(RolledBack(a, b, r))
  {
    var now := a[Other("bridge_mode") := mode];
    SameVisibleIff(now, a);
    SameVisibleIff(RolledBack(now, b, r), RolledBack(a, b, r));
    forall x | IsSlotKey(x) || x == NumHosts
      ensures Get(RolledBack(now, b, r), x) == Get(RolledBack(a, b, r), x)
    {
      RolledBackGet(now, b, r, x);
      RolledBackGet(a, b, r, x);
    }
  }

  /** A request succeeds, bridge mode is switched on, the next request is refused and rolled
      back: the rollback undoes the request that had succeeded, and is harmless only when that
      one had changed nothing that is seen. */
  lemma RefusalUndoesLastCommit(db: Db, doc: seq<Client>, mode: string)
    requires WellFormed(db) && mode != "0"
    ensures var now := InBridgeMode(db, doc, mode);
      var r := if doc == [] then 0 else |Cache(doc)|;
      BridgeMode(now) && Visible(now) == (if doc == [] then Table("", []) else DocTable(doc)) &&
      Visible(RolledBack(now, Backup(db), r)) == Visible(db) &&
      (Harmless(now, Backup(db), r) <==> Visible(db) == Visible(now))
  {
    var now, r := InBridgeMode(db, doc, mode), if doc == [] then 0 else |Cache(doc)|;
    if doc == [] {
      assert Backup(db)[..|Backup(db)|] == Backup(db);
      ClearEmpties(db);
      WellFormedRecovers(db, doc, Unsetting(|Backup(db)|));
      RolledBackModeless(UnsetAll(db, Backup(db)), mode, Backup(db), r);
    } else {
      StoppedAtEnd(db, doc);
      CommitShowsDocument(db, doc);
      WellFormedRecovers(db, doc, Applying(|Cache(doc)|));
      RolledBackModeless(Committed(db, doc), mode, Backup(db), r);
    }
    RollbackHarmlessIff(now, Backup(db), r);
  }

  // ---------------------------------------------------------------- commit

  /** The slot that entry j of the document makes. */
  function DocSlot(c: Client, j: nat): Slot {
    Slot(HostText(c), Dec(j + 1), "StaticAddress" + Dec(j + 1))
  }

  function DocTable(doc: seq<Client>): Table {
    Table(Dec(|doc|), seq(|doc|, j requires 0 <= j < |doc| => DocSlot(doc[j], j)))
  }

  lemma CommittedSlot(db: Db, doc: seq<Client>, j: nat)
    requires j < |doc|
    ensures SlotAt(Committed(db, doc), j + 1) == DocSlot(doc[j], j)
  {
    hide Committed;
    CommittedGet(db, doc, Host(j + 1));
    CommittedGet(db, doc, InsNum(j + 1));
    CommittedGet(db, doc, HostAlias(j + 1));
  }

  lemma CommittedCount(db: Db, doc: seq<Client>)
    ensures Get(Committed(db, doc), NumHosts) == Dec(|doc|)
    ensures HostCount(Committed(db, doc)) == |doc|
  {
    CommittedGet(db, doc, NumHosts);
    AtoiDec(|doc|);
  }

  /** After a successful request the table is the document, whatever the old table was. */
  lemma CommitShowsDocument(db: Db, doc: seq<Client>)
    ensures Visible(Committed(db, doc)) == DocTable(doc)
  {
    var seen := Visible(Committed(db, doc));
    CommittedCount(db, doc);
    forall j | 0 <= j < |doc| ensures seen.slots[j] == DocTable(doc).slots[j] {
      CommittedSlot(db, doc, j);
    }
  }

  /** A success with an empty document clears the table. */
  lemma ClearEmpties(db: Db)
    ensures Visible(UnsetAll(db, Backup(db))) == Table("", [])
  {
    UnsetAllGet(db, Backup(db), NumHosts);
    BackupNames(db, NumHosts);
  }

  /** Host lines read back, when neither address has a comma in it. */
  lemma HostRoundTrip(c: Client)
    requires ',' !in c.chaddr && ',' !in c.yiaddr
    ensures Fields(HostText(c), ',') == [c.chaddr, c.yiaddr, ""]
  {
    assert HostText(c) == c.chaddr + "," + (c.yiaddr + "," + "");
    FieldsCons(c.chaddr, ',', c.yiaddr + "," + "");
    FieldsCons(c.yiaddr, ',', "");
    FieldsOne("", ',');
  }

  /** No comment key that the backup reader looks at has a value. A hardware address of 17
      characters has no such key. */
  predicate NoComments(db: Db, doc: seq<Client>) {
    Get(db, CommentCount) == "" &&
    (forall i :: 1 <= i <= |doc| ==> Get(db, LanComment(i)) == "") &&
    forall c :: c in doc && NameFits(c.chaddr) ==> Get(db, CommentFor(c.chaddr)) == ""
  }

  /** Running the backup reader on a committed table returns the applied cache, entry by
      entry, when no comment key has a value. */
  lemma BackupReturnsCache(db: Db, doc: seq<Client>)
    requires forall c :: c in doc ==> ',' !in c.chaddr
    requires NoComments(Committed(db, doc), doc)
    ensures Backup(Committed(db, doc)) == Cache(doc)
  {
    var now := Committed(db, doc);
    CommittedCount(db, doc);
    CommittedGet(db, doc, NumHosts);
    forall i | 1 <= i <= |doc| ensures SlotAt(now, i) == DocSlot(doc[i - 1], i - 1) {
      CommittedSlot(db, doc, i - 1);
    }
    TableIsCache(now, doc);
  }

  lemma TableIsCache(now: Db, doc: seq<Client>)
    requires Get(now, NumHosts) == Dec(|doc|) != "" && HostCount(now) == |doc|
    requires forall c :: c in doc ==> ',' !in c.chaddr
    requires NoComments(now, doc)
    requires forall i :: 1 <= i <= |doc| ==> SlotAt(now, i) == DocSlot(doc[i - 1], i - 1)
    ensures Backup(now) == Cache(doc)
  {
    forall i | 1 <= i <= |doc| ensures BackupSlot(now, i) == CacheSlot(doc[i - 1], i) {
      assert doc[i - 1] in doc;
      BackupSlotIsCache(now, doc[i - 1], i);
    }
    BackupSlotsAreCache(now, doc, |doc|);
    assert doc[..|doc|] == doc;
  }

  lemma {:induction false} BackupSlotsAreCache(now: Db, doc: seq<Client>, n: nat)
    requires n <= |doc|
    requires forall i :: 1 <= i <= |doc| ==> BackupSlot(now, i) == CacheSlot(doc[i - 1], i)
    ensures BackupSlots(now, n) == CacheSlots(doc[..n])
  {
    if n > 0 {
      BackupSlotsAreCache(now, doc, n - 1);
      assert doc[..n][..n - 1] == doc[..n - 1];
    }
  }

  lemma BackupSlotIsCache(now: Db, c: Client, n: nat)
    requires n > 0 && ',' !in c.chaddr
    requires NameFits(c.chaddr) ==> Get(now, CommentFor(c.chaddr)) == ""
    requires Get(now, LanComment(n)) == ""
    requires SlotAt(now, n) == DocSlot(c, n - 1)
    ensures BackupSlot(now, n) == CacheSlot(c, n)
  {
    assert Get(now, Host(n)) == SlotAt(now, n).host;
    assert Get(now, InsNum(n)) == SlotAt(now, n).insNum;
    assert Get(now, HostAlias(n)) == SlotAt(now, n).alias;
    assert HostText(c) == c.chaddr + ("," + (c.yiaddr + ","));
    BeforeIs(c.chaddr, ',', "," + (c.yiaddr + ","));
  }
}
