/** syscfg as a map, and the key lists that the webconfig transactions back up, unset and
    apply. An absent key and an empty value read the same. */
module Syscfg {
  import opened Decimal
  import opened Inet
  import opened Wrappers

  datatype Key =
    | NumHosts | Host(i: nat) | InsNum(i: nat) | HostAlias(i: nat)
    | LanComment(i: nat) | CommentFor(mac: string) | CommentCount
    | LanIp | LanMask | ServerEnabled | StartIp | EndIp | LeaseTime
    | Other(name: string)

  type Db = map<Key, string>

  datatype Param = Param(cmd: Key, val: string)

  function Get(db: Db, k: Key): string {
    if k in db then db[k] else ""
  }

  predicate Names(ps: seq<Param>, k: Key) {
    exists p :: p in ps && p.cmd == k
  }

  function UnsetAll(db: Db, ps: seq<Param>): Db {
    if ps == [] then db else UnsetAll(db, ps[..|ps| - 1]) - {ps[|ps| - 1].cmd}
  }

  function SetAll(db: Db, ps: seq<Param>): Db {
    if ps == [] then db
    else SetAll(db, ps[..|ps| - 1])[ps[|ps| - 1].cmd := ps[|ps| - 1].val]
  }

  /** The value that a list of writes leaves under a key: its last entry for the key. */
  function Written(ps: seq<Param>, k: Key): Option<string> {
    if ps == [] then None
    else if ps[|ps| - 1].cmd == k then Some(ps[|ps| - 1].val)
    else Written(ps[..|ps| - 1], k)
  }

  /** What a key reads as after the writes. */
  function After(ps: seq<Param>, now: Db, k: Key): string {
    match Written(ps, k)
    case Some(v) => v
    case None => Get(now, k)
  }

  /** How far a request got before one syscfg call failed. */
  datatype Progress = Unsetting(done: nat) | Applying(done: nat)

  predicate BridgeMode(db: Db) {
    Other("bridge_mode") in db && db[Other("bridge_mode")] != "0"
  }

  /** Every entry of the list carries the value that `db` has for its key. */
  ghost predicate TakenFrom(ps: seq<Param>, db: Db) {
    forall p :: p in ps ==> p.val == Get(db, p.cmd)
  }

  lemma {:induction false} UnsetAllGet(db: Db, ps: seq<Param>, k: Key)
    ensures Get(UnsetAll(db, ps), k) == if Names(ps, k) then "" else Get(db, k)
  {
    if ps != [] {
      var n := |ps| - 1;
      UnsetAllGet(db, ps[..n], k);
      assert ps == ps[..n] + [ps[n]];
    }
  }

  lemma {:induction false} SetAllAfter(now: Db, ps: seq<Param>, k: Key)
    ensures Get(SetAll(now, ps), k) == After(ps, now, k)
  {
    if ps != [] {
      SetAllAfter(now, ps[..|ps| - 1], k);
    }
  }

  lemma {:induction false} WrittenTaken(ps: seq<Param>, db: Db, k: Key)
    requires TakenFrom(ps, db)
    ensures Written(ps, k) == if Names(ps, k) then Some(Get(db, k)) else None
  {
    if ps != [] {
      var n := |ps| - 1;
      assert ps == ps[..n] + [ps[n]];
      WrittenTaken(ps[..n], db, k);
    }
  }

  /** Writing back values taken from db restores db on exactly the listed keys. */
  lemma SetAllGet(db: Db, now: Db, ps: seq<Param>, k: Key)
    requires TakenFrom(ps, db)
    ensures Get(SetAll(now, ps), k) == if Names(ps, k) then Get(db, k) else Get(now, k)
  {
    SetAllAfter(now, ps, k);
    WrittenTaken(ps, db, k);
  }

  lemma NamesConcat(a: seq<Param>, b: seq<Param>, k: Key)
    ensures Names(a + b, k) <==> Names(a, k) || Names(b, k)
  {
  }

  // ---------------------------------------------------------------- static clients

  /** One step of a backup reader: the key counts only when it has a value. */
  function Entry(db: Db, k: Key): seq<Param> {
    if Get(db, k) != "" then [Param(k, Get(db, k))] else []
  }

  function HostCount(db: Db): nat {
    var n := Atoi(Get(db, NumHosts));
    if n < 0 then 0 else n
  }

  /** The key name "lan_clients_mac_" takes 16 of the 31 characters that a cache entry holds.
      A name that does not fit is left empty and has no value. */
  predicate NameFits(mac: string) { |mac| <= 15 }

  function CommentEntry(db: Db, mac: string): seq<Param> {
    if NameFits(mac) then Entry(db, CommentFor(mac)) else []
  }

  function BackupSlot(db: Db, i: nat): seq<Param> {
    Entry(db, Host(i)) + Entry(db, InsNum(i)) + Entry(db, HostAlias(i))
    + Entry(db, LanComment(i)) + CommentEntry(db, Before(Get(db, Host(i)), ','))
  }

  function BackupSlots(db: Db, n: nat): seq<Param> {
    if n == 0 then [] else BackupSlots(db, n - 1) + BackupSlot(db, n)
  }

  /** Dhcpv4_StaticClients_BackupFromDb */
  function Backup(db: Db): seq<Param> {
    Entry(db, NumHosts) + BackupSlots(db, HostCount(db)) + Entry(db, CommentCount)
  }

  datatype Client = Client(chaddr: string, yiaddr: string)

  function HostText(c: Client): string {
    c.chaddr + "," + c.yiaddr + ","
  }

  function CacheSlot(c: Client, i: nat): seq<Param> {
    [Param(Host(i), HostText(c)), Param(InsNum(i), Dec(i)), Param(HostAlias(i), "StaticAddress" + Dec(i))]
  }

  function CacheSlots(doc: seq<Client>): seq<Param> {
    if doc == [] then [] else CacheSlots(doc[..|doc| - 1]) + CacheSlot(doc[|doc| - 1], |doc|)
  }

  /** Dhcpv4_StaticClients_UpdateConfToCache */
  function Cache(doc: seq<Client>): seq<Param> {
    [Param(NumHosts, Dec(|doc|))] + CacheSlots(doc)
  }

  function UnsetSlot(db: Db, i: nat): Db {
    db - {Host(i)} - {HostAlias(i)} - {InsNum(i)}
  }

  /** Dhcpv4_StaticClients_UnsetNotUsedParamFromDb: slots kept + 1 .. received. */
  function Cleanup(db: Db, received: nat, kept: nat): Db
    decreases received
  {
    if received <= kept then db else UnsetSlot(Cleanup(db, received - 1, kept), received)
  }

  predicate IsSlotKey(k: Key) {
    k.Host? || k.InsNum? || k.HostAlias?
  }

  /** What a reader of the table sees: the count text and the slots 1 .. count. */
  datatype Slot = Slot(host: string, insNum: string, alias: string)
  datatype Table = Table(count: string, slots: seq<Slot>)

  function SlotAt(db: Db, i: nat): Slot {
    Slot(Get(db, Host(i)), Get(db, InsNum(i)), Get(db, HostAlias(i)))
  }

  function Visible(db: Db): Table {
    Table(Get(db, NumHosts), seq(HostCount(db), j requires 0 <= j < HostCount(db) => SlotAt(db, j + 1)))
  }

  // ---------------------------------------------------------------- what the lists name

  lemma EntryNames(db: Db, k: Key, x: Key)
    ensures Names(Entry(db, k), x) <==> x == k && Get(db, k) != ""
    ensures TakenFrom(Entry(db, k), db)
  {
    if Get(db, k) != "" {
      assert Entry(db, k)[0].cmd == k;
    }
  }

  lemma BackupSlotNames(db: Db, i: nat, x: Key)
    requires IsSlotKey(x) || x == NumHosts
    ensures Names(BackupSlot(db, i), x) <==> IsSlotKey(x) && x.i == i && Get(db, x) != ""
    ensures TakenFrom(BackupSlot(db, i), db)
  {
    var mac := Before(Get(db, Host(i)), ',');
    EntryNames(db, Host(i), x);
    EntryNames(db, InsNum(i), x);
    EntryNames(db, HostAlias(i), x);
    EntryNames(db, LanComment(i), x);
    EntryNames(db, CommentFor(mac), x);
    var a := Entry(db, Host(i)) + Entry(db, InsNum(i));
    NamesConcat(Entry(db, Host(i)), Entry(db, InsNum(i)), x);
    NamesConcat(a, Entry(db, HostAlias(i)), x);
    NamesConcat(a + Entry(db, HostAlias(i)), Entry(db, LanComment(i)), x);
    NamesConcat(a + Entry(db, HostAlias(i)) + Entry(db, LanComment(i)), CommentEntry(db, mac), x);
  }

  lemma {:induction false} BackupSlotsNames(db: Db, n: nat, x: Key)
    requires IsSlotKey(x) || x == NumHosts
    ensures Names(BackupSlots(db, n), x) <==> IsSlotKey(x) && 1 <= x.i <= n && Get(db, x) != ""
    ensures TakenFrom(BackupSlots(db, n), db)
  {
    if n > 0 {
      BackupSlotsNames(db, n - 1, x);
      BackupSlotNames(db, n, x);
      NamesConcat(BackupSlots(db, n - 1), BackupSlot(db, n), x);
    }
  }

  /** The backup holds the present values of exactly the table keys that have one. */
  lemma BackupNames(db: Db, x: Key)
    requires IsSlotKey(x) || x == NumHosts
    ensures Names(Backup(db), x) <==>
      Get(db, x) != "" && (x == NumHosts || 1 <= x.i <= HostCount(db))
    ensures TakenFrom(Backup(db), db)
  {
    var n := HostCount(db);
    EntryNames(db, NumHosts, x);
    EntryNames(db, CommentCount, x);
    BackupSlotsNames(db, n, x);
    NamesConcat(Entry(db, NumHosts), BackupSlots(db, n), x);
    NamesConcat(Entry(db, NumHosts) + BackupSlots(db, n), Entry(db, CommentCount), x);
  }

  lemma {:induction false} CacheSlotsGet(db: Db, doc: seq<Client>, x: Key)
    requires IsSlotKey(x) || x == NumHosts
    ensures Get(SetAll(db, CacheSlots(doc)), x) ==
      if IsSlotKey(x) && 1 <= x.i <= |doc| then SlotText(doc[x.i - 1], x) else Get(db, x)
  {
    hide SlotText, CacheSlot;
    if doc != [] {
      var n := |doc| - 1;
      CacheSlotsGet(db, doc[..n], x);
      SetSlotGet(db, CacheSlots(doc[..n]), doc[n], |doc|, x);
    }
  }

  function SlotText(c: Client, x: Key): string
    requires IsSlotKey(x)
  {
    match x
    case Host(_) => HostText(c)
    case InsNum(i) => Dec(i)
    case HostAlias(i) => "StaticAddress" + Dec(i)
  }

  lemma SetSlotGet(db: Db, ps: seq<Param>, c: Client, i: nat, x: Key)
    requires IsSlotKey(x) || x == NumHosts
    ensures Get(SetAll(db, ps + CacheSlot(c, i)), x) ==
      if IsSlotKey(x) && x.i == i then SlotText(c, x) else Get(SetAll(db, ps), x)
  {
    var s := CacheSlot(c, i);
    SetAllSnoc(db, ps, s[0]);
    SetAllSnoc(db, ps + [s[0]], s[1]);
    SetAllSnoc(db, ps + [s[0]] + [s[1]], s[2]);
    assert ps + s == ps + [s[0]] + [s[1]] + [s[2]];
  }

  lemma SetAllSnoc(db: Db, ps: seq<Param>, p: Param)
    ensures SetAll(db, ps + [p]) == SetAll(db, ps)[p.cmd := p.val]
  {
    assert (ps + [p])[..|ps|] == ps;
  }

  lemma {:induction false} CleanupGet(db: Db, received: nat, kept: nat, x: Key)
    ensures Get(Cleanup(db, received, kept), x) ==
      if IsSlotKey(x) && kept < x.i <= received then "" else Get(db, x)
    decreases received
  {
    if received > kept {
      CleanupGet(db, received - 1, kept, x);
    }
  }
}
