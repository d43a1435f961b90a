/** The webconfig request handlers: validation, backup, unset, apply and rollback over two
    global parameter caches. The handlers are tied to the sessions of Sessions. */
module WebConfig {
  import opened Decimal
  import opened Inet
  import opened Syscfg
  import opened LanCheck
  import opened Atomicity
  import L = LanAtomicity
  import opened Validation
  import opened Sessions

  /** What the parameter-list functions return. */
  datatype Rc = Done | Nothing | Failed

  // ---------------------------------------------------------------- validation

  /** A C string read at an offset: its terminator follows the last character. */
  function CharAt(s: string, i: nat): char {
    if i < |s| then s[i] else '\0'
  }

  lemma MacGroup(mac: string, i: nat)
    requires MacShape(mac) && i < 6
    ensures HexDigit(CharAt(mac, 3 * i)) && HexDigit(CharAt(mac, 3 * i + 1))
    ensures CharAt(mac, 3 * i + 2) == if i == 5 then '\0' else ':'
  {
    assert (3 * i) % 3 == 0 && (3 * i + 1) % 3 == 1 && (3 * i + 2) % 3 == 2;
  }

  /** Six groups, walked with a pointer; the last one must meet the terminator. */
  method CheckMacHasValidCharacter(mac: string) returns (ok: bool)
    requires '\0' !in mac
    ensures ok <==> MacShape(mac)
  {
    var at := 0;
    for i := 0 to 6
      invariant at == 3 * i
      invariant i < 6 ==> at <= |mac|
      invariant i == 6 ==> |mac| == 17
      invariant forall j :: 0 <= j < at && j < 17 ==>
        j < |mac| && if j % 3 == 2 then mac[j] == ':' else HexDigit(mac[j])
    {
      if HexDigit(CharAt(mac, at)) && HexDigit(CharAt(mac, at + 1))
         && CharAt(mac, at + 2) == (if i == 5 then '\0' else ':')
      {
        at := at + 3;
      } else {
        if MacShape(mac) {
          MacGroup(mac, i);
        }
        return false;
      }
    }
    ok := true;
  }

  method ValidateMac(mac: string) returns (ok: bool)
    requires '\0' !in mac
    ensures ok <==> IsMac(mac)
  {
    if mac == "00:00:00:00:00:00" || |mac| != 17 {
      return false;
    }
    ok := CheckMacHasValidCharacter(mac);
  }

  // ---------------------------------------------------------------- the handlers

  /** A cleared cache entry. */
  const NO_PARAM := Param(Other(""), "")

  class RequestHandler {
    var db: Db
    /** syscfg calls so far, and the number of the one that fails, if any. */
    var calls: nat
    const faulty: int
    /** Whether the data model that a request must notify is there. */
    const modelPresent: bool
    const bkup: array<Param>
    const temp: array<Param>
    var numBkup: nat
    var numReceived: nat

    constructor (db0: Db, faulty0: int, present: bool, size: nat)
      ensures db == db0 && calls == 0 && faulty == faulty0 && modelPresent == present
      ensures numBkup == 0 && numReceived == 0
      ensures bkup.Length == temp.Length == size && bkup != temp && fresh(bkup) && fresh(temp)
    {
      db, calls, faulty, modelPresent := db0, 0, faulty0, present;
      bkup := new Param[size](_ => NO_PARAM);
      temp := new Param[size](_ => NO_PARAM);
      numBkup, numReceived := 0, 0;
    }

    method SyscfgUnset(k: Key) returns (ok: bool)
      modifies `db, `calls
      ensures ok <==> old(calls) != faulty
      ensures calls == old(calls) + 1
      ensures db == if ok then old(db) - {k} else old(db)
    {
      ok := calls != faulty;
      calls := calls + 1;
      if ok {
        db := db - {k};
      }
    }

    method SyscfgSet(k: Key, v: string) returns (ok: bool)
      modifies `db, `calls
      ensures ok <==> old(calls) != faulty
      ensures calls == old(calls) + 1
      ensures db == if ok then old(db)[k := v] else old(db)
    {
      ok := calls != faulty;
      calls := calls + 1;
      if ok {
        db := db[k := v];
      }
    }

    method SyscfgCommit() returns (ok: bool)
      modifies `calls
      ensures ok <==> old(calls) != faulty
      ensures calls == old(calls) + 1
    {
      ok := calls != faulty;
      calls := calls + 1;
    }

    /** Dhcpv4_UnsetAllDbValues: the keys before the failure are gone, the others are not. */
    method UnsetAllDbValues(cache: array<Param>, n: nat) returns (rc: Rc, ghost done: nat)
      requires n <= cache.Length
      modifies `db, `calls
      ensures done <= n && db == UnsetAll(old(db), cache[..done])
      ensures rc == Nothing <==> n == 0
      ensures rc == Failed <==> old(calls) <= faulty < old(calls) + Writes(n)
      ensures done == if rc == Failed then faulty - old(calls) else n
      ensures calls == if rc == Failed then faulty + 1 else old(calls) + Writes(n)
    {
      done := 0;
      if n == 0 {
        return Nothing, 0;
      }
      for i := 0 to n
        invariant done == i && db == UnsetAll(old(db), cache[..i])
        invariant calls == old(calls) + i && !(old(calls) <= faulty < calls)
      {
        var ok := SyscfgUnset(cache[i].cmd);
        if !ok {
          return Failed, done;
        }
        done := i + 1;
        assert cache[..i + 1][..i] == cache[..i];
      }
      var ok := SyscfgCommit();
      rc := if ok then Done else Failed;
    }

    /** Dhcpv4_Cache_ApplyAllToDb */
    method ApplyAllToDb(cache: array<Param>, n: nat) returns (rc: Rc, ghost done: nat)
      requires n <= cache.Length
      modifies `db, `calls
      ensures done <= n && db == SetAll(old(db), cache[..done])
      ensures rc == Nothing <==> n == 0
      ensures rc == Failed <==> old(calls) <= faulty < old(calls) + Writes(n)
      ensures done == if rc == Failed then faulty - old(calls) else n
      ensures calls == if rc == Failed then faulty + 1 else old(calls) + Writes(n)
    {
      done := 0;
      if n == 0 {
        return Nothing, 0;
      }
      for i := 0 to n
        invariant done == i && db == SetAll(old(db), cache[..i])
        invariant calls == old(calls) + i && !(old(calls) <= faulty < calls)
      {
        var ok := SyscfgSet(cache[i].cmd, cache[i].val);
        if !ok {
          return Failed, done;
        }
        done := i + 1;
        assert cache[..i + 1][..i] == cache[..i];
      }
      var ok := SyscfgCommit();
      rc := if ok then Done else Failed;
    }

    method ResetCache()
      modifies `numBkup, `numReceived, bkup, temp
      ensures numBkup == 0 && numReceived == 0
      ensures (forall i :: 0 <= i < bkup.Length ==> bkup[i] == NO_PARAM)
      ensures (forall i :: 0 <= i < temp.Length ==> temp[i] == NO_PARAM)
    {
      for i := 0 to bkup.Length
        invariant forall k :: 0 <= k < i ==> bkup[k] == NO_PARAM
      {
        bkup[i] := NO_PARAM;
      }
      for i := 0 to temp.Length
        invariant forall k :: 0 <= k < bkup.Length ==> bkup[k] == NO_PARAM
        invariant forall k :: 0 <= k < i ==> temp[k] == NO_PARAM
      {
        temp[i] := NO_PARAM;
      }
      numBkup, numReceived := 0, 0;
    }

    // -------------------------------------------------------------- static clients

    /** One key of a backup: the entry is written in place and kept when it has a value. */
    method BackupKey(cache: array<Param>, n: nat, k: Key, ghost before: seq<Param>) returns (m: nat)
      requires n < cache.Length && cache[..n] == before
      modifies cache
      ensures n <= m <= n + 1
      ensures cache[..m] == before + Entry(db, k)
    {
      cache[n] := Param(k, Get(db, k));
      m := if cache[n].val != "" then n + 1 else n;
    }

    /** The comment key by hardware address, when its name fits into the entry. */
    method BackupComment(cache: array<Param>, n: nat, mac: string, ghost before: seq<Param>) returns (m: nat)
      requires n < cache.Length && cache[..n] == before
      modifies cache
      ensures n <= m <= n + 1
      ensures cache[..m] == before + CommentEntry(db, mac)
    {
      m := n;
      if NameFits(mac) {
        m := BackupKey(cache, n, CommentFor(mac), before);
      } else {
        cache[n] := NO_PARAM;
      }
    }

    method BackupSlotFromDb(cache: array<Param>, n: nat, i: nat, ghost before: seq<Param>) returns (m: nat)
      requires n + 5 < cache.Length && cache[..n] == before
      modifies cache
      ensures n <= m <= n + 5
      ensures cache[..m] == before + BackupSlot(db, i)
    {
      var mac := Before(Get(db, Host(i)), ',');
      ghost var a, b, c := Entry(db, Host(i)), Entry(db, InsNum(i)), Entry(db, HostAlias(i));
      ghost var d, e := Entry(db, LanComment(i)), CommentEntry(db, mac);
      m := BackupKey(cache, n, Host(i), before);
      m := BackupKey(cache, m, InsNum(i), before + a);
      m := BackupKey(cache, m, HostAlias(i), before + a + b);
      m := BackupKey(cache, m, LanComment(i), before + a + b + c);
      m := BackupComment(cache, m, mac, before + a + b + c + d);
      Regroup(before, a, b, c, d, e);
    }

    /** Dhcpv4_StaticClients_BackupFromDb */
    method BackupFromDb(cache: array<Param>) returns (n: nat)
      requires 5 * HostCount(db) + 3 <= cache.Length
      modifies cache
      ensures n <= cache.Length && cache[..n] == Backup(db)
    {
      n := BackupKey(cache, 0, NumHosts, []);
      n := BackupHosts(cache, n);
      n := BackupKey(cache, n, CommentCount, Entry(db, NumHosts) + BackupSlots(db, HostCount(db)));
    }

    method BackupHosts(cache: array<Param>, n: nat) returns (m: nat)
      requires n <= 1 && 5 * HostCount(db) + 3 <= cache.Length && cache[..n] == Entry(db, NumHosts)
      modifies cache
      ensures m <= 5 * HostCount(db) + 1
      ensures cache[..m] == Entry(db, NumHosts) + BackupSlots(db, HostCount(db))
    {
      m := n;
      ghost var head := Entry(db, NumHosts);
      assert head + BackupSlots(db, 0) == head;
      for i := 0 to HostCount(db)
        invariant m <= 5 * i + 1
        invariant cache[..m] == head + BackupSlots(db, i)
      {
        m := BackupSlotFromDb(cache, m, i + 1, head + BackupSlots(db, i));
        NextSlot(db, head, i + 1);
      }
    }

    /** Dhcpv4_StaticClients_UpdateConfToCache */
    method UpdateConfToCache(doc: seq<Client>, cache: array<Param>) returns (n: nat)
      requires 3 * |doc| + 1 <= cache.Length
      modifies cache
      ensures n <= cache.Length && cache[..n] == Cache(doc)
    {
      cache[0] := Param(NumHosts, Dec(|doc|));
      n := 1;
      for i := 0 to |doc|
        invariant n == 3 * i + 1
        invariant cache[..n] == [Param(NumHosts, Dec(|doc|))] + CacheSlots(doc[..i])
      {
        ghost var before := cache[..n];
        cache[n] := Param(Host(i + 1), HostText(doc[i]));
        cache[n + 1] := Param(InsNum(i + 1), Dec(i + 1));
        cache[n + 2] := Param(HostAlias(i + 1), "StaticAddress" + Dec(i + 1));
        n := n + 3;
        assert cache[..n] == before + CacheSlot(doc[i], i + 1);
        assert doc[..i + 1][..i] == doc[..i];
      }
      assert doc[..|doc|] == doc;
    }

    /** Dhcpv4_StaticClients_UnsetNotUsedParamFromDb: it is given parameter counts. */
    method UnsetNotUsedParamFromDb(received: nat, kept: nat)
      requires faulty < calls
      modifies `db, `calls
      ensures faulty < calls && calls >= old(calls)
      ensures db == Cleanup(old(db), received, kept)
    {
      if received <= kept {
        return;
      }
      for i := kept to received
        invariant faulty < calls && calls >= old(calls)
        invariant db == Cleanup(old(db), i, kept)
      {
        var ok := SyscfgUnset(Host(i + 1));
        ok := SyscfgUnset(HostAlias(i + 1));
        ok := SyscfgUnset(InsNum(i + 1));
      }
      var ok := SyscfgCommit();
    }

    method Validate(doc: seq<Client>) returns (v: Verdict)
      requires CStrings(doc)
      ensures v == StaticVerdict(db, doc)
    {
      if doc == [] {
        return EmptyBlob;
      }
      for i := 0 to |doc|
        invariant FirstFault(db, doc) == FirstFault(db, doc[i..])
      {
        v := StaticIpVerdict(db, doc[i].yiaddr);
        if v != Valid {
          return;
        }
        assert doc[i] in doc;
        var ok := ValidateMac(doc[i].chaddr);
        if !ok {
          return InvalidMac;
        }
        assert doc[i..][1..] == doc[i + 1..];
      }
      v := Valid;
    }

    ghost predicate Consistent()
      reads this
    {
      bkup != temp && numBkup <= bkup.Length
    }

    /** The database and what is in the caches. */
    ghost function Now(): Session
      requires numBkup <= bkup.Length
      reads this, bkup
    {
      Session(db, bkup[..numBkup], numReceived)
    }

    ghost predicate Fits(doc: seq<Client>)
      reads this
    {
      CStrings(doc) && 5 * HostCount(db) + 3 <= bkup.Length && 3 * |doc| + 1 <= temp.Length
    }

    method BackupAndUnset() returns (rc: Rc, ghost done: nat)
      requires 5 * HostCount(db) + 3 <= bkup.Length
      modifies `db, `calls, `numBkup, bkup
      ensures numBkup <= bkup.Length && bkup[..numBkup] == Backup(old(db))
      ensures var n := |Backup(old(db))|;
        (rc == Failed <==> old(calls) <= faulty < old(calls) + Writes(n)) &&
        done == (if rc == Failed then faulty - old(calls) else n) &&
        calls == if rc == Failed then faulty + 1 else old(calls) + Writes(n)
      ensures done <= |Backup(old(db))| && db == UnsetAll(old(db), Backup(old(db))[..done])
    {
      hide Backup, HostCount;
      numBkup := BackupFromDb(bkup);
      assert numBkup == |Backup(old(db))|;
      rc, done := UnsetAllDbValues(bkup, numBkup);
      assert bkup[..done] == bkup[..numBkup][..done];
    }

    method ApplyDocument(doc: seq<Client>) returns (rc: Rc, ghost done: nat)
      requires 3 * |doc| + 1 <= temp.Length
      modifies `db, `calls, `numReceived, temp
      ensures numReceived == |Cache(doc)|
      ensures var n := |Cache(doc)|;
        (rc == Failed <==> old(calls) <= faulty < old(calls) + Writes(n)) &&
        done == (if rc == Failed then faulty - old(calls) else n) &&
        calls == if rc == Failed then faulty + 1 else old(calls) + Writes(n)
      ensures done <= |Cache(doc)| && db == SetAll(old(db), Cache(doc)[..done])
    {
      var n := UpdateConfToCache(doc, temp);
      assert n == |temp[..n]|;
      numReceived := n;
      rc, done := ApplyAllToDb(temp, n);
      assert temp[..done] == temp[..n][..done];
    }

    /** The part of the request after its validation: where it stops follows from the number of
        the call that fails. */
    method Replace(doc: seq<Client>) returns (code: Code, ghost at: Progress)
      requires bkup != temp && 5 * HostCount(db) + 3 <= bkup.Length && 3 * |doc| + 1 <= temp.Length
      requires numReceived == 0
      modifies this, bkup, temp
      ensures at == StopsAt(|Backup(old(db))|, if doc == [] then 0 else |Cache(doc)|, faulty - old(calls))
      ensures Reaches(old(db), doc, at) && db == Stopped(old(db), Cache(doc), at)
      ensures Consistent() && bkup[..numBkup] == Backup(old(db)) && numReceived == Received(Cache(doc), at)
      ensures code ==
        if old(calls) <= faulty < old(calls) + Writes(|Backup(old(db))|) + (if doc == [] then 0 else Writes(|Cache(doc)|))
        then SyscfgFailure else if modelPresent then Success else SyncFailed
      ensures calls >= old(calls)
      ensures (code == SyscfgFailure ==> faulty < calls) && (code == SyncFailed ==> !modelPresent)
    {
      assert |Cache(doc)| >= 1;
      hide HostCount, Backup, Cache;
      var rc, done := BackupAndUnset();
      at := Unsetting(done);
      if rc == Failed {
        return SyscfgFailure, at;
      }
      if doc != [] {
        assert Backup(old(db))[..done] == Backup(old(db));
        rc, done := ApplyDocument(doc);
        at := Applying(done);
      }
      code := if rc == Failed then SyscfgFailure else if modelPresent then Success else SyncFailed;
    }

    /** Process_StaticClients_WebConfigRequest. A refused request changes nothing in the
        database; any other leaves it at the point of the unset-then-apply sequence where a call
        fails, or behind it, with the old table in the backup cache. */
    method Process(doc: seq<Client>) returns (code: Code)
      requires Consistent() && Fits(doc)
      modifies this, bkup, temp
      ensures Consistent() && (BridgeMode(old(db)) ==> unchanged(this, bkup, temp))
      ensures code == ValidationFailed <==> Refuses(old(db), Clients(doc))
      ensures HandledClients(old(Now()), doc, Refuses(old(db), Clients(doc)), faulty - old(calls), modelPresent, Now(), code)
      ensures calls >= old(calls)
      ensures (code == SyscfgFailure ==> faulty < calls) && (code == SyncFailed ==> !modelPresent)
    {
      hide StaticVerdict, Stopped, Backup, Cache, HostCount, Reaches, StopsAt;
      ghost var s, fault := Now(), faulty - calls;
      if BridgeMode(db) {
        return ValidationFailed;
      }
      ResetCache();
      var v := Validate(doc);
      if v != Valid && v != EmptyBlob {
        assert bkup[..numBkup] == [];
        return ValidationFailed;
      }
      ghost var at;
      code, at := Replace(doc);
      ReplacedIsHandled(s, doc, fault, modelPresent, Now(), code, at);
    }

    /** rollback_StaticClients, when no further call fails. */
    method Rollback() returns (ok: bool)
      requires faulty < calls && Consistent()
      modifies `db, `calls
      ensures Now() == old(Now()).(db := RolledBack(old(db), old(bkup[..numBkup]), numReceived))
      ensures faulty < calls && calls >= old(calls)
      ensures ok <==> modelPresent
    {
      ghost var b := bkup[..numBkup];
      var rc, done := ApplyAllToDb(bkup, numBkup);
      assert done == numBkup == |b| && db == SetAll(old(db), b);
      UnsetNotUsedParamFromDb(numReceived, numBkup);
      ok := modelPresent;
    }

    /** A request whose caller rolls back after every error. At most one thing goes wrong: one
        syscfg call fails, or the data model is missing. A refusal for bridge mode rolls back
        what the caches of an earlier request say. */
    method Execute(doc: seq<Client>) returns (code: Code)
      requires Consistent() && Fits(doc)
      requires faulty < calls || (modelPresent && !Refuses(db, Clients(doc)))
      modifies this, bkup, temp
      ensures Consistent() && ServedClients(old(Now()), doc, faulty - old(calls), modelPresent, Now(), code)
      ensures calls >= old(calls) && (code == Success || faulty < calls)
    {
      hide StaticVerdict, Refuses, HandledClients, ServedClients, RolledBack, HostCount;
      ghost var s, fault := Now(), faulty - calls;
      code := Process(doc);
      ghost var t := Now();
      if code != Success {
        var ok := Rollback();
      }
      ClientsAreServed(s, doc, fault, modelPresent, t, code, Now());
    }

    // -------------------------------------------------------------- LAN

    method LanBackupFromDb(cache: array<Param>) returns (n: nat)
      requires cache.Length > 6
      modifies cache
      ensures n <= 6 && cache[..n] == L.LanBackup(db)
    {
      n := 0;
      for i := 0 to 6
        invariant n <= i
        invariant cache[..n] == L.Entries(db, L.LAN_KEYS[..i])
      {
        assert L.LAN_KEYS[..i + 1][..i] == L.LAN_KEYS[..i];
        n := BackupKey(cache, n, L.LAN_KEYS[i], cache[..n]);
      }
      assert L.LAN_KEYS[..6] == L.LAN_KEYS;
    }

    method LanUpdateConfToCache(p: L.LanParam, cache: array<Param>) returns (n: nat)
      requires cache.Length >= 6
      modifies cache
      ensures n == 6 && cache[..n] == L.LanCache(p)
    {
      cache[0] := Param(LanIp, p.ip);
      cache[1] := Param(LanMask, p.mask);
      cache[2] := Param(ServerEnabled, if p.enable then "1" else "0");
      cache[3] := Param(StartIp, p.start);
      cache[4] := Param(EndIp, p.end);
      cache[5] := Param(LeaseTime, Dec(p.lease));
      n := 6;
    }

    method LanValidate(doc: LanDoc) returns (v: Verdict)
      ensures v == LanVerdict(doc)
    {
      if doc.count == 0 {
        return EmptyBlob;
      }
      for i := 0 to doc.count
        invariant i > 0 ==> LanParamVerdict(doc.param) == Valid
      {
        v := LanParamVerdict(doc.param);
        if v != Valid {
          return;
        }
      }
      v := Valid;
    }

    method LanBackupAndUnset() returns (rc: Rc, ghost done: nat)
      requires bkup.Length > 6
      modifies `db, `calls, `numBkup, bkup
      ensures numBkup <= bkup.Length && bkup[..numBkup] == L.LanBackup(old(db))
      ensures var n := |L.LanBackup(old(db))|;
        (rc == Failed <==> old(calls) <= faulty < old(calls) + Writes(n)) &&
        done == (if rc == Failed then faulty - old(calls) else n) &&
        calls == if rc == Failed then faulty + 1 else old(calls) + Writes(n)
      ensures done <= |L.LanBackup(old(db))| && db == UnsetAll(old(db), L.LanBackup(old(db))[..done])
    {
      hide L.LanBackup;
      numBkup := LanBackupFromDb(bkup);
      assert numBkup == |L.LanBackup(old(db))|;
      rc, done := UnsetAllDbValues(bkup, numBkup);
      assert bkup[..done] == bkup[..numBkup][..done];
    }

    method LanApply(p: L.LanParam) returns (rc: Rc, ghost done: nat)
      requires temp.Length >= 6
      modifies `db, `calls, `numReceived, temp
      ensures numReceived == 6
      ensures rc == Failed <==> old(calls) <= faulty < old(calls) + Writes(6)
      ensures done == if rc == Failed then faulty - old(calls) else 6
      ensures calls == if rc == Failed then faulty + 1 else old(calls) + Writes(6)
      ensures done <= 6 && db == SetAll(old(db), L.LanCache(p)[..done])
    {
      var n := LanUpdateConfToCache(p, temp);
      numReceived := n;
      rc, done := ApplyAllToDb(temp, n);
      assert temp[..done] == temp[..n][..done];
    }

    /** The part of the LAN request after its validation. */
    method ReplaceLan(p: L.LanParam) returns (code: Code, ghost at: Progress)
      requires bkup != temp && bkup.Length > 6 && temp.Length >= 6 && numReceived == 0
      modifies this, bkup, temp
      ensures at == StopsAt(|L.LanBackup(old(db))|, 6, faulty - old(calls))
      ensures L.LanReaches(old(db), at) && db == L.LanStopped(old(db), p, at)
      ensures Consistent() && bkup[..numBkup] == L.LanBackup(old(db))
      ensures numReceived == if at.Unsetting? then 0 else 6
      ensures code ==
        if old(calls) <= faulty < old(calls) + Writes(|L.LanBackup(old(db))|) + Writes(6)
        then SyscfgFailure else if modelPresent then Success else SyncFailed
      ensures calls >= old(calls)
      ensures (code == SyscfgFailure ==> faulty < calls) && (code == SyncFailed ==> !modelPresent)
    {
      var rc, done := LanBackupAndUnset();
      at := Unsetting(done);
      if rc == Failed {
        return SyscfgFailure, at;
      }
      assert L.LanBackup(old(db))[..done] == L.LanBackup(old(db));
      rc, done := LanApply(p);
      at := Applying(done);
      code := if rc == Failed then SyscfgFailure else if modelPresent then Success else SyncFailed;
    }

    /** Process_Lan_WebConfigRequest. An empty document is refused here. */
    method ProcessLan(doc: LanDoc) returns (code: Code)
      requires Consistent() && bkup.Length > 6 && temp.Length >= 6
      modifies this, bkup, temp
      ensures Consistent() && (BridgeMode(old(db)) ==> unchanged(this, bkup, temp))
      ensures code == ValidationFailed <==> Refuses(old(db), Lan(doc))
      ensures HandledLan(old(Now()), doc, Refuses(old(db), Lan(doc)), faulty - old(calls), modelPresent, Now(), code)
      ensures calls >= old(calls)
      ensures (code == SyscfgFailure ==> faulty < calls) && (code == SyncFailed ==> !modelPresent)
    {
      hide LanVerdict;
      ghost var s, fault := Now(), faulty - calls;
      if BridgeMode(db) {
        return ValidationFailed;
      }
      ResetCache();
      var v := LanValidate(doc);
      if v != Valid {
        assert bkup[..numBkup] == [];
        return ValidationFailed;
      }
      ghost var at;
      code, at := ReplaceLan(doc.param);
      ReplacedLanIsHandled(s, doc, fault, modelPresent, Now(), code, at);
    }

    /** rollback_Lan, when no further call fails. */
    method RollbackLan() returns (ok: bool)
      requires faulty < calls && Consistent()
      modifies `db, `calls
      ensures Now() == old(Now()).(db := SetAll(old(db), old(bkup[..numBkup])))
      ensures faulty < calls && calls >= old(calls)
      ensures ok <==> modelPresent
    {
      var rc, done := ApplyAllToDb(bkup, numBkup);
      ok := modelPresent;
    }

    /** A LAN request whose caller rolls back after every error: either the document is in the
        six keys, or nothing reads differently, provided the six keys were there. A refusal for
        bridge mode rolls back what the caches of an earlier request say. */
    method ExecuteLan(doc: LanDoc) returns (code: Code)
      requires Consistent() && bkup.Length > 6 && temp.Length >= 6
      requires faulty < calls || (modelPresent && !Refuses(db, Lan(doc)))
      modifies this, bkup, temp
      ensures Consistent() && ServedLan(old(Now()), doc, faulty - old(calls), modelPresent, Now(), code)
      ensures calls >= old(calls) && (code == Success || faulty < calls)
    {
      hide LanVerdict, Refuses, HandledLan, ServedLan;
      ghost var s, fault := Now(), faulty - calls;
      code := ProcessLan(doc);
      ghost var t := Now();
      if code != Success {
        var ok := RollbackLan();
      }
      LanIsServed(s, doc, fault, modelPresent, t, code, Now());
    }
  }

  /** Two requests: the first one succeeds, bridge mode is switched on, and the second one, which
      is refused, takes the first one back. */
  method CommitThenRefused(h: RequestHandler, doc: seq<Client>, mode: string, next: seq<Client>)
    returns (first: Code, second: Code)
    requires h.Consistent() && h.Fits(doc) && CStrings(next)
    requires 5 * |doc| + 3 <= h.bkup.Length && 3 * |next| + 1 <= h.temp.Length
    requires h.faulty < h.calls && h.modelPresent && mode != "0"
    requires WellFormed(h.db) && !Refuses(h.db, Clients(doc))
    modifies h, h.bkup, h.temp
    ensures first == Success && second == ValidationFailed
    ensures Visible(h.db) == Visible(old(h.db))
  {
    ghost var s := h.Now();
    ghost var fault := h.faulty - h.calls;
    first := h.Execute(doc);
    SuccessShows(s, doc, fault);
    var ok := h.SyscfgSet(Other("bridge_mode"), mode);
    CommitThenRefuse(s, doc, fault, mode, next, h.faulty - h.calls, true);
    second := h.Execute(next);
  }

  lemma Regroup(p: seq<Param>, a: seq<Param>, b: seq<Param>, c: seq<Param>, d: seq<Param>, e: seq<Param>)
    ensures p + a + b + c + d + e == p + (a + b + c + d + e)
  {
    assert p + a + b + c + d + e == p + (a + b + c + d) + e;
  }

  lemma NextSlot(db: Db, head: seq<Param>, i: nat)
    requires i > 0
    ensures head + BackupSlots(db, i) == head + BackupSlots(db, i - 1) + BackupSlot(db, i)
  {
  }
}
