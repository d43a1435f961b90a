/** The LAN webconfig request as a database transformation: six keys, no cleanup loop. */
module LanAtomicity {
  import opened Decimal
  import opened LanCheck
  import opened Syscfg
  import opened Wrappers

  const LAN_KEYS: seq<Key> := [LanIp, LanMask, ServerEnabled, StartIp, EndIp, LeaseTime]

  /** The document. The mask is converted without a check: for a text that is no dotted quad the
      parameter carries what the library's address conversion gives, which is not part of this
      model. */
  datatype LanParam = LanParam(ip: string, mask: string, unreadable: Address, enable: bool,
                               start: string, end: string, lease: nat)

  function LanText(p: LanParam, k: Key): string {
    match k
    case LanIp => p.ip
    case LanMask => p.mask
    case ServerEnabled => if p.enable then "1" else "0"
    case StartIp => p.start
    case EndIp => p.end
    case LeaseTime => Dec(p.lease)
    case _ => ""
  }

  /** The six keys say what the block says. */
  predicate ShowsLan(db: Db, p: LanParam) {
    Get(db, LanIp) == p.ip && Get(db, LanMask) == p.mask &&
    Get(db, ServerEnabled) == (if p.enable then "1" else "0") &&
    Get(db, StartIp) == p.start && Get(db, EndIp) == p.end && Get(db, LeaseTime) == Dec(p.lease)
  }

  lemma TextsShowLan(db: Db, p: LanParam)
    requires forall k :: k in LAN_KEYS ==> Get(db, k) == LanText(p, k)
    ensures ShowsLan(db, p)
  {
    assert LAN_KEYS[0] == LanIp && LAN_KEYS[1] == LanMask && LAN_KEYS[2] == ServerEnabled;
    assert LAN_KEYS[3] == StartIp && LAN_KEYS[4] == EndIp && LAN_KEYS[5] == LeaseTime;
  }

  function Entries(db: Db, ks: seq<Key>): seq<Param> {
    if ks == [] then [] else Entries(db, ks[..|ks| - 1]) + Entry(db, ks[|ks| - 1])
  }

  /** Dhcpv4_Lan_BackupFromDb */
  function LanBackup(db: Db): seq<Param> {
    Entries(db, LAN_KEYS)
  }

  function TextsOf(p: LanParam, ks: seq<Key>): seq<Param> {
    seq(|ks|, i requires 0 <= i < |ks| => Param(ks[i], LanText(p, ks[i])))
  }

  /** Dhcpv4_Lan_UpdateConfToCache */
  function LanCache(p: LanParam): seq<Param> {
    TextsOf(p, LAN_KEYS)
  }

  predicate LanReaches(db: Db, at: Progress) {
    at.done <= if at.Unsetting? then |LanBackup(db)| else |LAN_KEYS|
  }

  function LanStopped(db: Db, p: LanParam, at: Progress): Db
    requires LanReaches(db, at)
  {
    match at
    case Unsetting(j) => UnsetAll(db, LanBackup(db)[..j])
    case Applying(j) => SetAll(UnsetAll(db, LanBackup(db)), LanCache(p)[..j])
  }

  /** rollback_Lan applies the backup and nothing else. */
  function LanRecovered(db: Db, p: LanParam, at: Progress): Db
    requires LanReaches(db, at)
  {
    SetAll(LanStopped(db, p, at), LanBackup(db))
  }

  /** Every key reads as it did before. */
  ghost predicate SameReads(now: Db, db: Db) {
    forall k :: Get(now, k) == Get(db, k)
  }

  lemma {:induction false} EntriesNames(db: Db, ks: seq<Key>, x: Key)
    ensures Names(Entries(db, ks), x) <==> x in ks && Get(db, x) != ""
    ensures TakenFrom(Entries(db, ks), db)
  {
    if ks != [] {
      var n := |ks| - 1;
      EntriesNames(db, ks[..n], x);
      EntryNames(db, ks[n], x);
      NamesConcat(Entries(db, ks[..n]), Entry(db, ks[n]), x);
      assert ks == ks[..n] + [ks[n]];
    }
  }

  lemma {:induction false} SetTextsGet(db: Db, p: LanParam, ks: seq<Key>, x: Key)
    ensures Get(SetAll(db, TextsOf(p, ks)), x) == if x in ks then LanText(p, x) else Get(db, x)
  {
    if ks != [] {
      var n := |ks| - 1;
      SetTextsGet(db, p, ks[..n], x);
      assert TextsOf(p, ks)[..n] == TextsOf(p, ks[..n]);
      assert ks == ks[..n] + [ks[n]];
    }
  }

  /** What the first `done` of the six writes leave under a key. */
  lemma LanAppliedGet(db: Db, p: LanParam, j: nat, x: Key)
    requires j <= |LAN_KEYS|
    ensures Get(LanStopped(db, p, Applying(j)), x) ==
      if x in LAN_KEYS[..j] then LanText(p, x) else if x in LAN_KEYS then "" else Get(db, x)
  {
    assert LanCache(p)[..j] == TextsOf(p, LAN_KEYS[..j]);
    SetTextsGet(UnsetAll(db, LanBackup(db)), p, LAN_KEYS[..j], x);
    UnsetAllGet(db, LanBackup(db), x);
    EntriesNames(db, LAN_KEYS, x);
  }

  /** One key after the rollback: only a key that was absent can differ. */
  lemma LanRecoveredGet(db: Db, p: LanParam, at: Progress, x: Key)
    requires LanReaches(db, at)
    ensures Get(LanRecovered(db, p, at), x) ==
      if at.Applying? && x in LAN_KEYS[..at.done] && Get(db, x) == "" then LanText(p, x) else Get(db, x)
  {
    EntriesNames(db, LAN_KEYS, x);
    SetAllGet(db, LanStopped(db, p, at), LanBackup(db), x);
    match at {
      case Unsetting(j) =>
        UnsetAllGet(db, LanBackup(db)[..j], x);
      case Applying(j) =>
        LanAppliedGet(db, p, j, x);
    }
  }

  /** Main theorem: one failed request and its rollback are unobservable, in the six keys and
      in every other, exactly when no key written before the failure was absent before. */
  lemma LanAtomicIff(db: Db, p: LanParam, at: Progress)
    requires LanReaches(db, at)
    ensures SameReads(LanRecovered(db, p, at), db) <==>
      at.Unsetting? || forall k :: k in LAN_KEYS[..at.done] ==> Get(db, k) != "" || LanText(p, k) == ""
  {
    forall x: Key ensures Get(LanRecovered(db, p, at), x) ==
      if at.Applying? && x in LAN_KEYS[..at.done] && Get(db, x) == "" then LanText(p, x) else Get(db, x)
    {
      LanRecoveredGet(db, p, at, x);
    }
    if at.Applying? && SameReads(LanRecovered(db, p, at), db) {
      forall k | k in LAN_KEYS[..at.done] ensures Get(db, k) != "" || LanText(p, k) == "" {
        assert Get(LanRecovered(db, p, at), k) == Get(db, k);
      }
    }
  }

  /** All six present is enough for every document and every point of failure, and it is
      necessary as soon as some document with a text for every key may fail. */
  lemma LanAlwaysAtomicIff(db: Db, p: LanParam)
    requires forall k :: k in LAN_KEYS ==> LanText(p, k) != ""
    ensures (forall at :: LanReaches(db, at) ==> SameReads(LanRecovered(db, p, at), db)) <==>
      forall k :: k in LAN_KEYS ==> Get(db, k) != ""
  {
    forall at | LanReaches(db, at)
      ensures SameReads(LanRecovered(db, p, at), db) <==>
        at.Unsetting? || forall k :: k in LAN_KEYS[..at.done] ==> Get(db, k) != "" || LanText(p, k) == ""
    {
      LanAtomicIff(db, p, at);
    }
    assert LanReaches(db, Applying(|LAN_KEYS|));
    assert LAN_KEYS[..|LAN_KEYS|] == LAN_KEYS;
  }

  /** A request that succeeds leaves exactly the document in the six keys. */
  lemma LanCommitted(db: Db, p: LanParam, x: Key)
    ensures Get(LanStopped(db, p, Applying(|LAN_KEYS|)), x) ==
      if x in LAN_KEYS then LanText(p, x) else Get(db, x)
  {
    LanAppliedGet(db, p, |LAN_KEYS|, x);
    assert LAN_KEYS[..|LAN_KEYS|] == LAN_KEYS;
  }

  /** Each key that the list names is given the value that it has. */
  ghost predicate Agrees(b: seq<Param>, now: Db) {
    forall k :: Written(b, k) == None || Written(b, k) == Some(Get(now, k))
  }

  /** A LAN request that is refused for bridge mode does not reset the backup cache, which
      holds the old values of an earlier LAN or static-client request. The rollback applies
      them, unobservably exactly when they are the present ones. */
  lemma RefusedLanIff(now: Db, b: seq<Param>)
    ensures SameReads(SetAll(now, b), now) <==> Agrees(b, now)
  {
    forall k ensures Get(SetAll(now, b), k) == After(b, now, k) {
      SetAllAfter(now, b, k);
    }
    if SameReads(SetAll(now, b), now) {
      forall k ensures Written(b, k) == None || Written(b, k) == Some(Get(now, k)) {
        assert Get(SetAll(now, b), k) == Get(now, k);
      }
    }
  }

  /** A LAN request succeeds, bridge mode is switched on, the next LAN request is refused and
      rolled back: each of the six keys that had a value gets it back. */
  lemma LanRefusalUndoesLastCommit(db: Db, p: LanParam, mode: string)
    requires mode != "0"
    ensures var now := LanStopped(db, p, Applying(|LAN_KEYS|))[Other("bridge_mode") := mode];
      BridgeMode(now) &&
      (forall k :: k in LAN_KEYS ==>
        Get(SetAll(now, LanBackup(db)), k) == if Get(db, k) != "" then Get(db, k) else LanText(p, k)) &&
      (SameReads(SetAll(now, LanBackup(db)), now) <==>
        forall k :: k in LAN_KEYS ==> Get(db, k) == "" || Get(db, k) == LanText(p, k))
  {
    var now := LanStopped(db, p, Applying(|LAN_KEYS|))[Other("bridge_mode") := mode];
    forall k
      ensures Get(SetAll(now, LanBackup(db)), k)
           == if k in LAN_KEYS && Get(db, k) != "" then Get(db, k) else Get(now, k)
    {
      EntriesNames(db, LAN_KEYS, k);
      SetAllGet(db, now, LanBackup(db), k);
    }
    forall k | k in LAN_KEYS ensures Get(now, k) == LanText(p, k) {
      LanCommitted(db, p, k);
    }
  }
}
