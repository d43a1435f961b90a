/** What the operations on bridges and a reboot leave behind, said of the configuration and of
    the table that were there: fields, allocated id and name, record texts, counters. */
module BridgeOutcomes {
  import opened Text
  import opened Decimal
  import opened BridgeData
  import opened BridgeSteps
  import opened BridgeInvariant
  import opened BridgeIds
  import opened BridgeState
  import opened BridgeReload
  import opened BridgeRuns
  import opened PortOutcomes
  import opened Wrappers

  // ---------------------------------------------------------------- the addressed bridge

  /** Bridge i is the first one with its number. */
  predicate Addressed(s: State, br: nat, i: nat) {
    i < |s.bridges| && s.bridges[i].inst == br && forall j :: 0 <= j < i ==> s.bridges[j].inst != br
  }

  /** Bridge i and the records became these, and nothing else changed. */
  predicate Becomes(t: State, s: State, i: nat, b: BridgeRec, psm: Psm) {
    |t.bridges| == |s.bridges| && i < |s.bridges| && t.bridges[i] == b && t.psm == psm &&
    (forall j :: 0 <= j < |s.bridges| && j != i ==> t.bridges[j] == s.bridges[j]) &&
    t == s.(bridges := t.bridges, psm := psm)
  }

  /** Each operation on a bridge or a port steps the bridge with the number that it is given. */
  lemma AddressedBridgeSteps(s: State, br: nat, i: nat, op: Op)
    requires Addressed(s, br, i)
    ensures var b := s.bridges[i];
      match op
      case AddPortTo(n, cfg) =>
        n == br ==> Becomes(Apply(s, op), s, i, AddPort(b, s.psm, cfg).0, AddPort(b, s.psm, cfg).1)
      case DelPortFrom(n, port) =>
        n == br ==> Becomes(Apply(s, op), s, i, DelPort(b, s.psm, port).0, DelPort(b, s.psm, port).1)
      case ConfigurePort(n, cfg) =>
        n == br ==> Becomes(Apply(s, op), s, i, SetPort(b, s.psm, cfg).0, SetPort(b, s.psm, cfg).1)
      case ConfigureBridge(cfg) =>
        cfg.inst == br ==> Becomes(Apply(s, op), s, i, SetBridge(b, s.psm, cfg).0, SetBridge(b, s.psm, cfg).1)
      case ChangeVid(n, vid) =>
        n == br ==> Becomes(Apply(s, op), s, i, SetVid(b, s.psm, vid).0, SetVid(b, s.psm, vid).1)
      case AddBridge(cfg) => Apply(s, op) == AddEntry(s, cfg).0
      case DelBridge(n) => Apply(s, op) == DelEntry(s, n).0
      case Reboot(found) => Apply(s, op) == Rebooted(s, found)
  {
    hide AddPort, DelPort, SetPort, SetBridge, SetVid;
    FirstBridge(s, i);
  }

  lemma FirstBridge(s: State, i: nat)
    requires i < |s.bridges| && Addressed(s, s.bridges[i].inst, i)
    ensures FindBridge(s.bridges, s.bridges[i].inst) == i
  {
  }

  /** No operation on a bridge that is not there changes anything. */
  lemma UnknownBridgeSteps(s: State, br: nat, cfg: PortCfg, port: nat, brCfg: BridgeCfg, vid: int)
    requires brCfg.inst == br && forall b :: b in s.bridges ==> b.inst != br
    ensures Apply(s, AddPortTo(br, cfg)) == Apply(s, DelPortFrom(br, port)) == s
    ensures Apply(s, ConfigurePort(br, cfg)) == Apply(s, ConfigureBridge(brCfg)) == Apply(s, ChangeVid(br, vid)) == s
  {
  }

  /** A port is reconfigured through the table: the port that is addressed is as configured, its
      records say so and read back, and every other port and bridge is as before. */
  lemma ConfiguredThroughTable(s: State, br: nat, cfg: PortCfg, i: nat, j: nat)
    requires Addressed(s, br, i) && j < |s.bridges[i].ports| && s.bridges[i].ports[j].inst == cfg.inst
    requires forall k :: 0 <= k < j ==> s.bridges[i].ports[k].inst != cfg.inst
    ensures var t, b := Apply(s, ConfigurePort(br, cfg)), s.bridges[i];
      |t.bridges| == |s.bridges| && (forall k :: 0 <= k < |s.bridges| && k != i ==> t.bridges[k] == s.bridges[k]) &&
      var b' := t.bridges[i];
      |b'.ports| == |b.ports| && (forall k :: 0 <= k < |b.ports| && k != j ==> b'.ports[k] == b.ports[k]) &&
      var q := b'.ports[j];
      q.inst == cfg.inst && q.alias == cfg.alias && q.linkName == cfg.linkName && q.linkType == cfg.linkType &&
      q.mgt == cfg.mgt && q.priTag == cfg.priTag && q.mode == cfg.mode && q.enabled == cfg.enabled &&
      q.upstream == cfg.upstream && q.allowDelete == cfg.allowDelete && q.pvid == b.vid &&
      q.name == (if cfg.mgt then b.name else cfg.linkName) &&
      OnRecord(t.psm, b.l2, q) && Returned(ReadPort(t.psm, b.l2, cfg.inst), q) &&
      OthersStay(s.psm, t.psm, b.l2, cfg.inst)
  {
    hide Apply, SetPort, OnRecord, Returned, OthersStay, ReadPort;
    AddressedBridgeSteps(s, br, i, ConfigurePort(br, cfg));
    PortIsReconfigured(s.bridges[i], s.psm, cfg, j);
  }

  // ---------------------------------------------------------------- the bridge's own records

  predicate OwnOnRecord(psm: Psm, b: BridgeRec) {
    Says(Get(psm, BridgeKey(b.l2, AllowDelete)), b.allowDelete) &&
    Says(Get(psm, BridgeKey(b.l2, Enable)), b.enabled) &&
    Says(Get(psm, BridgeKey(b.l2, PriorityTag)), b.priTag) &&
    Get(psm, BridgeKey(b.l2, Alias)) == b.alias && Get(psm, BridgeKey(b.l2, Name)) == b.name &&
    Get(psm, BridgeKey(b.l2, Type)) == b.typ && Get(psm, BridgeKey(b.l2, InstanceNum)) == Dec(b.inst) &&
    Get(psm, BridgeKey(b.l2, Vid)) == (if b.vid < 0 then "-" + Dec(-b.vid) else Dec(b.vid)) &&
    Get(psm, BridgeKey(b.l2, StandardName)) == match b.standard {
      case Q2005 => "BRG_STD_8021Q_2005"
      case D2004 => "BRG_STD_8021D_2004"
      case OtherStandard => "UNKNOWN"
    }
  }

  /** The bridge has been saved: its own records say what it is, the lists and the link are blank
      if it has no ports and as before otherwise, and nothing else has changed. */
  ghost predicate IsSaved(psm: Psm, psm': Psm, b: BridgeRec) {
    OwnOnRecord(psm', b) &&
    (forall m :: Get(psm', BridgeKey(b.l2, MemberList(m)))
       == if b.numPorts == 0 then " " else Get(psm, BridgeKey(b.l2, MemberList(m)))) &&
    Get(psm', BridgeKey(b.l2, Link)) == (if b.numPorts == 0 then " " else Get(psm, BridgeKey(b.l2, Link))) &&
    (forall k: Key :: !(k.BridgeKey? && k.l2 == b.l2) ==>
       (k in psm' <==> k in psm) && (k in psm ==> psm'[k] == psm[k]))
  }

  lemma SaveIsSaved(psm: Psm, b: BridgeRec)
    ensures IsSaved(psm, SaveBridge(psm, b), b)
  {
    hide SaveBridge, BridgeSaved, OwnOnRecord;
    var psm' := SaveBridge(psm, b);
    SaveBridgeEffect(psm, b);
    SavedIsOwn(psm', b);
    forall m ensures IsListField(MemberList(m)) {}
    assert IsListField(Link);
    forall f: BridgeField | IsListField(f)
      ensures Get(psm', BridgeKey(b.l2, f)) == if b.numPorts == 0 then " " else Get(psm, BridgeKey(b.l2, f))
    {
      assert b.numPorts != 0 ==> SameRecord(psm, psm', BridgeKey(b.l2, f));
    }
    forall k: Key | !(k.BridgeKey? && k.l2 == b.l2)
      ensures (k in psm' <==> k in psm) && (k in psm ==> psm'[k] == psm[k])
    {
      assert SameRecord(psm, psm', k);
    }
  }

  lemma SavedIsOwn(psm: Psm, b: BridgeRec)
    requires BridgeSaved(psm, b, Exact)
    ensures OwnOnRecord(psm, b)
  {
    forall f: BridgeField | !IsListField(f) ensures Get(psm, BridgeKey(b.l2, f)) == BridgeText(b, f) {
      SavedBridgeText(psm, b, f, Exact);
    }
  }

  /** A bridge is given its standard, alias and enable flag, and a new VLAN id is taken unchecked. */
  lemma BridgeIsConfigured(b: BridgeRec, psm: Psm, cfg: BridgeCfg, vid: int)
    ensures var (b', psm') := SetBridge(b, psm, cfg);
      b'.standard == cfg.standard && b'.alias == cfg.alias && b'.enabled == cfg.enabled &&
      b' == b.(standard := b'.standard, alias := b'.alias, enabled := b'.enabled) && IsSaved(psm, psm', b')
    ensures var (b', psm') := SetVid(b, psm, vid);
      b'.vid == vid && b' == b.(vid := b'.vid) && if vid == b.vid then psm' == psm else IsSaved(psm, psm', b')
  {
    hide IsSaved;
    SaveIsSaved(psm, SetBridge(b, psm, cfg).0);
    SaveIsSaved(psm, b.(vid := vid));
  }

  // ---------------------------------------------------------------- new bridges

  predicate VidInUse(bridges: seq<BridgeRec>, vid: int) {
    exists j :: 0 <= j < |bridges| && bridges[j].vid == vid
  }

  /** Every id from the start of the search to v, around the end of the range, is in use. */
  predicate FirstFreeVid(bridges: seq<BridgeRec>, nxtVid: int, low: int, high: int, v: int) {
    var start := if nxtVid < high then nxtVid else low;
    low <= v < high && !VidInUse(bridges, v) &&
    forall u :: low <= u < high && (if v >= start then start <= u < v else start <= u || u < v) ==> VidInUse(bridges, u)
  }

  predicate Inside(hay: string, needle: string) {
    exists i, k :: 0 <= i <= k <= |hay| && hay[i..k] == needle
  }

  /** The name with this number is inside the name of some bridge. */
  predicate NameInUse(bridges: seq<BridgeRec>, prefix: string, n: nat) {
    exists j :: 0 <= j < |bridges| && Inside(bridges[j].name, prefix + Dec(n))
  }

  lemma VidsInUse(bridges: seq<BridgeRec>, vid: int)
    ensures VidInUse(bridges, vid) <==> vid in Vids(bridges)
  {
    if VidInUse(bridges, vid) {
      var j :| 0 <= j < |bridges| && bridges[j].vid == vid;
      assert Vids(bridges)[j] == vid;
    }
  }

  lemma FoundVid(bridges: seq<BridgeRec>, nxtVid: int, low: int, high: int)
    requires low < high && low <= nxtVid <= high
    ensures match NextVid(Vids(bridges), nxtVid, low, high)
      case None => forall u :: low <= u < high ==> VidInUse(bridges, u)
      case Some(v) => FirstFreeVid(bridges, nxtVid, low, high, v)
  {
    hide Vids;
    NextVidIsFirstFree(Vids(bridges), nxtVid, low, high);
    forall u ensures VidInUse(bridges, u) <==> u in Vids(bridges) {
      VidsInUse(bridges, u);
    }
  }

  lemma ContainsIs(hay: string, needle: string)
    ensures Contains(hay, needle) <==> Inside(hay, needle)
  {
    if Contains(hay, needle) {
      var i :| 0 <= i <= |hay| && OccursAt(hay, needle, i);
      assert hay[i..i + |needle|] == needle;
    }
    if Inside(hay, needle) {
      var i, k :| 0 <= i <= k <= |hay| && hay[i..k] == needle;
      assert OccursAt(hay, needle, i);
    }
  }

  lemma BlockedIs(bridges: seq<BridgeRec>, prefix: string, n: nat)
    ensures Blocked(Names(bridges), BridgeName(prefix, n)) <==> NameInUse(bridges, prefix, n)
  {
    forall j | 0 <= j < |bridges|
      ensures Contains(Names(bridges)[j], BridgeName(prefix, n)) <==> Inside(bridges[j].name, prefix + Dec(n))
    {
      ContainsIs(bridges[j].name, prefix + Dec(n));
    }
  }

  lemma {:induction false} SearchIsFirstName(names: seq<string>, prefix: string, id: nat, tries: nat)
    ensures match SearchName(names, prefix, id, tries)
      case None => forall n :: id <= n < id + tries ==> Blocked(names, BridgeName(prefix, n))
      case Some(r) =>
        id <= r < id + tries && !Blocked(names, BridgeName(prefix, r)) &&
        forall n :: id <= n < r ==> Blocked(names, BridgeName(prefix, n))
    decreases tries
  {
    if tries > 0 && Blocked(names, BridgeName(prefix, id)) {
      SearchIsFirstName(names, prefix, id + 1, tries - 1);
    }
  }

  /** The number that the name search takes: the first free one of as many as there are bridges,
      and one more. */
  lemma FoundName(bridges: seq<BridgeRec>, prefix: string, nxtBrId: nat)
    ensures match NextName(Names(bridges), prefix, nxtBrId)
      case None => forall n :: nxtBrId <= n <= nxtBrId + |bridges| ==> NameInUse(bridges, prefix, n)
      case Some(r) =>
        nxtBrId <= r <= nxtBrId + |bridges| && !NameInUse(bridges, prefix, r) &&
        forall n :: nxtBrId <= n < r ==> NameInUse(bridges, prefix, n)
  {
    hide Names, Blocked, BridgeName, NameInUse;
    SearchIsFirstName(Names(bridges), prefix, nxtBrId, |bridges| + 1);
    assert |Names(bridges)| == |bridges| by { NamesSize(bridges); }
    forall n: nat ensures Blocked(Names(bridges), BridgeName(prefix, n)) <==> NameInUse(bridges, prefix, n) {
      BlockedIs(bridges, prefix, n);
    }
  }

  lemma NamesSize(bridges: seq<BridgeRec>)
    ensures |Names(bridges)| == |bridges|
  {
  }

  /** A new bridge: as configured, with the first free id and the first free name, and saved with
      blank lists. Without a free id nothing changes; without a free name the id is spent. */
  lemma BridgeIsAdded(s: State, cfg: BridgeCfg)
    requires s.low < s.high && s.low <= s.nxtVid <= s.high
    ensures var (t, status) := AddEntry(s, cfg);
      if forall u :: s.low <= u < s.high ==> VidInUse(s.bridges, u) then t == s && status == Failure
      else
        FirstFreeVid(s.bridges, s.nxtVid, s.low, s.high, t.nxtVid - 1) &&
        if forall n :: s.nxtBrId <= n <= s.nxtBrId + |s.bridges| ==> NameInUse(s.bridges, s.prefix, n)
        then t == s.(nxtVid := t.nxtVid) && status == Failure
        else status == Success && IsNewBridge(s, t, cfg)
  {
    hide NextVid, NextName, FirstFreeVid, VidInUse, NameInUse, Vids, Names, SaveBridge, IsNewBridge;
    FoundVid(s.bridges, s.nxtVid, s.low, s.high);
    FoundName(s.bridges, s.prefix, s.nxtBrId);
    var r, n := NextVid(Vids(s.bridges), s.nxtVid, s.low, s.high), NextName(Names(s.bridges), s.prefix, s.nxtBrId);
    if r.Some? {
      assert FirstFreeVid(s.bridges, s.nxtVid, s.low, s.high, r.value);
      FreeIsNotUsed(s, r.value);
      if n.Some? {
        NewIsNewBridge(s, cfg, r.value, n.value);
      }
    }
  }

  lemma FreeIsNotUsed(s: State, v: int)
    requires FirstFreeVid(s.bridges, s.nxtVid, s.low, s.high, v)
    ensures s.low <= v < s.high && !VidInUse(s.bridges, v)
  {
  }

  ghost predicate IsNewBridge(s: State, t: State, cfg: BridgeCfg) {
    |t.bridges| == |s.bridges| + 1 && (forall j :: 0 <= j < |s.bridges| ==> t.bridges[j] == s.bridges[j]) &&
    t == s.(bridges := t.bridges, psm := t.psm, nxtVid := t.nxtVid, nxtBrId := t.nxtBrId) &&
    s.nxtBrId <= t.nxtBrId - 1 <= s.nxtBrId + |s.bridges| && !NameInUse(s.bridges, s.prefix, t.nxtBrId - 1) &&
    (forall n :: s.nxtBrId <= n < t.nxtBrId - 1 ==> NameInUse(s.bridges, s.prefix, n)) &&
    var b := t.bridges[|s.bridges|];
    b.inst == cfg.inst && b.l2 == cfg.inst && b.alias == cfg.alias && b.enabled == cfg.enabled &&
    b.allowDelete == cfg.allowDelete && b.standard == cfg.standard && b.name == s.prefix + Dec(t.nxtBrId - 1) &&
    b.vid == t.nxtVid - 1 && b.typ == "Bridge" && !b.priTag && b.upstream && b.numPorts == 0 && b.ports == [] &&
    IsSaved(s.psm, t.psm, b)
  }

  lemma NewIsNewBridge(s: State, cfg: BridgeCfg, vid: int, n: nat)
    requires NextVid(Vids(s.bridges), s.nxtVid, s.low, s.high) == Some(vid)
    requires NextName(Names(s.bridges), s.prefix, s.nxtBrId) == Some(n)
    ensures IsNewBridge(s, AddEntry(s, cfg).0, cfg)
  {
    hide NextVid, NextName, NameInUse, Vids, Names, SaveBridge, IsSaved;
    FoundName(s.bridges, s.prefix, s.nxtBrId);
    SaveIsSaved(s.psm, NewBridge(cfg, vid, s.prefix + Dec(n)));
  }

  /** Over numbered names the name is the prefix and the counter. */
  lemma NewNameIsCounter(s: State, cfg: BridgeCfg)
    requires Numbered(Names(s.bridges), s.prefix, s.nxtBrId) && AddEntry(s, cfg).1 == Success
    ensures AddEntry(s, cfg).0.bridges[|s.bridges|].name == s.prefix + Dec(s.nxtBrId)
    ensures AddEntry(s, cfg).0.nxtBrId == s.nxtBrId + 1
  {
    hide NextVid, Vids, Names, SaveBridge;
    FirstNameIsFree(Names(s.bridges), s.prefix, s.nxtBrId);
  }

  // ---------------------------------------------------------------- deleted bridges

  /** Only an empty bridge with allow-delete goes, and with it the records of its template. */
  lemma BridgeIsDeleted(s: State, i: nat)
    requires i < |s.bridges| && Addressed(s, s.bridges[i].inst, i)
    ensures var b, (t, status) := s.bridges[i], DelEntry(s, s.bridges[i].inst);
      if !b.allowDelete then t == s && status == NotSupported
      else if b.numPorts != 0 then t == s && status == Success
      else
        status == Success && t == s.(bridges := s.bridges[..i] + s.bridges[i + 1..], psm := t.psm) &&
        (forall k: Key :: k in t.psm <==> k in s.psm && !(k.BridgeKey? && k.l2 == b.l2)) &&
        (forall k: Key :: k in t.psm ==> t.psm[k] == s.psm[k])
  {
    FirstBridge(s, i);
    assert DropAt(s.bridges, i) == s.bridges[..i] + s.bridges[i + 1..];
    EraseBridgeEffect(s.psm, s.bridges[i].l2);
  }

  lemma NoSuchBridge(s: State, inst: nat)
    requires forall b :: b in s.bridges ==> b.inst != inst
    ensures DelEntry(s, inst) == (s, CantFind)
  {
  }

  // ---------------------------------------------------------------- reboot

  /** What a reload makes of the records of a bridge, whatever they say. */
  lemma BridgeFromRecords(psm: Psm, l2: nat, insts: seq<nat>)
    ensures var r, n := LoadBridge(psm, l2, insts), Atoi(Get(psm, BridgeKey(l2, InstanceNum)));
      r.inst == (if n > 0 then n else 0) && r.l2 == l2 &&
      r.alias == Get(psm, BridgeKey(l2, Alias)) && r.name == Get(psm, BridgeKey(l2, Name)) &&
      r.typ == Get(psm, BridgeKey(l2, Type)) && r.vid == Atoi(Get(psm, BridgeKey(l2, Vid))) &&
      r.standard == (if Get(psm, BridgeKey(l2, StandardName)) == "BRG_STD_8021Q_2005" then Q2005 else D2004) &&
      (r.enabled <==> ReadsTrue(Get(psm, BridgeKey(l2, Enable)))) &&
      (r.priTag <==> ReadsTrue(Get(psm, BridgeKey(l2, PriorityTag)))) &&
      (r.allowDelete <==> ReadsTrue(Get(psm, BridgeKey(l2, AllowDelete)))) &&
      |r.ports| == |insts| && r.numPorts == |insts| &&
      (forall j :: 0 <= j < |insts| ==> r.ports[j] == ReadPort(psm, l2, insts[j])) &&
      (r.upstream <==> forall j :: 0 <= j < |insts| ==> r.ports[j].upstream)
  {
    hide ReadPort;
    ReadBoolIs(Get(psm, BridgeKey(l2, Enable)));
    ReadBoolIs(Get(psm, BridgeKey(l2, PriorityTag)));
    ReadBoolIs(Get(psm, BridgeKey(l2, AllowDelete)));
  }

  /** A reboot reads the listed bridges in their order; the two counters are behind every id and
      every number that was read, and no further than that. */
  lemma RebootReads(s: State, found: Listing)
    requires s.low < s.high && forall i :: 0 <= i < |found| ==> found[i].0 != 0
    ensures var t := Rebooted(s, found);
      t == s.(bridges := t.bridges, nxtVid := t.nxtVid, nxtBrId := t.nxtBrId) && |t.bridges| == |found| &&
      (forall i :: 0 <= i < |found| ==> t.bridges[i] == LoadBridge(s.psm, found[i].0, found[i].1)) &&
      (forall i :: 0 <= i < |found| && s.low <= t.bridges[i].vid < s.high ==> t.bridges[i].vid < t.nxtVid) &&
      (t.nxtVid == s.low || exists i :: 0 <= i < |found| && s.low <= t.bridges[i].vid == t.nxtVid - 1 < s.high) &&
      t.nxtBrId >= 64 &&
      (forall i, n: nat :: 0 <= i < |found| && t.bridges[i].name == s.prefix + Dec(n) ==> n < t.nxtBrId)
  {
    hide LoadBridge, LoadedVid, LoadedBrId, Rebooted, Dec;
    var loads, t := LoadBridges(s.psm, found), Rebooted(s, found);
    RebootFields(s, found);
    VidCounter(Vids(loads), s.low, s.high);
    NameCounter(Names(loads), s.prefix, 64);
    forall i | 0 <= i < |found| ensures Vids(loads)[i] == t.bridges[i].vid && Names(loads)[i] == t.bridges[i].name {}
    if t.nxtVid != s.low {
      var i :| 0 <= i < |found| && s.low <= Vids(loads)[i] == t.nxtVid - 1 < s.high;
      assert s.low <= t.bridges[i].vid == t.nxtVid - 1 < s.high;
    }
  }

  lemma RebootFields(s: State, found: Listing)
    requires forall i :: 0 <= i < |found| ==> found[i].0 != 0
    ensures var loads := LoadBridges(s.psm, found);
      Rebooted(s, found) == s.(bridges := loads, nxtVid := LoadedVid(Vids(loads), s.low, s.high),
                               nxtBrId := LoadedBrId(Names(loads), s.prefix, 64))
  {
    hide LoadBridge, LoadedVid, LoadedBrId;
    var empty := EmptyTable(s.psm, s.low, s.high, s.prefix);
    LoadTableIsBoot(empty, found);
    BootFields(empty, LoadBridges(s.psm, found));
  }

  lemma {:induction false} VidCounter(vids: seq<int>, low: int, high: int)
    requires low < high
    ensures forall i :: 0 <= i < |vids| && low <= vids[i] < high ==> vids[i] < LoadedVid(vids, low, high)
    ensures LoadedVid(vids, low, high) == low ||
      exists i :: 0 <= i < |vids| && low <= vids[i] == LoadedVid(vids, low, high) - 1 < high
    ensures LoadedVid(vids, low, high) >= low
    decreases |vids|
  {
    if vids != [] {
      var n := |vids| - 1;
      VidCounter(vids[..n], low, high);
      if LoadedVid(vids, low, high) == LoadedVid(vids[..n], low, high) && LoadedVid(vids, low, high) != low {
        var i :| 0 <= i < n && low <= vids[..n][i] == LoadedVid(vids[..n], low, high) - 1 < high;
        assert vids[i] == vids[..n][i];
      }
    }
  }

  lemma {:induction false} NameCounter(names: seq<string>, prefix: string, first: nat)
    ensures LoadedBrId(names, prefix, first) >= first
    ensures forall i, n: nat :: 0 <= i < |names| && names[i] == prefix + Dec(n) ==> n < LoadedBrId(names, prefix, first)
    decreases |names|
  {
    if names != [] {
      var k := |names| - 1;
      NameCounter(names[..k], prefix, first);
      forall i, n: nat | 0 <= i < |names| && names[i] == prefix + Dec(n)
        ensures n < LoadedBrId(names, prefix, first)
      {
        if i < k {
          assert names[..k][i] == prefix + Dec(n);
        } else {
          ParsedNumber(prefix, n);
        }
      }
    }
  }

  /** Over names that the allocator made the counter is one behind the largest number. */
  lemma {:induction false} NameCounterIsTight(names: seq<string>, prefix: string, first: nat)
    returns (last: nat, n: nat)
    requires forall i :: 0 <= i < |names| ==> Made(names[i], prefix)
    ensures LoadedBrId(names, prefix, first) == first ||
      (last < |names| && names[last] == prefix + Dec(n) && LoadedBrId(names, prefix, first) == n + 1)
    decreases |names|
  {
    last, n := 0, 0;
    if names != [] {
      var k := |names| - 1;
      last, n := NameCounterIsTight(names[..k], prefix, first);
      if LoadedBrId(names, prefix, first) != LoadedBrId(names[..k], prefix, first) {
        var id: nat :| names[k] == BridgeName(prefix, id);
        ParsedNumber(prefix, id);
        last, n := k, id;
      }
    }
  }

  lemma ParsedNumber(prefix: string, n: nat)
    ensures ParseId(prefix, prefix + Dec(n)) == Some(n)
  {
    var name := prefix + Dec(n);
    assert name[|prefix|..] == Dec(n) == Dec(n) + "";
    assert name[|prefix|] == Dec(n)[0];
    ScanDec(n, "");
  }

  /** The name counter after a reboot over names that the allocator made. */
  lemma RebootCountsNames(s: State, found: Listing) returns (last: nat, n: nat)
    requires forall i :: 0 <= i < |found| ==> found[i].0 != 0
    requires forall i :: 0 <= i < |found| ==> Made(LoadBridge(s.psm, found[i].0, found[i].1).name, s.prefix)
    ensures var t := Rebooted(s, found);
      t.nxtBrId == 64 ||
      (last < |t.bridges| && t.bridges[last].name == s.prefix + Dec(n) && t.nxtBrId == n + 1)
  {
    hide LoadBridge, LoadedVid, LoadedBrId, Rebooted, Made, Dec;
    var loads := LoadBridges(s.psm, found);
    RebootFields(s, found);
    forall i | 0 <= i < |found| ensures Names(loads)[i] == loads[i].name {}
    last, n := NameCounterIsTight(Names(loads), s.prefix, 64);
  }

  /** A bridge that is listed under the number 0 is not read. */
  lemma {:induction false} ZeroIsSkipped(s: State, a: Listing, insts: seq<nat>, c: Listing)
    ensures LoadTable(s, a + [(0, insts)] + c) == LoadTable(s, a + c)
    decreases |c|
  {
    var f := a + [(0, insts)] + c;
    if c == [] {
      assert f[..|f| - 1] == a && a + c == a;
    } else {
      var n := |c| - 1;
      assert f[..|f| - 1] == a + [(0, insts)] + c[..n];
      assert (a + c)[..|a + c| - 1] == a + c[..n];
      ZeroIsSkipped(s, a, insts, c[..n]);
    }
  }

  /** What a reboot gives back of a bridge: its settings, up to the standard, and its ports, each
      up to its link type and mode. */
  ghost predicate BridgeReturned(r: BridgeRec, b: BridgeRec) {
    r.inst == b.inst && r.l2 == b.l2 && r.alias == b.alias && r.name == b.name && r.typ == b.typ &&
    r.vid == b.vid && r.enabled == b.enabled && r.priTag == b.priTag && r.allowDelete == b.allowDelete &&
    r.standard == (if b.standard == Q2005 then Q2005 else D2004) && r.numPorts == |b.ports| == |r.ports| &&
    (r.upstream <==> forall p :: p in b.ports ==> p.upstream) &&
    (forall p :: p in b.ports ==> IsBack(p, r.ports)) && (forall q :: q in r.ports ==> WasThere(q, b.ports))
  }

  ghost predicate IsBack(p: PortRec, loaded: seq<PortRec>) {
    exists q :: q in loaded && Returned(q, p)
  }

  ghost predicate WasThere(q: PortRec, ports: seq<PortRec>) {
    exists p :: p in ports && Returned(q, p)
  }

  /** After a reboot of a table in agreement with its records each bridge is there again. */
  lemma RebootReturns(s: State, found: Listing, how: Fidelity, i: nat) returns (r: BridgeRec)
    requires TableInv(s, how) && Bootable(s, found) && i < |s.bridges|
    ensures r in Rebooted(s, found).bridges && BridgeReturned(r, s.bridges[i])
  {
    hide Rebooted, Bootable, ReloadsAll, Reloads, BridgeReturned, EachBridge;
    BootKeepsInv(s, found, how);
    r := ReloadedAs(s.bridges, Rebooted(s, found).bridges, i);
    ReloadsReturn(r, s.bridges[i]);
  }

  lemma NormalIsReturned(p: PortRec)
    ensures Returned(Normal(p), p) && Normal(p).upstream == p.upstream
  {
  }

  lemma SourceOf(q: PortRec, ports: seq<PortRec>) returns (p: PortRec)
    requires IsNormalOf(q, ports)
    ensures p in ports && Returned(q, p) && q.upstream == p.upstream
  {
    p :| p in ports && q == Normal(p);
  }

  lemma ReloadsReturn(r: BridgeRec, b: BridgeRec)
    requires Reloads(r, b)
    ensures BridgeReturned(r, b)
  {
    hide Normal, IsBack, WasThere, DistinctPorts, IsNormalOf, AllUpstream;
    forall p | p in b.ports ensures IsBack(p, r.ports) {
      NormalIsBack(p, r.ports);
    }
    forall q | q in r.ports ensures WasThere(q, b.ports) {
      NormalWasThere(q, b.ports);
    }
    UpstreamReturns(r, b);
  }

  lemma NormalIsBack(p: PortRec, loaded: seq<PortRec>)
    requires Normal(p) in loaded
    ensures IsBack(p, loaded)
  {
    NormalIsReturned(p);
  }

  lemma NormalWasThere(q: PortRec, ports: seq<PortRec>)
    requires IsNormalOf(q, ports)
    ensures WasThere(q, ports)
  {
    var p := SourceOf(q, ports);
  }

  lemma UpstreamReturns(r: BridgeRec, b: BridgeRec)
    requires Mirrors(r.ports, b.ports)
    ensures AllUpstream(r.ports) <==> forall p :: p in b.ports ==> p.upstream
  {
    hide DistinctPorts, IsNormalOf, Returned, Normal;
    forall p | p in b.ports && AllUpstream(r.ports) ensures p.upstream {
      NormalIsReturned(p);
      var j :| 0 <= j < |r.ports| && r.ports[j] == Normal(p);
    }
    forall j | 0 <= j < |r.ports| ensures exists p :: p in b.ports && r.ports[j].upstream == p.upstream {
      var p := SourceOf(r.ports[j], b.ports);
    }
  }

  // ---------------------------------------------------------------- the lists over runs

  /** The port is one that the list m should name, under a word like this one. */
  predicate Carries(p: PortRec, m: Members, word: string) {
    p.enabled && p.linkName != "" && !p.mgt && BelongsIn(p.linkName, p.linkType, m) &&
    SameText(word, if p.mode == PassThrough then p.linkName + "-t" else p.linkName)
  }

  /** After any run, reboots included: a list names a word exactly when a port carries it. */
  lemma RunListsThePorts(s: State, ops: seq<Op>, how: Fidelity, i: nat, m: Members, word: string)
    requires TableInv(s, how) && AllFit(s, ops, how) && i < |Run(s, ops).bridges|
    ensures var b := Run(s, ops).bridges[i];
      Hit(TokensIn(Run(s, ops).psm, b.l2, m), word) <==> exists p :: p in b.ports && Carries(p, m, word)
  {
    hide Run, AllFit, TableInv, ListOf, MemberText, Tokens, BelongsIn;
    RunIndexesPorts(s, ops, how, i, m, Lower(word));
    var b, ts := Run(s, ops).bridges[i], TokensIn(Run(s, ops).psm, Run(s, ops).bridges[i].l2, m);
    assert Hit(ts, word) <==> Lower(word) in TokensAt(Run(s, ops).psm, b.l2, m) by { HitIsFolded(ts, word); }
    forall p
      ensures Carries(p, m, word) <==>
        (p.enabled && p.linkName != "" && !p.mgt && ListOf(p.linkName, p.linkType) == Some(m) &&
         Lower(word) == Lower(MemberText(p.linkName, p.mode)))
    {
      CarriesIs(p, m, word);
    }
  }

  lemma HitIsFolded(ts: seq<string>, word: string)
    ensures Hit(ts, word) <==> Lower(word) in Folded(ts)
  {
  }

  lemma CarriesIs(p: PortRec, m: Members, word: string)
    ensures Carries(p, m, word) <==> (p.enabled && p.linkName != "" && !p.mgt &&
      ListOf(p.linkName, p.linkType) == Some(m) && Lower(word) == Lower(MemberText(p.linkName, p.mode)))
  {
    BelongsIs(p.linkName, p.linkType, m);
  }
}
