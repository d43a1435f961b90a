/** The bridge table as a state machine, reboots included, and what every run of its operations
    keeps. */
module BridgeRuns {
  import opened Text
  import opened BridgeData
  import opened BridgeSteps
  import opened BridgeInvariant
  import opened BridgeIds
  import opened BridgeState
  import opened BridgeReload
  import opened Wrappers

  datatype Op =
    | AddBridge(brCfg: BridgeCfg)
    | DelBridge(inst: nat)
    | ConfigureBridge(brCfg: BridgeCfg)
    | ChangeVid(br: nat, vid: int)
    | AddPortTo(br: nat, cfg: PortCfg)
    | DelPortFrom(br: nat, port: nat)
    | ConfigurePort(br: nat, cfg: PortCfg)
    | Reboot(found: Listing)

  function NewBridge(cfg: BridgeCfg, vid: int, name: string): BridgeRec {
    BridgeRec(cfg.inst, cfg.inst, cfg.alias, name, "Bridge", cfg.standard, vid, cfg.enabled,
              false, cfg.allowDelete, true, 0, [])
  }

  /** CosaDmlBrgAddEntry: the VLAN id first, then the name; a failed name keeps the id spent. */
  function AddEntry(s: State, cfg: BridgeCfg): (State, Status) {
    match NextVid(Vids(s.bridges), s.nxtVid, s.low, s.high)
    case None => (s, Failure)
    case Some(vid) =>
      var s1 := s.(nxtVid := vid + 1);
      match NextName(Names(s.bridges), s.prefix, s.nxtBrId)
      case None => (s1, Failure)
      case Some(id) =>
        var b := NewBridge(cfg, vid, BridgeName(s.prefix, id));
        (s1.(nxtBrId := id + 1, bridges := s.bridges + [b], psm := SaveBridge(s.psm, b)), Success)
  }

  /** CosaDmlBrgDelEntry: a bridge with ports stays, although the call reports success. */
  function DelEntry(s: State, inst: nat): (State, Status) {
    var i := FindBridge(s.bridges, inst);
    if i == |s.bridges| then (s, CantFind)
    else if !s.bridges[i].allowDelete then (s, NotSupported)
    else if s.bridges[i].numPorts != 0 then (s, Success)
    else
      (s.(bridges := DropAt(s.bridges, i), psm := EraseBridge(s.psm, s.bridges[i].l2)), Success)
  }

  /** The step of one bridge, by operation. */
  ghost function OnBridge(b: BridgeRec, psm: Psm, op: Op): (BridgeRec, Psm) {
    match op
    case ConfigureBridge(cfg) => SetBridge(b, psm, cfg)
    case ChangeVid(_, vid) => SetVid(b, psm, vid)
    case AddPortTo(_, cfg) => AddPort(b, psm, cfg)
    case DelPortFrom(_, port) => DelPort(b, psm, port)
    case ConfigurePort(_, cfg) => SetPort(b, psm, cfg)
    case _ => (b, psm)
  }

  function Target(op: Op): nat {
    match op
    case ConfigureBridge(cfg) => cfg.inst
    case AddBridge(cfg) => cfg.inst
    case DelBridge(inst) => inst
    case ChangeVid(br, _) => br
    case AddPortTo(br, _) => br
    case DelPortFrom(br, _) => br
    case ConfigurePort(br, _) => br
    case Reboot(_) => 0
  }

  ghost function Apply(s: State, op: Op): State {
    match op
    case AddBridge(cfg) => AddEntry(s, cfg).0
    case DelBridge(inst) => DelEntry(s, inst).0
    case Reboot(found) => Rebooted(s, found)
    case _ =>
      var i := FindBridge(s.bridges, Target(op));
      if i == |s.bridges| then s
      else
        var (b, psm) := OnBridge(s.bridges[i], s.psm, op);
        s.(bridges := s.bridges[i := b], psm := psm)
  }

  ghost function Run(s: State, ops: seq<Op>): State
    decreases |ops|
  {
    if ops == [] then s else Run(Apply(s, ops[0]), ops[1..])
  }

  // ---------------------------------------------------------------- what an operation must be given

  /** Deletions and bridge settings need nothing. A reboot needs what PSM lists, and over runs
      that keep the records to the letter also settled bridges. */
  ghost predicate Fits(s: State, op: Op, how: Fidelity) {
    var i := FindBridge(s.bridges, Target(op));
    match op
    case AddBridge(cfg) => !HasBridge(s.bridges, cfg.inst)
    case AddPortTo(_, cfg) => i < |s.bridges| ==> AddFits(s.bridges[i], cfg)
    case ConfigurePort(_, cfg) => i < |s.bridges| ==> SetFits(s.bridges[i], s.psm, cfg)
    case ChangeVid(_, vid) => forall j :: 0 <= j < |s.bridges| && j != i ==> s.bridges[j].vid != vid
    case Reboot(found) => Bootable(s, found) && (how == Exact ==> AllSettled(s.bridges))
    case _ => true
  }

  ghost predicate AllFit(s: State, ops: seq<Op>, how: Fidelity)
    decreases |ops|
  {
    ops == [] || (Fits(s, ops[0], how) && AllFit(Apply(s, ops[0]), ops[1..], how))
  }

  // ---------------------------------------------------------------- each operation

  lemma ReplaceShape(s: State, i: nat, b: BridgeRec, psm: Psm)
    requires TableShape(s) && i < |s.bridges|
    requires b.l2 == s.bridges[i].l2 && b.inst == s.bridges[i].inst && b.name == s.bridges[i].name
    requires forall j :: 0 <= j < |s.bridges| && j != i ==> s.bridges[j].vid != b.vid
    requires OnlyOwn(s.psm, psm, b.l2)
    ensures TableShape(s.(bridges := s.bridges[i := b], psm := psm))
  {
    var t := s.bridges[i := b];
    forall k: Key | k in psm && k != NoPath ensures HasBridge(t, k.l2) {
      if k.l2 == b.l2 {
        assert t[i].inst == k.l2;
      } else {
        assert SameRecord(s.psm, psm, k);
        var j :| 0 <= j < |s.bridges| && s.bridges[j].inst == k.l2;
        assert t[j].inst == k.l2;
      }
    }
    assert Names(t) == Names(s.bridges);
  }

  lemma OthersKeepInv(bridges: seq<BridgeRec>, psm: Psm, i: nat, psm': Psm, how: Fidelity)
    requires EachBridge(bridges, psm, how) && DistinctBridges(bridges) && i < |bridges|
    requires OnlyOwn(psm, psm', bridges[i].l2)
    ensures forall j :: 0 <= j < |bridges| && j != i ==> BridgeInv(bridges[j], psm', how)
  {
    forall j | 0 <= j < |bridges| && j != i ensures BridgeInv(bridges[j], psm', how) {
      BridgeInvFrame(bridges[j], psm, psm', how);
    }
  }

  /** The step of one bridge keeps the bridge right, and its hands off the other bridges. */
  lemma StepKeepsInv(b: BridgeRec, psm: Psm, op: Op, how: Fidelity)
    requires BridgeInv(b, psm, how)
    requires op.AddPortTo? ==> AddFits(b, op.cfg)
    requires op.ConfigurePort? ==> SetFits(b, psm, op.cfg)
    ensures BridgeInv(OnBridge(b, psm, op).0, OnBridge(b, psm, op).1, how)
    ensures OnlyOwn(psm, OnBridge(b, psm, op).1, b.l2)
  {
    hide BridgeInv, AddFits, SetFits;
    var (b', psm') := OnBridge(b, psm, op);
    match op {
      case ConfigureBridge(cfg) =>
        SaveBridgeKeepsInv(b, b', psm, how);
        SaveBridgeEffect(psm, b');
      case ChangeVid(_, vid) =>
        if vid != b.vid {
          SaveBridgeKeepsInv(b, b', psm, how);
          SaveBridgeEffect(psm, b');
        }
      case AddPortTo(_, cfg) =>
        AddPortKeepsInv(b, psm, cfg, how);
        AddPortFrame(b, psm, cfg);
      case DelPortFrom(_, port) =>
        DelPortKeepsInv(b, psm, port, how);
        var j := IndexOf(b.ports, port);
        if j < |b.ports| && b.ports[j].allowDelete {
          DelPortFrame(b, psm, port);
        }
      case ConfigurePort(_, cfg) =>
        SetPortKeepsInv(b, psm, cfg, how);
        if IndexOf(b.ports, cfg.inst) < |b.ports| {
          SetPortFrame(b, psm, cfg);
        }
      case _ =>
    }
  }

  ghost predicate OnlyOwn(psm: Psm, psm': Psm, l2: nat) {
    forall k: Key :: k != NoPath && k.l2 != l2 ==> SameRecord(psm, psm', k)
  }

  lemma StepKeepsIdentity(b: BridgeRec, psm: Psm, op: Op)
    ensures var b' := OnBridge(b, psm, op).0;
      b'.l2 == b.l2 && b'.inst == b.inst && b'.name == b.name &&
      b'.vid == if op.ChangeVid? then op.vid else b.vid
  {
  }

  lemma OnBridgeKeepsInv(s: State, op: Op, how: Fidelity)
    requires TableInv(s, how) && Fits(s, op, how) && !op.AddBridge? && !op.DelBridge? && !op.Reboot?
    ensures TableInv(Apply(s, op), how)
  {
    var i := FindBridge(s.bridges, Target(op));
    if i < |s.bridges| {
      var (b', psm') := OnBridge(s.bridges[i], s.psm, op);
      StepKeepsInv(s.bridges[i], s.psm, op, how);
      StepKeepsIdentity(s.bridges[i], s.psm, op);
      ReplaceShape(s, i, b', psm');
      OthersKeepInv(s.bridges, s.psm, i, psm', how);
    }
  }

  lemma ExtendShape(s: State, b: BridgeRec, nxtVid: int)
    requires TableShape(s) && !HasBridge(s.bridges, b.inst) && b.l2 == b.inst
    requires b.vid !in Vids(s.bridges) && s.low <= nxtVid <= s.high
    requires b.name == BridgeName(s.prefix, s.nxtBrId)
    ensures TableShape(s.(bridges := s.bridges + [b], psm := SaveBridge(s.psm, b), nxtVid := nxtVid,
                          nxtBrId := s.nxtBrId + 1))
  {
    var psm, n := SaveBridge(s.psm, b), |s.bridges|;
    var t := s.bridges + [b];
    SaveBridgeEffect(s.psm, b);
    assert forall i :: 0 <= i < n ==> s.bridges[i].vid == Vids(s.bridges)[i];
    FirstNameIsFree(Names(s.bridges), s.prefix, s.nxtBrId);
    assert Names(t) == Names(s.bridges) + [b.name];
    forall k: Key | k in psm && k != NoPath ensures HasBridge(t, k.l2) {
      if k.l2 == b.l2 {
        assert t[n].inst == k.l2;
      } else {
        assert SameRecord(s.psm, psm, k);
        var j :| 0 <= j < n && s.bridges[j].inst == k.l2;
        assert t[j].inst == k.l2;
      }
    }
  }

  lemma ExtendInv(s: State, b: BridgeRec, how: Fidelity)
    requires EachBridge(s.bridges, s.psm, how) && NoStray(s.bridges, s.psm) && DistinctBridges(s.bridges)
    requires !HasBridge(s.bridges, b.inst) && b.l2 == b.inst
    requires b.ports == [] && b.numPorts == 0 && b.upstream
    ensures EachBridge(s.bridges + [b], SaveBridge(s.psm, b), how)
  {
    SaveBridgeEffect(s.psm, b);
    NewBridgeInv(s, b, how);
    forall i | 0 <= i < |s.bridges| ensures BridgeInv(s.bridges[i], SaveBridge(s.psm, b), how) {
      BridgeInvFrame(s.bridges[i], s.psm, SaveBridge(s.psm, b), how);
    }
  }

  /** An add succeeds exactly when a VLAN id is free, and then keeps the invariant. */
  lemma AddEntryKeepsInv(s: State, cfg: BridgeCfg, how: Fidelity)
    requires TableInv(s, how) && !HasBridge(s.bridges, cfg.inst)
    ensures TableInv(AddEntry(s, cfg).0, how)
    ensures AddEntry(s, cfg).1 == Success
       <==> exists u :: s.low <= u < s.high && u !in Vids(s.bridges)
  {
    NextVidIsFirstFree(Vids(s.bridges), s.nxtVid, s.low, s.high);
    FirstNameIsFree(Names(s.bridges), s.prefix, s.nxtBrId);
    var r := NextVid(Vids(s.bridges), s.nxtVid, s.low, s.high);
    if r.Some? {
      var b := NewBridge(cfg, r.value, BridgeName(s.prefix, s.nxtBrId));
      ExtendShape(s, b, r.value + 1);
      ExtendInv(s, b, how);
    }
  }

  lemma NewBridgeInv(s: State, b: BridgeRec, how: Fidelity)
    requires NoStray(s.bridges, s.psm) && !HasBridge(s.bridges, b.l2)
    requires b.ports == [] && b.numPorts == 0 && b.upstream
    ensures BridgeInv(b, SaveBridge(s.psm, b), how)
  {
    var psm := SaveBridge(s.psm, b);
    SaveBridgeEffect(s.psm, b);
    BlankHasNoTokens();
    assert BLANK != HIDDEN_LINK;
    forall inst, f ensures PortKey(b.l2, inst, f) !in psm {
      assert SameRecord(s.psm, psm, PortKey(b.l2, inst, f));
    }
    forall m ensures ListAt(psm, b.l2, m) == BLANK {}
  }

  /** An empty bridge owns its template only. */
  lemma EmptyOwnsTemplate(b: BridgeRec, psm: Psm, k: Key, how: Fidelity)
    requires Records(b, psm, how) && b.numPorts == 0
    requires k in EraseBridge(psm, b.l2) && k != NoPath
    ensures k.l2 != b.l2
  {
    EraseBridgeEffect(psm, b.l2);
    match k {
      case PortKey(l2, n, f) =>
        assert PortKey(l2, n, f) in psm && !HasPort(b.ports, n);
      case BridgeKey(_, _) =>
    }
  }

  lemma NoStrayDrop(s: State, i: nat, how: Fidelity)
    requires NoStray(s.bridges, s.psm) && DistinctBridges(s.bridges) && i < |s.bridges|
    requires Records(s.bridges[i], s.psm, how) && s.bridges[i].numPorts == 0
    ensures NoStray(DropAt(s.bridges, i), EraseBridge(s.psm, s.bridges[i].l2))
  {
    var rest, psm := DropAt(s.bridges, i), EraseBridge(s.psm, s.bridges[i].l2);
    forall k: Key | k in psm && k != NoPath ensures HasBridge(rest, k.l2) {
      EmptyOwnsTemplate(s.bridges[i], s.psm, k, how);
      EraseBridgeEffect(s.psm, s.bridges[i].l2);
      var j :| 0 <= j < |s.bridges| && s.bridges[j].inst == k.l2;
      assert rest[if j < i then j else j - 1].inst == k.l2;
    }
  }

  lemma NumberedDrop(names: seq<string>, i: nat, prefix: string, nxtBrId: nat)
    requires Numbered(names, prefix, nxtBrId) && i < |names|
    ensures Numbered(DropAt(names, i), prefix, nxtBrId)
  {
  }

  lemma ShrinkShape(s: State, i: nat, how: Fidelity)
    requires TableShape(s) && i < |s.bridges|
    requires Records(s.bridges[i], s.psm, how) && s.bridges[i].numPorts == 0
    ensures TableShape(s.(bridges := DropAt(s.bridges, i), psm := EraseBridge(s.psm, s.bridges[i].l2)))
  {
    var rest := DropAt(s.bridges, i);
    assert Names(rest) == DropAt(Names(s.bridges), i);
    NumberedDrop(Names(s.bridges), i, s.prefix, s.nxtBrId);
    NoStrayDrop(s, i, how);
  }

  lemma DropInv(bridges: seq<BridgeRec>, i: nat, psm: Psm, how: Fidelity)
    requires i < |bridges|
    requires forall j :: 0 <= j < |bridges| && j != i ==> BridgeInv(bridges[j], psm, how)
    ensures EachBridge(DropAt(bridges, i), psm, how)
  {
  }

  lemma DelEntryKeepsInv(s: State, inst: nat, how: Fidelity)
    requires TableInv(s, how)
    ensures TableInv(DelEntry(s, inst).0, how)
  {
    var i := FindBridge(s.bridges, inst);
    if i < |s.bridges| && s.bridges[i].allowDelete && s.bridges[i].numPorts == 0 {
      EraseBridgeEffect(s.psm, s.bridges[i].l2);
      ShrinkShape(s, i, how);
      OthersKeepInv(s.bridges, s.psm, i, EraseBridge(s.psm, s.bridges[i].l2), how);
      DropInv(s.bridges, i, EraseBridge(s.psm, s.bridges[i].l2), how);
    }
  }

  lemma ApplyKeepsInv(s: State, op: Op, how: Fidelity)
    requires TableInv(s, how) && Fits(s, op, how)
    ensures TableInv(Apply(s, op), how)
  {
    match op {
      case AddBridge(cfg) => AddEntryKeepsInv(s, cfg, how);
      case DelBridge(inst) => DelEntryKeepsInv(s, inst, how);
      case Reboot(found) => RebootKeepsInv(s, found, how);
      case _ => OnBridgeKeepsInv(s, op, how);
    }
  }

  lemma RebootKeepsInv(s: State, found: Listing, how: Fidelity)
    requires TableInv(s, how) && Bootable(s, found) && (how == Exact ==> AllSettled(s.bridges))
    ensures TableInv(Rebooted(s, found), how)
  {
    if how == Exact {
      BootKeepsInvIff(s, found);
    } else {
      BootKeepsInv(s, found, how);
    }
  }

  /** Main theorem: every run of fitting operations keeps the table, its member lists, its
      Link records, its port records and its two id spaces in agreement. Reboots at any point
      and with any listing are part of the run; to the letter when the bridges were settled,
      and up to the normalisation in any case. */
  lemma {:induction false} RunKeepsInv(s: State, ops: seq<Op>, how: Fidelity)
    requires TableInv(s, how) && AllFit(s, ops, how)
    ensures TableInv(Run(s, ops), how)
    decreases |ops|
  {
    if ops != [] {
      ApplyKeepsInv(s, ops[0], how);
      RunKeepsInv(Apply(s, ops[0]), ops[1..], how);
    }
  }

  /** A run from an empty table over a PSM without bridge records, at either fidelity. */
  lemma RunFromEmpty(s: State, ops: seq<Op>, how: Fidelity)
    requires s.bridges == [] && s.low < s.high && s.low <= s.nxtVid <= s.high
    requires forall k: Key :: k in s.psm ==> k == NoPath
    requires AllFit(s, ops, how)
    ensures TableInv(Run(s, ops), how)
  {
    EmptyTableInv(s);
    if how == Normalised {
      ExactTableIsNormalised(s);
    }
    RunKeepsInv(s, ops, how);
  }

  // ---------------------------------------------------------------- consequences over runs

  /** After any run, reboots included: a token is in a list exactly when an enabled, named,
      non-management port of that bridge classified to that list carries it, and no list has
      a token twice. */
  lemma RunIndexesPorts(s: State, ops: seq<Op>, how: Fidelity, i: nat, m: Members, token: string)
    requires TableInv(s, how) && AllFit(s, ops, how) && i < |Run(s, ops).bridges|
    ensures var b := Run(s, ops).bridges[i];
      token in TokensAt(Run(s, ops).psm, b.l2, m)
      <==> exists p :: p in b.ports && p.enabled && p.linkName != "" && !p.mgt &&
                       ListOf(p.linkName, p.linkType) == Some(m) &&
                       token == Lower(MemberText(p.linkName, p.mode))
    ensures var b := Run(s, ops).bridges[i];
      Distinct(Tokens(ListAt(Run(s, ops).psm, b.l2, m)))
  {
    RunKeepsInv(s, ops, how);
    var b := Run(s, ops).bridges[i];
    assert BridgeInv(b, Run(s, ops).psm, how);
    assert TokensAt(Run(s, ops).psm, b.l2, m) == ActiveSet(b.ports, m);
    if token in ActiveSet(b.ports, m) {
      var p :| p in b.ports && Active(p) && MembersOf(p) == Some(m) && Fold(p) == token;
    }
  }

  /** After any run a token is in two lists of a bridge exactly when two active ports of the
      bridge carry one member string into different lists. */
  lemma RunTwoListsIff(s: State, ops: seq<Op>, how: Fidelity, i: nat)
    requires TableInv(s, how) && AllFit(s, ops, how) && i < |Run(s, ops).bridges|
    ensures var (b, psm) := (Run(s, ops).bridges[i], Run(s, ops).psm);
      InTwoLists(b.ports) <==>
        exists m, n :: m != n && TokensAt(psm, b.l2, m) * TokensAt(psm, b.l2, n) != {}
  {
    RunKeepsInv(s, ops, how);
    var b := Run(s, ops).bridges[i];
    assert BridgeInv(b, Run(s, ops).psm, how);
    TwoListsIff(b, Run(s, ops).psm);
  }

  /** After any run: a port record is in PSM exactly when its bridge and port exist. The records
      of a port read back as the port, normalised, and hold it to the letter when every reboot
      found settled bridges. */
  lemma RunConservesRecords(s: State, ops: seq<Op>, how: Fidelity, l2: nat, inst: nat, f: PortField)
    requires TableInv(s, how) && AllFit(s, ops, how)
    ensures var t := Run(s, ops);
      (PortKey(l2, inst, f) in t.psm <==>
        exists b, p :: b in t.bridges && p in b.ports && b.inst == l2 && p.inst == inst)
    ensures var t := Run(s, ops);
      forall b, p :: b in t.bridges && p in b.ports && b.inst == l2 && p.inst == inst ==>
        ReadPort(t.psm, l2, inst) == Normal(p) &&
        (how == Exact ==> Get(t.psm, PortKey(l2, inst, f)) == PortText(p, f))
  {
    hide Run, AllFit, TableInv, ReadPort, Normal, PortText;
    RunKeepsInv(s, ops, how);
    TableRecords(Run(s, ops), how, l2, inst, f);
  }

  lemma TableRecords(t: State, how: Fidelity, l2: nat, inst: nat, f: PortField)
    requires TableInv(t, how)
    ensures PortKey(l2, inst, f) in t.psm <==>
      exists b, p :: b in t.bridges && p in b.ports && b.inst == l2 && p.inst == inst
    ensures forall b, p :: b in t.bridges && p in b.ports && b.inst == l2 && p.inst == inst ==>
      ReadPort(t.psm, l2, inst) == Normal(p) &&
      (how == Exact ==> Get(t.psm, PortKey(l2, inst, f)) == PortText(p, f))
  {
    hide TableInv, ReadPort, Normal, PortText;
    if PortKey(l2, inst, f) in t.psm {
      RecordHasPort(t, how, l2, inst, f);
    }
    forall b, p | b in t.bridges && p in b.ports && b.inst == l2 && p.inst == inst
      ensures PortKey(l2, inst, f) in t.psm && ReadPort(t.psm, l2, inst) == Normal(p)
      ensures how == Exact ==> t.psm[PortKey(l2, inst, f)] == PortText(p, f)
    {
      LivePortRecord(t, how, b, p, f);
    }
  }

  lemma RecordHasPort(t: State, how: Fidelity, l2: nat, inst: nat, f: PortField)
    requires TableInv(t, how) && PortKey(l2, inst, f) in t.psm
    ensures exists b, p :: b in t.bridges && p in b.ports && b.inst == l2 && p.inst == inst
  {
    var k := PortKey(l2, inst, f);
    assert HasBridge(t.bridges, k.l2);
    var i :| 0 <= i < |t.bridges| && t.bridges[i].inst == l2;
    var b := t.bridges[i];
    assert BridgeInv(b, t.psm, how) && b in t.bridges;
    assert HasPort(b.ports, inst);
    var p :| p in b.ports && p.inst == inst;
  }

  lemma LivePortRecord(t: State, how: Fidelity, b: BridgeRec, p: PortRec, f: PortField)
    requires TableInv(t, how) && b in t.bridges && p in b.ports
    ensures var k := PortKey(b.inst, p.inst, f);
      k in t.psm && (how == Exact ==> t.psm[k] == PortText(p, f))
    ensures ReadPort(t.psm, b.inst, p.inst) == Normal(p)
  {
    var i :| 0 <= i < |t.bridges| && t.bridges[i] == b;
    assert BridgeInv(b, t.psm, how);
    assert PortSaved(t.psm, b.l2, p, how);
    assert PortTextHolds(t.psm[PortKey(b.l2, p.inst, f)], p, f, how);
    ReloadPort(t.psm, b.l2, p, how);
  }

  /** A deletion after a reboot removes the token that was filed before it, and no other. */
  lemma DeleteAfterReboot(s: State, found: Listing, how: Fidelity, i: nat, p: PortRec, m: Members)
    requires TableInv(s, how) && Bootable(s, found) && i < |s.bridges|
    requires var b := s.bridges[i];
      p in b.ports && p.allowDelete && Active(p) && MembersOf(p) == Some(m)
    ensures var b := s.bridges[i];
      var t := Apply(Apply(s, Reboot(found)), DelPortFrom(b.inst, p.inst));
      Fold(p) in TokensAt(s.psm, b.l2, m) &&
      TokensAt(t.psm, b.l2, m) == TokensAt(s.psm, b.l2, m) - {Fold(p)} &&
      forall n :: n != m ==> TokensAt(t.psm, b.l2, n) == TokensAt(s.psm, b.l2, n)
  {
    var b := s.bridges[i];
    ActiveIsListed(b, s.psm, how, p, m);
    var r := RebootedBridge(s, found, how, i, p.inst);
    DeleteReloaded(b, r, s.psm, p, m);
  }

  lemma ActiveIsListed(b: BridgeRec, psm: Psm, how: Fidelity, p: PortRec, m: Members)
    requires BridgeInv(b, psm, how) && p in b.ports && Active(p) && MembersOf(p) == Some(m)
    ensures Fold(p) in TokensAt(psm, b.l2, m)
  {
    assert TokensAt(psm, b.l2, m) == ActiveSet(b.ports, m);
  }

  lemma DeleteStep(s: State, br: nat, inst: nat)
    requires FindBridge(s.bridges, br) < |s.bridges|
    ensures Apply(s, DelPortFrom(br, inst)).psm == DelPort(s.bridges[FindBridge(s.bridges, br)], s.psm, inst).1
  {
  }

  /** The bridge that a deletion after a reboot works on. */
  lemma RebootedBridge(s: State, found: Listing, how: Fidelity, i: nat, inst: nat) returns (r: BridgeRec)
    requires TableInv(s, how) && Bootable(s, found) && i < |s.bridges|
    ensures Reloads(r, s.bridges[i])
    ensures Apply(Apply(s, Reboot(found)), DelPortFrom(s.bridges[i].inst, inst)).psm == DelPort(r, s.psm, inst).1
  {
    hide Bootable, DelPort, ReloadsAll, Reloads;
    BootKeepsInv(s, found, how);
    var s1 := Apply(s, Reboot(found));
    assert s1 == Rebooted(s, found);
    r := ReloadedAs(s.bridges, s1.bridges, i);
    DeleteStep(s1, s.bridges[i].inst, inst);
  }

  lemma ReloadedAs(bridges: seq<BridgeRec>, loads: seq<BridgeRec>, i: nat) returns (r: BridgeRec)
    requires DistinctBridges(bridges) && ReloadsAll(loads, bridges) && i < |bridges|
    ensures FindBridge(loads, bridges[i].inst) < |loads| && r == loads[FindBridge(loads, bridges[i].inst)]
    ensures Reloads(r, bridges[i])
  {
    assert HasBridge(loads, bridges[i].inst);
    FindOnly(bridges, i);
    r := loads[FindBridge(loads, bridges[i].inst)];
  }

  lemma DeleteReloaded(b: BridgeRec, r: BridgeRec, psm: Psm, p: PortRec, m: Members)
    requires Reloads(r, b) && p in b.ports && p.allowDelete && Active(p) && MembersOf(p) == Some(m)
    ensures var psm' := DelPort(r, psm, p.inst).1;
      forall n :: TokensAt(psm', b.l2, n) == TokensAt(psm, b.l2, n) - (if n == m then {Fold(p)} else {})
  {
    PortIsBack(r.ports, b.ports, p);
    NormalKeepsMember(p);
    forall n
      ensures TokensAt(DelPort(r, psm, p.inst).1, b.l2, n)
           == TokensAt(psm, b.l2, n) - (if n == m then {Fold(p)} else {})
    {
      DelPortTokens(r, psm, p.inst, n);
    }
  }

  lemma PortIsBack(loaded: seq<PortRec>, ports: seq<PortRec>, p: PortRec)
    requires Mirrors(loaded, ports) && p in ports
    ensures IndexOf(loaded, p.inst) < |loaded| && loaded[IndexOf(loaded, p.inst)] == Normal(p)
  {
    assert Normal(p) in loaded;
    var j :| 0 <= j < |loaded| && loaded[j] == Normal(p);
  }

  lemma DropLeaves(bridges: seq<BridgeRec>, j: nat, i: nat)
    requires DistinctBridges(bridges) && i < |bridges| && j < |bridges|
    ensures HasBridge(DropAt(bridges, j), bridges[i].inst) <==> i != j
  {
    var t := DropAt(bridges, j);
    if i != j {
      assert t[if i < j then i else i - 1].inst == bridges[i].inst;
    }
  }

  /** A bridge leaves the table exactly through DelBridge, with allow-delete and no ports; no
      reboot loses one. */
  lemma LeavesIff(s: State, op: Op, i: nat, how: Fidelity)
    requires TableInv(s, how) && i < |s.bridges|
    requires op.Reboot? ==> Bootable(s, op.found)
    ensures var b := s.bridges[i];
      !HasBridge(Apply(s, op).bridges, b.inst)
      <==> op == DelBridge(b.inst) && b.allowDelete && b.ports == []
  {
    hide Bootable, Rebooted, AddEntry, OnBridge, EraseBridge, EachBridge;
    var b, t := s.bridges[i], Apply(s, op).bridges;
    assert b.numPorts == |b.ports| by { CountsPorts(s, how, i); }
    if op.Reboot? {
      BootKeepsInv(s, op.found, how);
    } else if op.DelBridge? && t != s.bridges {
      DropLeaves(s.bridges, FindBridge(s.bridges, op.inst), i);
    } else {
      StaysInPlace(s, op, i);
    }
  }

  lemma CountsPorts(s: State, how: Fidelity, i: nat)
    requires TableInv(s, how) && i < |s.bridges|
    ensures s.bridges[i].numPorts == |s.bridges[i].ports|
  {
    assert BridgeInv(s.bridges[i], s.psm, how);
  }

  lemma StaysInPlace(s: State, op: Op, i: nat)
    requires i < |s.bridges| && !op.Reboot?
    requires op.DelBridge? ==> Apply(s, op).bridges == s.bridges
    ensures HasBridge(Apply(s, op).bridges, s.bridges[i].inst)
  {
    var t := Apply(s, op).bridges;
    assert i < |t| && t[i].inst == s.bridges[i].inst;
  }

  /** Changing a VLAN id through a VLAN entry is unchecked: the ids stay distinct exactly when
      no other bridge uses the new one. */
  lemma ChangeVidKeepsDistinctIff(s: State, br: nat, vid: int)
    requires DistinctVids(s.bridges) && FindBridge(s.bridges, br) < |s.bridges|
    ensures DistinctVids(Apply(s, ChangeVid(br, vid)).bridges)
       <==> forall j :: 0 <= j < |s.bridges| && j != FindBridge(s.bridges, br) ==> s.bridges[j].vid != vid
  {
    var i := FindBridge(s.bridges, br);
    var t := Apply(s, ChangeVid(br, vid)).bridges;
    assert t[i].vid == vid && forall j :: 0 <= j < |t| && j != i ==> t[j] == s.bridges[j];
  }

  lemma SaveThenErase(psm: Psm, b: BridgeRec)
    requires forall f :: BridgeKey(b.l2, f) !in psm
    ensures EraseBridge(SaveBridge(psm, b), b.l2) == psm
  {
    var erased := EraseBridge(SaveBridge(psm, b), b.l2);
    EraseBridgeEffect(SaveBridge(psm, b), b.l2);
    SaveBridgeEffect(psm, b);
    forall k: Key ensures k in erased <==> k in psm {
      assert k.BridgeKey? && k.l2 == b.l2 ==> k == BridgeKey(b.l2, k.field);
    }
    assert erased.Keys == psm.Keys;
  }

  /** Adding a bridge and deleting it again gives the table and every PSM record back. */
  lemma AddThenDelBridge(s: State, cfg: BridgeCfg)
    requires !HasBridge(s.bridges, cfg.inst) && cfg.allowDelete
    requires AddEntry(s, cfg).1 == Success && NoStray(s.bridges, s.psm)
    ensures var t := DelEntry(AddEntry(s, cfg).0, cfg.inst).0;
      t.psm == s.psm && t.bridges == s.bridges
  {
    var s1, n := AddEntry(s, cfg).0, |s.bridges|;
    var b := s1.bridges[n];
    assert s1.bridges == s.bridges + [b];
    forall f ensures BridgeKey(b.l2, f) !in s.psm {
    }
    SaveThenErase(s.psm, b);
    var i := FindBridge(s1.bridges, cfg.inst);
    assert forall j :: 0 <= j < n ==> s.bridges[j].inst != cfg.inst;
    assert i == n;
    assert DropAt(s1.bridges, n) == s.bridges;
  }

  lemma AddedIsLast(b: BridgeRec, psm: Psm, cfg: PortCfg)
    requires !HasPort(b.ports, cfg.inst) && cfg.allowDelete
    ensures var b1 := AddPort(b, psm, cfg).0;
      IndexOf(b1.ports, cfg.inst) == |b.ports| < |b1.ports| && b1.ports[|b.ports|].allowDelete &&
      DropAt(b1.ports, |b.ports|) == b.ports
  {
    var ports, n := b.ports + [NewPort(b, cfg)], |b.ports|;
    forall j | 0 <= j < n ensures ports[j].inst != cfg.inst {
      assert b.ports[j] in b.ports;
    }
    assert ports[n].inst == cfg.inst;
  }

  /** One list after an addition. */
  lemma ListAfterAdd(b: BridgeRec, psm: Psm, cfg: PortCfg, m: Members)
    ensures var p, list := NewPort(b, cfg), ListAt(psm, b.l2, m);
      ListAt(AddPort(b, psm, cfg).1, b.l2, m) ==
        if Active(p) && MembersOf(p) == Some(m) && !HasToken(list, Member(p)) then Appended(list, Member(p)) else list
  {
    var p := NewPort(b, cfg);
    SavePortEffect(psm, b.l2, p);
    assert SameRecord(psm, SavePort(psm, b.l2, p.inst, p), BridgeKey(b.l2, MemberList(m)));
  }

  /** One list after a deletion. */
  lemma ListAfterDel(b: BridgeRec, psm: Psm, inst: nat, m: Members)
    requires var i := IndexOf(b.ports, inst); i < |b.ports| && b.ports[i].allowDelete
    ensures var p, list := b.ports[IndexOf(b.ports, inst)], ListAt(psm, b.l2, m);
      ListAt(DelPort(b, psm, inst).1, b.l2, m) ==
        if Named(p) && MembersOf(p) == Some(m) && HasToken(list, Member(p)) then Removed(list, Member(p)) else list
  {
    ErasePortEffect(psm, b.l2, inst);
    assert SameRecord(psm, ErasePort(psm, b.l2, inst), BridgeKey(b.l2, MemberList(m)));
  }

  /** A list over an addition and the deletion of the added port. */
  lemma AddThenDelList(b: BridgeRec, psm: Psm, cfg: PortCfg, m: Members)
    requires Index(b, psm) && AddFits(b, cfg) && cfg.allowDelete
    ensures var (b1, psm1) := AddPort(b, psm, cfg);
      Tokens(ListAt(DelPort(b1, psm1, cfg.inst).1, b.l2, m)) == Tokens(ListAt(psm, b.l2, m))
  {
    hide DelPort, Enrolled, SetLink, Apart;
    var (b1, psm1) := AddPort(b, psm, cfg);
    var p := NewPort(b, cfg);
    AddedIsLast(b, psm, cfg);
    ListAfterAdd(b, psm, cfg, m);
    ListAfterDel(b1, psm1, cfg.inst, m);
    if Named(p) && MembersOf(p) == Some(m) {
      FreshToken(b, psm, cfg, m);
      MemberIsWord(p.linkName, p.mode);
      RemoveUndoesAppend(ListAt(psm, b.l2, m), Member(p));
      AppendedIsThere(ListAt(psm, b.l2, m), Member(p));
    }
  }

  lemma AppendedIsThere(list: string, token: string)
    requires Word(token)
    ensures HasToken(Appended(list, token), token)
  {
    AppendedTokens(list, token);
    assert Tokens(Appended(list, token))[|Tokens(list)|] == token;
  }

  /** A member string that may be added is not in its list. */
  lemma FreshToken(b: BridgeRec, psm: Psm, cfg: PortCfg, m: Members)
    requires Index(b, psm) && AddFits(b, cfg) && cfg.linkName != "" && ListOf(cfg.linkName, cfg.linkType) == Some(m)
    ensures !HasToken(ListAt(psm, b.l2, m), MemberText(cfg.linkName, cfg.mode))
  {
    assert TokensAt(psm, b.l2, m) == ActiveSet(b.ports, m);
    FoldIsMember(Tokens(ListAt(psm, b.l2, m)), MemberText(cfg.linkName, cfg.mode));
  }

  /** Adding a port and deleting it again: the list, the counter, every record outside the
      list fields and the tokens of every list, in order, are as before. */
  lemma AddThenDelPort(b: BridgeRec, psm: Psm, cfg: PortCfg, how: Fidelity)
    requires BridgeInv(b, psm, how) && AddFits(b, cfg) && cfg.allowDelete
    ensures var (b1, psm1) := AddPort(b, psm, cfg);
      var (b2, psm2) := DelPort(b1, psm1, cfg.inst);
      b2.ports == b.ports && b2.numPorts == b.numPorts &&
      (forall m :: Tokens(ListAt(psm2, b.l2, m)) == Tokens(ListAt(psm, b.l2, m))) &&
      (forall k: Key :: k != NoPath && !(k.BridgeKey? && k.l2 == b.l2 && IsListField(k.field)) ==>
        SameRecord(psm, psm2, k))
  {
    var (b1, psm1) := AddPort(b, psm, cfg);
    var (b2, psm2) := DelPort(b1, psm1, cfg.inst);
    AddedIsLast(b, psm, cfg);
    AddPortFrame(b, psm, cfg);
    DelPortFrame(b1, psm1, cfg.inst);
    forall m ensures Tokens(ListAt(psm2, b.l2, m)) == Tokens(ListAt(psm, b.l2, m)) {
      AddThenDelList(b, psm, cfg, m);
    }
    forall k: Key | k != NoPath && !(k.BridgeKey? && k.l2 == b.l2 && IsListField(k.field))
      ensures SameRecord(psm, psm2, k)
    {
      if k.PortKey? && k.l2 == b.l2 && k.port == cfg.inst {
        assert !HasPort(b.ports, k.port) && k == PortKey(b.l2, cfg.inst, k.portField);
      } else {
        assert SameRecord(psm, psm1, k) && SameRecord(psm1, psm2, k);
      }
    }
  }
}
