/** The bridge manager in the source's own shape: objects updated in place, loops over the
    lists, and a PSM store written record by record. Every method is proved against the
    state functions of BridgeSteps and BridgeRuns. */
module BridgeTable {
  import opened Text
  import opened BridgeData
  import opened BridgeSteps
  import opened BridgeIds
  import opened BridgeState
  import opened BridgeRuns
  import opened BridgeReload
  import opened Wrappers

  /** PSM: records by name. A record that is not there reads as the empty string. */
  class PsmStore {
    var recs: Psm

    method Set(k: Key, v: string)
      modifies this
      ensures recs == old(recs)[k := v]
    {
      recs := recs[k := v];
    }

    method Delete(k: Key)
      modifies this
      ensures recs == old(recs) - {k}
    {
      recs := recs - {k};
    }

    /** _COSA_AddBPortMember */
    method AddListMember(path: Key, token: string)
      modifies this
      ensures recs == AddMember(old(recs), path, token)
    {
      var ok, list := AddToken(token, Get(recs, path));
      if ok {
        Set(path, list);
      }
    }

    /** _COSA_RemoveBPortMember */
    method RemoveListMember(path: Key, token: string)
      modifies this
      ensures recs == RemoveMember(old(recs), path, token)
    {
      var ok, list := DelToken(token, Get(recs, path));
      if ok {
        Set(path, list);
      }
    }

    /** _PSM_ADD_MEMBERS, with the path buffer as it is left by an earlier macro. */
    method AddMembers(l2: nat, p: Port, path: Key)
      modifies this
      ensures recs == Enlist(old(recs), l2, p.Rec(), path)
    {
      if p.linkName != "" {
        var r := p.Copy();
        AddListMember(Path(l2, r, path), Member(r));
      }
    }

    /** _PSM_REMOVE_MEMBERS on a cleared path buffer */
    method RemoveMembers(l2: nat, p: Port) returns (path: Key)
      modifies this
      ensures recs == Unlist(old(recs), l2, p.Rec())
      ensures path == if p.linkName != "" then Path(l2, p.Rec(), NoPath) else NoPath
    {
      path := NoPath;
      if p.linkName != "" {
        var r := p.Copy();
        path := Path(l2, r, path);
        RemoveListMember(path, Member(r));
      }
    }

    /** The field deletions of _COSA_DelBPort */
    method EraseBPort(l2: nat, inst: nat)
      modifies this
      ensures recs == ErasePort(old(recs), l2, inst)
    {
      var fields := PortFields();
      for i := 0 to |fields|
        invariant recs == EraseFields(old(recs), l2, inst, fields[..i])
      {
        Delete(PortKey(l2, inst, fields[i]));
        assert fields[..i + 1][..i] == fields[..i];
      }
      assert fields[..|fields|] == fields;
    }

    /** _Psm_SetBPort */
    method SetBPort(l2: nat, inst: nat, p: Port)
      modifies this
      ensures recs == SavePort(old(recs), l2, inst, p.Rec())
    {
      var r := p.Copy();
      var fields := PortFields();
      for i := 0 to |fields|
        invariant recs == SaveFields(old(recs), l2, inst, r, fields[..i])
      {
        Set(PortKey(l2, inst, fields[i]), PortText(r, fields[i]));
        assert fields[..i + 1][..i] == fields[..i];
      }
      assert fields[..|fields|] == fields;
    }

    method SetBrFields(b: Bridge, fields: seq<BridgeField>)
      modifies this
      ensures recs == SaveBridgeFields(old(recs), b.Rec(), fields)
    {
      var r := b.Own();
      for i := 0 to |fields|
        invariant recs == SaveBridgeFields(old(recs), b.Rec(), fields[..i])
      {
        assert BridgeText(r, fields[i]) == BridgeText(b.Rec(), fields[i]);
        Set(BridgeKey(r.l2, fields[i]), BridgeText(r, fields[i]));
        assert fields[..i + 1][..i] == fields[..i];
      }
      assert fields[..|fields|] == fields;
    }

    /** _Psm_SetBr */
    method SetBr(b: Bridge)
      modifies this
      ensures recs == SaveBridge(old(recs), b.Rec())
    {
      SetBrFields(b, OwnFields());
      if b.numPorts == 0 {
        SetBrFields(b, ListFields());
      }
    }

    /** _Psm_DelBr */
    method DelBr(l2: nat)
      modifies this
      ensures recs == EraseBridge(old(recs), l2)
    {
      var fields := OwnFields() + ListFields();
      for i := 0 to |fields|
        invariant recs == EraseBridgeFields(old(recs), l2, fields[..i])
      {
        Delete(BridgeKey(l2, fields[i]));
        assert fields[..i + 1][..i] == fields[..i];
      }
      assert fields[..|fields|] == fields;
    }

    /** The PSM part of SWBrAddPort, before the Link record */
    method Enroll(l2: nat, p: Port)
      modifies this
      ensures recs == Enrolled(old(recs), l2, p.Rec())
    {
      SetBPort(l2, p.inst, p);
      if p.enabled && !p.mgt {
        AddMembers(l2, p, NoPath);
      }
    }

    /** The PSM part of _COSA_DelBPort, before the Link record */
    method Withdraw(l2: nat, p: Port)
      modifies this
      ensures recs == Withdrawn(old(recs), l2, p.Rec())
    {
      EraseBPort(l2, p.inst);
      var _ := RemoveMembers(l2, p);
    }

    /** _Psm_DelLinkMembers or _Psm_AddLinkMembers */
    method Relink(l2: nat, upstream: bool)
      modifies this
      ensures recs == Relinked(old(recs), l2, upstream)
    {
      if upstream {
        Delete(BridgeKey(l2, Link));
      } else {
        Set(BridgeKey(l2, Link), HIDDEN_LINK);
      }
    }
  }

  class Port {
    var inst: nat
    var alias: string
    var name: string
    var linkName: string
    var linkType: LinkType
    var mgt: bool
    var priTag: bool
    var mode: Mode
    var enabled: bool
    var upstream: bool
    var allowDelete: bool
    var pvid: int

    ghost function Rec(): PortRec
      reads this
    {
      PortRec(inst, alias, name, linkName, linkType, mgt, priTag, mode, enabled, upstream,
              allowDelete, pvid)
    }

    method Copy() returns (r: PortRec)
      ensures r == Rec()
    {
      r := PortRec(inst, alias, name, linkName, linkType, mgt, priTag, mode, enabled, upstream,
                   allowDelete, pvid);
    }

    /** The field assignments of CosaDmlBrgPortSetCfg; linkName is not among them. */
    method Assign(cfg: PortCfg, brName: string, vid: int)
      modifies this
      ensures Rec() == PortRec(cfg.inst, cfg.alias, if cfg.mgt then brName else cfg.linkName,
                               old(linkName), cfg.linkType, cfg.mgt, cfg.priTag, cfg.mode,
                               cfg.enabled, cfg.upstream, cfg.allowDelete, vid)
    {
      inst := cfg.inst;
      mgt := cfg.mgt;
      priTag := cfg.priTag;
      linkType := cfg.linkType;
      pvid := vid;
      mode := cfg.mode;
      upstream := cfg.upstream;
      enabled := cfg.enabled;
      allowDelete := cfg.allowDelete;
      name := if mgt then brName else cfg.linkName;
      alias := cfg.alias;
    }

    constructor (r: PortRec)
      ensures Rec() == r
    {
      inst, alias, name, linkName, linkType := r.inst, r.alias, r.name, r.linkName, r.linkType;
      mgt, priTag, mode, enabled := r.mgt, r.priTag, r.mode, r.enabled;
      upstream, allowDelete, pvid := r.upstream, r.allowDelete, r.pvid;
    }
  }

  ghost function Recs(ports: seq<Port>): seq<PortRec>
    reads ports
  {
    seq(|ports|, i requires 0 <= i < |ports| reads ports => ports[i].Rec())
  }

  class Bridge {
    var inst: nat
    var l2: nat
    var alias: string
    var name: string
    var typ: string
    var standard: Standard
    var vid: int
    var enabled: bool
    var priTag: bool
    var allowDelete: bool
    var upstream: bool
    var numPorts: nat
    var ports: seq<Port>

    ghost predicate Valid()
      reads this
    {
      forall i, j :: 0 <= i < j < |ports| ==> ports[i] != ports[j]
    }

    method Own() returns (r: BridgeRec)
      ensures r == Rec().(ports := [])
    {
      r := BridgeRec(inst, l2, alias, name, typ, standard, vid, enabled, priTag, allowDelete,
                     upstream, numPorts, []);
    }

    ghost function Rec(): BridgeRec
      reads this, ports
    {
      BridgeRec(inst, l2, alias, name, typ, standard, vid, enabled, priTag, allowDelete, upstream,
                numPorts, Recs(ports))
    }

    constructor (r: BridgeRec)
      requires r.ports == []
      ensures Valid() && Rec() == r && ports == []
    {
      inst, l2, alias, name, typ := r.inst, r.l2, r.alias, r.name, r.typ;
      standard, vid, enabled, priTag := r.standard, r.vid, r.enabled, r.priTag;
      allowDelete, upstream, numPorts, ports := r.allowDelete, r.upstream, r.numPorts, [];
    }

    /** The bridge part of CosaDmlBrgSetCfg */
    method Configure(store: PsmStore, cfg: BridgeCfg)
      modifies this`standard, this`alias, this`enabled, store
      ensures Rec() == SetBridge(old(Rec()), old(store.recs), cfg).0
      ensures store.recs == SetBridge(old(Rec()), old(store.recs), cfg).1
    {
      standard := cfg.standard;
      alias := cfg.alias;
      enabled := cfg.enabled;
      store.SetBr(this);
    }

    /** The bridge part of _COSA_UpdateBrVLANID */
    method ChangeVlanId(store: PsmStore, newVid: int)
      modifies this`vid, store
      ensures Rec() == SetVid(old(Rec()), old(store.recs), newVid).0
      ensures store.recs == SetVid(old(Rec()), old(store.recs), newVid).1
    {
      if newVid != vid {
        vid := newVid;
        store.SetBr(this);
      }
    }

    /** getBPort */
    method FindPort(portInst: nat) returns (i: nat)
      ensures i == IndexOf(Recs(ports), portInst)
    {
      i := 0;
      while i < |ports| && ports[i].inst != portInst
        invariant i <= |ports|
        invariant forall j :: 0 <= j < i ==> ports[j].inst != portInst
      {
        i := i + 1;
      }
      ghost var k := IndexOf(Recs(ports), portInst);
      assert i < |ports| ==> Recs(ports)[i].inst == portInst;
      assert k < |ports| ==> ports[k].inst == portInst;
      assert forall j :: 0 <= j < k ==> ports[j].inst == Recs(ports)[j].inst;
    }

    /** The port loop of CosaDmlBrgInit, on a bridge just read */
    method LoadPortList(store: PsmStore, insts: seq<nat>)
      requires Valid() && ports == [] && numPorts == 0 && upstream
      modifies this`ports, this`numPorts, this`upstream
      ensures Valid() && forall p :: p in ports ==> fresh(p)
      ensures Recs(ports) == LoadPorts(store.recs, l2, insts)
      ensures numPorts == |ports| && upstream == AllUpstream(Recs(ports))
    {
      for j := 0 to |insts|
        invariant Valid() && numPorts == |ports| && forall p :: p in ports ==> fresh(p)
        invariant Recs(ports) == LoadPorts(store.recs, l2, insts[..j])
        invariant upstream <==> AllUpstream(Recs(ports))
      {
        AllUpstreamSnoc(Recs(ports), ReadPort(store.recs, l2, insts[j]));
        LoadPort(store, insts[j]);
        LoadPortsSnoc(store.recs, l2, insts, j);
      }
      assert insts[..|insts|] == insts;
    }

    method LoadPort(store: PsmStore, portInst: nat)
      requires Valid()
      modifies this`ports, this`numPorts, this`upstream
      ensures Valid() && forall p :: p in ports ==> p in old(ports) || fresh(p)
      ensures Recs(ports) == old(Recs(ports)) + [ReadPort(store.recs, l2, portInst)]
      ensures numPorts == old(numPorts) + 1
      ensures upstream == (old(upstream) && ReadPort(store.recs, l2, portInst).upstream)
    {
      var p := new Port(ReadPort(store.recs, l2, portInst));
      ports := ports + [p];
      if !p.upstream {
        upstream := false;
      }
      numPorts := numPorts + 1;
    }

    /** SWBrAddPort */
    method SwBrAddPort(store: PsmStore, cfg: PortCfg)
      requires Valid()
      modifies this, store
      ensures Valid()
      ensures Rec() == AddPort(old(Rec()), old(store.recs), cfg).0
      ensures store.recs == AddPort(old(Rec()), old(store.recs), cfg).1
      ensures |ports| == old(|ports|) + 1 && ports[..old(|ports|)] == old(ports)
      ensures fresh(ports[old(|ports|)])
    {
      hide Enrolled;
      var p := PushPort(cfg);
      store.Enroll(l2, p);
      if !p.upstream && p.linkName != "" && p.enabled {
        upstream := false;
        store.Set(BridgeKey(l2, Link), HIDDEN_LINK);
      }
    }

    /** The list part of SWBrAddPort */
    method PushPort(cfg: PortCfg) returns (p: Port)
      requires Valid()
      modifies this`ports, this`numPorts
      ensures Valid() && fresh(p) && ports == old(ports) + [p]
      ensures p.Rec() == NewPort(old(Rec()), cfg)
      ensures numPorts == old(numPorts) + 1 && Recs(ports) == old(Recs(ports)) + [p.Rec()]
    {
      p := new Port(PortRec(
        cfg.inst, cfg.alias, if cfg.mgt then name else cfg.linkName, cfg.linkName, cfg.linkType,
        cfg.mgt, cfg.priTag, cfg.mode, cfg.enabled, cfg.upstream, cfg.allowDelete, vid));
      numPorts := numPorts + 1;
      ports := ports + [p];
    }

    /** _COSA_DelBPort */
    method DelBPort(store: PsmStore, portInst: nat) returns (status: Status)
      requires Valid()
      modifies this, store
      ensures Valid()
      ensures Rec() == DelPort(old(Rec()), old(store.recs), portInst).0
      ensures store.recs == DelPort(old(Rec()), old(store.recs), portInst).1
      ensures forall p :: p in ports ==> p in old(ports)
      ensures status == DelStatus(old(Rec()), portInst)
    {
      var i := FindPort(portInst);
      if i == |ports| {
        return CantFind;
      }
      if !ports[i].allowDelete {
        return NotSupported;
      }
      assert old(Recs(ports))[i] == ports[i].Rec();
      DelFound(store, i);
      return Success;
    }

    method DelFound(store: PsmStore, i: nat)
      requires Valid() && i < |ports|
      modifies this, store
      ensures Valid()
      ensures Rec() == Dropped(old(Rec()), i)
      ensures store.recs == DroppedRecords(old(Rec()), old(store.recs), i)
      ensures forall p :: p in ports ==> p in old(ports)
    {
      var p := ports[i];
      assert p.Rec() == Recs(ports)[i];
      PopPort(i);
      store.Withdraw(l2, p);
      store.Relink(l2, upstream);
    }

    /** The list, counter and flag of _COSA_DelBPort */
    method PopPort(i: nat)
      requires Valid() && i < |ports|
      modifies this`ports, this`numPorts, this`upstream
      ensures Valid() && Recs(ports) == DropAt(old(Recs(ports)), i)
      ensures !upstream <==> exists q :: q in Recs(ports) && NeedsLink(q)
      ensures numPorts == if old(numPorts) == 0 then 0 else old(numPorts) - 1
      ensures forall p :: p in ports ==> p in old(ports)
    {
      DropPort(i);
      var found := AnyNeedsLink();
      upstream := !found;
      if numPorts != 0 {
        numPorts := numPorts - 1;
      }
    }

    /** AnscSListPopEntryByLink */
    method DropPort(i: nat)
      requires Valid() && i < |ports|
      modifies this`ports
      ensures Valid() && Recs(ports) == DropAt(old(Recs(ports)), i)
      ensures forall p :: p in ports ==> p in old(ports)
    {
      ports := DropAt(ports, i);
      assert forall j :: 0 <= j < |ports| ==> ports[j].Rec() == old(Recs(ports))[if j < i then j else j + 1];
    }

    /** The search loop of _COSA_DelBPort. */
    method AnyNeedsLink() returns (found: bool)
      ensures found <==> exists q :: q in Recs(ports) && NeedsLink(q)
    {
      for j := 0 to |ports|
        invariant forall n :: 0 <= n < j ==> !NeedsLink(ports[n].Rec())
      {
        var q := ports[j];
        if !q.mgt && !q.upstream && q.linkName != "" && q.enabled {
          assert Recs(ports)[j] in Recs(ports);
          return true;
        }
      }
      return false;
    }

    /** SWBrConfirmStructureUpdate */
    method ConfirmStructureUpdate(store: PsmStore, p: Port, cfg: PortCfg)
      requires p in ports
      modifies this`upstream, store, p
      ensures (upstream, store.recs) == Restructure(old(Rec()), old(store.recs), old(p.Rec()), cfg)
      ensures p.Rec() == Restructured(old(p.Rec()), cfg)
    {
      var path := store.RemoveMembers(l2, p);
      p.linkName := cfg.linkName;
      p.mode := cfg.mode;
      p.linkType := cfg.linkType;
      p.upstream := cfg.upstream;
      p.enabled := cfg.enabled;
      if p.enabled && p.linkName != "" {
        store.AddMembers(l2, p, path);
        if !p.upstream {
          upstream := false;
          store.Set(BridgeKey(l2, Link), HIDDEN_LINK);
        }
      }
    }

    /** CosaDmlBrgPortSetCfg, after the bridge has been found */
    method PortSetCfg(store: PsmStore, cfg: PortCfg) returns (status: Status)
      requires Valid()
      modifies this`upstream, store, ports
      ensures Rec() == SetPort(old(Rec()), old(store.recs), cfg).0
      ensures store.recs == SetPort(old(Rec()), old(store.recs), cfg).1
      ensures status == (if IndexOf(old(Recs(ports)), cfg.inst) == |ports| then CantFind else Success)
    {
      var i := FindPort(cfg.inst);
      if i == |ports| {
        return CantFind;
      }
      SetFound(store, i, cfg);
      return Success;
    }

    method SetFound(store: PsmStore, i: nat, cfg: PortCfg)
      requires Valid() && i < |ports|
      modifies this`upstream, store, ports
      ensures upstream == Filed(old(Rec()), old(store.recs), old(Recs(ports))[i], cfg).0
      ensures Recs(ports) == old(Recs(ports))[i := Updated(old(Rec()), old(Recs(ports))[i], cfg)]
      ensures store.recs == SavePort(Filed(old(Rec()), old(store.recs), old(Recs(ports))[i], cfg).1,
                                     l2, cfg.inst, Recs(ports)[i])
    {
      var p := ports[i];
      assert p.Rec() == Recs(ports)[i];
      ConfirmIfChanged(store, p, cfg);
      p.Assign(cfg, name, vid);
      assert Recs(ports) == old(Recs(ports))[i := p.Rec()];
      store.SetBPort(l2, cfg.inst, p);
    }

    method ConfirmIfChanged(store: PsmStore, p: Port, cfg: PortCfg)
      requires p in ports
      modifies this`upstream, store, p
      ensures (upstream, store.recs) == Filed(old(Rec()), old(store.recs), old(p.Rec()), cfg)
      ensures p.Rec() == if Changed(old(p.Rec()), cfg) then Restructured(old(p.Rec()), cfg) else old(p.Rec())
    {
      if cfg.linkName != p.linkName || cfg.linkType != p.linkType
         || cfg.enabled != p.enabled || cfg.mode != p.mode {
        ConfirmStructureUpdate(store, p, cfg);
      }
    }
  }

  ghost function PortsOf(bridges: seq<Bridge>): (r: set<Port>)
    reads bridges
    ensures forall i, p :: 0 <= i < |bridges| && p in bridges[i].ports ==> p in r
  {
    set b, p | b in bridges && p in b.ports :: p
  }

  ghost function BridgeRecs(bridges: seq<Bridge>): seq<BridgeRec>
    reads bridges, PortsOf(bridges)
  {
    seq(|bridges|, i requires 0 <= i < |bridges| reads bridges, PortsOf(bridges) => bridges[i].Rec())
  }

  /** CantFind without the bridge or without the port. */
  ghost function SetStatus(bridges: seq<BridgeRec>, br: nat, inst: nat): Status {
    var i := FindBridge(bridges, br);
    if i == |bridges| || IndexOf(bridges[i].ports, inst) == |bridges[i].ports| then CantFind else Success
  }

  /** g_Bridgings and g_brInfo. */
  class BridgeManager {
    const store: PsmStore
    var bridges: seq<Bridge>
    var low: int
    var high: int
    var nxtVid: int
    var nxtBrId: nat
    var prefix: string

    /** No object is shared. */
    ghost predicate Valid()
      reads this, bridges
    {
      (forall i, j :: 0 <= i < j < |bridges| ==> bridges[i] != bridges[j]) &&
      (forall i :: 0 <= i < |bridges| ==> bridges[i].Valid()) &&
      (forall i, j, p :: 0 <= i < |bridges| && 0 <= j < |bridges| && i != j && p in bridges[i].ports ==>
        p !in bridges[j].ports)
    }

    ghost function View(): State
      reads this, store, bridges, PortsOf(bridges)
    {
      State(BridgeRecs(bridges), store.recs, low, high, nxtVid, nxtBrId, prefix)
    }

    /** The settings that _Psm_GetDefaultSetting leaves, over an empty table. */
    constructor (store: PsmStore, low: int, high: int, prefix: string)
      ensures Valid() && fresh(this) && this.store == store
      ensures View() == EmptyTable(store.recs, low, high, prefix)
    {
      this.store := store;
      this.low, this.high, this.prefix := low, high, prefix;
      nxtVid, nxtBrId, bridges := low, DMSB_BRID_LOWBOUND, [];
    }

    /** getBridge */
    method GetBridge(inst: nat) returns (i: nat)
      ensures i == FindBridge(BridgeRecs(bridges), inst)
      ensures BridgeRecs(bridges) == old(BridgeRecs(bridges))
    {
      i := 0;
      while i < |bridges| && bridges[i].inst != inst
        invariant i <= |bridges|
        invariant forall j :: 0 <= j < i ==> bridges[j].inst != inst
      {
        i := i + 1;
      }
      ghost var k := FindBridge(BridgeRecs(bridges), inst);
      assert i < |bridges| ==> BridgeRecs(bridges)[i].inst == inst;
      assert k < |bridges| ==> bridges[k].inst == inst;
      assert forall j :: 0 <= j < k ==> bridges[j].inst == BridgeRecs(bridges)[j].inst;
    }

    /** _COSA_GetNextVlanId */
    method GetNextVlanId() returns (r: Option<int>)
      modifies this`nxtVid
      ensures r == NextVid(Vids(old(BridgeRecs(bridges))), old(nxtVid), low, high)
      ensures nxtVid == if r.Some? then r.value + 1 else old(nxtVid)
      ensures BridgeRecs(bridges) == old(BridgeRecs(bridges))
    {
      ghost var vids := Vids(BridgeRecs(bridges));
      assert forall j :: 0 <= j < |bridges| ==> vids[j] == bridges[j].vid;
      var found, vid, i, cur := true, nxtVid, 0, 0;
      while i <= |bridges|
        invariant i <= |bridges| + 1 && found && nxtVid == old(nxtVid)
        invariant SearchVid(vids, vid, |bridges| + 1 - i, low, high) == NextVid(vids, nxtVid, low, high)
      {
        cur := 0;
        if vid >= high {
          vid := low;
        }
        found := false;
        while cur < |bridges|
          invariant cur <= |bridges|
          invariant forall j :: 0 <= j < cur ==> vids[j] != vid
        {
          if bridges[cur].vid == vid {
            found := true;
            break;
          }
          cur := cur + 1;
        }
        if !found {
          nxtVid := vid + 1;
          return Some(vid);
        }
        assert vids[cur] in vids;
        vid := vid + 1;
        i := i + 1;
      }
      return None;
    }

    /** _COSA_GetNewBrName */
    method GetNewBrName() returns (r: Option<string>)
      modifies this`nxtBrId
      ensures var n := NextName(Names(old(BridgeRecs(bridges))), prefix, old(nxtBrId));
        r == (if n.Some? then Some(BridgeName(prefix, n.value)) else None) &&
        nxtBrId == (if n.Some? then n.value + 1 else old(nxtBrId))
      ensures BridgeRecs(bridges) == old(BridgeRecs(bridges))
    {
      var found, brId := FreeName();
      if !found {
        return None;
      }
      nxtBrId := brId + 1;
      return Some(BridgeName(prefix, brId));
    }

    /** The outer loop of _COSA_GetNewBrName. */
    method FreeName() returns (found: bool, brId: nat)
      ensures NextName(Names(old(BridgeRecs(bridges))), prefix, nxtBrId) == if found then Some(brId) else None
    {
      ghost var names := Names(BridgeRecs(bridges));
      assert forall j :: 0 <= j < |bridges| ==> names[j] == bridges[j].name;
      brId := nxtBrId;
      var left: nat := |bridges| + 1;
      while left > 0
        invariant SearchName(names, prefix, brId, left) == NextName(names, prefix, nxtBrId)
      {
        var taken := NameOccurs(BridgeName(prefix, brId));
        SearchNameStep(names, prefix, brId, left);
        assert taken <==> Blocked(names, BridgeName(prefix, brId));
        if !taken {
          return true, brId;
        }
        brId := brId + 1;
        left := left - 1;
      }
      return false, brId;
    }

    /** The inner loop of _COSA_GetNewBrName: strstr against every bridge name. */
    method NameOccurs(name: string) returns (found: bool)
      ensures found <==> exists j :: 0 <= j < |bridges| && Contains(bridges[j].name, name)
    {
      for cur := 0 to |bridges|
        invariant forall j :: 0 <= j < cur ==> !Contains(bridges[j].name, name)
      {
        if Contains(bridges[cur].name, name) {
          return true;
        }
      }
      return false;
    }

    // ---------------------------------------------------------- operations of the data model

    /** CosaDmlBrgAddEntry */
    method BrgAddEntry(cfg: BridgeCfg) returns (status: Status)
      requires Valid()
      modifies this`bridges, this`nxtVid, this`nxtBrId, store
      ensures Valid() && forall b :: b in bridges ==> b in old(bridges) || fresh(b)
      ensures View() == AddEntry(old(View()), cfg).0 && status == AddEntry(old(View()), cfg).1
    {
      hide NextVid, NextName, SaveBridge, Vids, Names, BridgeName;
      var vid := GetNextVlanId();
      if vid == None {
        return Failure;
      }
      var name := GetNewBrName();
      if name == None {
        return Failure;
      }
      PushBridge(NewBridge(cfg, vid.value, name.value));
      return Success;
    }

    /** Append the bridge and write its records. */
    method PushBridge(r: BridgeRec)
      requires Valid() && r.ports == []
      modifies this`bridges, store
      ensures Valid() && forall b :: b in bridges ==> b in old(bridges) || fresh(b)
      ensures BridgeRecs(bridges) == old(BridgeRecs(bridges)) + [r]
      ensures store.recs == SaveBridge(old(store.recs), r)
    {
      var b := new Bridge(r);
      AppendBridge(b);
      store.SetBr(b);
    }

    /** CosaDmlBrgDelEntry and _COSA_DelBr */
    method BrgDelEntry(inst: nat) returns (status: Status)
      requires Valid()
      modifies this`bridges, store
      ensures Valid() && forall b :: b in bridges ==> b in old(bridges)
      ensures View() == DelEntry(old(View()), inst).0 && status == DelEntry(old(View()), inst).1
    {
      var i := GetBridge(inst);
      if i == |bridges| {
        return CantFind;
      }
      assert bridges[i].Rec() == BridgeRecs(bridges)[i];
      if !bridges[i].allowDelete {
        return NotSupported;
      }
      if bridges[i].numPorts != 0 {
        return Success;
      }
      PopBridge(i);
      return Success;
    }

    method PopBridge(i: nat)
      requires Valid() && i < |bridges|
      modifies this`bridges, store
      ensures Valid() && forall b :: b in bridges ==> b in old(bridges)
      ensures BridgeRecs(bridges) == DropAt(old(BridgeRecs(bridges)), i)
      ensures store.recs == EraseBridge(old(store.recs), old(bridges[i].l2))
    {
      var l2 := bridges[i].l2;
      DropBridge(i);
      store.DelBr(l2);
    }

    /** AnscSListPopEntryByLink */
    method DropBridge(i: nat)
      requires Valid() && i < |bridges|
      modifies this`bridges
      ensures Valid() && forall b :: b in bridges ==> b in old(bridges)
      ensures BridgeRecs(bridges) == DropAt(old(BridgeRecs(bridges)), i)
    {
      bridges := DropAt(bridges, i);
      assert forall j :: 0 <= j < |bridges| ==> bridges[j] == old(bridges)[if j < i then j else j + 1];
      assert forall j :: 0 <= j < |bridges| ==> bridges[j].Rec() == old(bridges[if j < i then j else j + 1].Rec());
    }

    /** CosaDmlBrgPortAddEntry */
    method BrgPortAddEntry(br: nat, cfg: PortCfg) returns (status: Status)
      requires Valid()
      modifies bridges, store
      ensures Valid()
      ensures View() == Apply(old(View()), AddPortTo(br, cfg))
      ensures status == if FindBridge(old(BridgeRecs(bridges)), br) == |bridges| then CantFind else Success
    {
      var i := GetBridge(br);
      if i == |bridges| {
        return CantFind;
      }
      AddPortAt(i, cfg);
      return Success;
    }

    method AddPortAt(i: nat, cfg: PortCfg)
      requires Valid() && i < |bridges|
      modifies bridges[i], store
      ensures Valid()
      ensures var was := old(BridgeRecs(bridges));
        BridgeRecs(bridges) == was[i := AddPort(was[i], old(store.recs), cfg).0] &&
        store.recs == AddPort(was[i], old(store.recs), cfg).1
    {
      var b := bridges[i];
      assert b.Rec() == BridgeRecs(bridges)[i];
      b.SwBrAddPort(store, cfg);
      OnlyBridgeChanged(i);
    }

    /** CosaDmlBrgPortDelEntry: SWBrRemovePort reports success whatever _COSA_DelBPort said. */
    method BrgPortDelEntry(br: nat, portInst: nat) returns (status: Status)
      requires Valid()
      modifies bridges, store
      ensures Valid()
      ensures View() == Apply(old(View()), DelPortFrom(br, portInst))
      ensures status == if FindBridge(old(BridgeRecs(bridges)), br) == |bridges| then CantFind else Success
    {
      var i := GetBridge(br);
      if i == |bridges| {
        return CantFind;
      }
      DelPortAt(i, portInst);
      return Success;
    }

    method DelPortAt(i: nat, portInst: nat)
      requires Valid() && i < |bridges|
      modifies bridges[i], store
      ensures Valid()
      ensures var was := old(BridgeRecs(bridges));
        BridgeRecs(bridges) == was[i := DelPort(was[i], old(store.recs), portInst).0] &&
        store.recs == DelPort(was[i], old(store.recs), portInst).1
    {
      var b := bridges[i];
      assert b.Rec() == BridgeRecs(bridges)[i];
      var _ := b.DelBPort(store, portInst);
      OnlyBridgeChanged(i);
    }

    /** CosaDmlBrgPortSetCfg */
    method BrgPortSetCfg(br: nat, cfg: PortCfg) returns (status: Status)
      requires Valid()
      modifies bridges, PortsOf(bridges), store
      ensures Valid()
      ensures View() == Apply(old(View()), ConfigurePort(br, cfg))
      ensures status == SetStatus(old(BridgeRecs(bridges)), br, cfg.inst)
    {
      hide SetPort, IndexOf;
      var i := GetBridge(br);
      if i == |bridges| {
        return CantFind;
      }
      status := SetPortAt(i, cfg);
    }

    method SetPortAt(i: nat, cfg: PortCfg) returns (status: Status)
      requires Valid() && i < |bridges|
      modifies bridges[i], bridges[i].ports, store
      ensures Valid()
      ensures var was := old(BridgeRecs(bridges));
        BridgeRecs(bridges) == was[i := SetPort(was[i], old(store.recs), cfg).0] &&
        store.recs == SetPort(was[i], old(store.recs), cfg).1 &&
        status == if IndexOf(was[i].ports, cfg.inst) == |was[i].ports| then CantFind else Success
    {
      var b := bridges[i];
      assert b.Rec() == BridgeRecs(bridges)[i];
      status := b.PortSetCfg(store, cfg);
      OnlyBridgeChanged(i);
    }

    /** CosaDmlBrgSetCfg */
    method BrgSetCfg(cfg: BridgeCfg) returns (status: Status)
      requires Valid()
      modifies bridges, store
      ensures Valid()
      ensures View() == Apply(old(View()), ConfigureBridge(cfg))
      ensures status == if FindBridge(old(BridgeRecs(bridges)), cfg.inst) == |bridges| then CantFind else Success
    {
      var i := GetBridge(cfg.inst);
      if i == |bridges| {
        return CantFind;
      }
      assert bridges[i].Rec() == BridgeRecs(bridges)[i];
      bridges[i].Configure(store, cfg);
      OnlyBridgeChanged(i);
      return Success;
    }

    /** _COSA_UpdateBrVLANID, reached from SWBrAddVlan */
    method UpdateBrVlanId(br: nat, vid: int) returns (status: Status)
      requires Valid()
      modifies bridges, store
      ensures Valid()
      ensures View() == Apply(old(View()), ChangeVid(br, vid))
      ensures status == if FindBridge(old(BridgeRecs(bridges)), br) == |bridges| then CantFind else Success
    {
      var i := GetBridge(br);
      if i == |bridges| {
        return CantFind;
      }
      assert bridges[i].Rec() == BridgeRecs(bridges)[i];
      bridges[i].ChangeVlanId(store, vid);
      OnlyBridgeChanged(i);
      return Success;
    }

    /** CosaDmlBrgInit over what PSM lists: bridges, and under each one its ports. */
    method BrgInit(found: Listing)
      requires Valid() && bridges == []
      modifies this`bridges, this`nxtVid, this`nxtBrId
      ensures Valid()
      ensures View() == LoadTable(old(View()), found)
    {
      for i := 0 to |found|
        invariant Valid()
        invariant View() == LoadTable(old(View()), found[..i])
      {
        LoadEntry(found[i].0, found[i].1);
        assert found[..i + 1][..i] == found[..i];
      }
      assert found[..|found|] == found;
    }

    method LoadEntry(l2: nat, insts: seq<nat>)
      requires Valid()
      modifies this`bridges, this`nxtVid, this`nxtBrId
      ensures Valid()
      ensures View() == LoadNext(old(View()), (l2, insts))
    {
      if l2 == 0 {
        assert BridgeRecs(bridges) == old(BridgeRecs(bridges));
      } else {
        LoadFound(l2, insts);
      }
    }

    method LoadFound(l2: nat, insts: seq<nat>)
      requires Valid()
      modifies this`bridges, this`nxtVid, this`nxtBrId
      ensures Valid()
      ensures var r := LoadBridge(store.recs, l2, insts);
        BridgeRecs(bridges) == old(BridgeRecs(bridges)) + [r] &&
        nxtBrId == NextBrId(r.name, prefix, old(nxtBrId)) &&
        nxtVid == if r.vid >= old(nxtVid) && r.vid < high then r.vid + 1 else old(nxtVid)
    {
      var b := ReadEntry(store, l2, insts);
      AddLoaded(b);
    }

    method AddLoaded(b: Bridge)
      requires Valid() && b.Valid() && b !in bridges
      requires forall p :: p in b.ports ==> p !in PortsOf(bridges)
      modifies this`bridges, this`nxtVid, this`nxtBrId
      ensures Valid() && BridgeRecs(bridges) == old(BridgeRecs(bridges)) + [b.Rec()]
      ensures nxtBrId == NextBrId(b.Rec().name, prefix, old(nxtBrId))
      ensures nxtVid == if b.Rec().vid >= old(nxtVid) && b.Rec().vid < high then b.Rec().vid + 1 else old(nxtVid)
    {
      CountLoaded(b.name, b.vid);
      AppendBridge(b);
    }

    /** The counter updates of _Psm_GetBr and CosaDmlBrgInit. */
    method CountLoaded(name: string, vid: int)
      modifies this`nxtVid, this`nxtBrId
      ensures nxtBrId == NextBrId(name, prefix, old(nxtBrId))
      ensures nxtVid == if vid >= old(nxtVid) && vid < high then vid + 1 else old(nxtVid)
      ensures BridgeRecs(bridges) == old(BridgeRecs(bridges))
    {
      nxtBrId := NextBrId(name, prefix, nxtBrId);
      if vid >= nxtVid && vid < high {
        nxtVid := vid + 1;
      }
    }

    /** _Psm_GetBr and the port loop, on new objects. */
    static method ReadEntry(store: PsmStore, l2: nat, insts: seq<nat>) returns (b: Bridge)
      ensures fresh(b) && b.Valid() && forall p :: p in b.ports ==> fresh(p)
      ensures b.Rec() == LoadBridge(store.recs, l2, insts)
    {
      b := new Bridge(ReadBridge(store.recs, l2));
      b.LoadPortList(store, insts);
    }

    method AppendBridge(b: Bridge)
      requires Valid() && b.Valid() && b !in bridges
      requires forall p :: p in b.ports ==> p !in PortsOf(bridges)
      modifies this`bridges
      ensures Valid() && bridges == old(bridges) + [b]
      ensures BridgeRecs(bridges) == old(BridgeRecs(bridges)) + [b.Rec()]
    {
      bridges := bridges + [b];
      assert forall j :: 0 <= j < |bridges| - 1 ==> bridges[j].Rec() == old(bridges[j].Rec());
    }

    /** One bridge was changed and took no port of another one: the table is still made of
        separate objects, and the other bridges read as before. */
    twostate lemma OnlyBridgeChanged(i: nat)
      requires old(Valid()) && i < |bridges| && bridges == old(bridges)
      requires forall j :: 0 <= j < |bridges| && j != i ==> unchanged(bridges[j])
      requires forall p :: p in old(PortsOf(bridges)) && p !in old(bridges[i].ports) ==> unchanged(p)
      requires bridges[i].Valid()
      requires forall p :: p in bridges[i].ports ==> p in old(bridges[i].ports) || p !in old(PortsOf(bridges))
      ensures Valid()
      ensures BridgeRecs(bridges) == old(BridgeRecs(bridges))[i := bridges[i].Rec()]
    {
      forall j | 0 <= j < |bridges| && j != i
        ensures bridges[j].Valid() && bridges[j].ports == old(bridges[j].ports)
        ensures bridges[j].Rec() == old(bridges[j].Rec())
      {
        assert unchanged(bridges[j]);
        assert forall p :: p in bridges[j].ports ==> p in old(PortsOf(bridges)) && p !in old(bridges[i].ports);
        var ports := bridges[j].ports;
        forall k | 0 <= k < |ports| ensures ports[k].Rec() == old(ports[k].Rec()) {
          assert ports[k] in ports;
          assert unchanged(ports[k]);
        }
        assert Recs(ports) == old(Recs(ports));
      }
    }
  }
}
