/** Concrete states in which the properties fail that the theorems of the other modules state
    under a condition. The bridge examples start from tables that satisfy the invariant. */
module Examples {
  import opened Text
  import opened BridgeData
  import opened BridgeSteps
  import opened BridgeInvariant
  import opened BridgeState
  import opened BridgeRuns
  import opened BridgeReload
  import opened Wrappers
  import Syscfg
  import Atomicity
  import LanAtomicity
  import Bits
  import LanCheck
  import IpList
  import Pool

  const BRIDGE := BridgeRec(1, 1, "", "br0", "Bridge", Q2005, 100, true, false, true, true, 0, [])

  const ETH0 := PortCfg(1, "eth0", "eth0", Eth, false, false, Tagging, true, false, true)

  ghost function FirstRecords(): Psm { SaveBridge(map[], BRIDGE) }

  /** A bridge with the one port of the given configuration. */
  ghost function WithPort(cfg: PortCfg): (BridgeRec, Psm) {
    AddPort(BRIDGE, FirstRecords(), cfg)
  }

  lemma NotSwitch()
    ensures !Contains("eth0", "sw")
  {
    var s := "eth0";
    forall i | 0 <= i <= |s| ensures !OccursAt(s, "sw", i) {
      assert i + 2 <= |s| ==> s[i..i + 2][0] != "sw"[0];
    }
  }

  lemma WithPortInv(cfg: PortCfg)
    requires cfg.linkName == "eth0"
    ensures BridgeInv(WithPort(cfg).0, WithPort(cfg).1, Exact)
    ensures WithPort(cfg).0.ports == [NewPort(BRIDGE, cfg)]
    ensures IndexOf(WithPort(cfg).0.ports, cfg.inst) == 0
    ensures Enumerates([cfg.inst], WithPort(cfg).0.ports)
  {
    NewBridgeInv(State([], map[], 1, 2, 1, 0, "br"), BRIDGE, Exact);
    AddPortKeepsInv(BRIDGE, FirstRecords(), cfg, Exact);
    var ports := WithPort(cfg).0.ports;
    assert ports[0].inst == cfg.inst;
    assert forall n :: n in [cfg.inst] <==> HasPort(ports, n);
  }

  lemma MisfiledAlone(b: BridgeRec, psm: Psm, p: PortRec, cfg: PortCfg)
    requires Index(b, psm) && b.ports == [p] && p.inst == cfg.inst && TokenFree(cfg.linkName)
    requires Misfiles(p, cfg)
    ensures !Index(SetPort(b, psm, cfg).0, SetPort(b, psm, cfg).1)
  {
    assert b.ports[0].inst == cfg.inst;
    assert IndexOf(b.ports, cfg.inst) == 0 && DropAt(b.ports, 0) == [];
    SetPortKeepsIndexIff(b, psm, cfg);
  }

  /** A number that is taken: the records of the first port are those of the second. */
  lemma RepeatedPortNumber()
    ensures var (b, psm) := WithPort(ETH0);
      var (c, psm2) := AddPort(b, psm, ETH0.(linkName := "eth1"));
      BridgeInv(b, psm, Exact) && !DistinctPorts(c.ports) && !Records(c, psm2, Normalised)
  {
    var (b, psm) := WithPort(ETH0);
    var (c, psm2) := AddPort(b, psm, ETH0.(linkName := "eth1"));
    WithPortInv(ETH0);
    assert c.ports[0].inst == c.ports[1].inst;
  }

  /** A link name with a blank in it is filed as two tokens, and neither is its member string. */
  lemma BlankInLinkName()
    ensures var cfg := ETH0.(linkName := "e 0");
      var (b, psm) := AddPort(BRIDGE, FirstRecords(), cfg);
      Index(BRIDGE, FirstRecords()) && !Index(b, psm)
  {
    var cfg := ETH0.(linkName := "e 0");
    var p := NewPort(BRIDGE, cfg);
    var (b, psm) := AddPort(BRIDGE, FirstRecords(), cfg);
    NewBridgeInv(State([], map[], 1, 2, 1, 0, "br"), BRIDGE, Exact);
    BlankIsNotSwitch();
    assert b.ports[0] == p && MembersOf(p) == Some(EthList);
    assert Fold(p) in ActiveSet(b.ports, EthList);
    assert Member(p)[1] == ' ' && Fold(p)[1] == LowerChar(' ') == DELIM;
    BlankInNoToken(ListAt(psm, 1, EthList), Fold(p));
  }

  lemma BlankIsNotSwitch()
    ensures !Contains("e 0", "sw")
  {
    var s := "e 0";
    forall i | 0 <= i <= |s| ensures !OccursAt(s, "sw", i) {
      assert i + 2 <= |s| ==> s[i..i + 2][0] != "sw"[0];
    }
  }

  /** No list has a token with a blank in it. */
  lemma BlankInNoToken(list: string, token: string)
    requires DELIM in token
    ensures token !in TokenSet(list)
  {
    TokensAreWords(list);
    forall i | 0 <= i < |Tokens(list)| ensures Lower(Tokens(list)[i]) != token {
      var t := Tokens(list)[i];
      assert t in Tokens(list);
      forall k | 0 <= k < |t| ensures Lower(t)[k] != DELIM {}
    }
  }

  /** A bridge with the number 0 is not loaded. */
  lemma BridgeZeroIsLost(psm: Psm, low: int, high: int, prefix: string, ports: seq<nat>)
    ensures LoadTable(EmptyTable(psm, low, high, prefix), [(0, ports)]).bridges == []
  {
    assert [(0, ports)][..0] == [];
  }

  /** An Ethernet port that is turned into a USB port stays in the Ethernet list. */
  lemma EthToUsbMisfiles()
    ensures var (b, psm) := WithPort(ETH0);
      BridgeInv(b, psm, Exact) &&
      !Index(SetPort(b, psm, ETH0.(linkType := Usb)).0, SetPort(b, psm, ETH0.(linkType := Usb)).1)
  {
    WithPortInv(ETH0);
    NotSwitch();
    MisfiledAlone(WithPort(ETH0).0, WithPort(ETH0).1, NewPort(BRIDGE, ETH0), ETH0.(linkType := Usb));
  }

  /** A port that only becomes a management port stays in its list. */
  lemma ManagementMisfiles()
    ensures var (b, psm) := WithPort(ETH0);
      BridgeInv(b, psm, Exact) &&
      !Index(SetPort(b, psm, ETH0.(mgt := true)).0, SetPort(b, psm, ETH0.(mgt := true)).1)
  {
    WithPortInv(ETH0);
    NotSwitch();
    MisfiledAlone(WithPort(ETH0).0, WithPort(ETH0).1, NewPort(BRIDGE, ETH0), ETH0.(mgt := true));
  }

  /** A port that only stops being upstream does not force the Link record. */
  lemma QuietUpstreamChange()
    ensures var (b, psm) := WithPort(ETH0.(upstream := true));
      BridgeInv(b, psm, Exact) && !Forced(SetPort(b, psm, ETH0).0, SetPort(b, psm, ETH0).1)
  {
    var (b, psm) := WithPort(ETH0.(upstream := true));
    WithPortInv(ETH0.(upstream := true));
    SetPortLinkIff(b, psm, ETH0);
  }

  /** An Ethernet and a MoCA port with one link name put it into two lists. */
  lemma OneNameInTwoLists()
    ensures var (b, psm) := WithPort(ETH0);
      var (c, psm2) := AddPort(b, psm, ETH0.(inst := 2, linkType := Moca));
      BridgeInv(c, psm2, Exact) && InTwoLists(c.ports)
  {
    var (b, psm) := WithPort(ETH0);
    WithPortInv(ETH0);
    AddSecond(b, psm, NewPort(BRIDGE, ETH0), ETH0.(inst := 2, linkType := Moca));
  }

  lemma AddSecond(b: BridgeRec, psm: Psm, p: PortRec, cfg: PortCfg)
    requires BridgeInv(b, psm, Exact) && b.ports == [p] && Active(p)
    requires p.linkName == cfg.linkName == "eth0" && p.linkType == Eth && cfg.linkType == Moca
    requires p.mode == cfg.mode && p.inst == 1 && cfg.inst == 2 && cfg.enabled && !cfg.mgt
    ensures BridgeInv(AddPort(b, psm, cfg).0, AddPort(b, psm, cfg).1, Exact)
    ensures InTwoLists(AddPort(b, psm, cfg).0.ports)
  {
    OtherListIsApart(b.ports, p, cfg);
    AddPortKeepsInv(b, psm, cfg, Exact);
    TwinsInTwoLists(p, NewPort(b, cfg));
    assert b.ports + [NewPort(b, cfg)] == [p, NewPort(b, cfg)];
  }

  lemma OtherListIsApart(ports: seq<PortRec>, p: PortRec, cfg: PortCfg)
    requires ports == [p] && p.linkName == "eth0" && p.linkType == Eth && p.inst == 1
    requires cfg.linkName == "eth0" && cfg.linkType == Moca && cfg.inst == 2
    ensures !HasPort(ports, 2)
    ensures Apart(ports, ListOf(cfg.linkName, cfg.linkType), Lower(MemberText(cfg.linkName, cfg.mode)))
  {
    NotSwitch();
  }

  lemma TwinsInTwoLists(p: PortRec, q: PortRec)
    requires Active(p) && Active(q) && p.linkName == q.linkName == "eth0" && p.mode == q.mode
    requires p.linkType == Eth && q.linkType == Moca
    ensures InTwoLists([p, q])
  {
    NotSwitch();
    var ports := [p, q];
    assert ports[0] in ports && ports[1] in ports;
    assert MembersOf(p) == Some(EthList) && MembersOf(q) == Some(MocaList) && Fold(p) == Fold(q);
  }

  /** Of two ports with one link name, deleting one unlists the other. */
  lemma SharedTokenIsLost()
    ensures var (b, psm) := WithPort(ETH0);
      var (c, psm2) := AddPort(b, psm, ETH0.(inst := 2));
      Index(c, psm2) && !Index(DelPort(c, psm2, 1).0, DelPort(c, psm2, 1).1)
  {
    var (b, psm) := WithPort(ETH0);
    var (c, psm2) := AddPort(b, psm, ETH0.(inst := 2));
    WithPortInv(ETH0);
    AddPortKeepsIndex(b, psm, ETH0.(inst := 2));
    TwinsShare(c.ports, NewPort(BRIDGE, ETH0), NewPort(b, ETH0.(inst := 2)));
    DelPortKeepsIndexIff(c, psm2, 1);
  }

  /** Changing the mode of one of them has the same effect. */
  lemma SharedTokenIsRenamed()
    ensures var (b, psm) := WithPort(ETH0);
      var (c, psm2) := AddPort(b, psm, ETH0.(inst := 2));
      var cfg := ETH0.(mode := PassThrough);
      Index(c, psm2) && !Index(SetPort(c, psm2, cfg).0, SetPort(c, psm2, cfg).1)
  {
    var (b, psm) := WithPort(ETH0);
    var (c, psm2) := AddPort(b, psm, ETH0.(inst := 2));
    var p, q := NewPort(BRIDGE, ETH0), NewPort(b, ETH0.(inst := 2));
    WithPortInv(ETH0);
    AddPortKeepsIndex(b, psm, ETH0.(inst := 2));
    TwinsShare(c.ports, p, q);
    RenameDisturbs(p, DropAt(c.ports, 0), ETH0.(mode := PassThrough));
    SetPortKeepsIndexIff(c, psm2, ETH0.(mode := PassThrough));
  }

  lemma RenameDisturbs(p: PortRec, rest: seq<PortRec>, cfg: PortCfg)
    requires SharesToken(p, rest) && p.linkName == cfg.linkName && p.mode == Tagging && cfg.mode == PassThrough
    ensures Disturbs(p, rest, cfg)
  {
    assert |MemberText(cfg.linkName, cfg.mode)| == |Member(p)| + 2;
  }

  lemma TwinsShare(ports: seq<PortRec>, p: PortRec, q: PortRec)
    requires ports == [p, q] && p.inst == 1
    requires p.linkName == q.linkName == "eth0" && p.linkType == q.linkType == Eth && p.mode == q.mode
    requires Active(q)
    ensures IndexOf(ports, 1) == 0 && SharesToken(p, DropAt(ports, 0))
  {
    NotSwitch();
    assert ports[0].inst == 1;
    assert DropAt(ports, 0) == [q];
    assert q in DropAt(ports, 0) && MembersOf(q) == Some(EthList) == MembersOf(p) && Fold(q) == Fold(p);
  }

  /** A VLAN entry can give two bridges one id. */
  lemma UncheckedVid(s: State)
    requires s.bridges == [BRIDGE, BRIDGE.(inst := 2, l2 := 2, vid := 101)]
    ensures DistinctVids(s.bridges) && !DistinctVids(Apply(s, ChangeVid(2, 100)).bridges)
  {
    assert FindBridge(s.bridges, 2) == 1 by {
      assert s.bridges[1].inst == 2 && s.bridges[0].inst == 1;
    }
    ChangeVidKeepsDistinctIff(s, 2, 100);
    assert s.bridges[0].vid == 100;
  }

  /** A reload of a bridge with one port that does not satisfy the invariant to the letter. */
  lemma NotSettled(cfg: PortCfg)
    requires cfg.linkName == "eth0" && (cfg.linkType == Usb || (!cfg.enabled && !cfg.upstream))
    ensures var (b, psm) := WithPort(cfg);
      BridgeInv(b, psm, Exact) && !BridgeInv(LoadBridge(psm, 1, [cfg.inst]), psm, Exact)
  {
    var (b, psm) := WithPort(cfg);
    WithPortInv(cfg);
    OnePortUnsettled(b, NewPort(BRIDGE, cfg));
    LoadReloads(b, psm, [cfg.inst], Exact);
    ReloadKeepsInvIff(b, psm, LoadBridge(psm, 1, [cfg.inst]));
  }

  lemma OnePortUnsettled(b: BridgeRec, p: PortRec)
    requires b.ports == [p] && (p.linkType == Usb || (b.upstream && !p.upstream))
    ensures !Settled(b)
  {
    assert p in b.ports;
  }

  /** A USB port loses its type over a reload, and its record no longer says what it is. */
  lemma UsbPortIsNotSettled()
    ensures var (b, psm) := WithPort(ETH0.(linkType := Usb));
      BridgeInv(b, psm, Exact) && !BridgeInv(LoadBridge(psm, 1, [1]), psm, Exact)
  {
    NotSettled(ETH0.(linkType := Usb));
  }

  /** A disabled port that is not upstream leaves the flag alone when it is added, and a reload
      clears it. */
  lemma DisabledPortIsNotSettled()
    ensures var (b, psm) := WithPort(ETH0.(enabled := false));
      BridgeInv(b, psm, Exact) && !BridgeInv(LoadBridge(psm, 1, [1]), psm, Exact)
  {
    NotSettled(ETH0.(enabled := false));
  }

  /** An unknown standard comes back as 802.1D, which the record does not say. */
  lemma OtherStandardIsNotSettled()
    ensures var b := BRIDGE.(standard := OtherStandard);
      var psm := SaveBridge(map[], b);
      BridgeInv(b, psm, Exact) && !BridgeInv(LoadBridge(psm, 1, []), psm, Exact)
  {
    var b := BRIDGE.(standard := OtherStandard);
    var psm := SaveBridge(map[], b);
    NewBridgeInv(State([], map[], 1, 2, 1, 0, "br"), b, Exact);
    LoadReloads(b, psm, [], Exact);
    ReloadKeepsInvIff(b, psm, LoadBridge(psm, 1, []));
  }

  // ---------------------------------------------------------------- webconfig

  /** A count without slots: whatever fails after two entries were written leaves a slot. */
  lemma CountWithoutSlots(doc: seq<Syscfg.Client>)
    requires |doc| >= 2
    ensures var db := map[Syscfg.NumHosts := "1"];
      Syscfg.Visible(Atomicity.Recovered(db, doc, Syscfg.Applying(|Syscfg.Cache(doc)|))) != Syscfg.Visible(db)
  {
    var db := map[Syscfg.NumHosts := "1"];
    assert Syscfg.HostCount(db) == 1;
    assert !Atomicity.Complete(Syscfg.SlotAt(db, 1));
    Atomicity.NotWellFormedIsDamaged(db, doc);
  }

  lemma OneEntry(c: Syscfg.Client)
    ensures |Syscfg.Cache([c])| == 4
    ensures Atomicity.DocTable([c]).count == "1"
  {
    assert Syscfg.CacheSlots([c]) == Syscfg.CacheSlots([]) + Syscfg.CacheSlot(c, 1);
  }

  /** An empty table, a document that is applied, bridge mode, and a second request: its
      refusal empties the table again. */
  lemma RefusalEmptiesTable(c: Syscfg.Client)
    ensures var db := map[Syscfg.NumHosts := "0"];
      var now := Atomicity.InBridgeMode(db, [c], "1");
      Syscfg.BridgeMode(now) && Syscfg.Visible(now).count == "1" &&
      Syscfg.Visible(Atomicity.RolledBack(now, Syscfg.Backup(db), 4)).count == "0"
  {
    var db := map[Syscfg.NumHosts := "0"];
    assert Syscfg.HostCount(db) == 0;
    OneEntry(c);
    Atomicity.RefusalUndoesLastCommit(db, [c], "1");
  }

  /** A LAN request that is refused instead puts the old count over the new slots. */
  lemma LanRefusalHitsClients(c: Syscfg.Client)
    ensures var db := map[Syscfg.NumHosts := "0"];
      var now := Atomicity.InBridgeMode(db, [c], "1");
      Syscfg.BridgeMode(now) && !LanAtomicity.SameReads(Syscfg.SetAll(now, Syscfg.Backup(db)), now)
  {
    var db := map[Syscfg.NumHosts := "0"];
    var now := Atomicity.InBridgeMode(db, [c], "1");
    assert Syscfg.HostCount(db) == 0;
    Atomicity.RefusalUndoesLastCommit(db, [c], "1");
    Syscfg.BackupNames(db, Syscfg.NumHosts);
    Syscfg.SetAllGet(db, now, Syscfg.Backup(db), Syscfg.NumHosts);
    assert Syscfg.Get(now, Syscfg.NumHosts) == Syscfg.Visible(now).count;
  }

  /** The LAN keys of an empty database appear after a request that failed. */
  lemma NoLanKeys(p: LanAtomicity.LanParam)
    requires forall k :: k in LanAtomicity.LAN_KEYS ==> LanAtomicity.LanText(p, k) != ""
    ensures !LanAtomicity.SameReads(LanAtomicity.LanRecovered(map[], p, Syscfg.Applying(1)), map[])
  {
    LanAtomicity.LanAtomicIff(map[], p, Syscfg.Applying(1));
    assert LanAtomicity.LAN_KEYS[..1][0] == Syscfg.LanIp;
  }

  // ---------------------------------------------------------------- LAN parameters

  const GW: LanCheck.Address := 0x0A000001
  const HOST: LanCheck.Address := 0x0A000002
  const GAP_MASK: LanCheck.Address := 0xFFFFFFFD

  /** The mask 255.255.255.253 is accepted with a pool in another network than 10.0.0.1. */
  lemma GapMask()
    ensures LanCheck.Accepted(GW, GAP_MASK, HOST, HOST)
    ensures !LanCheck.InNetwork(GW, GAP_MASK, HOST)
  {
    GapBits(GW);
    GapBits(HOST);
    LanCheck.BroadcastIs(GW, GAP_MASK);
    LanCheck.LoopbackIs(HOST);
    LastOctetOf(0x0A0000);
    assert LanCheck.IsUnicast(GW, GAP_MASK, HOST);
    assert LanCheck.CheckNumbers(GW, GAP_MASK, HOST, HOST, 0) == LanCheck.Valid;
  }

  lemma Pow2Of30()
    ensures Bits.Pow2(30) == 0x40000000
  {
    assert Bits.Pow2(10) == 0x400;
    assert Bits.Pow2(20) == 0x100000;
  }

  /** That mask clears bit 1 and nothing else. */
  lemma GapBits(a: LanCheck.Address)
    requires a == GW || a == HOST
    ensures Bits.And(a, GAP_MASK) == if a == GW then GW else 0x0A000000
  {
    hide Bits.And, Bits.Pow2;
    Pow2Of30();
    Bits.AndOnes(30, 0x02800000);
    assert Bits.And(a / 2, 0x7FFFFFFE) == 0x05000000 by {
      Bits.AndStep(a / 2, 0x7FFFFFFE);
    }
    Bits.AndStep(a, GAP_MASK);
  }

  /** An address whose last octet is 1. */
  lemma LastOctetOf(net: nat)
    requires net < 0x1000000
    ensures Bits.And(0x100 * net + 1, 0xFF) == 1
  {
    var a := 0x100 * net + 1;
    LanCheck.WordSize();
    assert Bits.Pow2(8) == 256;
    assert LanCheck.OnesThenZeros(32, 0xFFFFFF00, 8);
    LanCheck.AndSplits(32, 0xFFFFFF00, 8, a);
    LanCheck.Aligned(32, 0xFFFFFF00, 8, net);
    LanCheck.BlockRange(0x100 * net, 0xFFFFFF00, 8, a);
  }

  /** Under 255.255.0.0 the pool 10.0.1.0 - 10.0.1.2 is accepted around its gateway 10.0.1.1. */
  lemma GatewayInsidePool()
    ensures exists lo: LanCheck.Address, hi: LanCheck.Address ::
      LanCheck.Accepted(0x0A000101, 0xFFFF0000, lo, hi) && lo <= 0x0A000101 <= hi
  {
    LanCheck.WordSize();
    assert Bits.Pow2(16) == 0x10000 by {
      assert Bits.Pow2(8) == 256;
    }
    assert LanCheck.OnesThenZeros(32, 0xFFFF0000, 16);
    LanCheck.Aligned(32, 0xFFFF0000, 16, 0x0A00);
    LanCheck.BlockRange(0x0A000000, 0xFFFF0000, 16, 0x0A000101);
    LanCheck.BroadcastIs(0x0A000101, 0xFFFF0000);
    LastOctetOf(0x0A0001);
    LanCheck.GatewayOutsideIff(0x0A000101, 0xFFFF0000);
  }

  /** Under 255.254.0.0 the gateway 192.168.0.1 gets the public pool 192.169.0.0. */
  lemma PublicPool()
    ensures LanCheck.Accepted(0xC0A80001, 0xFFFE0000, 0xC0A90000, 0xC0A90000)
    ensures LanCheck.IsPublic(0xC0A90000)
  {
    LanCheck.WordSize();
    assert Bits.Pow2(17) == 0x20000 by {
      assert Bits.Pow2(8) == 256;
    }
    LastOctetOf(0xC0A800);
    assert LanCheck.OnesThenZeros(32, 0xFFFE0000, 17);
    LanCheck.Aligned(32, 0xFFFE0000, 17, 0x6054);
    LanCheck.BlockRange(0xC0A80000, 0xFFFE0000, 17, 0xC0A80001);
    LanCheck.BroadcastIs(0xC0A80001, 0xFFFE0000);
    LanCheck.PoolBehindBlock(0xC0A80001, 0xFFFE0000);
  }

  // ---------------------------------------------------------------- pools

  /** A new time offset is not read back. */
  lemma TimeOffsetIsLost(d: Pool.Cfg)
    requires Pool.IsDefault(d)
    ensures var n := d.(offset := d.offset + 1);
      Pool.Decode(d, Pool.Write(map[], n, d)) != n
  {
    var n := d.(offset := d.offset + 1);
    Pool.NoRecordsIff(d);
    Pool.HoldableStep(d, map[], n, d);
  }

  /** An interface without the prefix loses its first 20 characters to it. */
  lemma ForeignInterface(d: Pool.Cfg)
    requires Pool.IsDefault(d) && d.iface != "Device.WiFi.Radio.1."
    ensures var n := d.(iface := "Device.WiFi.Radio.1.");
      Pool.Decode(d, Pool.Write(map[], n, d)) != n
  {
    var n := d.(iface := "Device.WiFi.Radio.1.");
    assert n.iface[7] != Pool.IP_INTERFACE[7];
    Pool.NoRecordsIff(d);
    Pool.HoldableStep(d, map[], n, d);
  }

  /** An address behind a zero is not stored. */
  lemma GapInList()
    ensures var l := [IpList.ZERO, IpList.Ip(10, 0, 0, 1), IpList.ZERO, IpList.ZERO];
      IpList.ReadList(IpList.ListText(l)) != Some(l)
  {
    var l := [IpList.ZERO, IpList.Ip(10, 0, 0, 1), IpList.ZERO, IpList.ZERO];
    assert |IpList.Front(l)| == 0 && l[1] != IpList.ZERO;
    IpList.ListRoundTripIff(l);
  }

  /** 255.255.255.255 reads as an error. */
  lemma NoAddressInList()
    ensures var l := [IpList.NO_ADDRESS, IpList.ZERO, IpList.ZERO, IpList.ZERO];
      IpList.ReadList(IpList.ListText(l)) != Some(l)
  {
    var l := [IpList.NO_ADDRESS, IpList.ZERO, IpList.ZERO, IpList.ZERO];
    assert l[0] in l;
    IpList.ListRoundTripIff(l);
  }
}
