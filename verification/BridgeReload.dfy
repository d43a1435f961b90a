/** Boot: CosaDmlBrgInit rebuilds the table from the PSM records. What a save and reload of
    a table keeps, and exactly when the table is as good after it as before. */
module BridgeReload {
  import opened BridgeData
  import opened BridgeSteps
  import opened BridgeInvariant
  import opened BridgeIds
  import opened BridgeState
  import opened Wrappers

  /** What PSM lists under the bridge prefix: bridges, each with its ports. */
  type Listing = seq<(nat, seq<nat>)>

  function LoadPorts(psm: Psm, l2: nat, insts: seq<nat>): seq<PortRec> {
    seq(|insts|, j requires 0 <= j < |insts| => ReadPort(psm, l2, insts[j]))
  }

  lemma LoadPortsSnoc(psm: Psm, l2: nat, insts: seq<nat>, j: nat)
    requires j < |insts|
    ensures LoadPorts(psm, l2, insts[..j + 1])
         == LoadPorts(psm, l2, insts[..j]) + [ReadPort(psm, l2, insts[j])]
  {
  }

  /** The bridge record with the ports found under it. */
  function WithPorts(b: BridgeRec, ports: seq<PortRec>): BridgeRec {
    b.(ports := ports, numPorts := |ports|, upstream := AllUpstream(ports))
  }

  predicate AllUpstream(ports: seq<PortRec>) {
    forall j :: 0 <= j < |ports| ==> ports[j].upstream
  }

  lemma AllUpstreamSnoc(ports: seq<PortRec>, p: PortRec)
    ensures AllUpstream(ports + [p]) <==> AllUpstream(ports) && p.upstream
  {
    var t := ports + [p];
    assert t[|ports|] == p;
    assert forall j :: 0 <= j < |ports| ==> t[j] == ports[j];
  }

  /** One bridge and the port instances PSM lists under it, in the order PSM lists them. */
  function LoadBridge(psm: Psm, l2: nat, insts: seq<nat>): BridgeRec {
    WithPorts(ReadBridge(psm, l2), LoadPorts(psm, l2, insts))
  }

  function LoadBridges(psm: Psm, found: Listing): seq<BridgeRec> {
    seq(|found|, i requires 0 <= i < |found| => LoadBridge(psm, found[i].0, found[i].1))
  }

  /** Bridges join the table one by one and move the counters. */
  function Boot(s: State, loads: seq<BridgeRec>): State {
    if loads == [] then s else Loaded(Boot(s, loads[..|loads| - 1]), loads[|loads| - 1])
  }

  /** CosaDmlBrgInit over what PSM lists; an instance number 0 is skipped. */
  function LoadTable(s: State, found: Listing): (t: State)
    ensures t.psm == s.psm
  {
    if found == [] then s
    else LoadNext(LoadTable(s, found[..|found| - 1]), found[|found| - 1])
  }

  function LoadNext(s: State, next: (nat, seq<nat>)): (t: State)
    ensures t.psm == s.psm
  {
    if next.0 == 0 then s else Loaded(s, LoadBridge(s.psm, next.0, next.1))
  }

  function Loaded(s: State, b: BridgeRec): State {
    s.(bridges := s.bridges + [b],
       nxtVid := if b.vid >= s.nxtVid && b.vid < s.high then b.vid + 1 else s.nxtVid,
       nxtBrId := NextBrId(b.name, s.prefix, s.nxtBrId))
  }

  const DMSB_BRID_LOWBOUND: nat := 64

  /** An empty table with the settings that _Psm_GetDefaultSetting leaves. */
  function EmptyTable(psm: Psm, low: int, high: int, prefix: string): State {
    State([], psm, low, high, low, DMSB_BRID_LOWBOUND, prefix)
  }

  /** The agent starts again on the same PSM. */
  function Rebooted(s: State, found: Listing): State {
    LoadTable(EmptyTable(s.psm, s.low, s.high, s.prefix), found)
  }

  // ---------------------------------------------------------------- what PSM lists

  ghost predicate DistinctNumbers(s: seq<nat>) {
    forall i, j :: 0 <= i < j < |s| ==> s[i] != s[j]
  }

  ghost predicate BridgeOnRecord(psm: Psm, l2: nat) {
    exists k: Key :: k in psm && k != NoPath && k.l2 == l2
  }

  ghost predicate PortOnRecord(psm: Psm, l2: nat, inst: nat) {
    exists f :: PortKey(l2, inst, f) in psm
  }

  /** The instance numbers under the port prefix of a bridge, each once and in any order. */
  ghost predicate ListsPorts(insts: seq<nat>, psm: Psm, l2: nat) {
    DistinctNumbers(insts) && forall n :: n in insts <==> PortOnRecord(psm, l2, n)
  }

  ghost predicate InListing(found: Listing, l2: nat) {
    exists i :: 0 <= i < |found| && found[i].0 == l2
  }

  /** The same for the bridges, with the ports under each. */
  ghost predicate Lists(found: Listing, psm: Psm) {
    (forall i, j :: 0 <= i < j < |found| ==> found[i].0 != found[j].0) &&
    (forall l2 :: InListing(found, l2) <==> BridgeOnRecord(psm, l2)) &&
    (forall i :: 0 <= i < |found| ==> ListsPorts(found[i].1, psm, found[i].0))
  }

  lemma {:induction false} InSomeOrder(s: set<nat>) returns (q: seq<nat>)
    ensures DistinctNumbers(q) && forall n :: n in q <==> n in s
    decreases |s|
  {
    if s == {} {
      q := [];
    } else {
      var n :| n in s;
      var rest := InSomeOrder(s - {n});
      q := rest + [n];
    }
  }

  lemma PortListing(psm: Psm, l2: nat) returns (insts: seq<nat>)
    ensures ListsPorts(insts, psm, l2)
  {
    var numbers := set k: Key | k in psm && k.PortKey? && k.l2 == l2 :: k.port;
    insts := InSomeOrder(numbers);
    forall n ensures n in numbers <==> PortOnRecord(psm, l2, n) {
      if PortOnRecord(psm, l2, n) {
        var f :| PortKey(l2, n, f) in psm;
        assert PortKey(l2, n, f).port in numbers;
      }
    }
  }

  lemma {:induction false} WithPortListings(psm: Psm, q: seq<nat>) returns (found: Listing)
    ensures |found| == |q|
    ensures forall i :: 0 <= i < |q| ==> found[i].0 == q[i] && ListsPorts(found[i].1, psm, found[i].0)
  {
    found := [];
    if q != [] {
      var front := WithPortListings(psm, q[..|q| - 1]);
      var insts := PortListing(psm, q[|q| - 1]);
      found := front + [(q[|q| - 1], insts)];
    }
  }

  /** Every PSM has such a listing. */
  lemma ListingExists(psm: Psm) returns (found: Listing)
    ensures Lists(found, psm)
  {
    var numbers := set k: Key | k in psm && k != NoPath :: k.l2;
    var q := InSomeOrder(numbers);
    found := WithPortListings(psm, q);
    forall l2 ensures InListing(found, l2) <==> BridgeOnRecord(psm, l2) {
      assert l2 in q <==> InListing(found, l2) by {
        if l2 in q {
          var i :| 0 <= i < |q| && q[i] == l2;
          assert found[i].0 == l2;
        }
      }
      assert l2 in numbers <==> BridgeOnRecord(psm, l2);
    }
  }

  ghost predicate Enumerates(insts: seq<nat>, ports: seq<PortRec>) {
    DistinctNumbers(insts) && forall n :: n in insts <==> HasPort(ports, n)
  }

  lemma ListedPorts(b: BridgeRec, psm: Psm, insts: seq<nat>, how: Fidelity)
    requires Records(b, psm, how) && ListsPorts(insts, psm, b.l2)
    ensures Enumerates(insts, b.ports)
  {
    forall n ensures PortOnRecord(psm, b.l2, n) <==> HasPort(b.ports, n) {
      if HasPort(b.ports, n) {
        var p :| p in b.ports && p.inst == n;
        assert PortSaved(psm, b.l2, p, how);
        assert PortKey(b.l2, n, Pvid) in psm;
      }
    }
  }

  // ---------------------------------------------------------------- one bridge

  /** Link types whose text reads back as the same text. */
  predicate KeepsType(t: LinkType) {
    !t.Usb? && !t.Hpna? && !t.HomePlug? && !t.Upa?
  }

  /** A bridge that a reload gives back as good as it was. */
  ghost predicate Settled(b: BridgeRec) {
    (b.upstream <==> forall p :: p in b.ports ==> p.upstream) &&
    (forall p :: p in b.ports ==> KeepsType(p.linkType)) &&
    b.standard != OtherStandard
  }

  /** The ports of `loaded` are the normalised ports of `ports`, in some order. */
  ghost predicate Mirrors(loaded: seq<PortRec>, ports: seq<PortRec>) {
    DistinctPorts(loaded) && |loaded| == |ports| &&
    (forall q :: q in loaded ==> IsNormalOf(q, ports)) &&
    (forall p :: p in ports ==> Normal(p) in loaded)
  }

  ghost predicate IsNormalOf(q: PortRec, ports: seq<PortRec>) {
    exists p :: p in ports && q == Normal(p)
  }

  lemma LoadPortsRead(b: BridgeRec, psm: Psm, insts: seq<nat>, how: Fidelity)
    requires forall p :: p in b.ports ==> PortSaved(psm, b.l2, p, how)
    requires forall n :: n in insts ==> HasPort(b.ports, n)
    ensures var loaded := LoadPorts(psm, b.l2, insts);
      |loaded| == |insts| &&
      (forall j :: 0 <= j < |insts| ==> loaded[j].inst == insts[j] && IsNormalOf(loaded[j], b.ports))
  {
    forall j | 0 <= j < |insts|
      ensures LoadPorts(psm, b.l2, insts)[j].inst == insts[j]
      ensures IsNormalOf(LoadPorts(psm, b.l2, insts)[j], b.ports)
    {
      assert insts[j] in insts;
      ReadIsNormal(b, psm, insts[j], how);
    }
  }

  lemma ReadIsNormal(b: BridgeRec, psm: Psm, n: nat, how: Fidelity)
    requires forall p :: p in b.ports ==> PortSaved(psm, b.l2, p, how)
    requires HasPort(b.ports, n)
    ensures ReadPort(psm, b.l2, n).inst == n && IsNormalOf(ReadPort(psm, b.l2, n), b.ports)
  {
    var p :| p in b.ports && p.inst == n;
    ReloadPort(psm, b.l2, p, how);
  }

  /** The reloaded ports are the old ones, normalised, in the order PSM lists them. */
  lemma LoadedPorts(b: BridgeRec, psm: Psm, insts: seq<nat>, how: Fidelity)
    requires Records(b, psm, how) && Enumerates(insts, b.ports)
    ensures Mirrors(LoadPorts(psm, b.l2, insts), b.ports)
  {
    LoadPortsRead(b, psm, insts, how);
    MirrorsFrom(b.ports, insts, LoadPorts(psm, b.l2, insts));
  }

  lemma MirrorsFrom(ports: seq<PortRec>, insts: seq<nat>, loaded: seq<PortRec>)
    requires DistinctPorts(ports) && Enumerates(insts, ports) && |loaded| == |insts|
    requires forall j :: 0 <= j < |insts| ==> loaded[j].inst == insts[j] && IsNormalOf(loaded[j], ports)
    ensures Mirrors(loaded, ports)
  {
    forall q | q in loaded ensures IsNormalOf(q, ports) {
      var j :| 0 <= j < |loaded| && loaded[j] == q;
    }
    forall p | p in ports ensures Normal(p) in loaded {
      assert HasPort(ports, p.inst);
      var j :| 0 <= j < |insts| && insts[j] == p.inst;
      var p' :| p' in ports && loaded[j] == Normal(p');
      SameInst(ports, p, p');
    }
    EnumerationLength(insts, ports);
  }

  function Numbers(ports: seq<PortRec>): seq<nat> {
    seq(|ports|, i requires 0 <= i < |ports| => ports[i].inst)
  }

  function Elements(s: seq<nat>): set<nat> {
    set n | n in s
  }

  lemma {:induction false} DistinctCount(s: seq<nat>)
    requires DistinctNumbers(s)
    ensures |Elements(s)| == |s|
  {
    if s != [] {
      var front, last := s[..|s| - 1], s[|s| - 1];
      DistinctCount(front);
      assert s == front + [last] && last !in Elements(front);
      assert Elements(s) == Elements(front) + {last};
    }
  }

  lemma EnumerationLength(insts: seq<nat>, ports: seq<PortRec>)
    requires DistinctPorts(ports) && Enumerates(insts, ports)
    ensures |insts| == |ports|
  {
    var nums := Numbers(ports);
    forall n ensures n in nums <==> HasPort(ports, n) {
      if n in nums {
        var i :| 0 <= i < |nums| && nums[i] == n;
        assert ports[i] in ports;
      }
      if HasPort(ports, n) {
        var p :| p in ports && p.inst == n;
        var i :| 0 <= i < |ports| && ports[i] == p;
        assert nums[i] == n;
      }
    }
    DistinctCount(insts);
    DistinctCount(nums);
    assert Elements(insts) == Elements(nums);
  }

  lemma SameInst(ports: seq<PortRec>, p: PortRec, q: PortRec)
    requires DistinctPorts(ports) && p in ports && q in ports && p.inst == q.inst
    ensures p == q
  {
  }

  /** The member lists of the old ports index the reloaded ones as well. */
  lemma MirrorKeepsIndex(b: BridgeRec, r: BridgeRec, psm: Psm)
    requires Index(b, psm) && r.l2 == b.l2 && Mirrors(r.ports, b.ports)
    ensures Index(r, psm)
  {
    forall m ensures ActiveSet(r.ports, m) == ActiveSet(b.ports, m) {
      forall p | p in b.ports && Active(p) && MembersOf(p) == Some(m)
        ensures Fold(p) in ActiveSet(r.ports, m)
      {
        NormalKeepsMember(p);
        assert Normal(p) in r.ports;
      }
      forall q | q in r.ports && Active(q) && MembersOf(q) == Some(m)
        ensures Fold(q) in ActiveSet(b.ports, m)
      {
        var p :| p in b.ports && q == Normal(p);
        NormalKeepsMember(p);
      }
    }
  }

  lemma MirrorUpstream(b: BridgeRec, r: BridgeRec, psm: Psm)
    requires Mirrors(r.ports, b.ports) && r == WithPorts(r, r.ports) && r.l2 == b.l2
    requires Forced(b, psm)
    ensures r.upstream <==> forall p :: p in b.ports ==> p.upstream
    ensures Forced(r, psm) && EmptyIsUpstream(r)
  {
    forall q | q in r.ports && NeedsLink(q)
      ensures !r.upstream && Get(psm, BridgeKey(b.l2, Link)) == HIDDEN_LINK
    {
      var j :| 0 <= j < |r.ports| && r.ports[j] == q;
      var p :| p in b.ports && q == Normal(p);
      assert NeedsLink(p);
    }
    if r.upstream {
      forall p | p in b.ports ensures p.upstream {
        assert Normal(p) in r.ports;
        var j :| 0 <= j < |r.ports| && r.ports[j] == Normal(p);
      }
    } else {
      var j :| 0 <= j < |r.ports| && !r.ports[j].upstream;
      assert r.ports[j] in r.ports && IsNormalOf(r.ports[j], b.ports);
    }
  }

  lemma NormalText(p: PortRec, f: PortField)
    ensures KeepsType(p.linkType) || f != LinkKind ==> PortText(Normal(p), f) == PortText(p, f)
    ensures !KeepsType(p.linkType) ==> PortText(Normal(p), LinkKind) != PortText(p, LinkKind)
  {
  }

  lemma NormalSaved(psm: Psm, l2: nat, p: PortRec, how: Fidelity)
    requires PortSaved(psm, l2, p, how)
    ensures PortSaved(psm, l2, Normal(p), Normalised)
  {
    forall f
      ensures var k := PortKey(l2, Normal(p).inst, f); k in psm && PortTextHolds(psm[k], Normal(p), f, Normalised)
    {
      SavedPortText(psm, l2, p, f, how);
      assert PortKey(l2, p.inst, f) in psm;
      NormalText(p, f);
    }
  }

  lemma NormalSavedIff(psm: Psm, l2: nat, p: PortRec)
    requires PortSaved(psm, l2, p, Exact)
    ensures PortSaved(psm, l2, Normal(p), Exact) <==> KeepsType(p.linkType)
  {
    assert psm[PortKey(l2, p.inst, LinkKind)] == PortText(p, LinkKind);
    NormalText(p, LinkKind);
    forall f ensures KeepsType(p.linkType) ==> PortText(Normal(p), f) == PortText(p, f) {
      NormalText(p, f);
    }
    if !KeepsType(p.linkType) {
      var k := PortKey(l2, p.inst, LinkKind);
      assert psm[k] != PortText(Normal(p), LinkKind);
    }
  }

  lemma MirrorHasPorts(loaded: seq<PortRec>, ports: seq<PortRec>, n: nat)
    requires Mirrors(loaded, ports) && HasPort(ports, n)
    ensures HasPort(loaded, n)
  {
    var p :| p in ports && p.inst == n;
    assert Normal(p) in loaded;
  }

  lemma MirrorRecords(b: BridgeRec, r: BridgeRec, psm: Psm, how: Fidelity)
    requires Records(b, psm, how) && Mirrors(r.ports, b.ports) && r.l2 == b.l2
    requires r.numPorts == |r.ports| && BridgeSaved(psm, r, Normalised)
    ensures Records(r, psm, Normalised)
  {
    forall n, f | PortKey(b.l2, n, f) in psm ensures HasPort(r.ports, n) {
      MirrorHasPorts(r.ports, b.ports, n);
    }
    forall q | q in r.ports ensures PortSaved(psm, r.l2, q, Normalised) {
      var p :| p in b.ports && q == Normal(p);
      NormalSaved(psm, b.l2, p, how);
    }
  }

  lemma MirrorRecordsIff(b: BridgeRec, r: BridgeRec, psm: Psm)
    requires Records(b, psm, Exact) && Mirrors(r.ports, b.ports) && r.l2 == b.l2 && r.numPorts == |r.ports|
    ensures Records(r, psm, Exact)
       <==> BridgeSaved(psm, r, Exact) && forall p :: p in b.ports ==> KeepsType(p.linkType)
  {
    forall n, f | PortKey(b.l2, n, f) in psm ensures HasPort(r.ports, n) {
      MirrorHasPorts(r.ports, b.ports, n);
    }
    forall p | p in b.ports
      ensures Normal(p) in r.ports && (PortSaved(psm, b.l2, Normal(p), Exact) <==> KeepsType(p.linkType))
    {
      NormalSavedIff(psm, b.l2, p);
    }
    forall q | q in r.ports ensures exists p :: p in b.ports && q == Normal(p) {
      assert IsNormalOf(q, b.ports);
    }
  }

  lemma MirrorApart(loaded: seq<PortRec>, ports: seq<PortRec>)
    requires Mirrors(loaded, ports) && TokensApart(ports)
    ensures TokensApart(loaded)
  {
    forall q | q in loaded ensures TokenFree(q.linkName) {
      assert IsNormalOf(q, ports);
    }
    forall i, j | 0 <= i < |loaded| && 0 <= j < |loaded| && i != j
      ensures !Clash(loaded[i], loaded[j])
    {
      assert IsNormalOf(loaded[i], ports) && IsNormalOf(loaded[j], ports);
      var p :| p in ports && loaded[i] == Normal(p);
      var q :| q in ports && loaded[j] == Normal(q);
      NormalKeepsMember(p);
      NormalKeepsMember(q);
      assert p.inst != q.inst;
      var n :| 0 <= n < |ports| && ports[n] == p;
      var k :| 0 <= k < |ports| && ports[k] == q;
      assert !Clash(ports[n], ports[k]);
    }
  }

  /** The bridge r as a reload of b gives it back: the same numbers and name, the normalised
      ports and standard, and counter and flag from the ports. */
  ghost predicate Reloads(r: BridgeRec, b: BridgeRec) {
    Mirrors(r.ports, b.ports) &&
    r == WithPorts(b.(standard := NormalStandard(b.standard)), r.ports)
  }

  lemma ReloadedOwn(psm: Psm, b: BridgeRec, r: BridgeRec, how: Fidelity)
    requires BridgeSaved(psm, b, how) && Reloads(r, b)
    ensures BridgeSaved(psm, r, Normalised)
    ensures how == Exact ==> (BridgeSaved(psm, r, Exact) <==> b.standard != OtherStandard)
  {
    forall f: BridgeField | !IsListField(f)
      ensures var k := BridgeKey(b.l2, f); k in psm && BridgeTextHolds(psm[k], r, f, Normalised)
    {
      SavedBridgeText(psm, b, f, how);
      assert BridgeKey(b.l2, f) in psm;
      StandardRoundTrip(b.standard);
    }
    if how == Exact {
      OwnTextIff(psm, b, r);
    }
  }

  lemma OwnTextIff(psm: Psm, b: BridgeRec, r: BridgeRec)
    requires BridgeSaved(psm, b, Exact) && Reloads(r, b)
    ensures BridgeSaved(psm, r, Exact) <==> b.standard != OtherStandard
  {
    SavedBridgeText(psm, b, StandardName, Exact);
    if b.standard == OtherStandard {
      assert "UNKNOWN"[0] != "BRG_STD_8021D_2004"[0];
      var k := BridgeKey(b.l2, StandardName);
      assert psm[k] != BridgeText(r, StandardName);
    } else {
      assert r.standard == b.standard;
      forall f: BridgeField | !IsListField(f)
        ensures var k := BridgeKey(r.l2, f); k in psm && BridgeTextHolds(psm[k], r, f, Exact)
      {
        SavedBridgeText(psm, b, f, Exact);
        assert BridgeKey(b.l2, f) in psm;
      }
    }
  }

  lemma LoadReloads(b: BridgeRec, psm: Psm, insts: seq<nat>, how: Fidelity)
    requires Records(b, psm, how) && Enumerates(insts, b.ports)
    ensures Reloads(LoadBridge(psm, b.l2, insts), b)
  {
    LoadedPorts(b, psm, insts, how);
    ReloadBridge(psm, b, how);
  }

  /** A reload gives every bridge back up to the normalisation: ports, counter, member lists
      and port records, whatever the flag and the record texts said. */
  lemma ReloadKeepsInv(b: BridgeRec, psm: Psm, r: BridgeRec, how: Fidelity)
    requires BridgeInv(b, psm, how) && Reloads(r, b)
    ensures BridgeInv(r, psm, Normalised)
  {
    MirrorKeepsIndex(b, r, psm);
    MirrorUpstream(b, r, psm);
    ReloadedOwn(psm, b, r, how);
    MirrorRecords(b, r, psm, how);
    MirrorApart(r.ports, b.ports);
  }

  /** It gives it back to the letter exactly when the bridge was settled: the flag said
      whether all ports are upstream, and no type or standard is lost. */
  lemma ReloadKeepsInvIff(b: BridgeRec, psm: Psm, r: BridgeRec)
    requires BridgeInv(b, psm, Exact) && Reloads(r, b)
    ensures BridgeInv(r, psm, Exact) <==> Settled(b)
  {
    ReloadKeepsInv(b, psm, r, Exact);
    MirrorUpstream(b, r, psm);
    ReloadedOwn(psm, b, r, Exact);
    MirrorRecordsIff(b, r, psm);
    assert LinkAgrees(r, psm) <==> (r.upstream == b.upstream);
  }

  // ---------------------------------------------------------------- the whole table

  lemma {:induction false} BootFields(s: State, loads: seq<BridgeRec>)
    requires s.bridges == []
    ensures Boot(s, loads) == s.(bridges := loads, nxtVid := LoadedVid(Vids(loads), s.nxtVid, s.high),
                                 nxtBrId := LoadedBrId(Names(loads), s.prefix, s.nxtBrId))
    decreases |loads|
  {
    hide NextBrId;
    if loads != [] {
      var n := |loads| - 1;
      BootFields(s, loads[..n]);
      PrefixColumns(loads, n);
    }
  }

  lemma PrefixColumns(bridges: seq<BridgeRec>, n: nat)
    requires n < |bridges|
    ensures Vids(bridges)[..n] == Vids(bridges[..n]) && Names(bridges)[..n] == Names(bridges[..n])
    ensures n == |bridges| - 1 ==> bridges == bridges[..n] + [bridges[n]]
  {
  }

  lemma {:induction false} LoadTableIsBoot(s: State, found: Listing)
    requires forall i :: 0 <= i < |found| ==> found[i].0 != 0
    ensures LoadTable(s, found) == Boot(s, LoadBridges(s.psm, found))
  {
    if found != [] {
      var front := found[..|found| - 1];
      LoadTableIsBoot(s, front);
      assert LoadBridges(s.psm, found)[..|front|] == LoadBridges(s.psm, front);
    }
  }

  /** Every bridge of the table is in the new one, reloaded, and nothing else is. */
  ghost predicate ReloadsAll(loads: seq<BridgeRec>, bridges: seq<BridgeRec>) {
    DistinctBridges(loads) && |loads| == |bridges| &&
    (forall i :: 0 <= i < |loads| ==>
      var j := FindBridge(bridges, loads[i].inst); j < |bridges| && Reloads(loads[i], bridges[j])) &&
    (forall j :: 0 <= j < |bridges| ==> HasBridge(loads, bridges[j].inst))
  }

  /** A listing that boot can follow; it skips the instance number 0. */
  ghost predicate Bootable(s: State, found: Listing) {
    Lists(found, s.psm) && !HasBridge(s.bridges, 0)
  }

  lemma ListedBridge(s: State, found: Listing, i: nat, how: Fidelity)
    requires TableInv(s, how) && Bootable(s, found) && i < |found|
    ensures found[i].0 != 0
    ensures var j := FindBridge(s.bridges, found[i].0);
      j < |s.bridges| && Reloads(LoadBridge(s.psm, found[i].0, found[i].1), s.bridges[j])
  {
    assert InListing(found, found[i].0);
    var k: Key :| k in s.psm && k != NoPath && k.l2 == found[i].0;
    assert HasBridge(s.bridges, found[i].0);
    var j := FindBridge(s.bridges, found[i].0);
    ListedPorts(s.bridges[j], s.psm, found[i].1, how);
    LoadReloads(s.bridges[j], s.psm, found[i].1, how);
  }

  lemma BridgeIsListed(s: State, found: Listing, j: nat, how: Fidelity)
    requires TableInv(s, how) && Lists(found, s.psm) && j < |s.bridges|
    ensures InListing(found, s.bridges[j].inst)
  {
    var b := s.bridges[j];
    assert BridgeSaved(s.psm, b, how);
    assert BridgeKey(b.l2, Vid) in s.psm;
    assert BridgeOnRecord(s.psm, b.l2);
  }

  lemma LoadsReload(s: State, found: Listing, how: Fidelity)
    requires TableInv(s, how) && Bootable(s, found)
    ensures ReloadsAll(LoadBridges(s.psm, found), s.bridges)
    ensures forall i :: 0 <= i < |found| ==> found[i].0 != 0
  {
    var loads := LoadBridges(s.psm, found);
    forall i | 0 <= i < |found|
      ensures found[i].0 != 0 && loads[i].inst == found[i].0 == loads[i].l2
      ensures var j := FindBridge(s.bridges, loads[i].inst); j < |s.bridges| && Reloads(loads[i], s.bridges[j])
    {
      ListedBridge(s, found, i, how);
    }
    forall j | 0 <= j < |s.bridges| ensures HasBridge(loads, s.bridges[j].inst) {
      BridgeIsListed(s, found, j, how);
      var i :| 0 <= i < |found| && found[i].0 == s.bridges[j].inst;
      assert loads[i].inst == s.bridges[j].inst;
    }
    SameCount(loads, s.bridges);
  }

  function BridgeNumbers(bridges: seq<BridgeRec>): seq<nat> {
    seq(|bridges|, i requires 0 <= i < |bridges| => bridges[i].inst)
  }

  lemma SameCount(a: seq<BridgeRec>, b: seq<BridgeRec>)
    requires DistinctBridges(a) && DistinctBridges(b)
    requires forall i :: 0 <= i < |a| ==> HasBridge(b, a[i].inst)
    requires forall j :: 0 <= j < |b| ==> HasBridge(a, b[j].inst)
    ensures |a| == |b|
  {
    var s, t := BridgeNumbers(a), BridgeNumbers(b);
    DistinctCount(s);
    DistinctCount(t);
    NumbersWithin(a, b);
    NumbersWithin(b, a);
    assert Elements(s) == Elements(t);
  }

  lemma NumbersWithin(a: seq<BridgeRec>, b: seq<BridgeRec>)
    requires forall i :: 0 <= i < |a| ==> HasBridge(b, a[i].inst)
    ensures forall n :: n in BridgeNumbers(a) ==> n in BridgeNumbers(b)
  {
    forall n | n in BridgeNumbers(a) ensures n in BridgeNumbers(b) {
      var i :| 0 <= i < |a| && BridgeNumbers(a)[i] == n;
      var j :| 0 <= j < |b| && b[j].inst == a[i].inst;
      assert BridgeNumbers(b)[j] == n;
    }
  }

  lemma LoadedShape(s: State, loads: seq<BridgeRec>)
    requires TableShape(s) && ReloadsAll(loads, s.bridges)
    ensures NoStray(loads, s.psm) && DistinctVids(loads)
  {
    forall k: Key | k in s.psm && k != NoPath ensures HasBridge(loads, k.l2) {
      var j :| 0 <= j < |s.bridges| && s.bridges[j].inst == k.l2;
    }
    forall i, j | 0 <= i < j < |loads| ensures loads[i].vid != loads[j].vid {
      var n, k := FindBridge(s.bridges, loads[i].inst), FindBridge(s.bridges, loads[j].inst);
      assert loads[i].vid == s.bridges[n].vid && loads[j].vid == s.bridges[k].vid && n != k;
    }
  }

  lemma LoadedNames(s: State, loads: seq<BridgeRec>)
    requires TableShape(s) && ReloadsAll(loads, s.bridges)
    ensures Numbered(Names(loads), s.prefix, LoadedBrId(Names(loads), s.prefix, DMSB_BRID_LOWBOUND))
  {
    var names := Names(loads);
    forall i | 0 <= i < |names| ensures Made(names[i], s.prefix) {
      var j := FindBridge(s.bridges, loads[i].inst);
      assert names[i] == Names(s.bridges)[j];
      assert Older(Names(s.bridges)[j], s.prefix, s.nxtBrId);
    }
    LoadNumbers(names, s.prefix, DMSB_BRID_LOWBOUND);
  }

  lemma BootIs(s: State, found: Listing, how: Fidelity)
    requires TableInv(s, how) && Bootable(s, found)
    ensures var t := Rebooted(s, found);
      t.psm == s.psm && ReloadsAll(t.bridges, s.bridges) && TableShape(t)
  {
    var loads := LoadBridges(s.psm, found);
    LoadsReload(s, found, how);
    LoadTableIsBoot(EmptyTable(s.psm, s.low, s.high, s.prefix), found);
    BootFields(EmptyTable(s.psm, s.low, s.high, s.prefix), loads);
    BootShape(s, Rebooted(s, found), loads);
  }

  lemma BootShape(s: State, t: State, loads: seq<BridgeRec>)
    requires TableShape(s) && ReloadsAll(loads, s.bridges)
    requires t == s.(bridges := loads, nxtVid := LoadedVid(Vids(loads), s.low, s.high),
                     nxtBrId := LoadedBrId(Names(loads), s.prefix, DMSB_BRID_LOWBOUND))
    ensures TableShape(t)
  {
    LoadedShape(s, loads);
    LoadedVidInRange(Vids(loads), s.low, s.high);
    LoadedNames(s, loads);
  }

  /** Boot over the records of any table, listed in any order: every bridge is there again
      with its normalised ports, and the new table satisfies the invariant up to the
      normalisation, allocators included. */
  lemma BootKeepsInv(s: State, found: Listing, how: Fidelity)
    requires TableInv(s, how) && Bootable(s, found)
    ensures TableInv(Rebooted(s, found), Normalised)
    ensures ReloadsAll(Rebooted(s, found).bridges, s.bridges)
  {
    BootIs(s, found, how);
    var t := Rebooted(s, found);
    forall i | 0 <= i < |t.bridges| ensures BridgeInv(t.bridges[i], t.psm, Normalised) {
      ReloadKeepsInv(s.bridges[FindBridge(s.bridges, t.bridges[i].inst)], s.psm, t.bridges[i], how);
    }
  }

  ghost predicate AllSettled(bridges: seq<BridgeRec>) {
    forall j :: 0 <= j < |bridges| ==> Settled(bridges[j])
  }

  /** It satisfies it to the letter exactly when every bridge was settled. */
  lemma BootKeepsInvIff(s: State, found: Listing)
    requires TableInv(s, Exact) && Bootable(s, found)
    ensures TableInv(Rebooted(s, found), Exact) <==> AllSettled(s.bridges)
  {
    BootIs(s, found, Exact);
    EachSettledIff(s.bridges, Rebooted(s, found).bridges, s.psm);
  }

  lemma EachSettledIff(bridges: seq<BridgeRec>, loads: seq<BridgeRec>, psm: Psm)
    requires EachBridge(bridges, psm, Exact) && DistinctBridges(bridges) && ReloadsAll(loads, bridges)
    ensures EachBridge(loads, psm, Exact) <==> AllSettled(bridges)
  {
    forall i | 0 <= i < |loads|
      ensures BridgeInv(loads[i], psm, Exact) <==> Settled(bridges[FindBridge(bridges, loads[i].inst)])
    {
      ReloadKeepsInvIff(bridges[FindBridge(bridges, loads[i].inst)], psm, loads[i]);
    }
    if EachBridge(loads, psm, Exact) {
      forall j | 0 <= j < |bridges| ensures Settled(bridges[j]) {
        assert HasBridge(loads, bridges[j].inst);
        var i :| 0 <= i < |loads| && loads[i].inst == bridges[j].inst;
        FindOnly(bridges, j);
        assert BridgeInv(loads[i], psm, Exact);
      }
    }
  }
}
