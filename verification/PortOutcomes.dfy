/** What adding, deleting and reconfiguring a port leave behind, said of the configuration that
    was given: the fields of the port, the texts of its records, the tokens of the five lists. */
module PortOutcomes {
  import opened Text
  import opened Decimal
  import opened BridgeData
  import opened BridgeSteps
  import opened BridgeInvariant
  import opened BridgeRuns
  import opened Wrappers

  // ---------------------------------------------------------------- which list, which string

  predicate HasSw(name: string) {
    exists i :: 0 <= i < |name| - 1 && name[i] == 's' && name[i + 1] == 'w'
  }

  /** The list that a port with this link name and type belongs in. */
  predicate BelongsIn(name: string, typ: LinkType, m: Members) {
    if HasSw(name) then m == Sw
    else
      (typ == WiFiSsid && m == WiFi) || (typ == Eth && m == EthList) || (typ == EthVlan && m == EthList)
      || (typ == Moca && m == MocaList) || (typ == Gre && m == GreList)
  }

  /** The string that a port goes by: pass-through is marked with "-t". */
  predicate GoesBy(token: string, name: string, mode: Mode) {
    token == if mode == PassThrough then name + "-t" else name
  }

  /** A link name without a blank. */
  predicate OneWord(name: string) {
    forall i :: 0 <= i < |name| ==> name[i] != ' '
  }

  predicate Hit(ts: seq<string>, token: string) {
    exists j :: 0 <= j < |ts| && SameText(ts[j], token)
  }

  /** The list is given a token, which goes behind the others unless it is there. */
  predicate Gains(was: seq<string>, now: seq<string>, token: string) {
    now == if Hit(was, token) then was else was + [token]
  }

  /** The list loses a token, if it is there. */
  predicate Loses(was: seq<string>, now: seq<string>, token: string) {
    if Hit(was, token)
    then exists j :: 0 <= j < |was| && SameText(was[j], token) && now == was[..j] + was[j + 1..]
    else now == was
  }

  function TokensIn(psm: Psm, l2: nat, m: Members): seq<string> {
    Tokens(Get(psm, BridgeKey(l2, MemberList(m))))
  }

  lemma ContainsSw(name: string)
    ensures Contains(name, "sw") <==> HasSw(name)
  {
    if Contains(name, "sw") {
      var i :| 0 <= i <= |name| && OccursAt(name, "sw", i);
      assert name[i] == name[i..i + 2][0] && name[i + 1] == name[i..i + 2][1];
    }
    if HasSw(name) {
      var i :| 0 <= i < |name| - 1 && name[i] == 's' && name[i + 1] == 'w';
      assert name[i..i + 2] == "sw";
      assert OccursAt(name, "sw", i);
    }
  }

  lemma BelongsIs(name: string, typ: LinkType, m: Members)
    ensures BelongsIn(name, typ, m) <==> ListOf(name, typ) == Some(m)
  {
    ContainsSw(name);
  }

  lemma NowhereIs(name: string, typ: LinkType)
    ensures (forall m :: !BelongsIn(name, typ, m)) <==> ListOf(name, typ) == None
  {
    forall m ensures BelongsIn(name, typ, m) <==> ListOf(name, typ) == Some(m) {
      BelongsIs(name, typ, m);
    }
    if ListOf(name, typ).Some? {
      assert BelongsIn(name, typ, ListOf(name, typ).value);
    }
  }

  /** The token list of the text that an addition leaves. */
  lemma GainsIs(list: string, token: string)
    requires Word(token)
    ensures Gains(Tokens(list), Tokens(if HasToken(list, token) then list else Appended(list, token)), token)
  {
    AppendedTokens(list, token);
  }

  lemma LosesIs(list: string, token: string)
    requires Distinct(Tokens(list))
    ensures Loses(Tokens(list), Tokens(if HasToken(list, token) then Removed(list, token) else list), token)
  {
    var ts := Tokens(list);
    if Hit(ts, token) {
      var j :| 0 <= j < |ts| && SameText(ts[j], token);
      RemovedTokens(list, token);
      WithoutOnly(ts, j, token);
    }
  }

  lemma WithoutOnly(ts: seq<string>, j: nat, token: string)
    requires Distinct(ts) && j < |ts| && SameText(ts[j], token)
    ensures Without(ts, token) == ts[..j] + ts[j + 1..]
    decreases |ts|
  {
    var n := |ts| - 1;
    assert ts == ts[..n] + [ts[n]];
    if j == n {
      WithoutFresh(ts[..n], token);
    } else {
      assert !SameText(ts[j], ts[n]);
      WithoutOnly(ts[..n], j, token);
    }
  }

  // ---------------------------------------------------------------- the lists

  /** Adding an enabled, named port that is no management port puts its string behind the tokens
      of the list that it belongs in. No other list changes, and no other port changes one. */
  lemma AddPortFiles(b: BridgeRec, psm: Psm, cfg: PortCfg, token: string, m: Members)
    requires OneWord(cfg.linkName) && GoesBy(token, cfg.linkName, cfg.mode)
    ensures var psm' := AddPort(b, psm, cfg).1;
      if cfg.enabled && cfg.linkName != "" && !cfg.mgt && BelongsIn(cfg.linkName, cfg.linkType, m)
      then Gains(TokensIn(psm, b.l2, m), TokensIn(psm', b.l2, m), token)
      else Get(psm', BridgeKey(b.l2, MemberList(m))) == Get(psm, BridgeKey(b.l2, MemberList(m)))
  {
    BelongsIs(cfg.linkName, cfg.linkType, m);
    ListAfterAdd(b, psm, cfg, m);
    if cfg.linkName != "" {
      MemberIsWord(cfg.linkName, cfg.mode);
      GainsIs(ListAt(psm, b.l2, m), token);
    }
  }

  /** The same, list by list, for a string that is not there yet. */
  lemma AddPortFilesFresh(b: BridgeRec, psm: Psm, cfg: PortCfg, token: string)
    requires cfg.enabled && !cfg.mgt && cfg.linkName != "" && OneWord(cfg.linkName)
    requires token == if cfg.mode == PassThrough then cfg.linkName + "-t" else cfg.linkName
    requires forall m, t :: t in TokensIn(psm, b.l2, m) ==> !SameText(t, token)
    ensures var psm' := AddPort(b, psm, cfg).1;
      var sw := exists i :: 0 <= i < |cfg.linkName| - 1 && cfg.linkName[i] == 's' && cfg.linkName[i + 1] == 'w';
      TokensIn(psm', b.l2, Sw) == TokensIn(psm, b.l2, Sw) + (if sw then [token] else []) &&
      TokensIn(psm', b.l2, WiFi)
        == TokensIn(psm, b.l2, WiFi) + (if !sw && cfg.linkType == WiFiSsid then [token] else []) &&
      TokensIn(psm', b.l2, EthList)
        == TokensIn(psm, b.l2, EthList) + (if !sw && cfg.linkType in {Eth, EthVlan} then [token] else []) &&
      TokensIn(psm', b.l2, MocaList)
        == TokensIn(psm, b.l2, MocaList) + (if !sw && cfg.linkType == Moca then [token] else []) &&
      TokensIn(psm', b.l2, GreList)
        == TokensIn(psm, b.l2, GreList) + (if !sw && cfg.linkType == Gre then [token] else [])
  {
    hide AddPort, Tokens, SameText;
    forall m
      ensures TokensIn(AddPort(b, psm, cfg).1, b.l2, m)
        == TokensIn(psm, b.l2, m) + if BelongsIn(cfg.linkName, cfg.linkType, m) then [token] else []
    {
      AddPortFiles(b, psm, cfg, token, m);
      assert !Hit(TokensIn(psm, b.l2, m), token);
    }
  }

  /** Deleting a named port takes its string from the list that it belongs in, and touches no
      other list. */
  lemma DelPortUnfiles(b: BridgeRec, psm: Psm, i: nat, token: string, m: Members)
    requires i < |b.ports| && b.ports[i].allowDelete && forall j :: 0 <= j < i ==> b.ports[j].inst != b.ports[i].inst
    requires GoesBy(token, b.ports[i].linkName, b.ports[i].mode) && Distinct(TokensIn(psm, b.l2, m))
    ensures var p, psm' := b.ports[i], DelPort(b, psm, b.ports[i].inst).1;
      if p.linkName != "" && BelongsIn(p.linkName, p.linkType, m)
      then Loses(TokensIn(psm, b.l2, m), TokensIn(psm', b.l2, m), token)
      else Get(psm', BridgeKey(b.l2, MemberList(m))) == Get(psm, BridgeKey(b.l2, MemberList(m)))
  {
    FirstIs(b.ports, i);
    BelongsIs(b.ports[i].linkName, b.ports[i].linkType, m);
    ListAfterDel(b, psm, b.ports[i].inst, m);
    LosesIs(ListAt(psm, b.l2, m), token);
  }

  lemma FirstIs(ports: seq<PortRec>, i: nat)
    requires i < |ports| && forall j :: 0 <= j < i ==> ports[j].inst != ports[i].inst
    ensures IndexOf(ports, ports[i].inst) == i
  {
  }

  /** The configuration that is given differs from the port in something that the lists show. */
  predicate Moves(p: PortRec, cfg: PortCfg) {
    !(cfg.linkName == p.linkName && cfg.linkType == p.linkType && cfg.enabled == p.enabled && cfg.mode == p.mode)
  }

  /** The list that the new string goes to: its own, or that of the old name when it has none. */
  predicate GoesTo(p: PortRec, cfg: PortCfg, m: Members) {
    BelongsIn(cfg.linkName, cfg.linkType, m) ||
    ((forall n :: !BelongsIn(cfg.linkName, cfg.linkType, n)) &&
     p.linkName != "" && BelongsIn(p.linkName, p.linkType, m))
  }

  /** A reconfiguration that moves the port: the old string leaves its list first, and then the
      new one is added when the port is enabled and named. Any other one touches no list. */
  lemma SetPortRefiles(b: BridgeRec, psm: Psm, cfg: PortCfg, i: nat, out: string, token: string, m: Members)
    returns (left: seq<string>)
    requires i < |b.ports| && b.ports[i].inst == cfg.inst && forall j :: 0 <= j < i ==> b.ports[j].inst != cfg.inst
    requires OneWord(cfg.linkName) && GoesBy(token, cfg.linkName, cfg.mode)
    requires GoesBy(out, b.ports[i].linkName, b.ports[i].mode) && Distinct(TokensIn(psm, b.l2, m))
    ensures var p, psm' := b.ports[i], SetPort(b, psm, cfg).1;
      var was, now := TokensIn(psm, b.l2, m), TokensIn(psm', b.l2, m);
      if Moves(p, cfg) then
        (if p.linkName != "" && BelongsIn(p.linkName, p.linkType, m) then Loses(was, left, out) else left == was) &&
        (if cfg.enabled && cfg.linkName != "" && GoesTo(p, cfg, m) then Gains(left, now, token) else now == left)
      else
        Get(psm', BridgeKey(b.l2, MemberList(m))) == Get(psm, BridgeKey(b.l2, MemberList(m)))
  {
    var p := b.ports[i];
    FirstIs(b.ports, i);
    SavedListsStay(b, psm, cfg, p, m);
    left := Tokens(ListAt(Unlist(psm, b.l2, p), b.l2, m));
    if Moves(p, cfg) {
      BelongsIs(p.linkName, p.linkType, m);
      UnlistedText(psm, b.l2, p, m);
      LosesIs(ListAt(psm, b.l2, m), out);
      RelistedText(b, psm, p, cfg, m);
      GoesToIs(p, cfg, m);
      if cfg.linkName != "" {
        MemberIsWord(cfg.linkName, cfg.mode);
        GainsIs(ListAt(Unlist(psm, b.l2, p), b.l2, m), token);
      }
    }
  }

  lemma GoesToIs(p: PortRec, cfg: PortCfg, m: Members)
    ensures GoesTo(p, cfg, m) <==> FiledUnder(p, cfg) == Some(m)
  {
    BelongsIs(cfg.linkName, cfg.linkType, m);
    BelongsIs(p.linkName, p.linkType, m);
    NowhereIs(cfg.linkName, cfg.linkType);
  }

  lemma SavedListsStay(b: BridgeRec, psm: Psm, cfg: PortCfg, p: PortRec, m: Members)
    requires IndexOf(b.ports, cfg.inst) < |b.ports| && p == b.ports[IndexOf(b.ports, cfg.inst)]
    ensures ListAt(SetPort(b, psm, cfg).1, b.l2, m) == ListAt(Filed(b, psm, p, cfg).1, b.l2, m)
  {
    var filed := Filed(b, psm, p, cfg).1;
    SavePortEffect(filed, b.l2, Updated(b, p, cfg));
    assert SameRecord(filed, SavePort(filed, b.l2, cfg.inst, Updated(b, p, cfg)), BridgeKey(b.l2, MemberList(m)));
  }

  lemma UnlistedText(psm: Psm, l2: nat, p: PortRec, m: Members)
    ensures var was := ListAt(psm, l2, m);
      ListAt(Unlist(psm, l2, p), l2, m) ==
        if Named(p) && MembersOf(p) == Some(m) && HasToken(was, Member(p)) then Removed(was, Member(p)) else was
  {
  }

  lemma RelistedText(b: BridgeRec, psm: Psm, p: PortRec, cfg: PortCfg, m: Members)
    ensures var left, token := ListAt(Unlist(psm, b.l2, p), b.l2, m), MemberText(cfg.linkName, cfg.mode);
      ListAt(Restructure(b, psm, p, cfg).1, b.l2, m) ==
        if cfg.enabled && cfg.linkName != "" && FiledUnder(p, cfg) == Some(m) && !HasToken(left, token)
        then Appended(left, token) else left
  {
    hide Unlist, HasToken, Appended, MemberText, Contains;
  }

  // ---------------------------------------------------------------- the port and its records

  /** The port is as it was configured, in a bridge with this name and VLAN id. */
  predicate Configured(q: PortRec, cfg: PortCfg, brName: string, vid: int) {
    q.inst == cfg.inst && q.alias == cfg.alias && q.linkName == cfg.linkName && q.linkType == cfg.linkType &&
    q.mgt == cfg.mgt && q.priTag == cfg.priTag && q.mode == cfg.mode && q.enabled == cfg.enabled &&
    q.upstream == cfg.upstream && q.allowDelete == cfg.allowDelete && q.pvid == vid &&
    (cfg.mgt ==> q.name == brName) && (!cfg.mgt ==> q.name == cfg.linkName)
  }

  predicate Says(text: string, yes: bool) {
    text == if yes then "TRUE" else "FALSE"
  }

  /** The twelve records say what the port is. */
  predicate OnRecord(psm: Psm, l2: nat, q: PortRec) {
    Says(Get(psm, PortKey(l2, q.inst, PortAllowDelete)), q.allowDelete) &&
    Says(Get(psm, PortKey(l2, q.inst, PortPriTag)), q.priTag) &&
    Says(Get(psm, PortKey(l2, q.inst, PortEnable)), q.enabled) &&
    Says(Get(psm, PortKey(l2, q.inst, Management)), q.mgt) &&
    Says(Get(psm, PortKey(l2, q.inst, Upstream)), q.upstream) &&
    Get(psm, PortKey(l2, q.inst, PortAlias)) == q.alias &&
    Get(psm, PortKey(l2, q.inst, PortName)) == q.name &&
    Get(psm, PortKey(l2, q.inst, LinkName)) == q.linkName &&
    Get(psm, PortKey(l2, q.inst, PortInstanceNum)) == Dec(q.inst) &&
    Get(psm, PortKey(l2, q.inst, Pvid)) == (if q.pvid < 0 then "-" + Dec(-q.pvid) else Dec(q.pvid)) &&
    Get(psm, PortKey(l2, q.inst, PortMode)) == (if q.mode == PassThrough then "PassThrough" else "Tagging") &&
    Get(psm, PortKey(l2, q.inst, LinkKind)) == match q.linkType {
      case NoLink => ""
      case Eth => "Ethernet"
      case EthVlan => "Ethernet"
      case Usb => "Usb"
      case Hpna => "Hpna"
      case Moca => "Moca"
      case HomePlug => "HomePlug"
      case Upa => "Upa"
      case WiFiSsid => "WiFi"
      case BridgeLink => "Bridge"
      case Gre => "Gre"
    }
  }

  lemma SavedIsOnRecord(psm: Psm, l2: nat, q: PortRec)
    requires PortSaved(psm, l2, q, Exact)
    ensures OnRecord(psm, l2, q)
  {
    forall f ensures Get(psm, PortKey(l2, q.inst, f)) == PortText(q, f) {
      assert PortTextHolds(psm[PortKey(l2, q.inst, f)], q, f, Exact);
    }
  }

  /** The text of a flag that is read as TRUE, in any case. */
  predicate ReadsTrue(s: string) {
    |s| == 4 && s[0] in {'T', 't'} && s[1] in {'R', 'r'} && s[2] in {'U', 'u'} && s[3] in {'E', 'e'}
  }

  lemma ReadBoolIs(s: string)
    ensures ReadBool(s) <==> ReadsTrue(s)
  {
    var t := "TRUE";
    assert Lower(t) == "true";
    if |s| == 4 {
      assert Lower(s) == [LowerChar(s[0]), LowerChar(s[1]), LowerChar(s[2]), LowerChar(s[3])];
    }
  }

  /** What a reload makes of the records of a port, whatever they say. */
  lemma PortFromRecords(psm: Psm, l2: nat, inst: nat)
    ensures var q, n := ReadPort(psm, l2, inst), Atoi(Get(psm, PortKey(l2, inst, PortInstanceNum)));
      q.inst == (if n > 0 then n else 0) && q.alias == Get(psm, PortKey(l2, inst, PortAlias)) &&
      q.name == Get(psm, PortKey(l2, inst, PortName)) && q.linkName == Get(psm, PortKey(l2, inst, LinkName)) &&
      (q.mgt <==> ReadsTrue(Get(psm, PortKey(l2, inst, Management)))) &&
      (q.priTag <==> ReadsTrue(Get(psm, PortKey(l2, inst, PortPriTag)))) &&
      (q.enabled <==> ReadsTrue(Get(psm, PortKey(l2, inst, PortEnable)))) &&
      (q.upstream <==> ReadsTrue(Get(psm, PortKey(l2, inst, Upstream)))) &&
      (q.allowDelete <==> ReadsTrue(Get(psm, PortKey(l2, inst, PortAllowDelete)))) &&
      q.mode == (if Get(psm, PortKey(l2, inst, PortMode)) == "PassThrough" then PassThrough else Tagging) &&
      (q.linkType == Eth <==> Get(psm, PortKey(l2, inst, LinkKind)) == "Ethernet") &&
      (q.linkType == Moca <==> Get(psm, PortKey(l2, inst, LinkKind)) == "Moca") &&
      (q.linkType == Gre <==> Get(psm, PortKey(l2, inst, LinkKind)) == "Gre") &&
      (q.linkType == WiFiSsid <==> Get(psm, PortKey(l2, inst, LinkKind)) == "WiFi") &&
      (q.linkType == BridgeLink <==> Get(psm, PortKey(l2, inst, LinkKind)) == "Bridge") &&
      q.linkType in {Eth, Moca, Gre, WiFiSsid, BridgeLink, NoLink} &&
      q.pvid == Atoi(Get(psm, PortKey(l2, inst, Pvid)))
  {
    ReadBoolIs(Get(psm, PortKey(l2, inst, Management)));
    ReadBoolIs(Get(psm, PortKey(l2, inst, PortPriTag)));
    ReadBoolIs(Get(psm, PortKey(l2, inst, PortEnable)));
    ReadBoolIs(Get(psm, PortKey(l2, inst, Upstream)));
    ReadBoolIs(Get(psm, PortKey(l2, inst, PortAllowDelete)));
  }

  /** What a reload gives back: five link types come back as another one, and a port is either
      pass-through or tagging. */
  predicate Returned(r: PortRec, q: PortRec) {
    r.inst == q.inst && r.alias == q.alias && r.name == q.name && r.linkName == q.linkName &&
    r.mgt == q.mgt && r.priTag == q.priTag && r.enabled == q.enabled && r.upstream == q.upstream &&
    r.allowDelete == q.allowDelete && r.pvid == q.pvid &&
    (r.mode == if q.mode == PassThrough then PassThrough else Tagging) &&
    match q.linkType {
      case EthVlan => r.linkType == Eth
      case Usb => r.linkType == NoLink
      case Hpna => r.linkType == NoLink
      case HomePlug => r.linkType == NoLink
      case Upa => r.linkType == NoLink
      case _ => r.linkType == q.linkType
    }
  }

  lemma SavedReturns(psm: Psm, l2: nat, q: PortRec, how: Fidelity)
    requires PortSaved(psm, l2, q, how)
    ensures Returned(ReadPort(psm, l2, q.inst), q)
  {
    hide ReadPort;
    ReloadPort(psm, l2, q, how);
  }

  /** Every record but those of one port and the lists of one bridge is as before. */
  ghost predicate OthersStay(psm: Psm, psm': Psm, l2: nat, inst: nat) {
    forall k: Key ::
      !(k.PortKey? && k.l2 == l2 && k.port == inst) && k != NoPath &&
      !(k.BridgeKey? && k.l2 == l2 && (k.field == Link || k.field.MemberList?)) ==>
      (k in psm' <==> k in psm) && (k in psm ==> psm'[k] == psm[k])
  }

  lemma OthersStayIs(psm: Psm, psm': Psm, l2: nat, inst: nat)
    requires OnlyPortAndLists(psm, psm', l2, inst)
    ensures OthersStay(psm, psm', l2, inst)
  {
    forall k: Key |
      !(k.PortKey? && k.l2 == l2 && k.port == inst) && k != NoPath &&
      !(k.BridgeKey? && k.l2 == l2 && (k.field == Link || k.field.MemberList?))
      ensures SameRecord(psm, psm', k)
    {
    }
  }

  /** The hidden interface becomes a member, or flag and Link record stay. */
  predicate Links(yes: bool, b: BridgeRec, psm: Psm, b': BridgeRec, psm': Psm) {
    var link := BridgeKey(b.l2, Link);
    if yes then !b'.upstream && Get(psm', link) == "l2sd0-t"
    else b'.upstream == b.upstream && Get(psm', link) == Get(psm, link)
  }

  /** A new port: it is as configured, its records say so and read back, and nothing else has
      changed but the counter, the lists and the link to the hidden interface. */
  lemma PortIsAdded(b: BridgeRec, psm: Psm, cfg: PortCfg)
    ensures var (b', psm') := AddPort(b, psm, cfg);
      |b'.ports| == |b.ports| + 1 && (forall j :: 0 <= j < |b.ports| ==> b'.ports[j] == b.ports[j]) &&
      b' == b.(ports := b'.ports, numPorts := b.numPorts + 1, upstream := b'.upstream) &&
      var q := b'.ports[|b.ports|];
      Configured(q, cfg, b.name, b.vid) && OnRecord(psm', b.l2, q) &&
      Returned(ReadPort(psm', b.l2, cfg.inst), q) && OthersStay(psm, psm', b.l2, cfg.inst) &&
      Links(cfg.enabled && cfg.linkName != "" && !cfg.upstream, b, psm, b', psm')
  {
    hide ReadPort, Enrolled, PortSaved, OnRecord, Returned, OnlyPortAndLists, OthersStay;
    var psm' := AddPort(b, psm, cfg).1;
    AddPortFrame(b, psm, cfg);
    SavedIsOnRecord(psm', b.l2, NewPort(b, cfg));
    SavedReturns(psm', b.l2, NewPort(b, cfg), Exact);
    OthersStayIs(psm, psm', b.l2, cfg.inst);
    EnrolledLink(b, psm, cfg);
  }

  lemma EnrolledLink(b: BridgeRec, psm: Psm, cfg: PortCfg)
    ensures Get(Enrolled(psm, b.l2, NewPort(b, cfg)), BridgeKey(b.l2, Link)) == Get(psm, BridgeKey(b.l2, Link))
  {
    SavePortEffect(psm, b.l2, NewPort(b, cfg));
    assert SameRecord(psm, SavePort(psm, b.l2, cfg.inst, NewPort(b, cfg)), BridgeKey(b.l2, Link));
  }

  /** A reconfigured port, likewise; the other ports are as before, and the hidden interface
      becomes a member only when the port moves. */
  lemma PortIsReconfigured(b: BridgeRec, psm: Psm, cfg: PortCfg, i: nat)
    requires i < |b.ports| && b.ports[i].inst == cfg.inst && forall j :: 0 <= j < i ==> b.ports[j].inst != cfg.inst
    ensures var (b', psm') := SetPort(b, psm, cfg);
      |b'.ports| == |b.ports| && (forall j :: 0 <= j < |b.ports| && j != i ==> b'.ports[j] == b.ports[j]) &&
      b' == b.(ports := b'.ports, upstream := b'.upstream) &&
      var q := b'.ports[i];
      Configured(q, cfg, b.name, b.vid) && OnRecord(psm', b.l2, q) &&
      Returned(ReadPort(psm', b.l2, cfg.inst), q) && OthersStay(psm, psm', b.l2, cfg.inst) &&
      Links(Moves(b.ports[i], cfg) && cfg.enabled && cfg.linkName != "" && !cfg.upstream, b, psm, b', psm')
  {
    hide ReadPort, Filed, PortSaved, OnRecord, Returned, OnlyPortAndLists, OthersStay;
    var psm', p := SetPort(b, psm, cfg).1, b.ports[i];
    FirstIs(b.ports, i);
    SetPortFrame(b, psm, cfg);
    SavedIsOnRecord(psm', b.l2, Updated(b, p, cfg));
    SavedReturns(psm', b.l2, Updated(b, p, cfg), Exact);
    OthersStayIs(psm, psm', b.l2, cfg.inst);
    FiledLink(b, psm, p, cfg);
    SavedLinkStays(b, psm, cfg, p);
  }

  lemma SavedLinkStays(b: BridgeRec, psm: Psm, cfg: PortCfg, p: PortRec)
    ensures var filed, link := Filed(b, psm, p, cfg).1, BridgeKey(b.l2, Link);
      Get(SavePort(filed, b.l2, cfg.inst, Updated(b, p, cfg)), link) == Get(filed, link)
  {
    var filed := Filed(b, psm, p, cfg).1;
    SavePortEffect(filed, b.l2, Updated(b, p, cfg));
    assert SameRecord(filed, SavePort(filed, b.l2, cfg.inst, Updated(b, p, cfg)), BridgeKey(b.l2, Link));
  }

  /** Nothing happens for a number that no port has. */
  lemma NoSuchPort(b: BridgeRec, psm: Psm, cfg: PortCfg)
    requires forall p :: p in b.ports ==> p.inst != cfg.inst
    ensures SetPort(b, psm, cfg) == (b, psm) && DelPort(b, psm, cfg.inst) == (b, psm)
    ensures DelStatus(b, cfg.inst) == CantFind
  {
  }

  /** A deleted port: the others keep their order, its records are gone, and flag and Link record
      follow from whether a port is left that needs the hidden interface. */
  lemma PortIsDeleted(b: BridgeRec, psm: Psm, i: nat)
    requires i < |b.ports| && forall j :: 0 <= j < i ==> b.ports[j].inst != b.ports[i].inst
    ensures var n, p, (b', psm') := |b.ports|, b.ports[i], DelPort(b, psm, b.ports[i].inst);
      if !p.allowDelete then DelStatus(b, p.inst) == NotSupported && b' == b && psm' == psm
      else
        DelStatus(b, p.inst) == Success && b'.ports == b.ports[..i] + b.ports[i + 1..] &&
        b' == b.(ports := b'.ports, numPorts := b'.numPorts, upstream := b'.upstream) &&
        b'.numPorts == (if b.numPorts > 0 then b.numPorts - 1 else 0) &&
        (forall f :: PortKey(b.l2, p.inst, f) !in psm') && OthersStay(psm, psm', b.l2, p.inst) &&
        (b'.upstream <==> forall j :: 0 <= j < n && j != i ==>
          b.ports[j].upstream || b.ports[j].mgt || b.ports[j].linkName == "" || !b.ports[j].enabled) &&
        Get(psm', BridgeKey(b.l2, Link)) == if b'.upstream then "" else "l2sd0-t"
  {
    hide Withdrawn, OnlyPortAndLists, OthersStay;
    var p := b.ports[i];
    FirstIs(b.ports, i);
    if p.allowDelete {
      assert DropAt(b.ports, i) == b.ports[..i] + b.ports[i + 1..];
      DelPortFrame(b, psm, p.inst);
      OthersStayIs(psm, DelPort(b, psm, p.inst).1, b.l2, p.inst);
      LeftPorts(b.ports, i);
    }
  }

  lemma LeftPorts(ports: seq<PortRec>, i: nat)
    requires i < |ports|
    ensures (exists q :: q in DropAt(ports, i) && NeedsLink(q))
       <==> !forall j :: 0 <= j < |ports| && j != i ==> !NeedsLink(ports[j])
  {
    var rest := DropAt(ports, i);
    if q :| q in rest && NeedsLink(q) {
      var k :| 0 <= k < |rest| && rest[k] == q;
      assert ports[if k < i then k else k + 1] == q;
    }
    forall j | 0 <= j < |ports| && j != i ensures ports[j] in rest {
      assert rest[if j < i then j else j - 1] == ports[j];
    }
  }
}
