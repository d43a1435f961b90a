/** What each bridge operation does to one bridge and to the PSM records, as functions of
    the old state, and the effect of each one on the five member lists. */
module BridgeSteps {
  import opened Text
  import opened BridgeData
  import opened Wrappers

  datatype Status = Success | CantFind | NotSupported | Failure

  predicate Named(p: PortRec) { p.linkName != "" }

  /** The ports whose member string belongs in a list. */
  predicate Active(p: PortRec) { p.enabled && Named(p) && !p.mgt }

  /** The test of the search loop after a port deletion. */
  predicate NeedsLink(p: PortRec) { Active(p) && !p.upstream }

  function Fold(p: PortRec): string { Lower(Member(p)) }

  // ---------------------------------------------------------------- the operations

  /** First port with the given instance number, or the length of the list. */
  function IndexOf(ports: seq<PortRec>, inst: nat): (i: nat)
    ensures i <= |ports|
    ensures i < |ports| ==> ports[i].inst == inst
    ensures forall j :: 0 <= j < i ==> ports[j].inst != inst
  {
    First(ports, (p: PortRec) => p.inst == inst)
  }

  /** The record path the member macro leaves: a port it cannot classify keeps the old one. */
  function Path(l2: nat, p: PortRec, carried: Key): Key {
    match MembersOf(p)
    case Some(m) => BridgeKey(l2, MemberList(m))
    case None => carried
  }

  ghost function AddMember(psm: Psm, path: Key, token: string): Psm {
    var list := Get(psm, path);
    if HasToken(list, token) then psm else psm[path := Appended(list, token)]
  }

  ghost function RemoveMember(psm: Psm, path: Key, token: string): Psm {
    var list := Get(psm, path);
    if HasToken(list, token) then psm[path := Removed(list, token)] else psm
  }

  /** _PSM_REMOVE_MEMBERS on a fresh path buffer. */
  ghost function Unlist(psm: Psm, l2: nat, p: PortRec): Psm {
    if Named(p) then RemoveMember(psm, Path(l2, p, NoPath), Member(p)) else psm
  }

  /** _PSM_ADD_MEMBERS, given what the path buffer holds. */
  ghost function Enlist(psm: Psm, l2: nat, p: PortRec, carried: Key): Psm {
    if Named(p) then AddMember(psm, Path(l2, p, carried), Member(p)) else psm
  }

  function AddLink(psm: Psm, l2: nat): Psm {
    psm[BridgeKey(l2, Link) := HIDDEN_LINK]
  }

  function NewPort(b: BridgeRec, cfg: PortCfg): PortRec {
    PortRec(cfg.inst, cfg.alias, if cfg.mgt then b.name else cfg.linkName, cfg.linkName,
            cfg.linkType, cfg.mgt, cfg.priTag, cfg.mode, cfg.enabled, cfg.upstream,
            cfg.allowDelete, b.vid)
  }

  /** SWBrAddPort */
  ghost function AddPort(b: BridgeRec, psm: Psm, cfg: PortCfg): (BridgeRec, Psm) {
    var p := NewPort(b, cfg);
    var linked := !p.upstream && Named(p) && p.enabled;
    (b.(numPorts := b.numPorts + 1, ports := b.ports + [p], upstream := b.upstream && !linked),
     SetLink(Enrolled(psm, b.l2, p), b.l2, linked))
  }

  /** The records and the member list of a new port. */
  ghost function Enrolled(psm: Psm, l2: nat, p: PortRec): Psm {
    var saved := SavePort(psm, l2, p.inst, p);
    if p.enabled && !p.mgt then Enlist(saved, l2, p, NoPath) else saved
  }

  function SetLink(psm: Psm, l2: nat, yes: bool): Psm {
    if yes then AddLink(psm, l2) else psm
  }

  /** The list without its element at i. */
  function DropAt<T>(s: seq<T>, i: nat): seq<T>
    requires i < |s|
  {
    seq(|s| - 1, j requires 0 <= j < |s| - 1 => s[if j < i then j else j + 1])
  }

  /** _COSA_DelBPort */
  ghost function DelPort(b: BridgeRec, psm: Psm, inst: nat): (BridgeRec, Psm) {
    if DelStatus(b, inst) != Success then (b, psm)
    else
      var i := IndexOf(b.ports, inst);
      (Dropped(b, i), DroppedRecords(b, psm, i))
  }

  function DelStatus(b: BridgeRec, inst: nat): Status {
    var i := IndexOf(b.ports, inst);
    if i == |b.ports| then CantFind
    else if !b.ports[i].allowDelete then NotSupported
    else Success
  }

  ghost function Dropped(b: BridgeRec, i: nat): BridgeRec
    requires i < |b.ports|
  {
    var rest := DropAt(b.ports, i);
    b.(ports := rest, numPorts := if b.numPorts == 0 then 0 else b.numPorts - 1,
       upstream := !exists q :: q in rest && NeedsLink(q))
  }

  ghost function DroppedRecords(b: BridgeRec, psm: Psm, i: nat): Psm
    requires i < |b.ports|
  {
    Relinked(Withdrawn(psm, b.l2, b.ports[i]), b.l2, Dropped(b, i).upstream)
  }

  /** A deleted port leaves the records and its member list. */
  ghost function Withdrawn(psm: Psm, l2: nat, p: PortRec): Psm {
    Unlist(ErasePort(psm, l2, p.inst), l2, p)
  }

  function Relinked(psm: Psm, l2: nat, upstream: bool): Psm {
    if upstream then psm - {BridgeKey(l2, Link)} else AddLink(psm, l2)
  }

  /** The guard of CosaDmlBrgPortSetCfg. */
  predicate Changed(p: PortRec, cfg: PortCfg) {
    cfg.linkName != p.linkName || cfg.linkType != p.linkType
    || cfg.enabled != p.enabled || cfg.mode != p.mode
  }

  function Restructured(p: PortRec, cfg: PortCfg): PortRec {
    p.(linkName := cfg.linkName, mode := cfg.mode, linkType := cfg.linkType,
       upstream := cfg.upstream, enabled := cfg.enabled)
  }

  /** SWBrConfirmStructureUpdate: the records and the bridge's upstream flag. */
  ghost function Restructure(b: BridgeRec, psm: Psm, p: PortRec, cfg: PortCfg): (bool, Psm) {
    var unlisted := Unlist(psm, b.l2, p);
    var q := Restructured(p, cfg);
    if !(q.enabled && Named(q)) then (b.upstream, unlisted)
    else
      var carried := if Named(p) then Path(b.l2, p, NoPath) else NoPath;
      var listed := Enlist(unlisted, b.l2, q, carried);
      if q.upstream then (b.upstream, listed) else (false, AddLink(listed, b.l2))
  }

  /** CosaDmlBrgPortSetCfg on a port that exists. */
  function Updated(b: BridgeRec, p: PortRec, cfg: PortCfg): PortRec {
    PortRec(cfg.inst, cfg.alias, if cfg.mgt then b.name else cfg.linkName,
            if Changed(p, cfg) then cfg.linkName else p.linkName,
            cfg.linkType, cfg.mgt, cfg.priTag, cfg.mode, cfg.enabled, cfg.upstream,
            cfg.allowDelete, b.vid)
  }

  ghost function Filed(b: BridgeRec, psm: Psm, p: PortRec, cfg: PortCfg): (bool, Psm) {
    if Changed(p, cfg) then Restructure(b, psm, p, cfg) else (b.upstream, psm)
  }

  ghost function SetPort(b: BridgeRec, psm: Psm, cfg: PortCfg): (BridgeRec, Psm) {
    var i := IndexOf(b.ports, cfg.inst);
    if i == |b.ports| then (b, psm)
    else
      var p := b.ports[i];
      var q := Updated(b, p, cfg);
      (b.(ports := b.ports[i := q], upstream := Filed(b, psm, p, cfg).0),
       SavePort(Filed(b, psm, p, cfg).1, b.l2, cfg.inst, q))
  }

  /** CosaDmlBrgSetCfg */
  function SetBridge(b: BridgeRec, psm: Psm, cfg: BridgeCfg): (BridgeRec, Psm) {
    var b' := b.(standard := cfg.standard, alias := cfg.alias, enabled := cfg.enabled);
    (b', SaveBridge(psm, b'))
  }

  /** _COSA_UpdateBrVLANID */
  function SetVid(b: BridgeRec, psm: Psm, vid: int): (BridgeRec, Psm) {
    if vid == b.vid then (b, psm)
    else var b' := b.(vid := vid); (b', SaveBridge(psm, b'))
  }

  // ---------------------------------------------------------------- member lists as sets

  ghost function TokensAt(psm: Psm, l2: nat, m: Members): set<string> {
    TokenSet(Get(psm, BridgeKey(l2, MemberList(m))))
  }

  ghost function Share(p: PortRec, m: Members): set<string> {
    if Active(p) && MembersOf(p) == Some(m) then {Fold(p)} else {}
  }

  ghost function ActiveSet(ports: seq<PortRec>, m: Members): set<string> {
    set p | p in ports && Active(p) && MembersOf(p) == Some(m) :: Fold(p)
  }

  /** The index claim: each list holds exactly the member strings of its active ports. */
  ghost predicate Index(b: BridgeRec, psm: Psm) {
    forall m :: TokensAt(psm, b.l2, m) == ActiveSet(b.ports, m)
  }

  ghost predicate TokenFree(linkName: string) { DELIM !in linkName }

  lemma AddMemberEffect(psm: Psm, path: Key, token: string)
    requires Word(token)
    ensures forall k :: k != path ==> SameRecord(psm, AddMember(psm, path, token), k)
    ensures TokenSet(Get(AddMember(psm, path, token), path))
         == TokenSet(Get(psm, path)) + {Lower(token)}
  {
    AppendOnTokenSet(Get(psm, path), token);
    FoldIsMember(Tokens(Get(psm, path)), token);
  }

  lemma RemoveMemberEffect(psm: Psm, path: Key, token: string)
    ensures forall k :: k != path ==> SameRecord(psm, RemoveMember(psm, path, token), k)
    ensures TokenSet(Get(RemoveMember(psm, path, token), path))
         == TokenSet(Get(psm, path)) - {Lower(token)}
  {
    RemoveOnTokenSet(Get(psm, path), token);
    FoldIsMember(Tokens(Get(psm, path)), token);
  }

  /** The fold of a port in the list m, active or not. */
  ghost function Listing(p: PortRec, m: Members): set<string> {
    if Named(p) && MembersOf(p) == Some(m) then {Fold(p)} else {}
  }

  lemma UnlistTokens(psm: Psm, l2: nat, p: PortRec, m: Members)
    ensures TokensAt(Unlist(psm, l2, p), l2, m) == TokensAt(psm, l2, m) - Listing(p, m)
  {
    if Named(p) {
      RemoveMemberEffect(psm, Path(l2, p, NoPath), Member(p));
    }
  }

  lemma ActiveAround(l: seq<PortRec>, p: PortRec, r: seq<PortRec>, m: Members)
    ensures ActiveSet(l + [p] + r, m) == ActiveSet(l + r, m) + Share(p, m)
  {
    assert forall q :: q in l + [p] + r <==> q in l + r || q == p;
  }

  lemma AddPortTokens(b: BridgeRec, psm: Psm, cfg: PortCfg, m: Members)
    requires TokenFree(cfg.linkName)
    ensures TokensAt(AddPort(b, psm, cfg).1, b.l2, m)
         == TokensAt(psm, b.l2, m) + Share(NewPort(b, cfg), m)
  {
    var p := NewPort(b, cfg);
    SavePortEffect(psm, b.l2, p);
    var saved := SavePort(psm, b.l2, p.inst, p);
    assert SameRecord(psm, saved, BridgeKey(b.l2, MemberList(m)));
    if Active(p) {
      MemberIsWord(p.linkName, p.mode);
      AddMemberEffect(saved, Path(b.l2, p, NoPath), Member(p));
    }
  }

  lemma DelPortTokens(b: BridgeRec, psm: Psm, inst: nat, m: Members)
    requires var i := IndexOf(b.ports, inst); i < |b.ports| && b.ports[i].allowDelete
    ensures var p := b.ports[IndexOf(b.ports, inst)];
      TokensAt(DelPort(b, psm, inst).1, b.l2, m)
      == TokensAt(psm, b.l2, m) - Listing(p, m)
  {
    var p := b.ports[IndexOf(b.ports, inst)];
    var erased := ErasePort(psm, b.l2, inst);
    ErasePortEffect(psm, b.l2, inst);
    assert SameRecord(psm, erased, BridgeKey(b.l2, MemberList(m)));
    UnlistTokens(erased, b.l2, p, m);
  }

  /** The list the structural update files the new member string under. */
  function FiledUnder(p: PortRec, cfg: PortCfg): Option<Members> {
    match ListOf(cfg.linkName, cfg.linkType)
    case Some(m) => Some(m)
    case None => if Named(p) then MembersOf(p) else None
  }

  ghost function Filing(p: PortRec, cfg: PortCfg, m: Members): set<string> {
    if cfg.enabled && cfg.linkName != "" && FiledUnder(p, cfg) == Some(m)
    then {Lower(MemberText(cfg.linkName, cfg.mode))} else {}
  }

  lemma RestructureTokens(b: BridgeRec, psm: Psm, p: PortRec, cfg: PortCfg, m: Members)
    requires TokenFree(cfg.linkName)
    ensures TokensAt(Restructure(b, psm, p, cfg).1, b.l2, m)
         == TokensAt(psm, b.l2, m) - Listing(p, m) + Filing(p, cfg, m)
  {
    UnlistTokens(psm, b.l2, p, m);
    var unlisted := Unlist(psm, b.l2, p);
    var q := Restructured(p, cfg);
    if q.enabled && Named(q) {
      var path := Path(b.l2, q, if Named(p) then Path(b.l2, p, NoPath) else NoPath);
      MemberIsWord(q.linkName, q.mode);
      AddMemberEffect(unlisted, path, Member(q));
      assert path == BridgeKey(b.l2, MemberList(m)) <==> FiledUnder(p, cfg) == Some(m);
      assert TokensAt(AddMember(unlisted, path, Member(q)), b.l2, m)
          == TokensAt(unlisted, b.l2, m) + Filing(p, cfg, m);
    }
  }

  lemma SaveKeepsTokens(psm: Psm, l2: nat, p: PortRec, m: Members)
    ensures TokensAt(SavePort(psm, l2, p.inst, p), l2, m) == TokensAt(psm, l2, m)
  {
    SavePortEffect(psm, l2, p);
    assert SameRecord(psm, SavePort(psm, l2, p.inst, p), BridgeKey(l2, MemberList(m)));
  }

  lemma FiledTokens(b: BridgeRec, psm: Psm, p: PortRec, cfg: PortCfg, m: Members)
    requires TokenFree(cfg.linkName)
    ensures TokensAt(Filed(b, psm, p, cfg).1, b.l2, m)
         == if Changed(p, cfg) then TokensAt(psm, b.l2, m) - Listing(p, m) + Filing(p, cfg, m)
            else TokensAt(psm, b.l2, m)
  {
    if Changed(p, cfg) {
      RestructureTokens(b, psm, p, cfg, m);
    }
  }

  // ---------------------------------------------------------------- when a step keeps the index

  /** Adding a port always keeps the index. */
  lemma AddPortKeepsIndex(b: BridgeRec, psm: Psm, cfg: PortCfg)
    requires TokenFree(cfg.linkName)
    requires Index(b, psm)
    ensures Index(AddPort(b, psm, cfg).0, AddPort(b, psm, cfg).1)
  {
    var p := NewPort(b, cfg);
    forall m ensures TokensAt(AddPort(b, psm, cfg).1, b.l2, m) == ActiveSet(b.ports + [p], m) {
      AddPortTokens(b, psm, cfg, m);
      ActiveAround(b.ports, p, [], m);
      assert b.ports + [p] + [] == b.ports + [p] && b.ports + [] == b.ports;
    }
  }

  /** Some remaining port is listed under the deleted port's name. */
  ghost predicate SharesToken(p: PortRec, rest: seq<PortRec>) {
    Named(p) && MembersOf(p).Some? && Fold(p) in ActiveSet(rest, MembersOf(p).value)
  }

  /** Deleting a port keeps the index exactly when no other active port has its token. */
  lemma DelPortKeepsIndexIff(b: BridgeRec, psm: Psm, inst: nat)
    requires var i := IndexOf(b.ports, inst); i < |b.ports| && b.ports[i].allowDelete
    requires Index(b, psm)
    ensures var i := IndexOf(b.ports, inst);
      Index(DelPort(b, psm, inst).0, DelPort(b, psm, inst).1)
      <==> !SharesToken(b.ports[i], DropAt(b.ports, i))
  {
    var i := IndexOf(b.ports, inst);
    var p, rest := b.ports[i], DropAt(b.ports, i);
    assert b.ports == b.ports[..i] + [p] + b.ports[i + 1..];
    assert rest == b.ports[..i] + b.ports[i + 1..];
    forall m
      ensures TokensAt(DelPort(b, psm, inst).1, b.l2, m)
           == ActiveSet(rest, m) - Listing(p, m)
    {
      DelPortTokens(b, psm, inst, m);
      ActiveAround(b.ports[..i], p, b.ports[i + 1..], m);
    }
    if SharesToken(p, rest) {
      var m := MembersOf(p).value;
      assert Fold(p) !in TokensAt(DelPort(b, psm, inst).1, b.l2, m);
    }
  }

  /** The new member string lands in a list it does not belong to, or stays out of (or in)
      one because a management flag changed without a structural update. */
  predicate Misfiles(p: PortRec, cfg: PortCfg) {
    cfg.enabled && cfg.linkName != "" &&
    if Changed(p, cfg)
    then FiledUnder(p, cfg).Some? && (cfg.mgt || ListOf(cfg.linkName, cfg.linkType).None?)
    else MembersOf(p).Some? && p.mgt != cfg.mgt
  }

  /** No other named port of the same list has this token. */
  ghost predicate Apart(ports: seq<PortRec>, list: Option<Members>, token: string) {
    forall q :: q in ports && Named(q) && list.Some? && MembersOf(q) == list ==> Fold(q) != token
  }

  lemma ActiveReplaced(ports: seq<PortRec>, i: nat, q: PortRec, m: Members)
    requires i < |ports|
    ensures ActiveSet(ports, m) == ActiveSet(DropAt(ports, i), m) + Share(ports[i], m)
    ensures ActiveSet(ports[i := q], m) == ActiveSet(DropAt(ports, i), m) + Share(q, m)
  {
    var l, r := ports[..i], ports[i + 1..];
    assert ports == l + [ports[i]] + r && ports[i := q] == l + [q] + r;
    assert DropAt(ports, i) == l + r;
    ActiveAround(l, ports[i], r, m);
    ActiveAround(l, q, r, m);
  }

  /** The state of one list after a reconfiguration. */
  lemma SetPortTokens(b: BridgeRec, psm: Psm, cfg: PortCfg, p: PortRec, m: Members)
    requires TokenFree(cfg.linkName)
    ensures TokensAt(SavePort(Filed(b, psm, p, cfg).1, b.l2, cfg.inst, Updated(b, p, cfg)), b.l2, m)
         == if Changed(p, cfg) then TokensAt(psm, b.l2, m) - Listing(p, m) + Filing(p, cfg, m)
            else TokensAt(psm, b.l2, m)
  {
    SaveKeepsTokens(Filed(b, psm, p, cfg).1, b.l2, Updated(b, p, cfg), m);
    FiledTokens(b, psm, p, cfg, m);
  }

  /** Where the update files or leaves the member string. */
  function LandsIn(p: PortRec, cfg: PortCfg): Option<Members> {
    if Changed(p, cfg) then FiledUnder(p, cfg) else MembersOf(p)
  }

  /** The update takes away a token that another port needs, or it misfiles one that no other
      port of that list makes right. */
  ghost predicate Disturbs(p: PortRec, rest: seq<PortRec>, cfg: PortCfg) {
    (Changed(p, cfg) && SharesToken(p, rest) && Fold(p) !in Filing(p, cfg, MembersOf(p).value)) ||
    (Misfiles(p, cfg) && LandsIn(p, cfg).Some? &&
     Lower(MemberText(cfg.linkName, cfg.mode)) !in ActiveSet(rest, LandsIn(p, cfg).value))
  }

  /** One list: what it holds after the update against what it should hold. */
  lemma SetPortList(p: PortRec, rest: set<string>, q: PortRec, cfg: PortCfg, m: Members)
    requires q.linkName == cfg.linkName && q.mode == cfg.mode && q.linkType == cfg.linkType
    requires q.enabled == cfg.enabled && q.mgt == cfg.mgt && Changed(p, cfg)
    ensures (rest + Share(p, m) - Listing(p, m) + Filing(p, cfg, m) == rest + Share(q, m)) <==>
      ((Listing(p, m) * rest <= Filing(p, cfg, m)) && (Filing(p, cfg, m) <= rest + Share(q, m)))
  {
    assert Share(p, m) <= Listing(p, m) && Share(q, m) <= Filing(p, cfg, m);
    var after, want := rest + Share(p, m) - Listing(p, m) + Filing(p, cfg, m), rest + Share(q, m);
    if after == want {
      forall t | t in Listing(p, m) * rest ensures t in Filing(p, cfg, m) {
        assert t in want;
      }
    }
    if Listing(p, m) * rest <= Filing(p, cfg, m) && Filing(p, cfg, m) <= want {
      forall t | t in want ensures t in after {
        assert t in rest && t in Listing(p, m) ==> t in Listing(p, m) * rest;
      }
    }
  }

  lemma SetPortListIff(p: PortRec, rest: seq<PortRec>, q: PortRec, cfg: PortCfg)
    requires q.linkName == cfg.linkName && q.mode == cfg.mode && q.linkType == cfg.linkType
    requires q.enabled == cfg.enabled && q.mgt == cfg.mgt && Changed(p, cfg)
    ensures !Disturbs(p, rest, cfg) <==> forall m: Members ::
      ActiveSet(rest, m) + Share(p, m) - Listing(p, m) + Filing(p, cfg, m) == ActiveSet(rest, m) + Share(q, m)
  {
    forall m: Members
      ensures (ActiveSet(rest, m) + Share(p, m) - Listing(p, m) + Filing(p, cfg, m)
               == ActiveSet(rest, m) + Share(q, m)) <==>
        ((Listing(p, m) * ActiveSet(rest, m) <= Filing(p, cfg, m)) &&
         (Filing(p, cfg, m) <= ActiveSet(rest, m) + Share(q, m)))
    {
      SetPortList(p, ActiveSet(rest, m), q, cfg, m);
    }
    if Changed(p, cfg) && SharesToken(p, rest) && Fold(p) !in Filing(p, cfg, MembersOf(p).value) {
      var m := MembersOf(p).value;
      assert Fold(p) in Listing(p, m) * ActiveSet(rest, m);
    } else if Disturbs(p, rest, cfg) {
      var m := LandsIn(p, cfg).value;
      assert Fold(q) in Filing(p, cfg, m) && Fold(q) !in ActiveSet(rest, m) + Share(q, m);
    } else {
      forall m: Members
        ensures Listing(p, m) * ActiveSet(rest, m) <= Filing(p, cfg, m)
        ensures Filing(p, cfg, m) <= ActiveSet(rest, m) + Share(q, m)
      {
      }
    }
  }

  /** Reconfiguring a port keeps the index exactly when it does not disturb it. */
  lemma SetPortKeepsIndexIff(b: BridgeRec, psm: Psm, cfg: PortCfg)
    requires TokenFree(cfg.linkName) && IndexOf(b.ports, cfg.inst) < |b.ports|
    requires Index(b, psm)
    ensures var i := IndexOf(b.ports, cfg.inst);
      Index(SetPort(b, psm, cfg).0, SetPort(b, psm, cfg).1)
      <==> !Disturbs(b.ports[i], DropAt(b.ports, i), cfg)
  {
    var i := IndexOf(b.ports, cfg.inst);
    var p, rest, q := b.ports[i], DropAt(b.ports, i), Updated(b, b.ports[i], cfg);
    var (b', psm') := SetPort(b, psm, cfg);
    forall m: Members
      ensures ActiveSet(b'.ports, m) == ActiveSet(rest, m) + Share(q, m)
      ensures TokensAt(psm', b'.l2, m)
           == if Changed(p, cfg) then ActiveSet(rest, m) + Share(p, m) - Listing(p, m) + Filing(p, cfg, m)
              else ActiveSet(rest, m) + Share(p, m)
    {
      ActiveReplaced(b.ports, i, q, m);
      SetPortTokens(b, psm, cfg, p, m);
    }
    if Changed(p, cfg) {
      SetPortListIff(p, rest, q, cfg);
    } else {
      UnchangedListIff(p, rest, q, cfg);
    }
  }

  lemma UnchangedListIff(p: PortRec, rest: seq<PortRec>, q: PortRec, cfg: PortCfg)
    requires q.linkName == p.linkName == cfg.linkName && q.mode == p.mode == cfg.mode
    requires q.linkType == p.linkType == cfg.linkType && q.enabled == p.enabled == cfg.enabled
    requires q.mgt == cfg.mgt && !Changed(p, cfg)
    ensures !Disturbs(p, rest, cfg) <==> forall m: Members ::
      ActiveSet(rest, m) + Share(p, m) == ActiveSet(rest, m) + Share(q, m)
  {
    if Disturbs(p, rest, cfg) {
      var m := MembersOf(p).value;
      assert (Fold(p) in ActiveSet(rest, m) + Share(p, m)) != (Fold(p) in ActiveSet(rest, m) + Share(q, m));
    }
  }
}
