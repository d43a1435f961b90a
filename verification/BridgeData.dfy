/** The values the bridge manager keeps: bridges, ports, the PSM records that mirror
    them, and the text form of every record. */
module BridgeData {
  import opened Text
  import opened Decimal
  import opened Wrappers

  datatype LinkType =
    NoLink | Eth | EthVlan | Usb | Hpna | Moca | HomePlug | Upa | WiFiSsid | BridgeLink | Gre
  datatype Mode = UnknownMode | PassThrough | Tagging
  datatype Standard = D2004 | Q2005 | OtherStandard

  /** The five member lists of a bridge. */
  datatype Members = Sw | EthList | MocaList | GreList | WiFi

  datatype BridgeField =
    Name | Vid | PriorityTag | Enable | MemberList(list: Members) | Link
    | Alias | StandardName | InstanceNum | Type | AllowDelete
  datatype PortField =
    Pvid | PortPriTag | PortEnable | PortAlias | PortName | LinkName | LinkKind
    | Management | PortMode | PortInstanceNum | Upstream | PortAllowDelete

  /** A PSM record name. NoPath is the empty name. */
  datatype Key =
    | BridgeKey(l2: nat, field: BridgeField)
    | PortKey(l2: nat, port: nat, portField: PortField)
    | NoPath

  type Psm = map<Key, string>

  datatype PortCfg = PortCfg(
    inst: nat, alias: string, linkName: string, linkType: LinkType, mgt: bool, priTag: bool,
    mode: Mode, enabled: bool, upstream: bool, allowDelete: bool)

  datatype PortRec = PortRec(
    inst: nat, alias: string, name: string, linkName: string, linkType: LinkType, mgt: bool,
    priTag: bool, mode: Mode, enabled: bool, upstream: bool, allowDelete: bool, pvid: int)

  datatype BridgeCfg = BridgeCfg(
    inst: nat, alias: string, enabled: bool, allowDelete: bool, standard: Standard)

  datatype BridgeRec = BridgeRec(
    inst: nat, l2: nat, alias: string, name: string, typ: string, standard: Standard, vid: int,
    enabled: bool, priTag: bool, allowDelete: bool, upstream: bool, numPorts: nat,
    ports: seq<PortRec>)

  /** DMSB_HIDEN_LAN_INF */
  const HIDDEN_LINK := "l2sd0-t"
  const BLANK := " "

  function Get(psm: Psm, k: Key): string {
    if k in psm then psm[k] else ""
  }

  // ---------------------------------------------------------------- member strings

  /** The list a port belongs to; None for the link types the macro has no branch for. */
  function ListOf(linkName: string, linkType: LinkType): Option<Members> {
    if Contains(linkName, "sw") then Some(Sw)
    else match linkType
      case WiFiSsid => Some(WiFi)
      case Eth => Some(EthList)
      case EthVlan => Some(EthList)
      case Moca => Some(MocaList)
      case Gre => Some(GreList)
      case _ => None
  }

  /** The member string: "-t" behind the link name marks a pass-through port. */
  function MemberText(linkName: string, mode: Mode): string {
    if mode == PassThrough then linkName + "-t" else linkName
  }

  function MembersOf(p: PortRec): Option<Members> {
    ListOf(p.linkName, p.linkType)
  }

  function Member(p: PortRec): string {
    MemberText(p.linkName, p.mode)
  }

  lemma MemberIsWord(linkName: string, mode: Mode)
    requires linkName != "" && DELIM !in linkName
    ensures Word(MemberText(linkName, mode))
  {
    assert DELIM !in "-t";
  }

  // ---------------------------------------------------------------- record text

  function BoolText(b: bool): string {
    if b then "TRUE" else "FALSE"
  }

  function ReadBool(s: string): bool {
    SameText(s, "TRUE")
  }

  lemma ReadBoolText(b: bool)
    ensures ReadBool(BoolText(b)) == b
  {
    if !b {
      assert Lower("FALSE")[0] == 'f' && Lower("TRUE")[0] == 't';
    }
  }

  /** _COSA_GetInterfaceTypeStr */
  function LinkTypeText(t: LinkType): string {
    match t
    case Eth => "Ethernet"
    case EthVlan => "Ethernet"
    case Usb => "Usb"
    case Hpna => "Hpna"
    case Moca => "Moca"
    case Gre => "Gre"
    case HomePlug => "HomePlug"
    case Upa => "Upa"
    case WiFiSsid => "WiFi"
    case BridgeLink => "Bridge"
    case NoLink => ""
  }

  function ReadLinkType(s: string): LinkType {
    if s == "Ethernet" then Eth
    else if s == "Moca" then Moca
    else if s == "Gre" then Gre
    else if s == "WiFi" then WiFiSsid
    else if s == "Bridge" then BridgeLink
    else NoLink
  }

  function ModeText(m: Mode): string {
    if m == PassThrough then "PassThrough" else "Tagging"
  }

  function ReadMode(s: string): Mode {
    if s == "PassThrough" then PassThrough else Tagging
  }

  function StandardText(s: Standard): string {
    match s
    case Q2005 => "BRG_STD_8021Q_2005"
    case D2004 => "BRG_STD_8021D_2004"
    case OtherStandard => "UNKNOWN"
  }

  function ReadStandard(s: string): Standard {
    if s == "BRG_STD_8021Q_2005" then Q2005 else D2004
  }

  /** The text _Psm_SetBPort writes for one field of a port. */
  function PortText(p: PortRec, f: PortField): string {
    match f
    case PortAllowDelete => BoolText(p.allowDelete)
    case Pvid => DecInt(p.pvid)
    case PortPriTag => BoolText(p.priTag)
    case PortEnable => BoolText(p.enabled)
    case PortAlias => p.alias
    case PortName => p.name
    case LinkName => p.linkName
    case LinkKind => LinkTypeText(p.linkType)
    case Management => BoolText(p.mgt)
    case PortMode => ModeText(p.mode)
    case PortInstanceNum => DecInt(p.inst)
    case Upstream => BoolText(p.upstream)
  }

  /** g_bPortTemple, in the order _Psm_SetBPort writes it. */
  function PortFields(): seq<PortField> {
    [PortAllowDelete, Pvid, PortPriTag, PortEnable, PortAlias, PortName, LinkName, LinkKind,
     Management, PortMode, PortInstanceNum, Upstream]
  }

  lemma PortFieldsAreAll(f: PortField)
    ensures f in PortFields()
  {
    var t := PortFields();
    assert t[0] == PortAllowDelete && t[1] == Pvid && t[2] == PortPriTag && t[3] == PortEnable;
    assert t[4] == PortAlias && t[5] == PortName && t[6] == LinkName && t[7] == LinkKind;
    assert t[8] == Management && t[9] == PortMode && t[10] == PortInstanceNum && t[11] == Upstream;
  }

  /** The first records of a port, in the given field order. */
  function SaveFields(psm: Psm, l2: nat, inst: nat, p: PortRec, fields: seq<PortField>): Psm {
    if fields == [] then psm
    else
      var last := fields[|fields| - 1];
      SaveFields(psm, l2, inst, p, fields[..|fields| - 1])[PortKey(l2, inst, last) := PortText(p, last)]
  }

  function EraseFields(psm: Psm, l2: nat, inst: nat, fields: seq<PortField>): Psm {
    if fields == [] then psm
    else
      EraseFields(psm, l2, inst, fields[..|fields| - 1]) - {PortKey(l2, inst, fields[|fields| - 1])}
  }

  /** _Psm_SetBPort: every field of the port, under the given instance number. */
  function SavePort(psm: Psm, l2: nat, inst: nat, p: PortRec): Psm {
    SaveFields(psm, l2, inst, p, PortFields())
  }

  /** The record deletions of _COSA_DelBPort. */
  function ErasePort(psm: Psm, l2: nat, inst: nat): Psm {
    EraseFields(psm, l2, inst, PortFields())
  }

  /** The text _Psm_SetBr writes for one field of a bridge; the lists are blanked. */
  function BridgeText(b: BridgeRec, f: BridgeField): string {
    match f
    case AllowDelete => BoolText(b.allowDelete)
    case Alias => b.alias
    case Name => b.name
    case Enable => BoolText(b.enabled)
    case Type => b.typ
    case StandardName => StandardText(b.standard)
    case Vid => DecInt(b.vid)
    case PriorityTag => BoolText(b.priTag)
    case InstanceNum => DecInt(b.inst)
    case MemberList(_) => BLANK
    case Link => BLANK
  }

  predicate IsListField(f: BridgeField) {
    f.MemberList? || f.Link?
  }

  /** The bridge's own fields, in the order _Psm_SetBr writes them. */
  function OwnFields(): seq<BridgeField> {
    [AllowDelete, Alias, Name, Enable, Type, StandardName, Vid, PriorityTag, InstanceNum]
  }

  /** The five member lists and the Link record. */
  function ListFields(): seq<BridgeField> {
    [MemberList(Sw), MemberList(EthList), MemberList(MocaList), MemberList(GreList),
     MemberList(WiFi), Link]
  }

  lemma BridgeFieldsAreAll(f: BridgeField)
    ensures IsListField(f) <==> f in ListFields()
    ensures !IsListField(f) <==> f in OwnFields()
  {
    var o, t := OwnFields(), ListFields();
    assert o[0] == AllowDelete && o[1] == Alias && o[2] == Name && o[3] == Enable && o[4] == Type;
    assert o[5] == StandardName && o[6] == Vid && o[7] == PriorityTag && o[8] == InstanceNum;
    assert t[0] == MemberList(Sw) && t[1] == MemberList(EthList) && t[2] == MemberList(MocaList);
    assert t[3] == MemberList(GreList) && t[4] == MemberList(WiFi) && t[5] == Link;
    if f.MemberList? {
      match f.list {
        case Sw => case EthList => case MocaList => case GreList => case WiFi =>
      }
    }
  }

  function SaveBridgeFields(psm: Psm, b: BridgeRec, fields: seq<BridgeField>): Psm {
    if fields == [] then psm
    else
      var last := fields[|fields| - 1];
      SaveBridgeFields(psm, b, fields[..|fields| - 1])[BridgeKey(b.l2, last) := BridgeText(b, last)]
  }

  function EraseBridgeFields(psm: Psm, l2: nat, fields: seq<BridgeField>): Psm {
    if fields == [] then psm
    else
      EraseBridgeFields(psm, l2, fields[..|fields| - 1]) - {BridgeKey(l2, fields[|fields| - 1])}
  }

  /** _Psm_SetBr: the own fields, and blank lists when the bridge has no ports. */
  function SaveBridge(psm: Psm, b: BridgeRec): Psm {
    var own := SaveBridgeFields(psm, b, OwnFields());
    if b.numPorts == 0 then SaveBridgeFields(own, b, ListFields()) else own
  }

  /** _Psm_DelBr: every record of the bridge template. */
  function EraseBridge(psm: Psm, l2: nat): Psm {
    EraseBridgeFields(psm, l2, OwnFields() + ListFields())
  }

  // ---------------------------------------------------------------- save and reload

  ghost predicate SameRecord(a: Psm, b: Psm, k: Key) {
    (k in a <==> k in b) && (k in a ==> a[k] == b[k])
  }

  /** How far the records of an object agree with it: text by text, or up to what a reload
      loses. */
  datatype Fidelity = Exact | Normalised

  predicate PortTextHolds(text: string, p: PortRec, f: PortField, how: Fidelity) {
    text == PortText(p, f) ||
    (how == Normalised && f == LinkKind && ReadLinkType(text) == NormalLink(p.linkType))
  }

  predicate BridgeTextHolds(text: string, b: BridgeRec, f: BridgeField, how: Fidelity) {
    text == BridgeText(b, f) ||
    (how == Normalised && f == StandardName && ReadStandard(text) == NormalStandard(b.standard))
  }

  ghost predicate PortSaved(psm: Psm, l2: nat, p: PortRec, how: Fidelity) {
    forall f: PortField ::
      var k := PortKey(l2, p.inst, f); k in psm && PortTextHolds(psm[k], p, f, how)
  }

  ghost predicate BridgeSaved(psm: Psm, b: BridgeRec, how: Fidelity) {
    forall f: BridgeField :: !IsListField(f) ==>
      var k := BridgeKey(b.l2, f); k in psm && BridgeTextHolds(psm[k], b, f, how)
  }

  lemma {:induction false} SaveFieldsEffect(psm: Psm, l2: nat, inst: nat, p: PortRec, fields: seq<PortField>)
    ensures forall f :: f in fields ==>
              var k := PortKey(l2, inst, f);
              k in SaveFields(psm, l2, inst, p, fields) &&
              SaveFields(psm, l2, inst, p, fields)[k] == PortText(p, f)
    ensures forall k: Key :: !(k.PortKey? && k.l2 == l2 && k.port == inst) ==>
              SameRecord(psm, SaveFields(psm, l2, inst, p, fields), k)
  {
    if fields != [] {
      SaveFieldsEffect(psm, l2, inst, p, fields[..|fields| - 1]);
    }
  }

  lemma {:induction false} EraseFieldsEffect(psm: Psm, l2: nat, inst: nat, fields: seq<PortField>)
    ensures forall f :: f in fields ==> PortKey(l2, inst, f) !in EraseFields(psm, l2, inst, fields)
    ensures forall k: Key :: !(k.PortKey? && k.l2 == l2 && k.port == inst) ==>
              SameRecord(psm, EraseFields(psm, l2, inst, fields), k)
  {
    if fields != [] {
      EraseFieldsEffect(psm, l2, inst, fields[..|fields| - 1]);
    }
  }

  lemma SavePortEffect(psm: Psm, l2: nat, p: PortRec)
    ensures forall how :: PortSaved(SavePort(psm, l2, p.inst, p), l2, p, how)
    ensures forall k: Key :: !(k.PortKey? && k.l2 == l2 && k.port == p.inst) ==>
              SameRecord(psm, SavePort(psm, l2, p.inst, p), k)
  {
    SaveFieldsEffect(psm, l2, p.inst, p, PortFields());
    forall f ensures f in PortFields() { PortFieldsAreAll(f); }
  }

  lemma ErasePortEffect(psm: Psm, l2: nat, inst: nat)
    ensures forall f :: PortKey(l2, inst, f) !in ErasePort(psm, l2, inst)
    ensures forall k: Key :: !(k.PortKey? && k.l2 == l2 && k.port == inst) ==>
              SameRecord(psm, ErasePort(psm, l2, inst), k)
  {
    EraseFieldsEffect(psm, l2, inst, PortFields());
    forall f ensures f in PortFields() { PortFieldsAreAll(f); }
  }

  lemma {:induction false} SaveBridgeFieldsEffect(psm: Psm, b: BridgeRec, fields: seq<BridgeField>)
    ensures forall f :: f in fields ==>
              var k := BridgeKey(b.l2, f);
              k in SaveBridgeFields(psm, b, fields) &&
              SaveBridgeFields(psm, b, fields)[k] == BridgeText(b, f)
    ensures forall k: Key :: !(k.BridgeKey? && k.l2 == b.l2 && k.field in fields) ==>
              SameRecord(psm, SaveBridgeFields(psm, b, fields), k)
  {
    if fields != [] {
      SaveBridgeFieldsEffect(psm, b, fields[..|fields| - 1]);
      assert fields == fields[..|fields| - 1] + [fields[|fields| - 1]];
    }
  }

  lemma {:induction false} EraseBridgeFieldsEffect(psm: Psm, l2: nat, fields: seq<BridgeField>)
    ensures forall k: Key :: k in EraseBridgeFields(psm, l2, fields) <==>
              k in psm && !(k.BridgeKey? && k.l2 == l2 && k.field in fields)
    ensures forall k: Key :: k in EraseBridgeFields(psm, l2, fields) ==>
              EraseBridgeFields(psm, l2, fields)[k] == psm[k]
  {
    if fields != [] {
      EraseBridgeFieldsEffect(psm, l2, fields[..|fields| - 1]);
      assert fields == fields[..|fields| - 1] + [fields[|fields| - 1]];
    }
  }

  lemma SaveBridgeEffect(psm: Psm, b: BridgeRec)
    ensures forall how :: BridgeSaved(SaveBridge(psm, b), b, how)
    ensures forall k: Key :: !(k.BridgeKey? && k.l2 == b.l2) ==> SameRecord(psm, SaveBridge(psm, b), k)
    ensures forall f :: IsListField(f) && b.numPorts != 0 ==>
              SameRecord(psm, SaveBridge(psm, b), BridgeKey(b.l2, f))
    ensures forall f :: IsListField(f) && b.numPorts == 0 ==>
              Get(SaveBridge(psm, b), BridgeKey(b.l2, f)) == BLANK
  {
    var own := SaveBridgeFields(psm, b, OwnFields());
    SaveBridgeFieldsEffect(psm, b, OwnFields());
    SaveBridgeFieldsEffect(own, b, ListFields());
    forall f ensures (IsListField(f) <==> f in ListFields()) && (!IsListField(f) <==> f in OwnFields()) {
      BridgeFieldsAreAll(f);
    }
    forall f | !IsListField(f) ensures SameRecord(own, SaveBridge(psm, b), BridgeKey(b.l2, f)) {}
  }

  /** Exactly the records of the bridge template go. */
  lemma EraseBridgeEffect(psm: Psm, l2: nat)
    ensures forall k: Key :: k in EraseBridge(psm, l2) <==> k in psm && !(k.BridgeKey? && k.l2 == l2)
    ensures forall k: Key :: k in EraseBridge(psm, l2) ==> EraseBridge(psm, l2)[k] == psm[k]
  {
    EraseBridgeFieldsEffect(psm, l2, OwnFields() + ListFields());
    forall f ensures f in OwnFields() + ListFields() { BridgeFieldsAreAll(f); }
  }

  function NonNegative(n: int): nat {
    if n < 0 then 0 else n
  }

  /** _Psm_GetBPort */
  function ReadPort(psm: Psm, l2: nat, inst: nat): PortRec {
    PortRec(
      NonNegative(Atoi(Get(psm, PortKey(l2, inst, PortInstanceNum)))),
      Get(psm, PortKey(l2, inst, PortAlias)), Get(psm, PortKey(l2, inst, PortName)),
      Get(psm, PortKey(l2, inst, LinkName)),
      ReadLinkType(Get(psm, PortKey(l2, inst, LinkKind))),
      ReadBool(Get(psm, PortKey(l2, inst, Management))),
      ReadBool(Get(psm, PortKey(l2, inst, PortPriTag))),
      ReadMode(Get(psm, PortKey(l2, inst, PortMode))),
      ReadBool(Get(psm, PortKey(l2, inst, PortEnable))),
      ReadBool(Get(psm, PortKey(l2, inst, Upstream))),
      ReadBool(Get(psm, PortKey(l2, inst, PortAllowDelete))),
      Atoi(Get(psm, PortKey(l2, inst, Pvid))))
  }

  function NormalLink(t: LinkType): LinkType {
    match t
    case EthVlan => Eth
    case Usb => NoLink
    case Hpna => NoLink
    case HomePlug => NoLink
    case Upa => NoLink
    case _ => t
  }

  function NormalMode(m: Mode): Mode {
    if m == UnknownMode then Tagging else m
  }

  /** What survives a save and reload of a port. */
  function Normal(p: PortRec): PortRec {
    p.(linkType := NormalLink(p.linkType), mode := NormalMode(p.mode))
  }

  lemma LinkTypeRoundTrip(t: LinkType)
    ensures ReadLinkType(LinkTypeText(t)) == NormalLink(t)
  {
    assert "Ethernet"[0] == 'E' && "Usb"[0] == 'U' && "Hpna"[0] == 'H' && "Moca"[0] == 'M';
    assert "Gre"[0] == 'G' && "HomePlug"[0] == 'H' && "Upa"[0] == 'U' && "WiFi"[0] == 'W';
    assert "Bridge"[0] == 'B';
  }

  lemma SavedPortText(psm: Psm, l2: nat, p: PortRec, f: PortField, how: Fidelity)
    requires PortSaved(psm, l2, p, how)
    ensures if f == LinkKind then ReadLinkType(Get(psm, PortKey(l2, p.inst, f))) == NormalLink(p.linkType)
            else Get(psm, PortKey(l2, p.inst, f)) == PortText(p, f)
  {
    var k := PortKey(l2, p.inst, f);
    assert k in psm && PortTextHolds(psm[k], p, f, how);
    LinkTypeRoundTrip(p.linkType);
  }

  /** The record texts of a port, read back. */
  lemma ReadPortTexts(p: PortRec)
    ensures ReadBool(PortText(p, Management)) == p.mgt && ReadBool(PortText(p, PortPriTag)) == p.priTag
    ensures ReadBool(PortText(p, PortEnable)) == p.enabled && ReadBool(PortText(p, Upstream)) == p.upstream
    ensures ReadBool(PortText(p, PortAllowDelete)) == p.allowDelete
    ensures ReadMode(PortText(p, PortMode)) == NormalMode(p.mode)
    ensures Atoi(PortText(p, Pvid)) == p.pvid && Atoi(PortText(p, PortInstanceNum)) == p.inst
  {
    AtoiDec(p.inst);
    AtoiDec(p.pvid);
    ReadBoolText(p.mgt);
    ReadBoolText(p.priTag);
    ReadBoolText(p.enabled);
    ReadBoolText(p.upstream);
    ReadBoolText(p.allowDelete);
  }

  /** Reload returns the saved port up to the normalisation. */
  lemma ReloadPort(psm: Psm, l2: nat, p: PortRec, how: Fidelity)
    requires PortSaved(psm, l2, p, how)
    ensures ReadPort(psm, l2, p.inst) == Normal(p)
  {
    SavedPortText(psm, l2, p, PortInstanceNum, how);
    SavedPortText(psm, l2, p, PortAlias, how);
    SavedPortText(psm, l2, p, PortName, how);
    SavedPortText(psm, l2, p, LinkName, how);
    SavedPortText(psm, l2, p, LinkKind, how);
    SavedPortText(psm, l2, p, Management, how);
    SavedPortText(psm, l2, p, PortPriTag, how);
    SavedPortText(psm, l2, p, PortMode, how);
    SavedPortText(psm, l2, p, PortEnable, how);
    SavedPortText(psm, l2, p, Upstream, how);
    SavedPortText(psm, l2, p, PortAllowDelete, how);
    SavedPortText(psm, l2, p, Pvid, how);
    ReadPortTexts(p);
  }

  /** A second save and reload changes nothing more, and neither one changes the list or
      the member string. */
  lemma NormalKeepsMember(p: PortRec)
    ensures Normal(Normal(p)) == Normal(p)
    ensures MembersOf(Normal(p)) == MembersOf(p) && Member(Normal(p)) == Member(p)
  {
  }

  /** _Psm_GetBr, without the allocator side effect. */
  function ReadBridge(psm: Psm, l2: nat): BridgeRec {
    BridgeRec(
      NonNegative(Atoi(Get(psm, BridgeKey(l2, InstanceNum)))),
      l2, Get(psm, BridgeKey(l2, Alias)), Get(psm, BridgeKey(l2, Name)),
      Get(psm, BridgeKey(l2, Type)), ReadStandard(Get(psm, BridgeKey(l2, StandardName))),
      Atoi(Get(psm, BridgeKey(l2, Vid))), ReadBool(Get(psm, BridgeKey(l2, Enable))),
      ReadBool(Get(psm, BridgeKey(l2, PriorityTag))),
      ReadBool(Get(psm, BridgeKey(l2, AllowDelete))), true, 0, [])
  }

  function NormalStandard(s: Standard): Standard {
    if s == OtherStandard then D2004 else s
  }

  lemma StandardRoundTrip(s: Standard)
    ensures ReadStandard(StandardText(s)) == NormalStandard(s)
  {
    assert "BRG_STD_8021Q_2005"[12] == 'Q' && "BRG_STD_8021D_2004"[12] == 'D';
  }

  lemma SavedBridgeText(psm: Psm, b: BridgeRec, f: BridgeField, how: Fidelity)
    requires BridgeSaved(psm, b, how) && !IsListField(f)
    ensures BridgeTextHolds(Get(psm, BridgeKey(b.l2, f)), b, f, how)
  {
    var k := BridgeKey(b.l2, f);
    assert k in psm && BridgeTextHolds(psm[k], b, f, how);
  }

  /** The bridge's own fields survive; bUpstream, the counters and the ports are rebuilt. */
  lemma ReloadBridge(psm: Psm, b: BridgeRec, how: Fidelity)
    requires BridgeSaved(psm, b, how)
    ensures ReadBridge(psm, b.l2)
         == b.(standard := NormalStandard(b.standard), upstream := true, numPorts := 0, ports := [])
  {
    SavedBridgeText(psm, b, InstanceNum, how);
    SavedBridgeText(psm, b, Vid, how);
    SavedBridgeText(psm, b, Alias, how);
    SavedBridgeText(psm, b, Name, how);
    SavedBridgeText(psm, b, Type, how);
    SavedBridgeText(psm, b, StandardName, how);
    SavedBridgeText(psm, b, Enable, how);
    SavedBridgeText(psm, b, PriorityTag, how);
    SavedBridgeText(psm, b, AllowDelete, how);
    AtoiDec(b.inst);
    AtoiDec(b.vid);
    ReadBoolText(b.enabled);
    ReadBoolText(b.priTag);
    ReadBoolText(b.allowDelete);
    StandardRoundTrip(b.standard);
  }
}
