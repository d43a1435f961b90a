/** What holds of one bridge and its PSM records between operations, and which operations
    keep it. */
module BridgeInvariant {
  import opened Text
  import opened BridgeData
  import opened BridgeSteps

  // ---------------------------------------------------------------- the Link record

  /** bUpstream is FALSE exactly when the Link record names the hidden interface. */
  ghost predicate LinkAgrees(b: BridgeRec, psm: Psm) {
    !b.upstream <==> Get(psm, BridgeKey(b.l2, Link)) == HIDDEN_LINK
  }

  /** A port that needs the hidden interface forces bUpstream to FALSE and has it in Link. */
  ghost predicate Forced(b: BridgeRec, psm: Psm) {
    (exists p :: p in b.ports && NeedsLink(p)) ==>
      !b.upstream && Get(psm, BridgeKey(b.l2, Link)) == HIDDEN_LINK
  }

  /** A bridge without ports is an upstream bridge, so that blanking its Link is harmless. */
  predicate EmptyIsUpstream(b: BridgeRec) {
    b.numPorts == 0 ==> b.upstream
  }

  lemma AddPortLink(b: BridgeRec, psm: Psm, cfg: PortCfg)
    requires Forced(b, psm)
    ensures var (b', psm') := AddPort(b, psm, cfg);
      Forced(b', psm') && EmptyIsUpstream(b') && (LinkAgrees(b, psm) ==> LinkAgrees(b', psm'))
  {
    SavePortEffect(psm, b.l2, NewPort(b, cfg));
    assert SameRecord(psm, SavePort(psm, b.l2, cfg.inst, NewPort(b, cfg)), BridgeKey(b.l2, Link));
  }

  /** After a deletion the flag and the record are right whatever they were before, and the
      flag is FALSE exactly when a port that needs the hidden interface remains. */
  lemma DelPortLink(b: BridgeRec, psm: Psm, inst: nat)
    requires var i := IndexOf(b.ports, inst); i < |b.ports| && b.ports[i].allowDelete
    ensures var (b', psm') := DelPort(b, psm, inst);
      LinkAgrees(b', psm') &&
      (!b'.upstream <==> exists p :: p in b'.ports && NeedsLink(p)) &&
      (b.numPorts == |b.ports| ==> EmptyIsUpstream(b'))
  {
    assert "" != HIDDEN_LINK;
  }

  /** A port that starts to need the hidden interface without a structural update. */
  predicate QuietlyNeedsLink(b: BridgeRec, psm: Psm, p: PortRec, cfg: PortCfg) {
    !Changed(p, cfg) && NeedsLink(Updated(b, p, cfg)) &&
    (b.upstream || Get(psm, BridgeKey(b.l2, Link)) != HIDDEN_LINK)
  }

  /** Reconfiguring keeps flag and record together, and keeps both forced exactly when
      bUpstream or bManagementPort did not turn a port into one that needs the interface. */
  lemma SetPortLinkIff(b: BridgeRec, psm: Psm, cfg: PortCfg)
    requires IndexOf(b.ports, cfg.inst) < |b.ports|
    requires Forced(b, psm)
    ensures LinkAgrees(b, psm) ==> LinkAgrees(SetPort(b, psm, cfg).0, SetPort(b, psm, cfg).1)
    ensures Forced(SetPort(b, psm, cfg).0, SetPort(b, psm, cfg).1)
       <==> !QuietlyNeedsLink(b, psm, b.ports[IndexOf(b.ports, cfg.inst)], cfg)
  {
    var i := IndexOf(b.ports, cfg.inst);
    var p, q := b.ports[i], Updated(b, b.ports[i], cfg);
    var (up, filed) := Filed(b, psm, p, cfg);
    var link := BridgeKey(b.l2, Link);
    FiledLink(b, psm, p, cfg);
    SavePortEffect(filed, b.l2, q);
    assert SameRecord(filed, SavePort(filed, b.l2, cfg.inst, q), link);
    assert b.ports[i := q][i] == q;
    if !QuietlyNeedsLink(b, psm, p, cfg) {
      forall x | x in b.ports[i := q] && NeedsLink(x) ensures !up && Get(filed, link) == HIDDEN_LINK {
        if x != q {
          assert x in b.ports;
        }
      }
    }
  }

  lemma FiledLink(b: BridgeRec, psm: Psm, p: PortRec, cfg: PortCfg)
    ensures var (up, filed) := Filed(b, psm, p, cfg);
      var link := BridgeKey(b.l2, Link);
      if Changed(p, cfg) && cfg.enabled && cfg.linkName != "" && !cfg.upstream
      then !up && Get(filed, link) == HIDDEN_LINK
      else up == b.upstream && Get(filed, link) == Get(psm, link)
  {
    var link := BridgeKey(b.l2, Link);
    var unlisted, q := Unlist(psm, b.l2, p), Restructured(p, cfg);
    assert SameRecord(psm, unlisted, link);
    if Changed(p, cfg) && q.enabled && Named(q) {
      EnlistKeepsLink(unlisted, b.l2, q, if Named(p) then Path(b.l2, p, NoPath) else NoPath);
    }
  }

  lemma EnlistKeepsLink(psm: Psm, l2: nat, q: PortRec, carried: Key)
    requires carried != BridgeKey(l2, Link)
    ensures SameRecord(psm, Enlist(psm, l2, q, carried), BridgeKey(l2, Link))
  {
  }

  /** Saving the bridge blanks Link when it has no ports: the pair stays together exactly
      when a bridge without ports is upstream. */
  lemma SaveBridgeLinkIff(b: BridgeRec, psm: Psm)
    requires LinkAgrees(b, psm)
    ensures LinkAgrees(b, SaveBridge(psm, b)) <==> EmptyIsUpstream(b)
  {
    SaveBridgeEffect(psm, b);
    assert BLANK != HIDDEN_LINK;
    var link := BridgeKey(b.l2, Link);
    assert b.numPorts != 0 ==> SameRecord(psm, SaveBridge(psm, b), link);
  }

  // ---------------------------------------------------------------- the member lists

  function ListAt(psm: Psm, l2: nat, m: Members): string {
    Get(psm, BridgeKey(l2, MemberList(m)))
  }

  /** No list names a member twice, without regard to case. */
  ghost predicate NoRepeats(psm: Psm, l2: nat) {
    forall m :: Distinct(Tokens(ListAt(psm, l2, m)))
  }

  lemma NoRepeatsFrame(psm: Psm, psm': Psm, l2: nat)
    requires NoRepeats(psm, l2)
    requires forall m :: SameRecord(psm, psm', BridgeKey(l2, MemberList(m)))
    ensures NoRepeats(psm', l2)
  {
    forall m ensures ListAt(psm', l2, m) == ListAt(psm, l2, m) {
      assert SameRecord(psm, psm', BridgeKey(l2, MemberList(m)));
    }
  }

  lemma UnlistNoRepeats(psm: Psm, l2: nat, p: PortRec)
    requires NoRepeats(psm, l2)
    ensures NoRepeats(Unlist(psm, l2, p), l2)
  {
    forall m ensures Distinct(Tokens(ListAt(Unlist(psm, l2, p), l2, m))) {
      assert Distinct(Tokens(ListAt(psm, l2, m)));
      EditsKeepDistinct(ListAt(psm, l2, m), Member(p));
    }
  }

  lemma EnlistNoRepeats(psm: Psm, l2: nat, p: PortRec, carried: Key)
    requires NoRepeats(psm, l2) && TokenFree(p.linkName)
    ensures NoRepeats(Enlist(psm, l2, p, carried), l2)
  {
    if Named(p) {
      MemberIsWord(p.linkName, p.mode);
    }
    forall m ensures Distinct(Tokens(ListAt(Enlist(psm, l2, p, carried), l2, m))) {
      assert Distinct(Tokens(ListAt(psm, l2, m)));
      EditsKeepDistinct(ListAt(psm, l2, m), Member(p));
    }
  }

  lemma SaveNoRepeats(psm: Psm, l2: nat, p: PortRec)
    requires NoRepeats(psm, l2)
    ensures NoRepeats(SavePort(psm, l2, p.inst, p), l2)
  {
    SavePortEffect(psm, l2, p);
    NoRepeatsFrame(psm, SavePort(psm, l2, p.inst, p), l2);
  }

  lemma AddPortNoRepeats(b: BridgeRec, psm: Psm, cfg: PortCfg)
    requires NoRepeats(psm, b.l2) && TokenFree(cfg.linkName)
    ensures NoRepeats(AddPort(b, psm, cfg).1, b.l2)
  {
    var p := NewPort(b, cfg);
    SaveNoRepeats(psm, b.l2, p);
    EnlistNoRepeats(SavePort(psm, b.l2, p.inst, p), b.l2, p, NoPath);
    NoRepeatsFrame(Enrolled(psm, b.l2, p), AddPort(b, psm, cfg).1, b.l2);
  }

  lemma DelPortNoRepeats(b: BridgeRec, psm: Psm, inst: nat)
    requires var i := IndexOf(b.ports, inst); i < |b.ports| && b.ports[i].allowDelete
    requires NoRepeats(psm, b.l2)
    ensures NoRepeats(DelPort(b, psm, inst).1, b.l2)
  {
    var p, erased := b.ports[IndexOf(b.ports, inst)], ErasePort(psm, b.l2, inst);
    ErasePortEffect(psm, b.l2, inst);
    NoRepeatsFrame(psm, erased, b.l2);
    UnlistNoRepeats(erased, b.l2, p);
    NoRepeatsFrame(Withdrawn(psm, b.l2, p), DelPort(b, psm, inst).1, b.l2);
  }

  lemma SetPortNoRepeats(b: BridgeRec, psm: Psm, cfg: PortCfg)
    requires IndexOf(b.ports, cfg.inst) < |b.ports|
    requires NoRepeats(psm, b.l2) && TokenFree(cfg.linkName)
    ensures NoRepeats(SetPort(b, psm, cfg).1, b.l2)
  {
    var p := b.ports[IndexOf(b.ports, cfg.inst)];
    FiledNoRepeats(b, psm, p, cfg);
    SaveNoRepeats(Filed(b, psm, p, cfg).1, b.l2, Updated(b, p, cfg));
  }

  lemma FiledNoRepeats(b: BridgeRec, psm: Psm, p: PortRec, cfg: PortCfg)
    requires NoRepeats(psm, b.l2) && TokenFree(cfg.linkName)
    ensures NoRepeats(Filed(b, psm, p, cfg).1, b.l2)
  {
    if Changed(p, cfg) {
      var unlisted, q := Unlist(psm, b.l2, p), Restructured(p, cfg);
      var carried := if Named(p) then Path(b.l2, p, NoPath) else NoPath;
      UnlistNoRepeats(psm, b.l2, p);
      EnlistNoRepeats(unlisted, b.l2, q, carried);
      NoRepeatsFrame(Enlist(unlisted, b.l2, q, carried), AddLink(Enlist(unlisted, b.l2, q, carried), b.l2), b.l2);
    }
  }

  /** Two active ports of one bridge that carry the same member string into different lists. */
  ghost predicate InTwoLists(ports: seq<PortRec>) {
    exists p, q :: p in ports && q in ports && Active(p) && Active(q) &&
      MembersOf(p).Some? && MembersOf(q).Some? && MembersOf(p) != MembersOf(q) && Fold(p) == Fold(q)
  }

  /** A token is in two lists of a bridge exactly when two of its ports put it there. */
  lemma TwoListsIff(b: BridgeRec, psm: Psm)
    requires Index(b, psm)
    ensures InTwoLists(b.ports) <==> exists m, n :: m != n && TokensAt(psm, b.l2, m) * TokensAt(psm, b.l2, n) != {}
  {
    if InTwoLists(b.ports) {
      var p, q :| p in b.ports && q in b.ports && Active(p) && Active(q) &&
        MembersOf(p).Some? && MembersOf(q).Some? && MembersOf(p) != MembersOf(q) && Fold(p) == Fold(q);
      var m, n := MembersOf(p).value, MembersOf(q).value;
      assert Fold(p) in TokensAt(psm, b.l2, m) * TokensAt(psm, b.l2, n);
    }
    forall m, n | m != n && TokensAt(psm, b.l2, m) * TokensAt(psm, b.l2, n) != {} ensures InTwoLists(b.ports) {
      var t :| t in TokensAt(psm, b.l2, m) * TokensAt(psm, b.l2, n);
      assert t in ActiveSet(b.ports, m) && t in ActiveSet(b.ports, n);
    }
  }

  // ---------------------------------------------------------------- the port records

  ghost predicate DistinctPorts(ports: seq<PortRec>) {
    forall i, j :: 0 <= i < j < |ports| ==> ports[i].inst != ports[j].inst
  }

  ghost predicate HasPort(ports: seq<PortRec>, inst: nat) {
    exists p :: p in ports && p.inst == inst
  }

  /** Conservation: the counter counts the list, every port is on record as it is, every
      port record belongs to a port of the list, and so do the bridge's own fields. */
  ghost predicate Records(b: BridgeRec, psm: Psm, how: Fidelity) {
    b.numPorts == |b.ports| && DistinctPorts(b.ports) && BridgeSaved(psm, b, how) &&
    (forall p :: p in b.ports ==> PortSaved(psm, b.l2, p, how)) &&
    (forall inst, f :: PortKey(b.l2, inst, f) in psm ==> HasPort(b.ports, inst))
  }

  /** Every record outside one port and the list fields of one bridge is the same. */
  ghost predicate OnlyPortAndLists(a: Psm, c: Psm, l2: nat, inst: nat) {
    forall k: Key ::
      !(k.PortKey? && k.l2 == l2 && k.port == inst) &&
      !(k.BridgeKey? && k.l2 == l2 && IsListField(k.field)) && k != NoPath
      ==> SameRecord(a, c, k)
  }

  /** A change confined to one port and the list fields, seen from the record invariant. */
  lemma RecordsFrom(b: BridgeRec, psm: Psm, b': BridgeRec, psm': Psm, inst: nat, how: Fidelity)
    requires Records(b, psm, how) && OnlyPortAndLists(psm, psm', b.l2, inst)
    requires b' == b.(ports := b'.ports, numPorts := b'.numPorts, upstream := b'.upstream)
    requires b'.numPorts == |b'.ports| && DistinctPorts(b'.ports)
    requires forall q :: q in b'.ports ==> if q.inst == inst then PortSaved(psm', b.l2, q, how) else q in b.ports
    requires forall q :: q in b.ports && q.inst != inst ==> q in b'.ports
    requires HasPort(b'.ports, inst) || forall f :: PortKey(b.l2, inst, f) !in psm'
    ensures Records(b', psm', how)
  {
    forall q | q in b'.ports && q.inst != inst ensures PortSaved(psm', b.l2, q, how) {
      forall f ensures SameRecord(psm, psm', PortKey(b.l2, q.inst, f)) {}
    }
    forall n, f | PortKey(b.l2, n, f) in psm' ensures HasPort(b'.ports, n) {
      if n != inst {
        assert SameRecord(psm, psm', PortKey(b.l2, n, f));
        var q :| q in b.ports && q.inst == n;
        assert q in b'.ports;
      }
    }
    forall f: BridgeField | !IsListField(f)
      ensures var k := BridgeKey(b'.l2, f); k in psm' && BridgeTextHolds(psm'[k], b', f, how)
    {
      assert SameRecord(psm, psm', BridgeKey(b.l2, f));
    }
  }

  lemma PortSavedFrame(psm: Psm, psm': Psm, l2: nat, p: PortRec, how: Fidelity)
    requires PortSaved(psm, l2, p, how)
    requires forall f :: SameRecord(psm, psm', PortKey(l2, p.inst, f))
    ensures PortSaved(psm', l2, p, how)
  {
    forall f ensures SameRecord(psm, psm', PortKey(l2, p.inst, f)) {}
  }

  lemma AddPortFrame(b: BridgeRec, psm: Psm, cfg: PortCfg)
    ensures OnlyPortAndLists(psm, AddPort(b, psm, cfg).1, b.l2, cfg.inst)
    ensures forall how :: PortSaved(AddPort(b, psm, cfg).1, b.l2, NewPort(b, cfg), how)
  {
    var p := NewPort(b, cfg);
    SavePortEffect(psm, b.l2, p);
    var saved, psm' := SavePort(psm, b.l2, p.inst, p), AddPort(b, psm, cfg).1;
    forall k: Key | !(k.BridgeKey? && k.l2 == b.l2 && IsListField(k.field)) && k != NoPath
      ensures SameRecord(saved, psm', k)
    {
    }
    forall how ensures PortSaved(psm', b.l2, p, how) {
      assert PortSaved(saved, b.l2, p, how);
      PortSavedFrame(saved, psm', b.l2, p, how);
    }
  }

  lemma DelPortFrame(b: BridgeRec, psm: Psm, inst: nat)
    requires var i := IndexOf(b.ports, inst); i < |b.ports| && b.ports[i].allowDelete
    ensures OnlyPortAndLists(psm, DelPort(b, psm, inst).1, b.l2, inst)
    ensures forall f :: PortKey(b.l2, inst, f) !in DelPort(b, psm, inst).1
  {
    ErasePortEffect(psm, b.l2, inst);
    var erased, psm' := ErasePort(psm, b.l2, inst), DelPort(b, psm, inst).1;
    forall k: Key | !(k.BridgeKey? && k.l2 == b.l2 && IsListField(k.field)) && k != NoPath
      ensures SameRecord(erased, psm', k)
    {
    }
    forall f ensures PortKey(b.l2, inst, f) !in psm' {
      assert SameRecord(erased, psm', PortKey(b.l2, inst, f));
    }
  }

  lemma SetPortFrame(b: BridgeRec, psm: Psm, cfg: PortCfg)
    requires IndexOf(b.ports, cfg.inst) < |b.ports|
    ensures OnlyPortAndLists(psm, SetPort(b, psm, cfg).1, b.l2, cfg.inst)
    ensures var q := Updated(b, b.ports[IndexOf(b.ports, cfg.inst)], cfg);
      forall how :: PortSaved(SetPort(b, psm, cfg).1, b.l2, q, how)
  {
    var p := b.ports[IndexOf(b.ports, cfg.inst)];
    var filed := Filed(b, psm, p, cfg).1;
    FiledFrame(b, psm, p, cfg);
    SavePortEffect(filed, b.l2, Updated(b, p, cfg));
  }

  lemma FiledFrame(b: BridgeRec, psm: Psm, p: PortRec, cfg: PortCfg)
    ensures forall k: Key :: !(k.BridgeKey? && k.l2 == b.l2 && IsListField(k.field)) && k != NoPath ==>
              SameRecord(psm, Filed(b, psm, p, cfg).1, k)
  {
    var unlisted := Unlist(psm, b.l2, p);
    assert forall k: Key :: !(k.BridgeKey? && k.l2 == b.l2 && IsListField(k.field)) && k != NoPath ==>
             SameRecord(psm, unlisted, k);
  }

  lemma AddPortRecords(b: BridgeRec, psm: Psm, cfg: PortCfg, how: Fidelity)
    requires Records(b, psm, how) && !HasPort(b.ports, cfg.inst)
    ensures Records(AddPort(b, psm, cfg).0, AddPort(b, psm, cfg).1, how)
  {
    AddPortFrame(b, psm, cfg);
    var ports := b.ports + [NewPort(b, cfg)];
    assert ports[|b.ports|] == NewPort(b, cfg);
    forall q | q in b.ports ensures q.inst != cfg.inst {}
    RecordsFrom(b, psm, AddPort(b, psm, cfg).0, AddPort(b, psm, cfg).1, cfg.inst, how);
  }

  lemma DropMembers(ports: seq<PortRec>, i: nat)
    requires DistinctPorts(ports) && i < |ports|
    ensures DistinctPorts(DropAt(ports, i)) && |DropAt(ports, i)| == |ports| - 1
    ensures forall q :: q in DropAt(ports, i) <==> q in ports && q.inst != ports[i].inst
  {
    var rest := DropAt(ports, i);
    forall q | q in rest ensures q in ports && q.inst != ports[i].inst {
      var j :| 0 <= j < |rest| && rest[j] == q;
      assert q == ports[if j < i then j else j + 1];
    }
    forall q | q in ports && q.inst != ports[i].inst ensures q in rest {
      var j :| 0 <= j < |ports| && ports[j] == q;
      assert q == rest[if j < i then j else j - 1];
    }
  }

  lemma DelPortRecords(b: BridgeRec, psm: Psm, inst: nat, how: Fidelity)
    requires Records(b, psm, how)
    requires var i := IndexOf(b.ports, inst); i < |b.ports| && b.ports[i].allowDelete
    ensures Records(DelPort(b, psm, inst).0, DelPort(b, psm, inst).1, how)
  {
    DelPortFrame(b, psm, inst);
    DropMembers(b.ports, IndexOf(b.ports, inst));
    RecordsFrom(b, psm, DelPort(b, psm, inst).0, DelPort(b, psm, inst).1, inst, how);
  }

  lemma SetPortRecords(b: BridgeRec, psm: Psm, cfg: PortCfg, how: Fidelity)
    requires Records(b, psm, how) && IndexOf(b.ports, cfg.inst) < |b.ports|
    ensures Records(SetPort(b, psm, cfg).0, SetPort(b, psm, cfg).1, how)
  {
    var i := IndexOf(b.ports, cfg.inst);
    var q := Updated(b, b.ports[i], cfg);
    SetPortFrame(b, psm, cfg);
    var ports := b.ports[i := q];
    assert ports[i] == q;
    forall x | x in ports && x.inst == cfg.inst ensures x == q {
      var j :| 0 <= j < |ports| && ports[j] == x;
    }
    forall x | x in b.ports && x.inst != cfg.inst ensures x in ports {
      var j :| 0 <= j < |b.ports| && b.ports[j] == x;
      assert ports[j] == x;
    }
    RecordsFrom(b, psm, SetPort(b, psm, cfg).0, SetPort(b, psm, cfg).1, cfg.inst, how);
  }

  lemma SaveBridgeRecords(b: BridgeRec, b': BridgeRec, psm: Psm, how: Fidelity)
    requires Records(b, psm, how)
    requires b'.l2 == b.l2 && b'.ports == b.ports && b'.numPorts == b.numPorts
    ensures Records(b', SaveBridge(psm, b'), how)
  {
    var psm' := SaveBridge(psm, b');
    SaveBridgeEffect(psm, b');
    forall p | p in b.ports ensures PortSaved(psm', b.l2, p, how) {
      forall f ensures SameRecord(psm, psm', PortKey(b.l2, p.inst, f)) {}
    }
    forall n, f | PortKey(b.l2, n, f) in psm' ensures HasPort(b.ports, n) {
      assert SameRecord(psm, psm', PortKey(b.l2, n, f));
    }
  }

  // ---------------------------------------------------------------- the whole invariant

  /** Two ports with the same token in the same list. */
  predicate Clash(p: PortRec, q: PortRec) {
    Named(p) && Named(q) && MembersOf(p).Some? && MembersOf(p) == MembersOf(q) && Fold(p) == Fold(q)
  }

  /** Link names are single tokens, and no two named ports of one list share one. */
  ghost predicate TokensApart(ports: seq<PortRec>) {
    (forall p :: p in ports ==> TokenFree(p.linkName)) &&
    (forall i, j :: 0 <= i < |ports| && 0 <= j < |ports| && i != j ==> !Clash(ports[i], ports[j]))
  }

  /** What holds of a bridge at a fidelity: up to a reload, or to the letter. Flag and Link
      record are only then the same thing. */
  ghost predicate BridgeInv(b: BridgeRec, psm: Psm, how: Fidelity) {
    Index(b, psm) && NoRepeats(psm, b.l2) && Forced(b, psm) && EmptyIsUpstream(b) &&
    Records(b, psm, how) && TokensApart(b.ports) && (how == Exact ==> LinkAgrees(b, psm))
  }

  lemma ExactIsNormalised(b: BridgeRec, psm: Psm)
    requires BridgeInv(b, psm, Exact)
    ensures BridgeInv(b, psm, Normalised)
  {
    forall p | p in b.ports ensures PortSaved(psm, b.l2, p, Normalised) {
      assert PortSaved(psm, b.l2, p, Exact);
    }
  }

  /** The invariant reads the records of its own bridge only. */
  lemma BridgeInvFrame(b: BridgeRec, psm: Psm, psm': Psm, how: Fidelity)
    requires BridgeInv(b, psm, how)
    requires forall k: Key :: k != NoPath && k.l2 == b.l2 ==> SameRecord(psm, psm', k)
    ensures BridgeInv(b, psm', how)
  {
    assert SameRecord(psm, psm', BridgeKey(b.l2, Link));
    forall m ensures ListAt(psm', b.l2, m) == ListAt(psm, b.l2, m) {
      assert SameRecord(psm, psm', BridgeKey(b.l2, MemberList(m)));
    }
    forall p | p in b.ports ensures PortSaved(psm', b.l2, p, how) {
      forall f ensures SameRecord(psm, psm', PortKey(b.l2, p.inst, f)) {}
    }
    forall n, f | PortKey(b.l2, n, f) in psm' ensures HasPort(b.ports, n) {
      assert SameRecord(psm, psm', PortKey(b.l2, n, f));
    }
    forall f: BridgeField | !IsListField(f)
      ensures var k := BridgeKey(b.l2, f); k in psm' && BridgeTextHolds(psm'[k], b, f, how)
    {
      assert SameRecord(psm, psm', BridgeKey(b.l2, f));
    }
  }

  /** A port configuration that may be added: fresh number, one token, not taken. */
  ghost predicate AddFits(b: BridgeRec, cfg: PortCfg) {
    !HasPort(b.ports, cfg.inst) && TokenFree(cfg.linkName) &&
    Apart(b.ports, ListOf(cfg.linkName, cfg.linkType), Lower(MemberText(cfg.linkName, cfg.mode)))
  }

  lemma AddPortKeepsInv(b: BridgeRec, psm: Psm, cfg: PortCfg, how: Fidelity)
    requires BridgeInv(b, psm, how) && AddFits(b, cfg)
    ensures BridgeInv(AddPort(b, psm, cfg).0, AddPort(b, psm, cfg).1, how)
  {
    AddPortKeepsIndex(b, psm, cfg);
    AddPortNoRepeats(b, psm, cfg);
    AddPortLink(b, psm, cfg);
    AddPortRecords(b, psm, cfg, how);
    forall p | p in b.ports + [NewPort(b, cfg)] ensures TokenFree(p.linkName) {}
    assert forall q :: q in b.ports ==> !Clash(q, NewPort(b, cfg));
  }

  lemma RestIsApart(ports: seq<PortRec>, i: nat)
    requires TokensApart(ports) && i < |ports|
    ensures TokensApart(DropAt(ports, i))
    ensures Named(ports[i]) ==> Apart(DropAt(ports, i), MembersOf(ports[i]), Fold(ports[i]))
  {
    var rest := DropAt(ports, i);
    assert forall j :: 0 <= j < |rest| ==> rest[j] == ports[if j < i then j else j + 1];
    forall q | q in rest ensures exists j :: 0 <= j < |ports| && j != i && ports[j] == q {
      var j :| 0 <= j < |rest| && rest[j] == q;
      assert ports[if j < i then j else j + 1] == q;
    }
  }

  lemma DelPortKeepsInv(b: BridgeRec, psm: Psm, inst: nat, how: Fidelity)
    requires BridgeInv(b, psm, how)
    ensures BridgeInv(DelPort(b, psm, inst).0, DelPort(b, psm, inst).1, how)
  {
    var i := IndexOf(b.ports, inst);
    if i < |b.ports| && b.ports[i].allowDelete {
      RestIsApart(b.ports, i);
      DelPortKeepsIndexIff(b, psm, inst);
      DelPortNoRepeats(b, psm, inst);
      DelPortLink(b, psm, inst);
      DelPortRecords(b, psm, inst, how);
    }
  }

  /** A reconfiguration that may be applied. */
  ghost predicate SetFits(b: BridgeRec, psm: Psm, cfg: PortCfg) {
    var i := IndexOf(b.ports, cfg.inst);
    i < |b.ports| ==>
      TokenFree(cfg.linkName) && !Misfiles(b.ports[i], cfg) &&
      !QuietlyNeedsLink(b, psm, b.ports[i], cfg) &&
      Apart(DropAt(b.ports, i), FiledUnder(b.ports[i], cfg), Lower(MemberText(cfg.linkName, cfg.mode)))
  }

  lemma SetPortKeepsInv(b: BridgeRec, psm: Psm, cfg: PortCfg, how: Fidelity)
    requires BridgeInv(b, psm, how) && SetFits(b, psm, cfg)
    ensures BridgeInv(SetPort(b, psm, cfg).0, SetPort(b, psm, cfg).1, how)
  {
    var i := IndexOf(b.ports, cfg.inst);
    if i < |b.ports| {
      RestIsApart(b.ports, i);
      SetPortKeepsIndexIff(b, psm, cfg);
      SetPortNoRepeats(b, psm, cfg);
      SetPortLinkIff(b, psm, cfg);
      SetPortRecords(b, psm, cfg, how);
      ReplacedIsApart(b.ports, i, Updated(b, b.ports[i], cfg));
    }
  }

  lemma ReplacedIsApart(ports: seq<PortRec>, i: nat, q: PortRec)
    requires TokensApart(ports) && i < |ports|
    requires TokenFree(q.linkName)
    requires Apart(DropAt(ports, i), MembersOf(q), Fold(q))
    ensures TokensApart(ports[i := q])
  {
    var rest := DropAt(ports, i);
    forall j | 0 <= j < |ports| && j != i ensures ports[j] in rest {
      assert rest[if j < i then j else j - 1] == ports[j];
    }
  }

  lemma SaveBridgeLink(b: BridgeRec, psm: Psm, how: Fidelity)
    requires Forced(b, psm) && EmptyIsUpstream(b) && b.numPorts == |b.ports|
    requires how == Exact ==> LinkAgrees(b, psm)
    ensures Forced(b, SaveBridge(psm, b)) && (how == Exact ==> LinkAgrees(b, SaveBridge(psm, b)))
  {
    if how == Exact {
      SaveBridgeLinkIff(b, psm);
    }
    SaveBridgeEffect(psm, b);
    assert b.numPorts != 0 ==> SameRecord(psm, SaveBridge(psm, b), BridgeKey(b.l2, Link));
  }

  lemma SaveBridgeKeepsInv(b: BridgeRec, b': BridgeRec, psm: Psm, how: Fidelity)
    requires BridgeInv(b, psm, how)
    requires b' == b.(standard := b'.standard, alias := b'.alias, enabled := b'.enabled, vid := b'.vid)
    ensures BridgeInv(b', SaveBridge(psm, b'), how)
  {
    SaveBridgeEffect(psm, b');
    SaveBridgeLink(b', psm, how);
    SaveBridgeRecords(b, b', psm, how);
    forall m
      ensures TokensAt(SaveBridge(psm, b'), b.l2, m) == ActiveSet(b.ports, m)
      ensures Distinct(Tokens(ListAt(SaveBridge(psm, b'), b.l2, m)))
    {
      if b.numPorts == 0 {
        BlankHasNoTokens();
        assert ListAt(SaveBridge(psm, b'), b.l2, m) == BLANK;
      } else {
        assert SameRecord(psm, SaveBridge(psm, b'), BridgeKey(b.l2, MemberList(m)));
        assert Distinct(Tokens(ListAt(psm, b.l2, m)));
      }
    }
  }

  lemma BlankHasNoTokens()
    ensures Tokens(BLANK) == [] && TokenSet(BLANK) == {}
  {
    assert Tokens(BLANK) == Tokens(BLANK[1..]) == [];
  }
}
