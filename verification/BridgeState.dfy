/** The bridge table with its PSM mirror and its two counters, and what holds of it between
    operations. */
module BridgeState {
  import opened BridgeData
  import opened BridgeInvariant
  import opened BridgeIds
  import opened Wrappers

  datatype State = State(
    bridges: seq<BridgeRec>, psm: Psm, low: int, high: int, nxtVid: int, nxtBrId: nat,
    prefix: string)

  /** getBridge: first bridge with the instance number, or the length of the table. */
  function FindBridge(bridges: seq<BridgeRec>, inst: nat): (i: nat)
    ensures i <= |bridges|
    ensures i < |bridges| ==> bridges[i].inst == inst
    ensures forall j :: 0 <= j < i ==> bridges[j].inst != inst
  {
    First(bridges, (b: BridgeRec) => b.inst == inst)
  }

  function Vids(bridges: seq<BridgeRec>): seq<int> {
    seq(|bridges|, i requires 0 <= i < |bridges| => bridges[i].vid)
  }

  function Names(bridges: seq<BridgeRec>): seq<string> {
    seq(|bridges|, i requires 0 <= i < |bridges| => bridges[i].name)
  }

  /** The instance number is the PSM number, and no two bridges have the same. */
  ghost predicate DistinctBridges(bridges: seq<BridgeRec>) {
    (forall i :: 0 <= i < |bridges| ==> bridges[i].l2 == bridges[i].inst) &&
    (forall i, j :: 0 <= i < j < |bridges| ==> bridges[i].inst != bridges[j].inst)
  }

  ghost predicate DistinctVids(bridges: seq<BridgeRec>) {
    forall i, j :: 0 <= i < j < |bridges| ==> bridges[i].vid != bridges[j].vid
  }

  ghost predicate HasBridge(bridges: seq<BridgeRec>, inst: nat) {
    exists i :: 0 <= i < |bridges| && bridges[i].inst == inst
  }

  /** No record without a bridge in the table. */
  ghost predicate NoStray(bridges: seq<BridgeRec>, psm: Psm) {
    forall k: Key :: k in psm && k != NoPath ==> HasBridge(bridges, k.l2)
  }

  ghost predicate EachBridge(bridges: seq<BridgeRec>, psm: Psm, how: Fidelity) {
    forall i :: 0 <= i < |bridges| ==> BridgeInv(bridges[i], psm, how)
  }

  ghost predicate TableShape(s: State) {
    DistinctBridges(s.bridges) && NoStray(s.bridges, s.psm) &&
    s.low < s.high && s.low <= s.nxtVid <= s.high && DistinctVids(s.bridges) &&
    Numbered(Names(s.bridges), s.prefix, s.nxtBrId)
  }

  ghost predicate TableInv(s: State, how: Fidelity) {
    TableShape(s) && EachBridge(s.bridges, s.psm, how)
  }

  lemma ExactTableIsNormalised(s: State)
    requires TableInv(s, Exact)
    ensures TableInv(s, Normalised)
  {
    forall i | 0 <= i < |s.bridges| ensures BridgeInv(s.bridges[i], s.psm, Normalised) {
      ExactIsNormalised(s.bridges[i], s.psm);
    }
  }

  /** An empty table over a PSM without bridge or port records is a start. */
  lemma EmptyTableInv(s: State)
    requires s.bridges == [] && s.low < s.high && s.low <= s.nxtVid <= s.high
    requires forall k: Key :: k in s.psm ==> k == NoPath
    ensures TableInv(s, Exact)
  {
  }

  lemma FindOnly(bridges: seq<BridgeRec>, i: nat)
    requires DistinctBridges(bridges) && i < |bridges|
    ensures FindBridge(bridges, bridges[i].inst) == i
  {
  }
}
