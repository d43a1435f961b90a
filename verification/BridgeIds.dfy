/** The two allocators of the bridge manager: VLAN ids and bridge device names. */
module BridgeIds {
  import opened Text
  import opened Decimal
  import opened Wrappers

  // ---------------------------------------------------------------- VLAN ids

  function Wrap(v: int, low: int, high: int): int {
    if v >= high then low else v
  }

  /** _COSA_GetNextVlanId: `tries` candidates from `vid` on, wrapping at the high bound. */
  function SearchVid(vids: seq<int>, vid: int, tries: nat, low: int, high: int): Option<int>
    decreases tries
  {
    if tries == 0 then None
    else
      var c := Wrap(vid, low, high);
      if c !in vids then Some(c) else SearchVid(vids, c + 1, tries - 1, low, high)
  }

  /** One try more than there are bridges. */
  function NextVid(vids: seq<int>, nxtVid: int, low: int, high: int): Option<int> {
    SearchVid(vids, nxtVid, |vids| + 1, low, high)
  }

  /** How many steps after `start` the cyclic scan of [low, high) reaches u. */
  function Distance(start: int, u: int, low: int, high: int): int {
    if u >= start then u - start else u - start + (high - low)
  }

  lemma {:induction false} SearchIsFirst(vids: seq<int>, vid: int, tries: nat, low: int, high: int)
    requires low <= vid <= high && low < high
    ensures var start := Wrap(vid, low, high);
      match SearchVid(vids, vid, tries, low, high)
      case Some(v) =>
        low <= v < high && v !in vids &&
        (forall u :: low <= u < high && Distance(start, u, low, high) < Distance(start, v, low, high)
                     ==> u in vids)
      case None =>
        forall u :: low <= u < high && Distance(start, u, low, high) < tries ==> u in vids
    decreases tries
  {
    var start := Wrap(vid, low, high);
    if tries > 0 && start in vids {
      SearchIsFirst(vids, start + 1, tries - 1, low, high);
      var next := Wrap(start + 1, low, high);
      forall u | low <= u < high && u != start
        ensures Distance(start, u, low, high) == Distance(next, u, low, high) + 1
      {
      }
    }
  }

  function IdsFrom(start: int, n: nat, low: int, high: int): set<int> {
    set u | low <= u < high && Distance(start, u, low, high) < n
  }

  lemma {:induction false} CountIdsFrom(start: int, n: nat, low: int, high: int)
    requires low <= start < high && n <= high - low
    ensures |IdsFrom(start, n, low, high)| == n
    decreases n
  {
    if n == 0 {
      assert IdsFrom(start, 0, low, high) == {};
    } else {
      CountIdsFrom(start, n - 1, low, high);
      var last := if start + n - 1 < high then start + n - 1 else start + n - 1 - (high - low);
      assert IdsFrom(start, n, low, high) == IdsFrom(start, n - 1, low, high) + {last};
    }
  }

  lemma {:induction false} ElementsBound(s: seq<int>, ids: set<int>)
    requires forall x :: x in ids ==> x in s
    ensures |ids| <= |s|
    decreases |s|
  {
    if s == [] {
      assert forall x :: x in ids ==> x in s;
      assert ids == {} by {
        if x :| x in ids { assert x in s; }
      }
    } else {
      var last := s[|s| - 1];
      assert s == s[..|s| - 1] + [last];
      ElementsBound(s[..|s| - 1], ids - {last});
      assert ids <= (ids - {last}) + {last};
      if last in ids {
        assert |ids - {last}| == |ids| - 1;
      } else {
        assert ids - {last} == ids;
      }
    }
  }

  /** Sound and complete: an id is found exactly when one of [low, high) is free, and it is
      the first free one in cyclic order; no list of bridges can exhaust the tries early. */
  lemma NextVidIsFirstFree(vids: seq<int>, nxtVid: int, low: int, high: int)
    requires low < high && low <= nxtVid <= high
    ensures var r := NextVid(vids, nxtVid, low, high);
      var start := Wrap(nxtVid, low, high);
      (r.Some? <==> exists u :: low <= u < high && u !in vids) &&
      (r.Some? ==> low <= r.value < high && r.value !in vids) &&
      (r.Some? ==> forall u :: low <= u < high && u !in vids ==>
        Distance(start, r.value, low, high) <= Distance(start, u, low, high))
  {
    var start, tries := Wrap(nxtVid, low, high), |vids| + 1;
    SearchIsFirst(vids, nxtVid, tries, low, high);
    if NextVid(vids, nxtVid, low, high).None? {
      forall u | low <= u < high ensures u in vids {
        if u !in vids {
          assert Distance(start, u, low, high) >= tries;
          CountIdsFrom(start, tries, low, high);
          ElementsBound(vids, IdsFrom(start, tries, low, high));
        }
      }
    }
  }

  // ---------------------------------------------------------------- bridge names

  function BridgeName(prefix: string, id: nat): string {
    prefix + Dec(id)
  }

  predicate Blocked(names: seq<string>, name: string) {
    exists i :: 0 <= i < |names| && Contains(names[i], name)
  }

  /** _COSA_GetNewBrName: `tries` candidates, each refused when it occurs in a name. */
  function SearchName(names: seq<string>, prefix: string, id: nat, tries: nat): (r: Option<nat>)
    ensures r.Some? ==> r.value >= id && !Blocked(names, BridgeName(prefix, r.value))
    decreases tries
  {
    if tries == 0 then None
    else if Blocked(names, BridgeName(prefix, id)) then SearchName(names, prefix, id + 1, tries - 1)
    else Some(id)
  }

  lemma SearchNameStep(names: seq<string>, prefix: string, id: nat, tries: nat)
    requires tries > 0
    ensures SearchName(names, prefix, id, tries)
         == if Blocked(names, BridgeName(prefix, id)) then SearchName(names, prefix, id + 1, tries - 1)
            else Some(id)
  {
  }

  function NextName(names: seq<string>, prefix: string, nxtBrId: nat): Option<nat> {
    SearchName(names, prefix, nxtBrId, |names| + 1)
  }

  /** Every name was made by the allocator and is older than the counter. */
  predicate Numbered(names: seq<string>, prefix: string, nxtBrId: nat) {
    forall i :: 0 <= i < |names| ==> Older(names[i], prefix, nxtBrId)
  }

  predicate Older(name: string, prefix: string, nxtBrId: nat) {
    exists id :: 0 <= id < nxtBrId && name == BridgeName(prefix, id)
  }

  /** Then the substring test never refuses the first candidate, and the name is fresh. */
  lemma FirstNameIsFree(names: seq<string>, prefix: string, nxtBrId: nat)
    requires Numbered(names, prefix, nxtBrId)
    ensures NextName(names, prefix, nxtBrId) == Some(nxtBrId)
    ensures BridgeName(prefix, nxtBrId) !in names
    ensures Numbered(names + [BridgeName(prefix, nxtBrId)], prefix, nxtBrId + 1)
  {
    var newest := BridgeName(prefix, nxtBrId);
    forall i | 0 <= i < |names| ensures !Contains(names[i], newest) {
      var id :| 0 <= id < nxtBrId && names[i] == BridgeName(prefix, id);
      DecLengthMonotone(id, nxtBrId);
      if Contains(names[i], newest) {
        var at :| 0 <= at <= |names[i]| && OccursAt(names[i], newest, at);
        assert at == 0 && names[i] == newest;
        assert Dec(id) == names[i][|prefix|..] == Dec(nxtBrId);
        DecInjective(id, nxtBrId);
      }
    }
    forall name | name in names ensures name != newest {
      assert OccursAt(newest, newest, 0);
    }
    forall i | 0 <= i < |names + [newest]|
      ensures Older((names + [newest])[i], prefix, nxtBrId + 1)
    {
      if i < |names| {
        var id :| 0 <= id < nxtBrId && names[i] == BridgeName(prefix, id);
      }
    }
  }

  /** sscanf(name, prefix "%d"): the number after the prefix. */
  function ParseId(prefix: string, name: string): Option<nat> {
    if prefix <= name && |name| > |prefix| && Digit(name[|prefix|])
    then Some(Scan(name[|prefix|..], 0)) else None
  }

  /** The counter update of _Psm_GetBr, over the names in load order. */
  function LoadedBrId(names: seq<string>, prefix: string, nxtBrId: nat): nat {
    if names == [] then nxtBrId
    else NextBrId(names[|names| - 1], prefix, LoadedBrId(names[..|names| - 1], prefix, nxtBrId))
  }

  /** The counter after one name has been read. */
  function NextBrId(name: string, prefix: string, before: nat): nat {
    match ParseId(prefix, name)
    case Some(id) => if id >= before then id + 1 else before
    case None => before
  }

  ghost predicate Made(name: string, prefix: string) {
    exists id: nat :: name == BridgeName(prefix, id)
  }

  /** A reload over allocator-made names puts the counter above all of them. */
  lemma {:induction false} LoadNumbers(names: seq<string>, prefix: string, nxtBrId: nat)
    requires forall i :: 0 <= i < |names| ==> Made(names[i], prefix)
    ensures LoadedBrId(names, prefix, nxtBrId) >= nxtBrId
    ensures Numbered(names, prefix, LoadedBrId(names, prefix, nxtBrId))
    decreases |names|
  {
    if names != [] {
      var front, last := names[..|names| - 1], names[|names| - 1];
      LoadNumbers(front, prefix, nxtBrId);
      var id: nat :| last == BridgeName(prefix, id);
      assert last[|prefix|..] == Dec(id) == Dec(id) + "";
      assert last[|prefix|] == Dec(id)[0];
      ScanDec(id, "");
      assert ParseId(prefix, last) == Some(id);
      forall i | 0 <= i < |names|
        ensures Older(names[i], prefix, LoadedBrId(names, prefix, nxtBrId))
      {
        if i < |front| {
          var j :| 0 <= j < LoadedBrId(front, prefix, nxtBrId) && front[i] == BridgeName(prefix, j);
        }
      }
    }
  }

  /** The VLAN counter update of CosaDmlBrgInit, over the ids in load order. */
  function LoadedVid(vids: seq<int>, nxtVid: int, high: int): int {
    if vids == [] then nxtVid
    else
      var before := LoadedVid(vids[..|vids| - 1], nxtVid, high);
      var vid := vids[|vids| - 1];
      if vid >= before && vid < high then vid + 1 else before
  }

  /** Boot leaves the counter where the allocator needs it. */
  lemma {:induction false} LoadedVidInRange(vids: seq<int>, low: int, high: int)
    requires low < high
    ensures low <= LoadedVid(vids, low, high) <= high
    decreases |vids|
  {
    if vids != [] {
      LoadedVidInRange(vids[..|vids| - 1], low, high);
    }
  }
}
