/** The event dispatcher: a linked list of event entries, each with a linked list of callback
    nodes behind a dummy head. It refines a map from event names to callback sequences. */
module Dispatcher {
  import opened Wrappers

  /** A function pointer, 0 for NULL, and its argument. */
  datatype Callback = Callback(func: int, arg: int)

  /** One line of the table that the lists stand for: an event and its callbacks. */
  datatype Line = Line(name: string, calls: seq<Callback>)

  predicate DistinctNames(t: seq<Line>) {
    forall i, k :: 0 <= i < k < |t| ==> t[i].name != t[k].name
  }

  predicate HasLine(t: seq<Line>, name: string) {
    exists i :: 0 <= i < |t| && t[i].name == name
  }

  /** What a dispatch of this event calls. */
  function CallsOf(t: seq<Line>, name: string): seq<Callback> {
    if t == [] then []
    else if t[|t| - 1].name == name then t[|t| - 1].calls
    else CallsOf(t[..|t| - 1], name)
  }

  lemma {:induction false} CallsOfLine(t: seq<Line>, i: nat)
    requires DistinctNames(t) && i < |t|
    ensures CallsOf(t, t[i].name) == t[i].calls
  {
    if i < |t| - 1 {
      CallsOfLine(t[..|t| - 1], i);
    }
  }

  lemma {:induction false} CallsOfUnknown(t: seq<Line>, name: string)
    requires forall i :: 0 <= i < |t| ==> t[i].name != name
    ensures CallsOf(t, name) == []
  {
    if t != [] {
      CallsOfUnknown(t[..|t| - 1], name);
    }
  }

  /** A line without callbacks is unobservable. */
  lemma EmptyLineIsUnobservable(t: seq<Line>, name: string, any: string)
    requires forall i :: 0 <= i < |t| ==> t[i].name != name
    ensures CallsOf(t + [Line(name, [])], any) == CallsOf(t, any)
  {
    var n := t + [Line(name, [])];
    assert n[..|n| - 1] == t;
    if any == name {
      CallsOfUnknown(t, name);
    }
  }

  /** Table u is table t with one more callback at the end of one event. */
  ghost predicate OneMore(u: seq<Line>, t: seq<Line>, name: string, cb: Callback) {
    forall any :: CallsOf(u, any) == if any == name then CallsOf(t, any) + [cb] else CallsOf(t, any)
  }

  /** Appending to one line changes what that event calls, and nothing else. */
  lemma {:induction false} AppendToLine(t: seq<Line>, i: nat, cb: Callback, any: string)
    requires DistinctNames(t) && i < |t|
    ensures var u := t[i := Line(t[i].name, t[i].calls + [cb])];
      CallsOf(u, any) == CallsOf(t, any) + if any == t[i].name then [cb] else []
  {
    var u := t[i := Line(t[i].name, t[i].calls + [cb])];
    var n := |t| - 1;
    if i < n {
      assert u[..n] == t[..n][i := Line(t[i].name, t[i].calls + [cb])];
      AppendToLine(t[..n], i, cb, any);
    } else {
      assert u[..n] == t[..n];
    }
  }

  class MethodNode {
    var callback: Option<Callback>
    var next: MethodNode?

    constructor (cb: Option<Callback>)
      ensures callback == cb && next == null
    {
      callback, next := cb, null;
    }
  }

  /** What the next pointer of node j must be. */
  ghost function After<T>(nodes: seq<T>, j: nat): Option<T> {
    if j + 1 < |nodes| then Some(nodes[j + 1]) else None
  }

  ghost predicate IsNode(p: MethodNode?, want: Option<MethodNode>) {
    if want.Some? then p == want.value else p == null
  }

  class ListEntry {
    var eventName: string
    var eventCbList: MethodNode?
    var next: ListEntry?
    /** The nodes of this event in order, the dummy head first. */
    ghost var nodes: seq<MethodNode>

    constructor ()
      ensures next == null && eventCbList == null && nodes == []
    {
      eventName, eventCbList, next, nodes := "", null, null, [];
    }

    ghost predicate ListOk()
      reads `nodes, `eventCbList, nodes
    {
      |nodes| > 0 && eventCbList == nodes[0] && nodes[0].callback == None &&
      (forall j, k :: 0 <= j < k < |nodes| ==> nodes[j] != nodes[k]) &&
      (forall j {:trigger nodes[j].next} :: 0 <= j < |nodes| ==> IsNode(nodes[j].next, After(nodes, j))) &&
      (forall j :: 1 <= j < |nodes| ==> nodes[j].callback.Some?)
    }

    /** The callbacks of this event in registration order. */
    ghost function Calls(): (cs: seq<Callback>)
      requires ListOk()
      reads `nodes, `eventCbList, nodes
      ensures |cs| == |nodes| - 1
    {
      var ns := nodes;
      seq(|ns| - 1, j requires 0 <= j < |ns| - 1 && ns[j + 1].callback.Some? reads ns => ns[j + 1].callback.value)
    }
  }

  /** Walk to the last node and link the new one behind it. */
  method AppendNode(list: MethodNode, node: MethodNode, ghost e: ListEntry)
    requires e.ListOk() && list == e.nodes[0] && node !in e.nodes
    requires node.callback.Some? && node.next == null
    modifies e`nodes, e.nodes
    ensures e.ListOk() && e.nodes == old(e.nodes) + [node]
    ensures e.Calls() == old(e.Calls()) + [node.callback.value]
  {
    var tmp := list;
    ghost var i := 0;
    while tmp.next != null
      invariant i < |e.nodes| && tmp == e.nodes[i]
      decreases |e.nodes| - i
    {
      tmp := tmp.next;
      i := i + 1;
    }
    assert i == |e.nodes| - 1;
    tmp.next := node;
    e.nodes := e.nodes + [node];
  }

  /** Call every callback of one list, in order. The functions are given by their results, which
      may depend on the turn. */
  method CallAll(list: MethodNode, outcome: (Callback, nat) -> int, ghost e: ListEntry)
    returns (ok: bool, called: seq<Callback>)
    requires e.ListOk() && list == e.nodes[0]
    ensures called == e.Calls()
    ensures ok <==> forall k :: 0 <= k < |called| ==> outcome(called[k], k) == 0
  {
    ok, called := true, [];
    var node := list.next;
    ghost var i := 1;
    while node != null
      invariant 1 <= i <= |e.nodes| && IsNode(node, After(e.nodes, i - 1))
      invariant called == e.Calls()[..i - 1]
      invariant ok <==> forall k :: 0 <= k < |called| ==> outcome(called[k], k) == 0
      decreases |e.nodes| - i
    {
      var cb := node.callback;
      node := node.next;
      i := i + 1;
      if cb.Some? {
        if outcome(cb.value, |called|) != 0 {
          ok := false;
        }
        ghost var before := called;
        called := called + [cb.value];
        assert called[|before|] == cb.value && forall k :: 0 <= k < |before| ==> called[k] == before[k];
      }
    }
  }

  /** Unlink and free the nodes behind the dummy head, then the head. */
  method ClearNodes(list: MethodNode, ghost e: ListEntry) returns (ghost freed: seq<object>)
    requires e.ListOk() && list == e.nodes[0]
    modifies list
    ensures freed == e.nodes[1..] + [e.nodes[0]]
  {
    freed := [];
    var node := list.next;
    ghost var i := 1;
    while node != null
      invariant 1 <= i <= |e.nodes| && IsNode(node, After(e.nodes, i - 1))
      invariant forall j {:trigger e.nodes[j].next} :: 1 <= j < |e.nodes| ==> IsNode(e.nodes[j].next, After(e.nodes, j))
      invariant freed == e.nodes[1..i]
      decreases |e.nodes| - i
    {
      list.next := node.next;
      freed := freed + [node];
      node := list.next;
      i := i + 1;
    }
    freed := freed + [list];
  }

  ghost predicate IsEntry(p: ListEntry?, want: Option<ListEntry>) {
    if want.Some? then p == want.value else p == null
  }

  ghost predicate Apart(a: seq<MethodNode>, b: seq<MethodNode>) {
    forall n :: n in a ==> n !in b
  }

  ghost predicate Disjoint(ns: seq<seq<MethodNode>>) {
    forall i, k :: 0 <= i < k < |ns| ==> Apart(ns[i], ns[k])
  }

  /** The order in which a clear frees the objects of one entry: the nodes behind the dummy
      head, the head, the entry. */
  ghost function FreeEntry(ns: seq<MethodNode>, e: ListEntry): seq<object>
    requires ns != []
  {
    ns[1..] + [ns[0]] + [e]
  }

  ghost function FreeOrder(es: seq<ListEntry>, ns: seq<seq<MethodNode>>): seq<object>
    requires |es| == |ns| && forall i :: 0 <= i < |ns| ==> ns[i] != []
  {
    if es == [] then []
    else FreeOrder(es[..|es| - 1], ns[..|es| - 1]) + FreeEntry(ns[|es| - 1], es[|es| - 1])
  }

  ghost predicate Once<T>(s: seq<T>) {
    forall i, k :: 0 <= i < k < |s| ==> s[i] != s[k]
  }

  lemma OnceConcat(a: seq<object>, b: seq<object>)
    requires Once(a) && Once(b) && forall x :: x in a ==> x !in b
    ensures Once(a + b)
  {
    var s := a + b;
    forall i, k | 0 <= i < k < |s| ensures s[i] != s[k] {
      if i < |a| <= k {
        assert s[i] in a && s[k] == b[k - |a|];
      }
    }
  }

  lemma FreeEntryOnce(ns: seq<MethodNode>, e: ListEntry)
    requires ns != [] && Once(ns)
    ensures Once(FreeEntry(ns, e))
    ensures forall x: object :: x in FreeEntry(ns, e) <==> x == e || x in ns
  {
    var r := FreeEntry(ns, e);
    forall j | 0 <= j < |ns| ensures ns[j] in r {
      assert ns[j] == r[if j == 0 then |ns| - 1 else j - 1];
    }
  }

  ghost predicate Owned(x: object, es: seq<ListEntry>, ns: seq<seq<MethodNode>>) {
    x in es || exists i :: 0 <= i < |ns| && x in ns[i]
  }

  lemma OwnedStep(x: object, es: seq<ListEntry>, ns: seq<seq<MethodNode>>, k: nat)
    requires |es| == |ns| == k + 1
    ensures Owned(x, es, ns) <==> Owned(x, es[..k], ns[..k]) || x == es[k] || x in ns[k]
  {
    assert es == es[..k] + [es[k]];
    if i :| 0 <= i < |ns| && x in ns[i] {
      assert i < k ==> x in ns[..k][i];
    }
    if i :| 0 <= i < k && x in ns[..k][i] {
      assert x in ns[i];
    }
  }

  /** A clear frees every entry and every node once, and nothing else. */
  lemma {:induction false} FreedOnce(es: seq<ListEntry>, ns: seq<seq<MethodNode>>)
    requires |es| == |ns| && Once(es)
    requires forall i :: 0 <= i < |ns| ==> ns[i] != [] && Once(ns[i])
    requires Disjoint(ns)
    ensures Once(FreeOrder(es, ns))
    ensures forall x: object :: x in FreeOrder(es, ns) <==> Owned(x, es, ns)
  {
    if es != [] {
      var k := |es| - 1;
      FreedOnce(es[..k], ns[..k]);
      FreeEntryOnce(ns[k], es[k]);
      forall x: object | Owned(x, es[..k], ns[..k]) ensures x != es[k] && x !in ns[k] {
        if i :| 0 <= i < k && x in ns[..k][i] {
          assert Apart(ns[i], ns[k]);
        }
      }
      OnceConcat(FreeOrder(es[..k], ns[..k]), FreeEntry(ns[k], es[k]));
      forall x: object ensures x in FreeOrder(es, ns) <==> Owned(x, es, ns) {
        OwnedStep(x, es, ns, k);
      }
    }
  }

  ghost predicate Chained(es: seq<ListEntry>)
    reads es`next
  {
    forall i {:trigger es[i].next} :: 0 <= i < |es| ==> IsEntry(es[i].next, After(es, i))
  }

  ghost function NodeSet(ns: seq<seq<MethodNode>>): set<MethodNode> {
    set i, n | 0 <= i < |ns| && n in ns[i] :: n
  }

  ghost predicate Covers(nodes: set<MethodNode>, ns: seq<seq<MethodNode>>) {
    forall i, n :: 0 <= i < |ns| && n in ns[i] ==> n in nodes
  }

  lemma FreeStep(es: seq<ListEntry>, ns: seq<seq<MethodNode>>, k: nat)
    requires k < |es| == |ns| && forall i :: 0 <= i < |ns| ==> ns[i] != []
    ensures FreeOrder(es[..k + 1], ns[..k + 1]) == FreeOrder(es[..k], ns[..k]) + FreeEntry(ns[k], es[k])
  {
    assert es[..k + 1][..k] == es[..k] && ns[..k + 1][..k] == ns[..k];
  }

  method UnlinkFirst(head: ListEntry, entry: ListEntry, ghost es: seq<ListEntry>) returns (next: ListEntry?)
    requires head !in es && Chained(es)
    modifies head`next
    ensures next == old(entry.next) == head.next && Chained(es)
  {
    head.next := entry.next;
    next := head.next;
    forall i | 0 <= i < |es| ensures IsEntry(es[i].next, After(es, i)) {
      assert es[i] in es;
    }
  }

  /** The lists from entry k on are still whole. */
  ghost predicate Whole(es: seq<ListEntry>, ns: seq<seq<MethodNode>>, k: nat, nodes: set<MethodNode>)
    requires |es| == |ns| && Covers(nodes, ns)
    reads es, nodes
  {
    forall i :: k <= i < |es| ==> es[i].nodes == ns[i] && es[i].ListOk()
  }

  /** Clear the list of entry k; the later lists do not share a node with it. */
  method ClearOne(entry: ListEntry, ghost es: seq<ListEntry>, ghost ns: seq<seq<MethodNode>>, ghost k: nat,
                  ghost nodes: set<MethodNode>)
    returns (ghost freed: seq<object>)
    requires k < |es| == |ns| && es[k] == entry && ns[k] != []
    requires Disjoint(ns) && Covers(nodes, ns) && Whole(es, ns, k, nodes)
    modifies nodes
    ensures Whole(es, ns, k + 1, nodes)
    ensures freed == FreeEntry(ns[k], entry)
  {
    var list := entry.eventCbList;
    freed := ClearNodes(list, entry);
    freed := freed + [entry];
    forall i | k < i < |es| ensures es[i].ListOk() {
      assert Apart(ns[k], ns[i]);
      forall j | 0 <= j < |ns[i]| ensures ns[i][j] != list {
        assert ns[i][j] in ns[i];
      }
      assert old(es[i].ListOk());
    }
  }

  /** The outer loop of a clear: unlink and free entry after entry. */
  method ClearEntries(head: ListEntry, ghost es: seq<ListEntry>, ghost ns: seq<seq<MethodNode>>,
                      ghost nodes: set<MethodNode>)
    returns (ghost freed: seq<object>)
    requires |ns| == |es| && head !in es
    requires IsEntry(head.next, if es == [] then None else Some(es[0]))
    requires Chained(es) && Disjoint(ns) && Covers(nodes, ns)
    requires Whole(es, ns, 0, nodes) && forall i :: 0 <= i < |ns| ==> ns[i] != []
    modifies head`next, nodes
    ensures head.next == null && freed == FreeOrder(es, ns)
  {
    freed := [];
    var entry := head.next;
    ghost var k := 0;
    while entry != null
      invariant k <= |es| && IsEntry(entry, if k < |es| then Some(es[k]) else None)
      invariant head.next == entry && Chained(es)
      invariant Whole(es, ns, k, nodes)
      invariant freed == FreeOrder(es[..k], ns[..k])
      decreases |es| - k
    {
      ghost var one := ClearOne(entry, es, ns, k, nodes);
      freed := freed + one;
      FreeStep(es, ns, k);
      assert IsEntry(entry.next, After(es, k));
      entry := UnlinkFirst(head, entry, es);
      k := k + 1;
    }
    assert es[..k] == es && ns[..k] == ns;
  }

  class CallbackList {
    /** The dummy entry that g_CallbackFuncList points to. */
    const head: ListEntry
    ghost var entries: seq<ListEntry>
    ghost var table: seq<Line>
    ghost var repr: set<object>

    ghost predicate Linked()
      reads `entries, `repr, head`next, entries`next
    {
      head in repr && head !in entries && this !in repr &&
      (forall i :: 0 <= i < |entries| ==> entries[i] in repr) &&
      IsEntry(head.next, if entries == [] then None else Some(entries[0])) &&
      Once(entries) && Chained(entries)
    }

    ghost predicate Separate()
      reads `entries, `repr, entries`nodes
    {
      (forall i :: 0 <= i < |entries| ==> entries[i] in repr) &&
      (forall i, n :: 0 <= i < |entries| && n in entries[i].nodes ==> n in repr) &&
      (forall i, k :: 0 <= i < k < |entries| ==> Apart(entries[i].nodes, entries[k].nodes))
    }

    /** The lists stand for the table, line by line. */
    ghost predicate Refines()
      requires Separate()
      reads this, repr
    {
      |table| == |entries| && forall i :: 0 <= i < |entries| ==> StandsFor(i)
    }

    ghost predicate LineIs(i: nat, line: Line)
      requires i < |entries|
      reads `entries, entries, entries[i].nodes
    {
      entries[i].ListOk() && line == Line(entries[i].eventName, entries[i].Calls())
    }

    ghost predicate StandsFor(i: nat)
      requires Separate() && i < |entries| && i < |table|
      reads this, repr
    {
      LineIs(i, table[i])
    }

    ghost predicate Valid()
      reads this, repr, head, entries
    {
      Linked() && Separate() && Refines() && DistinctNames(table)
    }

    /** EvtDispterInitCallbackList */
    constructor ()
      ensures Valid() && fresh(repr) && table == []
    {
      head := new ListEntry();
      entries, table := [], [];
      new;
      repr := {head};
    }

    /** Walk the entries; stop at the one with this name, or remember the last one. */
    method Search(eventName: string) returns (found: ListEntry?, last: ListEntry, ghost at: nat)
      requires Valid()
      ensures found != null ==> at < |entries| && found == entries[at] && table[at].name == eventName
      ensures found == null ==> forall i :: 0 <= i < |entries| ==> table[i].name != eventName
      ensures found == null ==> last == Last()
    {
      found, last, at := head.next, head, 0;
      while found != null
        invariant at <= |entries| && IsEntry(found, if at < |entries| then Some(entries[at]) else None)
        invariant last == if at == 0 then head else entries[at - 1]
        invariant forall i :: 0 <= i < at ==> table[i].name != eventName
        decreases |entries| - at
      {
        assert StandsFor(at);
        if found.eventName == eventName {
          return;
        }
        assert IsEntry(entries[at].next, After(entries, at));
        last, found, at := found, found.next, at + 1;
      }
    }

    method NewEntry(eventName: string) returns (e: ListEntry)
      ensures fresh(e) && fresh(e.nodes) && e.ListOk() && e.Calls() == []
      ensures e.eventName == eventName && e.next == null
    {
      e := new ListEntry();
      e.eventName := eventName;
      var node := new MethodNode(None);
      e.eventCbList := node;
      e.nodes := [node];
    }

    ghost function Last(): ListEntry
      reads `entries
    {
      if entries == [] then head else entries[|entries| - 1]
    }

    method LinkEntry(last: ListEntry, e: ListEntry)
      requires Linked() && Separate() && last == Last()
      requires e !in repr && e != head && e.next == null && forall n :: n in e.nodes ==> n !in repr
      modifies `entries, `repr, last`next
      ensures Linked() && Separate()
      ensures entries == old(entries) + [e] && repr == old(repr) + {e} + set n | n in e.nodes
    {
      ghost var nodes := set n | n in e.nodes;
      last.next := e;
      entries := entries + [e];
      repr := repr + {e} + nodes;
    }

    /** A new entry with an empty list, linked behind the last one. */
    method AddEntry(last: ListEntry, eventName: string) returns (e: ListEntry)
      requires Valid() && last == Last()
      requires forall i :: 0 <= i < |entries| ==> table[i].name != eventName
      modifies this, last`next
      ensures Valid() && fresh(repr - old(repr)) && repr >= old(repr)
      ensures entries == old(entries) + [e]
      ensures table == old(table) + [Line(eventName, [])]
    {
      e := NewEntry(eventName);
      LinkEntry(last, e);
      forall i | 0 <= i < |table| ensures StandsFor(i) {
        assert old(StandsFor(i));
      }
      GrowTable(eventName);
    }

    ghost method GrowTable(eventName: string)
      requires Separate() && |entries| == |table| + 1 && DistinctNames(table)
      requires forall i :: 0 <= i < |table| ==> StandsFor(i)
      requires entries[|table|].ListOk() && entries[|table|].Calls() == [] && entries[|table|].eventName == eventName
      requires forall i :: 0 <= i < |table| ==> table[i].name != eventName
      modifies `table
      ensures table == old(table) + [Line(eventName, [])]
      ensures Refines() && DistinctNames(table)
    {
      table := table + [Line(eventName, [])];
      forall i | 0 <= i < |entries| ensures StandsFor(i) {
        assert i < |old(table)| ==> old(StandsFor(i));
      }
    }

    /** EvtDispterFindListByEventName: find or create. The created line is unobservable. */
    method FindListByEventName(eventName: string) returns (list: MethodNode, ghost at: nat)
      requires Valid() && |eventName| < 31
      modifies this, repr
      ensures Valid() && fresh(repr - old(repr)) && repr >= old(repr)
      ensures at < |entries| && entries[at].eventCbList == list && table[at].name == eventName
      ensures entries == old(entries) || entries[..|entries| - 1] == old(entries)
      ensures table == if HasLine(old(table), eventName) then old(table) else old(table) + [Line(eventName, [])]
      ensures forall any :: CallsOf(table, any) == CallsOf(old(table), any)
    {
      var found, last;
      found, last, at := Search(eventName);
      if found == null {
        forall any ensures CallsOf(table + [Line(eventName, [])], any) == CallsOf(table, any) {
          EmptyLineIsUnobservable(table, eventName, any);
        }
        at := |entries|;
        found := AddEntry(last, eventName);
      }
      assert StandsFor(at);
      list := found.eventCbList;
    }

    /** The nodes of two entries are different objects. */
    lemma EntriesApart(i: nat, k: nat)
      requires Linked() && Separate() && i < |entries| && k < |entries| && i != k
      ensures entries[i] != entries[k] && Apart(entries[i].nodes, entries[k].nodes)
    {
      if k < i {
        assert Apart(entries[k].nodes, entries[i].nodes);
      }
    }

    /** The lists of the other entries do not see a change in the list of one. */
    method AppendAt(list: MethodNode, node: MethodNode, ghost at: nat, ghost e: ListEntry)
      requires Linked() && Separate() && Refines()
      requires at < |entries| && entries[at] == e && e.ListOk() && e.nodes[0] == list
      requires node !in repr && node.callback.Some? && node.next == null
      modifies e`nodes, e.nodes
      ensures forall i :: 0 <= i < |entries| && i != at ==> entries[i].nodes == old(entries[i].nodes)
      ensures forall i :: 0 <= i < |entries| && i != at ==> LineIs(i, table[i])
      ensures e.nodes == old(e.nodes) + [node]
      ensures LineIs(at, Line(e.eventName, old(e.Calls()) + [node.callback.value]))
    {
      assert node !in e.nodes;
      forall i | 0 <= i < |entries| && i != at ensures entries[i] != e && Apart(entries[i].nodes, e.nodes) {
        EntriesApart(i, at);
      }
      forall i | 0 <= i < |entries| && i != at ensures LineIs(i, table[i]) {
        assert StandsFor(i);
      }
      AppendNode(list, node, e);
      forall i | 0 <= i < |entries| && i != at ensures LineIs(i, table[i]) {
        var ns := entries[i].nodes;
        assert entries[i] != e && ns == old(entries[i].nodes) && Apart(ns, old(e.nodes));
        forall j | 0 <= j < |ns| ensures ns[j].next == old(ns[j].next) && ns[j].callback == old(ns[j].callback) {
          assert ns[j] in ns;
        }
        assert old(LineIs(i, table[i]));
      }
    }

    /** Bring table and footprint up to date after a node went to the end of one list. */
    ghost method Adopt(node: MethodNode, at: nat, line: Line)
      requires Linked() && node !in repr && DistinctNames(table)
      requires |table| == |entries| && at < |entries| && line.name == table[at].name
      requires forall i, n :: 0 <= i < |entries| && n in entries[i].nodes ==> n in repr + {node}
      requires forall i, k :: 0 <= i < k < |entries| ==> Apart(entries[i].nodes, entries[k].nodes)
      requires forall i :: 0 <= i < |entries| ==> LineIs(i, if i == at then line else table[i])
      modifies `table, `repr
      ensures Valid() && repr == old(repr) + {node} && table == old(table)[at := line]
    {
      table := table[at := line];
      repr := repr + {node};
      forall i | 0 <= i < |entries| ensures StandsFor(i) {
        assert old(LineIs(i, if i == at then line else table[i]));
      }
    }

    /** The same step with the table brought up to date. */
    method AppendCallback(list: MethodNode, node: MethodNode, ghost at: nat, ghost e: ListEntry)
      requires Valid() && at < |entries| && entries[at] == e && e.eventCbList == list
      requires node !in repr && node.callback.Some? && node.next == null
      modifies `table, `repr, e`nodes, e.nodes
      ensures Valid() && repr == old(repr) + {node}
      ensures OneMore(table, old(table), old(table[at].name), node.callback.value)
    {
      assert StandsFor(at);
      ghost var was := table;
      AppendAt(list, node, at, e);
      Adopt(node, at, Line(was[at].name, was[at].calls + [node.callback.value]));
      forall any ensures CallsOf(table, any) == CallsOf(was, any) + if any == was[at].name then [node.callback.value] else [] {
        AppendToLine(was, at, node.callback.value, any);
      }
    }

    /** EvtDispterRgstCbFuncToList: the callback goes to the end of its event, and nothing
        else changes. */
    method Register(eventName: Option<string>, func: int, arg: int) returns (ok: bool)
      requires Valid() && (eventName.Some? ==> |eventName.value| < 31)
      modifies this, repr
      ensures Valid() && fresh(repr - old(repr))
      ensures ok <==> eventName.Some? && func != 0
      ensures !ok ==> table == old(table)
      ensures ok ==> OneMore(table, old(table), eventName.value, Callback(func, arg))
    {
      if eventName.None? || func == 0 {
        return false;
      }
      var node := new MethodNode(Some(Callback(func, arg)));
      var list, at := FindListByEventName(eventName.value);
      AppendCallback(list, node, at, entries[at]);
      ok := true;
    }

    /** EvtDispterCallFuncFromList: every callback of the event in registration order, and a
        failure exactly when one of them fails. */
    method Dispatch(eventName: Option<string>, outcome: (Callback, nat) -> int)
      returns (ok: bool, called: seq<Callback>)
      requires Valid() && (eventName.Some? ==> |eventName.value| < 31)
      modifies this, repr
      ensures Valid() && fresh(repr - old(repr))
      ensures called == if eventName.None? then [] else CallsOf(old(table), eventName.value)
      ensures ok <==> forall k :: 0 <= k < |called| ==> outcome(called[k], k) == 0
      ensures forall any :: CallsOf(table, any) == CallsOf(old(table), any)
    {
      if eventName.None? {
        return true, [];
      }
      var list, at := FindListByEventName(eventName.value);
      assert StandsFor(at);
      ok, called := CallAll(list, outcome, entries[at]);
      CallsOfLine(table, at);
    }

    /** EvtDispterClearCallbackList */
    method Clear() returns (ghost freed: seq<object>)
      requires Valid()
      modifies this, repr
      ensures Valid() && table == [] && repr <= old(repr)
      ensures Once(freed)
      ensures forall x: object :: x in freed <==>
        x in old(entries) || exists i :: 0 <= i < |old(entries)| && x in old(entries[i].nodes)
    {
      ghost var es := entries;
      ghost var ns := NodeLists();
      forall i | 0 <= i < |es| ensures es[i].ListOk() && es[i].nodes == ns[i] && ns[i] != [] && Once(ns[i]) {
        assert StandsFor(i);
      }
      freed := ClearEntries(head, es, ns, NodeSet(ns));
      FreedOnce(es, ns);
      entries, table, repr := [], [], {head};
    }

    ghost function NodeLists(): (ns: seq<seq<MethodNode>>)
      reads `entries, entries
      ensures |ns| == |entries| && forall i :: 0 <= i < |entries| ==> ns[i] == entries[i].nodes
    {
      var es := entries;
      seq(|es|, i requires 0 <= i < |es| reads es => es[i].nodes)
    }
  }

  // ---------------------------------------------------------------- runs

  datatype Act = Rgst(eventName: Option<string>, func: int, arg: int) | ClearAll

  /** Call number k registered this function for the event: it had one, and nothing was cleared
      after it. */
  predicate StillRegistered(acts: seq<Act>, k: nat, name: string) {
    k < |acts| && acts[k].Rgst? && acts[k].eventName == Some(name) && acts[k].func != 0 &&
    forall j :: k < j < |acts| ==> !acts[j].ClearAll?
  }

  /** The calls that are still registered for an event, in their order. */
  ghost predicate AreRegistered(acts: seq<Act>, name: string, at: seq<nat>) {
    (forall i :: 0 <= i < |at| ==> StillRegistered(acts, at[i], name)) &&
    (forall i, j :: 0 <= i < j < |at| ==> at[i] < at[j]) &&
    forall k :: 0 <= k < |acts| && StillRegistered(acts, k, name) ==> k in at
  }

  lemma NothingRegistered(name: string)
    ensures AreRegistered([], name, []) && CallsOf([], name) == []
  {
  }

  lemma OneMoreAct(acts: seq<Act>, act: Act, name: string, at: seq<nat>)
    requires AreRegistered(acts, name, at)
    ensures act.ClearAll? ==> AreRegistered(acts + [act], name, [])
    ensures act.Rgst? && act.eventName == Some(name) && act.func != 0 ==>
      AreRegistered(acts + [act], name, at + [|acts|])
    ensures act.Rgst? && !(act.eventName == Some(name) && act.func != 0) ==> AreRegistered(acts + [act], name, at)
  {
    var more := acts + [act];
    forall k: nat | k < |acts|
      ensures StillRegistered(more, k, name) <==> !act.ClearAll? && StillRegistered(acts, k, name)
    {
      assert more[|acts|] == act;
      assert forall j :: k < j < |acts| ==> more[j] == acts[j];
    }
  }

  /** Any sequence of registrations and clears, and then a dispatch: it calls the functions that
      are still registered for the event, each as often as it was registered and in that order. */
  method RegisterAndDispatch(acts: seq<Act>, name: string, outcome: (Callback, nat) -> int)
    returns (called: seq<Callback>, at: seq<nat>)
    requires |name| < 31 && forall a :: a in acts && a.Rgst? && a.eventName.Some? ==> |a.eventName.value| < 31
    ensures AreRegistered(acts, name, at) && |called| == |at|
    ensures forall i :: 0 <= i < |at| ==> called[i] == Callback(acts[at[i]].func, acts[at[i]].arg)
  {
    hide StillRegistered, CallsOf;
    assert AreRegistered([], name, []) && CallsOf([], name) == [] by { NothingRegistered(name); }
    var list := new CallbackList();
    at := [];
    for k := 0 to |acts|
      invariant list.Valid() && fresh(list) && fresh(list.repr)
      invariant AreRegistered(acts[..k], name, at) && |at| == |CallsOf(list.table, name)|
      invariant forall i :: 0 <= i < |at| ==>
        at[i] < k && acts[at[i]].Rgst? &&
        CallsOf(list.table, name)[i] == Callback(acts[at[i]].func, acts[at[i]].arg)
    {
      OneMoreAct(acts[..k], acts[k], name, at);
      assert acts[..k + 1] == acts[..k] + [acts[k]];
      assert acts[k] in acts;
      match acts[k] {
        case Rgst(eventName, func, arg) =>
          var ok := list.Register(eventName, func, arg);
          if ok && eventName == Some(name) {
            at := at + [k];
          }
        case ClearAll =>
          ghost var freed := list.Clear();
          at := [];
      }
    }
    assert acts[..|acts|] == acts;
    var ok;
    ok, called := list.Dispatch(Some(name), outcome);
  }
}
