/** The RFC store: a Start / Set / End protocol that replaces the stored parameters by a new
    batch and keeps the old ones that were set through webpa. Objects are association lists;
    keys are compared without case, as cJSON_GetObjectItem does. */
module Rfc {
  import opened Text
  import opened Wrappers

  /** A parameter object. Only a parsed file can lack the update source. */
  datatype Entry = Entry(key: string, value: string, time: string, source: Option<string>)

  type Object = seq<Entry>

  function Find(o: Object, key: string): Option<Entry> {
    if o == [] then None else if SameText(o[0].key, key) then Some(o[0]) else Find(o[1..], key)
  }

  ghost predicate Unique(o: Object) {
    forall i, j :: 0 <= i < j < |o| ==> !SameText(o[i].key, o[j].key)
  }

  /** cJSON_ReplaceItemInObject when the key is there, cJSON_AddItemToObject otherwise. */
  function Put(o: Object, e: Entry): Object {
    if o == [] then [e] else if SameText(o[0].key, e.key) then [e] + o[1..] else [o[0]] + Put(o[1..], e)
  }

  predicate Webpa(e: Entry) {
    e.source == Some("webpa")
  }

  /** What EndRfcProcessing adds to the new object for the entries of the old store. */
  function Merge(batch: Object, o: Object): Object {
    if o == [] then batch
    else
      var m := Merge(batch, o[..|o| - 1]);
      var e := o[|o| - 1];
      if Webpa(e) && Find(m, e.key).None? then m + [e] else m
  }

  /** One call of ProcessRfcSet. */
  datatype Set = Set(clearDB: bool, entry: Entry)

  /** The store and the object under construction after a sequence of calls. */
  datatype Pair = Pair(store: Object, batch: Object)

  function Step(p: Pair, s: Set): Pair {
    if s.clearDB then p.(batch := Put(p.batch, s.entry)) else p.(store := Put(p.store, s.entry))
  }

  function Run(p: Pair, ss: seq<Set>): Pair {
    if ss == [] then p else Step(Run(p, ss[..|ss| - 1]), ss[|ss| - 1])
  }

  /** Start, any calls, End. */
  function Session(store: Object, ss: seq<Set>): Object {
    var p := Run(Pair(store, []), ss);
    Merge(p.batch, p.store)
  }

  /** The last call of one kind for a key. */
  function LastSet(ss: seq<Set>, clearDB: bool, key: string): Option<Entry> {
    if ss == [] then None
    else
      var s := ss[|ss| - 1];
      if s.clearDB == clearDB && SameText(s.entry.key, key) then Some(s.entry)
      else LastSet(ss[..|ss| - 1], clearDB, key)
  }

  function OrElse<T>(a: Option<T>, b: Option<T>): Option<T> {
    if a.Some? then a else b
  }

  function OnlyWebpa(e: Option<Entry>): Option<Entry> {
    if e.Some? && Webpa(e.value) then e else None
  }

  // ---------------------------------------------------------------- objects

  lemma {:induction false} FindIs(o: Object, key: string)
    ensures Find(o, key).Some? <==> exists i :: 0 <= i < |o| && SameText(o[i].key, key)
    ensures Find(o, key).Some? ==> Find(o, key).value in o && SameText(Find(o, key).value.key, key)
  {
    if o != [] {
      FindIs(o[1..], key);
      if i :| 0 <= i < |o| && SameText(o[i].key, key) {
        assert i > 0 ==> SameText(o[1..][i - 1].key, key);
      }
    }
  }

  /** In a unique object every entry is found under its own key. */
  lemma {:induction false} FindAt(o: Object, i: nat, key: string)
    requires Unique(o) && i < |o| && SameText(o[i].key, key)
    ensures Find(o, key) == Some(o[i])
  {
    if i > 0 {
      assert !SameText(o[0].key, o[i].key);
      FindAt(o[1..], i - 1, key);
    }
  }

  /** A put is seen under its own key and under no other. */
  lemma {:induction false} FindPut(o: Object, e: Entry, key: string)
    ensures Find(Put(o, e), key) == if SameText(e.key, key) then Some(e) else Find(o, key)
  {
    if o != [] && !SameText(o[0].key, e.key) {
      FindPut(o[1..], e, key);
    }
  }

  lemma {:induction false} PutMembers(o: Object, e: Entry, x: Entry)
    requires x in Put(o, e)
    ensures x == e || x in o
  {
    if o != [] && !SameText(o[0].key, e.key) && x != o[0] {
      PutMembers(o[1..], e, x);
    }
  }

  lemma {:induction false} PutUnique(o: Object, e: Entry)
    requires Unique(o)
    ensures Unique(Put(o, e))
  {
    if o != [] {
      if SameText(o[0].key, e.key) {
        forall i, j | 0 <= i < j < |o| ensures !SameText(Put(o, e)[i].key, Put(o, e)[j].key) {
          assert !SameText(o[i].key, o[j].key);
        }
      } else {
        PutUnique(o[1..], e);
        var t := Put(o[1..], e);
        forall j | 0 <= j < |t| ensures !SameText(o[0].key, t[j].key) {
          PutMembers(o[1..], e, t[j]);
          if t[j] in o[1..] {
            var i :| 0 <= i < |o[1..]| && o[1..][i] == t[j];
            assert !SameText(o[0].key, o[i + 1].key);
          }
        }
      }
    }
  }

  lemma {:induction false} FindAppend(o: Object, e: Entry, key: string)
    ensures Find(o + [e], key) == OrElse(Find(o, key), if SameText(e.key, key) then Some(e) else None)
  {
    if o != [] {
      assert (o + [e])[1..] == o[1..] + [e];
      FindAppend(o[1..], e, key);
    }
  }

  lemma {:induction false} FindSplit(o: Object, key: string)
    requires o != []
    ensures var n := |o| - 1;
      Find(o, key) == OrElse(Find(o[..n], key), if SameText(o[n].key, key) then Some(o[n]) else None)
  {
    var n := |o| - 1;
    assert o == o[..n] + [o[n]];
    FindAppend(o[..n], o[n], key);
  }

  // ---------------------------------------------------------------- the merge

  /** The merge: new entries first, then the old ones set through webpa. */
  lemma {:induction false} FindMerge(batch: Object, o: Object, key: string)
    requires Unique(o)
    ensures Find(Merge(batch, o), key) == OrElse(Find(batch, key), OnlyWebpa(Find(o, key)))
  {
    if o != [] {
      var n := |o| - 1;
      var m, e := Merge(batch, o[..n]), o[n];
      FindMerge(batch, o[..n], key);
      FindSplit(o, key);
      FindAppend(m, e, key);
      if SameText(e.key, key) {
        SameFind(m, e.key, key);
        FindIs(o[..n], key);
      }
    }
  }

  lemma {:induction false} SameFind(o: Object, a: string, b: string)
    requires SameText(a, b)
    ensures Find(o, a) == Find(o, b)
  {
    if o != [] {
      SameFind(o[1..], a, b);
    }
  }

  lemma {:induction false} MergeUnique(batch: Object, o: Object)
    requires Unique(batch)
    ensures Unique(Merge(batch, o))
  {
    if o != [] {
      var n := |o| - 1;
      var m, e := Merge(batch, o[..n]), o[n];
      MergeUnique(batch, o[..n]);
      FindIs(m, e.key);
    }
  }

  // ---------------------------------------------------------------- sessions

  lemma {:induction false} FindRun(p: Pair, ss: seq<Set>, key: string)
    ensures Find(Run(p, ss).store, key) == OrElse(LastSet(ss, false, key), Find(p.store, key))
    ensures Find(Run(p, ss).batch, key) == OrElse(LastSet(ss, true, key), Find(p.batch, key))
  {
    if ss != [] {
      var n := |ss| - 1;
      var q := Run(p, ss[..n]);
      FindRun(p, ss[..n], key);
      FindPut(q.store, ss[n].entry, key);
      FindPut(q.batch, ss[n].entry, key);
    }
  }

  lemma {:induction false} RunUnique(p: Pair, ss: seq<Set>)
    requires Unique(p.store) && Unique(p.batch)
    ensures Unique(Run(p, ss).store) && Unique(Run(p, ss).batch)
  {
    if ss != [] {
      var n := |ss| - 1;
      var q := Run(p, ss[..n]);
      RunUnique(p, ss[..n]);
      PutUnique(q.store, ss[n].entry);
      PutUnique(q.batch, ss[n].entry);
    }
  }

  /** Main theorem: after any interleaving of the two kinds of calls, a key holds its last
      clearing set; failing that its last direct set, or its old entry, if that is webpa's. */
  lemma SessionIsLastWriteWins(store: Object, ss: seq<Set>, key: string)
    requires Unique(store)
    ensures Find(Session(store, ss), key) ==
      OrElse(LastSet(ss, true, key), OnlyWebpa(OrElse(LastSet(ss, false, key), Find(store, key))))
    ensures Unique(Session(store, ss))
  {
    var p := Pair(store, []);
    RunUnique(p, ss);
    FindRun(p, ss, key);
    FindMerge(Run(p, ss).batch, Run(p, ss).store, key);
    MergeUnique(Run(p, ss).batch, Run(p, ss).store);
  }

  /** What is not sent again and was not set through webpa vanishes. */
  lemma NotResentVanishes(store: Object, ss: seq<Set>, key: string)
    requires Unique(store) && LastSet(ss, true, key).None?
    ensures Find(Session(store, ss), key).None? <==>
      OnlyWebpa(OrElse(LastSet(ss, false, key), Find(store, key))).None?
  {
    SessionIsLastWriteWins(store, ss, key);
  }

  // ---------------------------------------------------------------- what a key is left with

  /** The object has this entry for the key, and no other one. */
  ghost predicate Has(o: Object, key: string, e: Entry) {
    e in o && SameText(e.key, key) && forall x :: x in o && SameText(x.key, key) ==> x == e
  }

  ghost predicate HasNone(o: Object, key: string) {
    forall x :: x in o ==> !SameText(x.key, key)
  }

  /** Call n is the last one of its kind for the key. */
  ghost predicate IsLast(ss: seq<Set>, clearDB: bool, key: string, n: nat) {
    n < |ss| && ss[n].clearDB == clearDB && SameText(ss[n].entry.key, key) &&
    forall i :: n < i < |ss| ==> !(ss[i].clearDB == clearDB && SameText(ss[i].entry.key, key))
  }

  ghost predicate IsNever(ss: seq<Set>, clearDB: bool, key: string) {
    forall i :: 0 <= i < |ss| ==> !(ss[i].clearDB == clearDB && SameText(ss[i].entry.key, key))
  }

  lemma {:induction false} LastIs(ss: seq<Set>, clearDB: bool, key: string, n: nat)
    requires IsLast(ss, clearDB, key, n)
    ensures LastSet(ss, clearDB, key) == Some(ss[n].entry)
  {
    if n < |ss| - 1 {
      LastIs(ss[..|ss| - 1], clearDB, key, n);
    }
  }

  lemma {:induction false} NeverIs(ss: seq<Set>, clearDB: bool, key: string)
    requires IsNever(ss, clearDB, key)
    ensures LastSet(ss, clearDB, key) == None
  {
    if ss != [] {
      NeverIs(ss[..|ss| - 1], clearDB, key);
    }
  }

  lemma FindHas(o: Object, key: string)
    requires Unique(o)
    ensures match Find(o, key) case Some(e) => Has(o, key, e) case None => HasNone(o, key)
  {
    FindIs(o, key);
    forall x | x in o && SameText(x.key, key) ensures Find(o, key) == Some(x) {
      var i :| 0 <= i < |o| && o[i] == x;
      FindAt(o, i, key);
    }
  }

  /** A key that was sent with the clear flag is left with its last such entry, whatever it was
      set to directly before or after that. */
  lemma ClearingSetStays(store: Object, ss: seq<Set>, key: string, n: nat)
    requires Unique(store) && IsLast(ss, true, key, n)
    ensures Has(Session(store, ss), key, ss[n].entry)
  {
    SessionIsLastWriteWins(store, ss, key);
    LastIs(ss, true, key, n);
    FindHas(Session(store, ss), key);
  }

  /** A key that was only set directly is left with its last entry, if that comes from webpa. */
  lemma DirectSetStays(store: Object, ss: seq<Set>, key: string, n: nat)
    requires Unique(store) && IsNever(ss, true, key) && IsLast(ss, false, key, n)
    ensures if ss[n].entry.source == Some("webpa") then Has(Session(store, ss), key, ss[n].entry)
            else HasNone(Session(store, ss), key)
  {
    SessionIsLastWriteWins(store, ss, key);
    NeverIs(ss, true, key);
    LastIs(ss, false, key, n);
    FindHas(Session(store, ss), key);
  }

  /** A key that was not sent keeps its old entry, if that comes from webpa. */
  lemma OldEntryStays(store: Object, ss: seq<Set>, key: string)
    requires Unique(store) && IsNever(ss, true, key) && IsNever(ss, false, key)
    ensures forall e :: e in store && SameText(e.key, key) ==>
      if e.source == Some("webpa") then Has(Session(store, ss), key, e) else HasNone(Session(store, ss), key)
    ensures HasNone(store, key) ==> HasNone(Session(store, ss), key)
  {
    SessionIsLastWriteWins(store, ss, key);
    NeverIs(ss, true, key);
    NeverIs(ss, false, key);
    FindHas(store, key);
    FindHas(Session(store, ss), key);
  }

  lemma PutNew(o: Object, e: Entry)
    requires HasNone(o, e.key)
    ensures Put(o, e) == o + [e]
  {
    forall i | 0 <= i < |o| ensures !SameText(o[i].key, e.key) {
      assert o[i] in o;
    }
    PutAt(o, e, |o|);
  }

  lemma {:induction false} BatchInOrder(store: Object, ss: seq<Set>)
    requires forall i :: 0 <= i < |ss| ==> ss[i].clearDB
    requires forall i, j :: 0 <= i < j < |ss| ==> !SameText(ss[i].entry.key, ss[j].entry.key)
    ensures var p := Run(Pair(store, []), ss);
      p.store == store && |p.batch| == |ss| && forall i :: 0 <= i < |ss| ==> p.batch[i] == ss[i].entry
  {
    if ss != [] {
      var n := |ss| - 1;
      BatchInOrder(store, ss[..n]);
      PutNew(Run(Pair(store, []), ss[..n]).batch, ss[n].entry);
    }
  }

  /** The merge goes behind the batch, in the old order. */
  lemma {:induction false} MergeInOrder(batch: Object, o: Object) returns (at: seq<nat>)
    ensures |Merge(batch, o)| == |batch| + |at| && Merge(batch, o)[..|batch|] == batch
    ensures forall i :: 0 <= i < |at| ==> at[i] < |o| && Merge(batch, o)[|batch| + i] == o[at[i]]
    ensures forall i, j :: 0 <= i < j < |at| ==> at[i] < at[j]
  {
    at := [];
    if o != [] {
      var n := |o| - 1;
      at := MergeInOrder(batch, o[..n]);
      if Webpa(o[n]) && Find(Merge(batch, o[..n]), o[n].key).None? {
        at := at + [n];
      }
    }
  }

  /** The order of the file: the new entries as they were sent, and behind them what is left of
      the old ones, in the old order. */
  lemma SessionInOrder(store: Object, ss: seq<Set>) returns (at: seq<nat>)
    requires forall i :: 0 <= i < |ss| ==> ss[i].clearDB
    requires forall i, j :: 0 <= i < j < |ss| ==> !SameText(ss[i].entry.key, ss[j].entry.key)
    ensures var o := Session(store, ss);
      |o| == |ss| + |at| && (forall i :: 0 <= i < |ss| ==> o[i] == ss[i].entry) &&
      (forall i :: 0 <= i < |at| ==> at[i] < |store| && o[|ss| + i] == store[at[i]]) &&
      forall i, j :: 0 <= i < j < |at| ==> at[i] < at[j]
  {
    BatchInOrder(store, ss);
    var batch := Run(Pair(store, []), ss).batch;
    at := MergeInOrder(batch, store);
    forall i | 0 <= i < |ss| ensures Merge(batch, store)[i] == ss[i].entry {
      assert Merge(batch, store)[..|batch|][i] == batch[i];
    }
  }

  // ---------------------------------------------------------------- repeating a batch

  ghost predicate AllClearing(ss: seq<Set>) {
    forall i :: 0 <= i < |ss| ==> ss[i].clearDB
  }

  lemma {:induction false} ClearingKeepsStore(p: Pair, q: Pair, ss: seq<Set>)
    requires AllClearing(ss) && p.batch == q.batch
    ensures Run(p, ss).store == p.store && Run(p, ss).batch == Run(q, ss).batch
  {
    if ss != [] {
      ClearingKeepsStore(p, q, ss[..|ss| - 1]);
    }
  }

  /** Entries that the new object has already are not added. */
  lemma {:induction false} MergeOfKnown(batch: Object, o: Object)
    requires forall i :: 0 <= i < |o| ==> Find(batch, o[i].key).Some?
    ensures Merge(batch, o) == batch
  {
    if o != [] {
      MergeOfKnown(batch, o[..|o| - 1]);
    }
  }

  lemma {:induction false} MergeTwice(batch: Object, o: Object)
    requires Unique(batch)
    ensures Merge(batch, Merge(batch, o)) == Merge(batch, o)
  {
    if o == [] {
      forall i | 0 <= i < |batch| ensures Find(batch, batch[i].key).Some? {
        FindAt(batch, i, batch[i].key);
      }
      MergeOfKnown(batch, batch);
    } else {
      var n := |o| - 1;
      var m, e := Merge(batch, o[..n]), o[n];
      MergeTwice(batch, o[..n]);
      assert (m + [e])[..|m|] == m;
    }
  }

  /** Sending the same batch again changes nothing, not even the order of the file. */
  lemma SameBatchIsIdempotent(store: Object, ss: seq<Set>)
    requires AllClearing(ss)
    ensures Session(Session(store, ss), ss) == Session(store, ss)
  {
    var p, q := Pair(store, []), Pair(Session(store, ss), []);
    ClearingKeepsStore(p, q, ss);
    ClearingKeepsStore(q, p, ss);
    ClearingUnique(p, ss);
    MergeTwice(Run(p, ss).batch, store);
  }

  lemma {:induction false} ClearingUnique(p: Pair, ss: seq<Set>)
    requires Unique(p.batch) && AllClearing(ss)
    ensures Unique(Run(p, ss).batch)
  {
    if ss != [] {
      var n := |ss| - 1;
      ClearingUnique(p, ss[..n]);
      PutUnique(Run(p, ss[..n]).batch, ss[n].entry);
    }
  }

  // ---------------------------------------------------------------- the store

  /** The first entry with this key, or -1. */
  method GetObjectItem(o: Object, key: string) returns (at: int)
    ensures at == -1 <==> Find(o, key).None?
    ensures at != -1 ==> 0 <= at < |o| && SameText(o[at].key, key) && Find(o, key) == Some(o[at])
    ensures at != -1 ==> forall i :: 0 <= i < at ==> !SameText(o[i].key, key)
    ensures at == -1 ==> forall i :: 0 <= i < |o| ==> !SameText(o[i].key, key)
  {
    at := 0;
    while at < |o|
      invariant 0 <= at <= |o| && Find(o, key) == Find(o[at..], key)
      invariant forall i :: 0 <= i < at ==> !SameText(o[i].key, key)
    {
      if SameText(o[at].key, key) {
        return;
      }
      assert o[at..][1..] == o[at + 1..];
      at := at + 1;
    }
    at := -1;
  }

  lemma {:induction false} PutAt(o: Object, e: Entry, at: nat)
    requires at <= |o| && forall i :: 0 <= i < at ==> !SameText(o[i].key, e.key)
    requires at < |o| ==> SameText(o[at].key, e.key)
    ensures Put(o, e) == if at < |o| then o[at := e] else o + [e]
  {
    if at > 0 {
      assert !SameText(o[0].key, e.key);
      PutAt(o[1..], e, at - 1);
    }
  }

  class RfcStore {
    /** The object that *pRfcStore points to, the one under construction, and the file. */
    var store: Option<Object>
    var newJson: Option<Object>
    var file: Object
    /** The store when processing started, and the calls since. */
    ghost var base: Object
    ghost var calls: seq<Set>

    function Contents(): Object
      reads `store
    {
      if store.Some? then store.value else []
    }

    ghost predicate Valid()
      reads this
    {
      (store.Some? ==> file == store.value) &&
      (newJson.Some? ==> Run(Pair(base, []), calls) == Pair(Contents(), newJson.value))
    }

    /** CosaDmlDiRfcStoreInit: None when there is no file. */
    constructor (parsed: Option<Object>)
      ensures Valid() && store == parsed && newJson == None
    {
      store, newJson := parsed, None;
      file := if parsed.Some? then parsed.value else [];
      base, calls := [], [];
    }

    method StartRfcProcessing()
      requires Valid()
      modifies this
      ensures Valid() && newJson == Some([]) && store == old(store) && file == old(file)
      ensures base == Contents() && calls == []
    {
      newJson := Some([]);
      base, calls := Contents(), [];
    }

    method PutItem(o: Object, e: Entry) returns (r: Object)
      ensures r == Put(o, e)
    {
      var at := GetObjectItem(o, e.key);
      PutAt(o, e, if at == -1 then |o| else at);
      r := if at != -1 then o[at := e] else o + [e];
    }

    /** A direct set goes to the store and the file, a clearing one to the new object; it is
        lost when processing was not started. */
    method ProcessRfcSet(clearDB: bool, e: Entry)
      requires Valid()
      modifies this
      ensures Valid() && base == old(base) && calls == old(calls) + [Set(clearDB, e)]
      ensures clearDB ==> store == old(store) && file == old(file)
      ensures clearDB ==> newJson == if old(newJson).Some? then Some(Put(old(newJson).value, e)) else None
      ensures !clearDB ==> store == Some(Put(old(Contents()), e)) && newJson == old(newJson) && file == Contents()
    {
      if !clearDB {
        if store.None? {
          store := Some([]);
        }
        var r := PutItem(store.value, e);
        store := Some(r);
        file := r;
      } else if newJson.Some? {
        var r := PutItem(newJson.value, e);
        newJson := Some(r);
      }
      calls := calls + [Set(clearDB, e)];
      assert calls[..|calls| - 1] == old(calls);
    }

    /** EndRfcProcessing: the store becomes the merge, and the file is the store. Without a
        start the store is dropped and the file stays. */
    method EndRfcProcessing()
      requires Valid()
      modifies this
      ensures Valid() && newJson == None
      ensures old(newJson).Some? ==> store == Some(Session(old(base), old(calls))) && file == store.value
      ensures old(newJson).None? ==> store == None && file == old(file)
    {
      if newJson.None? {
        store := None;
        return;
      }
      var o, batch := Contents(), newJson.value;
      var merged := batch;
      for i := 0 to |o|
        invariant merged == Merge(batch, o[..i])
      {
        assert o[..i + 1][..i] == o[..i];
        if Webpa(o[i]) {
          var at := GetObjectItem(merged, o[i].key);
          if at == -1 {
            merged := merged + [o[i]];
          }
        }
      }
      assert o[..|o|] == o;
      file := merged;
      store, newJson := Some(merged), None;
    }
  }
}
