/** What the pool writer and the pool reader do, said of the settings and of the record texts:
    which text a changed setting leaves, and which setting a text gives. */
module PoolOutcomes {
  import opened Decimal
  import opened Inet
  import opened IpList
  import opened Wrappers
  import opened Pool
  import LanCheck

  // ---------------------------------------------------------------- lists of addresses

  /** The texts with commas between them. */
  function CommaText(ts: seq<string>): string
    requires ts != []
  {
    if |ts| == 1 then ts[0] else ts[0] + "," + CommaText(ts[1..])
  }

  lemma {:induction false} FieldsOfCommaText(ts: seq<string>)
    requires ts != [] && forall i :: 0 <= i < |ts| ==> ',' !in ts[i]
    ensures Fields(CommaText(ts), ',') == ts
  {
    if |ts| == 1 {
      FieldsOne(ts[0], ',');
    } else {
      FieldsOfCommaText(ts[1..]);
      FieldsCons(ts[0], ',', CommaText(ts[1..]));
    }
  }

  /** Reading a list: a last text of at most one character does not count. There is an error for
      more than four texts, a last one of two to six characters, and a text that is no address.
      Otherwise the addresses fill the list from the front, with zeros behind them. */
  lemma ListFromTexts(ts: seq<string>)
    requires ts != [] && forall i :: 0 <= i < |ts| ==> ',' !in ts[i]
    ensures var r, n, last := ReadList(CommaText(ts)), |ts|, ts[|ts| - 1];
      var used := if |last| >= 7 then n else n - 1;
      (r.None? <==>
        n > 4 || 2 <= |last| <= 6 || exists i :: 0 <= i < used && Means(ts[i], Ip(255, 255, 255, 255))) &&
      (r.Some? ==> |r.value| == 4 && forall i :: 0 <= i < 4 ==>
        if i < used then Means(ts[i], r.value[i]) else r.value[i] == Ip(0, 0, 0, 0))
  {
    hide Means, ReadIp;
    FieldsOfCommaText(ts);
    var last := ts[|ts| - 1];
    var used := if |last| >= 7 then |ts| else |ts| - 1;
    var fs := if |last| >= 7 then ts else ts[..|ts| - 1];
    ReadFieldsSize(fs);
    forall i | 0 <= i < used ensures ReadFields(fs)[i] == ReadIp(ts[i]) {
      ReadFieldsAt(fs, i);
    }
    forall i, ip | 0 <= i < used ensures ReadIp(ts[i]) == ip <==> Means(ts[i], ip) {
      ReadIpIs(ts[i], ip);
    }
    if NO_ADDRESS in ReadFields(fs) {
      var i :| 0 <= i < used && ReadFields(fs)[i] == NO_ADDRESS;
    }
  }

  /** The text prints the addresses before the first zero. */
  ghost predicate Prints(text: string, l: seq<Ip>) {
    exists ts: seq<string> :: PrintsAs(text, l, ts)
  }

  predicate PrintsAs(text: string, l: seq<Ip>, ts: seq<string>) {
    |ts| <= |l| && (forall i :: 0 <= i < |ts| ==> l[i] != Ip(0, 0, 0, 0) && SaysIp(ts[i], l[i])) &&
    (|ts| < |l| ==> l[|ts|] == Ip(0, 0, 0, 0)) && text == if ts == [] then "" else CommaText(ts)
  }

  lemma {:induction false} JoinedIsCommaText(l: seq<Ip>)
    requires l != []
    ensures Texts(l) != [] && Joined(l) == CommaText(Texts(l))
  {
    if |l| > 1 {
      JoinedIsCommaText(l[1..]);
    }
  }

  lemma ListTextPrints(l: seq<Ip>)
    ensures Prints(ListText(l), l)
  {
    var f := Front(l);
    var ts := Texts(f);
    forall i | 0 <= i < |f| ensures |ts| == |f| && SaysIp(ts[i], l[i]) && l[i] != ZERO {
      TextsAt(f, i);
      assert f[i] in f;
    }
    if f != [] {
      JoinedIsCommaText(f);
    }
    assert PrintsAs(ListText(l), l, ts);
  }

  // ---------------------------------------------------------------- the writer

  predicate PrintsInt(text: string, n: int) {
    text == if n < 0 then "-" + Dec(-n) else Dec(n)
  }

  /** The record keeps what it held. */
  predicate Stays(after: Psm, before: Psm, f: Field) {
    (f in after <==> f in before) && (f in before ==> after[f] == before[f])
  }

  /** Each setting that differs leaves its text, and any other record stays. */
  predicate LeavesNames(after: Psm, before: Psm, n: Cfg, o: Cfg) {
    (if n.enabled != o.enabled then Enable in after && after[Enable] == (if n.enabled then "TRUE" else "FALSE")
     else Stays(after, before, Enable)) &&
    (if n.alias != o.alias then Alias in after && after[Alias] == n.alias else Stays(after, before, Alias)) &&
    (if n.iface != o.iface then |n.iface| >= 20 && Interface in after && after[Interface] == n.iface[20..]
     else Stays(after, before, Interface)) &&
    (if n.domain != o.domain then DomainName in after && after[DomainName] == n.domain
     else Stays(after, before, DomainName))
  }

  ghost predicate LeavesAddresses(after: Psm, before: Psm, n: Cfg, o: Cfg) {
    (if n.min != o.min then MinAddress in after && SaysIp(after[MinAddress], n.min)
     else Stays(after, before, MinAddress)) &&
    (if n.max != o.max then MaxAddress in after && SaysIp(after[MaxAddress], n.max)
     else Stays(after, before, MaxAddress)) &&
    (if n.mask != o.mask then SubnetMask in after && SaysIp(after[SubnetMask], n.mask)
     else Stays(after, before, SubnetMask)) &&
    (if n.dns != o.dns then DnsServers in after && Prints(after[DnsServers], n.dns)
     else Stays(after, before, DnsServers)) &&
    (if n.routers != o.routers then IpRouters in after && Prints(after[IpRouters], n.routers)
     else Stays(after, before, IpRouters))
  }

  /** The text of a time offset goes to the record of the lease time, over that of the lease. */
  predicate LeavesTimes(after: Psm, before: Psm, n: Cfg, o: Cfg) {
    (if n.order != o.order then Order in after && after[Order] == Dec(n.order) else Stays(after, before, Order)) &&
    (if n.offset != o.offset then LeaseTime in after && PrintsInt(after[LeaseTime], n.offset)
     else if n.lease != o.lease then LeaseTime in after && PrintsInt(after[LeaseTime], n.lease)
     else Stays(after, before, LeaseTime)) &&
    Stays(after, before, TimeOffset)
  }

  ghost predicate LeavesTexts(after: Psm, before: Psm, n: Cfg, o: Cfg) {
    LeavesNames(after, before, n, o) && LeavesAddresses(after, before, n, o) && LeavesTimes(after, before, n, o)
  }

  lemma WrittenRecord(before: Psm, n: Cfg, o: Cfg, f: Field)
    requires n.iface != o.iface ==> |n.iface| >= 20
    ensures Writable(n, o)
    ensures var after := Write(before, n, o);
      if Touched(n, o, f) then f in after && after[f] == WrittenText(n, o, f) else Stays(after, before, f)
  {
    hide Write, TextOf;
    assert |IP_INTERFACE| == 20;
    WriteIs(before, n, o);
    assert Get(Write(before, n, o), f) == if Touched(n, o, f) then Some(WrittenText(n, o, f)) else Get(before, f);
  }

  lemma NamesAreWritten(before: Psm, n: Cfg, o: Cfg)
    requires n.iface != o.iface ==> |n.iface| >= 20
    ensures Writable(n, o) && LeavesNames(Write(before, n, o), before, n, o)
  {
    hide Write, Stays;
    assert |IP_INTERFACE| == 20;
    WrittenRecord(before, n, o, Enable);
    WrittenRecord(before, n, o, Alias);
    WrittenRecord(before, n, o, Interface);
    WrittenRecord(before, n, o, DomainName);
  }

  lemma AddressesAreWritten(before: Psm, n: Cfg, o: Cfg)
    requires n.iface != o.iface ==> |n.iface| >= 20
    ensures Writable(n, o) && LeavesAddresses(Write(before, n, o), before, n, o)
  {
    hide Write, Stays, Prints, ListText, Writable, Dec;
    WrittenRecord(before, n, o, MinAddress);
    WrittenRecord(before, n, o, MaxAddress);
    WrittenRecord(before, n, o, SubnetMask);
    WrittenRecord(before, n, o, DnsServers);
    WrittenRecord(before, n, o, IpRouters);
    ListTextPrints(n.dns);
    ListTextPrints(n.routers);
  }

  lemma TimesAreWritten(before: Psm, n: Cfg, o: Cfg)
    requires n.iface != o.iface ==> |n.iface| >= 20
    ensures Writable(n, o) && LeavesTimes(Write(before, n, o), before, n, o)
  {
    hide Write, Stays;
    WrittenRecord(before, n, o, Order);
    WrittenRecord(before, n, o, LeaseTime);
    WrittenRecord(before, n, o, TimeOffset);
  }

  lemma PoolIsWritten(before: Psm, n: Cfg, o: Cfg)
    requires n.iface != o.iface ==> |n.iface| >= 20
    ensures Writable(n, o) && LeavesTexts(Write(before, n, o), before, n, o)
  {
    hide Write, LeavesNames, LeavesAddresses, LeavesTimes;
    NamesAreWritten(before, n, o);
    AddressesAreWritten(before, n, o);
    TimesAreWritten(before, n, o);
  }

  /** The server restarts exactly when a setting other than the alias is changed. */
  lemma RestartIsNeeded(n: Cfg, o: Cfg)
    ensures Restarts(n, o) <==>
      !(n.enabled == o.enabled && n.iface == o.iface && n.min == o.min && n.max == o.max && n.mask == o.mask &&
        n.dns == o.dns && n.routers == o.routers && n.domain == o.domain && n.lease == o.lease &&
        n.order == o.order && n.offset == o.offset)
  {
    hide IpList.Joined;
  }

  // ---------------------------------------------------------------- the reader

  /** The settings of a pool from its records, over the default d: a record that is there decides
      its setting, and the pool is disabled without one. */
  lemma PoolFromRecords(d: Cfg, psm: Psm)
    ensures var c := Decode(d, psm);
      (c.enabled <==> Enable in psm && psm[Enable] == "TRUE") &&
      c.alias == (if Alias in psm then psm[Alias] else d.alias) &&
      c.iface == (if Interface in psm then "Device.IP.Interface." + psm[Interface] else d.iface) &&
      c.domain == (if DomainName in psm then psm[DomainName] else d.domain) &&
      c.lease == (if LeaseTime in psm then Atoi(psm[LeaseTime]) else d.lease) &&
      c.offset == (if TimeOffset in psm then Atoi(psm[TimeOffset]) else d.offset) &&
      c.order == (if Order !in psm then d.order else if Atoi(psm[Order]) < 0 then 0 else Atoi(psm[Order]))
    ensures var c := Decode(d, psm);
      (if MinAddress in psm then Means(psm[MinAddress], c.min) else c.min == d.min) &&
      (if MaxAddress in psm then Means(psm[MaxAddress], c.max) else c.max == d.max) &&
      (if SubnetMask in psm then Means(psm[SubnetMask], c.mask) else c.mask == d.mask) &&
      c.dns == (if DnsServers !in psm || ReadList(psm[DnsServers]).None? then d.dns
                else ReadList(psm[DnsServers]).value) &&
      c.routers == if IpRouters !in psm || ReadList(psm[IpRouters]).None? then d.routers
                   else ReadList(psm[IpRouters]).value
  {
    hide ReadIp, Means, ReadList;
    var c := Decode(d, psm);
    if MinAddress in psm { ReadIpIs(psm[MinAddress], c.min); }
    if MaxAddress in psm { ReadIpIs(psm[MaxAddress], c.max); }
    if SubnetMask in psm { ReadIpIs(psm[SubnetMask], c.mask); }
  }

  // ---------------------------------------------------------------- the table

  predicate PrivateIp(ip: Ip) {
    ip.a == 10 || (ip.a == 172 && 16 <= ip.b <= 31) || (ip.a == 192 && ip.b == 168)
  }

  /** Pool 2 is refused when one of its ends is not private, and no other pool is. */
  lemma RefusedIff(id: nat, n: Cfg)
    ensures Refused(id, n) <==> id == 2 && !(PrivateIp(n.min) && PrivateIp(n.max))
  {
    PrivateIff(n.min);
    PrivateIff(n.max);
  }

  lemma PrivateIff(ip: Ip)
    ensures PrivateIp(ip) <==> !LanCheck.IsPublic(Number(ip))
  {
  }

  /** A pool that is added goes to the end of the list, written over the default. One that is set
      replaces the first pool with its number, unless that is refused or not there. */
  lemma PoolsAreSet(t: Table, d: Cfg, id: nat, n: Cfg, i: nat)
    requires OpWritable(t, d, Add(id, n)) && OpWritable(t, d, Set(id, n))
    requires i <= |t.list| && (forall j :: 0 <= j < i ==> t.list[j].0 != id) && (i < |t.list| ==> t.list[i].0 == id)
    ensures var u := Apply(t, d, Add(id, n));
      u.list == t.list + [(id, n)] && (forall m :: m != id ==> Of(u.recs, m) == Of(t.recs, m)) &&
      LeavesTexts(Of(u.recs, id), Of(t.recs, id), n, d)
    ensures var u := Apply(t, d, Set(id, n));
      if i == |t.list| || (id == 2 && !(PrivateIp(n.min) && PrivateIp(n.max))) then u == t
      else
        u.list == t.list[i := (id, n)] && (forall m :: m != id ==> Of(u.recs, m) == Of(t.recs, m)) &&
        LeavesTexts(Of(u.recs, id), Of(t.recs, id), n, t.list[i].1)
  {
    hide Write, LeavesTexts, Refused, PrivateIp;
    assert |IP_INTERFACE| == 20;
    RefusedIff(id, n);
    assert At(t.list, id) == i;
    PoolIsWritten(Of(t.recs, id), n, d);
    if i < |t.list| && !Refused(id, n) {
      PoolIsWritten(Of(t.recs, id), n, t.list[i].1);
    }
  }
}
