/** DHCP server pools other than pool 1: the differential writer, which stores only the
    settings that changed, and the reader, which lays the stored records over the defaults. */
module Pool {
  import opened Decimal
  import opened IpList
  import opened LanCheck
  import opened Wrappers

  datatype Field =
    | Enable | Alias | Interface | MinAddress | MaxAddress | SubnetMask
    | DnsServers | IpRouters | DomainName | LeaseTime | Order | TimeOffset

  type Psm = map<Field, string>

  datatype Cfg = Cfg(
    enabled: bool, alias: string, iface: string, min: Ip, max: Ip, mask: Ip,
    dns: seq<Ip>, routers: seq<Ip>, domain: string, lease: int, order: nat, offset: int)

  const IP_INTERFACE := "Device.IP.Interface."

  function Get(psm: Psm, f: Field): Option<string> {
    if f in psm then Some(psm[f]) else None
  }

  /** The settings that the writer compares. */
  predicate Differs(n: Cfg, o: Cfg, f: Field) {
    match f
    case Enable => n.enabled != o.enabled
    case Alias => n.alias != o.alias
    case Interface => n.iface != o.iface
    case MinAddress => n.min != o.min
    case MaxAddress => n.max != o.max
    case SubnetMask => n.mask != o.mask
    case DnsServers => n.dns != o.dns
    case IpRouters => n.routers != o.routers
    case DomainName => n.domain != o.domain
    case LeaseTime => n.lease != o.lease
    case Order => n.order != o.order
    case TimeOffset => n.offset != o.offset
  }

  /** The writer skips the first 20 characters of an interface. */
  predicate HasSuffix(n: Cfg) {
    |n.iface| >= |IP_INTERFACE|
  }

  /** The text of a setting. */
  function TextOf(n: Cfg, f: Field): string
    requires f == Interface ==> HasSuffix(n)
  {
    match f
    case Enable => if n.enabled then "TRUE" else "FALSE"
    case Alias => n.alias
    case Interface => n.iface[|IP_INTERFACE|..]
    case MinAddress => IpText(n.min)
    case MaxAddress => IpText(n.max)
    case SubnetMask => IpText(n.mask)
    case DnsServers => ListText(n.dns)
    case IpRouters => ListText(n.routers)
    case DomainName => n.domain
    case LeaseTime => DecInt(n.lease)
    case Order => Dec(n.order)
    case TimeOffset => DecInt(n.offset)
  }

  /** A record is written when its setting differs; a time offset goes to the record of the
      lease time, after the lease time. */
  predicate Touched(n: Cfg, o: Cfg, f: Field) {
    match f
    case LeaseTime => Differs(n, o, LeaseTime) || Differs(n, o, TimeOffset)
    case TimeOffset => false
    case _ => Differs(n, o, f)
  }

  function WrittenText(n: Cfg, o: Cfg, f: Field): string
    requires f == Interface ==> HasSuffix(n)
  {
    if f == LeaseTime && Differs(n, o, TimeOffset) then TextOf(n, TimeOffset) else TextOf(n, f)
  }

  predicate Writable(n: Cfg, o: Cfg) {
    Differs(n, o, Interface) ==> HasSuffix(n)
  }

  /** What the writer leaves in the records. */
  ghost predicate IsWritten(after: Psm, before: Psm, n: Cfg, o: Cfg)
    requires Writable(n, o)
  {
    forall f :: Get(after, f) == if Touched(n, o, f) then Some(WrittenText(n, o, f)) else Get(before, f)
  }

  /** Whether the DHCP server must restart. */
  predicate Restarts(n: Cfg, o: Cfg) {
    n.(alias := o.alias) != o
  }

  lemma RestartsIff(n: Cfg, o: Cfg)
    ensures Restarts(n, o) <==> exists f :: f != Alias && Differs(n, o, f)
  {
    if Restarts(n, o) {
      assert Differs(n, o, Enable) || Differs(n, o, Interface) || Differs(n, o, MinAddress)
        || Differs(n, o, MaxAddress) || Differs(n, o, SubnetMask) || Differs(n, o, DnsServers)
        || Differs(n, o, IpRouters) || Differs(n, o, DomainName) || Differs(n, o, LeaseTime)
        || Differs(n, o, Order) || Differs(n, o, TimeOffset);
    }
  }

  // ---------------------------------------------------------------- reading

  function Read<T>(psm: Psm, f: Field, parse: string -> T, default: T): T {
    if f in psm then parse(psm[f]) else default
  }

  function ReadListOver(s: string, default: seq<Ip>): seq<Ip> {
    if ReadList(s).Some? then ReadList(s).value else default
  }

  function ReadNat(s: string): nat {
    if Atoi(s) < 0 then 0 else Atoi(s)
  }

  /** getDHCPv4ServerPoolParametersFromPSM over the default pool d. */
  function Decode(d: Cfg, psm: Psm): Cfg {
    Cfg(
      Read(psm, Enable, s => s == "TRUE", false),
      Read(psm, Alias, s => s, d.alias),
      Read(psm, Interface, s => IP_INTERFACE + s, d.iface),
      Read(psm, MinAddress, ReadIp, d.min),
      Read(psm, MaxAddress, ReadIp, d.max),
      Read(psm, SubnetMask, ReadIp, d.mask),
      Read(psm, DnsServers, s => ReadListOver(s, d.dns), d.dns),
      Read(psm, IpRouters, s => ReadListOver(s, d.routers), d.routers),
      Read(psm, DomainName, s => s, d.domain),
      Read(psm, LeaseTime, Atoi, d.lease),
      Read(psm, Order, ReadNat, d.order),
      Read(psm, TimeOffset, Atoi, d.offset))
  }

  /** A default pool: disabled, as the reader assumes, with readable lists. */
  predicate IsDefault(d: Cfg) {
    !d.enabled && Storable(d.dns) && Storable(d.routers)
  }

  predicate FourEntries(n: Cfg) {
    |n.dns| == MAX_ENTRIES && |n.routers| == MAX_ENTRIES
  }

  /** The changes that the records can hold. */
  predicate Holdable(n: Cfg, o: Cfg) {
    (Differs(n, o, Interface) ==> IP_INTERFACE <= n.iface) &&
    (Differs(n, o, DnsServers) ==> Storable(n.dns)) &&
    (Differs(n, o, IpRouters) ==> Storable(n.routers)) &&
    !Differs(n, o, TimeOffset)
  }

  lemma DecodedList(l: seq<Ip>, default: seq<Ip>)
    requires |l| == MAX_ENTRIES && Storable(default)
    ensures ReadListOver(ListText(l), default) == l <==> Storable(l)
  {
    ListRoundTripIff(l);
  }

  /** The setting of one field. */
  predicate Same(a: Cfg, b: Cfg, f: Field) {
    !Differs(a, b, f)
  }

  /** One setting read back after a write, from records that agreed with the old pool. */
  lemma ReadBack(d: Cfg, before: Psm, after: Psm, n: Cfg, o: Cfg, f: Field)
    requires IsDefault(d) && FourEntries(n) && Writable(n, o)
    requires IsWritten(after, before, n, o) && Decode(d, before) == o
    requires f != LeaseTime && f != TimeOffset
    ensures Same(Decode(d, after), n, f) <==>
      !Differs(n, o, f) || match f {
        case Interface => IP_INTERFACE <= n.iface
        case DnsServers => Storable(n.dns)
        case IpRouters => Storable(n.routers)
        case _ => true
      }
  {
    assert Get(after, f) == if Touched(n, o, f) then Some(WrittenText(n, o, f)) else Get(before, f);
    match f {
      case MinAddress => IpRoundTrip(n.min);
      case MaxAddress => IpRoundTrip(n.max);
      case SubnetMask => IpRoundTrip(n.mask);
      case DnsServers => DecodedList(n.dns, d.dns);
      case IpRouters => DecodedList(n.routers, d.routers);
      case Order => AtoiDec(n.order);
      case _ =>
    }
  }

  lemma ReadBackTimes(d: Cfg, before: Psm, after: Psm, n: Cfg, o: Cfg)
    requires Writable(n, o)
    requires IsWritten(after, before, n, o) && Decode(d, before) == o
    ensures Same(Decode(d, after), n, LeaseTime) && Same(Decode(d, after), n, TimeOffset) <==>
      !Differs(n, o, TimeOffset)
  {
    assert Get(after, LeaseTime) ==
      if Touched(n, o, LeaseTime) then Some(WrittenText(n, o, LeaseTime)) else Get(before, LeaseTime);
    assert Get(after, TimeOffset) == Get(before, TimeOffset);
    AtoiDec(n.lease);
  }

  lemma SameAll(a: Cfg, b: Cfg)
    ensures a == b <==> forall f :: Same(a, b, f)
  {
    if forall f :: Same(a, b, f) {
      assert Same(a, b, Enable) && Same(a, b, Alias) && Same(a, b, Interface) && Same(a, b, MinAddress)
        && Same(a, b, MaxAddress) && Same(a, b, SubnetMask) && Same(a, b, DnsServers) && Same(a, b, IpRouters)
        && Same(a, b, DomainName) && Same(a, b, LeaseTime) && Same(a, b, Order) && Same(a, b, TimeOffset);
    }
  }

  /** Main theorem: from records that decode to the old pool, a write gives records that decode
      to the new pool if and only if the change can be held. */
  lemma WriteDecodesIff(d: Cfg, before: Psm, after: Psm, n: Cfg, o: Cfg)
    requires IsDefault(d) && FourEntries(n) && Writable(n, o)
    requires IsWritten(after, before, n, o) && Decode(d, before) == o
    ensures Decode(d, after) == n <==> Holdable(n, o)
  {
    ReadBackTimes(d, before, after, n, o);
    forall f | f != LeaseTime && f != TimeOffset
      ensures Same(Decode(d, after), n, f) <==>
        !Differs(n, o, f) || match f {
          case Interface => IP_INTERFACE <= n.iface
          case DnsServers => Storable(n.dns)
          case IpRouters => Storable(n.routers)
          case _ => true
        }
    {
      ReadBack(d, before, after, n, o, f);
    }
    SameAll(Decode(d, after), n);
    if Holdable(n, o) {
      assert forall f :: Same(Decode(d, after), n, f);
    } else {
      assert !(Same(Decode(d, after), n, Interface) && Same(Decode(d, after), n, DnsServers)
        && Same(Decode(d, after), n, IpRouters) && Same(Decode(d, after), n, LeaseTime)
        && Same(Decode(d, after), n, TimeOffset));
    }
  }

  // ---------------------------------------------------------------- runs

  /** One conditional write. */
  function Put(psm: Psm, n: Cfg, o: Cfg, f: Field, record: Field): Psm
    requires f == Interface ==> Writable(n, o)
  {
    if Differs(n, o, f) then psm[record := TextOf(n, f)] else psm
  }

  function PutNames(psm: Psm, n: Cfg, o: Cfg): Psm
    requires Writable(n, o)
  {
    Put(Put(Put(psm, n, o, Enable, Enable), n, o, Alias, Alias), n, o, Interface, Interface)
  }

  function PutAddresses(psm: Psm, n: Cfg, o: Cfg): Psm {
    Put(Put(Put(psm, n, o, MinAddress, MinAddress), n, o, MaxAddress, MaxAddress), n, o, SubnetMask, SubnetMask)
  }

  function PutLists(psm: Psm, n: Cfg, o: Cfg): Psm {
    Put(Put(psm, n, o, DnsServers, DnsServers), n, o, IpRouters, IpRouters)
  }

  function PutLease(psm: Psm, n: Cfg, o: Cfg): Psm {
    Put(Put(psm, n, o, DomainName, DomainName), n, o, LeaseTime, LeaseTime)
  }

  /** The last write goes to the record of the lease time. */
  function PutTimes(psm: Psm, n: Cfg, o: Cfg): Psm {
    Put(Put(psm, n, o, Order, Order), n, o, TimeOffset, LeaseTime)
  }

  function PutFirst(psm: Psm, n: Cfg, o: Cfg): Psm
    requires Writable(n, o)
  {
    PutLists(PutAddresses(PutNames(psm, n, o), n, o), n, o)
  }

  /** The writer, record by record in its order. */
  function Write(psm: Psm, n: Cfg, o: Cfg): Psm
    requires Writable(n, o)
  {
    PutTimes(PutLease(PutFirst(psm, n, o), n, o), n, o)
  }

  lemma NamesGet(psm: Psm, n: Cfg, o: Cfg, f: Field)
    requires Writable(n, o)
    ensures Get(PutNames(psm, n, o), f) ==
      if f in {Enable, Alias, Interface} && Differs(n, o, f) then Some(TextOf(n, f)) else Get(psm, f)
  {
    assert Differs(n, o, Interface) ==> HasSuffix(n);
  }

  lemma AddressesGet(psm: Psm, n: Cfg, o: Cfg, f: Field)
    ensures Get(PutAddresses(psm, n, o), f) ==
      if f in {MinAddress, MaxAddress, SubnetMask} && Differs(n, o, f) then Some(TextOf(n, f)) else Get(psm, f)
  {
    assert f == MinAddress || f != MinAddress;
  }

  lemma ListsGet(psm: Psm, n: Cfg, o: Cfg, f: Field)
    ensures Get(PutLists(psm, n, o), f) ==
      if f in {DnsServers, IpRouters} && Differs(n, o, f) then Some(TextOf(n, f)) else Get(psm, f)
  {
    assert f == DnsServers || f != DnsServers;
  }

  lemma TimesGet(psm: Psm, n: Cfg, o: Cfg, f: Field)
    ensures Get(PutTimes(PutLease(psm, n, o), n, o), f) ==
      if f in {DomainName, LeaseTime, Order} && Touched(n, o, f) then Some(WrittenText(n, o, f)) else Get(psm, f)
  {
    assert f == LeaseTime || f != LeaseTime;
  }

  lemma WriteIs(psm: Psm, n: Cfg, o: Cfg)
    requires Writable(n, o)
    ensures IsWritten(Write(psm, n, o), psm, n, o)
  {
    forall f ensures Get(Write(psm, n, o), f) ==
      if Touched(n, o, f) then Some(WrittenText(n, o, f)) else Get(psm, f)
    {
      var a := PutNames(psm, n, o);
      var b := PutAddresses(a, n, o);
      NamesGet(psm, n, o, f);
      AddressesGet(a, n, o, f);
      ListsGet(b, n, o, f);
      TimesGet(PutLists(b, n, o), n, o, f);
    }
  }

  /** A pool in memory and its records. */
  datatype State = State(cfg: Cfg, psm: Psm)

  /** Adding a pool and then setting it any number of times. */
  ghost predicate AllWritable(d: Cfg, ns: seq<Cfg>) {
    forall i :: 0 <= i < |ns| ==> FourEntries(ns[i]) && Writable(ns[i], Before(d, ns, i))
  }

  function Before(d: Cfg, ns: seq<Cfg>, i: nat): Cfg
    requires i <= |ns|
  {
    if i == 0 then d else ns[i - 1]
  }

  ghost function Run(d: Cfg, ns: seq<Cfg>): State
    requires AllWritable(d, ns)
  {
    if ns == [] then State(d, map[])
    else
      var n := |ns| - 1;
      assert AllWritable(d, ns[..n]) by {
        assert forall i :: 0 <= i < n ==> Before(d, ns[..n], i) == Before(d, ns, i);
      }
      State(ns[n], Write(Run(d, ns[..n]).psm, ns[n], Before(d, ns, n)))
  }

  /** No records decode to the default pool exactly when that is disabled. */
  lemma NoRecordsIff(d: Cfg)
    ensures Decode(d, map[]) == d <==> !d.enabled
  {
  }

  lemma HoldableStep(d: Cfg, psm: Psm, n: Cfg, o: Cfg)
    requires IsDefault(d) && FourEntries(n) && Writable(n, o) && Decode(d, psm) == o
    ensures Decode(d, Write(psm, n, o)) == n <==> Holdable(n, o)
  {
    WriteIs(psm, n, o);
    WriteDecodesIff(d, psm, Write(psm, n, o), n, o);
  }

  lemma BeforePrefix(d: Cfg, ns: seq<Cfg>, k: nat)
    requires AllWritable(d, ns) && k <= |ns|
    ensures AllWritable(d, ns[..k])
    ensures forall i :: 0 <= i < k ==> Before(d, ns[..k], i) == Before(d, ns, i)
  {
  }

  ghost predicate AllHoldable(d: Cfg, ns: seq<Cfg>) {
    forall i :: 0 <= i < |ns| ==> Holdable(ns[i], Before(d, ns, i))
  }

  /** Over every run of changes that the records can hold, decoding them gives the pool. */
  lemma {:induction false} RunDecodes(d: Cfg, ns: seq<Cfg>)
    requires IsDefault(d) && AllWritable(d, ns) && AllHoldable(d, ns)
    ensures Run(d, ns).cfg == Before(d, ns, |ns|)
    ensures Decode(d, Run(d, ns).psm) == Run(d, ns).cfg
  {
    if ns == [] {
      NoRecordsIff(d);
    } else {
      var n := |ns| - 1;
      BeforePrefix(d, ns, n);
      assert AllHoldable(d, ns[..n]);
      RunDecodes(d, ns[..n]);
      assert Holdable(ns[n], Before(d, ns, n)) && Writable(ns[n], Before(d, ns, n));
      HoldableStep(d, Run(d, ns[..n]).psm, ns[n], Before(d, ns, n));
    }
  }

  /** The record that a write leaves alone: sparse storage. */
  lemma UntouchedRecords(psm: Psm, n: Cfg, o: Cfg, f: Field)
    requires Writable(n, o) && !Differs(n, o, f) && !Differs(n, o, TimeOffset)
    ensures Get(Write(psm, n, o), f) == Get(psm, f)
  {
    WriteIs(psm, n, o);
    assert !Touched(n, o, f);
  }

  predicate RestartsFirst(n: Cfg, o: Cfg) {
    (Differs(n, o, Enable) || Differs(n, o, Interface)) ||
    (Differs(n, o, MinAddress) || Differs(n, o, MaxAddress) || Differs(n, o, SubnetMask)) ||
    (Differs(n, o, DnsServers) || Differs(n, o, IpRouters))
  }

  predicate RestartsLast(n: Cfg, o: Cfg) {
    (Differs(n, o, DomainName) || Differs(n, o, LeaseTime)) ||
    (Differs(n, o, Order) || Differs(n, o, TimeOffset))
  }

  lemma RestartParts(n: Cfg, o: Cfg)
    ensures Restarts(n, o) <==> RestartsFirst(n, o) || RestartsLast(n, o)
  {
  }

  // ---------------------------------------------------------------- the pool table

  datatype Status = Success | Failure | CantFind

  /** Pool 2 takes private addresses only. */
  predicate Refused(id: nat, n: Cfg) {
    id == 2 && (IsPublic(Number(n.min)) || IsPublic(Number(n.max)))
  }

  function Of(recs: map<nat, Psm>, id: nat): Psm {
    if id in recs then recs[id] else map[]
  }

  /** The records of pool `id` became psm, and no other pool's records changed. */
  ghost predicate Recorded(after: map<nat, Psm>, before: map<nat, Psm>, id: nat, psm: Psm) {
    forall i :: Of(after, i) == if i == id then psm else Of(before, i)
  }

  /** The pools in list order, by number, and the records of all pools. */
  datatype Table = Table(list: seq<(nat, Cfg)>, recs: map<nat, Psm>)

  datatype Op = Add(id: nat, n: Cfg) | Set(id: nat, n: Cfg)

  function At(list: seq<(nat, Cfg)>, id: nat): (i: nat)
    ensures i <= |list|
    ensures i < |list| ==> list[i].0 == id
    ensures forall j :: 0 <= j < i ==> list[j].0 != id
  {
    First(list, (p: (nat, Cfg)) => p.0 == id)
  }

  /** The configuration that an operation writes over, unless it writes nothing. */
  function Base(t: Table, d: Cfg, op: Op): Option<Cfg> {
    match op
    case Add(_, _) => Some(d)
    case Set(id, n) =>
      var i := At(t.list, id);
      if i == |t.list| || Refused(id, n) then None else Some(t.list[i].1)
  }

  predicate OpWritable(t: Table, d: Cfg, op: Op) {
    Base(t, d, op).Some? ==> Writable(op.n, Base(t, d, op).value)
  }

  /** CosaDmlDhcpsAddPool and CosaDmlDhcpsSetPoolCfg */
  function Apply(t: Table, d: Cfg, op: Op): Table
    requires OpWritable(t, d, op)
  {
    match Base(t, d, op)
    case None => t
    case Some(o) =>
      Table(if op.Add? then t.list + [(op.id, op.n)] else t.list[At(t.list, op.id) := (op.id, op.n)],
            t.recs[op.id := Write(Of(t.recs, op.id), op.n, o)])
  }

  ghost predicate HasPool(list: seq<(nat, Cfg)>, id: nat) {
    exists i :: 0 <= i < |list| && list[i].0 == id
  }

  /** Distinct numbers; each pool is what its records decode to; no records without a pool. */
  ghost predicate Decoded(t: Table, d: Cfg) {
    (forall i, j :: 0 <= i < j < |t.list| ==> t.list[i].0 != t.list[j].0) &&
    (forall i :: 0 <= i < |t.list| ==> Decode(d, Of(t.recs, t.list[i].0)) == t.list[i].1) &&
    (forall id :: Of(t.recs, id) != map[] ==> HasPool(t.list, id))
  }

  /** An operation that writes keeps this exactly when the records can hold the change. */
  lemma ApplyDecodesIff(t: Table, d: Cfg, op: Op)
    requires IsDefault(d) && Decoded(t, d) && OpWritable(t, d, op)
    requires Base(t, d, op).Some? ==> FourEntries(op.n)
    requires op.Add? ==> !HasPool(t.list, op.id)
    ensures Decoded(Apply(t, d, op), d) <==> (Base(t, d, op).Some? ==> Holdable(op.n, Base(t, d, op).value))
  {
    hide Write, Decode, Holdable, FourEntries;
    if Base(t, d, op).Some? {
      var o, u := Base(t, d, op).value, Apply(t, d, op);
      var at := if op.Add? then |t.list| else At(t.list, op.id);
      BaseDecodes(t, d, op);
      HoldableStep(d, Of(t.recs, op.id), op.n, o);
      assert u.list[at] == (op.id, op.n) && Of(u.recs, op.id) == Write(Of(t.recs, op.id), op.n, o);
      OthersDecode(t, u, d, op.id, at);
    }
  }

  lemma BaseDecodes(t: Table, d: Cfg, op: Op)
    requires IsDefault(d) && Decoded(t, d) && Base(t, d, op).Some?
    requires op.Add? ==> !HasPool(t.list, op.id)
    ensures Decode(d, Of(t.recs, op.id)) == Base(t, d, op).value
  {
    if op.Add? {
      NoRecordsIff(d);
    }
  }

  /** One pool was written: the table decodes exactly when that pool does. */
  lemma OthersDecode(t: Table, u: Table, d: Cfg, id: nat, at: nat)
    requires Decoded(t, d) && at < |u.list| && u.list[at].0 == id
    requires |t.list| <= |u.list| <= |t.list| + 1 && (|u.list| > |t.list| ==> at == |t.list| && !HasPool(t.list, id))
    requires at < |t.list| ==> t.list[at].0 == id
    requires forall i :: 0 <= i < |t.list| && i != at ==> u.list[i] == t.list[i]
    requires forall n :: n != id ==> Of(u.recs, n) == Of(t.recs, n)
    ensures Decoded(u, d) <==> Decode(d, Of(u.recs, id)) == u.list[at].1
  {
    if Decode(d, Of(u.recs, id)) == u.list[at].1 {
      forall n | Of(u.recs, n) != map[] ensures HasPool(u.list, n) {
        if n != id {
          var i :| 0 <= i < |t.list| && t.list[i].0 == n;
          assert u.list[i].0 == n;
        }
      }
    }
  }

  ghost predicate Fits(t: Table, d: Cfg, op: Op) {
    OpWritable(t, d, op) && (op.Add? ==> !HasPool(t.list, op.id)) &&
    (Base(t, d, op).Some? ==> FourEntries(op.n) && Holdable(op.n, Base(t, d, op).value))
  }

  ghost predicate AllFit(t: Table, d: Cfg, ops: seq<Op>)
    decreases |ops|
  {
    ops == [] || (Fits(t, d, ops[0]) && AllFit(Apply(t, d, ops[0]), d, ops[1..]))
  }

  ghost function RunAll(t: Table, d: Cfg, ops: seq<Op>): Table
    requires AllFit(t, d, ops)
    decreases |ops|
  {
    if ops == [] then t else RunAll(Apply(t, d, ops[0]), d, ops[1..])
  }

  /** Over every run of additions and settings that fit, on any number of pools and with
      refused and misdirected settings among them, every pool is what its records decode to. */
  lemma {:induction false} TableDecodes(t: Table, d: Cfg, ops: seq<Op>)
    requires IsDefault(d) && Decoded(t, d) && AllFit(t, d, ops)
    ensures Decoded(RunAll(t, d, ops), d)
    decreases |ops|
  {
    if ops != [] {
      ApplyDecodesIff(t, d, ops[0]);
      TableDecodes(Apply(t, d, ops[0]), d, ops[1..]);
    }
  }

  /** Two tables that differ at most in records that are empty. */
  ghost predicate SameTable(a: Table, b: Table) {
    a.list == b.list && forall id :: Of(a.recs, id) == Of(b.recs, id)
  }

  lemma SameDecodes(a: Table, b: Table, d: Cfg)
    requires SameTable(a, b)
    ensures Decoded(a, d) <==> Decoded(b, d)
  {
  }

  lemma KeepsDecoded(t: Table, u: Table, d: Cfg, op: Op)
    requires OpWritable(t, d, op) && SameTable(u, Apply(t, d, op))
    ensures IsDefault(d) && Decoded(t, d) && Fits(t, d, op) ==> Decoded(u, d)
  {
    SameDecodes(u, Apply(t, d, op), d);
    if IsDefault(d) && Decoded(t, d) && Fits(t, d, op) {
      ApplyDecodesIff(t, d, op);
    }
  }

  // ---------------------------------------------------------------- the pool objects

  /** The records of all pools, by pool number: two pools with one number share them. */
  class PoolRecords {
    var recs: map<nat, Psm>

    constructor ()
      ensures recs == map[]
    {
      recs := map[];
    }
  }

  class ServerPool {
    const instance: nat
    const store: PoolRecords
    var enabled: bool
    var alias: string
    var iface: string
    var min: Ip
    var max: Ip
    var mask: Ip
    var dns: seq<Ip>
    var routers: seq<Ip>
    var domain: string
    var lease: int
    var order: nat
    var offset: int

    /** DHCPV4_POOL_SET_DEFAULTVALUE */
    constructor (id: nat, d: Cfg, records: PoolRecords)
      ensures instance == id && store == records && View() == d
    {
      instance, store := id, records;
      enabled, alias, iface, min, max, mask := d.enabled, d.alias, d.iface, d.min, d.max, d.mask;
      dns, routers, domain, lease, order, offset := d.dns, d.routers, d.domain, d.lease, d.order, d.offset;
    }

    /** The records under this pool's number. */
    ghost function Records(): Psm
      reads store
    {
      Of(store.recs, instance)
    }

    function View(): Cfg
      reads this
    {
      Cfg(enabled, alias, iface, min, max, mask, dns, routers, domain, lease, order, offset)
    }

    method WriteParam(record: Field, text: string)
      modifies store
      ensures Recorded(store.recs, old(store.recs), instance, old(Records())[record := text])
    {
      store.recs := store.recs[instance := Of(store.recs, instance)[record := text]];
    }

    method WriteNames(n: Cfg, ghost o: Cfg) returns (restart: bool)
      requires o == View() && Writable(n, o)
      modifies `enabled, `alias, `iface, store
      ensures enabled == n.enabled && alias == n.alias && iface == n.iface
      ensures restart <==> Differs(n, o, Enable) || Differs(n, o, Interface)
      ensures Recorded(store.recs, old(store.recs), instance, PutNames(old(Records()), n, o))
    {
      restart := false;
      if n.enabled != enabled {
        WriteParam(Enable, if n.enabled then "TRUE" else "FALSE");
        restart := true;
        enabled := n.enabled;
      }
      if n.alias != alias {
        WriteParam(Alias, n.alias);
        alias := n.alias;
      }
      if n.iface != iface {
        WriteParam(Interface, n.iface[|IP_INTERFACE|..]);
        iface := n.iface;
        restart := true;
      }
    }

    method WriteAddresses(n: Cfg, ghost o: Cfg) returns (restart: bool)
      requires min == o.min && max == o.max && mask == o.mask
      modifies `min, `max, `mask, store
      ensures min == n.min && max == n.max && mask == n.mask
      ensures restart <==> Differs(n, o, MinAddress) || Differs(n, o, MaxAddress) || Differs(n, o, SubnetMask)
      ensures Recorded(store.recs, old(store.recs), instance, PutAddresses(old(Records()), n, o))
    {
      restart := false;
      if n.min != min {
        WriteParam(MinAddress, IpText(n.min));
        min := n.min;
        restart := true;
      }
      if n.max != max {
        WriteParam(MaxAddress, IpText(n.max));
        max := n.max;
        restart := true;
      }
      if n.mask != mask {
        WriteParam(SubnetMask, IpText(n.mask));
        mask := n.mask;
        restart := true;
      }
    }

    method WriteLists(n: Cfg, ghost o: Cfg) returns (restart: bool)
      requires dns == o.dns && routers == o.routers
      modifies `dns, `routers, store
      ensures dns == n.dns && routers == n.routers
      ensures restart <==> Differs(n, o, DnsServers) || Differs(n, o, IpRouters)
      ensures Recorded(store.recs, old(store.recs), instance, PutLists(old(Records()), n, o))
    {
      restart := false;
      if n.dns != dns {
        WriteParam(DnsServers, ListText(n.dns));
        dns := n.dns;
        restart := true;
      }
      if n.routers != routers {
        WriteParam(IpRouters, ListText(n.routers));
        routers := n.routers;
        restart := true;
      }
    }

    method WriteLease(n: Cfg, ghost o: Cfg) returns (restart: bool)
      requires domain == o.domain && lease == o.lease
      modifies `domain, `lease, store
      ensures domain == n.domain && lease == n.lease
      ensures restart <==> Differs(n, o, DomainName) || Differs(n, o, LeaseTime)
      ensures Recorded(store.recs, old(store.recs), instance, PutLease(old(Records()), n, o))
    {
      restart := false;
      if n.domain != domain {
        WriteParam(DomainName, n.domain);
        domain := n.domain;
        restart := true;
      }
      if n.lease != lease {
        WriteParam(LeaseTime, DecInt(n.lease));
        lease := n.lease;
        restart := true;
      }
    }

    method WriteTimes(n: Cfg, ghost o: Cfg) returns (restart: bool)
      requires order == o.order && offset == o.offset
      modifies `order, `offset, store
      ensures order == n.order && offset == n.offset
      ensures restart <==> Differs(n, o, Order) || Differs(n, o, TimeOffset)
      ensures Recorded(store.recs, old(store.recs), instance, PutTimes(old(Records()), n, o))
    {
      restart := false;
      if n.order != order {
        WriteParam(Order, Dec(n.order));
        order := n.order;
        restart := true;
      }
      if n.offset != offset {
        WriteParam(LeaseTime, DecInt(n.offset));
        offset := n.offset;
        restart := true;
      }
    }

    method WriteFirst(n: Cfg, ghost o: Cfg) returns (restart: bool)
      requires o == View() && Writable(n, o)
      modifies `enabled, `alias, `iface, `min, `max, `mask, `dns, `routers, store
      ensures View() == n.(domain := o.domain, lease := o.lease, order := o.order, offset := o.offset)
      ensures Recorded(store.recs, old(store.recs), instance, PutFirst(old(Records()), n, o))
      ensures restart <==> RestartsFirst(n, o)
    {
      var a := WriteNames(n, o);
      var b := WriteAddresses(n, o);
      var c := WriteLists(n, o);
      restart := a || b || c;
    }

    method WriteLast(n: Cfg, ghost o: Cfg) returns (restart: bool)
      requires domain == o.domain && lease == o.lease && order == o.order && offset == o.offset
      modifies `domain, `lease, `order, `offset, store
      ensures domain == n.domain && lease == n.lease && order == n.order && offset == n.offset
      ensures Recorded(store.recs, old(store.recs), instance, PutTimes(PutLease(old(Records()), n, o), n, o))
      ensures restart <==> RestartsLast(n, o)
    {
      var a := WriteLease(n, o);
      var b := WriteTimes(n, o);
      restart := a || b;
    }

    /** writeDHCPv4ServerPoolCFGToPSM: the pool becomes the new configuration, the records are
        those of Write, and the result asks for a restart when anything but the alias differs. */
    method WriteCfg(n: Cfg) returns (restart: bool)
      requires Writable(n, View())
      modifies this, store
      ensures View() == n
      ensures Recorded(store.recs, old(store.recs), instance, Write(old(Records()), n, old(View())))
      ensures restart <==> Restarts(n, old(View()))
    {
      ghost var o := View();
      var a := WriteFirst(n, o);
      var b := WriteLast(n, o);
      restart := a || b;
      RestartParts(n, o);
    }
  }

  /** The first pool with the number, or the length of the list. */
  function FindAt(pools: seq<ServerPool>, id: nat): (i: nat)
    ensures i <= |pools|
    ensures i < |pools| ==> pools[i].instance == id
    ensures forall j :: 0 <= j < i ==> pools[j].instance != id
  {
    First(pools, (p: ServerPool) => p.instance == id)
  }

  class PoolTable {
    var pools: seq<ServerPool>
    const default: Cfg
    const store: PoolRecords

    /** No object is shared, except the records. */
    ghost predicate Valid()
      reads this
    {
      (forall p :: p in pools ==> p.store == store) &&
      forall i, j :: 0 <= i < j < |pools| ==> pools[i] != pools[j]
    }

    ghost function View(): Table
      reads this, pools, store
    {
      var ps := pools;
      Table(seq(|ps|, i requires 0 <= i < |ps| reads ps => (ps[i].instance, ps[i].View())), store.recs)
    }

    lemma FindAtIs(id: nat)
      ensures FindAt(pools, id) == At(View().list, id)
    {
      var list, k := View().list, At(View().list, id);
      assert k < |pools| ==> pools[k].instance == list[k].0;
      assert forall j :: 0 <= j < k ==> pools[j].instance == list[j].0;
      assert forall j :: 0 <= j < |pools| ==> list[j].0 == pools[j].instance;
    }

    constructor (d: Cfg)
      ensures Valid() && default == d && fresh(store) && View() == Table([], map[]) && pools == []
    {
      pools, default := [], d;
      store := new PoolRecords();
    }

    /** find_dhcpv4_pool_by_instancenum */
    method FindPool(id: nat) returns (p: ServerPool?)
      ensures p == if FindAt(pools, id) < |pools| then pools[FindAt(pools, id)] else null
    {
      var i := 0;
      while i < |pools|
        invariant 0 <= i <= |pools| && forall k :: 0 <= k < i ==> pools[k].instance != id
      {
        if pools[i].instance == id {
          return pools[i];
        }
        i := i + 1;
      }
      p := null;
    }

    /** CosaDmlDhcpsAddPool: a default pool at the end of the list, then a write over it and
        over the records that its number already has. */
    method AddPool(id: nat, n: Cfg) returns (restart: bool)
      requires Valid() && Writable(n, default)
      modifies `pools, store
      ensures Valid() && |pools| == |old(pools)| + 1 && pools[..|old(pools)|] == old(pools)
      ensures fresh(pools[|old(pools)|])
      ensures SameTable(View(), Apply(old(View()), default, Add(id, n)))
      ensures IsDefault(default) && old(Decoded(View(), default)) && old(Fits(View(), default, Add(id, n))) ==>
        Decoded(View(), default)
      ensures restart <==> Restarts(n, default)
    {
      hide Decoded, IsDefault, Fits, Write, Decode;
      ghost var was := View();
      var p := new ServerPool(id, default, store);
      pools := pools + [p];
      restart := p.WriteCfg(n);
      assert forall i :: 0 <= i < |pools| - 1 ==> View().list[i] == was.list[i];
      KeepsDecoded(was, View(), default, Add(id, n));
    }

    /** CosaDmlDhcpsSetPoolCfg for the pools kept in records: the first pool with the number. */
    method SetPoolCfg(id: nat, n: Cfg) returns (status: Status, restart: bool)
      requires Valid() && id != 1 && OpWritable(View(), default, Set(id, n))
      modifies pools, store
      ensures Valid() && SameTable(View(), Apply(old(View()), default, Set(id, n)))
      ensures IsDefault(default) && old(Decoded(View(), default)) && old(Fits(View(), default, Set(id, n))) ==>
        Decoded(View(), default)
      ensures status == if FindAt(pools, id) == |pools| then CantFind else if Refused(id, n) then Failure else Success
      ensures restart <==> status == Success && Restarts(n, old(View()).list[FindAt(pools, id)].1)
    {
      hide Decoded, IsDefault, Fits, Write, Decode;
      FindAtIs(id);
      var pool := FindPool(id);
      if pool == null {
        return CantFind, false;
      }
      if Refused(id, n) {
        return Failure, false;
      }
      ghost var was, i := View(), FindAt(pools, id);
      restart := pool.WriteCfg(n);
      status := Success;
      assert View().list == was.list[i := (id, n)];
      KeepsDecoded(was, View(), default, Set(id, n));
    }
  }
}
