/** What a webconfig request leaves behind, said of the document and of the database texts: when
    it is served, and which text is then under which key. */
module RequestOutcomes {
  import opened Bits
  import opened Decimal
  import opened Inet
  import opened LanCheck
  import opened Syscfg
  import opened Atomicity
  import opened LanAtomicity
  import opened Validation
  import opened Sessions

  // ---------------------------------------------------------------- static clients

  /** Hex digits in pairs with colons between them. */
  predicate GoodMac(mac: string) {
    |mac| == 17 && mac != "00:00:00:00:00:00" &&
    forall i :: 0 <= i < 17 ==>
      if i in {2, 5, 8, 11, 14} then mac[i] == ':' else mac[i] in "0123456789abcdefABCDEF"
  }

  lemma HexDigitIs(c: char)
    ensures HexDigit(c) <==> c in "0123456789abcdefABCDEF"
  {
    var hex := "0123456789abcdefABCDEF";
    assert hex[0] == '0' && hex[1] == '1' && hex[2] == '2' && hex[3] == '3' && hex[4] == '4' && hex[5] == '5';
    assert hex[6] == '6' && hex[7] == '7' && hex[8] == '8' && hex[9] == '9' && hex[10] == 'a' && hex[11] == 'b';
    assert hex[12] == 'c' && hex[13] == 'd' && hex[14] == 'e' && hex[15] == 'f' && hex[16] == 'A' && hex[17] == 'B';
    assert hex[18] == 'C' && hex[19] == 'D' && hex[20] == 'E' && hex[21] == 'F';
  }

  lemma GoodMacIff(mac: string)
    ensures IsMac(mac) <==> GoodMac(mac)
  {
    forall i | 0 <= i < 17 ensures i % 3 == 2 <==> i in {2, 5, 8, 11, 14} {}
    forall c ensures HexDigit(c) <==> c in "0123456789abcdefABCDEF" {
      HexDigitIs(c);
    }
  }

  // ---------------------------------------------------------------- the LAN block

  /** The private blocks 10/8, 172.16/12 and 192.168/16. */
  predicate Private(n: nat) {
    n / 0x1000000 == 10 || (n / 0x1000000 == 172 && 16 <= n / 0x10000 % 256 <= 31)
    || (n / 0x1000000 == 192 && n / 0x10000 % 256 == 168)
  }

  lemma PrivateIff(a: Address)
    ensures Private(a) <==> !IsPublic(a)
  {
  }

  /** An address for a client of this gateway: strictly between the ends of its range, not the
      gateway's own, and neither loopback nor multicast. */
  predicate ForClient(gw: Address, mask: Address, n: Address) {
    And(gw, mask) < n < And(gw, mask) + (0xFFFFFFFF - mask) && n != gw && n / 0x1000000 != 127 && n / 0x1000000 < 224
  }

  /** The numbers that a LAN block may have. */
  predicate GoodNumbers(gw: Address, mask: Address, lo: Address, hi: Address, lease: nat) {
    lo <= hi && Private(gw) && gw % 256 == 1 && 0 < mask < 0xFFFFFFFF &&
    ForClient(gw, mask, lo) && ForClient(gw, mask, hi) &&
    (lease % 60 == 0 || 120 <= lease <= 999 || lease == 0xFFFFFFFF)
  }

  lemma LowBits(a: Address)
    ensures And(a, 0xFF) == a % 256
  {
    hide And;
    FourLowBits(a, 0xF);
    FourLowBits(a / 16, 0);
    AndZero(a / 16 / 16);
  }

  lemma FourLowBits(x: nat, y: nat)
    ensures And(x, 16 * y + 15) == 16 * And(x / 16, y) + x % 16
  {
    hide And;
    TwoLowBits(x, 4 * y + 3);
    TwoLowBits(x / 4, y);
    assert x / 4 / 4 == x / 16;
  }

  lemma TwoLowBits(x: nat, y: nat)
    ensures And(x, 4 * y + 3) == 4 * And(x / 4, y) + x % 4
  {
    hide And;
    LowBit(x, 2 * y + 1);
    LowBit(x / 2, y);
    assert x / 2 / 2 == x / 4;
  }

  lemma LowBit(x: nat, y: nat)
    ensures And(x, 2 * y + 1) == 2 * And(x / 2, y) + x % 2
  {
    hide And;
    AndStep(x, 2 * y + 1);
    assert (2 * y + 1) / 2 == y;
  }

  lemma ForClientIff(gw: Address, mask: Address, n: Address)
    ensures IsUnicast(gw, mask, n) <==> ForClient(gw, mask, n)
  {
    LoopbackIs(n);
    BroadcastIs(gw, mask);
  }

  lemma SixtyTimes(m: nat)
    ensures (60 * m) % 60 == 0
  {
  }

  lemma WholeMinutes(t: nat)
    ensures t % 604800 == 0 || t % 86400 == 0 || t % 3600 == 0 ==> t % 60 == 0
  {
    if t % 604800 == 0 {
      SixtyTimes(10080 * (t / 604800));
    } else if t % 86400 == 0 {
      SixtyTimes(1440 * (t / 86400));
    } else if t % 3600 == 0 {
      SixtyTimes(60 * (t / 3600));
    }
  }

  lemma LeaseTimeIff(t: nat)
    ensures IsLeaseTime(t) <==> t % 60 == 0 || 120 <= t <= 999 || t == 0xFFFFFFFF
  {
    WholeMinutes(t);
  }

  /** A LAN block is accepted exactly for such numbers. */
  lemma GoodNumbersIff(gw: Address, mask: Address, lo: Address, hi: Address, lease: nat)
    ensures CheckNumbers(gw, mask, lo, hi, lease) == Valid <==> GoodNumbers(gw, mask, lo, hi, lease)
  {
    hide And, IsUnicast, ForClient, IsPublic, Private, IsLeaseTime;
    PrivateIff(gw);
    LowBits(gw);
    ForClientIff(gw, mask, lo);
    ForClientIff(gw, mask, hi);
    LeaseTimeIff(lease);
  }

  /** The number of the mask; for a text that is no dotted address it is what the conversion gives. */
  ghost predicate MaskIs(p: LanParam, m: Address) {
    Reads(p.mask, m) || (m == p.unreadable && Unreadable(p.mask))
  }

  lemma MaskIff(p: LanParam, m: Address)
    ensures MaskIs(p, m) <==> m == MaskBits(p)
  {
    forall n: nat ensures Reads(p.mask, n) <==> IsQuad(p.mask) && AddressOf(p.mask) == n {
      ReadsIff(p.mask, n);
    }
    if IsQuad(p.mask) {
      assert Reads(p.mask, AddressOf(p.mask));
    }
  }

  ghost predicate GoodBlock(doc: LanDoc) {
    doc.count > 0 && exists gw: Address, mask: Address, lo: Address, hi: Address ::
      Reads(doc.param.ip, gw) && MaskIs(doc.param, mask) && Reads(doc.param.start, lo) && Reads(doc.param.end, hi) &&
      GoodNumbers(gw, mask, lo, hi, doc.param.lease)
  }

  lemma GoodBlockIff(doc: LanDoc)
    ensures LanVerdict(doc) == Valid <==> GoodBlock(doc)
  {
    hide CheckNumbers, GoodNumbers, MaskIs, Reads, MaskBits, IsQuad, AddressOf;
    var p := doc.param;
    forall t, n: nat ensures Reads(t, n) <==> IsQuad(t) && AddressOf(t) == n { ReadsIff(t, n); }
    forall m: Address ensures MaskIs(p, m) <==> m == MaskBits(p) { MaskIff(p, m); }
    forall gw: Address, mask: Address, lo: Address, hi: Address
      ensures CheckNumbers(gw, mask, lo, hi, p.lease) == Valid <==> GoodNumbers(gw, mask, lo, hi, p.lease)
    {
      GoodNumbersIff(gw, mask, lo, hi, p.lease);
    }
    if LanVerdict(doc) == Valid {
      assert GoodNumbers(AddressOf(p.ip), MaskBits(p), AddressOf(p.start), AddressOf(p.end), p.lease);
      assert MaskIs(p, MaskBits(p));
    }
  }

  /** The verdict on readable texts, by the first test that their numbers fail. */
  lemma FirstLanFault(doc: LanDoc, gw: Address, mask: Address, lo: Address, hi: Address)
    requires doc.count > 0 && MaskIs(doc.param, mask)
    requires Reads(doc.param.ip, gw) && Reads(doc.param.start, lo) && Reads(doc.param.end, hi)
    ensures LanVerdict(doc) ==
      if lo > hi then RangeInvalid
      else if !Private(gw) || gw % 256 != 1 then GatewayInvalid
      else if mask == 0 || mask == 0xFFFFFFFF then NetmaskInvalid
      else if !ForClient(gw, mask, lo) || !ForClient(gw, mask, hi) then RangeInvalid
      else if doc.param.lease % 60 == 0 || 120 <= doc.param.lease <= 999 || doc.param.lease == 0xFFFFFFFF then Valid
      else LeaseTimeInvalid
  {
    hide And, IsUnicast, ForClient, IsPublic, Private, IsLeaseTime, Reads, MaskIs, IsQuad, AddressOf, MaskBits;
    ReadsIff(doc.param.ip, gw);
    ReadsIff(doc.param.start, lo);
    ReadsIff(doc.param.end, hi);
    MaskIff(doc.param, mask);
    PrivateIff(gw);
    LowBits(gw);
    ForClientIff(gw, mask, lo);
    ForClientIff(gw, mask, hi);
    LeaseTimeIff(doc.param.lease);
  }

  lemma UnreadableLan(doc: LanDoc)
    ensures doc.count == 0 ==> LanVerdict(doc) == EmptyBlob
    ensures doc.count > 0 && Unreadable(doc.param.ip) ==> LanVerdict(doc) == GatewayInvalid
    ensures doc.count > 0 && !Unreadable(doc.param.ip) && (Unreadable(doc.param.start) || Unreadable(doc.param.end)) ==>
      LanVerdict(doc) == RangeInvalid
  {
    hide Unreadable, IsQuad;
    UnreadableIff(doc.param.ip);
    UnreadableIff(doc.param.start);
    UnreadableIff(doc.param.end);
  }

  // ---------------------------------------------------------------- when a request is served

  /** The gateway routes: the mode is not set, or set to "0". */
  predicate Routes(db: Db) {
    Other("bridge_mode") !in db || db[Other("bridge_mode")] == "0"
  }

  /** An end of the DHCP range: 0 if it is not set, and the all-ones address for a text that is no
      dotted address. */
  ghost predicate EndIs(db: Db, k: Key, n: nat) {
    if k !in db then n == 0 else StandsFor(db[k], n)
  }

  lemma EndIff(db: Db, k: Key, n: nat)
    ensures EndIs(db, k, n) <==> n == RangeEnd(db, k)
  {
    if k in db {
      forall m: nat ensures Reads(db[k], m) <==> IsQuad(db[k]) && AddressOf(db[k]) == m {
        ReadsIff(db[k], m);
      }
      if IsQuad(db[k]) {
        assert Reads(db[k], AddressOf(db[k]));
      }
    }
  }

  /** The address is within the DHCP range, if both ends of the range are set. */
  ghost predicate WithinRange(db: Db, n: nat) {
    forall lo: nat, hi: nat :: EndIs(db, StartIp, lo) && EndIs(db, EndIp, hi) ==> lo == 0 || hi == 0 || lo <= n <= hi
  }

  ghost predicate GoodClient(db: Db, c: Client) {
    GoodMac(c.chaddr) && exists n: nat :: Reads(c.yiaddr, n) && WithinRange(db, n)
  }

  lemma GoodClientIff(db: Db, c: Client)
    ensures ClientVerdict(db, c) == Valid <==> GoodClient(db, c)
  {
    hide EndIs, Reads, GoodMac, IsMac, RangeEnd;
    GoodMacIff(c.chaddr);
    forall n: nat ensures Reads(c.yiaddr, n) <==> IsQuad(c.yiaddr) && AddressOf(c.yiaddr) == n {
      ReadsIff(c.yiaddr, n);
    }
    forall k, n: nat ensures EndIs(db, k, n) <==> n == RangeEnd(db, k) {
      EndIff(db, k, n);
    }
    if IsQuad(c.yiaddr) {
      assert Reads(c.yiaddr, AddressOf(c.yiaddr));
      assert EndIs(db, StartIp, RangeEnd(db, StartIp)) && EndIs(db, EndIp, RangeEnd(db, EndIp));
    }
  }

  /** The verdict on a document is that of its first bad entry, and there by the address first. */
  lemma {:induction false} FirstFaultIs(db: Db, doc: seq<Client>, i: nat)
    requires i < |doc| && !GoodClient(db, doc[i]) && forall j :: 0 <= j < i ==> GoodClient(db, doc[j])
    ensures StaticVerdict(db, doc) ==
      if Unreadable(doc[i].yiaddr) then InvalidIp
      else if exists n: nat :: Reads(doc[i].yiaddr, n) && WithinRange(db, n) then InvalidMac
      else StaticIpNotInLanRange
    decreases i
  {
    hide GoodClient, GoodMac, IsMac, StaticIpVerdict, Unreadable, WithinRange, Reads;
    GoodClientIff(db, doc[0]);
    if i > 0 {
      FirstFaultIs(db, doc[1..], i - 1);
    } else {
      AddressFault(db, doc[0]);
    }
  }

  lemma AddressFault(db: Db, c: Client)
    requires !GoodClient(db, c)
    ensures ClientVerdict(db, c) ==
      if Unreadable(c.yiaddr) then InvalidIp
      else if exists n: nat :: Reads(c.yiaddr, n) && WithinRange(db, n) then InvalidMac
      else StaticIpNotInLanRange
  {
    hide EndIs, Reads, GoodMac, IsMac, RangeEnd, Unreadable;
    UnreadableIff(c.yiaddr);
    GoodMacIff(c.chaddr);
    forall n: nat ensures Reads(c.yiaddr, n) <==> IsQuad(c.yiaddr) && AddressOf(c.yiaddr) == n {
      ReadsIff(c.yiaddr, n);
    }
    forall k, n: nat ensures EndIs(db, k, n) <==> n == RangeEnd(db, k) {
      EndIff(db, k, n);
    }
    if IsQuad(c.yiaddr) {
      assert Reads(c.yiaddr, AddressOf(c.yiaddr));
      assert EndIs(db, StartIp, RangeEnd(db, StartIp)) && EndIs(db, EndIp, RangeEnd(db, EndIp));
    }
  }

  ghost predicate AllGood(db: Db, doc: seq<Client>) {
    forall c :: c in doc ==> GoodClient(db, c)
  }

  ghost predicate GoodRequest(db: Db, req: Request) {
    match req
    case Clients(doc) => AllGood(db, doc)
    case Lan(block) => GoodBlock(block)
  }

  lemma RefusesIff(db: Db, req: Request)
    ensures Refuses(db, req) <==> !Routes(db) || !GoodRequest(db, req)
  {
    hide ClientVerdict, GoodClient, LanVerdict, GoodBlock;
    match req {
      case Clients(doc) =>
        forall c ensures ClientVerdict(db, c) == Valid <==> GoodClient(db, c) { GoodClientIff(db, c); }
        EmptyBlobIff(db, doc);
      case Lan(block) =>
        GoodBlockIff(block);
    }
  }

  /** The count, and for each entry its host line, its number and its alias. */
  predicate ShowsClients(db: Db, doc: seq<Client>) {
    Get(db, NumHosts) == Dec(|doc|) && forall j :: 0 <= j < |doc| ==>
      Get(db, Host(j + 1)) == doc[j].chaddr + "," + doc[j].yiaddr + "," &&
      Get(db, InsNum(j + 1)) == Dec(j + 1) && Get(db, HostAlias(j + 1)) == "StaticAddress" + Dec(j + 1)
  }

  /** Each key has the text that the request gives it; an empty document clears the count. */
  predicate Shows(db: Db, req: Request) {
    match req
    case Clients(doc) => if doc == [] then Get(db, NumHosts) == "" else ShowsClients(db, doc)
    case Lan(block) => ShowsLan(db, block.param)
  }

  lemma TableShowsClients(db: Db, doc: seq<Client>)
    requires Visible(db) == DocTable(doc)
    ensures ShowsClients(db, doc)
  {
    assert Get(db, NumHosts) == Visible(db).count;
    assert |Visible(db).slots| == HostCount(db);
    forall j | 0 <= j < |doc|
      ensures Get(db, Host(j + 1)) == doc[j].chaddr + "," + doc[j].yiaddr + ","
      ensures Get(db, InsNum(j + 1)) == Dec(j + 1) && Get(db, HostAlias(j + 1)) == "StaticAddress" + Dec(j + 1)
    {
      assert Visible(db).slots[j] == SlotAt(db, j + 1) == DocSlot(doc[j], j);
    }
  }

  /** In router mode a request of good entries, or a good block, succeeds when no call fails and
      the data model is there. Then each key has its text. */
  lemma GoodRequestIsServed(s: Session, req: Request, fault: int)
    requires Routes(s.db) && GoodRequest(s.db, req) && fault < 0
    ensures var (t, code) := Serve(s, req, fault, true); code == Success && Shows(t.db, req)
  {
    hide GoodRequest, StoppedBy, LanText, ShowsLan, ShowsClients, Visible, DocTable, Refuses;
    RefusesIff(s.db, req);
    ServedWhenNoCallFails(s, req, fault);
    match req {
      case Clients(doc) =>
        ServeClients(s, doc, fault, true);
        ShownClients(Serve(s, req, fault, true).0.db, doc);
      case Lan(block) =>
        ServeLanReads(s, block, fault, true);
        TextsShowLan(Serve(s, req, fault, true).0.db, block.param);
    }
  }

  lemma ShownClients(db: Db, doc: seq<Client>)
    requires Visible(db) == if doc == [] then Table("", []) else DocTable(doc)
    ensures if doc == [] then Get(db, NumHosts) == "" else ShowsClients(db, doc)
  {
    if doc == [] {
      assert Get(db, NumHosts) == Visible(db).count;
    } else {
      TableShowsClients(db, doc);
    }
  }

  lemma ServedWhenNoCallFails(s: Session, req: Request, fault: int)
    requires !Refuses(s.db, req) && fault < 0
    ensures Serve(s, req, fault, true).1 == Success && !BridgeMode(s.db)
  {
  }

  /** In router mode any other request is refused, changes nothing and clears the caches. */
  lemma BadRequestIsRefused(s: Session, req: Request, fault: int, present: bool)
    requires Routes(s.db) && !GoodRequest(s.db, req)
    ensures Serve(s, req, fault, present) == (Session(s.db, [], 0), ValidationFailed)
  {
    hide GoodRequest;
    RefusesIff(s.db, req);
    InvalidChangesNothing(s, req, fault, present);
  }

  /** With any other text under the mode key every request is refused, and the caches stay. */
  lemma OtherModeRefuses(s: Session, req: Request, fault: int, present: bool)
    requires Other("bridge_mode") in s.db && s.db[Other("bridge_mode")] != "0"
    ensures var (t, code) := Serve(s, req, fault, present);
      code == ValidationFailed && t.bkup == s.bkup && t.received == s.received
  {
    RefusedServe(s, req, fault, present);
  }

  /** Setting the mode decides the next request: "0" lets a good one through, and any other text
      has it refused. */
  lemma ModeDecides(s: Session, mode: string, req: Request, fault: int)
    requires GoodRequest(s.db, req) && fault < 0
    ensures var (t, code) := Serve(Step(s, ModeSet(mode)), req, fault, true);
      if mode == "0" then code == Success && Shows(t.db, req) else code == ValidationFailed
  {
    hide GoodBlock, Serve, Shows;
    var u := Step(s, ModeSet(mode));
    if mode == "0" {
      forall c | GoodClient(s.db, c) ensures GoodClient(u.db, c) {
        ModeKeepsRange(s.db, mode, c);
      }
      GoodRequestIsServed(u, req, fault);
    } else {
      OtherModeRefuses(u, req, fault, true);
    }
  }

  lemma ModeKeepsRange(db: Db, mode: string, c: Client)
    requires GoodClient(db, c)
    ensures GoodClient(db[Other("bridge_mode") := mode], c)
  {
    hide Reads, GoodMac;
    var now := db[Other("bridge_mode") := mode];
    forall n: nat ensures EndIs(now, StartIp, n) <==> EndIs(db, StartIp, n) {}
    forall n: nat ensures EndIs(now, EndIp, n) <==> EndIs(db, EndIp, n) {}
  }

  /** A failure in router mode leaves the table as it was when each of its slots was complete, and
      every key as it read when the six LAN keys were there. */
  lemma FailureShowsTheOld(s: Session, req: Request, fault: int, present: bool)
    requires Routes(s.db) && Serve(s, req, fault, present).1 != Success
    ensures var t := Serve(s, req, fault, present).0;
      match req
      case Clients(_) =>
        (Get(s.db, NumHosts) != "" && forall i :: 1 <= i <= Atoi(Get(s.db, NumHosts)) ==>
           Get(s.db, Host(i)) != "" && Get(s.db, InsNum(i)) != "" && Get(s.db, HostAlias(i)) != "") ==>
        Get(t.db, NumHosts) == Get(s.db, NumHosts) && forall i :: 1 <= i <= Atoi(Get(s.db, NumHosts)) ==>
          Get(t.db, Host(i)) == Get(s.db, Host(i)) && Get(t.db, InsNum(i)) == Get(s.db, InsNum(i)) &&
          Get(t.db, HostAlias(i)) == Get(s.db, HostAlias(i))
      case Lan(_) =>
        (Get(s.db, LanIp) != "" && Get(s.db, LanMask) != "" && Get(s.db, ServerEnabled) != "" &&
         Get(s.db, StartIp) != "" && Get(s.db, EndIp) != "" && Get(s.db, LeaseTime) != "") ==>
        forall k :: Get(t.db, k) == Get(s.db, k)
  {
    hide Serve, Visible, LanText;
    var t := Serve(s, req, fault, present).0;
    match req {
      case Clients(doc) =>
        ServeClients(s, doc, fault, present);
        if Visible(t.db) == Visible(s.db) {
          SameSlots(t.db, s.db);
        }
      case Lan(block) =>
        ServeLanReads(s, block, fault, present);
        forall k | k in LAN_KEYS ensures LanKey(k) { LanKeys(k); }
    }
  }

  lemma SameSlots(a: Db, b: Db)
    requires Visible(a) == Visible(b)
    ensures Get(a, NumHosts) == Get(b, NumHosts)
    ensures forall i :: 1 <= i <= Atoi(Get(b, NumHosts)) ==>
      Get(a, Host(i)) == Get(b, Host(i)) && Get(a, InsNum(i)) == Get(b, InsNum(i)) &&
      Get(a, HostAlias(i)) == Get(b, HostAlias(i))
  {
    SameVisibleIff(a, b);
    assert VisibleKey(b, NumHosts);
    forall i | 1 <= i <= Atoi(Get(b, NumHosts))
      ensures Get(a, Host(i)) == Get(b, Host(i)) && Get(a, InsNum(i)) == Get(b, InsNum(i))
      ensures Get(a, HostAlias(i)) == Get(b, HostAlias(i))
    {
      assert VisibleKey(b, Host(i)) && VisibleKey(b, InsNum(i)) && VisibleKey(b, HostAlias(i));
    }
  }

  /** After a LAN request that succeeded the two stored ends are addresses of a pool that lies
      strictly inside the range of the stored gateway and the document's mask. */
  lemma StoredPoolIsInside(s: Session, block: LanDoc, fault: int, present: bool)
    returns (gw: Address, mask: Address, lo: Address, hi: Address)
    requires Serve(s, Lan(block), fault, present).1 == Success
    ensures var db := Serve(s, Lan(block), fault, present).0.db;
      ShowsLan(db, block.param) && MaskIs(block.param, mask) &&
      Reads(Get(db, LanIp), gw) && Reads(Get(db, StartIp), lo) && Reads(Get(db, EndIp), hi) &&
      And(gw, mask) < lo <= hi < And(gw, mask) + (0xFFFFFFFF - mask)
  {
    hide LanText, ShowsLan, MaskIs, MaskBits, Reads, And, StoppedBy, Refuses;
    assert !Refuses(s.db, Lan(block)) && !BridgeMode(s.db) by { SuccessIsNotRefused(s, Lan(block), fault, present); }
    RefusesIff(s.db, Lan(block));
    gw, mask, lo, hi := AcceptedNumbers(block);
    ServeLanReads(s, block, fault, present);
    var db := Serve(s, Lan(block), fault, present).0.db;
    TextsShowLan(db, block.param);
    ShownEnds(db, block.param);
  }

  lemma ShownEnds(db: Db, p: LanParam)
    requires ShowsLan(db, p)
    ensures Get(db, LanIp) == p.ip && Get(db, StartIp) == p.start && Get(db, EndIp) == p.end
  {
  }

  lemma SuccessIsNotRefused(s: Session, req: Request, fault: int, present: bool)
    requires Serve(s, req, fault, present).1 == Success
    ensures !Refuses(s.db, req) && !BridgeMode(s.db)
  {
  }

  lemma AcceptedNumbers(doc: LanDoc) returns (gw: Address, mask: Address, lo: Address, hi: Address)
    requires GoodBlock(doc)
    ensures Reads(doc.param.ip, gw) && MaskIs(doc.param, mask)
    ensures Reads(doc.param.start, lo) && Reads(doc.param.end, hi) && lo <= hi
    ensures And(gw, mask) < lo && hi < And(gw, mask) + (0xFFFFFFFF - mask)
  {
    gw, mask, lo, hi :| Reads(doc.param.ip, gw) && MaskIs(doc.param, mask) &&
      Reads(doc.param.start, lo) && Reads(doc.param.end, hi) && GoodNumbers(gw, mask, lo, hi, doc.param.lease);
  }

  // ---------------------------------------------------------------- what is backed up

  /** The keys that a static-client request saves: the two counts; the host, the number, the alias
      and the comment of each entry up to the count; and the comment under the hardware address of
      an entry, unless that is too long for a key name. Only keys with a text are saved. */
  predicate Keeps(db: Db, k: Key) {
    var n := Atoi(Get(db, NumHosts));
    Get(db, k) != "" && match k
      case NumHosts => true
      case CommentCount => true
      case Host(i) => 1 <= i <= n
      case InsNum(i) => 1 <= i <= n
      case HostAlias(i) => 1 <= i <= n
      case LanComment(i) => 1 <= i <= n
      case CommentFor(mac) => |mac| <= 15 && exists i :: 1 <= i <= n && Before(Get(db, Host(i)), ',') == mac
      case _ => false
  }

  predicate OfSlot(db: Db, i: nat, k: Key) {
    Get(db, k) != "" &&
    (k == Host(i) || k == InsNum(i) || k == HostAlias(i) || k == LanComment(i)
     || (k == CommentFor(Before(Get(db, Host(i)), ',')) && |k.mac| <= 15))
  }

  lemma SlotKeeps(db: Db, i: nat, k: Key)
    ensures Names(BackupSlot(db, i), k) <==> OfSlot(db, i, k)
    ensures TakenFrom(BackupSlot(db, i), db)
  {
    hide Before;
    var mac := Before(Get(db, Host(i)), ',');
    EntryNames(db, Host(i), k);
    EntryNames(db, InsNum(i), k);
    EntryNames(db, HostAlias(i), k);
    EntryNames(db, LanComment(i), k);
    EntryNames(db, CommentFor(mac), k);
    var a := Entry(db, Host(i)) + Entry(db, InsNum(i));
    NamesConcat(Entry(db, Host(i)), Entry(db, InsNum(i)), k);
    NamesConcat(a, Entry(db, HostAlias(i)), k);
    NamesConcat(a + Entry(db, HostAlias(i)), Entry(db, LanComment(i)), k);
    NamesConcat(a + Entry(db, HostAlias(i)) + Entry(db, LanComment(i)), CommentEntry(db, mac), k);
  }

  lemma {:induction false} SlotsKeep(db: Db, n: nat, k: Key)
    ensures Names(BackupSlots(db, n), k) <==> exists i :: 1 <= i <= n && Names(BackupSlot(db, i), k)
    ensures TakenFrom(BackupSlots(db, n), db)
  {
    hide BackupSlot, Names;
    if n > 0 {
      SlotsKeep(db, n - 1, k);
      SlotKeeps(db, n, k);
      NamesConcat(BackupSlots(db, n - 1), BackupSlot(db, n), k);
    } else {
      assert !Names([], k) by { NoNames(k); }
    }
  }

  lemma NoNames(k: Key)
    ensures !Names([], k)
  {
  }

  lemma SlotOf(db: Db, k: Key) returns (i: nat)
    requires Keeps(db, k) && k != NumHosts && k != CommentCount
    ensures 1 <= i <= HostCount(db) && OfSlot(db, i, k)
  {
    if k.CommentFor? {
      i :| 1 <= i <= Atoi(Get(db, NumHosts)) && Before(Get(db, Host(i)), ',') == k.mac;
    } else {
      i := k.i;
    }
  }

  /** The backup names these keys and no others, each with its present text. */
  lemma BackupKeeps(db: Db, k: Key)
    ensures Names(Backup(db), k) <==> Keeps(db, k)
    ensures TakenFrom(Backup(db), db)
  {
    hide BackupSlots, BackupSlot, Before, Names;
    var n := HostCount(db);
    EntryNames(db, NumHosts, k);
    EntryNames(db, CommentCount, k);
    SlotsKeep(db, n, k);
    forall i: nat | 1 <= i <= n ensures Names(BackupSlot(db, i), k) <==> OfSlot(db, i, k) {
      SlotKeeps(db, i, k);
    }
    if Keeps(db, k) && k != NumHosts && k != CommentCount {
      var i := SlotOf(db, k);
      assert Names(BackupSlot(db, i), k);
    }
    NamesConcat(Entry(db, NumHosts), BackupSlots(db, n), k);
    NamesConcat(Entry(db, NumHosts) + BackupSlots(db, n), Entry(db, CommentCount), k);
  }
}
