/** The validation of the static-client and LAN documents, and what an accepted one is good for. */
module Validation {
  import opened Inet
  import opened Syscfg
  import opened LanCheck
  import opened Atomicity
  import opened LanAtomicity

  predicate HexDigit(c: char) {
    '0' <= c <= '9' || 'a' <= c <= 'f' || 'A' <= c <= 'F'
  }

  predicate MacShape(mac: string) {
    |mac| == 17 && forall i :: 0 <= i < 17 ==> if i % 3 == 2 then mac[i] == ':' else HexDigit(mac[i])
  }

  predicate IsMac(mac: string) {
    MacShape(mac) && mac != "00:00:00:00:00:00"
  }

  /** A bound of the DHCP range: 0 when it is not set, and what the address conversion gives
      for a text that is no dotted quad otherwise. */
  function RangeEnd(db: Db, k: Key): Address {
    if k !in db then 0 else if IsQuad(db[k]) then AddressOf(db[k]) else 0xFFFFFFFF
  }

  /** CheckStaticClientIpIsValid */
  function StaticIpVerdict(db: Db, ip: string): Verdict {
    if !IsQuad(ip) then InvalidIp
    else if RangeEnd(db, StartIp) == 0 || RangeEnd(db, EndIp) == 0 then Valid
    else if AddressOf(ip) < RangeEnd(db, StartIp) || AddressOf(ip) > RangeEnd(db, EndIp) then StaticIpNotInLanRange
    else Valid
  }

  function ClientVerdict(db: Db, c: Client): Verdict {
    var v := StaticIpVerdict(db, c.yiaddr);
    if v != Valid then v else if !IsMac(c.chaddr) then InvalidMac else Valid
  }

  /** The verdict on a document is that of its first bad entry. */
  function FirstFault(db: Db, doc: seq<Client>): (v: Verdict)
    ensures v == Valid <==> forall c :: c in doc ==> ClientVerdict(db, c) == Valid
  {
    if doc == [] then Valid
    else if ClientVerdict(db, doc[0]) != Valid then ClientVerdict(db, doc[0])
    else assert doc == [doc[0]] + doc[1..]; FirstFault(db, doc[1..])
  }

  function StaticVerdict(db: Db, doc: seq<Client>): Verdict {
    if doc == [] then EmptyBlob else FirstFault(db, doc)
  }

  ghost predicate CStrings(doc: seq<Client>) {
    forall c :: c in doc ==> '\0' !in c.chaddr
  }

  lemma {:induction false} EmptyBlobIff(db: Db, doc: seq<Client>)
    ensures StaticVerdict(db, doc) == EmptyBlob <==> doc == []
  {
    if doc != [] && ClientVerdict(db, doc[0]) == Valid && |doc| > 1 {
      EmptyBlobIff(db, doc[1..]);
    }
  }

  /** A document that repeats one entry. */
  function Repeated(c: Client, n: nat): seq<Client> {
    seq(n, _ => c)
  }

  /** The exact condition for atomicity over the documents that pass validation, as soon as
      some entry does. */
  lemma AcceptedAtomicIff(db: Db, c: Client)
    requires ClientVerdict(db, c) == Valid
    ensures WellFormed(db) <==>
      forall doc: seq<Client>, at: Progress ::
        StaticVerdict(db, doc) in {Valid, EmptyBlob} && Reaches(db, doc, at) ==>
          Visible(Recovered(db, doc, at)) == Visible(db)
  {
    if WellFormed(db) {
      forall doc: seq<Client>, at: Progress | Reaches(db, doc, at)
        ensures Visible(Recovered(db, doc, at)) == Visible(db)
      {
        WellFormedRecovers(db, doc, at);
      }
    } else {
      var doc := Repeated(c, HostCount(db) + 1);
      NotWellFormedIsDamaged(db, doc);
      assert StaticVerdict(db, doc) == Valid;
      assert Reaches(db, doc, Applying(|Cache(doc)|));
    }
  }

  /** An accepted document never has a comma in an address, so its host lines read back. */
  lemma AcceptedReadsBack(db: Db, doc: seq<Client>, c: Client)
    requires StaticVerdict(db, doc) == Valid && c in doc
    ensures Fields(HostText(c), ',') == [c.chaddr, c.yiaddr, ""]
  {
    assert ClientVerdict(db, c) == Valid;
    AcceptedIsQuad(c.yiaddr);
    HostRoundTrip(c);
  }

  /** The document of a LAN request: a count and one parameter block. */
  datatype LanDoc = LanDoc(count: nat, param: LanParam)

  /** inet_addr on the mask text. */
  function MaskBits(p: LanParam): Address {
    if IsQuad(p.mask) then AddressOf(p.mask) else p.unreadable
  }

  function LanParamVerdict(p: LanParam): Verdict {
    if !IsQuad(p.ip) then GatewayInvalid
    else if !IsQuad(p.start) || !IsQuad(p.end) then RangeInvalid
    else CheckNumbers(AddressOf(p.ip), MaskBits(p), AddressOf(p.start), AddressOf(p.end), p.lease)
  }

  function LanVerdict(doc: LanDoc): Verdict {
    if doc.count == 0 then EmptyBlob else LanParamVerdict(doc.param)
  }

  /** The pool of an accepted LAN document. */
  lemma AcceptedLanPool(doc: LanDoc, a: Address)
    requires LanVerdict(doc) == Valid
    requires AddressOf(doc.param.start) <= a <= AddressOf(doc.param.end)
    ensures var gw := AddressOf(doc.param.ip);
      Network(gw, MaskBits(doc.param)) < a < Broadcast(gw, MaskBits(doc.param)) &&
      (Contiguous(32, MaskBits(doc.param)) ==> InNetwork(gw, MaskBits(doc.param), a))
  {
    var p := doc.param;
    assert Accepted(AddressOf(p.ip), MaskBits(p), AddressOf(p.start), AddressOf(p.end));
    AcceptedPool(AddressOf(p.ip), MaskBits(p), AddressOf(p.start), AddressOf(p.end), a);
  }
}
