/** IPv4 addresses and the comma-separated lists of up to four of them that are kept in one
    record (cosa_dhcpv4_internal.c). */
module IpList {
  import opened Decimal
  import opened Inet
  import opened Wrappers

  type Octet8 = n: nat | n <= 255

  datatype Ip = Ip(a: Octet8, b: Octet8, c: Octet8, d: Octet8)

  const ZERO := Ip(0, 0, 0, 0)
  /** INADDR_NONE: what inet_addr gives for a text it cannot read. */
  const NO_ADDRESS := Ip(255, 255, 255, 255)

  const MAX_ENTRIES := 4

  /** Host order. */
  function Number(ip: Ip): (n: nat)
    ensures n < 0x1_0000_0000
  {
    0x1000000 * ip.a + 0x10000 * ip.b + 0x100 * ip.c + ip.d
  }

  function IpText(ip: Ip): string {
    Quad(ip.a, ip.b, ip.c, ip.d)
  }

  /** inet_addr, with the texts that are no dotted quad taken as unreadable. */
  function ReadIp(s: string): Ip {
    if IsQuad(s) then
      var f := Fields(s, '.');
      Ip(Atoi(f[0]), Atoi(f[1]), Atoi(f[2]), Atoi(f[3]))
    else NO_ADDRESS
  }

  lemma IpRoundTrip(ip: Ip)
    ensures ReadIp(IpText(ip)) == ip && |IpText(ip)| >= 7 && ',' !in IpText(ip)
  {
    QuadAccepted(ip.a, ip.b, ip.c, ip.d);
    QuadHasNoComma(ip.a, ip.b, ip.c, ip.d);
    AtoiDec(ip.a);
    AtoiDec(ip.b);
    AtoiDec(ip.c);
    AtoiDec(ip.d);
  }

  /** The text prints the four octets. */
  predicate SaysIp(text: string, ip: Ip) {
    text == Dec(ip.a) + "." + (Dec(ip.b) + "." + (Dec(ip.c) + "." + Dec(ip.d)))
  }

  /** The text is this address: the octets of a dotted text, and four times 255 for any other. */
  ghost predicate Means(s: string, ip: Ip) {
    Dotted(s, ip.a, ip.b, ip.c, ip.d) || (ip == Ip(255, 255, 255, 255) && Unreadable(s))
  }

  lemma ReadIpIs(s: string, ip: Ip)
    ensures ReadIp(s) == ip <==> Means(s, ip)
  {
    if Dotted(s, ip.a, ip.b, ip.c, ip.d) {
      IpRoundTrip(ip);
    }
    if IsQuad(s) {
      AcceptedIsQuad(s);
      ReadsIff(s, AddressOf(s));
    } else {
      forall n: nat ensures !Reads(s, n) { ReadsIff(s, n); }
    }
  }

  lemma NumberStandsFor(s: string, n: nat)
    ensures StandsFor(s, n) <==> n == Number(ReadIp(s))
  {
    forall m: nat ensures Reads(s, m) <==> IsQuad(s) && AddressOf(s) == m { ReadsIff(s, m); }
    if IsQuad(s) {
      assert Reads(s, AddressOf(s));
    }
  }

  /** The addresses before the first zero. */
  function Front(l: seq<Ip>): (f: seq<Ip>)
    ensures |f| <= |l| && f == l[..|f|] && ZERO !in f
    ensures |f| < |l| ==> l[|f|] == ZERO
  {
    if l == [] || l[0] == ZERO then [] else [l[0]] + Front(l[1..])
  }

  function Joined(l: seq<Ip>): string {
    if l == [] then "" else if |l| == 1 then IpText(l[0]) else IpText(l[0]) + "," + Joined(l[1..])
  }

  /** CosaDmlGetIpaddrString */
  function ListText(l: seq<Ip>): string {
    Joined(Front(l))
  }

  function Padded(l: seq<Ip>): seq<Ip>
    requires |l| <= MAX_ENTRIES
  {
    l + seq(MAX_ENTRIES - |l|, _ => ZERO)
  }

  function ReadFields(fs: seq<string>): seq<Ip> {
    if fs == [] then [] else [ReadIp(fs[0])] + ReadFields(fs[1..])
  }

  /** CosaDmlSetIpaddr: all fields but the last must be readable; a last one of at most one
      character is ignored; a fourth comma is an error. None leaves the list as it is. */
  function ReadList(s: string): Option<seq<Ip>> {
    var fs := Fields(s, ',');
    var last := fs[|fs| - 1];
    if |fs| > MAX_ENTRIES then None
    else if 1 < |last| < 7 then None
    else
      var ips := ReadFields(if |last| >= 7 then fs else fs[..|fs| - 1]);
      ReadFieldsSize(if |last| >= 7 then fs else fs[..|fs| - 1]);
      if NO_ADDRESS in ips then None else Some(Padded(ips))
  }

  lemma {:induction false} ReadFieldsSize(fs: seq<string>)
    ensures |ReadFields(fs)| == |fs|
  {
    if fs != [] {
      ReadFieldsSize(fs[1..]);
    }
  }

  function Texts(l: seq<Ip>): seq<string> {
    if l == [] then [] else [IpText(l[0])] + Texts(l[1..])
  }

  lemma {:induction false} FieldsOfJoined(l: seq<Ip>)
    requires l != []
    ensures Fields(Joined(l), ',') == Texts(l)
  {
    IpRoundTrip(l[0]);
    if |l| == 1 {
      FieldsOne(IpText(l[0]), ',');
    } else {
      FieldsOfJoined(l[1..]);
      FieldsCons(IpText(l[0]), ',', Joined(l[1..]));
    }
  }

  lemma {:induction false} ReadTexts(l: seq<Ip>)
    ensures ReadFields(Texts(l)) == l
  {
    if l != [] {
      IpRoundTrip(l[0]);
      ReadTexts(l[1..]);
    }
  }

  lemma {:induction false} TextsAt(l: seq<Ip>, i: nat)
    requires i < |l|
    ensures |Texts(l)| == |l| && Texts(l)[i] == IpText(l[i])
  {
    if i > 0 {
      TextsAt(l[1..], i - 1);
    } else if |l| > 1 {
      TextsAt(l[1..], 0);
    }
  }

  /** What comes back: the addresses before the first zero, or an error. */
  lemma ReadWritten(l: seq<Ip>)
    requires |l| == MAX_ENTRIES
    ensures ReadList(ListText(l)) == if NO_ADDRESS in Front(l) then None else Some(Padded(Front(l)))
  {
    var f := Front(l);
    if f == [] {
      FieldsOne("", ',');
    } else {
      FieldsOfJoined(f);
      ReadTexts(f);
      TextsAt(f, |f| - 1);
      IpRoundTrip(f[|f| - 1]);
    }
  }

  /** Zeros at the end only, and no unreadable address. */
  predicate Storable(l: seq<Ip>) {
    |l| == MAX_ENTRIES && NO_ADDRESS !in l && forall i :: |Front(l)| <= i < |l| ==> l[i] == ZERO
  }

  /** A list survives the record exactly when it is storable. */
  lemma ListRoundTripIff(l: seq<Ip>)
    requires |l| == MAX_ENTRIES
    ensures ReadList(ListText(l)) == Some(l) <==> Storable(l)
  {
    hide ReadList, ListText;
    ReadWritten(l);
    var f := Front(l);
    if NO_ADDRESS !in f && Padded(f) == l {
      forall i | 0 <= i < |l| ensures l[i] != NO_ADDRESS && (|f| <= i ==> l[i] == ZERO) {
        assert i < |f| ==> l[i] in f;
      }
      assert Storable(l);
    }
    if Storable(l) {
      assert Padded(f) == l;
    }
  }

  lemma {:induction false} FrontIs(l: seq<Ip>, n: nat)
    requires n <= |l| && (forall k :: 0 <= k < n ==> l[k] != ZERO) && (n < |l| ==> l[n] == ZERO)
    ensures Front(l) == l[..n]
  {
    if n > 0 {
      FrontIs(l[1..], n - 1);
    }
  }

  /** The loop that prints the list. */
  method GetIpaddrString(l: array<Ip>) returns (s: string)
    ensures s == ListText(l[..])
  {
    s := "";
    var i := 0;
    while i < l.Length && l[i] != ZERO
      invariant i <= l.Length && forall k :: 0 <= k < i ==> l[k] != ZERO
      invariant s == WithCommas(l[..i])
    {
      s := s + (IpText(l[i]) + ",");
      WithCommasSnoc(l[..i], l[i]);
      assert l[..i + 1] == l[..i] + [l[i]];
      i := i + 1;
    }
    PrintedFront(l[..], i, s);
    if s != "" {
      s := s[..|s| - 1];
    }
  }

  /** What is left once the trailing comma is dropped. */
  lemma PrintedFront(l: seq<Ip>, n: nat, s: string)
    requires n <= |l| && (forall k :: 0 <= k < n ==> l[k] != ZERO) && (n < |l| ==> l[n] == ZERO)
    requires s == WithCommas(l[..n])
    ensures ListText(l) == if s != "" then s[..|s| - 1] else ""
  {
    FrontIs(l, n);
    JoinedDropsComma(l[..n]);
  }

  function WithCommas(l: seq<Ip>): string {
    if l == [] then "" else IpText(l[0]) + "," + WithCommas(l[1..])
  }

  lemma {:induction false} WithCommasSnoc(l: seq<Ip>, ip: Ip)
    ensures WithCommas(l + [ip]) == WithCommas(l) + (IpText(ip) + ",")
  {
    if l != [] {
      assert (l + [ip])[1..] == l[1..] + [ip];
      WithCommasSnoc(l[1..], ip);
    }
  }

  lemma {:induction false} JoinedDropsComma(l: seq<Ip>)
    ensures l == [] ==> WithCommas(l) == ""
    ensures l != [] ==> WithCommas(l) == Joined(l) + ","
  {
    if |l| > 1 {
      JoinedDropsComma(l[1..]);
    } else if |l| == 1 {
      assert l[1..] == [];
    }
  }

  lemma {:induction false} ReadFieldsAt(fs: seq<string>, i: nat)
    requires i < |fs|
    ensures i < |ReadFields(fs)| && ReadFields(fs)[i] == ReadIp(fs[i])
  {
    if i > 0 {
      ReadFieldsAt(fs[1..], i - 1);
    }
  }

  lemma {:induction false} ReadFieldsSnoc(fs: seq<string>, f: string)
    ensures ReadFields(fs + [f]) == ReadFields(fs) + [ReadIp(f)]
  {
    if fs != [] {
      assert (fs + [f])[1..] == fs[1..] + [f];
      ReadFieldsSnoc(fs[1..], f);
    }
  }

  /** One comma-terminated field. */
  lemma NextField(s: string, j: nat, i: nat)
    requires j <= i < |s| && s[i] == ',' && ',' !in s[j..i]
    ensures Fields(s[j..], ',') == [s[j..i]] + Fields(s[i + 1..], ',')
  {
    assert s[j..] == s[j..i] + [','] + s[i + 1..];
    FieldsCons(s[j..i], ',', s[i + 1..]);
  }

  /** An unreadable field before the last one makes the list unreadable. */
  lemma BadField(s: string, k: nat)
    requires k + 1 < |Fields(s, ',')| && ReadIp(Fields(s, ',')[k]) == NO_ADDRESS
    ensures ReadList(s).None?
  {
    var fs := Fields(s, ',');
    ReadFieldsAt(fs, k);
    ReadFieldsAt(fs[..|fs| - 1], k);
  }

  lemma LastFieldDecides(s: string, done: seq<string>, last: string)
    requires Fields(s, ',') == done + [last] && |done| < MAX_ENTRIES && NO_ADDRESS !in ReadFields(done)
    ensures |ReadFields(done)| == |done|
    ensures ReadList(s) ==
      if |last| >= 7 then
        if ReadIp(last) == NO_ADDRESS then None else Some(Padded(ReadFields(done) + [ReadIp(last)]))
      else if |last| > 1 then None
      else Some(Padded(ReadFields(done)))
  {
    ReadFieldsSize(done);
    ReadFieldsSnoc(done, last);
    assert (done + [last])[..|done|] == done;
    var ips := ReadFields(done) + [ReadIp(last)];
    assert ips[|done|] == ReadIp(last);
  }

  /** The fields before position j have been read. */
  ghost predicate ReadUpTo(s: string, done: seq<string>, ips: seq<Ip>, j: nat) {
    j <= |s| && |done| == |ips| && ips == ReadFields(done) && NO_ADDRESS !in ips &&
    Fields(s, ',') == done + Fields(s[j..], ',')
  }

  lemma ReadOneMore(s: string, done: seq<string>, ips: seq<Ip>, j: nat, i: nat)
    requires ReadUpTo(s, done, ips, j) && j <= i < |s| && s[i] == ',' && ',' !in s[j..i]
    ensures ReadIp(s[j..i]) != NO_ADDRESS ==>
      ReadUpTo(s, done + [s[j..i]], ips + [ReadIp(s[j..i])], i + 1)
    ensures ReadIp(s[j..i]) == NO_ADDRESS ==> ReadList(s).None?
    ensures |done| + 1 < |Fields(s, ',')|
  {
    var f := s[j..i];
    NextField(s, j, i);
    ReadFieldsSnoc(done, f);
    assert done + ([f] + Fields(s[i + 1..], ',')) == done + [f] + Fields(s[i + 1..], ',');
    if ReadIp(s[j..i]) == NO_ADDRESS {
      BadField(s, |done|);
    }
  }

  lemma NothingRead(s: string)
    ensures ReadUpTo(s, [], [], 0)
  {
    assert s[0..] == s;
  }

  lemma FourthComma(s: string, done: seq<string>, ips: seq<Ip>, j: nat)
    requires ReadUpTo(s, done, ips, j) && |ips| >= MAX_ENTRIES
    ensures ReadList(s).None?
  {
    assert |Fields(s, ',')| > MAX_ENTRIES;
  }

  /** The comma-terminated fields, up to the fourth. */
  method ReadTerminated(s: string) returns (ok: bool, ips: seq<Ip>, j: nat, ghost done: seq<string>)
    ensures !ok ==> ReadList(s).None?
    ensures ok ==> ReadUpTo(s, done, ips, j)
    ensures ok ==> if |ips| >= MAX_ENTRIES then ReadList(s).None? else ',' !in s[j..]
  {
    hide ReadList, ReadIp, ReadUpTo;
    ips, j, done := [], 0, [];
    var i := 0;
    NothingRead(s);
    while i < |s|
      invariant j <= i <= |s| && ',' !in s[j..i]
      invariant |ips| < MAX_ENTRIES && ReadUpTo(s, done, ips, j)
    {
      if s[i] == ',' {
        var ip := ReadIp(s[j..i]);
        ReadOneMore(s, done, ips, j, i);
        if ip == NO_ADDRESS {
          return false, ips, j, done;
        }
        ips, done, j := ips + [ip], done + [s[j..i]], i + 1;
        if |ips| >= MAX_ENTRIES {
          FourthComma(s, done, ips, j);
          return true, ips, j, done;
        }
        assert s[j..i + 1] == [];
      } else {
        assert s[j..i + 1] == s[j..i] + [s[i]];
      }
      i := i + 1;
    }
    ok := true;
  }

  /** CosaDmlSetIpaddr as a loop. The list is overwritten only when the whole text was read;
      after a fourth comma the unsigned length of the last field wraps around, an error. */
  method SetIpaddr(list: array<Ip>, s: string) returns (ok: bool)
    requires list.Length == MAX_ENTRIES
    modifies list
    ensures ok <==> ReadList(s).Some?
    ensures list[..] == if ok then ReadList(s).value else old(list[..])
  {
    var read, ips, j, done := ReadTerminated(s);
    if !read || |ips| >= MAX_ENTRIES {
      return false;
    }
    var last := s[j..];
    FieldsOne(last, ',');
    LastFieldDecides(s, done, last);
    if |last| >= 7 {
      var ip := ReadIp(last);
      if ip == NO_ADDRESS {
        return false;
      }
      ips := ips + [ip];
    } else if |last| > 1 {
      return false;
    }
    Overwrite(list, ips);
    ok := true;
  }

  method Overwrite(list: array<Ip>, ips: seq<Ip>)
    requires list.Length == MAX_ENTRIES && |ips| <= MAX_ENTRIES
    modifies list
    ensures list[..] == Padded(ips)
  {
    forall k | 0 <= k < MAX_ENTRIES {
      list[k] := if k < |ips| then ips[k] else ZERO;
    }
  }
}
