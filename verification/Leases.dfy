/** The DHCP server's lease file and option file readers: parallel arrays that grow by fifty,
    and option lists that follow a "current client" cursor. */
module Leases {
  import opened Decimal
  import opened Text
  import opened Inet
  import opened IpList
  import opened Wrappers

  // ---------------------------------------------------------------- lease lines

  /** Expiry, hardware address, IP address and host name of a line. */
  datatype Lease = Lease(expire: string, mac: string, ip: string, host: string)

  /** A line counts when it has a fifth token. */
  function LeaseOf(line: string): Option<Lease> {
    var t := Tokens(line);
    if |t| < 5 then None else Some(Lease(t[0], t[1], t[2], t[3]))
  }

  predicate InPool(l: Lease, lo: nat, hi: nat) {
    lo <= Number(ReadIp(l.ip)) <= hi
  }

  /** The text stands for an address between the bounds. */
  ghost predicate Within(text: string, lo: nat, hi: nat) {
    exists n: nat :: StandsFor(text, n) && lo <= n <= hi
  }

  /** A line is kept that has five tokens at least, the third one an address within the bounds. */
  ghost predicate IsKept(line: string, lo: nat, hi: nat) {
    |Tokens(line)| >= 5 && Within(Tokens(line)[2], lo, hi)
  }

  lemma IsKeptIff(line: string, lo: nat, hi: nat)
    ensures IsKept(line, lo, hi) <==> LeaseOf(line).Some? && InPool(LeaseOf(line).value, lo, hi)
  {
    if |Tokens(line)| >= 5 {
      var ip := Tokens(line)[2];
      forall n: nat ensures StandsFor(ip, n) <==> n == Number(ReadIp(ip)) { NumberStandsFor(ip, n); }
      assert StandsFor(ip, Number(ReadIp(ip)));
    }
  }

  /** The leases of a file that are kept, in file order. */
  function Kept(lines: seq<string>, lo: nat, hi: nat): seq<Lease> {
    if lines == [] then []
    else
      var l := LeaseOf(lines[|lines| - 1]);
      Kept(lines[..|lines| - 1], lo, hi) + if l.Some? && InPool(l.value, lo, hi) then [l.value] else []
  }

  /** The cursor walk over one line. Each of the first four tokens must be followed by a
      blank, and a fifth must follow; the address is checked on the way. */
  method ParseLease(line: string, lo: nat, hi: nat) returns (r: Option<Lease>)
    ensures r == if LeaseOf(line).Some? && InPool(LeaseOf(line).value, lo, hi) then LeaseOf(line) else None
    ensures r.Some? <==> IsKept(line, lo, hi)
    ensures r.Some? ==>
      var t := Tokens(line);
      r.value.expire == t[0] && r.value.mac == t[1] && r.value.ip == t[2] && r.value.host == t[3]
  {
    IsKeptIff(line, lo, hi);
    var found, expire, rest := NextToken(line);
    if !found || rest == "" {
      return None;
    }
    var mac, ip, host, id;
    ghost var rest1 := rest;
    found, mac, rest := NextToken(rest);
    if !found || rest == "" {
      return None;
    }
    ghost var rest2 := rest;
    found, ip, rest := NextToken(rest);
    if !found || rest == "" {
      return None;
    }
    ghost var rest3 := rest;
    assert Tokens(line) == [expire, mac, ip] + Tokens(rest3);
    var n := Number(ReadIp(ip));
    if n < lo || n > hi {
      return None;
    }
    found, host, rest := NextToken(rest);
    if !found || rest == "" {
      return None;
    }
    ghost var rest4 := rest;
    found, id, rest := NextToken(rest);
    if !found {
      return None;
    }
    assert Tokens(line) == [expire, mac, ip, host, id] + Tokens(rest);
    r := Some(Lease(expire, mac, ip, host));
  }

  // ---------------------------------------------------------------- the two arrays

  datatype Client = Client(alias: string, chaddr: string, host: string)
  datatype Content = Content(ip: Ip, expire: string)

  function ClientOf(l: Lease, i: nat): Client {
    Client("Alias" + Dec(i), l.mac, l.host)
  }

  function ContentOf(l: Lease): Content {
    Content(ReadIp(l.ip), l.expire)
  }

  const CHUNK := 50

  method Grown<T>(a: array<T>, size: nat, capacity: nat, fill: T) returns (b: array<T>)
    requires size <= a.Length && size <= capacity
    ensures fresh(b) && b.Length == capacity && b[..size] == a[..size]
  {
    b := new T[capacity](_ => fill);
    for i := 0 to size
      invariant b[..i] == a[..i]
    {
      b[i] := a[i];
    }
  }

  /** The arrays start with the entries of these leases. */
  ghost predicate Holds(clients: seq<Client>, contents: seq<Content>, kept: seq<Lease>) {
    |kept| <= |clients| && |kept| <= |contents| && forall i :: 0 <= i < |kept| ==>
      clients[i] == ClientOf(kept[i], i) && contents[i] == ContentOf(kept[i])
  }

  lemma HoldsOneMore(clients: seq<Client>, contents: seq<Content>, kept: seq<Lease>, l: Lease)
    requires Holds(clients, contents, kept) && |kept| < |clients| && |kept| < |contents|
    ensures Holds(clients[|kept| := ClientOf(l, |kept|)], contents[|kept| := ContentOf(l)], kept + [l])
  {
  }

  lemma HoldsInCopy(clients: seq<Client>, contents: seq<Content>, kept: seq<Lease>,
                    clients2: seq<Client>, contents2: seq<Content>)
    requires Holds(clients, contents, kept) && |kept| <= |clients2| && |kept| <= |contents2|
    requires clients2[..|kept|] == clients[..|kept|] && contents2[..|kept|] == contents[..|kept|]
    ensures Holds(clients2, contents2, kept)
  {
    forall i | 0 <= i < |kept| ensures clients2[i] == clients[i] && contents2[i] == contents[i] {
      assert clients2[..|kept|][i] == clients[..|kept|][i];
      assert contents2[..|kept|][i] == contents[..|kept|][i];
    }
  }

  /** Store one lease behind the others, and make room for the next one. */
  method Store(clients: array<Client>, contents: array<Content>, size: nat, l: Lease, ghost kept: seq<Lease>)
    returns (clients2: array<Client>, contents2: array<Content>)
    requires size == |kept| && Holds(clients[..], contents[..], kept)
    requires size < clients.Length == contents.Length
    modifies clients, contents
    ensures clients2 == clients || fresh(clients2)
    ensures contents2 == contents || fresh(contents2)
    ensures clients2.Length == contents2.Length == if size + 1 < clients.Length then clients.Length else size + 1 + CHUNK
    ensures Holds(clients2[..], contents2[..], kept + [l])
  {
    HoldsOneMore(clients[..], contents[..], kept, l);
    clients[size] := ClientOf(l, size);
    contents[size] := ContentOf(l);
    clients2, contents2 := clients, contents;
    var n := size + 1;
    if n >= clients.Length {
      clients2 := Grown(clients, n, n + CHUNK, clients[0]);
      contents2 := Grown(contents, n, n + CHUNK, contents[0]);
      HoldsInCopy(clients[..], contents[..], kept + [l], clients2[..], contents2[..]);
    }
  }

  ghost function CountKept(lines: seq<string>, lo: nat, hi: nat): nat {
    if lines == [] then 0
    else CountKept(lines[..|lines| - 1], lo, hi) + if IsKept(lines[|lines| - 1], lo, hi) then 1 else 0
  }

  /** The entry that a line makes at position k: the second token is the hardware address, the
      fourth the host name, the first the expiry, and the third stands for the address. */
  ghost predicate IsEntry(client: Client, content: Content, t: seq<string>, k: nat)
    requires |t| >= 5
  {
    client.alias == "Alias" + Dec(k) && client.chaddr == t[1] && client.host == t[3] && content.expire == t[0] &&
    Means(t[2], content.ip)
  }

  /** The entry of a kept line stands behind those of the kept lines before it, and there are no
      other entries. */
  ghost predicate EntriesOf(lines: seq<string>, lo: nat, hi: nat, clients: seq<Client>, contents: seq<Content>,
                            size: nat)
  {
    size == CountKept(lines, lo, hi) <= |clients| && size <= |contents| &&
    forall n :: 0 <= n < |lines| && IsKept(lines[n], lo, hi) ==>
      var k := CountKept(lines[..n], lo, hi);
      k < size && IsEntry(clients[k], contents[k], Tokens(lines[n]), k)
  }

  lemma {:induction false} KeptIsCounted(lines: seq<string>, lo: nat, hi: nat)
    ensures |Kept(lines, lo, hi)| == CountKept(lines, lo, hi)
    decreases |lines|
  {
    if lines != [] {
      var n := |lines| - 1;
      KeptIsCounted(lines[..n], lo, hi);
      IsKeptIff(lines[n], lo, hi);
    }
  }

  lemma {:induction false} KeptAt(lines: seq<string>, lo: nat, hi: nat, n: nat)
    requires n < |lines| && IsKept(lines[n], lo, hi)
    ensures var kept, k := Kept(lines, lo, hi), CountKept(lines[..n], lo, hi);
      LeaseOf(lines[n]).Some? && k < |kept| && kept[k] == LeaseOf(lines[n]).value
    decreases |lines|
  {
    hide IsKept, LeaseOf, InPool;
    var last := |lines| - 1;
    if n < last {
      KeptAt(lines[..last], lo, hi, n);
      assert lines[..last][..n] == lines[..n];
    } else {
      IsKeptIff(lines[n], lo, hi);
      KeptIsCounted(lines[..n], lo, hi);
    }
  }

  lemma HoldsEntries(lines: seq<string>, lo: nat, hi: nat, clients: seq<Client>, contents: seq<Content>)
    requires Holds(clients, contents, Kept(lines, lo, hi))
    ensures EntriesOf(lines, lo, hi, clients, contents, |Kept(lines, lo, hi)|)
  {
    hide IsKept, Means, Kept, CountKept;
    KeptIsCounted(lines, lo, hi);
    forall n | 0 <= n < |lines| && IsKept(lines[n], lo, hi)
      ensures var k := CountKept(lines[..n], lo, hi);
        k < |Kept(lines, lo, hi)| && |Tokens(lines[n])| >= 5 && IsEntry(clients[k], contents[k], Tokens(lines[n]), k)
    {
      KeptAt(lines, lo, hi, n);
      ReadIpIs(LeaseOf(lines[n]).value.ip, ReadIp(LeaseOf(lines[n]).value.ip));
    }
  }

  predicate OneToken(w: string) {
    w != "" && forall i :: 0 <= i < |w| ==> w[i] != ' '
  }

  /** A line of five words with one blank between them makes an entry of these words; a line of
      fewer tokens, or with an address out of bounds, makes none. */
  lemma LineMakesEntry(lines: seq<string>, lo: nat, hi: nat, clients: seq<Client>, contents: seq<Content>, size: nat,
                       n: nat, expire: string, mac: string, ip: string, host: string, id: string)
    requires EntriesOf(lines, lo, hi, clients, contents, size) && n < |lines|
    requires OneToken(expire) && OneToken(mac) && OneToken(ip) && OneToken(host) && OneToken(id)
    requires lines[n] == expire + " " + mac + " " + ip + " " + host + " " + id
    ensures var k := CountKept(lines[..n], lo, hi);
      if Within(ip, lo, hi) then
        k < size && clients[k] == Client("Alias" + Dec(k), mac, host) && contents[k].expire == expire &&
        Means(ip, contents[k].ip) && CountKept(lines[..n + 1], lo, hi) == k + 1
      else CountKept(lines[..n + 1], lo, hi) == k
  {
    hide Within, Means;
    FiveWords(expire, mac, ip, host, id);
    assert lines[..n + 1][..n] == lines[..n];
  }

  lemma OneWordMore(front: string, w: string)
    requires OneToken(w)
    ensures Tokens(front + " " + w) == Tokens(front) + [w]
  {
    assert front + " " + w == front + [DELIM] + w;
    TokensConcat(front, w);
    TokensOfWord(w);
  }

  lemma FiveWords(a: string, b: string, c: string, d: string, e: string)
    requires OneToken(a) && OneToken(b) && OneToken(c) && OneToken(d) && OneToken(e)
    ensures Tokens(a + " " + b + " " + c + " " + d + " " + e) == [a, b, c, d, e]
  {
    hide Tokens;
    TokensOfWord(a);
    OneWordMore(a, b);
    OneWordMore(a + " " + b, c);
    OneWordMore(a + " " + b + " " + c, d);
    OneWordMore(a + " " + b + " " + c + " " + d, e);
  }

  lemma FewTokensMakeNone(lines: seq<string>, lo: nat, hi: nat, n: nat)
    requires n < |lines| && |Tokens(lines[n])| < 5
    ensures CountKept(lines[..n + 1], lo, hi) == CountKept(lines[..n], lo, hi)
  {
    assert lines[..n + 1][..n] == lines[..n];
  }

  lemma CapacityStep(size: nat, capacity: nat)
    requires capacity == CHUNK * (size / CHUNK + 1)
    ensures size < capacity
    ensures (if size + 1 < capacity then capacity else size + 1 + CHUNK) == CHUNK * ((size + 1) / CHUNK + 1)
  {
  }

  /** _cosa_get_dhcps_client, first loop. There is always room for one more entry. */
  method ReadLeases(lines: seq<string>, lo: nat, hi: nat)
    returns (clients: array<Client>, contents: array<Content>, size: nat)
    ensures clients.Length == contents.Length == CHUNK * (size / CHUNK + 1)
    ensures size == |Kept(lines, lo, hi)| < clients.Length
    ensures Holds(clients[..], contents[..], Kept(lines, lo, hi))
    ensures EntriesOf(lines, lo, hi, clients[..], contents[..], size)
  {
    clients := new Client[CHUNK](_ => Client("", "", ""));
    contents := new Content[CHUNK](_ => Content(ZERO, ""));
    size := 0;
    ghost var kept: seq<Lease> := [];
    for k := 0 to |lines|
      invariant fresh(clients) && fresh(contents)
      invariant clients.Length == contents.Length == CHUNK * (size / CHUNK + 1)
      invariant kept == Kept(lines[..k], lo, hi) && size == |kept| && Holds(clients[..], contents[..], kept)
    {
      assert lines[..k + 1][..k] == lines[..k];
      var l := ParseLease(lines[k], lo, hi);
      if l.Some? {
        CapacityStep(size, clients.Length);
        clients, contents := Store(clients, contents, size, l.value, kept);
        kept := kept + [l.value];
        size := size + 1;
      }
    }
    assert lines[..|lines|] == lines;
    HoldsEntries(lines, lo, hi, clients[..], contents[..]);
  }

  // ---------------------------------------------------------------- option lines

  datatype Opt = Opt(tag: int, value: string)
  datatype OptLine = ClientLine(ip: string) | OptionLine(opt: Opt) | OtherLine

  function LineOf(line: string): OptLine {
    var t := Tokens(line);
    if |t| < 3 then OtherLine
    else if t[0] == "client" then ClientLine(t[1])
    else if t[0] == "option" then OptionLine(Opt(Atoi(t[1]), t[2]))
    else OtherLine
  }

  /** The first client with this address. */
  function FirstMatch(ips: seq<Ip>, text: string): (at: Option<nat>)
    ensures at.Some? ==> at.value < |ips| && IpText(ips[at.value]) == text
    ensures at.Some? ==> forall i :: 0 <= i < at.value ==> IpText(ips[i]) != text
    ensures at.None? ==> forall i :: 0 <= i < |ips| ==> IpText(ips[i]) != text
  {
    if ips == [] then None
    else if IpText(ips[0]) == text then Some(0)
    else
      var at := FirstMatch(ips[1..], text);
      if at.Some? then Some(at.value + 1) else None
  }

  /** The current client after these lines. */
  function Cursor(lines: seq<string>, ips: seq<Ip>): (c: Option<nat>)
    ensures c.Some? ==> c.value < |ips|
  {
    if lines == [] then None
    else
      var l := LineOf(lines[|lines| - 1]);
      if l.ClientLine? then FirstMatch(ips, l.ip) else Cursor(lines[..|lines| - 1], ips)
  }

  /** Line k is an option of client c. */
  predicate Belongs(lines: seq<string>, ips: seq<Ip>, k: nat, c: nat)
    requires k < |lines|
  {
    LineOf(lines[k]).OptionLine? && Cursor(lines[..k], ips) == Some(c)
  }

  /** The option list of client c. */
  function OptionsOf(lines: seq<string>, ips: seq<Ip>, c: nat): seq<Opt> {
    if lines == [] then []
    else
      var n := |lines| - 1;
      OptionsOf(lines[..n], ips, c) + if Belongs(lines, ips, n, c) then [LineOf(lines[n]).opt] else []
  }

  /** The cursor is decided by the last client line. */
  lemma {:induction false} CursorIsLastClient(lines: seq<string>, ips: seq<Ip>, k: nat)
    requires k < |lines| && LineOf(lines[k]).ClientLine?
    requires forall j :: k < j < |lines| ==> !LineOf(lines[j]).ClientLine?
    ensures Cursor(lines, ips) == FirstMatch(ips, LineOf(lines[k]).ip)
  {
    var n := |lines| - 1;
    if k < n {
      CursorIsLastClient(lines[..n], ips, k);
    }
  }

  lemma {:induction false} NoCursorBeforeClients(lines: seq<string>, ips: seq<Ip>)
    requires forall j :: 0 <= j < |lines| ==> !LineOf(lines[j]).ClientLine?
    ensures Cursor(lines, ips) == None
  {
    if lines != [] {
      NoCursorBeforeClients(lines[..|lines| - 1], ips);
    }
  }

  /** The lines that make up the list of client c, in file order. */
  function Positions(lines: seq<string>, ips: seq<Ip>, c: nat): (ps: seq<nat>)
    ensures forall i :: 0 <= i < |ps| ==> ps[i] < |lines|
  {
    if lines == [] then []
    else
      var n := |lines| - 1;
      Positions(lines[..n], ips, c) + if Belongs(lines, ips, n, c) then [n] else []
  }

  ghost predicate Increasing(ps: seq<nat>) {
    forall i, j :: 0 <= i < j < |ps| ==> ps[i] < ps[j]
  }

  lemma {:induction false} PositionsBelong(lines: seq<string>, ips: seq<Ip>, c: nat)
    ensures Increasing(Positions(lines, ips, c))
    ensures forall k :: 0 <= k < |lines| ==> (k in Positions(lines, ips, c) <==> Belongs(lines, ips, k, c))
  {
    if lines != [] {
      var n := |lines| - 1;
      var ps := Positions(lines[..n], ips, c);
      PositionsBelong(lines[..n], ips, c);
      forall k | 0 <= k < n ensures Belongs(lines, ips, k, c) <==> Belongs(lines[..n], ips, k, c) {
        assert lines[..n][..k] == lines[..k] && lines[..n][k] == lines[k];
      }
      assert n !in ps;
    }
  }

  lemma {:induction false} OptionsAtPositions(lines: seq<string>, ips: seq<Ip>, c: nat)
    ensures |OptionsOf(lines, ips, c)| == |Positions(lines, ips, c)|
    ensures forall i :: 0 <= i < |Positions(lines, ips, c)| ==>
      LineOf(lines[Positions(lines, ips, c)[i]]) == OptionLine(OptionsOf(lines, ips, c)[i])
  {
    if lines != [] {
      OptionsAtPositions(lines[..|lines| - 1], ips, c);
    }
  }

  /** The list of a client is exactly its lines, each once and in file order. */
  lemma OptionsAreLines(lines: seq<string>, ips: seq<Ip>, c: nat)
    ensures var ps := Positions(lines, ips, c);
      Increasing(ps) && |OptionsOf(lines, ips, c)| == |ps| &&
      (forall k :: 0 <= k < |lines| ==> (k in ps <==> Belongs(lines, ips, k, c))) &&
      (forall i :: 0 <= i < |ps| ==> LineOf(lines[ps[i]]) == OptionLine(OptionsOf(lines, ips, c)[i]))
  {
    PositionsBelong(lines, ips, c);
    OptionsAtPositions(lines, ips, c);
  }

  predicate IsClientLine(line: string) {
    |Tokens(line)| >= 3 && Tokens(line)[0] == "client"
  }

  predicate IsOptionLine(line: string) {
    |Tokens(line)| >= 3 && Tokens(line)[0] == "option"
  }

  /** Line n is an option, k is the last client line before it, and c is the first client with
      the address that line k names. */
  ghost predicate GivesTo(lines: seq<string>, ips: seq<Ip>, n: nat, k: nat, c: nat) {
    k < n < |lines| && IsOptionLine(lines[n]) && IsClientLine(lines[k]) &&
    (forall j :: k < j < n ==> !IsClientLine(lines[j])) &&
    c < |ips| && SaysIp(Tokens(lines[k])[1], ips[c]) && forall i :: 0 <= i < c ==> !SaysIp(Tokens(lines[k])[1], ips[i])
  }

  /** Line n is an option of client c. */
  ghost predicate Gives(lines: seq<string>, ips: seq<Ip>, n: nat, c: nat) {
    exists k: nat :: GivesTo(lines, ips, n, k, c)
  }

  /** How many options client c has been given by the first n lines. */
  ghost function CountGiven(lines: seq<string>, ips: seq<Ip>, n: nat, c: nat): nat
    requires n <= |lines|
  {
    if n == 0 then 0
    else CountGiven(lines, ips, n - 1, c) + if Gives(lines, ips, n - 1, c) then 1 else 0
  }

  lemma LineKind(line: string)
    ensures LineOf(line).ClientLine? <==> IsClientLine(line)
    ensures LineOf(line).OptionLine? <==> IsOptionLine(line)
    ensures IsClientLine(line) ==> LineOf(line).ip == Tokens(line)[1]
    ensures IsOptionLine(line) ==> LineOf(line).opt == Opt(Atoi(Tokens(line)[1]), Tokens(line)[2])
  {
    assert "client"[0] != "option"[0];
  }

  lemma {:induction false} LastClientLine(lines: seq<string>, n: nat) returns (k: nat)
    requires n <= |lines| && exists j :: 0 <= j < n && IsClientLine(lines[j])
    ensures k < n && IsClientLine(lines[k]) && forall j :: k < j < n ==> !IsClientLine(lines[j])
  {
    if IsClientLine(lines[n - 1]) {
      k := n - 1;
    } else {
      k := LastClientLine(lines, n - 1);
    }
  }

  lemma CursorAfter(lines: seq<string>, ips: seq<Ip>, n: nat, k: nat)
    requires k < n <= |lines| && IsClientLine(lines[k]) && forall j :: k < j < n ==> !IsClientLine(lines[j])
    ensures Cursor(lines[..n], ips) == FirstMatch(ips, Tokens(lines[k])[1])
  {
    hide Cursor, LineOf, IsClientLine;
    LineKind(lines[k]);
    forall j | k < j < n ensures !LineOf(lines[..n][j]).ClientLine? {
      LineKind(lines[j]);
    }
    CursorIsLastClient(lines[..n], ips, k);
  }

  lemma FirstMatchIs(ips: seq<Ip>, text: string, c: nat)
    ensures FirstMatch(ips, text) == Some(c)
       <==> c < |ips| && SaysIp(text, ips[c]) && forall i :: 0 <= i < c ==> !SaysIp(text, ips[i])
  {
    hide FirstMatch;
    assert forall i :: 0 <= i < |ips| ==> (SaysIp(text, ips[i]) <==> IpText(ips[i]) == text);
  }

  lemma BelongsIff(lines: seq<string>, ips: seq<Ip>, n: nat, c: nat)
    requires n < |lines|
    ensures Belongs(lines, ips, n, c) <==> Gives(lines, ips, n, c)
  {
    hide Cursor, FirstMatch, SaysIp, IsClientLine, IsOptionLine, LineOf;
    LineKind(lines[n]);
    if exists j :: 0 <= j < n && IsClientLine(lines[j]) {
      var k := LastClientLine(lines, n);
      CursorAfter(lines, ips, n, k);
      FirstMatchIs(ips, Tokens(lines[k])[1], c);
      assert Belongs(lines, ips, n, c) ==> GivesTo(lines, ips, n, k, c);
      forall k2: nat | GivesTo(lines, ips, n, k2, c) ensures k2 == k {}
    } else {
      forall j | 0 <= j < |lines[..n]| ensures !LineOf(lines[..n][j]).ClientLine? {
        LineKind(lines[j]);
      }
      NoCursorBeforeClients(lines[..n], ips);
    }
  }

  lemma {:induction false} CountIs(lines: seq<string>, ips: seq<Ip>, n: nat, c: nat)
    requires n <= |lines|
    ensures |OptionsOf(lines[..n], ips, c)| == CountGiven(lines, ips, n, c)
  {
    hide Gives, Belongs;
    if n > 0 {
      CountIs(lines, ips, n - 1, c);
      BelongsIff(lines, ips, n - 1, c);
      assert lines[..n][..n - 1] == lines[..n - 1];
      SameBelongs(lines, ips, n, n - 1, c);
    }
  }

  lemma SameBelongs(lines: seq<string>, ips: seq<Ip>, m: nat, n: nat, c: nat)
    requires n < m <= |lines|
    ensures Belongs(lines[..m], ips, n, c) <==> Belongs(lines, ips, n, c)
  {
    assert lines[..m][..n] == lines[..n] && lines[..m][n] == lines[n];
  }

  /** An option line under a client line gives the client with that address one option, with the
      number of the second token and the text of the third; the option stands behind those that
      the client has been given before. There are no other options. */
  lemma {:induction false} OptionIsGiven(lines: seq<string>, ips: seq<Ip>, m: nat, n: nat, k: nat, c: nat)
    requires n < m <= |lines| && GivesTo(lines, ips, n, k, c)
    ensures var opts, at := OptionsOf(lines[..m], ips, c), CountGiven(lines, ips, n, c);
      |opts| == CountGiven(lines, ips, m, c) && at < |opts| &&
      opts[at] == Opt(Atoi(Tokens(lines[n])[1]), Tokens(lines[n])[2])
    decreases m
  {
    hide GivesTo, Belongs, LineOf, IsOptionLine;
    CountIs(lines, ips, m, c);
    CountIs(lines, ips, n, c);
    assert lines[..m][..m - 1] == lines[..m - 1];
    if n == m - 1 {
      BelongsIff(lines, ips, n, c);
      SameBelongs(lines, ips, m, n, c);
      GivenIsOption(lines, ips, n, k, c);
      LineKind(lines[n]);
    } else {
      OptionIsGiven(lines, ips, m - 1, n, k, c);
    }
  }

  lemma GivenIsOption(lines: seq<string>, ips: seq<Ip>, n: nat, k: nat, c: nat)
    requires GivesTo(lines, ips, n, k, c)
    ensures n < |lines| && IsOptionLine(lines[n])
  {
  }

  // ---------------------------------------------------------------- conservation

  /** The client that the last line adds an option to. */
  function Receiver(lines: seq<string>, ips: seq<Ip>): Option<nat>
    requires lines != []
  {
    var n := |lines| - 1;
    if LineOf(lines[n]).OptionLine? then Cursor(lines[..n], ips) else None
  }

  /** Option lines with a current client. */
  function Attributed(lines: seq<string>, ips: seq<Ip>): nat {
    if lines == [] then 0
    else Attributed(lines[..|lines| - 1], ips) + if Receiver(lines, ips).Some? then 1 else 0
  }

  function Total(lines: seq<string>, ips: seq<Ip>, upTo: nat): nat {
    if upTo == 0 then 0 else Total(lines, ips, upTo - 1) + |OptionsOf(lines, ips, upTo - 1)|
  }

  lemma SizeStep(lines: seq<string>, ips: seq<Ip>, c: nat)
    requires lines != []
    ensures |OptionsOf(lines, ips, c)| ==
      |OptionsOf(lines[..|lines| - 1], ips, c)| + if Receiver(lines, ips) == Some(c) then 1 else 0
  {
  }

  lemma {:induction false} TotalStep(lines: seq<string>, ips: seq<Ip>, upTo: nat, r: Option<nat>)
    requires lines != [] && r == Receiver(lines, ips)
    ensures Total(lines, ips, upTo) ==
      Total(lines[..|lines| - 1], ips, upTo) + if r.Some? && r.value < upTo then 1 else 0
  {
    hide Receiver, OptionsOf;
    if upTo > 0 {
      TotalStep(lines, ips, upTo - 1, r);
      SizeStep(lines, ips, upTo - 1);
    }
  }

  lemma {:induction false} TotalOfNone(ips: seq<Ip>, upTo: nat)
    ensures Total([], ips, upTo) == 0
  {
    if upTo > 0 {
      TotalOfNone(ips, upTo - 1);
    }
  }

  /** No option is lost or counted twice: the lists of all clients together have one entry for
      each option line with a current client. */
  lemma {:induction false} OptionsConserved(lines: seq<string>, ips: seq<Ip>)
    ensures Total(lines, ips, |ips|) == Attributed(lines, ips)
  {
    if lines == [] {
      TotalOfNone(ips, |ips|);
    } else {
      OptionsConserved(lines[..|lines| - 1], ips);
      TotalStep(lines, ips, |ips|, Receiver(lines, ips));
    }
  }

  // ---------------------------------------------------------------- the second loop

  method ParseOptionLine(line: string) returns (r: OptLine)
    ensures r == LineOf(line)
  {
    var found, key, rest := NextToken(line);
    if !found {
      return OtherLine;
    }
    var first, second;
    found, first, rest := NextToken(rest);
    if !found || rest == "" {
      return OtherLine;
    }
    found, second, rest := NextToken(rest);
    if !found {
      return OtherLine;
    }
    assert Tokens(line) == [key, first, second] + Tokens(rest);
    r := if key == "client" then ClientLine(first)
         else if key == "option" then OptionLine(Opt(Atoi(first), second))
         else OtherLine;
  }

  method FindClient(ips: seq<Ip>, text: string) returns (at: Option<nat>)
    ensures at == FirstMatch(ips, text)
  {
    for i := 0 to |ips|
      invariant forall j :: 0 <= j < i ==> IpText(ips[j]) != text
    {
      if IpText(ips[i]) == text {
        return Some(i);
      }
    }
    at := None;
  }

  /** One option more: a new array of n + 1 entries with the old ones copied. */
  method Append(a: array<Opt>, o: Opt) returns (b: array<Opt>)
    ensures fresh(b) && b[..] == a[..] + [o]
  {
    b := Grown(a, a.Length, a.Length + 1, o);
    b[a.Length] := o;
    assert b[..] == b[..a.Length] + [o] && a[..a.Length] == a[..];
  }

  /** _cosa_get_dhcps_client, second loop: one option array a client. */
  method ReadOptions(lines: seq<string>, ips: seq<Ip>) returns (lists: seq<array<Opt>>)
    ensures |lists| == |ips|
    ensures forall c :: 0 <= c < |ips| ==> lists[c][..] == OptionsOf(lines, ips, c)
  {
    var none := new Opt[0];
    lists := seq(|ips|, _ => none);
    var index: Option<nat> := None;
    for k := 0 to |lines|
      invariant |lists| == |ips| && index == Cursor(lines[..k], ips)
      invariant forall c :: 0 <= c < |ips| ==> lists[c][..] == OptionsOf(lines[..k], ips, c)
    {
      assert lines[..k + 1][..k] == lines[..k];
      var l := ParseOptionLine(lines[k]);
      if l.ClientLine? {
        index := FindClient(ips, l.ip);
      } else if l.OptionLine? && index.Some? {
        var longer := Append(lists[index.value], l.opt);
        lists := lists[index.value := longer];
      }
    }
    assert lines[..|lines|] == lines;
  }
}
