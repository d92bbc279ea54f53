/** The HTTP-over-UDT relay on connections that move any partial amount at a time. */
module HttpRelay {
  import Orders
  import opened Text
  import opened HttpHeader

  const BUFFSIZE: nat := 64000

  datatype Transport = TCP | UDT

  /** A connection: the peer's bytes up to the point where receiving fails, how many bytes can be
      written before writing fails, and how far both directions have come. */
  class Connection {
    const incoming: string
    const room: nat
    var received: nat
    var outgoing: string

    ghost predicate Valid()
      reads this
    {
      received <= |incoming| && |outgoing| <= room
    }

    ghost function Remaining(): string
      requires Valid()
      reads this
    {
      incoming[received..]
    }

    constructor (incoming: string, room: nat)
      ensures Valid() && received == 0 && outgoing == ""
      ensures this.incoming == incoming && this.room == room
    {
      this.incoming, this.room, received, outgoing := incoming, room, 0, "";
    }

    /** recv and UDT::recv: any positive number of the bytes there are, at most len; an error at the end. */
    method RecvSome(len: nat) returns (ret: int, chunk: string)
      requires Valid() && len > 0
      modifies this`received
      ensures Valid()
      ensures old(Remaining()) == "" ==> ret == -1 && chunk == "" && received == old(received)
      ensures old(Remaining()) != "" ==>
                0 < ret <= len && ret <= |old(Remaining())| && chunk == old(Remaining())[..ret] && received == old(received) + ret
    {
      if received == |incoming| {
        return -1, "";
      }
      ret :| 0 < ret <= len && received + ret <= |incoming|;
      chunk := incoming[received..received + ret];
      received := received + ret;
    }

    /** write and UDT::send: any positive number of the bytes given; an error when no room is left. */
    method SendSome(buf: string) returns (ret: int)
      requires Valid() && buf != ""
      modifies this`outgoing
      ensures Valid()
      ensures |old(outgoing)| == room ==> ret == -1 && outgoing == old(outgoing)
      ensures |old(outgoing)| < room ==> 0 < ret <= |buf| && outgoing == old(outgoing) + buf[..ret]
    {
      if |outgoing| == room {
        return -1;
      }
      ret :| 0 < ret <= |buf| && |outgoing| + ret <= room;
      outgoing := outgoing + buf[..ret];
    }

    /** reliableTCPRecv and reliableUDTRecv; they differ in what they return for a negative len. */
    method ReliableRecv(t: Transport, len: int) returns (ret: int, buf: string)
      requires Valid()
      modifies this`received
      ensures Valid()
      ensures len <= 0 ==> ret == (if t.TCP? then len else 0) && buf == "" && received == old(received)
      ensures 0 < len <= |old(Remaining())| ==>
                ret == len && buf == old(Remaining())[..len] && received == old(received) + len
      ensures len > |old(Remaining())| && len > 0 ==> ret == -1 && buf == old(Remaining()) && Remaining() == ""
    {
      var read, toread := 0, len;
      buf := "";
      while toread > 0
        invariant Valid() && 0 <= read == |buf| <= |old(Remaining())|
        invariant toread == len - read && received == old(received) + read
        invariant buf == old(Remaining())[..read]
        invariant len <= 0 ==> read == 0
        invariant len > 0 ==> toread >= 0
      {
        var chunk;
        ret, chunk := RecvSome(toread);
        if ret < 0 {
          return -1, buf;
        }
        buf := buf + chunk;
        read := read + ret;
        toread := toread - ret;
      }
      ret := if t.TCP? then len else read;
    }

    /** reliableTCPWrite and reliableUDTWrite; they differ in what they return for a negative length,
        which no caller passes. */
    method ReliableWrite(buf: string) returns (ret: int)
      requires Valid()
      modifies this`outgoing
      ensures Valid()
      ensures |old(outgoing)| + |buf| <= room ==> ret == |buf| && outgoing == old(outgoing) + buf
      ensures |old(outgoing)| + |buf| > room ==> ret == -1 && |outgoing| == room && outgoing < old(outgoing) + buf
    {
      var written, towrite := 0, |buf|;
      while towrite > 0
        invariant Valid() && 0 <= written <= |buf| && towrite == |buf| - written
        invariant outgoing == old(outgoing) + buf[..written]
      {
        ret := SendSome(buf[written..]);
        if ret <= 0 {
          return -1;
        }
        assert buf[..written] + buf[written..][..ret] == buf[..written + ret];
        written := written + ret;
        towrite := towrite - ret;
      }
      ret := |buf|;
    }

    /** The character count of the line, MAXLINE when that is reached first, -1 on a receive error. */
    method Readline(t: Transport) returns (ret: int, line: string)
      requires Valid()
      modifies this`received
      ensures Valid()
      ensures match ScanLine("", old(Remaining()))
              case Line(text, rest) => line == text && ret == |text| && Remaining() == rest
              case TooLong(rest) => ret == MAXLINE && Remaining() == rest
              case Broken => ret == -1
    {
      line := "";
      while true
        invariant Valid() && |line| < MAXLINE
        invariant ScanLine(line, Remaining()) == ScanLine("", old(Remaining()))
        decreases |incoming| - received
      {
        ghost var before := Remaining();
        var c;
        ret, c := ReliableRecv(t, 1);
        if ret < 0 {
          return -1, line;
        }
        assert Remaining() == before[1..];
        if c[0] == '\n' {
          return |line|, line;
        }
        line := line + c;
        assert line == line[..|line| - 1] + [before[0]];
        if |line| == MAXLINE {
          return MAXLINE, line;
        }
      }
    }

    method ReadHTTPHeader(t: Transport) returns (ret: int, hdr: Header)
      requires Valid()
      modifies this`received
      ensures Valid()
      ensures match ReadHeader(old(Remaining()))
              case Complete(h, rest) => ret == 0 && hdr == h && Remaining() == rest
              case Bad => ret == -1
    {
      hdr := EMPTY_HEADER;
      var first := true;
      while true
        invariant Valid()
        invariant Parse(Remaining(), hdr, first) == ReadHeader(old(Remaining()))
        decreases |incoming| - received
      {
        ghost var before := Remaining();
        var read, line := Readline(t);
        if read < 0 || read == MAXLINE {
          ScanKinds(before);
          return -1, hdr;
        }
        ScanKinds(before);
        if |hdr.vals| >= MAXELEMENTS {
          return -1, hdr;
        }
        if |line| == 0 || (|line| == 1 && line[0] == '\r') {
          return 0, hdr;
        }
        if first {
          hdr := hdr.(status := line);
          first := false;
        } else {
          var vals := StoreField(hdr.vals, line);
          hdr := hdr.(vals := vals);
        }
      }
    }
  }

  /** The part of readHTTPHeader that handles one field line. */
  method StoreField(vals: map<string, string>, fieldLine: string) returns (stored: map<string, string>)
    ensures stored == AddField(vals, fieldLine)
  {
    var line := fieldLine;
    stored := vals;
    if line != "" && line[|line| - 1] == '\r' {
      line := line[..|line| - 1];
    }
    var found := Find(line, ':');
    if found < |line| {
      var key, value := line[..found], line[found + 1..];
      if |key| > 0 {
        stored := stored[ToLower(key) := value];
      }
    }
  }

  lemma ScanKinds(s: string)
    ensures var scan := ScanLine("", s);
            scan.Line? ==> |scan.text| < MAXLINE && |scan.rest| < |s|
  {
    if ScanLine("", s).Line? {
      ScanLineShrinks("", s);
    }
  }

  /** std::map's iterator: the first key in order. */
  method FirstKey(keys: set<string>) returns (key: string)
    requires keys != {}
    ensures key in keys && key == SortedKeys(keys)[0]
  {
    SortedKeysHead(keys);
    hide SortedKeys;
    assert IsLeast(SortedKeys(keys)[0], keys);
    key :| key in keys && forall j :: j in keys ==> LexLeq(key, j);
    LeastUnique(key, SortedKeys(keys)[0], keys);
  }

  /** str followed by what is still to be printed. */
  ghost function Printing(str: string, keys: set<string>, vals: map<string, string>): string
    requires keys <= vals.Keys
  {
    str + PrintFields(SortedKeys(keys), vals) + "\r\n"
  }

  lemma PrintOneMore(str: string, keys: set<string>, vals: map<string, string>)
    requires keys != {} && keys <= vals.Keys
    ensures var key := SortedKeys(keys)[0];
            Printing(str, keys, vals) == Printing(str + (key + ":" + vals[key] + "\r\n"), keys - {key}, vals)
  {
    var key := SortedKeys(keys)[0];
    SortedKeysHead(keys);
    PrintFieldsHead(SortedKeys(keys), vals);
    hide SortedKeys, PrintFields;
    Orders.Associative(str, key + ":" + vals[key] + "\r\n", PrintFields(SortedKeys(keys - {key}), vals));
  }

  lemma PrintNoMore(str: string, vals: map<string, string>)
    ensures Printing(str, {}, vals) == str + "\r\n"
  {
    assert str + "" + "\r\n" == str + "\r\n";
  }

  method HTTPHeaderToString(hdr: Header) returns (str: string)
    ensures str == Print(hdr)
  {
    str := hdr.status + "\r\n";
    var keys := hdr.vals.Keys;
    hide SortedKeys, PrintFields;
    while keys != {}
      invariant keys <= hdr.vals.Keys
      invariant Print(hdr) == Printing(str, keys, hdr.vals)
      decreases |keys|
    {
      var key := FirstKey(keys);
      hide Printing, Print;
      PrintOneMore(str, keys, hdr.vals);
      str := str + (key + ":" + hdr.vals[key] + "\r\n");
      keys := keys - {key};
    }
    PrintNoMore(str, hdr.vals);
    str := str + "\r\n";
  }

  // ----------------------------------------------------------- content length

  const U64: int := 0x1_0000_0000_0000_0000

  function SkipSpace(s: string): string {
    if s != "" && s[0] in " \t\n\r\U{0b}\U{0c}" then SkipSpace(s[1..]) else s
  }

  function LeadingDigits(s: string): (d: string)
    ensures forall c :: c in d ==> IsDigit(c)
  {
    if s == "" || !IsDigit(s[0]) then "" else [s[0]] + LeadingDigits(s[1..])
  }

  /** strtoumax in base 10: the value and whether errno is set to ERANGE. */
  function StrToUMax(s: string): (r: (int, bool))
    ensures 0 <= r.0 < U64
  {
    var t := SkipSpace(s);
    var negative := t != "" && t[0] == '-';
    var n := NumeralValue(LeadingDigits(if t != "" && (t[0] == '-' || t[0] == '+') then t[1..] else t));
    if n >= U64 then (U64 - 1, true)
    else if negative then ((U64 - n) % U64, false)
    else (n, false)
  }

  function ToInt64(u: int): int {
    if u >= U64 / 2 then u - U64 else u
  }

  /** An int64_t passed for an int parameter. */
  function ToInt32(i: int): int {
    var low := i % 0x1_0000_0000;
    if low >= 0x8000_0000 then low - 0x1_0000_0000 else low
  }

  // ------------------------------------------------------------------ packets

  datatype Packet = Packet(header: Header, payloadsize: int, payload: string)

  /** NoMemory: a negative size makes the array allocation throw. */
  datatype PacketResult =
    | Received(packet: Packet, rest: string)
    | NoHeader | NoContentLength | BadContentLength | NoMemory | ShortPayload

  /** The result of readHTTPPacket, as a function of the bytes the peer sends. */
  function ReadPacket(s: string): PacketResult {
    match ReadHeader(s)
    case Bad => NoHeader
    case Complete(h, rest) =>
      if "content-length" !in h.vals then NoContentLength
      else
        var (u, erange) := StrToUMax(h.vals["content-length"]);
        var size := ToInt64(u);
        if size == 0 || erange then BadContentLength
        else if size < 0 then NoMemory
        else if ToInt32(size) <= 0 || ToInt32(size) > |rest| then ShortPayload
        else Received(Packet(h, size, rest[..ToInt32(size)]), rest[ToInt32(size)..])
  }

  ghost function PrintPacket(p: Packet): string {
    Print(p.header) + p.payload
  }

  /** A packet whose content length tells the size of its payload is read back as it was written exactly
      when the size survives its passage through an int. */
  lemma PacketRoundTripIff(p: Packet, tail: string)
    requires p.header.status != "" && '\n' !in p.header.status && FieldsOk(p.header.vals)
    requires |p.header.vals| < MAXELEMENTS && LineFits(p.header.status + "\r") && FieldsFit(p.header.vals)
    requires 0 < p.payloadsize == |p.payload| < U64 / 2
    requires "content-length" in p.header.vals && p.header.vals["content-length"] == Decimal(|p.payload|)
    ensures ReadPacket(PrintPacket(p) + tail) == Received(p.(header := p.header.(status := p.header.status + "\r")), tail)
       <==> |p.payload| < 0x8000_0000
  {
    var h, n := Header(p.header.status + "\r", p.header.vals), |p.payload|;
    Orders.Associative(Print(p.header), p.payload, tail);
    HeaderRoundTripIff(p.header, p.payload + tail);
    SizeSurvivesIff(n);
    hide *;
    ReadPacketIs(PrintPacket(p) + tail, h, p.payload + tail, n) by { PrintedPacket(p, tail); }
    PayloadIsIff(p.payload, tail, ToInt32(n));
  }

  lemma PrintedPacket(p: Packet, tail: string)
    ensures PrintPacket(p) + tail == Print(p.header) + p.payload + tail
  {
  }

  lemma SizeSurvivesIff(n: nat)
    requires 0 < n < U64 / 2
    ensures ToInt32(n) == n <==> n < 0x8000_0000
  {
  }

  lemma ReadPacketIs(s: string, h: Header, rest: string, n: nat)
    requires ReadHeader(s) == Complete(h, rest) && 0 < n < U64 / 2
    requires "content-length" in h.vals && h.vals["content-length"] == Decimal(n)
    ensures var size := ToInt32(n);
            ReadPacket(s) == if size <= 0 || size > |rest| then ShortPayload
                             else Received(Packet(h, n, rest[..size]), rest[size..])
  {
    StrToUMaxOfDecimal(n);
    hide StrToUMax, Decimal, ReadHeader, ToInt32;
  }

  lemma PayloadIsIff(payload: string, tail: string, size: int)
    ensures 0 < size <= |payload + tail| ==>
              ((payload + tail)[..size] == payload && (payload + tail)[size..] == tail <==> size == |payload|)
  {
  }

  method ReadHTTPPacket(c: Connection, t: Transport) returns (result: PacketResult)
    requires c.Valid()
    modifies c`received
    ensures c.Valid()
    ensures match ReadPacket(old(c.Remaining()))
            case Received(p, rest) => result.Received? && result.packet == p && c.Remaining() == rest
            case failure => result == failure
  {
    var ret, hdr := c.ReadHTTPHeader(t);
    if ret < 0 {
      return NoHeader;
    }
    if "content-length" !in hdr.vals {
      return NoContentLength;
    }
    var (u, erange) := StrToUMax(hdr.vals["content-length"]);
    var contentsize := ToInt64(u);
    if contentsize == 0 || erange {
      return BadContentLength;
    }
    if contentsize < 0 {
      return NoMemory;
    }
    ghost var rest := c.Remaining();
    var buff;
    ret, buff := c.ReliableRecv(t, ToInt32(contentsize));
    if ret <= 0 {
      return ShortPayload;
    }
    result := Received(Packet(hdr, contentsize, buff), "");
    assert rest[ToInt32(contentsize)..] == c.Remaining();
  }

  method WriteHTTPPacket(c: Connection, p: Packet) returns (ret: int)
    requires c.Valid()
    modifies c`outgoing
    ensures c.Valid()
    ensures ret == 0 <==> |old(c.outgoing)| + |PrintPacket(p)| <= c.room
    ensures ret == 0 ==> c.outgoing == old(c.outgoing) + PrintPacket(p)
    ensures ret != 0 ==> ret == -1 && c.outgoing < old(c.outgoing) + PrintPacket(p)
  {
    hide Print;
    var hdrStr := HTTPHeaderToString(p.header);
    ret := c.ReliableWrite(hdrStr);
    if ret == -1 {
      Orders.Associative(old(c.outgoing), hdrStr, p.payload);
      return -1;
    }
    Orders.Associative(old(c.outgoing), hdrStr, p.payload);
    ret := c.ReliableWrite(p.payload);
    if ret == -1 {
      return -1;
    }
    ret := 0;
  }

  // -------------------------------------------------------------------- relay

  /** The most that is streamed: the last chunk may go beyond filesize, but not beyond the stream. */
  function Most(filesize: int, stream: string): nat {
    if filesize <= 0 then 0 else if |stream| < filesize + BUFFSIZE then |stream| else filesize + BUFFSIZE - 1
  }

  /** Streams at least filesize bytes, ending with the chunk that reaches it. relayed is the count. */
  method RedirectUDT(u: Connection, fd: Connection, filesize: int) returns (ret: int, relayed: nat)
    requires u != fd && u.Valid() && fd.Valid()
    modifies u`received, fd`outgoing
    ensures u.Valid() && fd.Valid()
    ensures ret == 0 || ret == -1
    ensures ret == 0 ==>
              && relayed <= |old(u.Remaining())| && u.received == old(u.received) + relayed
              && fd.outgoing == old(fd.outgoing) + old(u.Remaining())[..relayed]
              && (if filesize > 0 then filesize <= relayed < filesize + BUFFSIZE else relayed == 0)
    ensures ret == -1 ==>
              && fd.outgoing <= old(fd.outgoing) + old(u.Remaining())
              && (|old(u.Remaining())| < filesize || fd.room < |old(fd.outgoing)| + Most(filesize, old(u.Remaining())))
  {
    relayed := 0;
    ghost var stream := u.Remaining();
    while relayed < filesize
      invariant u.Valid() && fd.Valid()
      invariant relayed <= |stream| && u.received == old(u.received) + relayed
      invariant fd.outgoing == old(fd.outgoing) + stream[..relayed]
      invariant if filesize > 0 then relayed < filesize + BUFFSIZE else relayed == 0
    {
      ghost var sent := stream[..relayed];
      var read, buf := u.RecvSome(BUFFSIZE);
      if read == -1 {
        assert stream[..relayed] == stream;
        return -1, relayed;
      }
      assert buf == stream[relayed..relayed + read];
      assert sent + buf == stream[..relayed + read];
      ret := fd.ReliableWrite(buf);
      Orders.Associative(old(fd.outgoing), sent, buf);
      if ret < 0 {
        assert old(fd.outgoing) + stream[..relayed + read] <= old(fd.outgoing) + stream;
        return -1, relayed;
      }
      relayed := relayed + read;
    }
    ret := 0;
  }

  datatype Outcome =
    | BadRequest | NoLength | BadLength | NoConnection | HeaderNotSent | NotRedirected
    | BadReply | ReplyNotSent | Relayed

  /** The header recvFile accepts from a request and the file size it takes from it. */
  datatype Request = Request(header: Header, filesize: int, body: string) | Refused(outcome: Outcome)

  function AcceptedRequest(request: string): (r: Request)
    ensures r.Refused? ==> r.outcome in {BadRequest, NoLength, BadLength}
    ensures r.Request? ==> r.filesize != 0 && r.header.vals != map[]
  {
    match ReadHeader(request)
    case Bad => Refused(BadRequest)
    case Complete(h, rest) =>
      if "content-length" !in h.vals then Refused(NoLength)
      else
        var (u, erange) := StrToUMax(h.vals["content-length"]);
        if ToInt64(u) == 0 || erange then Refused(BadLength) else Request(h, ToInt64(u), rest)
  }

  /** What NGAS and the client have been sent when recvFile gets to the end. */
  ghost predicate TransparentRelay(r: Request, reply: string, toNgas: string, toClient: string, relayed: nat)
    requires r.Request?
  {
    && relayed <= |r.body|
    && toNgas == Print(r.header) + r.body[..relayed]
    && (if r.filesize > 0 then r.filesize <= relayed < r.filesize + BUFFSIZE else relayed == 0)
    && ReadPacket(reply).Received?
    && toClient == PrintPacket(ReadPacket(reply).packet)
  }

  method ReadRequest(u: Connection) returns (request: Request)
    requires u.Valid()
    modifies u`received
    ensures u.Valid()
    ensures request == AcceptedRequest(old(u.Remaining()))
    ensures request.Request? ==> u.Remaining() == request.body
  {
    hide Parse;
    var ret, reqHdr := u.ReadHTTPHeader(UDT);
    if ret < 0 {
      return Refused(BadRequest);
    }
    if "content-length" !in reqHdr.vals {
      return Refused(NoLength);
    }
    var (value, erange) := StrToUMax(reqHdr.vals["content-length"]);
    var filesize := ToInt64(value);
    if filesize == 0 || erange {
      return Refused(BadLength);
    }
    request := Request(reqHdr, filesize, u.incoming[u.received..]);
  }

  /** Why a relay of an accepted request ends as it does, in the order in which it can fail. */
  ghost predicate Explained(r: Request, ngasRoom: nat, reply: string, room: nat, outcome: Outcome)
    requires r.Request?
  {
    match outcome
    case HeaderNotSent => |Print(r.header)| > ngasRoom
    case NotRedirected =>
      && |Print(r.header)| <= ngasRoom
      && (|r.body| < r.filesize || ngasRoom < |Print(r.header)| + Most(r.filesize, r.body))
    case BadReply => SentOn(r, ngasRoom) && !ReadPacket(reply).Received?
    case ReplyNotSent =>
      SentOn(r, ngasRoom) && ReadPacket(reply).Received? && |PrintPacket(ReadPacket(reply).packet)| > room
    case Relayed =>
      SentOn(r, ngasRoom) && ReadPacket(reply).Received? && |PrintPacket(ReadPacket(reply).packet)| <= room
    case _ => false
  }

  /** There are as many bytes to stream as announced, and room for these and the header. */
  ghost predicate SentOn(r: Request, ngasRoom: nat)
    requires r.Request?
  {
    |r.body| >= r.filesize && |Print(r.header)| + (if r.filesize > 0 then r.filesize else 0) <= ngasRoom
  }

  method RelayRequest(u: Connection, ngas: Connection, request: Request) returns (outcome: Outcome, relayed: nat)
    requires u != ngas && u.Valid() && ngas.Valid() && u.outgoing == ngas.outgoing == ""
    requires request.Request? && u.Remaining() == request.body
    modifies u, ngas
    ensures u.Valid() && ngas.Valid()
    ensures Explained(request, ngas.room, old(ngas.Remaining()), u.room, outcome)
    ensures outcome == Relayed ==> TransparentRelay(request, old(ngas.Remaining()), ngas.outgoing, u.outgoing, relayed)
    ensures outcome == Relayed || outcome == ReplyNotSent || u.outgoing == ""
    ensures outcome == ReplyNotSent ==> u.outgoing < PrintPacket(ReadPacket(old(ngas.Remaining())).packet)
    ensures ngas.outgoing <= Print(request.header) + request.body
  {
    hide Print, ReadPacket, PrintPacket;
    ghost var reply := ngas.Remaining();
    relayed := 0;
    var reqHdrStr := HTTPHeaderToString(request.header);
    var ret := ngas.ReliableWrite(reqHdrStr);
    if ret < 0 {
      return HeaderNotSent, 0;
    }
    ret, relayed := RedirectUDT(u, ngas, request.filesize);
    if ret < 0 {
      return NotRedirected, relayed;
    }
    var result := ReadHTTPPacket(ngas, TCP);
    if !result.Received? {
      return BadReply, relayed;
    }
    ret := WriteHTTPPacket(u, result.packet);
    if ret < 0 {
      return ReplyNotSent, relayed;
    }
    outcome := Relayed;
    assert "" + PrintPacket(result.packet) == PrintPacket(result.packet);
  }

  /** recvFile, for a client connection u and the connection to NGAS, null if it cannot be made. */
  method RecvFile(u: Connection, ngas: Connection?) returns (outcome: Outcome, relayed: nat)
    requires u.Valid() && u.outgoing == ""
    requires ngas != null ==> ngas != u && ngas.Valid() && ngas.outgoing == ""
    modifies u, ngas
    ensures u.Valid() && (ngas != null ==> ngas.Valid())
    ensures AcceptedRequest(old(u.Remaining())).Request? ==>
              if ngas == null then outcome == NoConnection && u.outgoing == ""
              else Explained(AcceptedRequest(old(u.Remaining())), ngas.room, old(ngas.Remaining()), u.room, outcome)
    ensures AcceptedRequest(old(u.Remaining())).Request? && ngas != null ==>
              ngas.outgoing <= Print(AcceptedRequest(old(u.Remaining())).header) + AcceptedRequest(old(u.Remaining())).body
    ensures outcome == Relayed ==>
              && ngas != null && AcceptedRequest(old(u.Remaining())).Request?
              && TransparentRelay(AcceptedRequest(old(u.Remaining())), old(ngas.Remaining()), ngas.outgoing, u.outgoing, relayed)
    ensures AcceptedRequest(old(u.Remaining())).Refused? ==>
              outcome == AcceptedRequest(old(u.Remaining())).outcome && u.outgoing == "" && (ngas != null ==> ngas.outgoing == "")
  {
    hide AcceptedRequest, TransparentRelay, Explained;
    relayed := 0;
    var request := ReadRequest(u);
    if request.Refused? {
      return request.outcome, 0;
    }
    if ngas == null {
      return NoConnection, 0;
    }
    outcome, relayed := RelayRequest(u, ngas, request);
  }

  /** A relay that has the bytes and the room it needs and gets a reply it can read cannot fail. */
  lemma RelaySucceeds(r: Request, ngasRoom: nat, reply: string, room: nat, outcome: Outcome)
    requires r.Request? && Explained(r, ngasRoom, reply, room, outcome)
    requires |r.body| >= r.filesize && ngasRoom >= |Print(r.header)| + Most(r.filesize, r.body)
    requires ReadPacket(reply).Received? && |PrintPacket(ReadPacket(reply).packet)| <= room
    ensures outcome == Relayed
  {
  }

  /** A length as strtoumax may find it: spaces, a sign, digits, and what it stops at. */
  predicate IsLength(text: string, space: string, sign: string, n: nat, junk: string) {
    && text == space + sign + Decimal(n) + junk
    && (forall c :: c in space ==> c in " \t\n\r\U{0b}\U{0c}")
    && (sign == "" || sign == "+" || sign == "-")
    && (junk == "" || !IsDigit(junk[0]))
  }

  lemma {:induction false} SpaceSkipped(space: string, t: string)
    requires forall c :: c in space ==> c in " \t\n\r\U{0b}\U{0c}"
    requires t != "" && t[0] !in " \t\n\r\U{0b}\U{0c}"
    ensures SkipSpace(space + t) == t
  {
    if space == "" {
      assert space + t == t;
    } else {
      assert (space + t)[1..] == space[1..] + t;
      SpaceSkipped(space[1..], t);
    }
  }

  lemma {:induction false} DigitsBefore(d: string, junk: string)
    requires (forall c :: c in d ==> IsDigit(c)) && (junk == "" || !IsDigit(junk[0]))
    ensures LeadingDigits(d + junk) == d
  {
    if d == "" {
      assert d + junk == junk;
    } else {
      assert (d + junk)[1..] == d[1..] + junk;
      DigitsBefore(d[1..], junk);
    }
  }

  lemma SignedParts(space: string, sign: string, d: string, junk: string)
    requires d != "" && IsDigit(d[0]) && (sign == "" || sign == "+" || sign == "-")
    ensures var t := sign + d + junk;
            && space + sign + d + junk == space + t
            && t != "" && (t[0] == '-' <==> sign == "-") && t[0] !in " \t\n\r\U{0b}\U{0c}"
            && (if t[0] == '-' || t[0] == '+' then t[1..] else t) == d + junk
  {
    var t := sign + d + junk;
    if sign == "" {
      assert t == d + junk;
    } else {
      assert t[0] == sign[0] && t[1..] == d + junk;
    }
  }

  lemma LengthIs(text: string, space: string, sign: string, n: nat, junk: string)
    requires IsLength(text, space, sign, n, junk)
    ensures var t := SkipSpace(text);
            && (t != "" && t[0] == '-' <==> sign == "-")
            && LeadingDigits(if t != "" && (t[0] == '-' || t[0] == '+') then t[1..] else t) == Decimal(n)
  {
    var d := Decimal(n);
    DecimalRoundTrip(n);
    hide Decimal, SkipSpace, LeadingDigits;
    SignedParts(space, sign, d, junk);
    SpaceSkipped(space, sign + d + junk);
    DigitsBefore(d, junk);
  }

  lemma StrToUMaxIs(text: string, space: string, sign: string, n: nat, junk: string)
    requires IsLength(text, space, sign, n, junk)
    ensures StrToUMax(text) == if n >= 0x1_0000_0000_0000_0000 then (0xffff_ffff_ffff_ffff, true)
                               else if sign == "-" && n > 0 then (0x1_0000_0000_0000_0000 - n, false) else (n, false)
  {
    LengthIs(text, space, sign, n, junk);
    DecimalRoundTrip(n);
    hide SkipSpace, LeadingDigits, Decimal, NumeralValue, IsLength;
  }

  /** Every size below 2 to the power of 64 is read back as it is printed. */
  lemma StrToUMaxOfDecimal(n: nat)
    requires n < U64
    ensures StrToUMax(Decimal(n)) == (n, false)
  {
    assert "" + "" + Decimal(n) + "" == Decimal(n);
    assert IsLength(Decimal(n), "", "", n, "");
    StrToUMaxIs(Decimal(n), "", "", n, "");
    hide StrToUMax;
  }

  function Signed(sign: string, n: nat): int {
    var i: int := n;
    if sign == "-" then -i else i
  }

  /** The number that agrees with i modulo 2 to the power of 64 and fits an int64_t. */
  predicate IsInt64Of(v: int, i: int) {
    (v - i) % 0x1_0000_0000_0000_0000 == 0 && -0x8000_0000_0000_0000 <= v < 0x8000_0000_0000_0000
  }

  lemma ToInt64Is(u: int)
    requires 0 <= u < U64
    ensures IsInt64Of(ToInt64(u), u)
    ensures ToInt64(u) == 0 <==> u == 0
  {
  }

  lemma ToInt32Is(i: int)
    ensures (ToInt32(i) - i) % 0x1_0000_0000 == 0 && -0x8000_0000 <= ToInt32(i) < 0x8000_0000
  {
  }

  /** A request is refused exactly for an unreadable header, a missing length, and a length that is zero
      or has more than 64 bits; a signed length wraps round, and the header and what follows it are kept. */
  lemma AcceptedIff(request: string, space: string, sign: string, n: nat, junk: string)
    ensures AcceptedRequest(request) == Refused(BadRequest) <==> ReadHeader(request).Bad?
    ensures ReadHeader(request).Complete? ==>
              (AcceptedRequest(request) == Refused(NoLength) <==> "content-length" !in ReadHeader(request).header.vals)
    ensures (&& ReadHeader(request).Complete? && "content-length" in ReadHeader(request).header.vals
             && IsLength(ReadHeader(request).header.vals["content-length"], space, sign, n, junk)) ==>
              var r := AcceptedRequest(request);
              if n == 0 || n >= 0x1_0000_0000_0000_0000 then r == Refused(BadLength)
              else
                && r.Request? && r.header == ReadHeader(request).header && r.body == ReadHeader(request).rest
                && IsInt64Of(r.filesize, Signed(sign, n))
  {
    hide Parse, StrToUMax, ToInt64, IsLength;
    if ReadHeader(request).Complete? && "content-length" in ReadHeader(request).header.vals {
      var text := ReadHeader(request).header.vals["content-length"];
      if IsLength(text, space, sign, n, junk) {
        StrToUMaxIs(text, space, sign, n, junk);
        ToInt64Is(StrToUMax(text).0);
      }
    }
  }

  /** What a packet is read as when its length is not positive in 64 bits, or its payload is not there. */
  lemma UnreadablePacketIff(s: string, space: string, sign: string, n: nat, junk: string)
    requires ReadHeader(s).Complete? && "content-length" in ReadHeader(s).header.vals
    requires IsLength(ReadHeader(s).header.vals["content-length"], space, sign, n, junk)
    ensures ReadPacket(s) == BadContentLength <==> n == 0 || n >= 0x1_0000_0000_0000_0000
    ensures ReadPacket(s) == NoMemory <==>
              0 < n < U64 && if sign == "-" then n <= 0x8000_0000_0000_0000 else n >= 0x8000_0000_0000_0000
    ensures sign != "-" && 0 < n < 0x8000_0000 ==>
              (ReadPacket(s) == ShortPayload <==> |ReadHeader(s).rest| < n)
  {
    var text := ReadHeader(s).header.vals["content-length"];
    StrToUMaxIs(text, space, sign, n, junk);
    hide ReadHeader, StrToUMax, IsLength;
  }

  lemma AcceptedWith(request: string, h: Header, n: nat, body: string)
    requires ReadHeader(request) == Complete(h, body) && 0 < n < 0x8000_0000_0000_0000
    requires "content-length" in h.vals && h.vals["content-length"] == Decimal(n)
    ensures AcceptedRequest(request) == Request(h, n, body)
  {
    StrToUMaxOfDecimal(n);
    hide ReadHeader, StrToUMax, Decimal;
  }

  /** End to end: a client that sends a header within the limits and at least the bytes it announces, to
      an NGAS that has room for them and replies in form, is relayed; NGAS gets its fields and its bytes,
      and the client the reply. */
  lemma WellFormedIsRelayed(h: Header, n: nat, body: string, p: Packet, tail: string, ngasRoom: nat, room: nat,
                            outcome: Outcome, toNgas: string, toClient: string, relayed: nat)
    requires h.status != "" && '\n' !in h.status && FieldsOk(h.vals) && |h.vals| < MAXELEMENTS
    requires LineFits(h.status + "\r") && FieldsFit(h.vals)
    requires "content-length" in h.vals && h.vals["content-length"] == Decimal(n) && 0 < n < 0x8000_0000_0000_0000 && n <= |body|
    requires p.header.status != "" && '\n' !in p.header.status && FieldsOk(p.header.vals) && |p.header.vals| < MAXELEMENTS
    requires LineFits(p.header.status + "\r") && FieldsFit(p.header.vals)
    requires "content-length" in p.header.vals && p.header.vals["content-length"] == Decimal(|p.payload|)
    requires 0 < p.payloadsize == |p.payload| < 0x8000_0000
    requires ngasRoom >= |Print(h.(status := h.status + "\r"))| + n + 64000
    requires room >= |PrintPacket(p.(header := p.header.(status := p.header.status + "\r")))|
    requires AcceptedRequest(Print(h) + body).Request? ==>
               && Explained(AcceptedRequest(Print(h) + body), ngasRoom, PrintPacket(p) + tail, room, outcome)
               && (outcome == Relayed ==>
                     TransparentRelay(AcceptedRequest(Print(h) + body), PrintPacket(p) + tail, toNgas, toClient, relayed))
    ensures AcceptedRequest(Print(h) + body) == Request(h.(status := h.status + "\r"), n, body)
    ensures outcome == Relayed && n <= relayed <= |body|
    ensures toNgas == Print(h.(status := h.status + "\r")) + body[..relayed]
    ensures toClient == PrintPacket(p.(header := p.header.(status := p.header.status + "\r")))
  {
    var h', p' := h.(status := h.status + "\r"), p.(header := p.header.(status := p.header.status + "\r"));
    var request, reply := Print(h) + body, PrintPacket(p) + tail;
    HeaderRoundTripIff(h, body);
    PacketRoundTripIff(p, tail);
    hide *;
    AcceptedWith(request, h', n, body);
    AnswerRelayed(Request(h', n, body), reply, p', tail, ngasRoom, room, outcome, toNgas, toClient, relayed);
  }

  lemma AnswerRelayed(r: Request, reply: string, p: Packet, tail: string, ngasRoom: nat, room: nat,
                      outcome: Outcome, toNgas: string, toClient: string, relayed: nat)
    requires r.Request? && ReadPacket(reply) == Received(p, tail) && room >= |PrintPacket(p)|
    requires 0 < r.filesize <= |r.body| && ngasRoom >= |Print(r.header)| + r.filesize + BUFFSIZE
    requires Explained(r, ngasRoom, reply, room, outcome)
    requires outcome == Relayed ==> TransparentRelay(r, reply, toNgas, toClient, relayed)
    ensures outcome == Relayed && r.filesize <= relayed <= |r.body|
    ensures toNgas == Print(r.header) + r.body[..relayed] && toClient == PrintPacket(p)
  {
    hide Explained, Print, PrintPacket, ReadPacket;
    RelaySucceeds(r, ngasRoom, reply, room, outcome);
  }

  /** Relay transparency for the receiver's own reader: NGAS reads the field map the client sent, and
      the body it finds is the client's stream, whenever no request line exceeds 16382 characters. */
  lemma NgasReadsTheRequest(request: string, reply: string, toNgas: string, toClient: string, relayed: nat)
    requires AcceptedRequest(request).Request? && LinesWithin(request, MAXLINE - 2)
    requires TransparentRelay(AcceptedRequest(request), reply, toNgas, toClient, relayed)
    ensures var r := AcceptedRequest(request);
            ReadHeader(toNgas) == Complete(Header(r.header.status + "\r", r.header.vals), r.body[..relayed])
  {
    hide Parse, Print, LinesWithin;
    var r := AcceptedRequest(request);
    assert r.header.vals != map[];
    ReparseIff(request, r.body[..relayed]);
  }
}
