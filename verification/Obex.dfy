/** The session and object of obex.c: queues that are filled by the application, drained into
    packets, and filled again from received messages. */
module Obex {
  import opened Bytes
  import opened ObexHeaders
  import opened ObexTransfer
  import opened Wrappers

  const FINAL: nat := 0x80
  const CONNECT: Byte := 0x00
  const SETPATH: Byte := 0x05
  const DEFAULT_MTU: nat := 4096

  datatype Status = Failed | More | Finished | Stranded

  /** What the application reads back from a received header. */
  predicate Readable(r: Received) {
    match KindOf(r.hi)
    case Uint32 => |r.data| == 4
    case Uint8 => |r.data| == 1
    case _ => true
  }

  function ReadBack(r: Received): (Byte, Value)
    requires Readable(r)
  {
    match KindOf(r.hi)
    case Uint32 => (r.hi, Bq4(Decode(r.data)))
    case Uint8 => (r.hi, Bq1(r.data[0]))
    case _ => (r.hi, Bs(r.data))
  }

  predicate AllReadable(rs: seq<Received>) { forall i :: 0 <= i < |rs| ==> Readable(rs[i]) }

  /** Every header the receive loop queues has a value of the size its id calls for. */
  lemma {:induction false} ParseKeepsReadable(msg: seq<Byte>, stale: nat -> Byte, rx: Rx)
    requires |msg| <= MAX_MESSAGE && AllReadable(rx.headers)
    ensures AllReadable(Parse(msg, stale, rx).rx.headers)
    decreases |msg|
  {
    if msg != [] && !RoundFails(msg, stale) {
      RoundConsumes(msg, stale);
      ParseKeepsReadable(msg[Min(HeaderLength(msg, stale), |msg|)..], stale, Round(msg, stale, rx));
    }
  }

  // ----- from the application's headers to the receiver's

  /** The queue that obex_object_addheader builds for a list of headers. */
  function QueueOf(items: seq<(Byte, Value)>): seq<Element>
    requires forall i :: 0 <= i < |items| ==> ValueFits(items[i].0, items[i].1)
  {
    seq(|items|, i requires 0 <= i < |items| => Element(items[i].0, Encode(items[i].0, items[i].1), false))
  }

  /** Headers obex_object_addheader accepts without flags: each fits a packet, but for at most one
      body, which may be of any length. */
  predicate Acceptable(items: seq<(Byte, Value)>, mtu: nat) {
    && 8 <= mtu <= MAX_MESSAGE
    && (forall i :: 0 <= i < |items| ==>
          && ValueFits(items[i].0, items[i].1) && items[i].0 != EMPTY && items[i].0 != BODY_END
          && (items[i].0 != BODY ==> |Encode(items[i].0, items[i].1)| + COMMON_HDR <= mtu))
    && forall i, j :: 0 <= i < j < |items| && items[i].0 == BODY ==> items[j].0 != BODY
  }

  lemma AcceptableIsSendable(items: seq<(Byte, Value)>, mtu: nat)
    requires Acceptable(items, mtu)
    ensures Sendable(QueueOf(items), mtu)
  {
    forall i | 0 <= i < |items| && items[i].0 != BODY ensures IsPlain(QueueOf(items)[i].data, items[i].0, mtu) {
      EncodeIsHeader(items[i].0, items[i].1);
    }
  }

  /** From index n on, the received headers read back as `items`. */
  predicate ReadsAs(got: seq<Received>, n: nat, items: seq<(Byte, Value)>) {
    |got| == n + |items| && forall i :: n <= i < |got| ==> Readable(got[i]) && ReadBack(got[i]) == items[i - n]
  }

  lemma ReadsOneMore(got: seq<Received>, n: nat, items: seq<(Byte, Value)>)
    requires items != [] && ReadsAs(got, n + 1, items[1..]) && Readable(got[n]) && ReadBack(got[n]) == items[0]
    ensures ReadsAs(got, n, items)
  {
    forall i | n <= i < |got| ensures Readable(got[i]) && ReadBack(got[i]) == items[i - n] {
      if i > n {
        assert items[1..][i - (n + 1)] == items[i - n];
      }
    }
  }

  /** A plain header, encoded and received, reads back as it was passed in. */
  lemma PlainReadsBack(hi: Byte, v: Value)
    requires ValueFits(hi, v) && (v.Bs? ==> |v.bytes| + 3 < 0x1_0000)
    ensures IsHeader(Encode(hi, v)) && Encode(hi, v)[0] == hi
    ensures var r := Received(hi, Payload(Encode(hi, v)));
            Readable(r) && ReadBack(r) == (hi, v)
  {
    EncodeIsHeader(hi, v);
  }

  lemma AcceptableTail(items: seq<(Byte, Value)>, mtu: nat)
    requires Acceptable(items, mtu) && items != []
    ensures Acceptable(items[1..], mtu) && QueueOf(items)[1..] == QueueOf(items[1..])
    ensures QueueOf(items)[0] == Element(items[0].0, Encode(items[0].0, items[0].1), false)
  {
    forall i | 0 <= i < |items[1..]| ensures items[1..][i] == items[i + 1] {}
  }

  /** The first of the headers, delivered, reads back. */
  lemma HeadReadsBack(items: seq<(Byte, Value)>, mtu: nat, rx: Rx) returns (rx': Rx, r: Received)
    requires Acceptable(items, mtu) && items != [] && rx.body == None
    requires Sendable(QueueOf(items), mtu) && Sendable(QueueOf(items[1..]), mtu)
    ensures Readable(r) && ReadBack(r) == items[0] && rx'.headers == rx.headers + [r] && rx'.body == None
    ensures Delivered(rx, QueueOf(items), mtu) == Delivered(rx', QueueOf(items)[1..], mtu)
  {
    AcceptableTail(items, mtu);
    var q, hi, v := QueueOf(items), items[0].0, items[0].1;
    if hi == BODY {
      assert BodyOf(q[0]) == v.bytes;
      assert [] + v.bytes == v.bytes;
      rx', r := AcceptBody(rx, BODY_END, v.bytes), Received(BODY, v.bytes);
    } else {
      PlainReadsBack(hi, v);
      rx', r := AcceptPlain(rx, hi, Payload(q[0].data)), Received(hi, Payload(q[0].data));
    }
  }

  lemma {:induction false} DeliveredReadsBack(items: seq<(Byte, Value)>, mtu: nat, rx: Rx)
    requires Acceptable(items, mtu) && rx.body == None
    ensures Sendable(QueueOf(items), mtu)
    ensures var got := Delivered(rx, QueueOf(items), mtu).headers;
            |got| == |rx.headers| + |items| && got[..|rx.headers|] == rx.headers && ReadsAs(got, |rx.headers|, items)
    decreases |items|
  {
    AcceptableIsSendable(items, mtu);
    if items != [] {
      hide Acceptable, Sendable, ReadsAs, Readable, ReadBack;
      AcceptableTail(items, mtu);
      AcceptableIsSendable(items[1..], mtu);
      var n := |rx.headers|;
      var rx', r := HeadReadsBack(items, mtu, rx);
      DeliveredReadsBack(items[1..], mtu, rx');
      var got := Delivered(rx', QueueOf(items[1..]), mtu).headers;
      assert got[..n + 1] == rx.headers + [r];
      assert got[n] == got[..n + 1][n] && got[..n] == got[..n + 1][..n];
      ReadsOneMore(got, n, items);
    } else {
      NothingReads(rx.headers);
    }
  }

  lemma NothingReads(got: seq<Received>)
    ensures ReadsAs(got, |got|, [])
  {
  }

  // ----- the packets on the wire

  /** A packet: the common header, whose length does not count the sequence byte, and the rest.
      The last packet of an object carries the final bit. */
  function Packet(seqNum: Byte, opcode: Byte, last: bool, rest: seq<Byte>): seq<Byte> {
    var op := if last && opcode < 0x80 then opcode + FINAL as Byte else opcode;
    [seqNum, op] + Encode16(|rest| + COMMON_HDR - 1) + rest
  }

  /** The i-th packet of an object: the non-header data in the first, the final bit in the last and
      in the empty ones that a device can ask for after it. */
  function OnWire(first: Byte, opcode: Byte, nonHeader: seq<Byte>, run: Run, i: nat): seq<Byte> {
    Packet(
      Numbered(first, i), opcode, i + 1 >= |run.packets| && !run.wrapped,
      (if i == 0 then nonHeader else []) + (if i < |run.packets| then Flatten(run.packets[i]) else []))
  }

  /** What a packet is: number, opcode with the final bit exactly if it is the last, its length less
      the sequence byte while that is below 2^16, and behind these four bytes the rest. */
  ghost predicate IsPacket(p: seq<Byte>, seqNum: Byte, opcode: Byte, last: bool, rest: seq<Byte>) {
    && |p| == 4 + |rest| && p[4..] == rest
    && p[0] == seqNum
    && p[1] as int % 128 == opcode as int % 128
    && (opcode < 0x80 ==> (p[1] >= 0x80 <==> last))
    && (opcode >= 0x80 ==> p[1] >= 0x80)
    && (|p| <= 0x1_0000 ==> 256 * p[2] as int + p[3] as int == |p| - 1)
  }

  lemma PacketIsPacket(seqNum: Byte, opcode: Byte, last: bool, rest: seq<Byte>)
    ensures IsPacket(Packet(seqNum, opcode, last, rest), seqNum, opcode, last, rest)
  {
    var p, n := Packet(seqNum, opcode, last, rest), |rest| + 3;
    assert p[2] == Encode16(n)[0] && p[3] == Encode16(n)[1];
    if n < 0x1_0000 {
      Encode16RoundTrip(n);
      Decode2(Encode16(n));
    }
  }

  /** The packets of an object are numbered on, byte by byte modulo 256, carry its opcode, the final
      bit exactly from the last one on, their length, the non-header data in the first, and the
      headers of the transfer in order. */
  lemma WireShape(first: Byte, opcode: Byte, nonHeader: seq<Byte>, run: Run, i: nat)
    ensures var p := OnWire(first, opcode, nonHeader, run, i);
            && |p| >= 4 && p[0] as int == (first as int + i) % 256
            && p[1] as int % 128 == opcode as int % 128
            && (opcode < 0x80 ==> (p[1] >= 0x80 <==> i + 1 >= |run.packets| && !run.wrapped))
            && (opcode >= 0x80 ==> p[1] >= 0x80)
            && (|p| <= 0x1_0000 ==> 256 * p[2] as int + p[3] as int == |p| - 1)
            && (0 < i < |run.packets| ==> p[4..] == Flatten(run.packets[i]))
            && (i == 0 < |run.packets| ==> p[4..] == nonHeader + Flatten(run.packets[0]))
            && (0 < i && |run.packets| <= i ==> p[4..] == [])
  {
    var last := i + 1 >= |run.packets| && !run.wrapped;
    var rest := (if i == 0 then nonHeader else []) + if i < |run.packets| then Flatten(run.packets[i]) else [];
    PacketIsPacket(Numbered(first, i), opcode, last, rest);
    hide Packet;
  }

  /** The packet of a put (0x02) without headers: the only one, so with the final bit. */
  lemma SinglePut()
    ensures OnWire(0, 0x02, [], Run([[]], false), 0) == [0, 0x82, 0, 3]
  {
  }

  lemma WireLength(first: Byte, opcode: Byte, nonHeader: seq<Byte>, run: Run, i: nat)
    requires i < |run.packets|
    ensures |OnWire(first, opcode, nonHeader, run, i)|
            == COMMON_HDR + (if i == 0 then |nonHeader| else 0) + |Flatten(run.packets[i])|
  {
  }

  /** Some packet of an object is longer than the MTU exactly if its non-header data and the headers
      of the first packet take more than there is room for, or the queue is oversized, which it is
      not with no header behind the body. */
  lemma WireExceedsIff(q: seq<Element>, mtu: nat, first: Byte, opcode: Byte, nonHeader: seq<Byte>)
    requires Sendable(q, mtu)
    ensures var run := Transfer(q, mtu);
            (exists i :: 0 <= i < |run.packets| && |OnWire(first, opcode, nonHeader, run, i)| > mtu)
            <==> Exceeds(q, mtu, |nonHeader|)
    ensures BodyLast(q) ==> !Oversized(q, mtu)
  {
    hide Oversized, Load, Starts, OnWire, BodyLast, Sendable, Transfer, Fill, Flatten;
    TransferStep(q, mtu);
    var run, left := Transfer(q, mtu), mtu - COMMON_HDR;
    TransferOversizedIff(q, mtu);
    FillWrapsIff(q, left, mtu);
    if run.packets != [] {
      PacketLoad(q, left, mtu);
      WireLength(first, opcode, nonHeader, run, 0);
    }
    if BodyLast(q) {
      TransferFits(q, mtu);
    }
    if Oversized(q, mtu) {
      var p :| p in run.packets && |Flatten(p)| + COMMON_HDR > mtu;
      var i :| 0 <= i < |run.packets| && run.packets[i] == p;
      WireLength(first, opcode, nonHeader, run, i);
    } else {
      forall i | 0 < i < |run.packets| ensures |OnWire(first, opcode, nonHeader, run, i)| <= mtu {
        WireLength(first, opcode, nonHeader, run, i);
        assert run.packets[i] in run.packets;
      }
    }
  }

  /** And no packet is longer by more than the chunk header and, for the first, the non-header data. */
  lemma WireBounded(q: seq<Element>, mtu: nat, first: Byte, opcode: Byte, nonHeader: seq<Byte>, i: nat)
    requires Sendable(q, mtu) && i < |Transfer(q, mtu).packets|
    ensures |OnWire(first, opcode, nonHeader, Transfer(q, mtu), i)| <= mtu + 3 + if i == 0 then |nonHeader| else 0
  {
    TransferBounded(q, mtu);
    assert Transfer(q, mtu).packets[i] in Transfer(q, mtu).packets;
    WireLength(first, opcode, nonHeader, Transfer(q, mtu), i);
  }

  /** A path change that is too long: at an MTU of 10 a header of six bytes fills the room, the
      body comes last, there is none, and the two bytes of non-header data are not counted. */
  lemma NonHeaderDataOverflows(first: Byte)
    ensures var q := [Element(0x01, [0x01, 0, 6, 0, 97, 0], false)];
            && Sendable(q, 10) && BodyLast(q) && !Oversized(q, 10) && Exceeds(q, 10, 2)
            && |OnWire(first, SETPATH, [0, 0], Transfer(q, 10), 0)| == 12
  {
    var h := [0x01, 0, 6, 0, 97, 0];
    var q := [Element(0x01, h, false)];
    assert q[1..] == [];
    Decode2(h[1..3]);
    assert h[1..3] == [0, 6];
    assert Fill(q, 6, 10) == Filled([h] + [], []);
    FlattenCons(h, []);
    WireLength(first, SETPATH, [0, 0], Transfer(q, 10), 0);
  }

  /** End to end: headers of any kinds and a body of any length, sent in as many packets as they
      need and received by the parse loop, come back with the same ids and values in the same
      order, provided the body is not stranded; and every packet on the wire fits the MTU exactly
      if the queue and the non-header data do not exceed it. */
  lemma TransferReadsBack(
    items: seq<(Byte, Value)>, mtu: nat, stale: nat -> Byte, first: Byte, opcode: Byte, nonHeader: seq<Byte>)
    requires Acceptable(items, mtu)
    ensures Sendable(QueueOf(items), mtu)
    ensures !Strands(QueueOf(items), mtu) ==>
              var run := Transfer(QueueOf(items), mtu);
              var ps := run.packets;
              && (forall p :: p in ps ==> |Flatten(p)| <= MAX_MESSAGE)
              && ((forall i :: 0 <= i < |ps| ==> |OnWire(first, opcode, nonHeader, run, i)| <= mtu)
                  <==> !Exceeds(QueueOf(items), mtu, |nonHeader|))
              && var r := Feed(Rx([], None, 0), ps, stale);
                 r.Parsed? && |r.rx.headers| == |items| && ReadsAs(r.rx.headers, 0, items)
    ensures BodyLast(QueueOf(items)) ==> !Oversized(QueueOf(items), mtu)
  {
    AcceptableIsSendable(items, mtu);
    var q := QueueOf(items);
    TransferWrapsIff(q, mtu);
    WireExceedsIff(q, mtu, first, opcode, nonHeader);
    if !Strands(q, mtu) {
      TransferDelivers(q, mtu, Rx([], None, 0), stale);
      DeliveredReadsBack(items, mtu, Rx([], None, 0));
    }
  }

  // ----- the session and its objects

  class Session {
    const mtuTx: nat
    var seqNum: Byte
    var version: Byte
    var locale: Byte

    constructor (mtu: nat)
      ensures mtuTx == mtu && seqNum == 0 && version == 0x11 && locale == 0
    {
      mtuTx := mtu;
      seqNum, version, locale := 0, 0x11, 0;
    }

    /** obex_set_connect_info. */
    method SetConnectInfo(ver: Byte, loc: Byte)
      modifies `version, `locale
      ensures version == ver && locale == loc
    {
      version, locale := ver, loc;
    }
  }

  /** The non-header data of a connect: version, flags, the MTU for receiving, two bytes of unknown
      meaning and the locale. */
  function ConnectData(version: Byte, locale: Byte): seq<Byte> {
    [version, 0x40] + Encode16(DEFAULT_MTU) + [0x40, 0x00, locale]
  }

  /** The seven bytes of a connect: version, flags, an MTU of 4096, two bytes more, locale. */
  lemma ConnectBytes(version: Byte, locale: Byte)
    ensures ConnectData(version, locale) == [version, 0x40, 0x10, 0x00, 0x40, 0x00, locale]
  {
  }

  function Next(seqNum: Byte): Byte {
    if seqNum == 255 then 0 else seqNum + 1
  }

  /** The number of the n-th packet after the one numbered `first`. */
  function Numbered(first: Byte, n: nat): Byte {
    ((first as int + n) % 256) as Byte
  }

  lemma NumbersCount(first: Byte, n: nat)
    ensures Numbered(first, 0) == first && Next(Numbered(first, n)) == Numbered(first, n + 1)
  {
  }

  /** What the loop has put in so far, followed by what it will still put in. */
  function PrependAll(hs: seq<seq<Byte>>, r: FillResult): FillResult {
    match r
    case Filled(more, rest) => Filled(hs + more, rest)
    case _ => r
  }

  lemma PrependAllSnoc(hs: seq<seq<Byte>>, h: seq<Byte>, r: FillResult)
    ensures PrependAll(hs, Prepend(h, r)) == PrependAll(hs + [h], r)
  {
    if r.Filled? {
      assert hs + ([h] + r.headers) == (hs + [h]) + r.headers;
    }
  }

  lemma {:induction false} FlattenSnoc(hs: seq<seq<Byte>>, h: seq<Byte>)
    ensures Flatten(hs + [h]) == Flatten(hs) + h
    decreases |hs|
  {
    if hs == [] {
      assert [h][1..] == [];
    } else {
      FlattenSnoc(hs[1..], h);
      assert (hs + [h])[1..] == hs[1..] + [h];
    }
  }

  /** One answer of the device: the byte it acknowledges a packet with, if any, then its response
      code, the headers of its message, and what the receive buffer holds behind them. */
  datatype Turn = Turn(ack: Option<Byte>, rsp: Byte, msg: seq<Byte>, stale: nat -> Byte)

  const CONTINUE: int := 0x10

  /** The limit for a header that must share one packet with everything queued before it; the
      subtraction wraps at 32 bits. */
  function FlaggedLimit(mtu: nat, queued: nat): nat
    requires mtu >= COMMON_HDR
  {
    (mtu + WORD - queued % WORD - COMMON_HDR) % WORD
  }

  /** The flag keeps its promise exactly while the queued headers fit one packet; once they do not
      (an unflagged body may be of any length), it lets every header through. */
  lemma FlagKeepsOnePacketIff(mtu: nat, queued: nat, n: nat)
    requires COMMON_HDR <= mtu <= MAX_MESSAGE && queued < 0x8000_0000 && 1 <= n < 0x8000_0000
    ensures (n <= FlaggedLimit(mtu, queued) <==> queued + n + COMMON_HDR <= mtu) <==> queued + COMMON_HDR <= mtu
    ensures queued + COMMON_HDR > mtu ==> n <= FlaggedLimit(mtu, queued)
  {
  }

  /** A body of two hundred bytes queued at an MTU of 100, and the flag lets through four gigabytes. */
  lemma FlagLetsThrough()
    ensures FlaggedLimit(100, 203) == WORD - 107
  {
  }

  class Object {
    const opcode: Byte
    var txHeaders: seq<Element>
    var txNonHeader: Option<seq<Byte>>
    var totalLength: nat
    var rxHeaders: seq<Received>
    var rxRead: seq<Received>
    var rxBody: Option<seq<Byte>>
    var hintedBodyLength: nat

    /** obex_object_new. */
    constructor (s: Session, command: Byte)
      ensures opcode == command && txHeaders == [] && totalLength == 0
      ensures txNonHeader == if command == CONNECT then Some(ConnectData(s.version, s.locale)) else None
      ensures RxState() == Rx([], None, 0) && rxRead == []
    {
      opcode := command;
      txHeaders, totalLength := [], 0;
      txNonHeader := if command == CONNECT then Some(ConnectData(s.version, s.locale)) else None;
      rxHeaders, rxRead, rxBody, hintedBodyLength := [], [], None, 0;
    }

    /** The non-header data the next packet will begin with. */
    function NonHeader(): seq<Byte>
      reads `txNonHeader
    {
      if txNonHeader.Some? then txNonHeader.value else []
    }

    /** obex_object_set_nonhdr_data: data of any length, once. */
    method SetNonHeaderData(data: seq<Byte>) returns (accepted: bool)
      modifies `txNonHeader
      ensures accepted <==> old(txNonHeader) == None
      ensures txNonHeader == if accepted then Some(data) else old(txNonHeader)
    {
      if txNonHeader.Some? {
        return false;
      }
      txNonHeader := Some(data);
      return true;
    }

    function RxState(): Rx
      reads this
    {
      Rx(rxHeaders, rxBody, hintedBodyLength)
    }

    /** The limit obex_object_addheader puts on a header. */
    function MaxLength(s: Session, fitOnePacket: bool): nat
      requires s.mtuTx >= COMMON_HDR
      reads this
    {
      if fitOnePacket then FlaggedLimit(s.mtuTx, totalLength) else s.mtuTx - COMMON_HDR
    }

    /** obex_object_addheader. */
    method AddHeader(s: Session, hi: Byte, v: Value, fitOnePacket: bool) returns (accepted: bool)
      requires s.mtuTx >= COMMON_HDR && ValueFits(hi, v) && (v.Bs? ==> |v.bytes| < WORD)
      modifies `txHeaders, `totalLength
      ensures var n := |Encode(hi, v)| % WORD;
              accepted <==>
              || hi == EMPTY
              || (1 <= n < 0x8000_0000 && ((hi == BODY && !fitOnePacket) || n <= old(MaxLength(s, fitOnePacket))))
      ensures !accepted ==> unchanged(this)
      ensures accepted && hi != EMPTY ==>
                var e := Encode(hi, v);
                && txHeaders == old(txHeaders) + [Element(hi, if hi == BODY then e else e[..|e| % WORD], false)]
                && totalLength == old(totalLength) + |e| % WORD
      ensures accepted && hi == EMPTY ==>
                txHeaders == old(txHeaders) + [Element(EMPTY, [], false)] && totalLength == old(totalLength)
    {
      var maxLength := MaxLength(s, fitOnePacket);
      if hi == EMPTY {
        txHeaders := txHeaders + [Element(EMPTY, [], false)];
        return true;
      }
      var data := Encode(hi, v);
      var length := |data| % WORD;
      var ret := if length < 0x8000_0000 then length else length - WORD;
      if hi != BODY || fitOnePacket {
        if maxLength < length {
          ret := -1;
        }
      }
      if ret > 0 {
        totalLength := totalLength + ret;
        // Only so many bytes of a plain header are ever sent; a body is sent whole.
        txHeaders := txHeaders + [Element(hi, if hi == BODY then data else data[..length], false)];
        return true;
      }
      return false;
    }

    /** send_body: the next chunk of the body at the head of the queue; not ok where the length of
        the chunk would wrap below zero. */
    method SendBody(left: nat) returns (ok: bool, chunk: seq<Byte>, used: nat)
      requires txHeaders != [] && txHeaders[0].hi == BODY
      modifies `txHeaders
      ensures ok <==> left >= 3
      ensures !ok ==> unchanged(this)
      ensures ok ==>
                var body := BodyOf(old(txHeaders[0]));
                if left < |body| + 3
                then chunk == Chunk(BODY, body[..left - 3]) && used == left
                     && txHeaders == [Element(BODY, body[left - 3..], true)] + old(txHeaders[1..])
                else chunk == Chunk(BODY_END, body) && used == |body| && txHeaders == old(txHeaders[1..])
    {
      var body := BodyOf(txHeaders[0]);
      if left < |body| + 3 {
        if left < 3 {
          return false, [], 0;
        }
        chunk := [BODY] + Encode16(left) + body[..left - 3];
        txHeaders := [Element(BODY, body[left - 3..], true)] + txHeaders[1..];
        used := left;
      } else {
        chunk := [BODY_END] + Encode16(|body| + 3) + body;
        txHeaders := txHeaders[1..];
        used := |body|;
      }
      ok := true;
    }

    /** The packet-filling loop of obex_object_send. `rows` are the headers put in. */
    method FillPacket(mtu: nat) returns (status: Status, payload: seq<Byte>, ghost rows: seq<seq<Byte>>)
      requires mtu > COMMON_HDR
      modifies `txHeaders
      ensures var r := Fill(old(txHeaders), mtu - COMMON_HDR, mtu);
              && txHeaders == r.rest
              && match r
                 case TooBig(_) => status == Failed
                 case Wrapped(_) => status == Stranded
                 case Filled(hs, _) => status == More && rows == hs && payload == Flatten(hs)
    {
      hide Chunk, BodyOf;
      ghost var q0 := txHeaders;
      var left := mtu - COMMON_HDR;
      payload, rows := [], [];
      var addMore := true;
      while addMore && txHeaders != []
        invariant payload == Flatten(rows)
        invariant addMore ==> left > 0
        invariant Fill(q0, mtu - COMMON_HDR, mtu)
                  == PrependAll(rows, if addMore then Fill(txHeaders, left, mtu) else Filled([], txHeaders))
        decreases |txHeaders|, addMore
      {
        var h := txHeaders[0];
        ghost var q := txHeaders;
        if h.hi == BODY {
          var ok, chunk, used := SendBody(left);
          if !ok {
            return Stranded, [], [];
          }
          FlattenSnoc(rows, chunk);
          PrependAllSnoc(rows, chunk, Fill(txHeaders, left - used, mtu));
          payload, rows := payload + chunk, rows + [chunk];
          left := left - used;
        } else if h.hi == EMPTY {
          txHeaders := txHeaders[1..];
        } else if |h.data| <= left {
          FlattenSnoc(rows, h.data);
          PrependAllSnoc(rows, h.data, Fill(q[1..], left - |h.data|, mtu));
          payload, rows := payload + h.data, rows + [h.data];
          left := left - |h.data|;
          txHeaders := txHeaders[1..];
        } else if |h.data| > mtu {
          return Failed, [], [];
        } else {
          addMore := false;
        }
        if left == 0 {
          addMore := false;
        }
      }
      return More, payload, rows;
    }

    /** obex_object_send. `rows` are the headers the packet carries. */
    method Send(s: Session, ack: Option<Byte>) returns (status: Status, packet: seq<Byte>, ghost rows: seq<seq<Byte>>)
      requires s.mtuTx > COMMON_HDR
      modifies `txHeaders, `txNonHeader, s`seqNum
      ensures var r := Fill(old(txHeaders), s.mtuTx - COMMON_HDR, s.mtuTx);
              && txHeaders == r.rest && txNonHeader == None
              && (r.TooBig? ==> status == Failed && packet == [] && s.seqNum == old(s.seqNum))
              && (r.Wrapped? ==> status == Stranded && packet == [] && s.seqNum == old(s.seqNum))
              && (r.Filled? ==>
                    && rows == r.headers && s.seqNum == Next(old(s.seqNum))
                    && packet == Packet(old(s.seqNum), opcode, r.rest == [], old(NonHeader()) + Flatten(rows))
                    && IsPacket(packet, old(s.seqNum), opcode, r.rest == [], old(NonHeader()) + Flatten(rows))
                    && status == if ack != Some(old(s.seqNum)) then Failed else if r.rest == [] then Finished else More)
    {
      var txmsg := NonHeader();
      txNonHeader := None;
      packet := [];
      var payload;
      status, payload, rows := FillPacket(s.mtuTx);
      if status != More {
        return;
      }
      txmsg := txmsg + payload;
      packet := Packet(s.seqNum, opcode, txHeaders == [], txmsg);
      PacketIsPacket(s.seqNum, opcode, txHeaders == [], txmsg);
      var sent := s.seqNum;
      s.seqNum := Next(s.seqNum);
      status := if ack != Some(sent) then Failed else if txHeaders == [] then Finished else More;
    }

    /** The header loop of obex_object_receive on a message whose response header is gone; -1 when
        a header is malformed, else the response code without its final bit. */
    method Receive(rsp: Byte, message: seq<Byte>, stale: nat -> Byte) returns (code: int)
      requires |message| <= MAX_MESSAGE
      modifies `rxHeaders, `rxBody, `hintedBodyLength
      ensures RxState() == Parse(message, stale, old(RxState())).rx
      ensures code == if Parse(message, stale, old(RxState())).Malformed? then -1 else rsp as int % FINAL
    {
      var msg := message;
      while msg != []
        invariant |msg| <= MAX_MESSAGE
        invariant Parse(message, stale, old(RxState())) == Parse(msg, stale, RxState())
        decreases |msg|
      {
        RoundConsumes(msg, stale);
        var hi := msg[0];
        var headerLength := HeaderLength(msg, stale);
        var n := ValueLength(msg, stale);
        if n > |msg| {
          return -1;
        }
        if hi == BODY || hi == BODY_END {
          ReceiveBody(hi, Peek(msg, stale, 3, n));
        } else {
          var source := Peek(msg, stale, if HasLength(hi) then 3 else 1, n);
          if hi == LENGTH {
            hintedBodyLength := Decode(source);
          }
          rxHeaders := rxHeaders + [Received(hi, source)];
        }
        msg := msg[Min(headerLength, |msg|)..];
      }
      return rsp as int % FINAL;
    }

    /** obex_object_receive_body for a chunk that passed its size check. */
    method ReceiveBody(hi: Byte, chunk: seq<Byte>)
      modifies `rxHeaders, `rxBody
      ensures RxState() == AcceptBody(old(RxState()), hi, chunk)
    {
      var body := [];
      if rxBody.Some? {
        body := rxBody.value;
      }
      body := body + chunk;
      if hi == BODY_END {
        rxHeaders := rxHeaders + [Received(BODY, body)];
        rxBody := None;
      } else {
        rxBody := Some(body);
      }
    }

    /** obex_object_getnextheader: the oldest unread header, which moves to the read list. */
    method GetNextHeader() returns (r: Option<(Byte, Value)>)
      requires AllReadable(rxHeaders)
      modifies `rxHeaders, `rxRead
      ensures r.None? <==> old(rxHeaders) == []
      ensures r.None? ==> unchanged(this)
      ensures r.Some? ==>
                && r.value == ReadBack(old(rxHeaders[0]))
                && rxHeaders == old(rxHeaders[1..]) && rxRead == old(rxRead) + [old(rxHeaders[0])]
      ensures AllReadable(rxHeaders)
    {
      if rxHeaders == [] {
        return None;
      }
      var h := rxHeaders[0];
      rxHeaders := rxHeaders[1..];
      rxRead := rxRead + [h];
      return Some(ReadBack(h));
    }

    /** obex_request: send and receive for as long as the device answers CONTINUE. Whatever the
        device answers, the packets sent are those of the transfer on the wire, in order, and empty
        ones once everything has been sent. It is stranded where the transfer is, and nowhere else. */
    method Request(s: Session, script: seq<Turn>) returns (code: int, stranded: bool, sent: seq<seq<Byte>>)
      requires Sendable(txHeaders, s.mtuTx)
      requires forall i :: 0 <= i < |script| ==> |script[i].msg| <= MAX_MESSAGE
      modifies this, s
      ensures forall i :: 0 <= i < |sent| ==>
                sent[i] == OnWire(old(s.seqNum), opcode, old(NonHeader()), old(Transfer(txHeaders, s.mtuTx)), i)
      ensures stranded ==>
                old(Strands(txHeaders, s.mtuTx)) && |sent| == |old(Transfer(txHeaders, s.mtuTx).packets)|
      ensures old(Strands(txHeaders, s.mtuTx)) ==> |sent| <= |old(Transfer(txHeaders, s.mtuTx).packets)|
      ensures !stranded ==> (code, |sent|) == Dialogue(old(s.seqNum), old(RxState()), script)
    {
      hide Sendable, Transfer, Upcoming, Parse, Fill, Strands, Packet, OnWire, Flatten, Numbered, Next, Dialogue;
      var i := 0;
      assert script[0..] == script;
      sent, stranded := [], false;
      ghost var q0, mtu, run, first, data := txHeaders, s.mtuTx, Transfer(txHeaders, s.mtuTx), s.seqNum, NonHeader();
      TransferWrapsIff(q0, mtu);
      UpcomingStart(q0, mtu);
      NumbersCount(first, 0);
      while i < |script|
        invariant 0 <= i <= |script| && |sent| == i && s.mtuTx == mtu
        invariant s.seqNum == Numbered(first, i) && NonHeader() == if i == 0 then data else []
        invariant Sendable(txHeaders, mtu) && Upcoming(q0, mtu, txHeaders, i)
        invariant forall k :: 0 <= k < i ==> sent[k] == OnWire(first, opcode, data, run, k)
        invariant var d := Dialogue(s.seqNum, RxState(), script[i..]);
                  Dialogue(first, old(RxState()), script) == (d.0, i + d.1)
      {
        assert script[i..][0] == script[i] && script[i..][1..] == script[i + 1..];
        UpcomingStep(q0, mtu, txHeaders, i);
        DialogueStep(s.seqNum, RxState(), script[i..]);
        var status, packet;
        ghost var rows;
        status, packet, rows := Send(s, script[i].ack);
        if status == Stranded {
          return -1, true, sent;
        }
        NextOnWire(first, opcode, data, run, i, rows);
        NumbersCount(first, i);
        sent := sent + [packet];
        UpcomingEnds(q0, mtu, txHeaders, i + 1);
        if status == Failed {
          return -1, false, sent;
        }
        code := Receive(script[i].rsp, script[i].msg, script[i].stale);
        if code != CONTINUE {
          return;
        }
        i := i + 1;
      }
      UpcomingEnds(q0, mtu, txHeaders, i);
      assert script[i..] == [];
      DialogueEnds(s.seqNum, RxState());
      code := -1;
    }
  }

  /** What obex_request returns and how many packets it sends: it stops at a missing or misnumbered
      acknowledgement, at a malformed message, and at any answer other than CONTINUE. */
  function Dialogue(seqNum: Byte, rx: Rx, script: seq<Turn>): (int, nat)
    requires forall i :: 0 <= i < |script| ==> |script[i].msg| <= MAX_MESSAGE
    decreases |script|
  {
    if script == [] then (-1, 0)
    else if script[0].ack != Some(seqNum) then (-1, 1)
    else
      var r := Parse(script[0].msg, script[0].stale, rx);
      var code := if r.Malformed? then -1 else script[0].rsp as int % FINAL;
      if code != CONTINUE then (code, 1)
      else
        var d := Dialogue(Next(seqNum), r.rx, script[1..]);
        (d.0, d.1 + 1)
  }

  /** Turn i acknowledges the packet numbered seqNum + i. */
  predicate Acknowledges(turn: Turn, seqNum: Byte, i: nat) {
    turn.ack.Some? && turn.ack.value as int == (seqNum as int + i) % 256
  }

  /** Where a dialogue stops: every answer before the last acknowledges its packet and says continue
      (0x10); the last does not acknowledge, or has another code, which is the result unless its
      message is malformed, or there is no more. */
  lemma {:induction false} DialogueStops(seqNum: Byte, rx: Rx, script: seq<Turn>)
    requires forall i :: 0 <= i < |script| ==> |script[i].msg| <= MAX_MESSAGE
    ensures var (code, n) := Dialogue(seqNum, rx, script);
            && n <= |script| && (script != [] ==> n > 0)
            && (forall i :: 0 <= i < n - 1 ==> Acknowledges(script[i], seqNum, i) && script[i].rsp as int % 128 == 16)
            && (n > 0 && !Acknowledges(script[n - 1], seqNum, n - 1) ==> code == -1)
            && (n > 0 && Acknowledges(script[n - 1], seqNum, n - 1) && script[n - 1].rsp as int % 128 != 16 ==>
                  code == -1 || code == script[n - 1].rsp as int % 128)
            && (n > 0 && script[n - 1].rsp as int % 128 == 16 ==> code == -1)
    decreases |script|
  {
    hide Parse;
    if script != [] {
      var r, next, rest := Parse(script[0].msg, script[0].stale, rx), Next(seqNum), script[1..];
      DialogueStops(next, r.rx, rest);
      forall i | 0 <= i < |rest|
        ensures Acknowledges(rest[i], next, i) <==> Acknowledges(script[i + 1], seqNum, i + 1)
        ensures rest[i] == script[i + 1]
      {
        NextWraps(seqNum, i);
      }
      FirstAcknowledges(script[0], seqNum);
      hide Acknowledges, Next;
    }
  }

  lemma FirstAcknowledges(turn: Turn, seqNum: Byte)
    ensures Acknowledges(turn, seqNum, 0) <==> turn.ack == Some(seqNum)
  {
  }

  lemma NextWraps(seqNum: Byte, i: nat)
    ensures (Next(seqNum) as int + i) % 256 == (seqNum as int + i + 1) % 256
  {
  }

  /** A single answer: its code, if it acknowledges and its message can be parsed. */
  lemma DialogueOfOne(seqNum: Byte, rx: Rx, turn: Turn)
    requires |turn.msg| <= MAX_MESSAGE && turn.ack == Some(seqNum) && turn.rsp as int % 128 != 16
    ensures Dialogue(seqNum, rx, [turn])
            == (if Parse(turn.msg, turn.stale, rx).Malformed? then -1 else turn.rsp as int % 128, 1)
  {
    hide Parse;
  }

  lemma DialogueStep(seqNum: Byte, rx: Rx, script: seq<Turn>)
    requires script != [] && forall i :: 0 <= i < |script| ==> |script[i].msg| <= MAX_MESSAGE
    ensures var turn, r := script[0], Parse(script[0].msg, script[0].stale, rx);
            var code := if r.Malformed? then -1 else turn.rsp as int % FINAL;
            var d := Dialogue(Next(seqNum), r.rx, script[1..]);
            Dialogue(seqNum, rx, script)
            == if turn.ack != Some(seqNum) then (-1, 1) else if code != CONTINUE then (code, 1) else (d.0, d.1 + 1)
  {
  }

  lemma DialogueEnds(seqNum: Byte, rx: Rx)
    ensures Dialogue(seqNum, rx, []) == (-1, 0)
  {
  }

  /** With n packets out and q still queued: the transfer's packets from n on are those to come. */
  ghost predicate Upcoming(q0: seq<Element>, mtu: nat, q: seq<Element>, n: nat)
    requires Sendable(q0, mtu) && Sendable(q, mtu)
  {
    var all, later := Transfer(q0, mtu), Transfer(q, mtu);
    || (n <= |all.packets| && all.packets[n..] == later.packets && all.wrapped == later.wrapped)
    || (q == [] && !all.wrapped && |all.packets| <= n)
  }

  lemma UpcomingStart(q0: seq<Element>, mtu: nat)
    requires Sendable(q0, mtu)
    ensures mtu > COMMON_HDR && Upcoming(q0, mtu, q0, 0)
  {
  }

  lemma UpcomingEnds(q0: seq<Element>, mtu: nat, q: seq<Element>, n: nat)
    requires Sendable(q0, mtu) && Sendable(q, mtu) && Upcoming(q0, mtu, q, n)
    ensures Transfer(q0, mtu).wrapped ==> n <= |Transfer(q0, mtu).packets|
  {
  }

  /** A packet that carries the next headers of a transfer is the next one on the wire. */
  lemma NextOnWire(first: Byte, opcode: Byte, nonHeader: seq<Byte>, run: Run, n: nat, rows: seq<seq<Byte>>)
    requires rows == if n < |run.packets| then run.packets[n] else []
    ensures OnWire(first, opcode, nonHeader, run, n)
            == Packet(Numbered(first, n), opcode, n + 1 >= |run.packets| && !run.wrapped,
                 (if n == 0 then nonHeader else []) + Flatten(rows))
  {
  }

  /** Sending the next packet: either the transfer is stranded here, or one more packet is out. */
  lemma UpcomingStep(q0: seq<Element>, mtu: nat, q: seq<Element>, n: nat)
    requires Sendable(q0, mtu) && Sendable(q, mtu) && Upcoming(q0, mtu, q, n)
    ensures var r, all := Fill(q, mtu - COMMON_HDR, mtu), Transfer(q0, mtu);
            && !r.TooBig?
            && (r.Wrapped? ==> all.wrapped && n == |all.packets|)
            && (r.Filled? ==>
                  && Sendable(r.rest, mtu) && Upcoming(q0, mtu, r.rest, n + 1)
                  && (r.rest == [] <==> n + 1 >= |all.packets| && !all.wrapped)
                  && r.headers == if n < |all.packets| then all.packets[n] else [])
  {
    hide Sendable, Fill, Transfer;
    TransferStep(q, mtu);
    var r, all := Fill(q, mtu - COMMON_HDR, mtu), Transfer(q0, mtu);
    if q == [] {
      NothingFills(mtu);
    }
    if r.Filled? {
      if r.rest != [] {
        TransferStep(r.rest, mtu);
      }
      if n < |all.packets| {
        assert all.packets[n + 1..] == all.packets[n..][1..];
      }
    }
  }

  lemma NothingFills(mtu: nat)
    requires mtu >= COMMON_HDR
    ensures Fill([], mtu - COMMON_HDR, mtu) == Filled([], [])
  {
  }
}
