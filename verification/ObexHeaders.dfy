/** OBEX headers on the wire (IrOBEX 1.2, section 2.1): how obex.c encodes them, and how its
    receive loop takes them apart again. */
module ObexHeaders {
  import opened Bytes
  import opened Wrappers

  const EMPTY: Byte := 0x00
  const BODY: Byte := 0x48
  const BODY_END: Byte := 0x49
  const LENGTH: Byte := 0xc3
  const WORD: nat := 0x1_0000_0000

  /** The two high bits of a header id tell how its value is encoded. */
  datatype Kind = Unicode | ByteString | Uint8 | Uint32

  function KindOf(hi: Byte): Kind {
    if hi < 0x40 then Unicode else if hi < 0x80 then ByteString else if hi < 0xc0 then Uint8 else Uint32
  }

  predicate HasLength(hi: Byte) { KindOf(hi).Unicode? || KindOf(hi).ByteString? }

  /** A header value as the application passes it in and gets it back. */
  datatype Value = Bq4(word: nat) | Bq1(byte: Byte) | Bs(bytes: seq<Byte>)

  predicate ValueFits(hi: Byte, v: Value) {
    match KindOf(hi)
    case Uint32 => v.Bq4? && v.word < WORD
    case Uint8 => v.Bq1?
    case _ => v.Bs?
  }

  /** The bytes obex_object_addheader builds. */
  function Encode(hi: Byte, v: Value): seq<Byte>
    requires ValueFits(hi, v)
  {
    match v
    case Bq4(w) => [hi] + Encode32(w)
    case Bq1(b) => [hi, b]
    case Bs(bs) => [hi] + Encode16(|bs| + 3) + bs
  }

  /** One complete encoded header. */
  predicate IsHeader(h: seq<Byte>) {
    && |h| >= 2
    && match KindOf(h[0])
       case Uint32 => |h| == 5
       case Uint8 => |h| == 2
       case _ => 3 <= |h| < 0x1_0000 && Decode(h[1..3]) == |h|
  }

  /** The bytes of a header behind its id and length. */
  function Payload(h: seq<Byte>): seq<Byte>
    requires IsHeader(h)
  {
    if HasLength(h[0]) then h[3..] else h[1..]
  }

  // ----- the receive side

  datatype Received = Received(hi: Byte, data: seq<Byte>)

  /** What the receive loop has gathered: finished headers, a body in progress, and the hint. */
  datatype Rx = Rx(headers: seq<Received>, body: Option<seq<Byte>>, hint: nat)

  datatype ParseResult = Parsed(rx: Rx) | Malformed(rx: Rx)

  /** n bytes of the receive buffer from offset `at`: bytes of the message, and behind its end
      whatever the buffer still holds. */
  function Peek(msg: seq<Byte>, stale: nat -> Byte, at: nat, n: nat): (bs: seq<Byte>)
    ensures |bs| == n
    ensures at + n <= |msg| ==> bs == msg[at..at + n]
  {
    seq(n, i requires 0 <= i < n => if at + i < |msg| then msg[at + i] else stale(at + i - |msg|))
  }

  /** obex_object_receive_body for a chunk that passed its size check. */
  function AcceptBody(rx: Rx, hi: Byte, chunk: seq<Byte>): Rx {
    var body := (if rx.body.Some? then rx.body.value else []) + chunk;
    if hi == BODY_END then rx.(headers := rx.headers + [Received(BODY, body)], body := None)
    else rx.(body := Some(body))
  }

  function AcceptPlain(rx: Rx, hi: Byte, data: seq<Byte>): Rx {
    rx.(headers := rx.headers + [Received(hi, data)], hint := if hi == LENGTH then Decode(data) else rx.hint)
  }

  /** The length of a header as the loop computes it, and the length of its value; the
      subtraction wraps at 32 bits. */
  function HeaderLength(msg: seq<Byte>, stale: nat -> Byte): nat
    requires msg != []
  {
    match KindOf(msg[0])
    case Uint32 => 5
    case Uint8 => 2
    case _ => Decode(Peek(msg, stale, 1, 2))
  }

  function ValueLength(msg: seq<Byte>, stale: nat -> Byte): nat
    requires msg != []
  {
    if HasLength(msg[0]) then (HeaderLength(msg, stale) + WORD - 3) % WORD else HeaderLength(msg, stale) - 1
  }

  /** One round of the receive loop: the value is bounded by the message, not the whole header. */
  predicate RoundFails(msg: seq<Byte>, stale: nat -> Byte)
    requires msg != []
  {
    ValueLength(msg, stale) > |msg|
  }

  function Round(msg: seq<Byte>, stale: nat -> Byte, rx: Rx): Rx
    requires msg != [] && !RoundFails(msg, stale)
  {
    var hi := msg[0];
    var n := ValueLength(msg, stale);
    if hi == BODY || hi == BODY_END then AcceptBody(rx, hi, Peek(msg, stale, 3, n))
    else AcceptPlain(rx, hi, Peek(msg, stale, if HasLength(hi) then 3 else 1, n))
  }

  /** The 16-bit length field of a message bounds it. */
  const MAX_MESSAGE: nat := 0xffff

  /** The receive loop: it ends on every byte string, since a round that does not fail consumes
      at least two bytes or all that is left. */
  function Parse(msg: seq<Byte>, stale: nat -> Byte, rx: Rx): ParseResult
    requires |msg| <= MAX_MESSAGE
    decreases |msg|
  {
    if msg == [] then Parsed(rx)
    else if RoundFails(msg, stale) then Malformed(rx)
    else
      RoundConsumes(msg, stale);
      Parse(msg[Min(HeaderLength(msg, stale), |msg|)..], stale, Round(msg, stale, rx))
  }

  lemma DecodeBound(bs: seq<Byte>)
    requires |bs| == 2
    ensures Decode(bs) < 0x1_0000
  {
    Decode2(bs);
  }

  /** A round fails when the length field is below 3 or the value is longer than the message, a
      one-byte value never and a four-byte one in a message of at most three bytes; otherwise the
      round consumes at least two bytes or all that is left. */
  lemma RoundConsumes(msg: seq<Byte>, stale: nat -> Byte)
    requires 1 <= |msg| <= MAX_MESSAGE
    ensures HasLength(msg[0]) ==>
              (RoundFails(msg, stale) <==> HeaderLength(msg, stale) < 3 || HeaderLength(msg, stale) > |msg| + 3)
    ensures !HasLength(msg[0]) ==> (RoundFails(msg, stale) <==> KindOf(msg[0]).Uint32? && |msg| <= 3)
    ensures !RoundFails(msg, stale) ==> HeaderLength(msg, stale) >= 2
  {
    if HasLength(msg[0]) {
      DecodeBound(Peek(msg, stale, 1, 2));
    }
  }

  // ----- round trips

  /** Every header the encoder builds is complete, and decoding its payload gives the value back. */
  lemma EncodeIsHeader(hi: Byte, v: Value)
    requires ValueFits(hi, v) && (v.Bs? ==> |v.bytes| + 3 < 0x1_0000)
    ensures IsHeader(Encode(hi, v)) && Encode(hi, v)[0] == hi
    ensures Payload(Encode(hi, v)) == match v
                                      case Bq4(w) => Encode32(w)
                                      case Bq1(b) => [b]
                                      case Bs(bs) => bs
    ensures v.Bq4? ==> Decode(Payload(Encode(hi, v))) == v.word
  {
    match v
    case Bq4(w) => Encode32RoundTrip(w);
    case Bq1(b) =>
    case Bs(bs) =>
      Encode16RoundTrip(|bs| + 3);
      assert Encode(hi, v)[1..3] == Encode16(|bs| + 3);
  }

  /** Some headers, byte by byte (IrOBEX 1.2, section 2.1): a length of 258, a name of one character,
      a body of one byte, and a one-byte value. */
  lemma SomeHeaders()
    ensures Encode(0xc3, Bq4(258)) == [0xc3, 0, 0, 1, 2] && Encode(0x01, Bs([0, 97])) == [0x01, 0, 5, 0, 97]
    ensures Encode(0x48, Bs([7])) == [0x48, 0, 4, 7] && Encode(0x80, Bq1(7)) == [0x80, 7]
  {
  }

  function Accept(rx: Rx, h: seq<Byte>): Rx
    requires IsHeader(h)
  {
    if h[0] == BODY || h[0] == BODY_END then AcceptBody(rx, h[0], Payload(h)) else AcceptPlain(rx, h[0], Payload(h))
  }

  /** A complete header at the front of a message is taken off whole, whatever the receive buffer
      holds behind the message. */
  lemma ParseHeader(h: seq<Byte>, rest: seq<Byte>, stale: nat -> Byte, rx: Rx)
    requires IsHeader(h) && |h + rest| <= MAX_MESSAGE
    ensures Parse(h + rest, stale, rx) == Parse(rest, stale, Accept(rx, h))
  {
    var msg := h + rest;
    assert msg[0] == h[0];
    if HasLength(h[0]) {
      assert msg[1..3] == h[1..3];
    }
    assert HeaderLength(msg, stale) == |h|;
    assert ValueLength(msg, stale) == |Payload(h)|;
    assert Peek(msg, stale, if HasLength(h[0]) then 3 else 1, |Payload(h)|) == Payload(h);
    assert msg[Min(|h|, |msg|)..] == rest;
  }

  function Flatten(headers: seq<seq<Byte>>): seq<Byte> {
    if headers == [] then [] else headers[0] + Flatten(headers[1..])
  }

  /** What the receiver makes of a row of complete headers. */
  function AcceptAll(rx: Rx, headers: seq<seq<Byte>>): Rx
    requires forall h :: h in headers ==> IsHeader(h)
    decreases |headers|
  {
    if headers == [] then rx
    else
      assert headers[0] in headers;
      AcceptAll(Accept(rx, headers[0]), headers[1..])
  }

  /** The length hint is the value of the last length header (0xc3) received, if there was one. */
  lemma {:induction false} HintIsLength(rx: Rx, headers: seq<seq<Byte>>)
    requires forall h :: h in headers ==> IsHeader(h)
    ensures (forall h: seq<Byte> :: h in headers ==> h != [] && h[0] != 0xc3) ==> AcceptAll(rx, headers).hint == rx.hint
    ensures headers != [] && headers[|headers| - 1] != [] && headers[|headers| - 1][0] == 0xc3 ==>
              AcceptAll(rx, headers).hint == Decode(headers[|headers| - 1][1..])
    decreases |headers|
  {
    if headers != [] {
      var h, rest := headers[0], headers[1..];
      HintIsLength(Accept(rx, h), rest);
      assert rest != [] ==> rest[|rest| - 1] == headers[|headers| - 1];
      assert rest == [] ==> AcceptAll(rx, headers) == Accept(rx, h);
    }
  }

  /** Parsing the concatenation of complete headers accepts each of them once, in order. */
  lemma {:induction false} ParseFlatten(headers: seq<seq<Byte>>, stale: nat -> Byte, rx: Rx)
    requires forall h :: h in headers ==> IsHeader(h)
    requires |Flatten(headers)| <= MAX_MESSAGE
    ensures Parse(Flatten(headers), stale, rx) == Parsed(AcceptAll(rx, headers))
    decreases |headers|
  {
    if headers != [] {
      var h := headers[0];
      ParseHeader(h, Flatten(headers[1..]), stale, rx);
      ParseFlatten(headers[1..], stale, Accept(rx, h));
    }
  }

  // ----- what is read behind the end of a message

  /** The header at the front of a message lies in it whole. */
  predicate Held(msg: seq<Byte>)
    requires msg != []
  {
    match KindOf(msg[0])
    case Uint32 => |msg| >= 5
    case Uint8 => |msg| >= 2
    case _ => |msg| >= 3 && Decode(msg[1..3]) <= |msg|
  }

  /** The bytes that are there are enough for the size check to fail; a high length byte alone
      already asks for more than two bytes can be followed by. */
  predicate FailsAlone(msg: seq<Byte>)
    requires msg != []
  {
    match KindOf(msg[0])
    case Uint32 => |msg| <= 3
    case Uint8 => false
    case _ =>
      || (|msg| == 2 && msg[1] > 0)
      || (|msg| >= 3 && (Decode(msg[1..3]) < 3 || Decode(msg[1..3]) > |msg| + 3))
  }

  /** Every header the loop comes to lies in the message whole, up to one that fails on its own. */
  predicate StaysInside(msg: seq<Byte>)
    requires |msg| <= MAX_MESSAGE
    decreases |msg|
  {
    msg == [] || FailsAlone(msg)
    || (Held(msg) && (HeldLength(msg); StaysInside(msg[FrontLength(msg)..])))
  }

  /** The length of the header at the front of a message that holds it. */
  function FrontLength(msg: seq<Byte>): nat
    requires msg != [] && Held(msg)
  {
    match KindOf(msg[0])
    case Uint32 => 5
    case Uint8 => 2
    case _ => Decode(msg[1..3])
  }

  lemma HeldLength(msg: seq<Byte>)
    requires msg != [] && Held(msg) && !FailsAlone(msg)
    ensures 2 <= FrontLength(msg) <= |msg|
  {
  }

  lemma FrontValue(msg: seq<Byte>)
    requires msg != [] && Held(msg) && !FailsAlone(msg)
    ensures (if HasLength(msg[0]) then 3 else 1) <= FrontLength(msg) <= |msg|
  {
  }

  /** A round on a header held whole, or failing on its own, goes the same way whatever the buffer
      holds behind the message. */
  lemma SettledRound(msg: seq<Byte>, stale: nat -> Byte, rx: Rx)
    requires 1 <= |msg| <= MAX_MESSAGE && (Held(msg) || FailsAlone(msg))
    ensures RoundFails(msg, stale) <==> FailsAlone(msg)
    ensures !FailsAlone(msg) ==>
              var at := if HasLength(msg[0]) then 3 else 1;
              && FrontLength(msg) == HeaderLength(msg, stale) <= |msg|
              && Round(msg, stale, rx) == RoundOn(msg[0], msg[at..FrontLength(msg)], rx)
  {
    RoundConsumes(msg, stale);
    if HasLength(msg[0]) {
      Decode2(Peek(msg, stale, 1, 2));
      if |msg| >= 3 {
        assert Peek(msg, stale, 1, 2) == msg[1..3];
      }
    }
  }

  /** What a round makes of a value. */
  function RoundOn(hi: Byte, value: seq<Byte>, rx: Rx): Rx
  {
    if hi == BODY || hi == BODY_END then AcceptBody(rx, hi, value) else AcceptPlain(rx, hi, value)
  }

  lemma {:induction false} InsideIgnoresStale(msg: seq<Byte>, stale: nat -> Byte, stale': nat -> Byte, rx: Rx)
    requires |msg| <= MAX_MESSAGE && StaysInside(msg)
    ensures Parse(msg, stale, rx) == Parse(msg, stale', rx)
    decreases |msg|
  {
    hide Held, FailsAlone, FrontLength, Round, RoundFails, HeaderLength;
    if msg != [] {
      SettledRound(msg, stale, rx);
      SettledRound(msg, stale', rx);
      if !FailsAlone(msg) {
        HeldLength(msg);
        RoundConsumes(msg, stale);
        InsideIgnoresStale(msg[FrontLength(msg)..], stale, stale', Round(msg, stale, rx));
      }
    }
  }

  lemma ValuesShow(hi: Byte, a: seq<Byte>, b: seq<Byte>, rx: Rx)
    requires |a| == |b| > 0 && a[|a| - 1] != b[|b| - 1]
    ensures RoundOn(hi, a, rx) != RoundOn(hi, b, rx)
  {
    var sofar := if rx.body.Some? then rx.body.value else [];
    assert (sofar + a)[|sofar| + |a| - 1] != (sofar + b)[|sofar| + |b| - 1];
    var n := |rx.headers|;
    assert (rx.headers + [Received(hi, a)])[n] != (rx.headers + [Received(hi, b)])[n];
    assert (rx.headers + [Received(BODY, sofar + a)])[n] != (rx.headers + [Received(BODY, sofar + b)])[n];
  }

  /** A round that reaches past the end of the message is the last one. */
  lemma LastRound(msg: seq<Byte>, stale: nat -> Byte, rx: Rx)
    requires 1 <= |msg| <= MAX_MESSAGE && !RoundFails(msg, stale) && HeaderLength(msg, stale) >= |msg|
    ensures Parse(msg, stale, rx) == Parsed(Round(msg, stale, rx))
  {
    RoundConsumes(msg, stale);
    assert msg[Min(HeaderLength(msg, stale), |msg|)..] == [];
  }

  /** A length field that reaches past the end of the message: one filling makes it fail, another
      does not. */
  lemma LengthShowsStale(msg: seq<Byte>, rx: Rx) returns (stale: nat -> Byte, stale': nat -> Byte)
    requires 1 <= |msg| <= 2 && HasLength(msg[0]) && !FailsAlone(msg)
    ensures Parse(msg, stale, rx) != Parse(msg, stale', rx)
  {
    stale, stale' := (i: nat) => 0, (i: nat) => if i == 2 - |msg| then 3 else 0;
    Decode2(Peek(msg, stale, 1, 2));
    Decode2(Peek(msg, stale', 1, 2));
    assert HeaderLength(msg, stale) == 0 && HeaderLength(msg, stale') == 3;
    RoundConsumes(msg, stale);
    RoundConsumes(msg, stale');
    LastRound(msg, stale', rx);
  }

  /** A round on any other header depends on what lies behind the message: two fillings of the
      buffer tell. */
  lemma UnheldShowsStale(msg: seq<Byte>, rx: Rx) returns (stale: nat -> Byte, stale': nat -> Byte)
    requires 1 <= |msg| <= MAX_MESSAGE && !Held(msg) && !FailsAlone(msg)
    ensures Parse(msg, stale, rx) != Parse(msg, stale', rx)
  {
    if HasLength(msg[0]) && |msg| < 3 {
      stale, stale' := LengthShowsStale(msg, rx);
    } else {
      stale, stale' := (i: nat) => 0, (i: nat) => 1;
      if HasLength(msg[0]) {
        assert Peek(msg, stale, 1, 2) == msg[1..3] == Peek(msg, stale', 1, 2);
      }
      RoundConsumes(msg, stale);
      RoundConsumes(msg, stale');
      LastRound(msg, stale, rx);
      LastRound(msg, stale', rx);
      var at, n := if HasLength(msg[0]) then 3 else 1, ValueLength(msg, stale);
      ValuesShow(msg[0], Peek(msg, stale, at, n), Peek(msg, stale', at, n), rx);
    }
  }

  lemma {:induction false} OutsideShowsStale(msg: seq<Byte>, rx: Rx) returns (stale: nat -> Byte, stale': nat -> Byte)
    requires |msg| <= MAX_MESSAGE && !StaysInside(msg)
    ensures Parse(msg, stale, rx) != Parse(msg, stale', rx)
    decreases |msg|
  {
    hide Held, FailsAlone, FrontLength, Round, RoundFails, HeaderLength;
    if Held(msg) {
      HeldLength(msg);
      FrontValue(msg);
      var value := msg[if HasLength(msg[0]) then 3 else 1..FrontLength(msg)];
      stale, stale' := OutsideShowsStale(msg[FrontLength(msg)..], RoundOn(msg[0], value, rx));
      SettledRound(msg, stale, rx);
      SettledRound(msg, stale', rx);
      RoundConsumes(msg, stale);
    } else {
      stale, stale' := UnheldShowsStale(msg, rx);
    }
  }

  /** The parser's result depends on the message alone exactly if every header it comes to lies in
      the message whole, up to one that fails on its own. */
  lemma ParseIgnoresStaleIff(msg: seq<Byte>, rx: Rx)
    requires |msg| <= MAX_MESSAGE
    ensures (forall stale: nat -> Byte, stale': nat -> Byte :: Parse(msg, stale, rx) == Parse(msg, stale', rx))
            <==> StaysInside(msg)
  {
    if StaysInside(msg) {
      forall stale: nat -> Byte, stale': nat -> Byte ensures Parse(msg, stale, rx) == Parse(msg, stale', rx) {
        InsideIgnoresStale(msg, stale, stale', rx);
      }
    } else {
      var stale, stale' := OutsideShowsStale(msg, rx);
    }
  }

  /** A message that is read past its end: the size check looks at the value, not the header, so
      one cut short by a byte still yields a header, which ends with what lay behind the message. */
  lemma ShortMessageReadsStale(stale: nat -> Byte, rx: Rx)
    ensures !StaysInside([0x80])
    ensures Parse([0x80], stale, rx) == Parsed(rx.(headers := rx.headers + [Received(0x80, [stale(0)])]))
  {
    assert Peek([0x80], stale, 1, 1) == [stale(0)];
    assert RoundFails([0x80], stale) == false;
  }
}
