/** Splitting an object into packets (IrOBEX 1.2, section 3.3.3): which headers obex_object_send
    puts into each packet, how it cuts the body, and that the receiver gets everything back. */
module ObexTransfer {
  import opened Bytes
  import opened ObexHeaders

  const COMMON_HDR: nat := 4

  /** A queued header. Its data is the encoded header, except for a body that has been touched,
      which has lost its own header and everything already sent. */
  datatype Element = Element(hi: Byte, data: seq<Byte>, touched: bool)

  /** What is still to be sent of a body element. */
  function BodyOf(e: Element): seq<Byte> {
    if e.touched then e.data else e.data[Min(3, |e.data|)..]
  }

  function Chunk(hi: Byte, data: seq<Byte>): seq<Byte> {
    [hi] + Encode16(|data| + 3) + data
  }

  /** Outcome of filling one packet, with the queue left over: the headers put in; or a header no
      packet can hold; or a body reached with one or two bytes left, where the chunk length
      wraps below zero. */
  datatype FillResult =
    | Filled(headers: seq<seq<Byte>>, rest: seq<Element>)
    | TooBig(rest: seq<Element>)
    | Wrapped(rest: seq<Element>)

  function Prepend(h: seq<Byte>, r: FillResult): FillResult {
    match r
    case Filled(hs, rest) => Filled([h] + hs, rest)
    case _ => r
  }

  /** The packet-filling loop of obex_object_send, started with `left` bytes of room. */
  function Fill(q: seq<Element>, left: nat, mtu: nat): FillResult {
    if q == [] || left == 0 then Filled([], q)
    else
      var e := q[0];
      if e.hi == BODY then
        var body := BodyOf(e);
        if left < |body| + 3 then
          if left < 3 then Wrapped(q)
          else Filled([Chunk(BODY, body[..left - 3])], [Element(BODY, body[left - 3..], true)] + q[1..])
        else Prepend(Chunk(BODY_END, body), Fill(q[1..], left - |body|, mtu))
      else if e.hi == EMPTY then Fill(q[1..], left, mtu)
      else if |e.data| <= left then Prepend(e.data, Fill(q[1..], left - |e.data|, mtu))
      else if |e.data| > mtu then TooBig(q)
      else Filled([], q)
  }

  /** A queue an application can build: complete headers that fit a packet, dummies, and at most
      one body, anywhere. */
  predicate Sendable(q: seq<Element>, mtu: nat) {
    && 8 <= mtu <= MAX_MESSAGE
    && (forall i :: 0 <= i < |q| ==>
          if q[i].hi == BODY then q[i].touched || |q[i].data| >= 3
          else q[i].hi == EMPTY || IsPlain(q[i].data, q[i].hi, mtu))
    && (forall i, j :: 0 <= i < j < |q| && q[i].hi == BODY ==> q[j].hi != BODY)
  }

  predicate IsPlain(h: seq<Byte>, hi: Byte, mtu: nat) {
    IsHeader(h) && h[0] == hi && hi != BODY_END && |h| + COMMON_HDR <= mtu
  }

  /** Where the body stands in a queue, or the length of a queue without one. */
  function BodyAt(q: seq<Element>): (k: nat)
    ensures k <= |q| && (k < |q| ==> q[k].hi == BODY) && forall i :: 0 <= i < k ==> q[i].hi != BODY
  {
    if q == [] || q[0].hi == BODY then 0 else 1 + BodyAt(q[1..])
  }

  predicate HasBody(q: seq<Element>) { BodyAt(q) < |q| }

  /** No header stands behind a body. */
  predicate BodyLast(q: seq<Element>) { BodyAt(q) + 1 >= |q| }

  /** The room left when the body is reached, over as many packets as the headers before it need. */
  function Arrival(q: seq<Element>, left: nat, mtu: nat): nat
    requires mtu >= COMMON_HDR
  {
    if q == [] || q[0].hi == BODY then (if left == 0 then mtu - COMMON_HDR else left)
    else if q[0].hi == EMPTY then Arrival(q[1..], if left == 0 then mtu - COMMON_HDR else left, mtu)
    else if |q[0].data| <= left then Arrival(q[1..], left - |q[0].data|, mtu)
    else Arrival(q[1..], if |q[0].data| + COMMON_HDR <= mtu then mtu - COMMON_HDR - |q[0].data| else 0, mtu)
  }

  /** From a packet with `left` bytes of room, a body is reached with one or two bytes of room. */
  predicate StrandsFrom(q: seq<Element>, left: nat, mtu: nat)
    requires mtu >= COMMON_HDR
  {
    HasBody(q) && 1 <= Arrival(q, left, mtu) <= 2
  }

  predicate Strands(q: seq<Element>, mtu: nat)
    requires mtu >= COMMON_HDR
  {
    StrandsFrom(q, mtu - COMMON_HDR, mtu)
  }

  // ----- one packet

  ghost function Weight(q: seq<Element>): nat {
    if q == [] then 0 else 1 + |q[0].data| + Weight(q[1..])
  }

  lemma SendableTail(q: seq<Element>, mtu: nat)
    requires Sendable(q, mtu) && q != []
    ensures Sendable(q[1..], mtu) && (q[0].hi == BODY ==> !HasBody(q[1..]))
    ensures q[0].hi != BODY ==> BodyAt(q) == 1 + BodyAt(q[1..])
  {
    forall i | 0 <= i < |q[1..]| ensures q[1..][i] == q[i + 1] {}
  }

  /** A body that has been sent in part stays sendable. */
  lemma SendableRest(q: seq<Element>, mtu: nat, body: seq<Byte>)
    requires Sendable(q, mtu) && q != [] && q[0].hi == BODY
    ensures Sendable([Element(BODY, body, true)] + q[1..], mtu) && BodyAt([Element(BODY, body, true)] + q[1..]) == 0
  {
    var r := [Element(BODY, body, true)] + q[1..];
    forall i | 1 <= i < |r| ensures r[i] == q[i] {}
  }

  lemma ChunkAdvances(q: seq<Element>, left: nat, mtu: nat)
    requires Sendable(q, mtu) && q != [] && q[0].hi == BODY && 3 <= left < |BodyOf(q[0])| + 3
    ensures var rest := [Element(BODY, BodyOf(q[0])[left - 3..], true)] + q[1..];
            && Sendable(rest, mtu) && Weight(rest) <= Weight(q) && HasBody(q) && (BodyLast(q) ==> BodyLast(rest))
            && (left > 3 ==> Weight(rest) < Weight(q))
  {
    var body := BodyOf(q[0]);
    SendableRest(q, mtu, body[left - 3..]);
    assert ([Element(BODY, body[left - 3..], true)] + q[1..])[1..] == q[1..];
  }

  lemma FirstFits(q: seq<Element>, mtu: nat)
    requires Sendable(q, mtu)
    ensures mtu >= 8 && (q != [] && q[0].hi != BODY && q[0].hi != EMPTY ==> |q[0].data| + COMMON_HDR <= mtu)
  {
  }

  /** The queue left over can still be sent, and a packet with room for more than a chunk header
      makes progress. */
  lemma {:induction false} FillAdvances(q: seq<Element>, left: nat, mtu: nat)
    requires Sendable(q, mtu) && left + COMMON_HDR <= mtu
    ensures !Fill(q, left, mtu).TooBig?
    ensures Fill(q, left, mtu).Filled? ==>
              var rest := Fill(q, left, mtu).rest;
              && Sendable(rest, mtu) && Weight(rest) <= Weight(q)
              && (!HasBody(q) ==> !HasBody(rest)) && (BodyLast(q) ==> BodyLast(rest))
              && (q != [] && left + COMMON_HDR == mtu ==> Weight(rest) < Weight(q))
    decreases |q|
  {
    hide Sendable;
    FirstFits(q, mtu);
    if q != [] && left > 0 {
      var e := q[0];
      SendableTail(q, mtu);
      if e.hi == BODY {
        var body := BodyOf(e);
        if left >= |body| + 3 {
          FillAdvances(q[1..], left - |body|, mtu);
        } else if left >= 3 {
          ChunkAdvances(q, left, mtu);
        }
      } else if e.hi == EMPTY {
        FillAdvances(q[1..], left, mtu);
      } else if |e.data| <= left {
        FillAdvances(q[1..], left - |e.data|, mtu);
      }
    }
  }

  // ----- the size of a packet

  /** What plain headers take together. */
  function Size(q: seq<Element>): nat {
    if q == [] then 0 else (if q[0].hi == EMPTY then 0 else |q[0].data|) + Size(q[1..])
  }

  /** What the headers in front of a queue take that go into a packet with so much room. */
  function Behind(q: seq<Element>, room: nat): (n: nat)
    ensures n <= room
  {
    if q == [] || room == 0 then 0
    else if q[0].hi == EMPTY then Behind(q[1..], room)
    else if |q[0].data| <= room then |q[0].data| + Behind(q[1..], room - |q[0].data|)
    else 0
  }

  /** The body ends in a packet with `left` bytes of room, and with the headers behind it that go
      along, its own chunk header counted, it takes more. */
  predicate Overfills(q: seq<Element>, left: nat) {
    HasBody(q) &&
    var k := BodyAt(q);
    var upToBody := Size(q[..k]) + |BodyOf(q[k])|;
    upToBody + 3 <= left && upToBody + 3 + Behind(q[k + 1..], left - upToBody) > left
  }

  lemma FlattenCons(h: seq<Byte>, hs: seq<seq<Byte>>)
    ensures Flatten([h] + hs) == h + Flatten(hs)
  {
    assert ([h] + hs)[1..] == hs;
  }

  lemma {:induction false} FillPlain(q: seq<Element>, left: nat, mtu: nat)
    requires Sendable(q, mtu) && !HasBody(q)
    ensures Fill(q, left, mtu).Filled? && |Flatten(Fill(q, left, mtu).headers)| == Behind(q, left)
    decreases |q|
  {
    if q != [] && left > 0 {
      SendableTail(q, mtu);
      if q[0].hi == EMPTY {
        FillPlain(q[1..], left, mtu);
      } else if |q[0].data| <= left {
        FillPlain(q[1..], left - |q[0].data|, mtu);
        FlattenCons(q[0].data, Fill(q[1..], left - |q[0].data|, mtu).headers);
      }
    }
  }

  /** What the headers of a packet with `left` bytes of room take, told from sizes: those in front
      of the body that fit; if that leaves room, a chunk that fills it, or the whole body with its
      chunk header and the headers behind it that fit. */
  function Load(q: seq<Element>, left: nat): nat {
    var k := BodyAt(q);
    var before := Size(q[..k]);
    if k == |q| || before >= left then Behind(q[..k], left)
    else
      var upToBody := before + |BodyOf(q[k])|;
      if upToBody + 3 > left then left else upToBody + 3 + Behind(q[k + 1..], left - upToBody)
  }

  lemma LoadTail(q: seq<Element>, left: nat)
    requires q != [] && q[0].hi != BODY && left > 0
    ensures var n := if q[0].hi == EMPTY then 0 else |q[0].data|;
            Load(q, left) == if n <= left then n + Load(q[1..], left - n) else 0
  {
    var k, t := BodyAt(q), q[1..];
    assert q[..k][1..] == t[..k - 1];
    if k < |q| {
      assert q[k + 1..] == t[k..] && q[k] == t[k - 1];
    }
  }

  lemma {:induction false} PacketLoad(q: seq<Element>, left: nat, mtu: nat)
    requires Sendable(q, mtu) && Fill(q, left, mtu).Filled?
    ensures |Flatten(Fill(q, left, mtu).headers)| == Load(q, left)
    decreases |q|
  {
    if q != [] && left > 0 {
      var e := q[0];
      SendableTail(q, mtu);
      if e.hi == BODY {
        BodyLoad(q, left, mtu);
      } else {
        hide Load;
        LoadTail(q, left);
        if e.hi == EMPTY {
          PacketLoad(q[1..], left, mtu);
        } else if |e.data| <= left {
          PacketLoad(q[1..], left - |e.data|, mtu);
          FlattenCons(e.data, Fill(q[1..], left - |e.data|, mtu).headers);
        }
      }
    }
  }

  lemma BodyLoad(q: seq<Element>, left: nat, mtu: nat)
    requires Sendable(q, mtu) && q != [] && q[0].hi == BODY && left > 0 && Fill(q, left, mtu).Filled?
    ensures |Flatten(Fill(q, left, mtu).headers)| == Load(q, left)
  {
    hide Sendable, Behind;
    var body := BodyOf(q[0]);
    SendableTail(q, mtu);
    assert q[..0] == [];
    if left >= |body| + 3 {
      FillPlain(q[1..], left - |body|, mtu);
      FlattenCons(Chunk(BODY_END, body), Fill(q[1..], left - |body|, mtu).headers);
    } else {
      FlattenCons(Chunk(BODY, body[..left - 3]), []);
    }
  }

  /** The headers of a packet take what sizes known beforehand say. They exceed its room exactly if
      a body ends in it that headers go along behind, and then by no more than the three bytes of
      the chunk header that was not charged. */
  lemma PacketOverflowsIff(q: seq<Element>, left: nat, mtu: nat)
    requires Sendable(q, mtu) && Fill(q, left, mtu).Filled?
    ensures var size := |Flatten(Fill(q, left, mtu).headers)|;
            size == Load(q, left) && (size > left <==> Overfills(q, left)) && size <= left + 3
  {
    PacketLoad(q, left, mtu);
  }

  /** With no header behind the body the headers of a packet never exceed its room. */
  lemma FillFits(q: seq<Element>, left: nat, mtu: nat)
    requires Sendable(q, mtu) && BodyLast(q) && Fill(q, left, mtu).Filled?
    ensures |Flatten(Fill(q, left, mtu).headers)| <= left
  {
    PacketOverflowsIff(q, left, mtu);
    if HasBody(q) {
      assert q[BodyAt(q) + 1..] == [];
    }
  }

  /** A packet with so much room comes to header k, and neither holds it nor would an empty one. */
  predicate Blocks(q: seq<Element>, k: nat, left: nat, mtu: nat) {
    k < |q| && q[k].hi != EMPTY
    && Size(q[..k]) < left && |q[k].data| > left - Size(q[..k]) && |q[k].data| > mtu
  }

  lemma BlocksTail(q: seq<Element>, k: nat, left: nat, mtu: nat)
    requires q != [] && k > 0
    ensures var n := if q[0].hi == EMPTY then 0 else |q[0].data|;
            Blocks(q, k, left, mtu) <==> n <= left && Blocks(q[1..], k - 1, left - n, mtu)
  {
    if k < |q| {
      assert q[..k][1..] == q[1..][..k - 1];
    }
  }

  /** A queue without a body is refused exactly if some header blocks it. */
  lemma {:induction false} FillFailsIff(q: seq<Element>, left: nat, mtu: nat)
    requires !HasBody(q)
    ensures Fill(q, left, mtu).TooBig? <==> exists k: nat :: Blocks(q, k, left, mtu)
    ensures !Fill(q, left, mtu).Wrapped?
    decreases |q|
  {
    if q != [] {
      var e, n := q[0], if q[0].hi == EMPTY then 0 else |q[0].data|;
      assert q[..0] == [];
      assert Blocks(q, 0, left, mtu) <==> e.hi != EMPTY && 0 < left < n && n > mtu;
      forall k: nat | k > 0
        ensures Blocks(q, k, left, mtu) <==> n <= left && Blocks(q[1..], k - 1, left - n, mtu)
      {
        BlocksTail(q, k, left, mtu);
      }
      hide Blocks;
      if n <= left {
        FillFailsIff(q[1..], left - n, mtu);
        var rest, room := q[1..], left - n;
        if k: nat :| Blocks(rest, k, room, mtu) {
          assert Blocks(q, k + 1, left, mtu);
        }
      }
    }
  }

  // ----- the whole transfer

  /** The packets of one object, as the header rows they carry; `wrapped` tells that the last
      packet could not be built. */
  datatype Run = Run(packets: seq<seq<seq<Byte>>>, wrapped: bool)

  /** Repeated sends until the queue is empty; it ends because every packet makes progress. */
  ghost function Transfer(q: seq<Element>, mtu: nat): Run
    requires Sendable(q, mtu)
    decreases Weight(q)
  {
    FillAdvances(q, mtu - COMMON_HDR, mtu);
    var r := Fill(q, mtu - COMMON_HDR, mtu);
    if r.Wrapped? then Run([], true)
    else if r.rest == [] then Run([r.headers], false)
    else
      var later := Transfer(r.rest, mtu);
      Run([r.headers] + later.packets, later.wrapped)
  }

  /** A transfer is its first packet and the transfer of the queue left over. */
  lemma TransferStep(q: seq<Element>, mtu: nat)
    requires Sendable(q, mtu)
    ensures mtu >= 8
    ensures var r, run := Fill(q, mtu - COMMON_HDR, mtu), Transfer(q, mtu);
            && !r.TooBig?
            && (r.Wrapped? ==> run == Run([], true))
            && (r.Filled? ==>
                  && Sendable(r.rest, mtu)
                  && run.packets == [r.headers] + Rest(r.rest, mtu).packets && run.wrapped == Rest(r.rest, mtu).wrapped)
            && (run.packets == [] ==> run.wrapped)
  {
    FillAdvances(q, mtu - COMMON_HDR, mtu);
  }

  /** The transfer of what is left, which is no packet at all if nothing is. */
  ghost function Rest(q: seq<Element>, mtu: nat): Run
    requires Sendable(q, mtu)
  {
    if q == [] then Run([], false) else Transfer(q, mtu)
  }

  /** What the receiver must end up with: every plain header in order, and the body whole. */
  ghost function Delivered(rx: Rx, q: seq<Element>, mtu: nat): Rx
    requires Sendable(q, mtu)
    decreases |q|
  {
    if q == [] then rx
    else
      SendableTail(q, mtu);
      if q[0].hi == BODY then Delivered(AcceptBody(rx, BODY_END, BodyOf(q[0])), q[1..], mtu)
      else if q[0].hi == EMPTY then Delivered(rx, q[1..], mtu)
      else Delivered(AcceptPlain(rx, q[0].hi, Payload(q[0].data)), q[1..], mtu)
  }

  lemma ChunkIsHeader(hi: Byte, data: seq<Byte>)
    requires (hi == BODY || hi == BODY_END) && |data| + 3 <= MAX_MESSAGE
    ensures IsHeader(Chunk(hi, data)) && Payload(Chunk(hi, data)) == data
  {
    Encode16RoundTrip(|data| + 3);
    assert Chunk(hi, data)[1..3] == Encode16(|data| + 3);
  }

  lemma AcceptAllCons(rx: Rx, h: seq<Byte>, hs: seq<seq<Byte>>)
    requires IsHeader(h) && forall x :: x in hs ==> IsHeader(x)
    ensures forall x :: x in [h] + hs ==> IsHeader(x)
    ensures AcceptAll(rx, [h] + hs) == AcceptAll(Accept(rx, h), hs)
  {
    assert ([h] + hs)[1..] == hs;
  }

  predicate AllHeaders(hs: seq<seq<Byte>>) { forall h :: h in hs ==> IsHeader(h) }

  predicate NoBodyEnd(hs: seq<seq<Byte>>) { forall h :: h in hs ==> h != [] && h[0] != BODY_END }

  predicate EndsBody(hs: seq<seq<Byte>>) { hs != [] && hs[|hs| - 1] != [] && hs[|hs| - 1][0] == BODY_END }

  lemma HeaderNotEmpty(h: seq<Byte>)
    ensures IsHeader(h) ==> h != []
  {
  }

  /** A packet for the rest of a queue, seen from the queue with one more header in front. */
  ghost predicate EndsOrNot(r: FillResult, body: bool) {
    r.Filled? && if r.rest == [] then body ==> EndsBody(r.headers) else NoBodyEnd(r.headers) && HasBody(r.rest) == body
  }

  lemma PrependEnds(h: seq<Byte>, r: FillResult, body: bool)
    requires h != [] && h[0] != BODY_END && EndsOrNot(r, body)
    ensures EndsOrNot(Prepend(h, r), body)
  {
    hide HasBody;
    var hs := [h] + r.headers;
    if body && r.rest == [] {
      assert hs[|hs| - 1] == r.headers[|r.headers| - 1];
    }
  }

  /** Only a packet that empties the queue carries the end of a body that comes last. */
  lemma {:induction false} FillEndsBody(q: seq<Element>, left: nat, mtu: nat)
    requires Sendable(q, mtu) && BodyLast(q) && Fill(q, left, mtu).Filled?
    ensures EndsOrNot(Fill(q, left, mtu), HasBody(q)) && (Fill(q, left, mtu).rest != [] ==> q != [])
    decreases |q|
  {
    if q != [] && left > 0 {
      var e := q[0];
      SendableTail(q, mtu);
      if e.hi == BODY {
        BodyEnds(q, left, mtu);
      } else {
        hide Sendable, EndsOrNot;
        if e.hi == EMPTY {
          FillEndsBody(q[1..], left, mtu);
        } else if |e.data| <= left {
          PlainIsHeader(q, mtu);
          HeaderNotEmpty(e.data);
          FillEndsBody(q[1..], left - |e.data|, mtu);
          PrependEnds(e.data, Fill(q[1..], left - |e.data|, mtu), HasBody(q));
        } else {
          NothingEnds(q);
        }
      }
    } else {
      NothingEnds(q);
    }
  }

  lemma NothingEnds(q: seq<Element>)
    ensures EndsOrNot(Filled([], q), HasBody(q))
  {
  }

  lemma BodyEnds(q: seq<Element>, left: nat, mtu: nat)
    requires q != [] && q[0].hi == BODY && BodyLast(q) && left > 0 && Fill(q, left, mtu).Filled?
    ensures EndsOrNot(Fill(q, left, mtu), HasBody(q))
  {
    hide Encode16;
    assert q[1..] == [];
    if left >= |BodyOf(q[0])| + 3 {
      assert Fill(q, left, mtu) == Filled([Chunk(BODY_END, BodyOf(q[0]))] + [], []);
    }
  }

  /** A body received in two pieces is the body received whole. */
  lemma SplitBody(rx: Rx, body: seq<Byte>, k: nat)
    requires k <= |body|
    ensures AcceptBody(AcceptBody(rx, BODY, body[..k]), BODY_END, body[k..]) == AcceptBody(rx, BODY_END, body)
  {
    var sofar := if rx.body.Some? then rx.body.value else [];
    assert sofar + body == (sofar + body[..k]) + body[k..];
  }

  lemma ChunkDelivers(q: seq<Element>, left: nat, mtu: nat, rx: Rx)
    requires Sendable(q, mtu) && q != [] && q[0].hi == BODY
    requires 3 <= left < |BodyOf(q[0])| + 3 && left + COMMON_HDR <= mtu
    ensures var Filled(hs, rest) := Fill(q, left, mtu);
            && AllHeaders(hs) && Sendable(rest, mtu)
            && Delivered(AcceptAll(rx, hs), rest, mtu) == Delivered(rx, q, mtu)
  {
    hide IsHeader, Payload, IsPlain;
    var body := BodyOf(q[0]);
    var chunk := body[..left - 3];
    SendableTail(q, mtu);
    SendableRest(q, mtu, body[left - 3..]);
    ChunkIsHeader(BODY, chunk);
    AcceptAllCons(rx, Chunk(BODY, chunk), []);
    assert AcceptAll(rx, [Chunk(BODY, chunk)] + []) == Accept(rx, Chunk(BODY, chunk)) == AcceptBody(rx, BODY, chunk);
    assert ([Element(BODY, body[left - 3..], true)] + q[1..])[1..] == q[1..];
    SplitBody(rx, body, left - 3);
  }

  lemma EndDelivers(q: seq<Element>, left: nat, mtu: nat, rx: Rx)
    requires Sendable(q, mtu) && q != [] && q[0].hi == BODY
    requires left >= |BodyOf(q[0])| + 3 && left + COMMON_HDR <= mtu
    requires Sendable(q[1..], mtu)
    requires var r := Fill(q[1..], left - |BodyOf(q[0])|, mtu);
             && r.Filled? && AllHeaders(r.headers) && Sendable(r.rest, mtu)
             && var rx' := AcceptBody(rx, BODY_END, BodyOf(q[0]));
                Delivered(AcceptAll(rx', r.headers), r.rest, mtu) == Delivered(rx', q[1..], mtu)
    ensures var Filled(hs, rest) := Fill(q, left, mtu);
            && AllHeaders(hs) && Sendable(rest, mtu)
            && Delivered(AcceptAll(rx, hs), rest, mtu) == Delivered(rx, q, mtu)
  {
    hide IsHeader, Payload, IsPlain, Sendable, AcceptBody;
    var body := BodyOf(q[0]);
    var r := Fill(q[1..], left - |body|, mtu);
    EndFits(q, left, mtu);
    ChunkIsHeader(BODY_END, body);
    AcceptAllCons(rx, Chunk(BODY_END, body), r.headers);
  }

  lemma EndFits(q: seq<Element>, left: nat, mtu: nat)
    requires Sendable(q, mtu) && q != [] && left >= |BodyOf(q[0])| + 3 && left + COMMON_HDR <= mtu
    ensures |BodyOf(q[0])| + 3 <= MAX_MESSAGE
  {
  }

  lemma PlainDelivers(q: seq<Element>, left: nat, mtu: nat, rx: Rx)
    requires Sendable(q, mtu) && q != [] && q[0].hi != BODY && q[0].hi != EMPTY && |q[0].data| <= left
    requires left > 0 && Sendable(q[1..], mtu)
    requires var r := Fill(q[1..], left - |q[0].data|, mtu);
             && r.Filled? && AllHeaders(r.headers) && Sendable(r.rest, mtu)
             && var rx' := Accept(rx, q[0].data);
                Delivered(AcceptAll(rx', r.headers), r.rest, mtu) == Delivered(rx', q[1..], mtu)
    ensures var Filled(hs, rest) := Fill(q, left, mtu);
            && AllHeaders(hs) && Sendable(rest, mtu)
            && Delivered(AcceptAll(rx, hs), rest, mtu) == Delivered(rx, q, mtu)
  {
    hide Payload, Sendable, AcceptBody, AcceptPlain, IsHeader, IsPlain;
    PlainIsHeader(q, mtu);
    AcceptAllCons(rx, q[0].data, Fill(q[1..], left - |q[0].data|, mtu).headers);
  }

  lemma PlainIsHeader(q: seq<Element>, mtu: nat)
    requires Sendable(q, mtu) && q != [] && q[0].hi != BODY && q[0].hi != EMPTY
    ensures IsHeader(q[0].data) && q[0].data[0] == q[0].hi && q[0].hi != BODY_END
  {
  }

  /** A packet is a row of complete headers; receiving it and then the rest of the queue is
      receiving the queue. */
  lemma {:induction false} FillDelivers(q: seq<Element>, left: nat, mtu: nat, rx: Rx)
    requires Sendable(q, mtu) && left + COMMON_HDR <= mtu && Fill(q, left, mtu).Filled?
    ensures var Filled(hs, rest) := Fill(q, left, mtu);
            && AllHeaders(hs) && Sendable(rest, mtu)
            && Delivered(AcceptAll(rx, hs), rest, mtu) == Delivered(rx, q, mtu)
    decreases |q|, 1
  {
    if q == [] || left == 0 {
    } else if q[0].hi == BODY {
      BodyDelivers(q, left, mtu, rx);
    } else {
      hide IsHeader, Payload, IsPlain, AcceptBody, AcceptPlain, Accept;
      SendableTail(q, mtu);
      var e := q[0];
      if e.hi == EMPTY {
        FillDelivers(q[1..], left, mtu, rx);
      } else if |e.data| <= left {
        PlainIsHeader(q, mtu);
        FillDelivers(q[1..], left - |e.data|, mtu, Accept(rx, e.data));
        PlainDelivers(q, left, mtu, rx);
      }
    }
  }

  lemma {:induction false} BodyDelivers(q: seq<Element>, left: nat, mtu: nat, rx: Rx)
    requires Sendable(q, mtu) && left + COMMON_HDR <= mtu && Fill(q, left, mtu).Filled?
    requires q != [] && left > 0 && q[0].hi == BODY
    ensures var Filled(hs, rest) := Fill(q, left, mtu);
            && AllHeaders(hs) && Sendable(rest, mtu)
            && Delivered(AcceptAll(rx, hs), rest, mtu) == Delivered(rx, q, mtu)
    decreases |q|, 0
  {
    hide IsHeader, Payload, IsPlain;
    SendableTail(q, mtu);
    var body := BodyOf(q[0]);
    if left < |body| + 3 {
      ChunkDelivers(q, left, mtu, rx);
    } else {
      FillPlain(q[1..], left - |body|, mtu);
      FillDelivers(q[1..], left - |body|, mtu, AcceptBody(rx, BODY_END, body));
      EndDelivers(q, left, mtu, rx);
    }
  }

  /** Receiving a row of packets one after the other. */
  function Feed(rx: Rx, packets: seq<seq<seq<Byte>>>, stale: nat -> Byte): ParseResult
    requires forall p :: p in packets ==> |Flatten(p)| <= MAX_MESSAGE
    decreases |packets|
  {
    if packets == [] then Parsed(rx)
    else
      assert packets[0] in packets;
      match Parse(Flatten(packets[0]), stale, rx)
      case Malformed(rx') => Malformed(rx')
      case Parsed(rx') => Feed(rx', packets[1..], stale)
  }

  /** A transfer that is not stranded delivers every header and the body, whole and in order,
      whatever lies behind the messages in the receive buffer. */
  lemma {:induction false} TransferDelivers(q: seq<Element>, mtu: nat, rx: Rx, stale: nat -> Byte)
    requires Sendable(q, mtu) && !Transfer(q, mtu).wrapped
    ensures forall p :: p in Transfer(q, mtu).packets ==> |Flatten(p)| <= MAX_MESSAGE
    ensures Feed(rx, Transfer(q, mtu).packets, stale) == Parsed(Delivered(rx, q, mtu))
    decreases Weight(q)
  {
    FillAdvances(q, mtu - COMMON_HDR, mtu);
    PacketOverflowsIff(q, mtu - COMMON_HDR, mtu);
    FillDelivers(q, mtu - COMMON_HDR, mtu, rx);
    var Filled(hs, rest) := Fill(q, mtu - COMMON_HDR, mtu);
    ParseFlatten(hs, stale, rx);
    var rx' := AcceptAll(rx, hs);
    if rest == [] {
      assert Feed(rx', [], stale) == Parsed(rx');
    } else {
      TransferDelivers(rest, mtu, rx', stale);
      assert ([hs] + Transfer(rest, mtu).packets)[1..] == Transfer(rest, mtu).packets;
    }
  }

  /** If no header stands behind the body, only the last packet ends it, and it does. */
  lemma {:induction false} OnlyLastEndsBody(q: seq<Element>, mtu: nat)
    requires Sendable(q, mtu) && BodyLast(q) && !Transfer(q, mtu).wrapped
    ensures var ps := Transfer(q, mtu).packets;
            && |ps| >= 1
            && (forall i :: 0 <= i < |ps| - 1 ==> NoBodyEnd(ps[i]))
            && (HasBody(q) ==> EndsBody(ps[|ps| - 1]))
    decreases Weight(q)
  {
    hide Sendable, Fill, BodyLast, HasBody, EndsBody, NoBodyEnd, Transfer;
    TransferStep(q, mtu);
    FillAdvances(q, mtu - COMMON_HDR, mtu);
    FillEndsBody(q, mtu - COMMON_HDR, mtu);
    var r := Fill(q, mtu - COMMON_HDR, mtu);
    if r.rest != [] {
      OnlyLastEndsBody(r.rest, mtu);
    }
  }

  // ----- exactly when the body is stranded

  lemma {:induction false} FillStrands(q: seq<Element>, left: nat, mtu: nat)
    requires Sendable(q, mtu) && left + COMMON_HDR <= mtu
    ensures Fill(q, left, mtu).Wrapped? ==> StrandsFrom(q, left, mtu)
    ensures Fill(q, left, mtu).Filled? ==>
              (StrandsFrom(q, left, mtu) <==> StrandsFrom(Fill(q, left, mtu).rest, mtu - COMMON_HDR, mtu))
    decreases |q|
  {
    if q != [] && left > 0 {
      SendableTail(q, mtu);
      var e := q[0];
      if e.hi == BODY {
        if left >= |BodyOf(e)| + 3 {
          FillPlain(q[1..], left - |BodyOf(e)|, mtu);
          FillAdvances(q[1..], left - |BodyOf(e)|, mtu);
        }
      } else if e.hi == EMPTY {
        FillStrands(q[1..], left, mtu);
      } else if |e.data| <= left {
        FillStrands(q[1..], left - |e.data|, mtu);
      }
    }
  }

  /** A transfer fails exactly when its headers leave one or two bytes where the body begins. */
  lemma {:induction false} TransferWrapsIff(q: seq<Element>, mtu: nat)
    requires Sendable(q, mtu)
    ensures Transfer(q, mtu).wrapped <==> Strands(q, mtu)
    decreases Weight(q)
  {
    FillAdvances(q, mtu - COMMON_HDR, mtu);
    FillStrands(q, mtu - COMMON_HDR, mtu);
    var r := Fill(q, mtu - COMMON_HDR, mtu);
    if r.Filled? && r.rest != [] {
      TransferWrapsIff(r.rest, mtu);
    }
  }

  /** A body of three bytes in rooms of five and six, byte by byte: a chunk and the rest, or its end. */
  lemma SomeChunks()
    ensures var q := [Element(0x48, [1, 2, 3], true)];
            && Fill(q, 5, 9) == Filled([[0x48, 0, 5, 1, 2]], [Element(0x48, [3], true)])
            && Fill(q, 6, 10) == Filled([[0x49, 0, 6, 1, 2, 3]], [])
  {
    var b: seq<Byte> := [1, 2, 3];
    var q := [Element(0x48, b, true)];
    assert q[1..] == [] && b[..2] == [1, 2] && b[2..] == [3];
    assert Chunk(0x48, [1, 2]) == [0x48, 0, 5, 1, 2] && Chunk(0x49, b) == [0x49, 0, 6, 1, 2, 3];
    assert Fill(q, 5, 9) == Filled([Chunk(0x48, b[..2])], [Element(0x48, b[2..], true)] + q[1..]);
    assert Fill(q, 6, 10) == Prepend(Chunk(0x49, b), Fill(q[1..], 3, 10));
  }

  /** A queue that strands: a two-byte header leaves two of the four bytes an MTU of 8 has room for. */
  lemma HeaderStrandsBody()
    ensures var q := [Element(0x80, [0x80, 7], false), Element(BODY, [1, 2, 3], true)];
            Sendable(q, 8) && Strands(q, 8) && Transfer(q, 8) == Run([], true)
  {
    var q := [Element(0x80, [0x80, 7], false), Element(BODY, [1, 2, 3], true)];
    assert q[1..] == [Element(BODY, [1, 2, 3], true)];
    assert Fill(q, 4, 8) == Prepend([0x80, 7], Fill(q[1..], 2, 8));
  }

  // ----- exactly when a packet is too long

  /** What is left of a body in the packet that ends it, and the room that packet has for it. */
  function Closing(body: nat, room: nat, mtu: nat): (nat, nat)
    requires room >= 3 && mtu >= 8
    decreases body, if room == mtu - COMMON_HDR then 0 else 1
  {
    if body + 3 <= room then (body, room) else Closing(body + 3 - room, mtu - COMMON_HDR, mtu)
  }

  /** From a packet with `left` bytes of room: the body ends in a packet in which the headers behind
      it that still go along leave no place for its chunk header. */
  predicate OversizedFrom(q: seq<Element>, left: nat, mtu: nat)
    requires mtu >= 8
  {
    HasBody(q) &&
    var k, room := BodyAt(q), Arrival(q, left, mtu);
    room >= 3 &&
    var (body, room') := Closing(|BodyOf(q[k])|, room, mtu);
    body <= room' && body + 3 + Behind(q[k + 1..], room' - body) > room'
  }

  predicate Oversized(q: seq<Element>, mtu: nat)
    requires mtu >= 8
  {
    OversizedFrom(q, mtu - COMMON_HDR, mtu)
  }

  lemma OversizedTail(q: seq<Element>, left: nat, left': nat, mtu: nat)
    requires mtu >= 8 && q != [] && q[0].hi != BODY && Arrival(q, left, mtu) == Arrival(q[1..], left', mtu)
    ensures OversizedFrom(q, left, mtu) == OversizedFrom(q[1..], left', mtu)
  {
    if HasBody(q) {
      var k := BodyAt(q);
      assert q[1..][k - 1] == q[k] && q[1..][k..] == q[k + 1..];
    }
  }

  lemma {:induction false} FillOversized(q: seq<Element>, left: nat, mtu: nat)
    requires Sendable(q, mtu) && left + COMMON_HDR <= mtu
    ensures Fill(q, left, mtu).Wrapped? ==> !OversizedFrom(q, left, mtu)
    ensures Fill(q, left, mtu).Filled? ==>
              (OversizedFrom(q, left, mtu) <==>
               || |Flatten(Fill(q, left, mtu).headers)| > left
               || OversizedFrom(Fill(q, left, mtu).rest, mtu - COMMON_HDR, mtu))
    decreases |q|
  {
    hide OversizedFrom, Behind, HasBody;
    if q == [] || left == 0 || (q[0].hi != BODY && q[0].hi != EMPTY && |q[0].data| > left) {
      NextPacket(q, left, mtu);
    } else {
      SendableTail(q, mtu);
      var e := q[0];
      if e.hi == BODY {
        BodyOversized(q, left, mtu);
      } else if e.hi == EMPTY {
        FillOversized(q[1..], left, mtu);
        OversizedTail(q, left, left, mtu);
      } else if |e.data| <= left {
        FillOversized(q[1..], left - |e.data|, mtu);
        OversizedTail(q, left, left - |e.data|, mtu);
        var r := Fill(q[1..], left - |e.data|, mtu);
        if r.Filled? {
          FlattenCons(e.data, r.headers);
        }
      }
    }
  }

  /** A header that does not fit waits for the next packet. */
  lemma NextPacket(q: seq<Element>, left: nat, mtu: nat)
    requires Sendable(q, mtu) && left + COMMON_HDR <= mtu
    requires q == [] || left == 0 || (q[0].hi != BODY && q[0].hi != EMPTY && |q[0].data| > left)
    ensures Fill(q, left, mtu) == Filled([], q)
    ensures OversizedFrom(q, left, mtu) == OversizedFrom(q, mtu - COMMON_HDR, mtu)
  {
    if q != [] {
      assert Arrival(q, left, mtu) == Arrival(q, mtu - COMMON_HDR, mtu);
    }
  }

  lemma BodyOversized(q: seq<Element>, left: nat, mtu: nat)
    requires Sendable(q, mtu) && 0 < left && left + COMMON_HDR <= mtu && q != [] && q[0].hi == BODY
    ensures Fill(q, left, mtu).Wrapped? ==> !OversizedFrom(q, left, mtu)
    ensures Fill(q, left, mtu).Filled? ==>
              (OversizedFrom(q, left, mtu) <==>
               || |Flatten(Fill(q, left, mtu).headers)| > left
               || OversizedFrom(Fill(q, left, mtu).rest, mtu - COMMON_HDR, mtu))
  {
    hide Sendable, Behind;
    var body := BodyOf(q[0]);
    SendableTail(q, mtu);
    if left >= |body| + 3 {
      FillPlain(q[1..], left - |body|, mtu);
      FillAdvances(q[1..], left - |body|, mtu);
      FlattenCons(Chunk(BODY_END, body), Fill(q[1..], left - |body|, mtu).headers);
    } else if left >= 3 {
      var next := Element(BODY, body[left - 3..], true);
      SendableRest(q, mtu, body[left - 3..]);
      assert ([next] + q[1..])[1..] == q[1..];
      FlattenCons(Chunk(BODY, body[..left - 3]), []);
    }
  }

  /** Some packet of a transfer exceeds the MTU exactly if the queue says so beforehand. */
  lemma {:induction false} TransferOversizedIff(q: seq<Element>, mtu: nat)
    requires Sendable(q, mtu)
    ensures (exists p :: p in Transfer(q, mtu).packets && |Flatten(p)| + COMMON_HDR > mtu) <==> Oversized(q, mtu)
    decreases Weight(q)
  {
    FillAdvances(q, mtu - COMMON_HDR, mtu);
    FillOversized(q, mtu - COMMON_HDR, mtu);
    var r := Fill(q, mtu - COMMON_HDR, mtu);
    if r.Filled? {
      var ps := Transfer(q, mtu).packets;
      assert ps[0] == r.headers;
      if r.rest != [] {
        TransferOversizedIff(r.rest, mtu);
        var later := Transfer(r.rest, mtu).packets;
        assert forall p :: p in ps <==> p == r.headers || p in later;
      } else {
        assert ps == [r.headers];
      }
    }
  }

  /** The packets of a transfer fit the MTU if no header stands behind the body. */
  lemma TransferFits(q: seq<Element>, mtu: nat)
    requires Sendable(q, mtu) && BodyLast(q)
    ensures forall p :: p in Transfer(q, mtu).packets ==> |Flatten(p)| + COMMON_HDR <= mtu
  {
    TransferOversizedIff(q, mtu);
    if HasBody(q) {
      assert q[BodyAt(q) + 1..] == [];
      if Arrival(q, mtu - COMMON_HDR, mtu) >= 3 {
        ClosingFits(|BodyOf(q[BodyAt(q)])|, Arrival(q, mtu - COMMON_HDR, mtu), mtu);
      }
    }
  }

  /** The headers of no packet exceed their room by more than a chunk header. */
  lemma {:induction false} TransferBounded(q: seq<Element>, mtu: nat)
    requires Sendable(q, mtu)
    ensures forall p :: p in Transfer(q, mtu).packets ==> |Flatten(p)| + COMMON_HDR <= mtu + 3
    decreases Weight(q)
  {
    FillAdvances(q, mtu - COMMON_HDR, mtu);
    var r := Fill(q, mtu - COMMON_HDR, mtu);
    if r.Filled? {
      PacketOverflowsIff(q, mtu - COMMON_HDR, mtu);
      if r.rest != [] {
        TransferBounded(r.rest, mtu);
      }
    }
  }

  /** The first packet of a queue can be built: its body, if reached, finds room for a chunk header. */
  predicate Starts(q: seq<Element>, left: nat) {
    var k := BodyAt(q);
    k < |q| ==> Size(q[..k]) >= left || Size(q[..k]) + 3 <= left
  }

  lemma {:induction false} FillWrapsIff(q: seq<Element>, left: nat, mtu: nat)
    requires Sendable(q, mtu) && left + COMMON_HDR <= mtu
    ensures Fill(q, left, mtu).Filled? <==> Starts(q, left)
    decreases |q|
  {
    if q != [] && left > 0 {
      SendableTail(q, mtu);
      var e, k := q[0], BodyAt(q);
      if e.hi == BODY {
        assert q[..0] == [];
        if left >= |BodyOf(e)| + 3 {
          FillPlain(q[1..], left - |BodyOf(e)|, mtu);
        }
      } else {
        assert q[..k][1..] == q[1..][..k - 1];
        if e.hi == EMPTY {
          FillWrapsIff(q[1..], left, mtu);
        } else if |e.data| <= left {
          FillWrapsIff(q[1..], left - |e.data|, mtu);
        }
      }
    }
  }

  /** With so many bytes of non-header data in front, some packet of the transfer is too long: the
      first, because of them, or one that ends the body. */
  predicate Exceeds(q: seq<Element>, mtu: nat, nonHeader: nat)
    requires mtu >= 8
  {
    var left := mtu - COMMON_HDR;
    (Starts(q, left) && nonHeader + Load(q, left) > left) || Oversized(q, mtu)
  }

  lemma {:induction false} ClosingFits(body: nat, room: nat, mtu: nat)
    requires room >= 3 && mtu >= 8
    ensures Closing(body, room, mtu).0 + 3 <= Closing(body, room, mtu).1
    decreases body, if room == mtu - COMMON_HDR then 0 else 1
  {
    if body + 3 > room {
      ClosingFits(body + 3 - room, mtu - COMMON_HDR, mtu);
    }
  }

  // ----- what goes wrong

  /** With an MTU of 7 a packet has room for a chunk header only: the queue never shrinks. An MTU
      of 8 or more always sends some of a nonempty body. */
  lemma BodyAdvancesIff(data: seq<Byte>, mtu: nat)
    requires data != [] && mtu >= 7
    ensures var q := [Element(BODY, data, true)];
            Fill(q, mtu - COMMON_HDR, mtu).Filled? && (Fill(q, mtu - COMMON_HDR, mtu).rest == q <==> mtu == 7)
  {
    var q := [Element(BODY, data, true)];
    assert q[1..] == [];
    if mtu - COMMON_HDR < |data| + 3 {
      assert [Element(BODY, data[mtu - 7..], true)] + q[1..] == [Element(BODY, data[mtu - 7..], true)];
    }
  }

  /** A queue with a packet that is too long: the header behind the body goes along, although the
      chunk header of the body has taken its place. */
  lemma HeaderBehindBodyOverflows()
    ensures var q := [Element(BODY, [1, 2, 3], true), Element(0x80, [0x80, 7], false)];
            Sendable(q, 10) && Overfills(q, 6) && Oversized(q, 10)
            && Fill(q, 6, 10) == Filled([Chunk(BODY_END, [1, 2, 3]), [0x80, 7]], [])
  {
    var q := [Element(BODY, [1, 2, 3], true), Element(0x80, [0x80, 7], false)];
    assert q[1..] == [Element(0x80, [0x80, 7], false)] && q[1..][1..] == [] && q[..0] == [];
    assert Fill(q[1..], 3, 10) == Filled([[0x80, 7]], []);
    assert Behind(q[1..], 3) == 2;
  }
}
