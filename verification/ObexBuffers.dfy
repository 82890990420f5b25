/** The send side of obex.c on the lists and buffers it works with: queued headers are nodes of a
    circular list, each with a buffer of its own, and a packet is built in another buffer. What it
    does there is what `Obex` says it does to sequences. */
module ObexBuffers {
  import opened Bytes
  import opened ObexHeaders
  import opened ObexTransfer
  import opened DataBuffer
  import opened Lists
  import opened Wrappers
  import Obex

  /** A queued header; a dummy has an empty buffer where the program has none. */
  class Header {
    const link: ListHead
    const hi: Byte
    const buf: Buffer
    var touched: bool

    constructor (hi: Byte, buf: Buffer)
      ensures this.hi == hi && this.buf == buf && !touched && fresh(link)
    {
      this.hi, this.buf, touched := hi, buf, false;
      link := new ListHead();
    }
  }

  function Links(hs: seq<Header>): (ls: seq<ListHead>)
    ensures |ls| == |hs|
  {
    seq(|hs|, i requires 0 <= i < |hs| => hs[i].link)
  }

  ghost function Bufs(hs: seq<Header>): set<Buffer> { set h | h in hs :: h.buf }

  /** The headers are sound, and no two share a buffer or an allocation. */
  ghost predicate Separate(hs: seq<Header>)
    reads Bufs(hs)
  {
    && (forall i :: 0 <= i < |hs| ==> hs[i].buf.Valid())
    && (forall i, j :: 0 <= i < j < |hs| ==>
          hs[i] != hs[j] && hs[i].buf != hs[j].buf && hs[i].buf.buffer != hs[j].buf.buffer)
  }

  ghost predicate Queued(head: ListHead, hs: seq<Header>)
    reads head, Links(hs), Bufs(hs)
  {
    IsList(head, Links(hs)) && Separate(hs)
  }

  /** A buffer is none of the queue's. */
  ghost predicate Apart(msg: Buffer, hs: seq<Header>)
    reads msg, Bufs(hs)
  {
    forall i :: 0 <= i < |hs| ==> hs[i].buf != msg && hs[i].buf.buffer != msg.buffer
  }

  /** What a header stands for. */
  ghost function Meaning(h: Header): Element
    requires h.buf.Valid()
    reads h, h.buf, h.buf.buffer
  {
    Element(h.hi, h.buf.Contents(), h.touched)
  }

  ghost function Meanings(hs: seq<Header>): (q: seq<Element>)
    requires Separate(hs)
    reads hs, Bufs(hs), set h | h in hs :: h.buf.buffer
    ensures |q| == |hs|
  {
    if hs == [] then [] else [Meaning(hs[0])] + Meanings(hs[1..])
  }

  /** The first bytes of a buffer. */
  method Front(buf: Buffer, take: nat) returns (bytes: seq<Byte>)
    requires buf.Valid() && take <= buf.dataSize
    ensures bytes == buf.Contents()[..take]
  {
    bytes := buf.buffer[buf.data..buf.data + take];
  }

  /** A chunk header and the first bytes of a buffer go to the end of the message. */
  method InsertChunk(msg: Buffer, hi: Byte, buf: Buffer, take: nat)
    requires msg.Valid() && buf.Valid() && msg != buf && msg.buffer != buf.buffer && take <= buf.dataSize
    modifies msg, msg.buffer
    ensures msg.Valid() && (msg.buffer == old(msg.buffer) || fresh(msg.buffer))
    ensures msg.Contents() == old(msg.Contents()) + Chunk(hi, buf.Contents()[..take])
  {
    hide Buffer.Contents, Buffer.Valid;
    ghost var before := msg.Contents();
    var data := Front(buf, take);
    msg.InsertEnd([hi] + Encode16(take + 3));
    msg.InsertEnd(data);
    assert before + ([hi] + Encode16(|data| + 3)) + data == before + Chunk(hi, data);
  }

  /** A body that is sent for the first time loses its own header. */
  method Touch(h: Header)
    requires h.buf.Valid()
    modifies h`touched, h.buf
    ensures h.buf.Valid() && h.buf.buffer == old(h.buf.buffer) && h.touched
    ensures h.buf.Contents() == BodyOf(old(Meaning(h)))
  {
    hide Buffer.Contents, Buffer.Valid;
    assert |h.buf.Contents()| == h.buf.dataSize;
    if !h.touched {
      h.buf.RemoveBegin(3);
      h.touched := true;
    }
  }

  /** send_body without the list: a chunk goes from the header's buffer to the message. */
  method PutBody(h: Header, msg: Buffer, left: nat) returns (ok: bool, used: nat, ended: bool)
    requires h.buf.Valid() && msg.Valid() && h.buf != msg && h.buf.buffer != msg.buffer
    modifies h`touched, h.buf, msg, msg.buffer
    ensures h.buf.Valid() && msg.Valid() && h.buf.buffer == old(h.buf.buffer)
    ensures msg.buffer == old(msg.buffer) || fresh(msg.buffer)
    ensures ok <==> left >= 3
    ensures ok ==>
              var body := BodyOf(old(Meaning(h)));
              && (ended <==> left >= |body| + 3)
              && used == (if ended then |body| else left)
              && msg.Contents() ==
                 old(msg.Contents()) + (if ended then Chunk(BODY_END, body) else Chunk(BODY, body[..left - 3]))
              && (!ended ==> Meaning(h) == Element(h.hi, body[left - 3..], true))
  {
    hide Chunk, BodyOf, Buffer.Contents, Buffer.Valid;
    Touch(h);
    ghost var body := h.buf.Contents();
    var n := h.buf.dataSize;
    assert |body| == n && body[..n] == body;
    ended := left >= n + 3;
    if left < 3 {
      return false, 0, ended;
    }
    used := if ended then n else left;
    InsertChunk(msg, if ended then BODY_END else BODY, h.buf, if ended then n else left - 3);
    if !ended {
      h.buf.RemoveBegin(left - 3);
    }
    ok := true;
  }

  /** list_entry: the header that a node of the queue belongs to. */
  predicate Knows(entryOf: map<ListHead, Header>, hs: seq<Header>) {
    forall i :: 0 <= i < |hs| ==> hs[i].link in entryOf && entryOf[hs[i].link] == hs[i]
  }

  lemma FirstIsNext(head: ListHead, hs: seq<Header>)
    requires Queued(head, hs)
    ensures head.next == if hs == [] then head else hs[0].link
    ensures hs != [] ==> head.next != head && Separate(hs[1..]) && Without(Links(hs), 0) == Links(hs[1..])
  {
    var r := [head] + Links(hs);
    assert r[0].next == r[Succ(0, |r|)];
    if hs != [] {
      assert r[1] == hs[0].link;
    }
  }

  /** Headers that are left alone keep their meaning. */
  twostate lemma {:induction false} MeaningsKept(hs: seq<Header>)
    requires old(Separate(hs)) && Separate(hs)
    requires forall h :: h in hs ==> unchanged(h) && unchanged(h.buf) && unchanged(h.buf.buffer)
    ensures Meanings(hs) == old(Meanings(hs))
    decreases |hs|
  {
    if hs != [] {
      MeaningsKept(hs[1..]);
    }
  }

  twostate lemma RestSeparate(hs: seq<Header>)
    requires hs != [] && old(Separate(hs))
    requires forall h :: h in hs[1..] ==> unchanged(h) && unchanged(h.buf) && unchanged(h.buf.buffer)
    requires hs[0].buf.Valid() && hs[0].buf.buffer == old(hs[0].buf.buffer)
    ensures Separate(hs) && Separate(hs[1..])
    ensures forall i :: 0 <= i < |hs| ==> hs[i].buf.buffer == old(hs[i].buf.buffer)
  {
    forall i | 0 <= i < |hs| ensures hs[i].buf.Valid() && hs[i].buf.buffer == old(hs[i].buf.buffer) {
      if i > 0 {
        assert hs[i] == hs[1..][i - 1];
      }
    }
  }

  /** After something has happened to the first header and its buffer only. */
  twostate lemma RestKept(hs: seq<Header>)
    requires hs != [] && old(Separate(hs))
    requires forall h :: h in hs[1..] ==> unchanged(h) && unchanged(h.buf) && unchanged(h.buf.buffer)
    requires hs[0].buf.Valid() && hs[0].buf.buffer == old(hs[0].buf.buffer)
    ensures Separate(hs) && Separate(hs[1..])
    ensures forall i :: 0 <= i < |hs| ==> hs[i].buf.buffer == old(hs[i].buf.buffer)
    ensures Meanings(hs) == [Meaning(hs[0])] + old(Meanings(hs))[1..]
    ensures Meanings(hs[1..]) == old(Meanings(hs))[1..]
  {
    hide Separate, Meaning, Buffer.Valid, Buffer.Contents;
    RestSeparate(hs);
    assert old(Separate(hs[1..])) by {
      TailWasSeparate(hs);
    }
    MeaningsKept(hs[1..]);
  }

  twostate lemma TailWasSeparate(hs: seq<Header>)
    requires hs != [] && old(Separate(hs))
    ensures old(Separate(hs[1..]))
  {
  }

  lemma OthersDiffer(hs: seq<Header>, msg: Buffer)
    requires hs != [] && Separate(hs) && Apart(msg, hs)
    ensures forall h :: h in hs[1..] ==>
              && h != hs[0] && h.buf != hs[0].buf && h.buf.buffer != hs[0].buf.buffer
              && h.buf != msg && h.buf.buffer != msg.buffer
  {
  }

  lemma FirstIsApart(hs: seq<Header>, msg: Buffer)
    requires hs != [] && Separate(hs) && Apart(msg, hs)
    ensures hs[0].buf.Valid() && hs[0].buf != msg && hs[0].buf.buffer != msg.buffer
  {
  }

  /** list_del of the first header. */
  method RemoveFirst(h: Header, ghost msg: Buffer, ghost head: ListHead, ghost hs: seq<Header>)
    requires Queued(head, hs) && hs != [] && h == hs[0] && Apart(msg, hs)
    modifies head, Links(hs)
    ensures Queued(head, hs[1..]) && Apart(msg, hs[1..]) && Meanings(hs[1..]) == old(Meanings(hs))[1..]
  {
    FirstIsNext(head, hs);
    ListDel(h.link, head, Links(hs), 0);
    RestKept(hs);
  }

  /** The first header's chunk is put into the message; the queue is linked as before. */
  method PutFirst(h: Header, msg: Buffer, left: nat, ghost head: ListHead, ghost hs: seq<Header>)
    returns (ok: bool, used: nat, ended: bool)
    requires Queued(head, hs) && hs != [] && h == hs[0] && msg.Valid() && Apart(msg, hs)
    modifies h`touched, h.buf, msg, msg.buffer
    ensures msg.Valid() && (msg.buffer == old(msg.buffer) || fresh(msg.buffer))
    ensures Queued(head, hs) && Apart(msg, hs) && Meanings(hs) == [Meaning(h)] + old(Meanings(hs))[1..]
    ensures forall i :: 0 <= i < |hs| ==> hs[i].buf.buffer == old(hs[i].buf.buffer)
    ensures ok <==> left >= 3
    ensures ok ==>
              var body := BodyOf(old(Meaning(h)));
              && (ended <==> left >= |body| + 3)
              && used == (if ended then |body| else left)
              && msg.Contents() ==
                 old(msg.Contents()) + (if ended then Chunk(BODY_END, body) else Chunk(BODY, body[..left - 3]))
              && (!ended ==> Meaning(h) == Element(h.hi, body[left - 3..], true))
  {
    hide Chunk, BodyOf, Meaning, Meanings, Separate;
    FirstIsApart(hs, msg);
    OthersDiffer(hs, msg);
    ok, used, ended := PutBody(h, msg, left);
    RestKept(hs);
  }

  /** send_body: the chunk is put into the message, and a header whose body has ended leaves the list. */
  method SendBody(h: Header, msg: Buffer, left: nat, ghost head: ListHead, ghost hs: seq<Header>)
    returns (ok: bool, used: nat, ghost rest: seq<Header>)
    requires Queued(head, hs) && hs != [] && h == hs[0] && h.hi == BODY && msg.Valid() && Apart(msg, hs)
    modifies head, Links(hs), h`touched, h.buf, msg, msg.buffer
    ensures msg.Valid() && (msg.buffer == old(msg.buffer) || fresh(msg.buffer))
    ensures forall i :: 0 <= i < |hs| ==> hs[i].buf.buffer == old(hs[i].buf.buffer)
    ensures ok <==> left >= 3
    ensures ok ==>
              var body := BodyOf(old(Meaning(h)));
              && Queued(head, rest) && Apart(msg, rest)
              && if left < |body| + 3
                 then rest == hs && used == left
                      && msg.Contents() == old(msg.Contents()) + Chunk(BODY, body[..left - 3])
                      && Meanings(rest) == [Element(BODY, body[left - 3..], true)] + old(Meanings(hs))[1..]
                 else rest == hs[1..] && used == |body|
                      && msg.Contents() == old(msg.Contents()) + Chunk(BODY_END, body)
                      && Meanings(rest) == old(Meanings(hs))[1..]
  {
    hide Chunk, BodyOf, Meaning, Meanings, Apart, Queued;
    var ended;
    ok, used, ended := PutFirst(h, msg, left, head, hs);
    rest := hs;
    if ok && ended {
      RemoveFirst(h, msg, head, hs);
      rest := hs[1..];
    }
  }

  /** A plain header is copied whole and leaves the list. */
  method MoveHeader(h: Header, msg: Buffer, ghost head: ListHead, ghost hs: seq<Header>)
    requires Queued(head, hs) && hs != [] && h == hs[0] && msg.Valid() && Apart(msg, hs)
    modifies head, Links(hs), msg, msg.buffer
    ensures msg.Valid() && (msg.buffer == old(msg.buffer) || fresh(msg.buffer))
    ensures forall i :: 0 <= i < |hs| ==> hs[i].buf.buffer == old(hs[i].buf.buffer)
    ensures Queued(head, hs[1..]) && Apart(msg, hs[1..])
    ensures msg.Contents() == old(msg.Contents()) + old(Meaning(h)).data
    ensures Meanings(hs[1..]) == old(Meanings(hs))[1..]
  {
    hide Meanings, Separate, Buffer.Contents;
    FirstIsApart(hs, msg);
    OthersDiffer(hs, msg);
    CopyAll(h.buf, msg);
    RestKept(hs);
    RemoveFirst(h, msg, head, hs);
  }

  method CopyAll(buf: Buffer, msg: Buffer)
    requires msg.Valid() && buf.Valid() && msg != buf && msg.buffer != buf.buffer
    modifies msg, msg.buffer
    ensures msg.Valid() && (msg.buffer == old(msg.buffer) || fresh(msg.buffer))
    ensures msg.Contents() == old(msg.Contents()) + buf.Contents()
  {
    hide Buffer.Contents, Buffer.Valid;
    assert buf.Contents()[..buf.dataSize] == buf.Contents();
    var data := Front(buf, buf.dataSize);
    msg.InsertEnd(data);
  }

  /** What one turn of the packet-filling loop does: headers that are added, the queue and the room
      left over; no room when the packet is finished. */
  datatype Turn = Takes(added: seq<seq<Byte>>, rest: seq<Element>, left: nat) | Wraps | Fails

  function TurnOf(q: seq<Element>, left: nat, mtu: nat): Turn
    requires q != []
  {
    var e := q[0];
    if e.hi == BODY then
      var body := BodyOf(e);
      if left < |body| + 3 then
        if left < 3 then Wraps
        else Takes([Chunk(BODY, body[..left - 3])], [Element(BODY, body[left - 3..], true)] + q[1..], 0)
      else Takes([Chunk(BODY_END, body)], q[1..], left - |body|)
    else if e.hi == EMPTY then Takes([], q[1..], left)
    else if |e.data| <= left then Takes([e.data], q[1..], left - |e.data|)
    else if |e.data| > mtu then Fails
    else Takes([], q, 0)
  }

  lemma TurnFills(q: seq<Element>, left: nat, mtu: nat)
    requires q != [] && left > 0
    ensures match TurnOf(q, left, mtu)
            case Wraps => Fill(q, left, mtu).Wrapped?
            case Fails => Fill(q, left, mtu).TooBig?
            case Takes(added, rest, left') =>
              Fill(q, left, mtu) == Obex.PrependAll(added, Fill(rest, left', mtu)) && (rest == q ==> left' == 0)
  {
    hide Chunk, BodyOf;
    var t := TurnOf(q, left, mtu);
    if t.Takes? && t.added == [] {
      assert forall hs: seq<seq<Byte>> :: [] + hs == hs;
    }
  }

  lemma FlattenOne(h: seq<Byte>)
    ensures Flatten([h]) == h && Flatten([]) == []
  {
    assert [h][1..] == [];
  }

  /** One turn of the loop of obex_object_send, with the queue's first header. */
  method TakeHeader(h: Header, msg: Buffer, left: nat, mtu: nat, ghost head: ListHead, ghost hs: seq<Header>)
    returns (status: Obex.Status, left': nat, ghost rest: seq<Header>)
    requires Queued(head, hs) && hs != [] && h == hs[0] && msg.Valid() && Apart(msg, hs)
    modifies head, Links(hs), h`touched, h.buf, msg, msg.buffer
    ensures msg.Valid() && (msg.buffer == old(msg.buffer) || fresh(msg.buffer))
    ensures forall i :: 0 <= i < |hs| ==> hs[i].buf.buffer == old(hs[i].buf.buffer)
    ensures match TurnOf(old(Meanings(hs)), left, mtu)
            case Wraps => status == Obex.Stranded
            case Fails => status == Obex.Failed
            case Takes(added, q', room) =>
              && status == Obex.More && left' == room
              && Queued(head, rest) && Apart(msg, rest) && Meanings(rest) == q' && (rest == hs || rest == hs[1..])
              && msg.Contents() == old(msg.Contents()) + Flatten(added)
  {
    hide Chunk, BodyOf, Queued, Apart, Separate, Buffer.Contents, Buffer.Valid, Flatten;
    FirstMeaning(head, hs);
    status, left', rest := Obex.More, left, hs;
    ghost var q := Meanings(hs);
    FlattenOne(TurnHeader(q, left, mtu));
    if h.hi == BODY {
      var ok, used;
      ok, used, rest := SendBody(h, msg, left, head, hs);
      if !ok {
        return Obex.Stranded, left, hs;
      }
      left' := left - used;
    } else if h.hi == EMPTY {
      RemoveFirst(h, msg, head, hs);
      rest := hs[1..];
    } else if h.buf.dataSize <= left {
      left' := left - h.buf.dataSize;
      MoveHeader(h, msg, head, hs);
      rest := hs[1..];
    } else if h.buf.dataSize > mtu {
      status := Obex.Failed;
    } else {
      left' := 0;
    }
  }

  ghost function TurnHeader(q: seq<Element>, left: nat, mtu: nat): seq<Byte>
    requires q != []
  {
    var t := TurnOf(q, left, mtu);
    if t.Takes? && t.added != [] then t.added[0] else []
  }

  lemma FirstMeaning(head: ListHead, hs: seq<Header>)
    requires Queued(head, hs) && hs != []
    ensures Separate(hs) && hs[0].buf.Valid() && Meanings(hs)[0] == Meaning(hs[0])
    ensures |Meaning(hs[0]).data| == hs[0].buf.dataSize
  {
  }

  lemma PartOf(hs: seq<Header>, k: nat)
    requires k <= |hs|
    ensures forall i :: 0 <= i < |hs| - k ==> Links(hs[k..])[i] == Links(hs)[k + i]
    ensures k < |hs| ==> hs[k..][0] == hs[k] && hs[k] in hs && hs[k].buf in Bufs(hs) && hs[k..][1..] == hs[k + 1..]
  {
  }

  lemma FillsOn(q0: seq<Element>, room: nat, mtu: nat, rows: seq<seq<Byte>>, q: seq<Element>, left: nat)
    requires Fill(q0, room, mtu) == Obex.PrependAll(rows, Fill(q, left, mtu)) && q != [] && left > 0
    ensures match TurnOf(q, left, mtu)
            case Wraps => Fill(q0, room, mtu).Wrapped?
            case Fails => Fill(q0, room, mtu).TooBig?
            case Takes(added, rest, left') =>
              && Fill(q0, room, mtu) == Obex.PrependAll(rows + added, Fill(rest, left', mtu))
              && (|rest| < |q| || (|rest| == |q| && left' == 0))
  {
    hide Chunk, BodyOf, Fill;
    TurnFills(q, left, mtu);
    var t := TurnOf(q, left, mtu);
    if t.Takes? {
      PrependTwice(rows, t.added, Fill(t.rest, t.left, mtu));
    }
  }

  lemma PrependTwice(a: seq<seq<Byte>>, b: seq<seq<Byte>>, r: FillResult)
    ensures Obex.PrependAll(a, Obex.PrependAll(b, r)) == Obex.PrependAll(a + b, r)
  {
    if r.Filled? {
      assert a + (b + r.headers) == (a + b) + r.headers;
    }
  }

  lemma {:induction false} FlattenJoin(a: seq<seq<Byte>>, b: seq<seq<Byte>>)
    ensures Flatten(a + b) == Flatten(a) + Flatten(b)
    decreases |a|
  {
    if a == [] {
      assert a + b == b;
    } else {
      FlattenJoin(a[1..], b);
      assert (a + b)[1..] == a[1..] + b;
    }
  }

  lemma FlattenBehind(before: seq<Byte>, a: seq<seq<Byte>>, b: seq<seq<Byte>>)
    ensures before + Flatten(a) + Flatten(b) == before + Flatten(a + b)
  {
    FlattenJoin(a, b);
  }

  lemma FillBegins(q: seq<Element>, left: nat, mtu: nat)
    ensures Obex.PrependAll([], Fill(q, left, mtu)) == Fill(q, left, mtu)
  {
    assert forall hs: seq<seq<Byte>> :: [] + hs == hs;
  }

  lemma FillStops(rows: seq<seq<Byte>>, q: seq<Element>, left: nat, mtu: nat)
    requires q == [] || left == 0
    ensures Obex.PrependAll(rows, Fill(q, left, mtu)) == Filled(rows, q)
  {
    assert rows + [] == rows;
  }

  /** One turn with the header that the list begins with, which is number k of those it began with. */
  method TakeNext(
    head: ListHead, entryOf: map<ListHead, Header>, msg: Buffer, left: nat, mtu: nat,
    ghost hs: seq<Header>, ghost k: nat)
    returns (status: Obex.Status, left': nat, ghost k': nat)
    requires k < |hs| && Queued(head, hs[k..]) && Knows(entryOf, hs)
    requires msg.Valid() && Apart(msg, hs[k..])
    modifies head, Links(hs), hs, Bufs(hs), msg, msg.buffer
    ensures msg.Valid() && (msg.buffer == old(msg.buffer) || fresh(msg.buffer))
    ensures match TurnOf(old(Meanings(hs[k..])), left, mtu)
            case Wraps => status == Obex.Stranded
            case Fails => status == Obex.Failed
            case Takes(added, q', room) =>
              && status == Obex.More && left' == room && k <= k' <= k + 1
              && Queued(head, hs[k'..]) && Apart(msg, hs[k'..]) && Meanings(hs[k'..]) == q'
              && msg.Contents() == old(msg.Contents()) + Flatten(added)
  {
    hide Separate, Apart, Meanings, IsList, TurnOf, Flatten, Buffer.Contents, Buffer.Valid, Links, Bufs;
    FirstIsNext(head, hs[k..]);
    PartOf(hs, k);
    var h := entryOf[head.next];
    assert h == hs[k];
    ghost var rest;
    status, left', rest := TakeHeader(h, msg, left, mtu, head, hs[k..]);
    k' := if rest == hs[k..] then k else k + 1;
  }

  /** The packet-filling loop of obex_object_send. */
  method FillMessage(
    head: ListHead, entryOf: map<ListHead, Header>, msg: Buffer, mtu: nat, ghost hs: seq<Header>)
    returns (status: Obex.Status, ghost rest: seq<Header>)
    requires Queued(head, hs) && Knows(entryOf, hs) && msg.Valid() && Apart(msg, hs) && mtu > COMMON_HDR
    modifies head, Links(hs), hs, Bufs(hs), msg, msg.buffer
    ensures msg.Valid() && (msg.buffer == old(msg.buffer) || fresh(msg.buffer))
    ensures match Fill(old(Meanings(hs)), mtu - COMMON_HDR, mtu)
            case Wrapped(_) => status == Obex.Stranded
            case TooBig(_) => status == Obex.Failed
            case Filled(headers, q') =>
              && status == Obex.More
              && Queued(head, rest) && Knows(entryOf, rest) && Apart(msg, rest) && Meanings(rest) == q'
              && msg.Contents() == old(msg.Contents()) + Flatten(headers)
  {
    hide Separate, Apart, Meanings, IsList, Fill, TurnOf, Flatten, Buffer.Contents, Buffer.Valid, Links, Bufs;
    ghost var q0, before := Meanings(hs), msg.Contents();
    ghost var rows: seq<seq<Byte>> := [];
    ghost var k: nat := 0;
    rest := hs;
    var left: nat := mtu - COMMON_HDR;
    FlattenOne([]);
    FillBegins(q0, left, mtu);
    assert hs[0..] == hs;
    while left > 0 && head.next != head
      invariant k <= |hs| && Queued(head, hs[k..]) && Apart(msg, hs[k..]) && msg.Valid()
      invariant msg.buffer == old(msg.buffer) || fresh(msg.buffer)
      invariant msg.Contents() == before + Flatten(rows)
      invariant Fill(q0, mtu - COMMON_HDR, mtu) == Obex.PrependAll(rows, Fill(Meanings(hs[k..]), left, mtu))
      decreases |hs| - k, left
    {
      FirstIsNext(head, hs[k..]);
      ghost var t := TurnOf(Meanings(hs[k..]), left, mtu);
      FillsOn(q0, mtu - COMMON_HDR, mtu, rows, Meanings(hs[k..]), left);
      status, left, k := TakeNext(head, entryOf, msg, left, mtu, hs, k);
      if status != Obex.More {
        return;
      }
      FlattenBehind(before, rows, t.added);
      rows := rows + t.added;
    }
    rest := hs[k..];
    FirstIsNext(head, rest);
    FillStops(rows, Meanings(rest), left, mtu);
    status := Obex.More;
  }

  lemma AllApart(hs: seq<Header>, msg: Buffer)
    requires Separate(hs) && Apart(msg, hs)
    ensures forall h :: h in hs ==> h.buf != msg && h.buf.buffer != msg.buffer
  {
  }

  twostate lemma AllKept(hs: seq<Header>)
    requires old(Separate(hs)) && forall h :: h in hs ==> unchanged(h) && unchanged(h.buf) && unchanged(h.buf.buffer)
    ensures Separate(hs) && Meanings(hs) == old(Meanings(hs))
    ensures forall h :: h in hs ==> h.buf.buffer == old(h.buf.buffer)
  {
    forall i | 0 <= i < |hs| ensures hs[i].buf.Valid() && hs[i].buf.buffer == old(hs[i].buf.buffer) {
      assert hs[i] in hs;
    }
    MeaningsKept(hs);
  }

  /** The message begins anew, with non-header data. */
  method BeginMessage(msg: Buffer, nonHeader: seq<Byte>, ghost head: ListHead, ghost hs: seq<Header>)
    requires Queued(head, hs) && Apart(msg, hs) && msg.Valid()
    modifies msg, msg.buffer
    ensures Queued(head, hs) && Apart(msg, hs) && Meanings(hs) == old(Meanings(hs))
    ensures msg.Valid() && (msg.buffer == old(msg.buffer) || fresh(msg.buffer)) && msg.Contents() == nonHeader
  {
    hide Separate, Meanings, Buffer.Contents, Buffer.Valid;
    AllApart(hs, msg);
    msg.Reuse();
    msg.InsertEnd(nonHeader);
    assert [] + nonHeader == nonHeader;
    AllKept(hs);
  }

  /** The message gets bytes in front. */
  method PutInFront(msg: Buffer, bytes: seq<Byte>, ghost head: ListHead, ghost hs: seq<Header>)
    requires Queued(head, hs) && Apart(msg, hs) && msg.Valid()
    modifies msg, msg.buffer
    ensures Queued(head, hs) && Apart(msg, hs) && Meanings(hs) == old(Meanings(hs))
    ensures msg.Valid() && msg.Contents() == bytes + old(msg.Contents())
  {
    hide Separate, Meanings, Buffer.Contents, Buffer.Valid;
    AllApart(hs, msg);
    msg.InsertBegin(bytes);
    AllKept(hs);
  }

  /** The building of a packet in obex_object_send: non-header data, headers, and the common header
      in front of them. The message is the packet that `Obex.Object.Send` returns. */
  method BuildPacket(
    head: ListHead, entryOf: map<ListHead, Header>, msg: Buffer, nonHeader: seq<Byte>,
    seqNum: Byte, opcode: Byte, mtu: nat, ghost hs: seq<Header>)
    returns (status: Obex.Status, ghost rest: seq<Header>)
    requires Queued(head, hs) && Knows(entryOf, hs) && msg.Valid() && Apart(msg, hs) && mtu > COMMON_HDR
    modifies head, Links(hs), hs, Bufs(hs), msg, msg.buffer
    ensures match Fill(old(Meanings(hs)), mtu - COMMON_HDR, mtu)
            case Wrapped(_) => status == Obex.Stranded
            case TooBig(_) => status == Obex.Failed
            case Filled(headers, q') =>
              && (status == if q' == [] then Obex.Finished else Obex.More)
              && Queued(head, rest) && Knows(entryOf, rest) && Apart(msg, rest) && Meanings(rest) == q'
              && msg.Valid() && msg.Contents() == Obex.Packet(seqNum, opcode, q' == [], nonHeader + Flatten(headers))
  {
    hide Queued, Apart, Meanings, Fill, Flatten, Buffer.Contents, Buffer.Valid;
    BeginMessage(msg, nonHeader, head, hs);
    status, rest := FillMessage(head, entryOf, msg, mtu, hs);
    if status != Obex.More {
      return;
    }
    FirstIsNext(head, rest);
    var last := head.next == head;
    var op := if last && opcode < 0x80 then opcode + Obex.FINAL as Byte else opcode;
    PutInFront(msg, [seqNum, op] + Encode16(msg.dataSize + COMMON_HDR - 1), head, rest);
    status := if last then Obex.Finished else Obex.More;
  }

  lemma {:induction false} MeaningsSnoc(hs: seq<Header>, h: Header)
    requires Separate(hs + [h])
    ensures Separate(hs) && h.buf.Valid() && Meanings(hs + [h]) == Meanings(hs) + [Meaning(h)]
    decreases |hs|
  {
    var all := hs + [h];
    forall i | 0 <= i < |hs| ensures all[i] == hs[i] {}
    assert all[|hs|] == h;
    if hs == [] {
      assert all[1..] == [];
    } else {
      assert all[1..] == hs[1..] + [h];
      MeaningsSnoc(hs[1..], h);
    }
  }

  /** The end of obex_object_addheader: the header goes to the end of the queue. */
  method Enqueue(h: Header, head: ListHead, ghost hs: seq<Header>)
    requires Queued(head, hs) && h.link !in [head] + Links(hs) && Separate(hs + [h])
    modifies h.link, head, Links(hs)
    ensures h.buf.Valid() && Queued(head, hs + [h]) && Meanings(hs + [h]) == old(Meanings(hs)) + [Meaning(h)]
  {
    hide Separate, Meanings;
    MeaningsSnoc(hs, h);
    assert Links(hs + [h]) == Links(hs) + [h.link];
    ListAddTail(h.link, head, Links(hs));
    AllKept(hs + [h]);
  }

  /** A received header, from its node's buffer. */
  ghost function ReceivedAs(h: Header): Received
    requires h.buf.Valid()
    reads h.buf, h.buf.buffer
  {
    Received(h.hi, h.buf.Contents())
  }

  method ReadValue(h: Header) returns (r: (Byte, Value))
    requires h.buf.Valid() && Obex.Readable(ReceivedAs(h))
    ensures r == Obex.ReadBack(ReceivedAs(h))
  {
    var data := Front(h.buf, h.buf.dataSize);
    assert data == h.buf.Contents();
    var value := match KindOf(h.hi)
                 case Uint32 => Bq4(Decode(data))
                 case Uint8 => Bq1(data[0])
                 case _ => Bs(data);
    r := (h.hi, value);
  }

  /** obex_object_getnextheader: the first header's value, and its node at the end of the other list. */
  method GetNextHeader(
    rx: ListHead, rm: ListHead, entryOf: map<ListHead, Header>, ghost hs: seq<Header>, ghost read: seq<Header>)
    returns (r: Option<(Byte, Value)>)
    requires Queued(rx, hs) && Knows(entryOf, hs) && IsList(rm, Links(read))
    requires Disjoint([rx] + Links(hs), [rm] + Links(read))
    requires hs != [] ==> Obex.Readable(ReceivedAs(hs[0]))
    modifies rx, Links(hs), rm, Links(read)
    ensures r.None? <==> hs == []
    ensures r.Some? ==> r.value == Obex.ReadBack(old(ReceivedAs(hs[0])))
    ensures r.Some? ==> Queued(rx, hs[1..]) && IsList(rm, Links(read + [hs[0]]))
  {
    hide IsList, Disjoint, Obex.Readable, Obex.ReadBack, ReceivedAs;
    FirstIsNext(rx, hs);
    if rx.next == rx {
      return None;
    }
    var h := entryOf[rx.next];
    FirstMeaning(rx, hs);
    var value := ReadValue(h);
    assert Links(read + [h]) == Links(read) + [h.link];
    ListMoveTailTo(h.link, rx, Links(hs), 0, rm, Links(read));
    r := Some(value);
  }
}
