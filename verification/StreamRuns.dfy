/** Whole runs of the receive path over a stream of packets that arrives in arbitrary chunks. */
module StreamRuns {
  import opened Basics
  import opened Endian
  import opened Packets
  import opened MessageServer

  /** A connection: the bytes in its buffer and the packets handed over so far. */
  datatype Conn = Conn(content: seq<Byte>, handed: seq<Packet>)

  /** A chunk, with the byte that memory holds behind the buffer when it arrives. */
  datatype Chunk = Chunk(bytes: seq<Byte>, beyond: Byte)

  const START := Conn([], [])

  function Arrive(c: Conn, chunk: Chunk): Conn {
    var (rest, got) := Receive(c.content + chunk.bytes, chunk.beyond);
    Conn(rest, c.handed + (if got.Some? then [got.value] else []))
  }

  function Serve(c: Conn, chunks: seq<Chunk>): Conn
    decreases |chunks|
  {
    if chunks == [] then c else Serve(Arrive(c, chunks[0]), chunks[1..])
  }

  /** All bytes of the chunks. */
  function Received(chunks: seq<Chunk>): seq<Byte> {
    if chunks == [] then [] else chunks[0].bytes + Received(chunks[1..])
  }

  /** The images of packets, one after the other. */
  function Stream(ps: seq<Packet>): seq<Byte> {
    if ps == [] then [] else ps[0].Image() + Stream(ps[1..])
  }

  predicate Sent(ps: seq<Packet>) { forall p :: p in ps ==> p.Valid() && p.head == HEAD }

  /** A single byte arrives on an empty buffer and memory does not happen to hold 0xEF behind it: it is dropped. */
  predicate Drops(c: Conn, chunk: Chunk) {
    c.content == [] && |chunk.bytes| == 1 && chunk.beyond != 0xEF
  }

  predicate NothingDropped(c: Conn, chunks: seq<Chunk>)
    decreases |chunks|
  {
    chunks != [] ==> !Drops(c, chunks[0]) && NothingDropped(Arrive(c, chunks[0]), chunks[1..])
  }

  /** The first k packets have been handed over and the rest of what was received is in the buffer. */
  predicate InStep(c: Conn, ps: seq<Packet>, k: nat, received: seq<Byte>) {
    k <= |ps| && c.handed == ps[..k] && received == Stream(ps[..k]) + c.content
  }

  lemma {:induction false} StreamSplit(ps: seq<Packet>, k: nat)
    requires k <= |ps|
    ensures Stream(ps) == Stream(ps[..k]) + Stream(ps[k..])
  {
    hide Packet.Image;
    if k == 0 {
      assert ps[..0] == [] && ps[0..] == ps;
    } else {
      StreamSplit(ps[1..], k - 1);
      assert ps[..k][1..] == ps[1..][..k - 1] && ps[1..][k - 1..] == ps[k..];
      Reassociate(ps[0].Image(), Stream(ps[1..][..k - 1]), Stream(ps[k..]));
    }
  }

  lemma Reassociate(a: seq<Byte>, b: seq<Byte>, c: seq<Byte>)
    ensures a + (b + c) == a + b + c
  {
  }

  /** What stands in the buffer of a connection in step is the beginning of what follows the first k packets. */
  lemma FrontOfRest(ps: seq<Packet>, k: nat, received: seq<Byte>, content: seq<Byte>, more: seq<Byte>)
    requires k <= |ps| && received == Stream(ps[..k]) + content && received + more <= Stream(ps)
    ensures content + more <= Stream(ps[k..])
    ensures received + more == Stream(ps[..k]) + (content + more)
  {
    hide Stream;
    StreamSplit(ps, k);
    var front := Stream(ps[..k]);
    Reassociate(front, content, more);
    assert content + more == (front + (content + more))[|front|..];
    assert (received + more)[|front|..] == Stream(ps)[|front|..|received + more|];
    assert Stream(ps)[|front|..] == Stream(ps[k..]);
  }

  lemma StreamUpTo(ps: seq<Packet>, k: nat)
    requires k < |ps|
    ensures ps[..k + 1] == ps[..k] + [ps[k]]
    ensures Stream(ps[..k + 1]) == Stream(ps[..k]) + ps[k].Image()
    ensures Stream(ps[k..]) == ps[k].Image() + Stream(ps[k + 1..])
  {
    hide Packet.Image;
    StreamSplit(ps[..k + 1], k);
    assert ps[..k + 1][..k] == ps[..k] && ps[..k + 1][k..] == [ps[k]];
    assert [ps[k]][1..] == [];
    assert ps[k].Image() + [] == ps[k].Image();
    assert ps[k..][1..] == ps[k + 1..];
  }

  lemma NothingBehindAll(ps: seq<Packet>)
    ensures Stream(ps[|ps|..]) == []
  {
  }

  /** One callback of a connection in step: exactly one packet is handed over if a complete image is in front,
      none if not, and the connection stays in step. */
  lemma ArriveInStep(c: Conn, chunk: Chunk, ps: seq<Packet>, k: nat, received: seq<Byte>)
    requires Sent(ps) && InStep(c, ps, k, received) && received + chunk.bytes <= Stream(ps)
    requires chunk.bytes != [] && !Drops(c, chunk)
    ensures k < |ps|
    ensures InStep(Arrive(c, chunk), ps, if |c.content + chunk.bytes| >= |ps[k].Image()| then k + 1 else k,
                   received + chunk.bytes)
  {
    hide Receive, Stream, Packet.Image, Packet.Valid;
    var s := c.content + chunk.bytes;
    FrontOfRest(ps, k, received, c.content, chunk.bytes);
    assert s != [] by { assert s[|c.content|..] == chunk.bytes; }
    assert k < |ps| by { if k == |ps| { NothingBehindAll(ps); assert false; } }
    var p := ps[k];
    StreamUpTo(ps, k);
    assert p in ps;
    ReceiveFront(p, Stream(ps[k + 1..]), s, chunk.beyond);
    if |s| >= |p.Image()| {
      Reassociate(Stream(ps[..k]), p.Image(), s[|p.Image()|..]);
    } else {
      assert c.handed + [] == c.handed;
    }
  }

  /** What is received of a stream whose next image is that of p. */
  lemma ReceiveFront(p: Packet, more: seq<Byte>, s: seq<Byte>, beyond: Byte)
    requires p.Valid() && p.head == HEAD && s <= p.Image() + more && s != [] && (|s| == 1 ==> beyond == 0xEF)
    ensures |s| >= |p.Image()| ==>
      s == p.Image() + s[|p.Image()|..] && Receive(s, beyond) == (s[|p.Image()|..], Some(p))
    ensures |s| < |p.Image()| ==> Receive(s, beyond) == (s, None)
  {
    hide HeadPos, Construct, Packet.Image, Packet.Valid;
    var image := p.Image();
    ImageStarts(p);
    if |s| >= |image| {
      assert s[..|image|] == image;
      Resynchronises([], p, s[|image|..], beyond);
      assert [] + image + s[|image|..] == s;
    } else if |s| >= 2 {
      assert s <= image by { assert s == (image + more)[..|s|]; }
      PartOfImage(p, s, beyond);
      assert s[0..] == s;
    } else {
      assert s == [0xEF] by { assert s[0] == (image + more)[0]; }
      OneByteHead(s, beyond);
      assert s[0..] == s;
    }
  }

  lemma OneByteHead(s: seq<Byte>, beyond: Byte)
    requires s == [0xEF] && beyond == 0xEF
    ensures HeadPos(s, beyond) == 0 && HeadFits(s, beyond) && Construct(s, beyond) == TooShort
  {
    TwoBytes(0xEF, beyond);
    HeadPosIs(s, beyond, 0);
  }

  // ---------- what is lost stays lost

  /** The number of bytes that are accounted for. */
  function Held(c: Conn): nat { |Stream(c.handed)| + |c.content| }

  lemma {:induction false} StreamSnoc(ps: seq<Packet>, p: Packet)
    ensures |Stream(ps + [p])| == |Stream(ps)| + |p.Image()|
  {
    if ps == [] {
      assert [] + [p] == [p] && [p][1..] == [];
    } else {
      StreamSnoc(ps[1..], p);
      assert (ps + [p])[1..] == ps[1..] + [p];
    }
  }

  /** A callback never accounts for more bytes than have arrived. */
  lemma ArriveHeld(c: Conn, chunk: Chunk)
    ensures Held(Arrive(c, chunk)) <= Held(c) + |chunk.bytes|
    ensures Drops(c, chunk) ==> Held(Arrive(c, chunk)) < Held(c) + |chunk.bytes|
  {
    hide HeadPos;
    var s := c.content + chunk.bytes;
    var (rest, got) := Receive(s, chunk.beyond);
    if got.Some? {
      AfterHead(s, chunk.beyond);
      StreamSnoc(c.handed, got.value);
      assert |rest| + |got.value.Image()| <= |s| by { TakenBytes(s[HeadPos(s, chunk.beyond)..], chunk.beyond); }
    } else {
      assert c.handed + [] == c.handed;
    }
    if Drops(c, chunk) { DroppedByte(s, chunk.beyond); }
  }

  lemma TakenBytes(s: seq<Byte>, beyond: Byte)
    requires HeadFits(s, beyond)
    ensures match Construct(s, beyond)
            case Complete(p, used) => used <= |s| && |p.Image()| <= used
            case _ => true
  {
    hide HeadPos, Field;
  }

  lemma DroppedByte(s: seq<Byte>, beyond: Byte)
    requires |s| == 1 && beyond != 0xEF
    ensures HeadPos(s, beyond) == 1
  {
    TwoBytes(s[0], beyond);
    HeadPosIs(s, beyond, 1);
  }

  lemma {:induction false} ServeHeld(c: Conn, chunks: seq<Chunk>)
    ensures Held(Serve(c, chunks)) <= Held(c) + |Received(chunks)|
    ensures !NothingDropped(c, chunks) ==> Held(Serve(c, chunks)) < Held(c) + |Received(chunks)|
    decreases |chunks|
  {
    hide Arrive, Drops, Held;
    if chunks != [] {
      ArriveHeld(c, chunks[0]);
      ServeHeld(Arrive(c, chunks[0]), chunks[1..]);
    }
  }

  // ---------- how many packets are handed over

  /** How many packets lie completely in the first n bytes of their stream. */
  function Arrived(ps: seq<Packet>, n: nat): (a: nat)
    ensures a <= |ps|
  {
    if ps == [] || n < |ps[0].Image()| then 0 else 1 + Arrived(ps[1..], n - |ps[0].Image()|)
  }

  /** How many packets have been handed over behind these chunks, if it were k packets and n bytes before: each callback
      hands over one more if one more has arrived. */
  function HandedOver(ps: seq<Packet>, chunks: seq<Chunk>, k: nat, n: nat): nat
    decreases |chunks|
  {
    if chunks == [] then k
    else
      var n2 := n + |chunks[0].bytes|;
      HandedOver(ps, chunks[1..], if Arrived(ps, n2) > k then k + 1 else k, n2)
  }

  lemma {:induction false} ArrivedIs(ps: seq<Packet>, n: nat, k: nat)
    ensures Arrived(ps, n) > k <==> k < |ps| && n >= |Stream(ps[..k + 1])|
  {
    hide Packet.Image;
    if ps != [] {
      var image := ps[0].Image();
      if k == 0 {
        assert ps[..1][1..] == [];
      } else if k < |ps| {
        assert ps[..k + 1][1..] == ps[1..][..k];
        if n >= |image| { ArrivedIs(ps[1..], n - |image|, k - 1); }
      }
    }
  }

  lemma {:induction false} ArrivedGrows(ps: seq<Packet>, n: nat, m: nat)
    requires n <= m
    ensures Arrived(ps, n) <= Arrived(ps, m)
  {
    hide Packet.Image;
    if ps != [] && n >= |ps[0].Image()| {
      ArrivedGrows(ps[1..], n - |ps[0].Image()|, m - |ps[0].Image()|);
    }
  }

  // ---------- whole runs

  lemma {:induction false} ServeInStep(c: Conn, chunks: seq<Chunk>, ps: seq<Packet>, k: nat, received: seq<Byte>)
    requires Sent(ps) && InStep(c, ps, k, received) && received + Received(chunks) <= Stream(ps)
    requires (forall x :: x in chunks ==> x.bytes != []) && NothingDropped(c, chunks)
    ensures InStep(Serve(c, chunks), ps, HandedOver(ps, chunks, k, |received|), received + Received(chunks))
    decreases |chunks|
  {
    hide Arrive, Drops, InStep, Stream;
    if chunks == [] {
      assert received + [] == received;
    } else {
      var x := chunks[0];
      var rest := Received(chunks[1..]);
      assert received + (x.bytes + rest) == received + x.bytes + rest;
      PrefixOfPrefix(received + x.bytes, rest, Stream(ps));
      ArriveInStep(c, x, ps, k, received);
      OneMoreArrived(c, x, ps, k, received);
      var k1 := if |c.content + x.bytes| >= |ps[k].Image()| then k + 1 else k;
      ServeInStep(Arrive(c, x), chunks[1..], ps, k1, received + x.bytes);
    }
  }

  lemma OneMoreArrived(c: Conn, chunk: Chunk, ps: seq<Packet>, k: nat, received: seq<Byte>)
    requires k < |ps| && InStep(c, ps, k, received)
    ensures |c.content + chunk.bytes| >= |ps[k].Image()| <==> Arrived(ps, |received| + |chunk.bytes|) > k
  {
    hide Stream, Packet.Image;
    ArrivedIs(ps, |received| + |chunk.bytes|, k);
    StreamUpTo(ps, k);
  }

  lemma PrefixOfPrefix(a: seq<Byte>, b: seq<Byte>, s: seq<Byte>)
    requires a + b <= s
    ensures a <= s
  {
    assert a == (a + b)[..|a|];
  }

  /** Over every chunking of a stream of packets: the packets handed over are the first ones sent, in order and in the
      number that HandedOver gives, and the bytes in the buffer are exactly those received after them, if and only if
      no single byte was dropped on arrival. Otherwise it is not even the case for any other number. */
  lemma StreamConserved(ps: seq<Packet>, chunks: seq<Chunk>)
    requires Sent(ps) && (forall x :: x in chunks ==> x.bytes != []) && Received(chunks) <= Stream(ps)
    ensures NothingDropped(START, chunks) <==>
      InStep(Serve(START, chunks), ps, HandedOver(ps, chunks, 0, 0), Received(chunks))
    ensures !NothingDropped(START, chunks) ==> forall k :: !InStep(Serve(START, chunks), ps, k, Received(chunks))
  {
    hide Serve, NothingDropped, HandedOver;
    assert InStep(START, ps, 0, []) by { assert ps[..0] == []; }
    assert [] + Received(chunks) == Received(chunks);
    if NothingDropped(START, chunks) {
      ServeInStep(START, chunks, ps, 0, []);
    } else {
      ServeHeld(START, chunks);
      var c := Serve(START, chunks);
      forall k: nat ensures !InStep(c, ps, k, Received(chunks)) {
        if k <= |ps| && c.handed == ps[..k] { assert |Stream(ps[..k]) + c.content| == Held(c); }
      }
    }
  }

  /** The bytes received up to j callbacks before the end. */
  function BytesBefore(chunks: seq<Chunk>, j: nat): nat
    requires j <= |chunks|
  {
    |Received(chunks[..|chunks| - j])|
  }

  /** At every point, j callbacks before the end, at least m - j packets had arrived. */
  predicate InTime(ps: seq<Packet>, chunks: seq<Chunk>, n: nat, m: nat) {
    forall j :: 0 <= j < |chunks| ==> Arrived(ps, n + BytesBefore(chunks, j)) + j >= m
  }

  lemma InTimeStep(ps: seq<Packet>, chunks: seq<Chunk>, n: nat, m: nat)
    requires chunks != []
    ensures var n2 := n + |chunks[0].bytes|;
      InTime(ps, chunks, n, m) <==> InTime(ps, chunks[1..], n2, m) && Arrived(ps, n2) + |chunks| - 1 >= m
  {
    hide Arrived, BytesBefore;
    var n2 := n + |chunks[0].bytes|;
    var rest := chunks[1..];
    forall j | 0 <= j < |chunks|
      ensures n + BytesBefore(chunks, j) == if j < |rest| then n2 + BytesBefore(rest, j) else n2 {
      BytesBeforeStep(chunks, j);
    }
    if InTime(ps, chunks, n, m) {
      assert Arrived(ps, n + BytesBefore(chunks, |rest|)) + |rest| >= m;
      forall j | 0 <= j < |rest| ensures Arrived(ps, n2 + BytesBefore(rest, j)) + j >= m {
        assert Arrived(ps, n + BytesBefore(chunks, j)) + j >= m;
      }
    }
    if InTime(ps, rest, n2, m) && Arrived(ps, n2) + |rest| >= m {
      forall j | 0 <= j < |chunks| ensures Arrived(ps, n + BytesBefore(chunks, j)) + j >= m {
        if j < |rest| { assert Arrived(ps, n2 + BytesBefore(rest, j)) + j >= m; }
      }
    }
  }

  /** As one callback hands over at most one packet, m packets have been handed over exactly when there were enough
      callbacks for them and they arrived in time. */
  lemma {:induction false} HandedAtLeast(ps: seq<Packet>, chunks: seq<Chunk>, k: nat, n: nat, m: nat)
    requires k <= Arrived(ps, n)
    ensures HandedOver(ps, chunks, k, n) >= m <==> k + |chunks| >= m && InTime(ps, chunks, n, m)
    decreases |chunks|
  {
    hide Arrived, InTime;
    if chunks == [] {
      NoCallbacks(ps, n, m);
    } else {
      var n2 := n + |chunks[0].bytes|;
      ArrivedGrows(ps, n, n2);
      InTimeStep(ps, chunks, n, m);
      HandedAtLeast(ps, chunks[1..], if Arrived(ps, n2) > k then k + 1 else k, n2, m);
    }
  }

  lemma NoCallbacks(ps: seq<Packet>, n: nat, m: nat)
    ensures InTime(ps, [], n, m)
  {
  }

  lemma BytesBeforeStep(chunks: seq<Chunk>, j: nat)
    requires j < |chunks|
    ensures BytesBefore(chunks, j) ==
      |chunks[0].bytes| + if j < |chunks| - 1 then BytesBefore(chunks[1..], j) else 0
  {
    var front := chunks[..|chunks| - j];
    var rest := chunks[1..];
    assert front[0] == chunks[0];
    assert Received(front) == chunks[0].bytes + Received(front[1..]);
    if j < |rest| {
      assert front[1..] == rest[..|rest| - j];
    } else {
      assert front[1..] == [];
    }
  }

  /** All packets have been handed over exactly when there were at least as many callbacks and all but j packets had
      arrived j callbacks before the end. */
  lemma AllHandedOver(ps: seq<Packet>, chunks: seq<Chunk>)
    ensures HandedOver(ps, chunks, 0, 0) >= |ps| <==> |chunks| >= |ps| && InTime(ps, chunks, 0, |ps|)
  {
    hide HandedOver, Arrived, InTime;
    HandedAtLeast(ps, chunks, 0, 0, |ps|);
  }

  /** Such a byte is dropped, for example, when a stream starts with a chunk of one byte. */
  lemma FirstByteDropped()
    ensures Serve(START, [Chunk([0xEF], 0)]) == START
  {
    DroppedByte([0xEF], 0);
    assert [] + [0xEF] == [0xEF];
    var chunks := [Chunk([0xEF], 0)];
    assert chunks[1..] == [];
    assert START.handed + [] == START.handed;
  }
}
