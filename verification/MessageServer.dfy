/** The receive path: chunks are appended to the connection buffer and packets are cut off its front. */
module MessageServer {
  import opened Basics
  import opened Endian
  import opened Buffers
  import opened Packets

  // ---------- one callback, on the readable bytes

  /** From a head at the front of the bytes, sizes can be computed. */
  lemma FrontFits(s: seq<Byte>, beyond: Byte)
    requires s != [] && HeadAt(s, 0, beyond) == HEAD
    ensures HeadPos(s, beyond) == 0 && HeadFits(s, beyond)
  {
    HeadPosIs(s, beyond, 0);
  }

  lemma AfterHead(s: seq<Byte>, beyond: Byte)
    requires HeadPos(s, beyond) < |s|
    ensures var t := s[HeadPos(s, beyond)..]; t != [] && HeadAt(t, 0, beyond) == HEAD && HeadFits(t, beyond)
  {
    var h := HeadPos(s, beyond);
    var t := s[h..];
    assert t[0] == s[h] && (h + 1 < |s| ==> t[1] == s[h + 1]);
    FrontFits(t, beyond);
  }

  /** onMessage: bytes before a head are dropped, all of them if there is none; then one packet is taken
      if it is complete. The byte behind the buffer may take part in the search for the head. */
  function Receive(content: seq<Byte>, beyond: Byte): (r: (seq<Byte>, Option<Packet>)) {
    var h := HeadPos(content, beyond);
    if h == |content| then ([], None)
    else
      AfterHead(content, beyond);
      var rest := content[h..];
      match Construct(rest, beyond)
      case Complete(p, used) => (rest[used..], Some(p))
      case _ => (rest, None)
  }

  class CMuduoServer {
    /** The packets handed to the task module. */
    var handed: seq<Packet>

    constructor ()
      ensures handed == []
    {
      handed := [];
    }

    /** A chunk arrives and is appended, then the callback runs. */
    method OnChunk(buf: Buffer, chunk: seq<Byte>, beyond: Byte)
      requires buf.Valid()
      modifies this`handed, buf, buf.store
      ensures buf.Valid() && (buf.store == old(buf.store) || fresh(buf.store))
      ensures var (rest, got) := Receive(old(buf.View().content) + chunk, beyond);
        buf.View().content == rest && handed == old(handed) + (if got.Some? then [got.value] else [])
    {
      buf.Append(chunk);
      OnMessage(buf, beyond);
    }

    method OnMessage(buf: Buffer, beyond: Byte)
      requires buf.Valid()
      modifies this`handed, buf`readerIndex, buf`writerIndex
      ensures buf.Valid()
      ensures var (rest, got) := Receive(old(buf.View().content), beyond);
        buf.View().content == rest && handed == old(handed) + (if got.Some? then [got.value] else [])
    {
      hide HeadPos, Construct;
      var packet := new CPacket();
      var content := buf.Peek();
      var ret, pos := packet.FindHeadStart(content, beyond);
      if ret != 0 {
        buf.RetrieveAll();
        assert handed + [] == handed;
        return;
      }
      AfterHead(content, beyond);
      buf.Retrieve(pos);
      var used;
      var rest := buf.Peek();
      assert rest == content[pos..];
      ret, used := packet.ConstructData(rest, beyond);
      if ret != 0 {
        assert handed + [] == handed;
        return;
      }
      ConstructUses(rest, beyond);
      buf.Retrieve(used);
      handed := handed + [packet.Value()];
    }
  }

  lemma ConstructUses(s: seq<Byte>, beyond: Byte)
    requires HeadFits(s, beyond)
    ensures match Construct(s, beyond) case Complete(p, used) => used <= |s| case _ => true
  {
  }

  // ---------- resynchronisation

  /** Bytes in which no head starts, not even one that straddles their end and an image behind them. */
  predicate Garbage(s: seq<Byte>) {
    && (forall i :: 0 <= i < |s| - 1 ==> !(s[i] == 0xEF && s[i + 1] == 0xEF))
    && (s != [] ==> s[|s| - 1] != 0xEF)
  }

  lemma HeadBehindGarbage(junk: seq<Byte>, s: seq<Byte>, beyond: Byte)
    requires Garbage(junk) && s != [] && HeadAt(s, 0, beyond) == HEAD
    ensures HeadPos(junk + s, beyond) == |junk|
  {
    var all := junk + s;
    forall i | 0 <= i < |junk| ensures HeadAt(all, i, beyond) != HEAD { TwoBytes(all[i], all[i + 1]); }
    assert all[|junk|] == s[0] && (|s| > 1 ==> all[|junk| + 1] == s[1]);
    HeadPosIs(all, beyond, |junk|);
  }

  /** One callback drops the garbage in front of a packet, hands the packet over with all its fields,
      and leaves exactly what follows it. */
  lemma Resynchronises(junk: seq<Byte>, p: Packet, post: seq<Byte>, beyond: Byte)
    requires Garbage(junk) && p.Valid() && p.head == HEAD
    ensures Receive(junk + p.Image() + post, beyond) == (post, Some(p))
  {
    hide HeadPos, Construct, HeadAt;
    var s := p.Image() + post;
    ImageStarts(p);
    DecodeImage(p, post, beyond);
    FrontIsHead(s, beyond);
    HeadBehindGarbage(junk, s, beyond);
    assert junk + p.Image() + post == junk + s;
    assert (junk + s)[|junk|..] == s;
    assert s[|p.Image()|..] == post;
  }

  lemma FrontIsHead(s: seq<Byte>, beyond: Byte)
    requires |s| >= 2 && s[0] == 0xEF && s[1] == 0xEF
    ensures HeadAt(s, 0, beyond) == HEAD
  {
    TwoBytes(s[0], s[1]);
  }

  // ---------- one callback, byte by byte

  /** The bytes EF EF stand at place i; behind the last byte, memory holds beyond. */
  predicate HeadStarts(s: seq<Byte>, i: int, beyond: Byte) {
    0 <= i < |s| && s[i] == 0xEF && (if i + 1 < |s| then s[i + 1] else beyond) == 0xEF
  }

  lemma HeadStartsIs(s: seq<Byte>, i: nat, beyond: Byte)
    requires i < |s|
    ensures HeadStarts(s, i, beyond) <==> HeadAt(s, i, beyond) == HEAD
  {
    TwoBytes(s[i], if i + 1 < |s| then s[i + 1] else beyond);
  }

  /** Bytes without a head are all dropped. */
  lemma NoHeadDropsAll(content: seq<Byte>, beyond: Byte)
    requires forall i :: 0 <= i < |content| ==> !HeadStarts(content, i, beyond)
    ensures Receive(content, beyond) == ([], None)
  {
    hide HeadAt, HeadStarts;
    forall i | 0 <= i < |content| ensures HeadAt(content, i, beyond) != HEAD { HeadStartsIs(content, i, beyond); }
    HeadPosIs(content, beyond, |content|);
  }

  /** Of garbage in front of a part of an image, exactly the part is left, and nothing is handed over. */
  lemma PartIsKept(junk: seq<Byte>, p: Packet, part: seq<Byte>, beyond: Byte)
    requires Garbage(junk) && p.Valid() && p.head == HEAD
    requires part <= p.Image() && part != p.Image() && (2 <= |part| || (|part| == 1 && beyond == 0xEF))
    ensures Receive(junk + part, beyond) == (part, None)
  {
    hide HeadPos, HeadAt, Construct, Packet.Image, Packet.Valid;
    ImageStarts(p);
    assert part[0] == p.Image()[0] && (|part| >= 2 ==> part[1] == p.Image()[1]);
    HeadStartsIs(part, 0, beyond);
    HeadBehindGarbage(junk, part, beyond);
    assert (junk + part)[|junk|..] == part;
    if |part| >= 2 { PartOfImage(p, part, beyond); } else { FrontFits(part, beyond); ConstructShort(part, beyond); }
  }

  /** ConstructData on data that does not start with a head: return code and bytes used count from the start. */
  lemma ConstructBehind(junk: seq<Byte>, p: Packet, s: seq<Byte>, beyond: Byte)
    requires Garbage(junk) && p.Valid() && p.head == HEAD && |s| >= MIN_SIZE
    requires s <= p.Image() || p.Image() <= s
    ensures HeadFits(junk + s, beyond)
    ensures Construct(junk + s, beyond) ==
      if p.Image() <= s then Complete(p, |junk| + 34 + |p.data|) else Incomplete(|junk| + 18)
  {
    hide HeadPos, HeadAt, Field, Packet.Image, Construct;
    var all := junk + s;
    ImageStarts(p);
    assert s[0] == 0xEF && s[1] == 0xEF by { assert s[0] == p.Image()[0] && s[1] == p.Image()[1]; }
    HeadStartsIs(s, 0, beyond);
    HeadBehindGarbage(junk, s, beyond);
    HeadInFront(s, beyond);
    assert HeadFits(s, beyond);
    ConstructAt(all, beyond);
    ConstructAt(s, beyond);
    ShiftedPacket(junk, s);
    if p.Image() <= s {
      assert s == p.Image() + s[|p.Image()|..];
      DecodeImage(p, s[|p.Image()|..], beyond);
    } else {
      PartOfImage(p, s, beyond);
    }
  }

  lemma ShiftedPacket(junk: seq<Byte>, s: seq<Byte>)
    requires |s| >= MIN_SIZE
    ensures Field(junk + s, |junk| + 14, 4) == Field(s, 14, 4)
    ensures Field(s, 14, 4) <= |s| - MIN_SIZE ==> PacketAt(junk + s, |junk|) == PacketAt(s, 0)
  {
    hide FromBig;
    var all, h := junk + s, |junk|;
    assert all[h + 14..h + 14 + 4] == s[14..14 + 4];
    if Field(s, 14, 4) <= |s| - MIN_SIZE {
      var n := Field(s, 14, 4);
      assert all[h + 0..h + 0 + 2] == s[0..0 + 2] && all[h + 2..h + 2 + 2] == s[2..2 + 2];
      assert all[h + 4..h + 4 + 2] == s[4..4 + 2] && all[h + 6..h + 6 + 2] == s[6..6 + 2];
      assert all[h + 10..h + 10 + 4] == s[10..10 + 4];
      assert all[h + 18..h + 18 + n] == s[18..18 + n] && all[h + 18 + n..h + 34 + n] == s[18 + n..34 + n];
    }
  }

  /** The bytes at a head are the image of the packet read there. */
  lemma ImageAtHead(s: seq<Byte>)
    requires |s| >= MIN_SIZE && Field(s, 14, 4) <= |s| - MIN_SIZE
    ensures PacketAt(s, 0).Image() == s[..MIN_SIZE + Field(s, 14, 4)] && PacketAt(s, 0).Valid()
  {
    hide Field, BigEndian, FromBig;
    var n := Field(s, 14, 4);
    var p := PacketAt(s, 0);
    HeaderAtHead(s);
    assert p.data == s[18..18 + n] && p.check == s[18 + n..34 + n];
    assert s[..18] + s[18..18 + n] + s[18 + n..34 + n] == s[..34 + n];
    TypedAtHead(s);
  }

  lemma TypedAtHead(s: seq<Byte>)
    requires |s| >= MIN_SIZE && Field(s, 14, 4) <= |s| - MIN_SIZE
    ensures PacketAt(s, 0).Typed()
  {
    Ranges();
  }

  lemma FieldBytes(s: seq<Byte>, i: nat, n: nat)
    requires i + n <= |s|
    ensures BigEndian(n, Field(s, i, n)) == s[i..i + n]
  {
    BigOfFromBig(s[i..i + n]);
  }

  lemma HeaderAtHead(s: seq<Byte>)
    requires |s| >= MIN_SIZE && Field(s, 14, 4) <= |s| - MIN_SIZE
    ensures PacketAt(s, 0).Header() == s[..18]
  {
    hide Field, BigEndian;
    FieldBytes(s, 0, 2);
    FieldBytes(s, 2, 2);
    FieldBytes(s, 4, 2);
    FieldBytes(s, 6, 2);
    OneByte(s, 8);
    FieldBytes(s, 8, 1);
    OneByte(s, 9);
    FieldBytes(s, 9, 1);
    FieldBytes(s, 10, 4);
    FieldBytes(s, 14, 4);
    assert s[0..2] + s[2..4] + s[4..6] + s[6..8] + s[8..9] + s[9..10] + s[10..14] + s[14..18] == s[..18];
  }

  /** A callback that hands over a packet has dropped garbage in front of its image and leaves what follows it. */
  lemma WhatIsHanded(content: seq<Byte>, beyond: Byte) returns (junk: seq<Byte>)
    requires Receive(content, beyond).1.Some?
    ensures var (rest, got) := Receive(content, beyond);
      && got.value.Valid() && got.value.head == HEAD && Garbage(junk)
      && content == junk + got.value.Image() + rest
  {
    hide HeadAt, HeadStarts, HeadPos, Construct, Garbage, Packet.Image, Packet.Valid;
    var h := HeadPos(content, beyond);
    junk := content[..h];
    AfterHead(content, beyond);
    var s := content[h..];
    PacketInFront(s, beyond);
    GarbageInFront(content, h, beyond);
    assert content == junk + s;
    var (rest, got) := Receive(content, beyond);
    assert junk + (got.value.Image() + rest) == junk + got.value.Image() + rest;
  }

  lemma PacketInFront(s: seq<Byte>, beyond: Byte)
    requires s != [] && HeadAt(s, 0, beyond) == HEAD && HeadFits(s, beyond) && Construct(s, beyond).Complete?
    ensures var c := Construct(s, beyond);
      && c.packet.Valid() && c.packet.head == HEAD && c.used <= |s| && s == c.packet.Image() + s[c.used..]
  {
    hide HeadAt, HeadPos, Field, Packet.Image, Packet.Valid;
    HeadAtFront(s, beyond);
    ConstructAt(s, beyond);
    ImageAtHead(s);
    var n := MIN_SIZE + Field(s, 14, 4);
    assert s == s[..n] + s[n..];
  }

  lemma HeadAtFront(s: seq<Byte>, beyond: Byte)
    requires s != [] && HeadAt(s, 0, beyond) == HEAD
    ensures HeadPos(s, beyond) == 0 && (|s| >= 2 ==> Field(s, 0, 2) == HEAD)
  {
    HeadPosIs(s, beyond, 0);
    if |s| >= 2 { assert s[0..2] == [s[0], s[1]]; }
  }

  /** In front of the first head there is garbage. */
  lemma GarbageInFront(s: seq<Byte>, h: nat, beyond: Byte)
    requires h == HeadPos(s, beyond) < |s|
    ensures Garbage(s[..h])
  {
    hide HeadAt, HeadPos;
    HeadStartsIs(s, h, beyond);
    forall i | 0 <= i < h ensures !HeadStarts(s, i, beyond) { HeadStartsIs(s, i, beyond); }
    if h > 0 { assert !HeadStarts(s, h - 1, beyond); }
    forall i | 0 <= i < h - 1 ensures !(s[i] == 0xEF && s[i + 1] == 0xEF) { assert !HeadStarts(s, i, beyond); }
  }

  /** A callback hands over a packet exactly when, behind garbage, the whole image of one is there. What it leaves
      otherwise is nothing, or what stands behind the garbage and starts with a head. */
  lemma WhatIsKept(content: seq<Byte>, beyond: Byte)
    requires Receive(content, beyond).1.None?
    ensures var rest := Receive(content, beyond).0;
      && (forall junk, p: Packet, post :: Garbage(junk) && p.Valid() && p.head == HEAD ==>
            content != junk + p.Image() + post)
      && (rest == [] <==> forall i :: 0 <= i < |content| ==> !HeadStarts(content, i, beyond))
      && (rest != [] ==> HeadStarts(rest, 0, beyond) && exists junk :: Garbage(junk) && content == junk + rest)
  {
    hide HeadAt, HeadStarts, Garbage, Packet.Image, Packet.Valid, Construct;
    var h := HeadPos(content, beyond);
    forall junk, p: Packet, post | Garbage(junk) && p.Valid() && p.head == HEAD
      ensures content != junk + p.Image() + post
    {
      Resynchronises(junk, p, post, beyond);
    }
    forall i | 0 <= i < |content| ensures HeadStarts(content, i, beyond) <==> HeadAt(content, i, beyond) == HEAD {
      HeadStartsIs(content, i, beyond);
    }
    if h < |content| {
      AfterHead(content, beyond);
      GarbageInFront(content, h, beyond);
      HeadStartsIs(content[h..], 0, beyond);
      assert content == content[..h] + content[h..];
    }
  }
}
