/** The wire format of a packet, and the packet object that reads and writes it. */
module Packets {
  import opened Endian

  const HEAD := 0xEFEF
  const HEADER_SIZE := 18
  const CHECK_SIZE := 16
  const MIN_SIZE := 34

  /** The fields of a packet. */
  datatype Packet = Packet(
    head: int, cmdType: int, itemType: int, msgVersion: int, cypherModel: int, verifyModel: int,
    saveCmd: int, dataLength: int, data: seq<Byte>, check: seq<Byte>)
  {
    /** The fields have the width of their C types. */
    predicate Typed() {
      && 0 <= head < 0x10000 && 0 <= cmdType < 0x10000 && 0 <= itemType < 0x10000 && 0 <= msgVersion < 0x10000
      && 0 <= cypherModel < 256 && 0 <= verifyModel < 256
      && 0 <= saveCmd < 0x1_0000_0000 && 0 <= dataLength < 0x1_0000_0000
      && |check| == CHECK_SIZE
    }

    /** Moreover, the length field counts the payload. */
    predicate Valid() { Typed() && |data| == dataLength }

    function Header(): (s: seq<Byte>)
      ensures |s| == HEADER_SIZE
    {
      BigEndian(2, head) + BigEndian(2, cmdType) + BigEndian(2, itemType) + BigEndian(2, msgVersion)
      + BigEndian(1, cypherModel) + BigEndian(1, verifyModel) + BigEndian(4, saveCmd) + BigEndian(4, dataLength)
    }

    /** The packet on the wire: header, payload, check field. */
    function Image(): seq<Byte> { Header() + data + check }
  }

  // ---------- reading fields

  /** n bytes at position i, most significant first. */
  function Field(s: seq<Byte>, i: nat, n: nat): (v: nat)
    requires i + n <= |s|
    ensures v < Range(n)
  {
    FromBig(s[i..i + n])
  }

  /** The sixteen bits at position i; the byte behind the data is whatever memory holds there. */
  function HeadAt(s: seq<Byte>, i: nat, beyond: Byte): nat
    requires i < |s|
  {
    FromBig([s[i], if i + 1 < |s| then s[i + 1] else beyond])
  }

  lemma TwoBytes(a: Byte, b: Byte)
    ensures FromBig([a, b]) == 256 * a + b
    ensures FromBig([a, b]) == HEAD <==> a == 0xEF && b == 0xEF
  {
    assert [a, b][..1] == [a];
    assert FromBig([a]) == a by { assert [a][..0] == []; }
  }

  /** The first position that reads as a packet head, or the length of the data. */
  function HeadPos(s: seq<Byte>, beyond: Byte): (p: nat)
    ensures p <= |s|
    ensures forall i :: 0 <= i < p ==> HeadAt(s, i, beyond) != HEAD
    ensures p < |s| ==> HeadAt(s, p, beyond) == HEAD
  {
    if s == [] then 0
    else if HeadAt(s, 0, beyond) == HEAD then 0
    else
      var p := HeadPos(s[1..], beyond);
      assert forall i :: 0 <= i < |s[1..]| ==> HeadAt(s[1..], i, beyond) == HeadAt(s, i + 1, beyond);
      assert forall i :: 0 < i < 1 + p ==> HeadAt(s, i, beyond) == HeadAt(s[1..], i - 1, beyond);
      1 + p
  }

  lemma HeadPosIs(s: seq<Byte>, beyond: Byte, p: nat)
    requires p <= |s| && (forall i :: 0 <= i < p ==> HeadAt(s, i, beyond) != HEAD)
    requires (p < |s| ==> HeadAt(s, p, beyond) == HEAD)
    ensures HeadPos(s, beyond) == p
  {
  }

  /** What ConstructData finds: the return codes -1, -2, -3 and 0, with the bytes used. */
  datatype Outcome = TooShort | NoHead | Incomplete(used: nat) | Complete(packet: Packet, used: nat)

  /** The packet whose head is at position h. */
  function PacketAt(s: seq<Byte>, h: nat): Packet
    requires h + MIN_SIZE <= |s| && Field(s, h + 14, 4) <= |s| - h - MIN_SIZE
  {
    var n := Field(s, h + 14, 4);
    Packet(Field(s, h, 2), Field(s, h + 2, 2), Field(s, h + 4, 2), Field(s, h + 6, 2), s[h + 8], s[h + 9],
           Field(s, h + 10, 4), n, s[h + 18..h + 18 + n], s[h + 18 + n..h + 34 + n])
  }

  const SIZE_RANGE := 0x1_0000_0000_0000_0000

  /** The size check of ConstructData in the 64-bit arithmetic of size_t, with i the position behind the header. */
  predicate CheckPasses(n: nat, i: nat, len: nat) { !(len > (n - i - CHECK_SIZE) % SIZE_RANGE) }

  /** When the fixed fields fit, the check says what it is meant to say. */
  lemma CheckIsMeant(n: nat, i: nat, len: nat)
    requires i + CHECK_SIZE <= n < SIZE_RANGE
    ensures CheckPasses(n, i, len) <==> i + len + CHECK_SIZE <= n
  {
  }

  /** The check keeps every payload it lets through, with the check field behind it, within the data exactly when the
      fixed fields fit: otherwise the subtraction wraps around, and even an empty payload leads behind the data. */
  lemma CheckIsSafe(n: nat, i: nat)
    requires n < SIZE_RANGE
    ensures (forall len: nat :: len < 0x1_0000_0000 && CheckPasses(n, i, len) ==> i + len + CHECK_SIZE <= n)
      <==> i + CHECK_SIZE <= n
  {
    if i + CHECK_SIZE <= n {
      forall len: nat | CheckPasses(n, i, len) ensures i + len + CHECK_SIZE <= n { CheckIsMeant(n, i, len); }
    } else {
      assert CheckPasses(n, i, 0);
    }
  }

  /** Where a head is found, enough bytes follow for the fixed fields. By CheckIsSafe this is exactly when ConstructData
      stays within its data. The receive path always starts at a head. */
  predicate HeadFits(s: seq<Byte>, beyond: Byte) {
    |s| >= MIN_SIZE && HeadPos(s, beyond) < |s| ==> HeadPos(s, beyond) + MIN_SIZE <= |s|
  }

  function Construct(s: seq<Byte>, beyond: Byte): Outcome
    requires HeadFits(s, beyond)
  {
    if |s| < MIN_SIZE then TooShort
    else
      var h := HeadPos(s, beyond);
      if h == |s| then NoHead
      else if Field(s, h + 14, 4) > |s| - h - MIN_SIZE then Incomplete(h + HEADER_SIZE)
      else Complete(PacketAt(s, h), h + MIN_SIZE + Field(s, h + 14, 4))
  }

  /** An input on which ConstructData runs behind its data: the head stands in the last two of 34 bytes. */
  lemma LateHead(beyond: Byte)
    ensures var s := seq(32, _ => 0) + [0xEF, 0xEF];
      !HeadFits(s, beyond) && CheckPasses(|s|, HeadPos(s, beyond) + HEADER_SIZE, 0)
  {
    var s: seq<Byte> := seq(32, _ => 0) + [0xEF, 0xEF];
    forall i | 0 <= i < 32 ensures HeadAt(s, i, beyond) != HEAD { TwoBytes(s[i], s[i + 1]); }
    TwoBytes(s[32], s[33]);
    HeadPosIs(s, beyond, 32);
  }

  // ---------- the codec

  lemma FieldOf(pre: seq<Byte>, n: nat, v: int, post: seq<Byte>)
    requires 0 <= v < Range(n)
    ensures Field(pre + BigEndian(n, v) + post, |pre|, n) == v
  {
    assert (pre + BigEndian(n, v) + post)[|pre|..|pre| + n] == BigEndian(n, v);
    FromBigOfBig(n, v);
  }

  lemma Ranges()
    ensures Range(1) == 256 && Range(2) == 0x10000 && Range(4) == 0x1_0000_0000
  {
    assert Range(3) == 0x100_0000;
  }

  /** The fields of a header can be read back, whatever follows it. */
  lemma HeaderFields(p: Packet, post: seq<Byte>)
    requires p.Valid()
    ensures var s := p.Header() + post;
      && Field(s, 0, 2) == p.head && Field(s, 2, 2) == p.cmdType && Field(s, 4, 2) == p.itemType
      && Field(s, 6, 2) == p.msgVersion
      && s[8] == p.cypherModel && s[9] == p.verifyModel
      && Field(s, 10, 4) == p.saveCmd && Field(s, 14, 4) == p.dataLength
  {
    hide BigEndian, Field;
    Ranges();
    var f := [BigEndian(2, p.head), BigEndian(2, p.cmdType), BigEndian(2, p.itemType), BigEndian(2, p.msgVersion),
              BigEndian(1, p.cypherModel), BigEndian(1, p.verifyModel), BigEndian(4, p.saveCmd),
              BigEndian(4, p.dataLength)];
    var s := p.Header() + post;
    FieldIn(s, [], 2, p.head, f[1] + f[2] + f[3] + f[4] + f[5] + f[6] + f[7] + post);
    FieldIn(s, f[0], 2, p.cmdType, f[2] + f[3] + f[4] + f[5] + f[6] + f[7] + post);
    FieldIn(s, f[0] + f[1], 2, p.itemType, f[3] + f[4] + f[5] + f[6] + f[7] + post);
    FieldIn(s, f[0] + f[1] + f[2], 2, p.msgVersion, f[4] + f[5] + f[6] + f[7] + post);
    FieldIn(s, f[0] + f[1] + f[2] + f[3], 1, p.cypherModel, f[5] + f[6] + f[7] + post);
    FieldIn(s, f[0] + f[1] + f[2] + f[3] + f[4], 1, p.verifyModel, f[6] + f[7] + post);
    FieldIn(s, f[0] + f[1] + f[2] + f[3] + f[4] + f[5], 4, p.saveCmd, f[7] + post);
    FieldIn(s, f[0] + f[1] + f[2] + f[3] + f[4] + f[5] + f[6], 4, p.dataLength, post);
    OneByte(s, 8);
    OneByte(s, 9);
  }

  /** The header, byte by byte; payload and check field follow it. */
  lemma HeaderBytes(p: Packet)
    requires p.Valid()
    ensures p.Image() == [
      p.head / 256, p.head % 256, p.cmdType / 256, p.cmdType % 256,
      p.itemType / 256, p.itemType % 256, p.msgVersion / 256, p.msgVersion % 256,
      p.cypherModel, p.verifyModel,
      p.saveCmd / 256 / 256 / 256, p.saveCmd / 256 / 256 % 256, p.saveCmd / 256 % 256, p.saveCmd % 256,
      p.dataLength / 256 / 256 / 256, p.dataLength / 256 / 256 % 256, p.dataLength / 256 % 256, p.dataLength % 256]
      + p.data + p.check
    ensures |p.check| == 16
  {
    hide BigEndian;
    BytesAre(p.head);
    BytesAre(p.cmdType);
    BytesAre(p.itemType);
    BytesAre(p.msgVersion);
    BytesAre(p.cypherModel);
    BytesAre(p.verifyModel);
    BytesAre(p.saveCmd);
    BytesAre(p.dataLength);
  }

  lemma FieldIn(s: seq<Byte>, pre: seq<Byte>, n: nat, v: int, post: seq<Byte>)
    requires 0 <= v < Range(n) && s == pre + BigEndian(n, v) + post
    ensures Field(s, |pre|, n) == v
  {
    FieldOf(pre, n, v, post);
  }

  lemma OneByte(s: seq<Byte>, i: nat)
    requires i < |s|
    ensures Field(s, i, 1) == s[i]
  {
    assert s[i..i + 1] == [s[i]];
    assert [s[i]][..0] == [];
  }

  /** What starts with 0xEF 0xEF has its head at the front. */
  lemma HeadInFront(s: seq<Byte>, beyond: Byte)
    requires |s| >= 2
    ensures HeadPos(s, beyond) == 0 <==> s[0] == 0xEF && s[1] == 0xEF
  {
    TwoBytes(s[0], s[1]);
  }

  lemma ImageStarts(p: Packet)
    requires p.Valid() && p.head == HEAD
    ensures |p.Image()| == MIN_SIZE + p.dataLength && p.Image()[0] == 0xEF && p.Image()[1] == 0xEF
  {
    assert BigEndian(2, HEAD) == [0xEF, 0xEF] by {
      assert BigEndian(0, 0) == [];
      assert BigEndian(1, HEAD / 256) == [0xEF];
    }
    assert p.Image()[..2] == BigEndian(2, HEAD);
  }

  /** An image at the front, whatever follows it, is decoded to its packet. */
  lemma DecodeImage(p: Packet, post: seq<Byte>, beyond: Byte)
    requires p.Valid() && p.head == HEAD
    ensures var s := p.Image() + post;
      HeadFits(s, beyond) && HeadPos(s, beyond) == 0 && Construct(s, beyond) == Complete(p, |p.Image()|)
  {
    hide BigEndian, Field, HeadPos;
    var s := p.Image() + post;
    ImageStarts(p);
    HeadInFront(s, beyond);
    HeaderFields(p, p.data + p.check + post);
    assert s == p.Header() + (p.data + p.check + post);
    var n := p.dataLength;
    assert s[18..18 + n] == p.data && s[18 + n..34 + n] == p.check;
  }

  /** As long as an image is not complete, nothing is decoded. */
  lemma PartOfImage(p: Packet, s: seq<Byte>, beyond: Byte)
    requires p.Valid() && p.head == HEAD && s <= p.Image() && 2 <= |s| < |p.Image()|
    ensures HeadPos(s, beyond) == 0 && HeadFits(s, beyond)
    ensures Construct(s, beyond) == if |s| < MIN_SIZE then TooShort else Incomplete(HEADER_SIZE)
  {
    hide BigEndian, Field, HeadPos;
    ImageStarts(p);
    HeadInFront(s, beyond);
    if |s| >= MIN_SIZE {
      HeaderFields(p, s[18..]);
      assert s == p.Header() + s[18..];
    }
  }

  // ---------- the cases of the decoder

  lemma ConstructShort(s: seq<Byte>, beyond: Byte)
    requires |s| < MIN_SIZE
    ensures HeadFits(s, beyond) && Construct(s, beyond) == TooShort
  {
  }

  lemma ConstructNone(s: seq<Byte>, beyond: Byte)
    requires |s| >= MIN_SIZE && HeadPos(s, beyond) == |s|
    ensures HeadFits(s, beyond) && Construct(s, beyond) == NoHead
  {
  }

  lemma ConstructAt(s: seq<Byte>, beyond: Byte)
    requires HeadFits(s, beyond) && |s| >= MIN_SIZE && HeadPos(s, beyond) < |s|
    ensures var h := HeadPos(s, beyond);
      Construct(s, beyond) ==
        if Field(s, h + 14, 4) > |s| - h - MIN_SIZE then Incomplete(h + HEADER_SIZE)
        else Complete(PacketAt(s, h), h + MIN_SIZE + Field(s, h + 14, 4))
  {
  }

  // ---------- the packet object

  class CPacket {
    var head: int
    var cmdType: int
    var itemType: int
    var msgVersion: int
    var cypherModel: int
    var verifyModel: int
    var saveCmd: int
    var dataLength: int
    var payload: seq<Byte>
    var check: seq<Byte>
    var output: seq<Byte>

    constructor ()
      ensures output == []
    {
      head, cmdType, itemType, msgVersion := 0, 0, 0, 0;
      cypherModel, verifyModel, saveCmd, dataLength := 0, 0, 0, 0;
      payload, check, output := [], [], [];
    }

    /** A packet that carries a text. Its length field has 32 bits. */
    constructor FromText(text: seq<Byte>)
      ensures Value() == Packet(HEAD, 0, 0, 0, 0, 0, 0, |text| % 0x1_0000_0000, text, seq(CHECK_SIZE, _ => 0))
      ensures Value().Typed() && (Value().Valid() <==> |text| < 0x1_0000_0000)
    {
      head := HEAD;
      cmdType, itemType, msgVersion, cypherModel, verifyModel, saveCmd := 0, 0, 0, 0, 0, 0;
      dataLength := |text| % 0x1_0000_0000;
      payload := text;
      check := seq(CHECK_SIZE, _ => 0);
      output := [];
    }

    function Value(): Packet
      reads this
    {
      Packet(head, cmdType, itemType, msgVersion, cypherModel, verifyModel, saveCmd, dataLength,
             payload, check)
    }

    /** The size on the wire, in 32-bit arithmetic. */
    function Size(): int
      reads this
    {
      (dataLength + MIN_SIZE) % 0x1_0000_0000
    }

    /** std::string::resize. */
    static function Resized(s: seq<Byte>, n: nat): (r: seq<Byte>)
      ensures |r| == n
    {
      if n <= |s| then s[..n] else s + seq(n - |s|, _ => 0)
    }

    /** Serialises the packet into its output string, whose size follows the length field. All that is demanded is
        that the payload fits; if it is shorter, the bytes behind its image are those the string held before, or
        zeros. */
    method Data() returns (out: seq<Byte>)
      requires Value().Typed() && MIN_SIZE + |payload| <= Size()
      modifies this`output
      ensures out == output && |out| == Size()
      ensures out == Value().Image() + Resized(old(output), Size())[MIN_SIZE + |payload|..]
      ensures Value().Valid() ==> out == Value().Image()
    {
      var resized := Resized(output, Size());
      var buf := new Byte[Size()](i => if 0 <= i < |resized| then resized[i] else 0);
      assert buf[..] == resized;
      var at := PutHeader(buf, resized);
      at := Put(buf, at, payload, buf[..at], resized);
      at := Put(buf, at, check, buf[..at], resized);
      assert buf[..] == buf[..at] + buf[at..];
      output := buf[..];
      out := output;
    }

    /** The fixed fields, one after the other. */
    method PutHeader(buf: array<Byte>, ghost all: seq<Byte>) returns (at: nat)
      requires Value().Typed() && HEADER_SIZE <= buf.Length && buf[..] == all
      modifies buf
      ensures at == HEADER_SIZE && buf[..at] == Value().Header() && buf[at..] == all[at..]
    {
      hide BigEndian;
      at := Put(buf, 0, BigEndian(2, head), [], all);
      at := Put(buf, at, BigEndian(2, cmdType), buf[..at], all);
      at := Put(buf, at, BigEndian(2, itemType), buf[..at], all);
      at := Put(buf, at, BigEndian(2, msgVersion), buf[..at], all);
      at := Put(buf, at, BigEndian(1, cypherModel), buf[..at], all);
      at := Put(buf, at, BigEndian(1, verifyModel), buf[..at], all);
      at := Put(buf, at, BigEndian(4, saveCmd), buf[..at], all);
      at := Put(buf, at, BigEndian(4, dataLength), buf[..at], all);
    }

    /** Bytes are stored at the moving pointer, which is advanced behind them; what lies behind stays. */
    static method Put(buf: array<Byte>, at: nat, bytes: seq<Byte>, ghost before: seq<Byte>, ghost all: seq<Byte>)
      returns (next: nat)
      requires at + |bytes| <= buf.Length == |all| && buf[..at] == before && buf[at..] == all[at..]
      modifies buf
      ensures next == at + |bytes| && buf[..next] == before + bytes && buf[next..] == all[next..]
    {
      forall i | 0 <= i < |bytes| { buf[at + i] := bytes[i]; }
      next := at + |bytes|;
      assert buf[..at] == before;
      forall k | next <= k < |all| ensures buf[k] == all[k] { assert all[at..][k - at] == all[k]; }
    }

    /** Looks for a head; head keeps the last value looked at. ret is 0 with the position, or -1. */
    method FindHeadStart(data: seq<Byte>, beyond: Byte) returns (ret: int, pos: nat)
      modifies this`head
      ensures pos == HeadPos(data, beyond) && (ret == 0 <==> pos < |data|) && (ret == 0 || ret == -1)
      ensures ret == 0 ==> head == HEAD
    {
      var i := 0;
      while i < |data|
        invariant i <= |data| && forall k :: 0 <= k < i ==> HeadAt(data, k, beyond) != HEAD
      {
        head := HeadAt(data, i, beyond);
        if head == HEAD {
          HeadPosIs(data, beyond, i);
          return 0, i;
        }
        i := i + 1;
      }
      HeadPosIs(data, beyond, i);
      return -1, i;
    }

    /** The fixed fields behind a head at position h, read through an advancing index. */
    method ReadHeader(data: seq<Byte>, h: nat) returns (i: nat)
      requires h + HEADER_SIZE <= |data|
      modifies this`cmdType, this`itemType, this`msgVersion, this`cypherModel, this`verifyModel, this`saveCmd,
               this`dataLength
      ensures i == h + HEADER_SIZE
      ensures cmdType == Field(data, h + 2, 2) && itemType == Field(data, h + 4, 2)
      ensures msgVersion == Field(data, h + 6, 2)
      ensures cypherModel == data[h + 8] && verifyModel == data[h + 9]
      ensures saveCmd == Field(data, h + 10, 4) && dataLength == Field(data, h + 14, 4)
    {
      hide Field;
      i := h + 2;
      cmdType := Field(data, i, 2);
      i := i + 2;
      itemType := Field(data, i, 2);
      i := i + 2;
      msgVersion := Field(data, i, 2);
      i := i + 2;
      cypherModel := data[i];
      i := i + 1;
      verifyModel := data[i];
      i := i + 1;
      saveCmd := Field(data, i, 4);
      i := i + 4;
      dataLength := Field(data, i, 4);
      i := i + 4;
    }

    /** Builds the packet from the bytes at its head. used is the number of bytes it took, if it is complete. */
    method ConstructData(data: seq<Byte>, beyond: Byte) returns (ret: int, used: nat)
      requires HeadFits(data, beyond)
      modifies this
      ensures output == old(output)
      ensures match Construct(data, beyond)
              case TooShort => ret == -1 && used == |data|
              case NoHead => ret == -2 && used == |data|
              case Incomplete(n) => ret == -3 && used == n
              case Complete(p, n) => ret == 0 && used == n && Value() == p
    {
      hide HeadPos, Field, HeadAt, Construct, Range, FromBig;
      if |data| < MIN_SIZE { ConstructShort(data, beyond); return -1, |data|; }
      var found, h := FindHeadStart(data, beyond);
      if found != 0 { ConstructNone(data, beyond); return -2, |data|; }
      ConstructAt(data, beyond);
      HeadField(data, h, beyond);
      var i := ReadHeader(data, h);
      if dataLength > |data| - i - CHECK_SIZE { return -3, i; }
      payload := data[i..i + dataLength];
      i := i + dataLength;
      check := data[i..i + CHECK_SIZE];
      i := i + CHECK_SIZE;
      return 0, i;
    }
  }

  lemma HeadField(s: seq<Byte>, h: nat, beyond: Byte)
    requires h + 2 <= |s|
    ensures Field(s, h, 2) == HeadAt(s, h, beyond)
  {
    assert s[h..h + 2] == [s[h], s[h + 1]];
  }
}
