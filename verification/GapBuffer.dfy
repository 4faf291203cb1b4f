/** The receive buffer as a value: a gap in front, the readable bytes, and room behind them. */
module GapBuffer {
  import opened Endian

  const CHEAP_PREPEND := 8
  const INITIAL_SIZE := 1024

  /** Where reading starts, the readable bytes, and the size of the vector behind them. */
  datatype Gap = Gap(reader: nat, content: seq<Byte>, size: nat) {
    function Writer(): nat { reader + |content| }

    function Writable(): int { size - Writer() }

    predicate Valid() { Writer() <= size && CHEAP_PREPEND <= size }
  }

  const EMPTY := Gap(CHEAP_PREPEND, [], CHEAP_PREPEND + INITIAL_SIZE)

  /** Room for len bytes is missing: the vector grows, or the bytes move to the front. */
  function MakeSpace(g: Gap, len: nat): Gap {
    if g.Writable() + g.reader < len + CHEAP_PREPEND then g.(size := g.Writer() + len)
    else g.(reader := CHEAP_PREPEND)
  }

  function Ensure(g: Gap, len: nat): Gap {
    if g.Writable() < len then MakeSpace(g, len) else g
  }

  function Append(g: Gap, bytes: seq<Byte>): Gap {
    var e := Ensure(g, |bytes|);
    e.(content := e.content + bytes)
  }

  function Retrieve(g: Gap, len: nat): Gap
    requires len <= |g.content|
  {
    if len < |g.content| then Gap(g.reader + len, g.content[len..], g.size) else Gap(CHEAP_PREPEND, [], g.size)
  }

  function Unwrite(g: Gap, len: nat): Gap
    requires len <= |g.content|
  {
    g.(content := g.content[..|g.content| - len])
  }

  function Prepend(g: Gap, bytes: seq<Byte>): Gap
    requires |bytes| <= g.reader
  {
    Gap(g.reader - |bytes|, bytes + g.content, g.size)
  }

  /** A fresh buffer with room for the content and a reserve takes its place. */
  function Shrink(g: Gap, reserve: nat): Gap {
    Append(Ensure(EMPTY, |g.content| + reserve), g.content)
  }

  // ---------- the zones, in numbers

  /** A new buffer has 8 bytes in front and 1024 behind. */
  lemma NewZones()
    ensures EMPTY.reader == 8 && EMPTY.content == [] && EMPTY.Writable() == 1024
  {
  }

  /** Afterwards there is room for what was asked. If it was missing, the readable bytes move down behind the first 8
      if the vector is large enough for that, and otherwise the vector gets exactly as large as needed. */
  lemma RoomMade(g: Gap, len: nat)
    requires g.Valid()
    ensures var e := Ensure(g, len);
      && e.Writable() >= len && e.content == g.content
      && (g.size - g.reader - |g.content| >= len ==> e == g)
      && (g.size - g.reader - |g.content| < len && g.size >= 8 + |g.content| + len ==>
            e.reader == 8 && e.size == g.size)
      && (g.size - g.reader - |g.content| < len && g.size < 8 + |g.content| + len ==>
            e.reader == g.reader && e.size == g.reader + |g.content| + len)
  {
  }

  /** Bytes are added behind the others, which stay where they are if there is room, move down behind the first 8 if
      that makes room, and get a vector without room to spare otherwise. */
  lemma AppendZones(g: Gap, bytes: seq<Byte>)
    requires g.Valid()
    ensures var a, room := Append(g, bytes), g.size - g.reader - |g.content|;
      && a.content == g.content + bytes
      && (room >= |bytes| ==> a.reader == g.reader && a.size == g.size)
      && (room < |bytes| && g.size >= 8 + |a.content| ==> a.reader == 8 && a.size == g.size)
      && (room < |bytes| && g.size < 8 + |a.content| ==> a.reader == g.reader && a.Writable() == 0)
  {
  }

  /** Taking bytes off moves the front by as many; when none is left the buffer starts again behind the first 8. */
  lemma FrontAfterRetrieve(g: Gap, len: nat)
    requires len <= |g.content|
    ensures Retrieve(g, len).reader == if len == |g.content| then 8 else g.reader + len
    ensures Retrieve(g, len).size == g.size
  {
  }

  /** Putting bytes in front or taking the last ones off does not move the others. */
  lemma OthersStay(g: Gap, bytes: seq<Byte>, len: nat)
    requires |bytes| <= g.reader && len <= |g.content|
    ensures Prepend(g, bytes).reader == g.reader - |bytes| && Prepend(g, bytes).size == g.size
    ensures Unwrite(g, len).reader == g.reader && Unwrite(g, len).size == g.size
  {
  }

  /** The buffer that takes its place has the first 8 bytes in front, exactly the size asked for, or that of a new one,
      and the reserve behind the content. */
  lemma ShrinkZones(g: Gap, reserve: nat)
    ensures var h := Shrink(g, reserve);
      && h.reader == 8 && h.content == g.content && h.Writable() >= reserve
      && h.size == if |g.content| + reserve <= 1024 then 1032 else 8 + |g.content| + reserve
  {
    assert [] + g.content == g.content;
  }

  // ---------- runs

  datatype Op =
    | OpAppend(bytes: seq<Byte>)
    | OpPrepend(bytes: seq<Byte>)
    | OpRetrieve(len: nat)
    | OpUnwrite(len: nat)
    | OpEnsure(len: nat)
    | OpWritten(bytes: seq<Byte>)
    | OpShrink(reserve: nat)

  /** What the assertions of the operations demand. */
  predicate Allowed(g: Gap, op: Op) {
    match op
    case OpPrepend(bytes) => |bytes| <= g.reader
    case OpRetrieve(len) => len <= |g.content|
    case OpUnwrite(len) => len <= |g.content|
    case OpWritten(bytes) => |bytes| <= g.Writable()
    case _ => true
  }

  function Step(g: Gap, op: Op): Gap
    requires Allowed(g, op)
  {
    match op
    case OpAppend(bytes) => Append(g, bytes)
    case OpPrepend(bytes) => Prepend(g, bytes)
    case OpRetrieve(len) => Retrieve(g, len)
    case OpUnwrite(len) => Unwrite(g, len)
    case OpEnsure(len) => Ensure(g, len)
    case OpWritten(bytes) => g.(content := g.content + bytes)
    case OpShrink(reserve) => Shrink(g, reserve)
  }

  /** What an operation does to a plain byte sequence. */
  function OnBytes(s: seq<Byte>, op: Op): seq<Byte> {
    match op
    case OpAppend(bytes) => s + bytes
    case OpPrepend(bytes) => bytes + s
    case OpRetrieve(len) => if len <= |s| then s[len..] else []
    case OpUnwrite(len) => if len <= |s| then s[..|s| - len] else []
    case OpEnsure(len) => s
    case OpWritten(bytes) => s + bytes
    case OpShrink(reserve) => s
  }

  /** Every operation keeps the three zones in order and acts on the readable bytes as on a plain sequence. */
  lemma StepRefines(g: Gap, op: Op)
    requires g.Valid() && Allowed(g, op)
    ensures Step(g, op).Valid() && Step(g, op).content == OnBytes(g.content, op)
  {
    if op.OpShrink? { assert [] + g.content == g.content; }
  }

  predicate AllowedRun(g: Gap, ops: seq<Op>)
    decreases |ops|
  {
    ops != [] ==> Allowed(g, ops[0]) && AllowedRun(Step(g, ops[0]), ops[1..])
  }

  function Run(g: Gap, ops: seq<Op>): Gap
    requires AllowedRun(g, ops)
    decreases |ops|
  {
    if ops == [] then g else Run(Step(g, ops[0]), ops[1..])
  }

  /** The space an operation asks for on top of what is readable. */
  function Request(op: Op): nat {
    match op
    case OpAppend(bytes) => |bytes|
    case OpEnsure(len) => len
    case OpShrink(reserve) => reserve
    case _ => 0
  }

  /** In no step do the readable bytes and the space asked for exceed m. */
  predicate Modest(g: Gap, ops: seq<Op>, m: nat)
    requires AllowedRun(g, ops)
    decreases |ops|
  {
    ops != [] ==> |g.content| + Request(ops[0]) <= m && Modest(Step(g, ops[0]), ops[1..], m)
  }

  function Max(a: int, b: int): int { if a < b then b else a }

  /** The vector grows only when the gap in front and the room behind are together too small, so over
      a whole run it never exceeds the larger of the initial size and twice the bound plus 8. */
  lemma {:induction false} SpaceBound(g: Gap, ops: seq<Op>, m: nat)
    requires g.Valid() && AllowedRun(g, ops) && Modest(g, ops, m)
    requires g.size <= Max(CHEAP_PREPEND + INITIAL_SIZE, 2 * m + CHEAP_PREPEND)
    ensures Run(g, ops).Valid()
    ensures Run(g, ops).size <= Max(CHEAP_PREPEND + INITIAL_SIZE, 2 * m + CHEAP_PREPEND)
    decreases |ops|
  {
    if ops != [] {
      StepRefines(g, ops[0]);
      SpaceBound(Step(g, ops[0]), ops[1..], m);
    }
  }

  function BytesAfter(s: seq<Byte>, ops: seq<Op>): seq<Byte>
    decreases |ops|
  {
    if ops == [] then s else BytesAfter(OnBytes(s, ops[0]), ops[1..])
  }

  /** Over a whole run the readable bytes are those of a plain sequence under the same operations. */
  lemma {:induction false} RunRefines(g: Gap, ops: seq<Op>)
    requires g.Valid() && AllowedRun(g, ops)
    ensures Run(g, ops).Valid() && Run(g, ops).content == BytesAfter(g.content, ops)
    decreases |ops|
  {
    if ops != [] {
      StepRefines(g, ops[0]);
      RunRefines(Step(g, ops[0]), ops[1..]);
    }
  }
}
