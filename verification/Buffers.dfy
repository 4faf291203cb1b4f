/** The receive buffer: a vector with a reader and a writer index, updated in place. */
module Buffers {
  import opened Endian
  import opened GapBuffer

  class Buffer {
    var store: array<Byte>
    var readerIndex: nat
    var writerIndex: nat
    const little: bool   // the byte order of the host

    ghost predicate Valid()
      reads this
    {
      readerIndex <= writerIndex <= store.Length && CHEAP_PREPEND <= store.Length
    }

    ghost function View(): Gap
      reads this, store
      requires Valid()
    {
      Gap(readerIndex, store[readerIndex..writerIndex], store.Length)
    }

    constructor (little: bool)
      ensures Valid() && View() == EMPTY && fresh(store) && this.little == little
    {
      this.little := little;
      store := new Byte[CHEAP_PREPEND + INITIAL_SIZE](_ => 0);
      readerIndex := CHEAP_PREPEND;
      writerIndex := CHEAP_PREPEND;
    }

    function ReadableBytes(): (n: int)
      reads this
    {
      writerIndex - readerIndex
    }

    function WritableBytes(): (n: int)
      reads this
    {
      store.Length - writerIndex
    }

    /** The readable bytes. */
    function Peek(): seq<Byte>
      reads this, store
      requires Valid()
    {
      store[readerIndex..writerIndex]
    }

    method Retrieve(len: nat)
      requires Valid() && len <= |View().content|
      modifies this`readerIndex, this`writerIndex
      ensures Valid() && View() == GapBuffer.Retrieve(old(View()), len)
    {
      if len < ReadableBytes() {
        readerIndex := readerIndex + len;
      } else {
        RetrieveAll();
      }
    }

    method RetrieveAll()
      requires Valid()
      modifies this`readerIndex, this`writerIndex
      ensures Valid() && View() == Gap(CHEAP_PREPEND, [], store.Length)
    {
      readerIndex := CHEAP_PREPEND;
      writerIndex := CHEAP_PREPEND;
    }

    method RetrieveAsString(len: nat) returns (result: seq<Byte>)
      requires Valid() && len <= |View().content|
      modifies this`readerIndex, this`writerIndex
      ensures result == old(View().content[..len])
      ensures Valid() && View() == GapBuffer.Retrieve(old(View()), len)
    {
      result := store[readerIndex..readerIndex + len];
      Retrieve(len);
    }

    /** Grows the vector, or moves the readable bytes to the front by an overlapping copy. */
    method MakeSpace(len: nat)
      requires Valid() && WritableBytes() < len
      modifies this, store
      ensures Valid() && View() == GapBuffer.MakeSpace(old(View()), len)
      ensures store == old(store) || fresh(store)
    {
      if WritableBytes() + readerIndex < len + CHEAP_PREPEND {
        var w, source := writerIndex, store;
        var bigger := new Byte[w + len](i requires 0 <= i < w + len reads source =>
            if i < source.Length then source[i] else 0);
        store := bigger;
      } else {
        assert CHEAP_PREPEND < readerIndex;
        var readable := ReadableBytes();
        MoveDown(store, readerIndex, writerIndex, CHEAP_PREPEND);
        readerIndex := CHEAP_PREPEND;
        writerIndex := readerIndex + readable;
      }
    }

    /** std::copy of the bytes from first up to last to a place in front of them; the two may overlap. */
    static method MoveDown(a: array<Byte>, first: nat, last: nat, dest: nat)
      requires dest <= first <= last <= a.Length
      modifies a
      ensures a[dest..dest + (last - first)] == old(a[first..last])
    {
      ghost var t := a[first..last];
      var i := 0;
      while i < last - first
        invariant 0 <= i <= last - first
        invariant a[dest..dest + i] == t[..i] && a[first + i..last] == t[i..]
      {
        ghost var done, rest := a[dest..dest + i], a[first + i..last];
        a[dest + i] := a[first + i];
        assert a[dest..dest + i + 1] == done + [rest[0]] && a[first + i + 1..last] == rest[1..];
        i := i + 1;
      }
    }

    method EnsureWritableBytes(len: nat)
      requires Valid()
      modifies this, store
      ensures Valid() && View() == Ensure(old(View()), len) && WritableBytes() >= len
      ensures store == old(store) || fresh(store)
    {
      if WritableBytes() < len {
        MakeSpace(len);
      }
    }

    method Append(bytes: seq<Byte>)
      requires Valid()
      modifies this, store
      ensures Valid() && View() == GapBuffer.Append(old(View()), bytes)
      ensures store == old(store) || fresh(store)
    {
      EnsureWritableBytes(|bytes|);
      Written(bytes);
    }

    /** Bytes are written behind the readable ones, and then counted as written. */
    method Written(bytes: seq<Byte>)
      requires Valid() && |bytes| <= WritableBytes()
      modifies this`writerIndex, store
      ensures Valid() && View() == old(View()).(content := old(View()).content + bytes)
    {
      var w, a := writerIndex, store;
      forall i | 0 <= i < |bytes| { a[w + i] := bytes[i]; }
      writerIndex := writerIndex + |bytes|;
    }

    method Unwrite(len: nat)
      requires Valid() && len <= |View().content|
      modifies this`writerIndex
      ensures Valid() && View() == GapBuffer.Unwrite(old(View()), len)
    {
      writerIndex := writerIndex - len;
    }

    method Prepend(bytes: seq<Byte>)
      requires Valid() && |bytes| <= readerIndex
      modifies this`readerIndex, store
      ensures Valid() && View() == GapBuffer.Prepend(old(View()), bytes)
    {
      readerIndex := readerIndex - |bytes|;
      var r, a := readerIndex, store;
      forall i | 0 <= i < |bytes| { a[r + i] := bytes[i]; }
      var m := r + |bytes|;
      assert a[r..m] == bytes;
      assert a[m..writerIndex] == old(store[readerIndex..writerIndex]);
      assert a[r..writerIndex] == a[r..m] + a[m..writerIndex];
    }

    method Shrink(reserve: nat)
      requires Valid()
      modifies this
      ensures Valid() && View() == GapBuffer.Shrink(old(View()), reserve) && fresh(store)
    {
      var other := new Buffer(little);
      other.EnsureWritableBytes(ReadableBytes() + reserve);
      other.Append(Peek());
      store, readerIndex, writerIndex := other.store, other.readerIndex, other.writerIndex;
    }

    // ---------- integers in network order

    method AppendInt(n: nat, x: int)
      requires Valid() && FitsSigned(n, x)
      modifies this, store
      ensures Valid() && View() == GapBuffer.Append(old(View()), BigEndian(n, Unsigned(n, x)))
      ensures store == old(store) || fresh(store)
    {
      NetworkImage(little, n, Unsigned(n, x));
      Append(Image(little, n, HostToNetwork(little, n, Unsigned(n, x))));
    }

    method PrependInt(n: nat, x: int)
      requires Valid() && FitsSigned(n, x) && n <= readerIndex
      modifies this`readerIndex, store
      ensures Valid() && View() == GapBuffer.Prepend(old(View()), BigEndian(n, Unsigned(n, x)))
    {
      NetworkImage(little, n, Unsigned(n, x));
      Prepend(Image(little, n, HostToNetwork(little, n, Unsigned(n, x))));
    }

    method PeekInt(n: nat) returns (x: int)
      requires Valid() && n <= |View().content|
      ensures x == Signed(n, FromBig(View().content[..n]))
    {
      var bytes := store[readerIndex..readerIndex + n];
      NetworkValue(little, bytes);
      x := Signed(n, NetworkToHost(little, n, ValueOf(little, bytes)));
      assert bytes == View().content[..n];
    }

    method ReadInt(n: nat) returns (x: int)
      requires Valid() && n <= |View().content|
      modifies this`readerIndex, this`writerIndex
      ensures x == Signed(n, FromBig(old(View().content[..n])))
      ensures Valid() && View() == GapBuffer.Retrieve(old(View()), n)
    {
      x := PeekInt(n);
      Retrieve(n);
    }
  }

  /** An integer written into a buffer is the one read from where it was put, whatever stands around it. */
  lemma IntRoundTrip(n: nat, x: int, behind: seq<Byte>)
    requires FitsSigned(n, x)
    ensures Signed(n, FromBig((BigEndian(n, Unsigned(n, x)) + behind)[..n])) == x
  {
    assert (BigEndian(n, Unsigned(n, x)) + behind)[..n] == BigEndian(n, Unsigned(n, x));
    FromBigOfBig(n, Unsigned(n, x));
    SignedRoundTrip(n, x);
  }
}
