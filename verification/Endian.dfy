/** Byte order: integers of n bytes in host memory and in network order. */
module Endian {
  type Byte = n: int | 0 <= n < 256

  /** 256 to the power n: the number of values of n bytes. */
  function Range(n: nat): (r: nat)
    ensures r > 0 && (n > 0 ==> r % 256 == 0)
  {
    if n == 0 then 1 else 256 * Range(n - 1)
  }

  /** The n bytes of v, most significant first. */
  function BigEndian(n: nat, v: int): (s: seq<Byte>)
    ensures |s| == n
  {
    if n == 0 then [] else BigEndian(n - 1, v / 256) + [v % 256]
  }

  /** The value of bytes, most significant first. */
  function FromBig(s: seq<Byte>): (v: nat)
    ensures v < Range(|s|)
  {
    if s == [] then 0 else FromBig(s[..|s| - 1]) * 256 + s[|s| - 1]
  }

  function Reversed(s: seq<Byte>): (r: seq<Byte>)
    ensures |r| == |s| && forall i :: 0 <= i < |s| ==> r[i] == s[|s| - 1 - i]
  {
    if s == [] then [] else Reversed(s[1..]) + [s[0]]
  }

  lemma ReversedTwice(s: seq<Byte>)
    ensures Reversed(Reversed(s)) == s
  {
  }

  /** How a host lays out the n bytes of a value in memory. */
  function Image(little: bool, n: nat, v: int): (s: seq<Byte>)
    ensures |s| == n
  {
    if little then Reversed(BigEndian(n, v)) else BigEndian(n, v)
  }

  /** The value a host reads from memory. */
  function ValueOf(little: bool, s: seq<Byte>): (v: nat)
    ensures v < Range(|s|)
  {
    FromBig(if little then Reversed(s) else s)
  }

  /** htobeN: the bytes are swapped on a little-endian host. */
  function HostToNetwork(little: bool, n: nat, v: int): (w: nat)
    ensures w < Range(n)
  {
    if little then FromBig(Reversed(BigEndian(n, v))) else FromBig(BigEndian(n, v))
  }

  /** beNtoh. */
  function NetworkToHost(little: bool, n: nat, v: int): (w: nat)
    ensures w < Range(n)
  {
    HostToNetwork(little, n, v)
  }

  lemma {:induction false} FromBigOfBig(n: nat, v: int)
    requires 0 <= v < Range(n)
    ensures FromBig(BigEndian(n, v)) == v
  {
    if n > 0 {
      FromBigOfBig(n - 1, v / 256);
      var s := BigEndian(n, v);
      assert s[..|s| - 1] == BigEndian(n - 1, v / 256);
    }
  }

  lemma {:induction false} BigOfFromBig(s: seq<Byte>)
    ensures BigEndian(|s|, FromBig(s)) == s
  {
    if s != [] {
      BigOfFromBig(s[..|s| - 1]);
      assert s == s[..|s| - 1] + [s[|s| - 1]];
    }
  }

  /** A converted value lies in memory most significant byte first, on every host. */
  lemma NetworkImage(little: bool, n: nat, v: int)
    requires 0 <= v < Range(n)
    ensures Image(little, n, HostToNetwork(little, n, v)) == BigEndian(n, v)
  {
    if little {
      BigOfFromBig(Reversed(BigEndian(n, v)));
      ReversedTwice(BigEndian(n, v));
    } else {
      BigOfFromBig(BigEndian(n, v));
    }
  }

  /** Reading network bytes into host memory and converting gives the value, on every host. */
  lemma NetworkValue(little: bool, s: seq<Byte>)
    ensures NetworkToHost(little, |s|, ValueOf(little, s)) == FromBig(s)
  {
    if little {
      BigOfFromBig(Reversed(s));
      ReversedTwice(s);
    } else {
      BigOfFromBig(s);
    }
  }

  // ---------- signed integers

  predicate FitsSigned(n: nat, x: int) { n > 0 && 0 <= 2 * x + Range(n) && 2 * x < Range(n) }

  /** The bit pattern of a signed integer of n bytes. */
  function Unsigned(n: nat, x: int): (u: nat)
    requires FitsSigned(n, x)
    ensures u < Range(n)
  {
    if x < 0 then x + Range(n) else x
  }

  function Signed(n: nat, u: nat): int { if 2 * u >= Range(n) then u - Range(n) else u }

  lemma SignedRoundTrip(n: nat, x: int)
    requires FitsSigned(n, x)
    ensures Signed(n, Unsigned(n, x)) == x
  {
  }

  // ---------- byte by byte

  /** The bytes of integers of 8, 16, 32 and 64 bits in network order. */
  lemma BytesAre(v: int)
    ensures BigEndian(1, v) == [v % 256] && BigEndian(2, v) == [v / 256 % 256, v % 256]
    ensures BigEndian(4, v) == [v / 256 / 256 / 256 % 256, v / 256 / 256 % 256, v / 256 % 256, v % 256]
    ensures BigEndian(8, v) == BigEndian(4, v / 256 / 256 / 256 / 256) + BigEndian(4, v)
  {
    hide BigEndian;
    FourMore(0, v);
    FourMore(4, v);
    OneMore(0, v);
    OneMore(1, v);
    OneMore(0, v / 256);
  }

  lemma FourMore(n: nat, v: int)
    ensures BigEndian(n + 4, v) == BigEndian(n, v / 256 / 256 / 256 / 256)
      + [v / 256 / 256 / 256 % 256, v / 256 / 256 % 256, v / 256 % 256, v % 256]
    ensures BigEndian(0, v) == [] && BigEndian(0, v / 256 / 256 / 256 / 256) == []
  {
    hide BigEndian;
    OneMore(n, v / 256 / 256 / 256);
    OneMore(n + 1, v / 256 / 256);
    OneMore(n + 2, v / 256);
    OneMore(n + 3, v);
    OneMore(0, v / 256 / 256 / 256 / 256);
  }

  lemma OneMore(n: nat, v: int)
    ensures BigEndian(n + 1, v) == BigEndian(n, v / 256) + [v % 256]
    ensures BigEndian(0, v) == []
  {
  }

  /** On a little-endian host the bytes of a value lie in memory the other way round. */
  lemma HostBytesAre(v: int)
    ensures Image(true, 2, v) == [v % 256, v / 256 % 256] && Image(false, 2, v) == [v / 256 % 256, v % 256]
    ensures Image(true, 4, v) == [v % 256, v / 256 % 256, v / 256 / 256 % 256, v / 256 / 256 / 256 % 256]
    ensures Image(false, 4, v) == [v / 256 / 256 / 256 % 256, v / 256 / 256 % 256, v / 256 % 256, v % 256]
  {
    hide BigEndian;
    BytesAre(v);
  }

  /** The values of bytes in network order. */
  lemma ValuesAre(a: Byte, b: Byte, c: Byte, d: Byte)
    ensures FromBig([a]) == a && FromBig([a, b]) == 0x100 * a + b
    ensures FromBig([a, b, c, d]) == 0x1000000 * a + 0x10000 * b + 0x100 * c + d
  {
    assert [a, b, c, d][..3] == [a, b, c] && [a, b, c][..2] == [a, b] && [a, b][..1] == [a] && [a][..0] == [];
    assert FromBig([a, b, c]) == FromBig([a, b]) * 256 + c;
  }

  /** Of eight bytes the first four count 2 to the power 32 times as much as the last four. */
  lemma {:induction false} HighAndLow(s: seq<Byte>, t: seq<Byte>)
    ensures FromBig(s + t) == FromBig(s) * Range(|t|) + FromBig(t)
    ensures Range(4) == 0x1_0000_0000
  {
    assert Range(3) == 0x100_0000;
    if t == [] {
      assert s + t == s;
    } else {
      var k := |t| - 1;
      HighAndLow(s, t[..k]);
      assert (s + t)[..|s + t| - 1] == s + t[..k] && (s + t)[|s + t| - 1] == t[k];
      Distributes(FromBig(s), Range(k), FromBig(t[..k]));
    }
  }

  lemma Distributes(a: nat, r: nat, b: nat)
    ensures (a * r + b) * 256 == a * (256 * r) + b * 256
  {
  }

  /** Two's complement of 8, 16, 32 and 64 bits. */
  lemma SignedAre(u: nat)
    ensures Signed(1, u) == (if u < 0x80 then u else u - 0x100)
    ensures Signed(2, u) == (if u < 0x8000 then u else u - 0x1_0000)
    ensures Signed(4, u) == (if u < 0x8000_0000 then u else u - 0x1_0000_0000)
    ensures Signed(8, u) == (if u < 0x8000_0000_0000_0000 then u else u - 0x1_0000_0000_0000_0000)
  {
    assert Range(3) == 0x100_0000;
    assert Range(5) == 0x100_0000_0000 by { assert Range(4) == 0x1_0000_0000; }
    assert Range(7) == 0x100_0000_0000_0000 by { assert Range(6) == 0x1_0000_0000_0000; }
  }
}
