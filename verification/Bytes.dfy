/** Bytes, the 16-bit and 32-bit integers of the wire format, and the packing helpers of
    mqtt_message: every multi-byte quantity is big-endian, every string carries a two-byte length. */
module Bytes {

  type byte = b: int | 0 <= b < 0x100
  type bytes = seq<byte>
  type nibble = b: int | 0 <= b < 0x10
  type ushort = n: int | 0 <= n < 0x1_0000

  const MAX_STRING := 0xFFFF
  const TWO_TO_THE_32 := 0x1_0000_0000

  /** The value an `unsigned` variable keeps of `n`. */
  function Wrap32(n: int): (r: int)
    ensures 0 <= r < TWO_TO_THE_32
    ensures 0 <= n < TWO_TO_THE_32 ==> r == n
  {
    n % TWO_TO_THE_32
  }

  /** pack_add(unsigned short). */
  function PackShort(n: ushort): bytes {
    [n / 0x100, n % 0x100]
  }

  /** unpack_short. */
  function UnpackShort(x: bytes): ushort
    requires |x| == 2
  {
    var hi: int, lo: int := x[0], x[1];
    hi * 0x100 + lo
  }

  lemma PackUnpackShort(n: ushort)
    ensures |PackShort(n)| == 2
    ensures UnpackShort(PackShort(n)) == n
  {
  }

  /** pack_add(const std::string&): the length is cut to 16 bits, and the bytes follow only when
      that cut length is not zero (but then all of them do). */
  function PackString(s: bytes): bytes {
    PackShort(|s| % 0x1_0000) + if |s| % 0x1_0000 > 0 then s else []
  }

  /** A string that pack_add writes completely and that a parser can read back. */
  predicate Fits(s: bytes) {
    |s| <= MAX_STRING
  }

  lemma PackStringFits(s: bytes)
    requires Fits(s)
    ensures PackString(s) == PackShort(|s|) + s
    ensures |PackString(s)| == 2 + |s|
  {
    hide PackShort;
    assert |s| % 0x1_0000 == |s|;
    assert |PackShort(|s|)| == 2 by { PackUnpackShort(|s|); }
  }

  function Last(ss: seq<bytes>): bytes {
    if ss == [] then [] else ss[|ss| - 1]
  }

  /** The bytes of all chunks in order. */
  function Concat(chunks: seq<bytes>): bytes {
    if chunks == [] then [] else chunks[0] + Concat(chunks[1..])
  }

  /** The contract of Wrap32, for proofs that hide it. */
  lemma WrapRange(a: int)
    ensures 0 <= Wrap32(a) < TWO_TO_THE_32
    ensures 0 <= a < TWO_TO_THE_32 ==> Wrap32(a) == a
  {
  }

  /** Cutting a sum to 32 bits at every step or at its end is the same. */
  lemma WrapAdd(a: int, b: int)
    ensures Wrap32(Wrap32(a) + b) == Wrap32(a + b)
  {
    assert (a % TWO_TO_THE_32 + b) % TWO_TO_THE_32 == (a + b) % TWO_TO_THE_32;
  }

  lemma WrapAddTo(a: int, b: int)
    ensures Wrap32(Wrap32(a) + Wrap32(b)) == Wrap32(a + b)
  {
    WrapAdd(a, Wrap32(b));
    WrapAdd(b, a);
  }

  /** The loop that fills a small buffer: takes bytes of `data` until `need` are there or none is left. */
  method Fill(buff: array<byte>, have: nat, need: nat, data: bytes) returns (have': nat, used: nat)
    requires have <= need <= buff.Length
    modifies buff
    ensures used <= |data| && have' == have + used <= need && (have' == need || used == |data|)
    ensures buff[..have'] == old(buff[..have]) + data[..used]
    ensures buff[need..] == old(buff[need..])
  {
    have', used := have, 0;
    while have' < need && used < |data|
      invariant used <= |data| && have' == have + used <= need
      invariant buff[..have'] == old(buff[..have]) + data[..used]
      invariant buff[need..] == old(buff[need..])
    {
      buff[have'] := data[used];
      assert data[..used + 1] == data[..used] + [data[used]];
      assert buff[..have' + 1] == buff[..have'] + [data[used]];
      have', used := have' + 1, used + 1;
    }
  }

  /** The loop that appends to a string: takes `n` bytes of `data`, or all if there are fewer. */
  method Append(s: bytes, n: nat, data: bytes) returns (s': bytes, n': nat, used: nat)
    ensures used <= |data| && n' == n - used && (n' == 0 || used == |data|)
    ensures s' == s + data[..used]
  {
    s', n', used := s, n, 0;
    while n' > 0 && used < |data|
      invariant used <= |data| && n' == n - used
      invariant s' == s + data[..used]
    {
      s' := s' + [data[used]];
      assert data[..used + 1] == data[..used] + [data[used]];
      n', used := n' - 1, used + 1;
    }
  }
}
