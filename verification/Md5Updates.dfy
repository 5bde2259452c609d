/** MD5 as it is fed: the state depends on the bytes, not on how they are split. */
module Md5Updates {
  import opened Machine

  /** The chaining value, and the block transform, which takes 64 bytes. */
  datatype Chain = Chain(a: U32, b: U32, c: U32, d: U32)
  type Transform = (Chain, seq<Byte>) -> Chain

  const INITIAL: Chain := Chain(0x67452301, 0xefcdab89, 0x98badcfe, 0x10325476)

  /** The word of four bytes, low-order byte first. */
  function Word(b: seq<Byte>): U32
    requires |b| == 4
  {
    b[0] + 0x100 * (b[1] as int) + 0x1_0000 * (b[2] as int) + 0x100_0000 * (b[3] as int)
  }

  /** The chaining value starts as the bytes of section 3.3 of RFC 1321. */
  lemma InitialBytes()
    ensures INITIAL == Chain(Word([0x01, 0x23, 0x45, 0x67]), Word([0x89, 0xab, 0xcd, 0xef]),
                             Word([0xfe, 0xdc, 0xba, 0x98]), Word([0x76, 0x54, 0x32, 0x10]))
  {
  }

  /** The optimized form of the first round's function is the one of section 3.4 of
      RFC 1321; the second round uses it with its arguments turned. */
  lemma FirstFunction(x: bv32, y: bv32, z: bv32)
    ensures z ^ (x & (y ^ z)) == (x & y) | (!x & z)
    ensures y ^ (z & (x ^ y)) == (x & z) | (y & !z)
  {
  }

  // ----- A message

  /** The transform folded over the full blocks of `m`. */
  function Fold(f: Transform, c: Chain, m: seq<Byte>): Chain
    decreases |m|
  {
    if |m| < 64 then c else Fold(f, f(c, m[..64]), m[64..])
  }

  /** The bytes after the last full block. */
  function Tail(m: seq<Byte>): (r: seq<Byte>)
    ensures |r| < 64 && |r| <= |m|
    decreases |m|
  {
    if |m| < 64 then m else Tail(m[64..])
  }

  lemma {:induction false} TailLength(m: seq<Byte>)
    ensures |Tail(m)| == |m| % 64 && Tail(m) == m[|m| - |Tail(m)|..]
    decreases |m|
  {
    if |m| >= 64 {
      TailLength(m[64..]);
      assert |m| % 64 == (|m| - 64) % 64;
    }
  }

  /** More bytes can be taken after the full blocks are done. */
  lemma {:induction false} FoldMore(f: Transform, c: Chain, m: seq<Byte>, data: seq<Byte>)
    ensures Fold(f, c, m + data) == Fold(f, Fold(f, c, m), Tail(m) + data)
    ensures Tail(m + data) == Tail(Tail(m) + data)
    decreases |m|
  {
    if |m| >= 64 {
      assert (m + data)[..64] == m[..64] && (m + data)[64..] == m[64..] + data;
      FoldMore(f, f(c, m[..64]), m[64..], data);
    }
  }

  /** The parts of a message, one after another. */
  function Joined(parts: seq<seq<Byte>>): seq<Byte>
  {
    if parts == [] then [] else Joined(parts[..|parts| - 1]) + parts[|parts| - 1]
  }

  /** The number of bits in two words. */
  function Count(low: U32, high: U32): int
  {
    low + TWO_32 * high
  }

  /** Adding the bits of `len` bytes, with the carry. */
  function AddLow(low: U32, len: nat): U32
  {
    (low + (len % TWO_32) * 8 % TWO_32) % TWO_32
  }

  function AddHigh(low: U32, high: U32, len: nat): U32
  {
    var h := if AddLow(low, len) < low then (high + 1) % TWO_32 else high as int;
    (h + len / 0x2000_0000) % TWO_32
  }

  lemma LowPart(len: nat)
    ensures (len % TWO_32) * 8 % TWO_32 == 8 * (len % 0x2000_0000)
    ensures 8 * len == TWO_32 * (len / 0x2000_0000) + 8 * (len % 0x2000_0000)
  {
    var q := len / 0x2000_0000;
    var r := len % 0x2000_0000;
    assert len == 0x2000_0000 * q + r;
  }

  lemma CountAdds(low: U32, high: U32, len: nat)
    ensures Count(AddLow(low, len), AddHigh(low, high, len)) % TWO_64 == (Count(low, high) + 8 * len) % TWO_64
  {
    LowPart(len);
    var p, q := 8 * (len % 0x2000_0000), len / 0x2000_0000;
    var carry := if low + p < TWO_32 then 0 else 1;
    assert AddLow(low, len) == low + p - TWO_32 * carry;
    HighPart(high, carry, q, AddHigh(low, high, len));
    var k :| high + carry + q == AddHigh(low, high, len) + TWO_32 * k;
    assert Count(low, high) + 8 * len == Count(AddLow(low, len), AddHigh(low, high, len)) + TWO_64 * k;
    Drop(Count(AddLow(low, len), AddHigh(low, high, len)), k);
  }

  lemma HighPart(high: U32, carry: int, q: nat, r: U32)
    requires carry == 0 || carry == 1
    requires r == ((if carry == 1 then (high + 1) % TWO_32 else high as int) + q) % TWO_32
    ensures exists k: int :: high + carry + q == r + TWO_32 * k
  {
    var h := if carry == 1 then (high + 1) % TWO_32 else high as int;
    var a, b := (high + carry - h) / TWO_32, (h + q) / TWO_32;
    assert high + carry == h + TWO_32 * a;
    assert h + q == r + TWO_32 * b;
    assert high + carry + q == r + TWO_32 * (a + b);
  }

  lemma Drop(a: int, k: int)
    ensures (a + TWO_64 * k) % TWO_64 == a % TWO_64
  {
  }

  /** The buffer position is in the low word: it keeps the length modulo 64. */
  lemma Position(low: U32, high: U32, n: nat)
    requires Count(low, high) == 8 * n % TWO_64
    ensures low / 8 % 64 == n % 64
  {
    var k := 8 * n / TWO_64;
    assert 8 * n == Count(low, high) + TWO_64 * k;
    var j := high + TWO_32 * k;
    assert 8 * n == low + TWO_32 * j;
    assert low == 8 * (n - 0x2000_0000 * j);
    assert low / 8 == n - 64 * (0x80_0000 * j);
  }

  // ----- The context

  class MD5Context {
    const transform: Transform
    var buf: Chain
    var low: U32
    var high: U32
    const input: array<Byte>

    /** The state after the message `m`, however it was fed. */
    ghost predicate Holds(m: seq<Byte>)
      reads this, input
    {
      && input.Length == 64 && buf == Fold(transform, INITIAL, m)
      && Count(low, high) == 8 * |m| % TWO_64
      && input[..|Tail(m)|] == Tail(m)
    }

    /** `MD5Init`. */
    constructor (transform: Transform)
      ensures this.transform == transform && fresh(input) && Holds([])
    {
      this.transform := transform;
      buf, low, high := INITIAL, 0, 0;
      input := new Byte[64](_ => 0);
    }

    /** `memcpy` into the buffer. */
    method Store(at: nat, data: seq<Byte>)
      requires input.Length == 64 && at + |data| <= 64
      modifies input
      ensures input[..at] == old(input[..at]) && input[at..at + |data|] == data
    {
      for i := 0 to |data|
        invariant input[..at] == old(input[..at]) && input[at..at + i] == data[..i]
      {
        input[at + i] := data[i];
        assert input[at..at + i + 1] == input[at..at + i] + [data[i]];
        assert data[..i + 1] == data[..i] + [data[i]];
      }
    }

    /** The blocks and the rest of `data`, once the buffer is empty. */
    method Blocks(data: seq<Byte>)
      requires input.Length == 64
      modifies this`buf, input
      ensures buf == Fold(transform, old(buf), data) && input[..|Tail(data)|] == Tail(data)
    {
      var rest := data;
      while |rest| >= 64
        invariant Fold(transform, old(buf), data) == Fold(transform, buf, rest) && Tail(data) == Tail(rest)
        decreases |rest|
      {
        Store(0, rest[..64]);
        assert input[..] == rest[..64];
        buf := transform(buf, input[..]);
        rest := rest[64..];
      }
      Store(0, rest);
    }

    /** `MD5Update`. */
    method Update(data: seq<Byte>, ghost m: seq<Byte>)
      requires Holds(m) && |data| < TWO_64
      modifies this, input
      ensures Holds(m + data)
    {
      Position(low, high, |m|);
      TailLength(m);
      FoldMore(transform, INITIAL, m, data);
      CountAdds(low, high, |data|);
      var t := low / 8 % 64;
      ghost var tail := Tail(m);
      CountStep(low, high, |m|, |data|);
      low, high := AddLow(low, |data|), AddHigh(low, high, |data|);
      assert |m + data| == |m| + |data|;
      Feed(t, data, tail);
    }

    /** `MD5Update` after the bit count. */
    method Feed(t: nat, data: seq<Byte>, ghost tail: seq<Byte>)
      requires input.Length == 64 && t == |tail| < 64 && input[..t] == tail
      modifies this`buf, input
      ensures buf == Fold(transform, old(buf), tail + data) && input[..|Tail(tail + data)|] == Tail(tail + data)
    {
      if t == 0 {
        assert tail + data == data;
        Blocks(data);
        return;
      }
      var room := 64 - t;
      if |data| < room {
        Store(t, data);
        assert input[..t + |data|] == input[..t] + input[t..t + |data|];
        return;
      }
      Store(t, data[..room]);
      assert input[..] == input[..t] + input[t..64];
      assert (tail + data)[..64] == tail + data[..room] && (tail + data)[64..] == data[room..];
      buf := transform(buf, input[..]);
      Blocks(data[room..]);
    }
  }

  lemma CountStep(low: U32, high: U32, n: nat, len: nat)
    requires Count(low, high) == 8 * n % TWO_64
    ensures Count(AddLow(low, len), AddHigh(low, high, len)) == 8 * (n + len) % TWO_64
  {
    CountAdds(low, high, len);
    var k := 8 * n / TWO_64;
    assert 8 * (n + len) == Count(low, high) + 8 * len + TWO_64 * k;
    Drop(Count(low, high) + 8 * len, k);
    var c := Count(AddLow(low, len), AddHigh(low, high, len));
    assert 0 <= c < TWO_64;
  }

  /** Any split of a message: the context after its parts is that of the whole. */
  method FeedParts(transform: Transform, parts: seq<seq<Byte>>) returns (c: MD5Context)
    requires forall i :: 0 <= i < |parts| ==> |parts[i]| < TWO_64
    ensures fresh(c) && c.transform == transform && c.Holds(Joined(parts))
  {
    c := new MD5Context(transform);
    assert Joined(parts[..0]) == [];
    for i := 0 to |parts|
      invariant fresh(c) && fresh(c.input) && c.transform == transform && c.Holds(Joined(parts[..i]))
    {
      assert parts[..i + 1][..i] == parts[..i];
      c.Update(parts[i], Joined(parts[..i]));
    }
    assert parts[..|parts|] == parts;
  }
}
