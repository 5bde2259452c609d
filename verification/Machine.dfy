/** The 64-bit unsigned arithmetic of addresses, and a few shared value types. */
module Machine {

  const TWO_64: int := 0x1_0000_0000_0000_0000

  const TWO_32: int := 0x1_0000_0000

  type U64 = x: int | 0 <= x < TWO_64
  type U32 = x: int | 0 <= x < TWO_32
  type Byte = x: int | 0 <= x < 0x100

  datatype Option<+T> = None | Some(value: T)

  /** `a + b` in a 64-bit unsigned type. */
  function Add64(a: U64, b: U64): (r: U64)
    ensures r == if a + b < TWO_64 then a + b else a + b - TWO_64
  {
    (a + b) % TWO_64
  }

  /** `a - b` in a 64-bit unsigned type. */
  function Sub64(a: U64, b: U64): (r: U64)
    ensures r == if a >= b then a - b else a - b + TWO_64
  {
    (a - b) % TWO_64
  }

  lemma SliceSnoc<T>(s: seq<T>, i: nat)
    requires i < |s|
    ensures s[..i + 1] == s[..i] + [s[i]]
  {
  }

  lemma TwiceInSequence<T>(s: seq<T>, i: nat, j: nat)
    requires i < j < |s| && s[i] == s[j]
    ensures multiset(s)[s[i]] >= 2
  {
    assert s == s[..j] + s[j..];
    assert s[i] in s[..j] && s[j] in s[j..];
  }

  lemma {:induction false} TwoPositions<T>(s: seq<T>, x: T) returns (i: nat, j: nat)
    requires multiset(s)[x] >= 2
    ensures i < j < |s| && s[i] == x && s[j] == x
  {
    assert s == [s[0]] + s[1..];
    if s[0] == x {
      assert multiset(s[1..])[x] >= 1;
      i := 0;
      var k :| 0 <= k < |s[1..]| && s[1..][k] == x;
      j := k + 1;
    } else {
      i, j := TwoPositions(s[1..], x);
      i, j := i + 1, j + 1;
    }
  }
}
