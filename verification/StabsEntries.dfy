/** The .stab section as a sequence of entries: a checked byte cursor, and an
    iterator that fetches one entry at a time.
 */
module StabsEntries {
  import opened Machine

  /** Numbers of either byte order. */
  function BigValue(b: seq<Byte>): nat
  {
    if b == [] then 0 else 256 * BigValue(b[..|b| - 1]) + b[|b| - 1] as int
  }

  function LittleValue(b: seq<Byte>): nat
  {
    if b == [] then 0 else 256 * LittleValue(b[1..]) + b[0] as int
  }

  function Number(b: seq<Byte>, big: bool): nat
  {
    if big then BigValue(b) else LittleValue(b)
  }

  /** The two orders agree on reversed bytes. */
  lemma {:induction false} OrdersMirror(b: seq<Byte>, r: seq<Byte>)
    requires |r| == |b| && forall i :: 0 <= i < |b| ==> r[i] == b[|b| - 1 - i]
    ensures BigValue(r) == LittleValue(b)
    decreases |b|
  {
    if b != [] {
      OrdersMirror(b[1..], r[..|r| - 1]);
    }
  }

  function Power256(n: nat): nat
  {
    if n == 0 then 1 else 256 * Power256(n - 1)
  }

  lemma {:induction false} NumberFits(b: seq<Byte>, big: bool)
    ensures Number(b, big) < Power256(|b|)
    decreases |b|
  {
    if b != [] {
      NumberFits(if big then b[..|b| - 1] else b[1..], big);
    }
  }

  lemma WordFits(b: seq<Byte>, big: bool)
    requires |b| <= 8
    ensures Number(b, big) < TWO_64
  {
    NumberFits(b, big);
    PowerGrows(|b|);
  }

  lemma PowerGrows(n: nat)
    requires n <= 8
    ensures Power256(n) <= TWO_64
  {
    assert Power256(4) == 0x1_0000_0000;
    assert Power256(8) == 0x1_0000_0000 * Power256(4) by {
      assert Power256(8) == 256 * 256 * 256 * 256 * Power256(4);
    }
    if n == 1 || n == 2 || n == 3 {
      assert Power256(3) == 0x100_0000;
    } else if n == 5 || n == 6 || n == 7 {
      assert Power256(7) == 0x100_0000 * Power256(4);
    }
  }

  /** `ByteCursor`. */
  class ByteCursor {
    const buffer: seq<Byte>
    const big: bool
    var here: nat
    var complete: bool

    ghost predicate Valid()
      reads this
    {
      here <= |buffer|
    }

    constructor (buffer: seq<Byte>, big: bool)
      ensures this.buffer == buffer && this.big == big && here == 0 && complete && Valid()
    {
      this.buffer, this.big, here, complete := buffer, big, 0, true;
    }

    method CheckAvailable(size: nat) returns (ok: bool)
      requires Valid()
      modifies this
      ensures Valid() && ok == (old(here) + size <= |buffer|)
      ensures here == (if ok then old(here) else |buffer|) && complete == (old(complete) && ok)
    {
      if |buffer| - here >= size {
        ok := true;
      } else {
        here, complete, ok := |buffer|, false, false;
      }
    }

    /** `Read` of an unsigned number of `size` bytes. */
    method Read(size: nat) returns (v: nat)
      requires Valid()
      modifies this
      ensures Valid()
      ensures var ok := old(here) + size <= |buffer|;
              && complete == (old(complete) && ok)
              && here == (if ok then old(here) + size else |buffer|)
              && v == (if ok then Number(buffer[old(here)..old(here) + size], big) else 0xdeadbeef)
    {
      var ok := CheckAvailable(size);
      if !ok {
        return 0xdeadbeef;
      }
      v := 0;
      ghost var bytes := buffer[here..here + size];
      if big {
        for i := 0 to size
          invariant v == BigValue(bytes[..i])
        {
          assert bytes[..i + 1][..i] == bytes[..i];
          v := v * 256 + buffer[here + i];
        }
        assert bytes[..size] == bytes;
      } else {
        for i := size downto 0
          invariant v == LittleValue(bytes[i..])
        {
          assert bytes[i..][1..] == bytes[i + 1..];
          v := v * 256 + buffer[here + i];
        }
        assert bytes[0..] == bytes;
      }
      here := here + size;
    }
  }

  /** One entry; the descriptor as the 16-bit number it is read as. */
  datatype Entry = Entry(name: nat, kind: nat, other: nat, descriptor: nat, value: U64)

  function EntrySize(valueSize: nat): nat
  {
    8 + valueSize
  }

  /** The entry at the beginning of `b`. */
  function Decode(b: seq<Byte>, big: bool, valueSize: nat): Entry
    requires valueSize <= 8 && EntrySize(valueSize) <= |b|
  {
    WordFits(b[8..8 + valueSize], big);
    Entry(Number(b[0..4], big), Number(b[4..5], big), Number(b[5..6], big), Number(b[6..8], big),
          Number(b[8..8 + valueSize], big))
  }

  /** All whole entries of `b`; a rest that is too short is not one. */
  function Entries(b: seq<Byte>, big: bool, valueSize: nat): seq<Entry>
    requires valueSize <= 8
    decreases |b|
  {
    if |b| < EntrySize(valueSize) then []
    else [Decode(b, big, valueSize)] + Entries(b[EntrySize(valueSize)..], big, valueSize)
  }

  /** There are as many entries as fit. */
  lemma {:induction false} EntriesCount(b: seq<Byte>, big: bool, valueSize: nat)
    requires valueSize <= 8
    ensures var n, size := |Entries(b, big, valueSize)|, EntrySize(valueSize);
            n * size <= |b| < n * size + size
    decreases |b|
  {
    var size := EntrySize(valueSize);
    if |b| >= size {
      EntriesCount(b[size..], big, valueSize);
      var m := |Entries(b[size..], big, valueSize)|;
      assert (m + 1) * size == m * size + size;
    }
  }

  /** `EntryIterator`. */
  class EntryIterator {
    const cursor: ByteCursor
    const valueSize: nat
    var atEnd: bool
    var entry: Entry

    ghost predicate Valid()
      reads this, cursor
    {
      cursor.Valid() && valueSize <= 8 && (atEnd ==> |cursor.buffer| - cursor.here < EntrySize(valueSize))
    }

    /** The entries from the current one on. */
    ghost function Rest(): seq<Entry>
      requires Valid()
      reads this, cursor
    {
      if atEnd then [] else [entry] + Entries(cursor.buffer[cursor.here..], cursor.big, valueSize)
    }

    constructor (buffer: seq<Byte>, big: bool, valueSize: nat)
      requires valueSize == 4 || valueSize == 8
      ensures Valid() && fresh(cursor) && Rest() == Entries(buffer, big, valueSize)
      ensures atEnd == !cursor.complete
    {
      this.cursor := new ByteCursor(buffer, big);
      this.valueSize := valueSize;
      atEnd := true;
      entry := Entry(0, 0, 0, 0, 0);
      new;
      assert buffer[0..] == buffer;
      Fetch();
    }

    method Fetch()
      requires cursor.Valid() && valueSize <= 8 && cursor.complete
      modifies this, cursor
      ensures Valid() && Rest() == old(Entries(cursor.buffer[cursor.here..], cursor.big, valueSize))
      ensures atEnd == !cursor.complete
    {
      ghost var start, b := cursor.here, cursor.buffer[cursor.here..];
      ghost var n := EntrySize(valueSize);
      var name := cursor.Read(4);
      var kind := cursor.Read(1);
      var other := cursor.Read(1);
      var descriptor := cursor.Read(2);
      var value := cursor.Read(valueSize);
      atEnd := !cursor.complete;
      if !atEnd {
        assert cursor.here == start + n;
        Slices(cursor.buffer, start, b, valueSize);
        WordFits(b[8..8 + valueSize], cursor.big);
        entry := Entry(name, kind, other, descriptor, value);
        assert cursor.buffer[cursor.here..] == b[n..];
        assert entry == Decode(b, cursor.big, valueSize);
      }
    }

    /** `operator++`. */
    method Advance()
      requires Valid() && !atEnd && cursor.complete
      modifies this, cursor
      ensures Valid() && Rest() == old(Rest())[1..] && atEnd == !cursor.complete
    {
      Fetch();
    }
  }

  lemma Slices(buffer: seq<Byte>, start: nat, b: seq<Byte>, valueSize: nat)
    requires start + 8 + valueSize <= |buffer| && b == buffer[start..]
    ensures b[0..4] == buffer[start..start + 4] && b[4..5] == buffer[start + 4..start + 5]
    ensures b[5..6] == buffer[start + 5..start + 6] && b[6..8] == buffer[start + 6..start + 8]
    ensures b[8..8 + valueSize] == buffer[start + 8..start + 8 + valueSize]
  {
  }
}
