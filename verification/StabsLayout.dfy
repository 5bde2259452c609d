/** The bytes of a .stab entry, by place, in either byte order. */
module StabsLayout {
  import opened Machine
  import opened StabsEntries

  /** The `n` bytes of a number. */
  function LittleBytes(v: nat, n: nat): (b: seq<Byte>)
    ensures |b| == n
  {
    if n == 0 then [] else [v % 256] + LittleBytes(v / 256, n - 1)
  }

  function BigBytes(v: nat, n: nat): (b: seq<Byte>)
    ensures |b| == n
  {
    if n == 0 then [] else BigBytes(v / 256, n - 1) + [v % 256]
  }

  function NumberBytes(v: nat, n: nat, big: bool): (b: seq<Byte>)
    ensures |b| == n
  {
    if big then BigBytes(v, n) else LittleBytes(v, n)
  }

  /** Which byte counts for more. */
  lemma TwoBytes(a: Byte, b: Byte)
    ensures Number([a, b], true) == 256 * (a as int) + b as int && Number([a, b], false) == 256 * (b as int) + a as int
  {
    assert [a, b][..1] == [a] && [a][..0] == [] && [a, b][1..] == [b] && [b][1..] == [];
    assert BigValue([a]) == a as int;
    assert LittleValue([b]) == b as int;
  }

  lemma {:induction false} NumberReads(v: nat, n: nat, big: bool)
    requires v < Power256(n)
    ensures Number(NumberBytes(v, n, big), big) == v
    decreases n
  {
    if n > 0 {
      NumberReads(v / 256, n - 1, big);
      if big {
        assert BigBytes(v, n)[..n - 1] == BigBytes(v / 256, n - 1);
      } else {
        assert LittleBytes(v, n)[1..] == LittleBytes(v / 256, n - 1);
      }
    }
  }

  /** The bytes of an entry: its name in bytes 0 to 3, its type in byte 4, the other
      field in byte 5, its descriptor in bytes 6 and 7, and its value from byte 8 on. */
  function EntryBytes(e: Entry, big: bool, valueSize: nat): (b: seq<Byte>)
    ensures |b| == EntrySize(valueSize)
  {
    NumberBytes(e.name, 4, big) + NumberBytes(e.kind, 1, big) + NumberBytes(e.other, 1, big) + NumberBytes(e.descriptor, 2, big)
    + NumberBytes(e.value, valueSize, big)
  }

  /** The fields fit their places. */
  predicate Fits(e: Entry, valueSize: nat)
  {
    e.name < Power256(4) && e.kind < Power256(1) && e.other < Power256(1) && e.descriptor < Power256(2) && e.value < Power256(valueSize)
  }

  function AllBytes(es: seq<Entry>, big: bool, valueSize: nat): seq<Byte>
  {
    if es == [] then [] else EntryBytes(es[0], big, valueSize) + AllBytes(es[1..], big, valueSize)
  }

  lemma {:induction false} EntryReads(e: Entry, big: bool, valueSize: nat, rest: seq<Byte>)
    requires valueSize <= 8 && Fits(e, valueSize)
    ensures Decode(EntryBytes(e, big, valueSize) + rest, big, valueSize) == e
  {
    var b := EntryBytes(e, big, valueSize) + rest;
    assert b[0..4] == NumberBytes(e.name, 4, big);
    assert b[4..5] == NumberBytes(e.kind, 1, big);
    assert b[5..6] == NumberBytes(e.other, 1, big);
    assert b[6..8] == NumberBytes(e.descriptor, 2, big);
    assert b[8..8 + valueSize] == NumberBytes(e.value, valueSize, big);
    NumberReads(e.name, 4, big);
    NumberReads(e.kind, 1, big);
    NumberReads(e.other, 1, big);
    NumberReads(e.descriptor, 2, big);
    NumberReads(e.value, valueSize, big);
  }

  /** Reading the bytes of any entries yields the entries, in either byte order; a rest
      that is too short for another is passed over. */
  lemma {:induction false} SectionReads(es: seq<Entry>, big: bool, valueSize: nat, rest: seq<Byte>)
    requires valueSize <= 8 && |rest| < EntrySize(valueSize) && forall i :: 0 <= i < |es| ==> Fits(es[i], valueSize)
    ensures Entries(AllBytes(es, big, valueSize) + rest, big, valueSize) == es
    decreases |es|
  {
    if es == [] {
      assert AllBytes(es, big, valueSize) + rest == rest;
    } else {
      SectionReads(es[1..], big, valueSize, rest);
      FirstEntry(es[0], AllBytes(es[1..], big, valueSize), rest, big, valueSize);
    }
  }

  lemma FirstEntry(e: Entry, tail: seq<Byte>, rest: seq<Byte>, big: bool, valueSize: nat)
    requires valueSize <= 8 && Fits(e, valueSize)
    ensures Entries(EntryBytes(e, big, valueSize) + tail + rest, big, valueSize) == [e] + Entries(tail + rest, big, valueSize)
  {
    var first := EntryBytes(e, big, valueSize);
    EntryReads(e, big, valueSize, tail + rest);
    Dropped(first, tail, rest);
  }

  lemma Dropped(first: seq<Byte>, tail: seq<Byte>, rest: seq<Byte>)
    ensures first + tail + rest == first + (tail + rest) && (first + tail + rest)[|first|..] == tail + rest
  {
  }

  lemma FourBytes(a: Byte, b: Byte, c: Byte, d: Byte)
    ensures Number([a, b, c, d], false) == a as int + 256 * (b as int) + 0x1_0000 * (c as int) + 0x100_0000 * (d as int)
  {
    assert [a, b, c, d][1..] == [b, c, d];
    assert [b, c, d][1..] == [c, d];
    TwoBytes(c, d);
    assert LittleValue([b, c, d]) == 256 * LittleValue([c, d]) + b as int;
    assert LittleValue([a, b, c, d]) == 256 * LittleValue([b, c, d]) + a as int;
  }

  /** A little-endian N_SO entry at 0x1000. */
  lemma UnitEntryReads()
    ensures Decode([0x01, 0, 0, 0, 0x64, 0x07, 0x02, 0x01, 0x00, 0x10, 0, 0], false, 4) == Entry(1, 0x64, 7, 0x102, 0x1000)
  {
    var b: seq<Byte> := [0x01, 0, 0, 0, 0x64, 0x07, 0x02, 0x01, 0x00, 0x10, 0, 0];
    assert b[0..4] == [1, 0, 0, 0];
    assert b[4..5] == [0x64];
    assert b[5..6] == [7];
    assert b[6..8] == [2, 1];
    assert b[8..8 + 4] == [0, 0x10, 0, 0];
    FourBytes(1, 0, 0, 0);
    FourBytes(0, 0x10, 0, 0);
    TwoBytes(2, 1);
    assert [0x64][1..] == [] && [7][1..] == [];
  }
}
