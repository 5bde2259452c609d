/** The minidump writer: chunks allocated in a file, and copies into their elements. */
module MinidumpFiles {
  import opened Machine

  const INVALID: nat := 0xFFFF_FFFF

  // ----- The file

  function Zeros(n: nat): (s: seq<Byte>)
    ensures |s| == n
  {
    seq(n, _ => 0)
  }

  /** `ftruncate`. */
  function Resized(file: seq<Byte>, n: nat): (r: seq<Byte>)
    ensures |r| == n
  {
    if n <= |file| then file[..n] else file + Zeros(n - |file|)
  }

  /** `write` at a position, which extends the file where it has to. */
  function Written(file: seq<Byte>, at: nat, data: seq<Byte>): (r: seq<Byte>)
    ensures |r| == if at + |data| <= |file| then |file| else at + |data|
  {
    var f := if at + |data| <= |file| then file else Resized(file, at + |data|);
    f[..at] + data + f[at + |data|..]
  }

  /** What a read of the file yields; nothing was written past its end. */
  function Bytes(file: seq<Byte>, at: nat, n: nat): (r: seq<Byte>)
    ensures |r| == n
  {
    Resized(file, at + n)[at..]
  }

  lemma WrittenReads(file: seq<Byte>, at: nat, data: seq<Byte>)
    ensures Bytes(Written(file, at, data), at, |data|) == data
  {
    var r := Written(file, at, data);
    assert Resized(r, at + |data|)[at..] == data;
  }

  /** A write leaves everything else as it was. */
  lemma WrittenElsewhere(file: seq<Byte>, at: nat, data: seq<Byte>, b: nat, n: nat)
    requires b + n <= at || at + |data| <= b
    ensures Bytes(Written(file, at, data), b, n) == Bytes(file, b, n)
  {
    var r := Written(file, at, data);
    forall i | 0 <= i < n
      ensures Bytes(r, b, n)[i] == Bytes(file, b, n)[i]
    {
      ByteAt(r, b, n, i);
      ByteAt(file, b, n, i);
    }
  }

  lemma ByteAt(file: seq<Byte>, b: nat, n: nat, i: nat)
    requires i < n
    ensures Bytes(file, b, n)[i] == if b + i < |file| then file[b + i] else 0
  {
  }

  lemma GrownReads(file: seq<Byte>, m: nat, b: nat, n: nat)
    requires |file| <= m
    ensures Bytes(Resized(file, m), b, n) == Bytes(file, b, n)
  {
    forall i | 0 <= i < n
      ensures Bytes(Resized(file, m), b, n)[i] == Bytes(file, b, n)[i]
    {
      ByteAt(Resized(file, m), b, n, i);
      ByteAt(file, b, n, i);
    }
  }

  // ----- The writer

  function Aligned(n: nat): (r: nat)
    ensures n <= r < n + 8 && r % 8 == 0
  {
    (n + 7) / 8 * 8
  }

  /** The writer's fields and the file; `plain` is the way of writing without
      `ftruncate`. */
  datatype Dump = Dump(position: nat, size: nat, file: seq<Byte>, plain: bool, pageSize: nat) {
    function Extent(n: nat): nat
    {
      if plain then n else Aligned(n)
    }

    /** `Allocate`; `grows` says whether `ftruncate` succeeds. */
    function Allocate(n: nat, grows: bool): (Dump, nat)
    {
      if plain then (this.(size := size + n, position := (position + n) % TWO_32), position)
      else
        var m := Aligned(n);
        if position + m <= size then (this.(position := (position + m) % TWO_32), position)
        else if !grows then (this, INVALID)
        else
          var bigger := size + if m < pageSize then pageSize else m;
          (this.(size := bigger, file := Resized(file, bigger), position := (position + m) % TWO_32), position)
    }

    /** `Copy`; `wrote` is what the kernel says, negative if it could not seek. */
    function Copy(at: nat, data: seq<Byte>, wrote: int): (Dump, bool)
      requires wrote <= |data|
    {
      if |data| + at > size then (this, false)
      else if wrote < 0 then (this, false)
      else (this.(file := Written(file, at, data[..wrote])), wrote == |data|)
    }
  }

  // ----- Chunks

  /** An allocated chunk: an object of `head` bytes, which may be missing, and an
      array of `count` elements of `each` bytes. */
  datatype Chunk = Chunk(position: nat, head: nat, each: nat, count: nat) {
    function Size(): nat
    {
      head + each * count
    }

    /** Part -1 is the object, part `i` the element at index `i`. */
    predicate Has(i: int)
    {
      -1 <= i < count
    }

    function At(i: int): nat
      requires Has(i)
    {
      if i < 0 then position else position + head + each * i
    }

    function Length(i: int): nat
      requires Has(i)
    {
      if i < 0 then head else each
    }
  }

  lemma PartInside(c: Chunk, i: int)
    requires c.Has(i)
    ensures c.position <= c.At(i) && c.At(i) + c.Length(i) <= c.position + c.Size()
  {
    if 0 <= i {
      Monotone(c.each, i + 1, c.count);
      assert c.each * (i + 1) == c.each * i + c.each;
    } else {
      assert 0 <= c.each * c.count;
    }
  }

  lemma Monotone(k: nat, a: nat, b: nat)
    requires a <= b
    ensures k * a <= k * b
  {
  }

  lemma PartsApart(c: Chunk, i: int, j: int)
    requires c.Has(i) && c.Has(j) && i < j
    ensures c.At(i) + c.Length(i) <= c.At(j)
  {
    if 0 <= i {
      Monotone(c.each, i + 1, j);
      assert c.each * (i + 1) == c.each * i + c.each;
    } else {
      assert 0 <= c.each * j;
    }
  }

  /** The chunks lie one after another below the position. */
  ghost predicate Laid(d: Dump, cs: seq<Chunk>)
  {
    && d.position <= d.size && |d.file| <= d.size
    && (forall k :: 0 <= k < |cs| ==> cs[k].position + cs[k].Size() <= d.position)
    && (forall j, k :: 0 <= j < k < |cs| ==> cs[j].position + cs[j].Size() <= cs[k].position)
    && (!d.plain ==> d.position % 8 == 0 && forall k :: 0 <= k < |cs| ==> cs[k].position % 8 == 0)
  }

  /** What was written where, by chunk and part, is what the file holds there. */
  type Record = map<(nat, int), seq<Byte>>

  ghost predicate Part(cs: seq<Chunk>, key: (nat, int))
  {
    key.0 < |cs| && cs[key.0].Has(key.1)
  }

  ghost predicate Holds(d: Dump, cs: seq<Chunk>, w: Record, key: (nat, int))
  {
    && key in w && Part(cs, key)
    && |w[key]| == cs[key.0].Length(key.1)
    && Bytes(d.file, cs[key.0].At(key.1), |w[key]|) == w[key]
  }

  ghost predicate Kept(d: Dump, cs: seq<Chunk>, w: Record)
  {
    forall key :: key in w ==> Holds(d, cs, w, key)
  }

  /** What an allocation does to the writer. */
  lemma AllocateSteps(d: Dump, n: nat, grows: bool)
    requires d.position <= d.size && |d.file| <= d.size && 0 < n && d.position + d.Extent(n) < TWO_32
    requires !d.plain ==> d.position % 8 == 0
    ensures var (e, at) := d.Allocate(n, grows);
            if at == INVALID then e == d && !d.plain && !grows
            else
              && at == d.position && e.position == d.position + d.Extent(n) && n <= d.Extent(n)
              && e.position <= e.size && |e.file| <= e.size && e.plain == d.plain
              && (e.file == d.file || e.file == Resized(d.file, e.size)) && |d.file| <= e.size
              && (!d.plain ==> e.position % 8 == 0)
  {
    if !d.plain {
      SumAligned(d.position, Aligned(n));
    }
  }

  /** Without `ftruncate` the file is not touched. With it the file grows exactly if the
      chunk does not fit what was asked for before, by what the chunk takes or a page,
      whichever is more; so then there is room for all of it. */
  lemma AllocateGrows(d: Dump, n: nat, grows: bool)
    requires d.position <= d.size && d.position + d.Extent(n) < TWO_32
    ensures var (e, at) := d.Allocate(n, grows);
            && (d.plain ==> e.file == d.file && e.size == d.size + n)
            && (!d.plain && d.position + Aligned(n) <= d.size ==> e.file == d.file && e.size == d.size)
            && (!d.plain && d.position + Aligned(n) > d.size && grows ==>
                  && |e.file| == e.size && e.size - d.size == (if Aligned(n) > d.pageSize then Aligned(n) else d.pageSize)
                  && e.position <= e.size)
  {
  }

  lemma SumAligned(a: nat, b: nat)
    requires a % 8 == 0 && b % 8 == 0
    ensures (a + b) % 8 == 0
  {
  }

  /** A chunk allocated below the 32-bit limit lies after all others, and nothing
      written is lost; a failed allocation changes nothing. */
  lemma AllocateKeeps(d: Dump, cs: seq<Chunk>, w: Record, c: Chunk, grows: bool)
    requires Laid(d, cs) && Kept(d, cs, w)
    requires 0 < c.Size() && d.position + d.Extent(c.Size()) < TWO_32 && c.position == d.position
    ensures var (e, at) := d.Allocate(c.Size(), grows);
            if at == INVALID then e == d && !d.plain && !grows
            else at == c.position && Laid(e, cs + [c]) && Kept(e, cs + [c], w)
  {
    AllocateSteps(d, c.Size(), grows);
    var (e, at) := d.Allocate(c.Size(), grows);
    if at != INVALID {
      LaidMore(d, e, cs, c);
      KeptMore(d, e, cs, c, w);
    }
  }

  lemma LaidMore(d: Dump, e: Dump, cs: seq<Chunk>, c: Chunk)
    requires Laid(d, cs) && c.position == d.position && d.position + c.Size() <= e.position
    requires e.position <= e.size && |e.file| <= e.size && e.plain == d.plain && (!e.plain ==> e.position % 8 == 0)
    ensures Laid(e, cs + [c])
  {
    var more := cs + [c];
    forall k | 0 <= k < |more|
      ensures more[k].position + more[k].Size() <= e.position && (!e.plain ==> more[k].position % 8 == 0)
    {
      assert more[k] == if k < |cs| then cs[k] else c;
    }
  }

  lemma KeptMore(d: Dump, e: Dump, cs: seq<Chunk>, c: Chunk, w: Record)
    requires Kept(d, cs, w) && |d.file| <= e.size && (e.file == d.file || e.file == Resized(d.file, e.size))
    ensures Kept(e, cs + [c], w)
  {
    var more := cs + [c];
    forall key | key in w
      ensures Holds(e, more, w, key)
    {
      assert Holds(d, cs, w, key);
      assert more[key.0] == cs[key.0];
      GrownReads(d.file, e.size, cs[key.0].At(key.1), |w[key]|);
    }
  }

  lemma PartsOfChunksApart(d: Dump, cs: seq<Chunk>, a: (nat, int), b: (nat, int))
    requires Laid(d, cs) && Part(cs, a) && Part(cs, b) && a != b
    ensures var (p, q) := (cs[a.0], cs[b.0]);
            p.At(a.1) + p.Length(a.1) <= q.At(b.1) || q.At(b.1) + q.Length(b.1) <= p.At(a.1)
  {
    PartInside(cs[a.0], a.1);
    PartInside(cs[b.0], b.1);
    if a.0 == b.0 {
      if a.1 < b.1 {
        PartsApart(cs[a.0], a.1, b.1);
      } else {
        PartsApart(cs[a.0], b.1, a.1);
      }
    }
  }

  /** Copying to a part of a chunk, with the length of that part, fits; if the kernel
      writes it all, it can be read back and no other part is touched. */
  lemma CopyKeeps(d: Dump, cs: seq<Chunk>, w: Record, key: (nat, int), data: seq<Byte>)
    requires Laid(d, cs) && Kept(d, cs, w) && Part(cs, key) && |data| == cs[key.0].Length(key.1)
    ensures var (e, ok) := d.Copy(cs[key.0].At(key.1), data, |data|);
            ok && Laid(e, cs) && Kept(e, cs, w[key := data])
  {
    var c := cs[key.0];
    PartInside(c, key.1);
    var (e, ok) := d.Copy(c.At(key.1), data, |data|);
    assert data[..|data|] == data;
    assert e.file == Written(d.file, c.At(key.1), data);
    WrittenReads(d.file, c.At(key.1), data);
    var v := w[key := data];
    forall k | k in v
      ensures Holds(e, cs, v, k)
    {
      if k != key {
        assert Holds(d, cs, w, k);
        PartsOfChunksApart(d, cs, k, key);
        WrittenElsewhere(d.file, c.At(key.1), data, cs[k.0].At(k.1), |w[k]|);
      }
    }
  }

  /** If the kernel writes less, only that part can differ; if it cannot even seek,
      nothing does. */
  lemma CopyFails(d: Dump, cs: seq<Chunk>, w: Record, key: (nat, int), data: seq<Byte>, wrote: int)
    requires Laid(d, cs) && Kept(d, cs, w) && Part(cs, key) && |data| == cs[key.0].Length(key.1)
    requires wrote < |data|
    ensures var (e, ok) := d.Copy(cs[key.0].At(key.1), data, wrote);
            !ok && Laid(e, cs) && (if wrote < 0 then e == d else Kept(e, cs, w - {key}))
  {
    var c := cs[key.0];
    PartInside(c, key.1);
    var (e, ok) := d.Copy(c.At(key.1), data, wrote);
    if 0 <= wrote {
      var v := w - {key};
      forall k | k in v
        ensures Holds(e, cs, v, k)
      {
        assert Holds(d, cs, w, k);
        PartsOfChunksApart(d, cs, k, key);
        WrittenElsewhere(d.file, c.At(key.1), data[..wrote], cs[k.0].At(k.1), |w[k]|);
      }
    }
  }

  // ----- Whole runs

  datatype Step =
    | Allocation(chunk: Chunk, grows: bool)
    | CopyTo(index: nat, part: int, data: seq<Byte>, wrote: int)

  datatype World = World(dump: Dump, chunks: seq<Chunk>, record: Record)

  /** A step that callers take: allocations below the 32-bit limit, and copies to
      parts there are, with their length, of which the kernel writes as much as it
      likes. */
  ghost predicate Allowed(s: World, step: Step)
  {
    match step
    case Allocation(c, _) => 0 < c.Size() && c.position == s.dump.position && c.position + s.dump.Extent(c.Size()) < TWO_32
    case CopyTo(chunk, part, data, wrote) =>
      Part(s.chunks, (chunk, part)) && 0 < |data| == s.chunks[chunk].Length(part) && wrote <= |data|
  }

  ghost function Take(s: World, step: Step): World
    requires Allowed(s, step)
  {
    match step
    case Allocation(c, grows) =>
      var (e, at) := s.dump.Allocate(c.Size(), grows);
      if at == INVALID then World(e, s.chunks, s.record) else World(e, s.chunks + [c], s.record)
    case CopyTo(chunk, part, data, wrote) =>
      var (e, ok) := s.dump.Copy(s.chunks[chunk].At(part), data, wrote);
      var key := (chunk, part);
      World(e, s.chunks, if ok then s.record[key := data] else if wrote < 0 then s.record else s.record - {key})
  }

  /** The worlds that can be reached by allowed steps. */
  ghost predicate Reaches(start: World, steps: seq<Step>, end: World)
    decreases |steps|
  {
    if steps == [] then start == end
    else Allowed(start, steps[0]) && Reaches(Take(start, steps[0]), steps[1..], end)
  }

  ghost predicate Sound(s: World)
  {
    Laid(s.dump, s.chunks) && Kept(s.dump, s.chunks, s.record)
  }

  /** Every step keeps chunks apart, aligned and within the file, and everything
      written readable. */
  lemma StepKeeps(s: World, step: Step)
    requires Sound(s) && Allowed(s, step)
    ensures Sound(Take(s, step))
  {
    match step
    case Allocation(c, grows) => AllocateKeeps(s.dump, s.chunks, s.record, c, grows);
    case CopyTo(chunk, part, data, wrote) =>
      if wrote == |data| {
        CopyKeeps(s.dump, s.chunks, s.record, (chunk, part), data);
      } else {
        CopyFails(s.dump, s.chunks, s.record, (chunk, part), data, wrote);
      }
  }

  /** So does every interleaving of them. */
  lemma {:induction false} RunsKeep(start: World, steps: seq<Step>, end: World)
    requires Sound(start) && Reaches(start, steps, end)
    ensures Sound(end)
    decreases |steps|
  {
    if steps != [] {
      StepKeeps(start, steps[0]);
      RunsKeep(Take(start, steps[0]), steps[1..], end);
    }
  }

  // ----- The classes

  /** `MinidumpFileWriter`. */
  class MinidumpFileWriter {
    const plain: bool
    const pageSize: nat
    var position: nat
    var size: nat
    var file: seq<Byte>

    ghost function Now(): Dump
      reads this
    {
      Dump(position, size, file, plain, pageSize)
    }

    constructor (plain: bool, pageSize: nat)
      ensures Now() == Dump(0, 0, [], plain, pageSize) && Sound(World(Now(), [], map[]))
    {
      this.plain, this.pageSize, position, size, file := plain, pageSize, 0, 0, [];
    }

    method Allocate(n: nat, grows: bool) returns (at: nat)
      requires 0 < n
      modifies this
      ensures (Now(), at) == old(Now()).Allocate(n, grows)
    {
      if plain {
        size := size + n;
        at := position;
        position := (position + n) % TWO_32;
        return;
      }
      var aligned := (n + 7) / 8 * 8;
      if position + aligned > size {
        var growth := aligned;
        if growth < pageSize {
          growth := pageSize;
        }
        if !grows {
          return INVALID;
        }
        file := Resized(file, size + growth);
        size := size + growth;
      }
      at := position;
      position := (position + aligned) % TWO_32;
    }

    method Copy(at: nat, data: seq<Byte>, wrote: int) returns (ok: bool)
      requires 0 < |data| && wrote <= |data|
      modifies this`file
      ensures (Now(), ok) == old(Now()).Copy(at, data, wrote)
    {
      if |data| + at > size || wrote < 0 {
        return false;
      }
      file := Written(file, at, data[..wrote]);
      ok := wrote == |data|;
    }
  }

  datatype AllocationState = Unallocated | SingleObject | Array | SingleObjectWithArray

  /** `TypedMDRVA` for a type of `item` bytes. */
  class TypedMDRVA {
    const writer: MinidumpFileWriter
    const item: nat
    var position: nat
    var size: nat
    var state: AllocationState
    /** The chunk that was asked for. */
    ghost var chunk: Chunk

    constructor (writer: MinidumpFileWriter, item: nat)
      requires 0 < item
      ensures this.writer == writer && this.item == item && size == 0 && state == Unallocated
    {
      this.writer, this.item := writer, item;
      position, size, state, chunk := writer.position, 0, Unallocated, Chunk(0, 0, 0, 0);
    }

    /** `UntypedMDRVA::Allocate`. */
    method AllocateBytes(n: nat, grows: bool) returns (ok: bool)
      requires size == 0 && 0 < n
      modifies this`size, this`position, writer
      ensures size == n && (writer.Now(), position) == old(writer.Now()).Allocate(n, grows) && ok == (position != INVALID)
    {
      size := n;
      position := writer.Allocate(n, grows);
      ok := position != INVALID;
    }

    method AllocateArray(count: nat, grows: bool) returns (ok: bool)
      requires size == 0 && 0 < count && 0 < item
      modifies this, writer
      ensures state == Array && chunk == Chunk(position, 0, item, count) && size == chunk.Size()
      ensures (writer.Now(), position) == old(writer.Now()).Allocate(size, grows) && ok == (position != INVALID)
    {
      state := Array;
      assert item * count >= item by {
        Monotone(item, 1, count);
      }
      ok := AllocateBytes(item * count, grows);
      chunk := Chunk(position, 0, item, count);
    }

    method AllocateObjectAndArray(count: nat, length: nat, grows: bool) returns (ok: bool)
      requires size == 0 && 0 < count && 0 < length && 0 < item
      modifies this, writer
      ensures state == SingleObjectWithArray && chunk == Chunk(position, item, length, count) && size == chunk.Size()
      ensures (writer.Now(), position) == old(writer.Now()).Allocate(size, grows) && ok == (position != INVALID)
    {
      state := SingleObjectWithArray;
      assert 0 <= length * count;
      ok := AllocateBytes(item + count * length, grows);
      chunk := Chunk(position, item, length, count);
    }

    /** At an index there is, this is the copy to that element. */
    method CopyIndex(index: nat, data: seq<Byte>, wrote: int) returns (ok: bool)
      requires state == Array && 0 < |data| == item && wrote <= |data|
      requires chunk == Chunk(position, 0, item, chunk.count)
      modifies writer`file
      ensures (writer.Now(), ok) == old(writer.Now()).Copy((position + index * item) % TWO_32, data, wrote)
      ensures index < chunk.count && position + chunk.Size() < TWO_32 ==>
                (writer.Now(), ok) == old(writer.Now()).Copy(chunk.At(index), data, wrote)
    {
      if index < chunk.count {
        PartInside(chunk, index);
      }
      ok := writer.Copy((position + index * item) % TWO_32, data, wrote);
    }

    /** Likewise, with the length the array was allocated for. */
    method CopyIndexAfterObject(index: nat, data: seq<Byte>, wrote: int) returns (ok: bool)
      requires state == SingleObjectWithArray && 0 < |data| && wrote <= |data|
      requires chunk == Chunk(position, item, chunk.each, chunk.count)
      modifies writer`file
      ensures (writer.Now(), ok) == old(writer.Now()).Copy((position + item + index * |data|) % TWO_32, data, wrote)
      ensures index < chunk.count && |data| == chunk.each && position + chunk.Size() < TWO_32 ==>
                (writer.Now(), ok) == old(writer.Now()).Copy(chunk.At(index), data, wrote)
    {
      if index < chunk.count {
        PartInside(chunk, index);
      }
      assert |data| == chunk.each ==> index * |data| == chunk.each * index;
      ok := writer.Copy((position + item + index * |data|) % TWO_32, data, wrote);
    }

    method Flush(data: seq<Byte>, wrote: int) returns (ok: bool)
      requires 0 < |data| == item && wrote <= |data|
      modifies writer`file
      ensures (writer.Now(), ok) == old(writer.Now()).Copy(position, data, wrote)
    {
      ok := writer.Copy(position, data, wrote);
    }
  }
}
