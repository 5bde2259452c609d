/** The allocator that takes pages from the kernel and never frees a block. */
module PageAllocators {
  import opened Machine

  /** A mapping of whole pages; it begins with its header. */
  datatype Mapping = Mapping(base: nat, pages: nat) {
    function End(pageSize: nat): nat
    {
      base + pageSize * pages
    }
  }

  datatype Block = Block(start: nat, size: nat) {
    predicate Apart(b: Block)
    {
      start + size <= b.start || b.start + b.size <= start
    }
  }

  /** The allocator's fields, with the size of a page and that of a page header;
      `mappings` is its list of headers, newest first. */
  datatype Arena = Arena(pageSize: nat, header: nat, mappings: seq<Mapping>, current: Option<nat>, offset: nat, pages: nat) {
    predicate HasRoom(bytes: nat)
    {
      current.Some? && pageSize - offset >= bytes
    }

    function PagesFor(bytes: nat): nat
      requires 0 < pageSize
    {
      (bytes + header + pageSize - 1) / pageSize
    }

    /** `OwnsPointer`. */
    ghost predicate Owns(p: int)
    {
      exists i :: 0 <= i < |mappings| && mappings[i].base <= p < mappings[i].End(pageSize)
    }

    /** The kernel gives memory that is not in use. */
    ghost predicate Free(base: nat, n: nat)
    {
      forall i :: 0 <= i < |mappings| ==>
        base + pageSize * n <= mappings[i].base || mappings[i].End(pageSize) <= base
    }

    /** `Alloc`; `answer` is what the kernel says if it is asked for pages. */
    function Alloc(bytes: nat, answer: Option<nat>): (Arena, Option<nat>)
      requires 0 < pageSize
    {
      if bytes == 0 then (this, None)
      else if HasRoom(bytes) then
        var next := offset + bytes;
        (if next == pageSize then this.(current := None, offset := 0) else this.(offset := next), Some(current.value + offset))
      else
        var n := PagesFor(bytes);
        match answer
        case None => (this, None)
        case Some(base) =>
          var next := (pageSize - (pageSize * n - (bytes + header))) % pageSize;
          (Arena(pageSize, header, [Mapping(base, n)] + mappings,
                 if next != 0 && n > 0 then Some(base + pageSize * (n - 1)) else None, next, pages + n),
           Some(base + header))
    }
  }

  function TotalPages(ms: seq<Mapping>): nat
  {
    if ms == [] then 0 else ms[0].pages + TotalPages(ms[1..])
  }

  // ----- What every allocation keeps

  /** A block lies inside a mapping, after its header. */
  predicate Inside(a: Arena, m: Mapping, b: Block)
  {
    m.base + a.header <= b.start && 0 < b.size && b.start + b.size <= m.End(a.pageSize)
  }

  ghost predicate Housed(a: Arena, b: Block)
  {
    exists i :: 0 <= i < |a.mappings| && Inside(a, a.mappings[i], b)
  }

  ghost predicate Disjoint(a: Arena)
  {
    forall i, j :: 0 <= i < j < |a.mappings| ==>
      a.mappings[i].End(a.pageSize) <= a.mappings[j].base || a.mappings[j].End(a.pageSize) <= a.mappings[i].base
  }

  /** The rest of the current page is at the end of the newest mapping, after its
      header, and no block reaches into it. */
  ghost predicate RoomIsFree(a: Arena, blocks: seq<Block>)
  {
    a.current.Some? ==>
      && a.mappings != [] && 0 < a.offset < a.pageSize
      && a.current.value + a.pageSize == a.mappings[0].End(a.pageSize)
      && a.mappings[0].base + a.header <= a.current.value + a.offset
      && forall k :: 0 <= k < |blocks| ==> blocks[k].Apart(Block(a.current.value + a.offset, a.pageSize - a.offset))
  }

  /** What holds of the allocator and the blocks it has returned so far. */
  ghost predicate Sound(a: Arena, blocks: seq<Block>)
  {
    && 0 < a.pageSize && a.pages == TotalPages(a.mappings) && Disjoint(a)
    && (forall i :: 0 <= i < |a.mappings| ==> 0 < a.mappings[i].pages)
    && (forall k :: 0 <= k < |blocks| ==> Housed(a, blocks[k]))
    && (forall j, k :: 0 <= j < k < |blocks| ==> blocks[j].Apart(blocks[k]))
    && RoomIsFree(a, blocks)
  }

  /** The blocks after a call. */
  function Given(blocks: seq<Block>, bytes: nat, r: Option<nat>): seq<Block>
  {
    if r.Some? then blocks + [Block(r.value, bytes)] else blocks
  }

  lemma AllocHere(a: Arena, blocks: seq<Block>, bytes: nat)
    requires Sound(a, blocks) && 0 < bytes && a.HasRoom(bytes)
    ensures var (b, r) := a.Alloc(bytes, None); Sound(b, Given(blocks, bytes, r)) && r.Some?
  {
    var (b, r) := a.Alloc(bytes, None);
    var new' := Block(r.value, bytes);
    assert Inside(b, b.mappings[0], new');
    assert Housed(b, new');
    StillHoused(a, b, blocks);
    RoomShrinks(a, b, blocks, new');
  }

  lemma StillHoused(a: Arena, b: Arena, blocks: seq<Block>)
    requires a.pageSize == b.pageSize && a.header == b.header && a.mappings == b.mappings
    requires forall k :: 0 <= k < |blocks| ==> Housed(a, blocks[k])
    ensures forall k :: 0 <= k < |blocks| ==> Housed(b, blocks[k])
  {
  }

  lemma RoomShrinks(a: Arena, b: Arena, blocks: seq<Block>, new': Block)
    requires RoomIsFree(a, blocks) && a.current.Some? && a.pageSize == b.pageSize && a.header == b.header && a.mappings == b.mappings
    requires new'.start == a.current.value + a.offset && a.offset + new'.size <= a.pageSize && 0 < new'.size
    requires if a.offset + new'.size == a.pageSize then b.current.None?
             else b.current == a.current && b.offset == a.offset + new'.size
    ensures RoomIsFree(b, blocks + [new']) && forall k :: 0 <= k < |blocks| ==> blocks[k].Apart(new')
  {
    var room := Block(a.current.value + a.offset, a.pageSize - a.offset);
    forall k | 0 <= k < |blocks|
      ensures blocks[k].Apart(new')
      ensures b.current.Some? ==> blocks[k].Apart(Block(b.current.value + b.offset, b.pageSize - b.offset))
    {
      assert blocks[k].Apart(room);
    }
  }

  /** How many pages are taken, and where the rest of the last one begins. */
  lemma PagesEnough(pageSize: nat, used: nat, n: nat, next: int)
    requires 0 < pageSize && 0 < used && n == (used + pageSize - 1) / pageSize
    requires next == (pageSize - (pageSize * n - used)) % pageSize
    ensures 0 < n && used <= pageSize * n < used + pageSize && pageSize * n == pageSize * (n - 1) + pageSize
    ensures 0 <= next < pageSize
    ensures if next == 0 then pageSize * n == used else pageSize * (n - 1) + next == used
  {
    var r := (used + pageSize - 1) % pageSize;
    assert used + pageSize - 1 == pageSize * n + r;
    assert n == 0 ==> pageSize * n == 0;
    assert pageSize * n == pageSize * (n - 1) + pageSize;
    var slack := pageSize * n - used;
    if slack == 0 {
      assert (pageSize * 1) % pageSize == 0;
    } else {
      assert next == pageSize - slack;
    }
  }

  lemma AllocPages(a: Arena, blocks: seq<Block>, bytes: nat, base: nat)
    requires Sound(a, blocks) && 0 < bytes && !a.HasRoom(bytes) && a.Free(base, a.PagesFor(bytes))
    ensures var (b, r) := a.Alloc(bytes, Some(base)); Sound(b, Given(blocks, bytes, r)) && r == Some(base + a.header)
  {
    var (b, r) := a.Alloc(bytes, Some(base));
    var n := a.PagesFor(bytes);
    PagesEnough(a.pageSize, bytes + a.header, n, b.offset);
    var new' := Block(base + a.header, bytes);
    assert Inside(b, b.mappings[0], new') && Housed(b, new');
    assert b.mappings[1..] == a.mappings;
    OldBlocks(a, blocks, b, base, n);
    BlocksMore(blocks, new', Block(base, a.pageSize * n));
    RoomAfterPages(a, blocks, b, new', base, n);
    DisjointMore(a, b, base, n);
  }

  lemma BlocksMore(blocks: seq<Block>, new': Block, all: Block)
    requires forall j, k :: 0 <= j < k < |blocks| ==> blocks[j].Apart(blocks[k])
    requires forall k :: 0 <= k < |blocks| ==> blocks[k].Apart(all)
    requires all.start <= new'.start && new'.start + new'.size <= all.start + all.size
    ensures var more := blocks + [new']; forall j, k :: 0 <= j < k < |more| ==> more[j].Apart(more[k])
  {
    forall k | 0 <= k < |blocks|
      ensures blocks[k].Apart(new')
    {
      assert blocks[k].Apart(all);
    }
  }

  lemma DisjointMore(a: Arena, b: Arena, base: nat, n: nat)
    requires Disjoint(a) && a.Free(base, n)
    requires b.pageSize == a.pageSize && b.header == a.header && b.mappings == [Mapping(base, n)] + a.mappings
    ensures Disjoint(b)
  {
    forall i, j | 0 <= i < j < |b.mappings|
      ensures b.mappings[i].End(b.pageSize) <= b.mappings[j].base || b.mappings[j].End(b.pageSize) <= b.mappings[i].base
    {
      assert b.mappings[j] == a.mappings[j - 1];
      if i > 0 {
        assert b.mappings[i] == a.mappings[i - 1];
      }
    }
  }

  /** Old blocks stay housed and have nothing in the new mapping. */
  lemma OldBlocks(a: Arena, blocks: seq<Block>, b: Arena, base: nat, n: nat)
    requires Sound(a, blocks) && a.Free(base, n)
    requires b.pageSize == a.pageSize && b.header == a.header && b.mappings == [Mapping(base, n)] + a.mappings
    ensures forall k :: 0 <= k < |blocks| ==> Housed(b, blocks[k]) && blocks[k].Apart(Block(base, a.pageSize * n))
  {
    forall k | 0 <= k < |blocks|
      ensures Housed(b, blocks[k]) && blocks[k].Apart(Block(base, a.pageSize * n))
    {
      assert Housed(a, blocks[k]);
      var i :| 0 <= i < |a.mappings| && Inside(a, a.mappings[i], blocks[k]);
      assert b.mappings[i + 1] == a.mappings[i];
      assert Inside(b, b.mappings[i + 1], blocks[k]);
    }
  }

  lemma RoomAfterPages(a: Arena, blocks: seq<Block>, b: Arena, new': Block, base: nat, n: nat)
    requires b.pageSize == a.pageSize && b.header == a.header && b.mappings == [Mapping(base, n)] + a.mappings && 0 < n
    requires forall k :: 0 <= k < |blocks| ==> blocks[k].Apart(Block(base, a.pageSize * n))
    requires new'.start == base + a.header && a.pageSize * n == a.pageSize * (n - 1) + a.pageSize
    requires b.current.Some? ==>
               && b.current.value == base + a.pageSize * (n - 1) && 0 < b.offset < b.pageSize
               && b.current.value + b.offset == new'.start + new'.size
    ensures RoomIsFree(b, blocks + [new'])
  {
    if b.current.Some? {
      var left := Block(b.current.value + b.offset, b.pageSize - b.offset);
      assert left.start + left.size == base + a.pageSize * n;
      assert new'.Apart(left);
      assert base <= left.start;
      forall k | 0 <= k < |blocks|
        ensures blocks[k].Apart(left)
      {
        assert blocks[k].Apart(Block(base, a.pageSize * n));
      }
    }
  }

  /** Every call, whatever the kernel answers, keeps the allocator sound: the block
      returned is in its mappings, off their headers, and apart from all others. */
  lemma AllocKeeps(a: Arena, blocks: seq<Block>, bytes: nat, answer: Option<nat>)
    requires Sound(a, blocks) && (answer.Some? ==> a.Free(answer.value, a.PagesFor(bytes)))
    ensures var (b, r) := a.Alloc(bytes, answer);
            Sound(b, Given(blocks, bytes, r)) && (r.None? ==> b == a) && (r.None? <==> bytes == 0 || (!a.HasRoom(bytes) && answer.None?))
  {
    if 0 < bytes {
      if a.HasRoom(bytes) {
        AllocHere(a, blocks, bytes);
        assert a.Alloc(bytes, None) == a.Alloc(bytes, answer);
      } else if answer.Some? {
        AllocPages(a, blocks, bytes, answer.value);
      }
    }
  }

  /** All of a block is owned, and no byte of it is in a header. */
  lemma BlocksOwned(a: Arena, blocks: seq<Block>, k: nat, p: int)
    requires Sound(a, blocks) && k < |blocks| && blocks[k].start <= p < blocks[k].start + blocks[k].size
    ensures a.Owns(p)
    ensures forall i :: 0 <= i < |a.mappings| ==> !(a.mappings[i].base <= p < a.mappings[i].base + a.header)
  {
    assert Housed(a, blocks[k]);
    var h :| 0 <= h < |a.mappings| && Inside(a, a.mappings[h], blocks[k]);
    forall i | 0 <= i < |a.mappings|
      ensures !(a.mappings[i].base <= p < a.mappings[i].base + a.header)
    {
      assert a.mappings[i].base <= a.mappings[i].End(a.pageSize);
    }
  }

  // ----- Nothing is wasted

  /** Where the last block ends. */
  function EndOf(blocks: seq<Block>): nat
    requires blocks != []
  {
    blocks[|blocks| - 1].start + blocks[|blocks| - 1].size
  }

  /** The newest mapping is filled up to the end of the last block, which lies in its last
      page; the rest of that page is what is left. */
  ghost predicate Packed(a: Arena, blocks: seq<Block>)
  {
    && 0 < a.pageSize
    && if blocks == [] then a.current.None? && a.mappings == []
       else
         && a.mappings != []
         && var e, top := EndOf(blocks), a.mappings[0].End(a.pageSize);
            && e <= top < e + a.pageSize
            && (e == top <==> a.current.None?)
            && (e < top ==> a.current.value + a.pageSize == top && a.current.value + a.offset == e)
  }

  ghost function Left(a: Arena, blocks: seq<Block>): nat
    requires Packed(a, blocks)
  {
    if blocks == [] then 0 else a.mappings[0].End(a.pageSize) - EndOf(blocks)
  }

  /** One call: what is left is used, right after the last block, if it is enough; else
      the fewest pages that take the header and the block are asked for. */
  lemma AllocExact(a: Arena, blocks: seq<Block>, bytes: nat, answer: Option<nat>)
    requires Packed(a, blocks)
    ensures var (b, r) := a.Alloc(bytes, answer);
            && Packed(b, Given(blocks, bytes, r))
            && if bytes == 0 then b == a && r.None?
               else if bytes <= Left(a, blocks) then r == Some(EndOf(blocks)) && b.mappings == a.mappings && b.pages == a.pages
               else if answer.None? then b == a && r.None?
               else
                 && r == Some(answer.value + a.header) && b.mappings != [] && b.mappings[0].base == answer.value
                 && b.mappings[1..] == a.mappings && b.pages == a.pages + b.mappings[0].pages
                 && a.pageSize * (b.mappings[0].pages - 1) < bytes + a.header <= a.pageSize * b.mappings[0].pages
  {
    var (b, r) := a.Alloc(bytes, answer);
    if bytes > 0 {
      assert a.HasRoom(bytes) <==> bytes <= Left(a, blocks);
      if !a.HasRoom(bytes) && answer.Some? {
        var n := a.PagesFor(bytes);
        PagesEnough(a.pageSize, bytes + a.header, n, b.offset);
        assert b.mappings[1..] == a.mappings;
      }
    }
  }

  // ----- Whole runs

  /** A call, with what the kernel answers if it is asked. */
  datatype Request = Request(bytes: nat, answer: Option<nat>)

  /** An allocator that has no pages yet. */
  function Empty(pageSize: nat, header: nat): Arena
  {
    Arena(pageSize, header, [], None, 0, 0)
  }

  /** The allocator and its blocks after a run of calls. */
  ghost function Run(pageSize: nat, header: nat, qs: seq<Request>): (Arena, seq<Block>)
    requires 0 < pageSize
    ensures Run(pageSize, header, qs).0.pageSize == pageSize && Run(pageSize, header, qs).0.header == header
  {
    if qs == [] then (Empty(pageSize, header), [])
    else
      var (a, blocks) := Run(pageSize, header, qs[..|qs| - 1]);
      var q := qs[|qs| - 1];
      var (b, r) := a.Alloc(q.bytes, q.answer);
      (b, Given(blocks, q.bytes, r))
  }

  /** The kernel never gives what it has already given. */
  ghost predicate FreshAnswers(pageSize: nat, header: nat, qs: seq<Request>)
    requires 0 < pageSize
  {
    qs == [] ||
    var n := |qs| - 1;
    && FreshAnswers(pageSize, header, qs[..n])
    && (qs[n].answer.Some? ==>
          var a := Run(pageSize, header, qs[..n]).0; a.Free(qs[n].answer.value, a.PagesFor(qs[n].bytes)))
  }

  /** So it stays over every run, whatever the kernel answers. */
  lemma {:induction false} RunPacked(pageSize: nat, header: nat, qs: seq<Request>)
    requires 0 < pageSize
    ensures Packed(Run(pageSize, header, qs).0, Run(pageSize, header, qs).1)
    decreases |qs|
  {
    if qs != [] {
      var n := |qs| - 1;
      RunPacked(pageSize, header, qs[..n]);
      AllocExact(Run(pageSize, header, qs[..n]).0, Run(pageSize, header, qs[..n]).1, qs[n].bytes, qs[n].answer);
    }
  }

  lemma {:induction false} RunSound(pageSize: nat, header: nat, qs: seq<Request>)
    requires 0 < pageSize && FreshAnswers(pageSize, header, qs)
    ensures Sound(Run(pageSize, header, qs).0, Run(pageSize, header, qs).1)
    decreases |qs|
  {
    if qs != [] {
      var n := |qs| - 1;
      RunSound(pageSize, header, qs[..n]);
      AllocKeeps(Run(pageSize, header, qs[..n]).0, Run(pageSize, header, qs[..n]).1, qs[n].bytes, qs[n].answer);
    }
  }

  /** The mappings obtained from the kernel, newest first: one for each call that asked
      for a block, found no room in the current page, and was given pages. */
  ghost function Obtained(pageSize: nat, header: nat, qs: seq<Request>): seq<Mapping>
    requires 0 < pageSize
  {
    if qs == [] then []
    else
      var n := |qs| - 1;
      var a, q := Run(pageSize, header, qs[..n]).0, qs[n];
      (if 0 < q.bytes && !a.HasRoom(q.bytes) && q.answer.Some? then [Mapping(q.answer.value, a.PagesFor(q.bytes))] else [])
      + Obtained(pageSize, header, qs[..n])
  }

  /** Every mapping obtained is in the list, once, and no other. */
  lemma {:induction false} ListIsObtained(pageSize: nat, header: nat, qs: seq<Request>)
    requires 0 < pageSize && FreshAnswers(pageSize, header, qs)
    ensures Run(pageSize, header, qs).0.mappings == Obtained(pageSize, header, qs)
    ensures forall i, j :: 0 <= i < j < |Obtained(pageSize, header, qs)| ==>
              Obtained(pageSize, header, qs)[i].base != Obtained(pageSize, header, qs)[j].base
    decreases |qs|
  {
    if qs != [] {
      ListIsObtained(pageSize, header, qs[..|qs| - 1]);
    }
    RunSound(pageSize, header, qs);
    var (a, blocks) := Run(pageSize, header, qs);
    forall i, j | 0 <= i < j < |a.mappings|
      ensures a.mappings[i].base != a.mappings[j].base
    {
      MappingsDistinct(a, blocks, i, j);
    }
  }

  lemma MappingsDistinct(a: Arena, blocks: seq<Block>, i: nat, j: nat)
    requires Sound(a, blocks) && i < j < |a.mappings|
    ensures a.mappings[i].base != a.mappings[j].base
  {
    NotEmpty(a.pageSize, a.mappings[i]);
    NotEmpty(a.pageSize, a.mappings[j]);
  }

  lemma NotEmpty(pageSize: nat, m: Mapping)
    requires 0 < pageSize && 0 < m.pages
    ensures m.base < m.End(pageSize)
  {
    assert pageSize * m.pages == pageSize * (m.pages - 1) + pageSize;
    assert 0 <= pageSize * (m.pages - 1);
  }

  // ----- The list in the pages

  /** A page header, as it stands at the beginning of a mapping. */
  datatype Cell = Cell(next: Option<nat>, pages: nat)

  type Memory = map<nat, Cell>

  /** Following the headers from `last` visits the mappings in order. */
  ghost predicate Linked(memory: Memory, last: Option<nat>, ms: seq<Mapping>)
    decreases |ms|
  {
    if ms == [] then last == None
    else
      && last == Some(ms[0].base) && ms[0].base in memory && memory[ms[0].base].pages == ms[0].pages
      && Linked(memory, memory[ms[0].base].next, ms[1..])
  }

  ghost predicate DistinctBases(ms: seq<Mapping>)
  {
    forall i, j :: 0 <= i < j < |ms| ==> ms[i].base != ms[j].base
  }

  /** Headers elsewhere may come and go. */
  lemma {:induction false} LinkedApart(memory: Memory, memory': Memory, last: Option<nat>, ms: seq<Mapping>)
    requires Linked(memory, last, ms)
    requires forall i :: 0 <= i < |ms| && ms[i].base in memory ==> ms[i].base in memory' && memory'[ms[i].base] == memory[ms[i].base]
    ensures Linked(memory', last, ms)
    decreases |ms|
  {
    if ms != [] {
      LinkedApart(memory, memory', memory[ms[0].base].next, ms[1..]);
    }
  }

  /** `PageAllocator`. */
  class PageAllocator {
    const pageSize: nat
    const header: nat
    var last: Option<nat>
    /** The headers in the mapped pages. */
    var memory: Memory
    var current: Option<nat>
    var offset: nat
    var pages: nat
    ghost var mappings: seq<Mapping>

    ghost predicate Valid()
      reads this
    {
      && 0 < pageSize && Linked(memory, last, mappings) && DistinctBases(mappings)
      && forall i :: 0 <= i < |mappings| ==> 0 < mappings[i].pages
    }

    ghost function Now(): Arena
      reads this
    {
      Arena(pageSize, header, mappings, current, offset, pages)
    }

    constructor (pageSize: nat, header: nat)
      requires 0 < pageSize
      ensures Now() == Empty(pageSize, header) && Valid() && Sound(Now(), [])
    {
      this.pageSize, this.header := pageSize, header;
      last, memory, current, offset, pages := None, map[], None, 0, 0;
      mappings := [];
    }

    /** `GetNPages`, where the kernel gives the pages at `answer`. */
    method GetNPages(n: nat, answer: Option<nat>) returns (r: Option<nat>)
      requires Valid() && 0 < n && (answer.Some? ==> forall i :: 0 <= i < |mappings| ==> mappings[i].base != answer.value)
      modifies this`mappings, this`pages, this`last, this`memory
      ensures Valid() && r == answer
      ensures mappings == (if r.Some? then [Mapping(r.value, n)] + old(mappings) else old(mappings))
      ensures pages == (if r.Some? then old(pages) + n else old(pages))
    {
      if answer.None? {
        return None;
      }
      var a := answer.value;
      ghost var before := memory;
      memory := memory[a := Cell(last, n)];
      LinkedApart(before, memory, last, mappings);
      last := Some(a);
      mappings := [Mapping(a, n)] + mappings;
      assert mappings[1..] == old(mappings);
      pages := pages + n;
      r := answer;
    }

    method Alloc(bytes: nat, answer: Option<nat>) returns (r: Option<nat>)
      requires Valid() && (answer.Some? ==> Now().Free(answer.value, Now().PagesFor(bytes)))
      modifies this
      ensures Valid() && (Now(), r) == old(Now()).Alloc(bytes, answer)
    {
      if bytes == 0 {
        return None;
      }
      if current.Some? && pageSize - offset >= bytes {
        r := Some(current.value + offset);
        offset := offset + bytes;
        if offset == pageSize {
          offset, current := 0, None;
        }
        return;
      }
      r := AllocPages(bytes, answer);
    }

    /** The rest of `Alloc`, for a block that needs pages of its own. */
    method AllocPages(bytes: nat, answer: Option<nat>) returns (r: Option<nat>)
      requires Valid() && 0 < bytes && !Now().HasRoom(bytes)
      requires answer.Some? ==> Now().Free(answer.value, Now().PagesFor(bytes))
      modifies this
      ensures Valid() && (Now(), r) == old(Now()).Alloc(bytes, answer)
    {
      var n := (bytes + header + pageSize - 1) / pageSize;
      assert n == Now().PagesFor(bytes);
      var next := (pageSize - (pageSize * n - (bytes + header))) % pageSize;
      PagesEnough(pageSize, bytes + header, n, next);
      if answer.Some? {
        FreeIsNew(Now(), answer.value, n);
      }
      var base := GetNPages(n, answer);
      if base.None? {
        return None;
      }
      offset := next;
      current := if next != 0 then Some(base.value + pageSize * (n - 1)) else None;
      r := Some(base.value + header);
    }

    method OwnsPointer(p: int) returns (r: bool)
      requires Valid()
      ensures r <==> Now().Owns(p)
    {
      var cur: Option<nat> := last;
      ghost var i := 0;
      while cur.Some?
        invariant 0 <= i <= |mappings| && Linked(memory, cur, mappings[i..])
        invariant forall k :: 0 <= k < i ==> !(mappings[k].base <= p < mappings[k].End(pageSize))
        decreases |mappings| - i
      {
        var c := memory[cur.value];
        assert mappings[i..][0] == mappings[i] && mappings[i..][1..] == mappings[i + 1..];
        if cur.value <= p < cur.value + c.pages * pageSize {
          return true;
        }
        cur, i := c.next, i + 1;
      }
      r := false;
    }

    /** `FreeAll`: what it unmaps, in order. A header is read before its pages go, and
        never after. */
    method FreeAll() returns (unmapped: seq<Mapping>)
      requires Valid()
      modifies this`memory
      ensures unmapped == mappings && forall i :: 0 <= i < |mappings| ==> mappings[i].base !in memory
    {
      unmapped := [];
      var cur: Option<nat> := last;
      ghost var i := 0;
      while cur.Some?
        invariant 0 <= i <= |mappings| && Linked(memory, cur, mappings[i..]) && unmapped == mappings[..i]
        invariant forall k :: 0 <= k < i ==> mappings[k].base !in memory
        decreases |mappings| - i
      {
        ghost var rest, before := mappings[i + 1..], memory;
        assert mappings[i..][0] == mappings[i] && mappings[i..][1..] == rest;
        var c := memory[cur.value];
        unmapped := unmapped + [Mapping(cur.value, c.pages)];
        memory := memory - {cur.value};
        assert forall k :: 0 <= k < |rest| ==> rest[k] == mappings[i + 1 + k];
        LinkedApart(before, memory, c.next, rest);
        cur, i := c.next, i + 1;
      }
    }
  }

  /** Pages that are free are at no base in use. */
  lemma FreeIsNew(a: Arena, base: nat, n: nat)
    requires 0 < a.pageSize && 0 < n && a.Free(base, n) && forall i :: 0 <= i < |a.mappings| ==> 0 < a.mappings[i].pages
    ensures forall i :: 0 <= i < |a.mappings| ==> a.mappings[i].base != base
  {
    NotEmpty(a.pageSize, Mapping(base, n));
    forall i | 0 <= i < |a.mappings|
      ensures a.mappings[i].base != base
    {
      NotEmpty(a.pageSize, a.mappings[i]);
    }
  }
}
