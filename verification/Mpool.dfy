/** The memory pool: chunks cut from page-sized areas, kept in a free list that runs through
    the chunks themselves. */
module Mpool {

  /** A chunk, named by its area and its place in it; `next` is the link stored in it. */
  class Chunk {
    const area: nat
    const place: nat
    var next: Chunk?

    constructor (area: nat, place: nat)
      ensures this.area == area && this.place == place
    {
      this.area, this.place, this.next := area, place, null;
    }
  }

  const HEADER: nat := 8
  const SIZE_MAX: nat := 0xffff_ffff_ffff_ffff

  // ------------------------------------------------ sizes

  /** The size asked for, enlarged when it cannot hold a chunk and its link; `size_t` wraps. */
  function Enlarged(poolSize: nat, chunkSize: nat): nat {
    if poolSize < chunkSize + HEADER then (poolSize + HEADER) % (SIZE_MAX + 1) else poolSize
  }

  function Pages(size: nat, page: nat): nat
    requires page > 0
  {
    (size + page - 1) / page
  }

  function PageBytes(pages: nat, page: nat): nat { pages * page }

  /** How many chunks of `unit` bytes an area has room for. */
  function ChunksIn(bytes: nat, unit: nat): nat
    requires unit > 0
  {
    bytes / unit
  }

  lemma MulMono(a: nat, b: nat, u: nat)
    requires a <= b
    ensures a * u <= b * u
  {}

  lemma DivBounds(m: nat, d: nat)
    requires d > 0
    ensures m / d * d <= m < (m / d + 1) * d
  {}

  lemma DivMono(a: nat, b: nat, d: nat)
    requires d > 0 && a <= b
    ensures a / d <= b / d
  {
    DivBounds(a, d);
    DivBounds(b, d);
    if b / d + 1 <= a / d { MulMono(b / d + 1, a / d, d); }
  }

  /** A pool that is to hold a chunk, and whose size does not wrap when it is enlarged. */
  predicate Holdable(poolSize: nat, chunkSize: nat) {
    chunkSize + HEADER <= poolSize || chunkSize <= poolSize <= SIZE_MAX - HEADER
  }

  /** Exactly such a pool has a chunk, and it has no more than fit its pages. */
  lemma PoolHolds(poolSize: nat, chunkSize: nat, page: nat)
    requires page > 0 && poolSize <= SIZE_MAX && chunkSize <= SIZE_MAX - HEADER
    ensures var unit, size := HEADER + chunkSize, Enlarged(poolSize, chunkSize);
            && (ChunksIn(size, unit) >= 1 <==> Holdable(poolSize, chunkSize))
            && size <= PageBytes(Pages(size, page), page)
            && ChunksIn(size, unit) <= ChunksIn(PageBytes(Pages(size, page), page), unit)
  {
    hide ChunksIn, PageBytes, Pages;
    var unit, size := HEADER + chunkSize, Enlarged(poolSize, chunkSize);
    OneFits(size, unit);
    PagesCover(size, page);
    ChunksMono(size, PageBytes(Pages(size, page), page), unit);
  }

  lemma OneFits(size: nat, unit: nat)
    requires unit > 0
    ensures ChunksIn(size, unit) >= 1 <==> size >= unit
  {
    DivBounds(size, unit);
    if size >= unit { DivMono(unit, size, unit); }
  }

  lemma PagesCover(size: nat, page: nat)
    requires page > 0
    ensures size <= PageBytes(Pages(size, page), page)
  {
    DivBounds(size + page - 1, page);
  }

  lemma ChunksMono(a: nat, b: nat, unit: nat)
    requires unit > 0 && a <= b
    ensures ChunksIn(a, unit) <= ChunksIn(b, unit)
  {
    DivMono(a, b, unit);
  }

  /** An area has as many chunks as fit: one more would leave it. */
  lemma AsManyAsFit(bytes: nat, unit: nat)
    requires unit > 0
    ensures ChunksIn(bytes, unit) * unit <= bytes < (ChunksIn(bytes, unit) + 1) * unit
  {
    DivBounds(bytes, unit);
  }

  /** Places of an area lie inside it and do not overlap. */
  lemma ChunksFit(i: nat, j: nat, unit: nat, bytes: nat)
    requires unit > 0 && i < j < ChunksIn(bytes, unit)
    ensures (i + 1) * unit <= j * unit && (j + 1) * unit <= bytes
  {
    DivBounds(bytes, unit);
    MulMono(i + 1, j, unit);
    MulMono(j + 1, bytes / unit, unit);
  }

  // ------------------------------------------------ lists of chunks

  ghost predicate NoDup(s: seq<Chunk>) {
    forall a, b :: 0 <= a < b < |s| ==> s[a] != s[b]
  }

  /** Each chunk is linked to the following one; nothing is said about the last link. */
  ghost predicate Linked(s: seq<Chunk>)
    reads s
  {
    forall a, b :: 0 <= a && b == a + 1 && b < |s| ==> s[a].next == s[b]
  }

  ghost function Flat(areas: seq<seq<Chunk>>): seq<Chunk> {
    if areas == [] then [] else Flat(areas[..|areas| - 1]) + areas[|areas| - 1]
  }

  /** The linking loop: chunk after chunk within one area. */
  method LinkArea(chunks: seq<Chunk>, n: nat)
    requires 1 <= n <= |chunks| && NoDup(chunks)
    modifies chunks
    ensures Linked(chunks[..n])
    ensures forall c :: c in chunks[n - 1..] ==> c.next == old(c.next)
  {
    for i := 0 to n - 1
      invariant Linked(chunks[..i + 1])
      invariant forall c :: c in chunks[i..] ==> c.next == old(c.next)
    {
      chunks[i].next := chunks[i + 1];
    }
  }

  /** The chunks of one area, linked behind those already done and to what follows. */
  method LinkAfter(chunks: seq<Chunk>, target: Chunk?, ghost done: seq<Chunk>)
    requires chunks != [] && NoDup(chunks) && Linked(done) && forall c :: c in done ==> c !in chunks
    requires done != [] ==> done[|done| - 1].next == chunks[0]
    modifies chunks
    ensures Linked(done + chunks) && chunks[|chunks| - 1].next == target
  {
    LinkArea(chunks, |chunks|);
    assert chunks[..|chunks|] == chunks;
    assert forall c :: c in done ==> c.next == old(c.next);
    assert chunks[|chunks| - 1] in chunks;
    chunks[|chunks| - 1].next := target;
    assert forall c :: c in done ==> c.next == old(c.next);
    assert forall a :: 0 <= a < |done| ==> done[a] in done;
    LinkedJoin(done, chunks);
  }

  /** Where the bytes of a chunk begin in its area; its link comes first. */
  function Begins(c: Chunk, unit: nat): nat { c.place * unit }

  predicate Inside(c: Chunk, bytes: nat, unit: nat) { Begins(c, unit) + unit <= bytes }

  predicate Disjoint(c: Chunk, d: Chunk, unit: nat) {
    || c.area != d.area
    || Begins(c, unit) + unit <= Begins(d, unit)
    || Begins(d, unit) + unit <= Begins(c, unit)
  }

  lemma InsideArea(i: nat, unit: nat, bytes: nat)
    requires unit > 0 && i < ChunksIn(bytes, unit)
    ensures i * unit + unit <= bytes
  {
    DivBounds(bytes, unit);
    MulMono(i + 1, ChunksIn(bytes, unit), unit);
  }

  lemma NoDupPrefix(s: seq<Chunk>, n: nat)
    requires NoDup(s) && n <= |s|
    ensures NoDup(s[..n])
  {}

  lemma FlatOne(chunks: seq<Chunk>)
    ensures Flat([chunks]) == chunks
  {
    assert [chunks][..0] == [];
  }

  lemma {:induction false} FlatFrom(areas: seq<seq<Chunk>>, c: Chunk)
    requires c in Flat(areas)
    ensures exists k :: 0 <= k < |areas| && c in areas[k]
  {
    var n := |areas| - 1;
    if c !in areas[n] {
      FlatFrom(areas[..n], c);
      var k :| 0 <= k < n && c in areas[..n][k];
      assert c in areas[k];
    }
  }

  class Pool {
    const bytes: nat
    const unit: nat
    var areas: seq<seq<Chunk>>
    var head: Chunk?
    var count: nat
    ghost var free: seq<Chunk>
    ghost var live: set<Chunk>
    ghost var Repr: set<Chunk>

    /** The areas hold distinct chunks, as many as fit. */
    ghost predicate Mapped()
      reads this
    {
      && unit > 0 && ChunksIn(bytes, unit) >= 1 && areas != [] && NoDup(Flat(areas))
      && (forall k :: 0 <= k < |areas| ==> |areas[k]| == ChunksIn(bytes, unit))
      && Repr == (set c | c in Flat(areas))
      && (forall k, i :: 0 <= k < |areas| && 0 <= i < |areas[k]| ==> areas[k][i].area == k && areas[k][i].place == i)
    }

    /** The first `count` nodes of the list are distinct free chunks of the areas, and no
        live chunk is among them. */
    ghost predicate Valid()
      reads this, Repr
    {
      && Mapped() && count == |free| && NoDup(free) && live <= Repr
      && (forall c :: c in free ==> c in Repr && c !in live)
      && Linked(free) && (free != [] ==> head == free[0])
    }

    /** The first area, with the first `first` of its chunks on the list. */
    constructor (bytes: nat, unit: nat, first: nat)
      requires unit > 0 && 1 <= first <= ChunksIn(bytes, unit)
      ensures Valid() && this.bytes == bytes && this.unit == unit && |areas| == 1
      ensures free <= areas[0] && |free| == first && live == {} && fresh(Repr)
    {
      this.bytes, this.unit := bytes, unit;
      areas, head, count, free, live, Repr := [], null, 0, [], {}, {};
      new;
      hide ChunksIn, Flat, NoDup, Linked;
      var chunks, all := MapArea(0);
      NoDupPrefix(chunks, first);
      LinkArea(chunks, first);
      areas, head, count, free, Repr := [chunks], chunks[0], first, chunks[..first], all;
      FlatOne(chunks);
    }

    /** mpool_alloc from a list that is not empty. */
    method Take() returns (c: Chunk)
      requires Valid() && count > 0
      modifies this`head, this`count, this`free, this`live
      ensures Valid() && [c] + free == old(free) && live == old(live) + {c} && c !in old(live)
    {
      c := head;
      assert |free| > 1 ==> free[0].next == free[1];
      head := head.next;
      count := count - 1;
      live := live + {free[0]};
      free := free[1..];
    }

    /** mpool_free of a chunk that is live. */
    method Free(c: Chunk)
      requires Valid() && c in live
      modifies this`head, this`count, this`free, this`live, c
      ensures Valid() && free == [c] + old(free) && live == old(live) - {c} && areas == old(areas)
    {
      c.next := head;
      head := c;
      count := count + 1;
      free := [c] + free;
      live := live - {c};
    }

    /** A new area, mapped into as many chunks as fit. */
    method MapArea(k: nat) returns (chunks: seq<Chunk>, ghost all: set<Chunk>)
      requires unit > 0
      ensures |chunks| == ChunksIn(bytes, unit) && NoDup(chunks) && fresh(chunks)
      ensures all == (set c | c in chunks) && fresh(all)
      ensures forall i :: 0 <= i < |chunks| ==> chunks[i].area == k && chunks[i].place == i
    {
      chunks, all := [], {};
      while |chunks| < ChunksIn(bytes, unit)
        invariant |chunks| <= ChunksIn(bytes, unit) && NoDup(chunks) && fresh(chunks)
        invariant all == (set c | c in chunks) && fresh(all)
        invariant forall i :: 0 <= i < |chunks| ==> chunks[i].area == k && chunks[i].place == i
      {
        var c := new Chunk(k, |chunks|);
        chunks, all := chunks + [c], all + {c};
      }
    }

    /** mpool_extend: only called when nothing is free. */
    method Extend(memory: bool) returns (ok: bool)
      requires Valid() && count == 0
      modifies this`areas, this`head, this`count, this`free, this`Repr
      ensures Valid() && ok == memory && live == old(live)
      ensures if ok then
                && count == ChunksIn(bytes, unit) && |areas| == |old(areas)| + 1 && free == areas[|areas| - 1]
                && fresh(Repr - old(Repr))
              else free == [] && areas == old(areas)
    {
      hide ChunksIn, Flat;
      if !memory { return false; }
      var chunks, all := MapArea(|areas|);
      LinkArea(chunks, |chunks|);
      assert chunks[..|chunks|] == chunks;
      head := chunks[0];
      count := count + |chunks|;
      free := chunks;
      Attach(chunks, all);
      return true;
    }

    method Attach(chunks: seq<Chunk>, ghost all: set<Chunk>)
      requires Mapped() && |chunks| == ChunksIn(bytes, unit) && NoDup(chunks) && all !! Repr
      requires all == set c | c in chunks
      requires forall i :: 0 <= i < |chunks| ==> chunks[i].area == |areas| && chunks[i].place == i
      modifies this`areas, this`Repr
      ensures Mapped() && areas == old(areas) + [chunks] && Repr == old(Repr) + all
    {
      ghost var was := Flat(areas);
      areas := areas + [chunks];
      assert areas[..|areas| - 1] == old(areas);
      assert Flat(areas) == was + chunks;
      assert forall a :: 0 <= a < |was| ==> was[a] in was && was[a] in Repr;
      assert forall b :: 0 <= b < |chunks| ==> chunks[b] in all && chunks[b] !in Repr;
      Repr := Repr + all;
    }

    /** mpool_alloc: a chunk that is not live, from a new area if need be. */
    method Alloc(memory: bool) returns (c: Chunk?)
      requires Valid()
      modifies this
      ensures Valid() && fresh(Repr - old(Repr))
      ensures c == null <==> old(free) == [] && !memory
      ensures c == null ==> free == [] && live == old(live) && areas == old(areas)
      ensures c != null ==> c !in old(live) && live == old(live) + {c}
      ensures c != null && old(free) != [] ==> [c] + free == old(free) && areas == old(areas)
      ensures c != null && old(free) == [] ==> |areas| == |old(areas)| + 1 && [c] + free == areas[|areas| - 1]
    {
      if count == 0 {
        var ok := Extend(memory);
        if !ok { return null; }
      }
      c := Take();
    }

    /** One area of mpool_refresh_all: linked inside, and its last chunk to the next area. */
    method RefreshArea(k: nat)
      requires Mapped() && k < |areas| && Linked(Flat(areas[..k]))
      requires 0 < k ==> areas[k - 1][|areas[k - 1]| - 1].next == areas[k][0]
      modifies areas[k]
      ensures Linked(Flat(areas[..k + 1]))
      ensures areas[k][|areas[k]| - 1].next == if k + 1 < |areas| then areas[k + 1][0] else null
    {
      hide Linked, Flat;
      NoAreas();
      FlatStep(areas, k);
      LinkAfter(areas[k], if k + 1 < |areas| then areas[k + 1][0] else null, Flat(areas[..k]));
    }

    /** mpool_refresh_all: the list holds every chunk of every area, once, and none is live. */
    method RefreshAll()
      requires Valid()
      modifies this`head, this`count, this`free, this`live, Repr
      ensures Valid() && free == Flat(areas) && live == {} && areas == old(areas)
    {
      hide Flat, Linked, ChunksIn;
      head := areas[0][0];
      count := 0;
      NoAreas();
      for k := 0 to |areas|
        modifies `count, Repr
        invariant count == |Flat(areas[..k])| && Linked(Flat(areas[..k]))
        invariant 0 < k < |areas| ==> areas[k - 1][|areas[k - 1]| - 1].next == areas[k][0]
      {
        FlatStep(areas, k);
        assert forall c :: c in areas[k] ==> c in Repr;
        RefreshArea(k);
        count := count + ChunksIn(bytes, unit);
      }
      assert areas[..|areas|] == areas;
      FlatHead(areas);
      live, free := {}, Flat(areas);
    }

    /** A chunk is where its name says it is. */
    lemma InItsArea(c: Chunk)
      requires Mapped() && c in Repr
      ensures c.area < |areas| && c.place < ChunksIn(bytes, unit) && areas[c.area][c.place] == c
    {
      hide ChunksIn;
      FlatFrom(areas, c);
      var k :| 0 <= k < |areas| && c in areas[k];
      var i :| 0 <= i < |areas[k]| && areas[k][i] == c;
    }

    /** The bytes of a chunk lie inside its area. */
    lemma ChunkInside(c: Chunk)
      requires Mapped() && c in Repr
      ensures Inside(c, bytes, unit)
    {
      InItsArea(c);
      InsideArea(c.place, unit, bytes);
    }

    /** The bytes of two chunks do not overlap. */
    lemma ChunksApart(c: Chunk, d: Chunk)
      requires Mapped() && c in Repr && d in Repr && c != d
      ensures Disjoint(c, d, unit)
    {
      hide Flat;
      InItsArea(c);
      InItsArea(d);
      if c.area == d.area {
        if c.place < d.place { ChunksFit(c.place, d.place, unit, bytes); }
        if d.place < c.place { ChunksFit(d.place, c.place, unit, bytes); }
      }
    }

    lemma NoAreas()
      ensures Flat(areas[..0]) == [] && Linked(Flat(areas[..0]))
    {}
  }

  lemma {:induction false} FlatHead(areas: seq<seq<Chunk>>)
    requires areas != [] && areas[0] != []
    ensures Flat(areas) != [] && Flat(areas)[0] == areas[0][0]
  {
    if |areas| > 1 {
      FlatHead(areas[..|areas| - 1]);
    } else {
      assert Flat(areas[..0]) == [];
    }
  }

  /** The chunks of the first areas, then those of the next one. */
  lemma {:induction false} FlatStep(areas: seq<seq<Chunk>>, k: nat)
    requires NoDup(Flat(areas)) && k < |areas|
    ensures Flat(areas[..k + 1]) == Flat(areas[..k]) + areas[k] && NoDup(Flat(areas[..k + 1])) && NoDup(areas[k])
    ensures forall c :: c in Flat(areas[..k]) ==> c !in areas[k]
    ensures forall c :: c in areas[k] ==> c in Flat(areas)
    ensures k > 0 && areas[k - 1] != [] ==>
              var done := Flat(areas[..k]);
              done != [] && done[|done| - 1] == areas[k - 1][|areas[k - 1]| - 1]
  {
    var n := |areas| - 1;
    if k < n {
      Apart(Flat(areas[..n]), areas[n]);
      FlatStep(areas[..n], k);
      assert areas[..n][..k + 1] == areas[..k + 1] && areas[..n][..k] == areas[..k];
    } else {
      assert areas[..n + 1] == areas;
      Apart(Flat(areas[..n]), areas[n]);
    }
  }

  lemma Apart(s: seq<Chunk>, t: seq<Chunk>)
    requires NoDup(s + t)
    ensures NoDup(s) && NoDup(t) && forall c :: c in s ==> c !in t
  {
    assert forall a :: 0 <= a < |s| ==> (s + t)[a] == s[a];
    assert forall b :: 0 <= b < |t| ==> (s + t)[|s| + b] == t[b];
  }

  lemma LinkedJoin(s: seq<Chunk>, t: seq<Chunk>)
    requires Linked(s) && Linked(t) && t != [] && (s != [] ==> s[|s| - 1].next == t[0])
    ensures Linked(s + t)
  {}

  /** What mpool_create comes to; a pool without a chunk makes its linking loop run past the
      area, because the number of links wraps around. */
  datatype Creation = NoPool | Overrun | Ready(pool: Pool)

  predicate TooBig(poolSize: nat, chunkSize: nat, page: nat)
    requires page > 0
  {
    var size := Enlarged(poolSize, chunkSize);
    chunkSize > SIZE_MAX - HEADER || size > SIZE_MAX - page + 1 || Pages(size, page) > SIZE_MAX / page
  }

  /** How many links the loop sets: one less than there are chunks, as `size_t`. */
  function Links(count: nat): nat { if count == 0 then SIZE_MAX else count - 1 }

  lemma LinksFit(count: nat, unit: nat, pages: nat, page: nat)
    requires page > 0 && unit > 0 && pages <= SIZE_MAX / page && count <= ChunksIn(PageBytes(pages, page), unit)
    ensures Links(count) >= ChunksIn(PageBytes(pages, page), unit) <==> count == 0
  {
    if count == 0 {
      DivBounds(SIZE_MAX, page);
      MulMono(pages, SIZE_MAX / page, page);
      DivBounds(pages * page, unit);
      MulMono(1, unit, ChunksIn(PageBytes(pages, page), unit));
    }
  }

  /** For instance: one byte for chunks of a hundred, on pages of 4096. */
  lemma SmallPoolOverruns()
    ensures !TooBig(1, 100, 4096) && !Holdable(1, 100) && ChunksIn(Enlarged(1, 100), HEADER + 100) == 0
  {}

  /** mpool_create: no pool exactly when a size overflows or there is no memory; otherwise a
      valid pool exactly when it can hold a chunk. */
  method Create(poolSize: nat, chunkSize: nat, page: nat, memory: bool) returns (r: Creation)
    requires page > 0 && poolSize <= SIZE_MAX
    ensures r.NoPool? <==> TooBig(poolSize, chunkSize, page) || !memory
    ensures r.Ready? <==> !r.NoPool? && Holdable(poolSize, chunkSize)
    ensures r.Ready? ==>
              var p, unit, size := r.pool, HEADER + chunkSize, Enlarged(poolSize, chunkSize);
              && fresh(p) && fresh(p.Repr) && p.Valid() && p.live == {}
              && p.unit == unit && p.bytes == PageBytes(Pages(size, page), page)
              && |p.areas| == 1 && |p.free| == ChunksIn(size, unit) && p.free <= p.areas[0]
  {
    hide Pool.Valid, ChunksIn, PageBytes, Pages, Holdable;
    if chunkSize > SIZE_MAX - HEADER { return NoPool; }
    var size := poolSize;
    if size < chunkSize + HEADER { size := (size + HEADER) % (SIZE_MAX + 1); }
    if size > SIZE_MAX - page + 1 { return NoPool; }
    var pages := Pages(size, page);
    if pages > SIZE_MAX / page || !memory { return NoPool; }
    PoolHolds(poolSize, chunkSize, page);
    var unit := HEADER + chunkSize;
    var count := ChunksIn(size, unit);
    LinksFit(count, unit, pages, page);
    if Links(count) >= ChunksIn(PageBytes(pages, page), unit) { return Overrun; }
    var p := new Pool(PageBytes(pages, page), unit, count);
    return Ready(p);
  }

  // ------------------------------------------------ whole runs

  /** Allocating, with or without clearing, and giving back the k-th chunk in hand. */
  datatype Op = Allocate(memory: bool) | GiveBack(k: nat)

  /** The caller holds exactly the live chunks. */
  ghost predicate Holding(p: Pool, held: seq<Chunk>)
    reads p
  {
    NoDup(held) && p.live == set c | c in held
  }

  /** Free and held chunks together, with `grown` areas mapped since there were `n`. */
  ghost predicate Conserved(free: nat, held: nat, n: nat, grown: nat, perArea: nat) {
    free + held == n + PageBytes(grown, perArea)
  }

  lemma GrowsByOne(grown: nat, perArea: nat)
    ensures PageBytes(grown + 1, perArea) == PageBytes(grown, perArea) + perArea && PageBytes(0, perArea) == 0
  {}

  method Obtain(p: Pool, memory: bool, held: seq<Chunk>) returns (now: seq<Chunk>)
    requires p.Valid() && Holding(p, held)
    modifies p
    ensures p.Valid() && Holding(p, now) && fresh(p.Repr - old(p.Repr)) && |p.areas| >= |old(p.areas)|
    ensures if old(p.free) == [] && !memory then now == held else |now| == |held| + 1 && now[..|held|] == held
    ensures |p.free| + |now| == |old(p.free)| + |held| +
              if |p.areas| > |old(p.areas)| then ChunksIn(p.bytes, p.unit) else 0
    ensures |p.areas| == |old(p.areas)| + if old(p.free) == [] && memory then 1 else 0
  {
    hide ChunksIn, Flat, Linked;
    now := held;
    var c := p.Alloc(memory);
    if c != null {
      now := held + [c];
    }
  }

  method Return(p: Pool, k: nat, held: seq<Chunk>) returns (now: seq<Chunk>)
    requires p.Valid() && Holding(p, held) && k < |held|
    modifies p, p.Repr
    ensures p.Valid() && Holding(p, now) && p.Repr == old(p.Repr) && p.areas == old(p.areas)
    ensures now == held[..k] + held[k + 1..] && |p.free| == |old(p.free)| + 1
  {
    hide ChunksIn, Flat, Linked;
    assert held[k] in p.live;
    p.Free(held[k]);
    now := held[..k] + held[k + 1..];
    assert forall c :: c in held && c != held[k] ==> c in now;
  }

  /** Every run: chunks are neither lost nor doubled, except for growth by whole areas, and
      those in hand are inside their areas and do not overlap. */
  method Run(p: Pool, ops: seq<Op>) returns (held: seq<Chunk>)
    requires p.Valid() && p.live == {}
    modifies p, p.Repr
    ensures p.Valid() && Holding(p, held) && |p.areas| >= |old(p.areas)|
    ensures Conserved(|p.free|, |held|, |old(p.free)|, |p.areas| - |old(p.areas)|, ChunksIn(p.bytes, p.unit))
    ensures forall i :: 0 <= i < |held| ==> Inside(held[i], p.bytes, p.unit)
    ensures forall i, j :: 0 <= i < j < |held| ==> Disjoint(held[i], held[j], p.unit)
    ensures forall i, c :: 0 <= i < |held| && c in p.free ==> Disjoint(held[i], c, p.unit)
  {
    hide ChunksIn, Flat, Linked, PageBytes, Disjoint, Inside;
    held := [];
    GrowsByOne(0, ChunksIn(p.bytes, p.unit));
    for n := 0 to |ops|
      invariant p.Valid() && Holding(p, held) && fresh(p.Repr - old(p.Repr)) && |p.areas| >= |old(p.areas)|
      invariant Conserved(|p.free|, |held|, |old(p.free)|, |p.areas| - |old(p.areas)|, ChunksIn(p.bytes, p.unit))
    {
      GrowsByOne(|p.areas| - |old(p.areas)|, ChunksIn(p.bytes, p.unit));
      match ops[n] {
        case Allocate(memory) => held := Obtain(p, memory, held);
        case GiveBack(k) => if k < |held| { held := Return(p, k, held); }
      }
    }
    HeldApart(p, held);
  }

  lemma HeldApart(p: Pool, held: seq<Chunk>)
    requires p.Valid() && Holding(p, held)
    ensures forall i :: 0 <= i < |held| ==> Inside(held[i], p.bytes, p.unit)
    ensures forall i, j :: 0 <= i < j < |held| ==> Disjoint(held[i], held[j], p.unit)
    ensures forall i, c :: 0 <= i < |held| && c in p.free ==> Disjoint(held[i], c, p.unit)
  {
    hide ChunksIn, Flat, Linked, Disjoint, Inside;
    forall i | 0 <= i < |held| ensures Inside(held[i], p.bytes, p.unit) {
      assert held[i] in p.live;
      p.ChunkInside(held[i]);
    }
    forall i, j | 0 <= i < j < |held| ensures Disjoint(held[i], held[j], p.unit) {
      assert held[i] in p.live && held[j] in p.live;
      p.ChunksApart(held[i], held[j]);
    }
    forall i, c | 0 <= i < |held| && c in p.free ensures Disjoint(held[i], c, p.unit) {
      assert held[i] in p.live;
      p.ChunksApart(held[i], c);
    }
  }
}
