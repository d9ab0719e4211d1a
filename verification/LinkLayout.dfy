/** How a link lays out its buffers: one block of skeletons, and one block of shared memory in which
    each buffer's metadata, chunks and data follow one another. Sizes are those of a 64-bit machine. */
module LinkLayout {
  import opened Prelude

  const SIZEOF_PTR := 8
  const SIZEOF_BUFFER := 32
  const SIZEOF_META := 24
  const SIZEOF_DATA := 40
  const SIZEOF_CHUNK := 12
  const SIZEOF_META_SHARED := 16

  datatype MetaType = Shared | Ringbuffer | OtherMeta(id: nat)

  datatype Meta = Meta(mtype: MetaType, size: nat)

  /** A metadata entry of a skeleton: where its memory is. */
  datatype MetaRec = MetaRec(mtype: MetaType, data: nat, size: nat)

  /** A data entry: its chunk, and the memory behind it unless it has none. */
  datatype DataRec = DataRec(chunk: nat, mapped: Option<Piece>, stride: int)

  /** `offset` bytes into a block, `len` bytes long. */
  datatype Piece = Piece(offset: nat, len: nat)

  datatype BufferRec = BufferRec(
    at: nat, id: nat, metasAt: nat, metas: seq<MetaRec>, datasAt: nat, datas: seq<DataRec>,
    sharedOffset: nat, sharedSize: nat)

  // ---------- the pieces ----------

  function MetaPieces(ms: seq<MetaRec>): seq<Piece> {
    if ms == [] then [] else MetaPieces(ms[..|ms| - 1]) + [Piece(ms[|ms| - 1].data, ms[|ms| - 1].size)]
  }

  function ChunkPieces(ds: seq<DataRec>): seq<Piece> {
    if ds == [] then [] else ChunkPieces(ds[..|ds| - 1]) + [Piece(ds[|ds| - 1].chunk, SIZEOF_CHUNK)]
  }

  function DataPieces(ds: seq<DataRec>): seq<Piece> {
    if ds == [] then []
    else
      DataPieces(ds[..|ds| - 1]) + if ds[|ds| - 1].mapped.Some? then [ds[|ds| - 1].mapped.value] else []
  }

  /** The shared memory of a buffer. */
  function Pieces(b: BufferRec): seq<Piece> {
    MetaPieces(b.metas) + ChunkPieces(b.datas) + DataPieces(b.datas)
  }

  /** The skeleton of a buffer. */
  function SkeletonPieces(b: BufferRec): seq<Piece> {
    [Piece(b.at, SIZEOF_BUFFER), Piece(b.metasAt, SIZEOF_META * |b.metas|), Piece(b.datasAt, SIZEOF_DATA * |b.datas|)]
  }

  /** The pieces lie side by side, from lo to hi. */
  predicate Tiles(ps: seq<Piece>, lo: int, hi: int) {
    if ps == [] then lo == hi else ps[0].offset == lo && Tiles(ps[1..], lo + ps[0].len, hi)
  }

  predicate Contains(p: Piece, byte: int) {
    p.offset <= byte < p.offset + p.len
  }

  lemma {:induction false} TilesJoin(ps: seq<Piece>, qs: seq<Piece>, lo: int, mid: int, hi: int)
    requires Tiles(ps, lo, mid) && Tiles(qs, mid, hi)
    ensures Tiles(ps + qs, lo, hi)
    decreases |ps|
  {
    if ps == [] {
      assert ps + qs == qs;
    } else {
      assert (ps + qs)[1..] == ps[1..] + qs;
      TilesJoin(ps[1..], qs, lo + ps[0].len, mid, hi);
    }
  }

  lemma TilesOne(p: Piece)
    ensures Tiles([p], p.offset, p.offset + p.len)
  {
    assert [p][1..] == [];
  }

  lemma TilesGrow(ps: seq<Piece>, lo: int, p: Piece)
    requires Tiles(ps, lo, p.offset)
    ensures Tiles(ps + [p], lo, p.offset + p.len)
  {
    TilesOne(p);
    TilesJoin(ps, [p], lo, p.offset, p.offset + p.len);
  }

  lemma TilesThree(a: Piece, b: Piece, c: Piece)
    requires b.offset == a.offset + a.len && c.offset == b.offset + b.len
    ensures Tiles([a, b, c], a.offset, c.offset + c.len)
  {
    TilesOne(a);
    TilesGrow([a], a.offset, b);
    TilesGrow([a] + [b], a.offset, c);
    assert [a] + [b] + [c] == [a, b, c];
  }

  /** Tiles are in bounds, in order, and therefore disjoint. */
  lemma {:induction false} TilesOrdered(ps: seq<Piece>, lo: int, hi: int)
    requires Tiles(ps, lo, hi)
    ensures lo <= hi
    ensures forall k | 0 <= k < |ps| :: lo <= ps[k].offset && ps[k].offset + ps[k].len <= hi
    ensures forall j, k | 0 <= j < k < |ps| :: ps[j].offset + ps[j].len <= ps[k].offset
    decreases |ps|
  {
    if ps != [] {
      TilesOrdered(ps[1..], lo + ps[0].len, hi);
      assert forall k | 0 < k < |ps| :: ps[k] == ps[1..][k - 1];
    }
  }

  /** Every byte between the bounds belongs to a tile. */
  lemma {:induction false} TilesCover(ps: seq<Piece>, lo: int, hi: int, byte: int) returns (k: nat)
    requires Tiles(ps, lo, hi) && lo <= byte < hi
    ensures k < |ps| && Contains(ps[k], byte)
    decreases |ps|
  {
    if Contains(ps[0], byte) {
      k := 0;
    } else {
      k := TilesCover(ps[1..], lo + ps[0].len, hi, byte);
      k := k + 1;
    }
  }

  // ---------- the sizes ----------

  function Sum(sizes: seq<nat>, n: nat): nat
    requires n <= |sizes|
  {
    if n == 0 then 0 else Sum(sizes, n - 1) + sizes[n - 1]
  }

  function MetaSum(metas: seq<Meta>, n: nat): nat
    requires n <= |metas|
  {
    if n == 0 then 0 else MetaSum(metas, n - 1) + metas[n - 1].size
  }

  function DataSize(metas: seq<Meta>, sizes: seq<nat>): nat {
    MetaSum(metas, |metas|) + SIZEOF_CHUNK * |sizes| + Sum(sizes, |sizes|)
  }

  function SkelSize(metas: seq<Meta>, sizes: seq<nat>): nat {
    SIZEOF_BUFFER + SIZEOF_META * |metas| + SIZEOF_DATA * |sizes|
  }

  /** An allocation parameter as the program sees it: the type of its POD, and the type and size it states for
      metadata, if it does. `unset` is what the two local variables hold that a query leaves alone. */
  datatype AllocParam = AllocParam(podType: nat, mtype: Option<MetaType>, size: Option<nat>, unset: Meta)

  /** How many of the two properties a query for type and size finds. */
  function Found(p: AllocParam): nat {
    (if p.mtype.Some? then 1 else 0) + if p.size.Some? then 1 else 0
  }

  /** The metadata collected for a parameter: its POD type has to equal the id of the metadata type, and
      the query has to find exactly one property. */
  function Enabled(p: AllocParam, metaEnable: nat): Option<Meta> {
    if p.podType != metaEnable || Found(p) != 1 then None
    else
      Some(Meta(if p.mtype.Some? then p.mtype.value else p.unset.mtype,
                if p.size.Some? then p.size.value else p.unset.size))
  }

  /** The metadata of every buffer: the shared one, then what the parameters enable. */
  function Metas(params: seq<AllocParam>, metaEnable: nat): (r: seq<Meta>)
    ensures |r| >= 1 && r[0] == Meta(Shared, SIZEOF_META_SHARED)
  {
    if params == [] then [Meta(Shared, SIZEOF_META_SHARED)]
    else
      var m := Enabled(params[|params| - 1], metaEnable);
      Metas(params[..|params| - 1], metaEnable) + if m.Some? then [m.value] else []
  }

  lemma {:induction false} MetasCount(params: seq<AllocParam>, metaEnable: nat)
    ensures |Metas(params, metaEnable)| <= |params| + 1
    ensures |Metas(params, metaEnable)| == |params| + 1
       <==> forall i | 0 <= i < |params| :: Enabled(params[i], metaEnable).Some?
  {
    if params != [] {
      var front := params[..|params| - 1];
      MetasCount(front, metaEnable);
      assert forall i | 0 <= i < |front| :: front[i] == params[i];
    }
  }

  /** The scratch array for the collected metadata has one byte more than an entry per parameter. It
      holds them exactly if some parameter enables no metadata: the shared entry is not counted. */
  lemma ScratchFits(params: seq<AllocParam>, metaEnable: nat)
    ensures SIZEOF_META * |Metas(params, metaEnable)| <= SIZEOF_META * |params| + 1
       <==> exists i | 0 <= i < |params| :: Enabled(params[i], metaEnable).None?
  {
    MetasCount(params, metaEnable);
  }

  /** What is collected, exactly: in the order of the parameters, behind the shared entry, for each one of the
      metadata type that states a type or a size and not both, what it states; the other is left undefined. */
  lemma CollectedLast(params: seq<AllocParam>, p: AllocParam, metaEnable: nat)
    ensures var before, ms := Metas(params, metaEnable), Metas(params + [p], metaEnable);
            && (p.podType == metaEnable && p.mtype.Some? && p.size.None? ==>
                  ms == before + [Meta(p.mtype.value, p.unset.size)])
            && (p.podType == metaEnable && p.mtype.None? && p.size.Some? ==>
                  ms == before + [Meta(p.unset.mtype, p.size.value)])
            && (p.podType != metaEnable || (p.mtype.Some? <==> p.size.Some?) ==> ms == before)
    ensures Metas([], metaEnable) == [Meta(Shared, SIZEOF_META_SHARED)]
  {
    assert (params + [p])[..|params|] == params;
  }

  /** A parameter that states both a type and a size is never collected, one that states neither is not
      either, and what is collected always has one of the two undefined. So when every metadata parameter
      is complete, only the shared metadata is laid out. */
  lemma {:induction false} CompleteIsSkipped(params: seq<AllocParam>, metaEnable: nat)
    requires forall p | p in params && p.podType == metaEnable :: p.mtype.Some? && p.size.Some?
    ensures Metas(params, metaEnable) == [Meta(Shared, SIZEOF_META_SHARED)]
  {
    if params != [] {
      var last := params[|params| - 1];
      assert last in params && Enabled(last, metaEnable).None?;
      CompleteIsSkipped(params[..|params| - 1], metaEnable);
    }
  }

  // ---------- what is laid out ----------

  /** Buffer i of n, as a skeleton at its place and with its tile of shared memory. */
  ghost predicate LaidOut(b: BufferRec, i: nat, n: nat, metas: seq<Meta>, sizes: seq<nat>, strides: seq<int>)
    requires |strides| == |sizes|
  {
    var data, skel := DataSize(metas, sizes), SkelSize(metas, sizes);
    && b.id == i
    && |b.metas| == |metas| && |b.datas| == |sizes|
    && (forall j | 0 <= j < |metas| :: b.metas[j].mtype == metas[j].mtype && b.metas[j].size == metas[j].size)
    && (forall j | 0 <= j < |sizes| ::
          if sizes[j] > 0 then b.datas[j].mapped.Some? && b.datas[j].mapped.value.len == sizes[j]
                               && b.datas[j].stride == strides[j]
          else b.datas[j].mapped.None?)
    && Tiles(Pieces(b), data * i, data * i + data)
    && Tiles(SkeletonPieces(b), SIZEOF_PTR * n + skel * i, SIZEOF_PTR * n + skel * i + skel)
    && b.sharedOffset == data * i && b.sharedSize == data
  }

  /** Layout tiling. The pieces of all the buffers together cover every byte of the shared block, and
      no byte belongs to two of them; the skeletons likewise, behind the pointers. */
  lemma LayoutTiles(bs: seq<BufferRec>, metas: seq<Meta>, sizes: seq<nat>, strides: seq<int>, byte: nat)
    returns (i: nat, k: nat)
    requires |strides| == |sizes|
    requires forall i | 0 <= i < |bs| :: LaidOut(bs[i], i, |bs|, metas, sizes, strides)
    requires byte < |bs| * DataSize(metas, sizes)
    ensures i < |bs| && k < |Pieces(bs[i])| && Contains(Pieces(bs[i])[k], byte)
    ensures forall i', k' | 0 <= i' < |bs| && 0 <= k' < |Pieces(bs[i'])| ::
              Contains(Pieces(bs[i'])[k'], byte) ==> i' == i && k' == k
  {
    var data := DataSize(metas, sizes);
    i := byte / data;
    InTile(byte, data, |bs|);
    k := TilesCover(Pieces(bs[i]), data * i, data * i + data, byte);
    forall i', k' | 0 <= i' < |bs| && 0 <= k' < |Pieces(bs[i'])| && Contains(Pieces(bs[i'])[k'], byte)
      ensures i' == i && k' == k
    {
      TilesOrdered(Pieces(bs[i']), data * i', data * i' + data);
      SameTile(byte, data, i, i');
    }
  }

  lemma InTile(byte: nat, data: nat, n: nat)
    requires byte < n * data
    ensures data > 0 && byte / data < n && data * (byte / data) <= byte < data * (byte / data) + data
  {
    assert data > 0 by {
      assert data == 0 ==> n * data == 0;
    }
    DividesBelow(byte, data, n);
  }

  lemma DividesBelow(byte: nat, data: nat, n: nat)
    requires data > 0 && byte < n * data
    ensures byte / data < n && data * (byte / data) <= byte < data * (byte / data) + data
  {
    var i := byte / data;
    assert byte == data * i + byte % data;
    Monotone(data, n, i);
  }

  lemma Monotone(size: nat, i: nat, j: nat)
    ensures i <= j ==> size * i <= size * j
  {
  }

  lemma SameTile(byte: nat, data: nat, i: nat, j: nat)
    requires data * i <= byte < data * i + data && data * j <= byte < data * j + data
    ensures i == j
  {
    if i < j {
      Rows(data, i, j);
    } else if j < i {
      Rows(data, j, i);
    }
  }

  /** The parts of one skeleton lie within its place, one behind the other. */
  lemma SkeletonWithin(b: BufferRec, i: nat, n: nat, metas: seq<Meta>, sizes: seq<nat>, strides: seq<int>)
    requires |strides| == |sizes| && i < n && LaidOut(b, i, n, metas, sizes, strides)
    ensures var lo, ps := SIZEOF_PTR * n + SkelSize(metas, sizes) * i, SkeletonPieces(b);
            && (forall k | 0 <= k < 3 ::
                  lo <= ps[k].offset && ps[k].offset + ps[k].len <= lo + SkelSize(metas, sizes))
            && (forall j, k | 0 <= j < k < 3 :: ps[j].offset + ps[j].len <= ps[k].offset)
  {
    var lo := SIZEOF_PTR * n + SkelSize(metas, sizes) * i;
    TilesOrdered(SkeletonPieces(b), lo, lo + SkelSize(metas, sizes));
  }

  predicate Apart(p: Piece, q: Piece) {
    p.offset + p.len <= q.offset || q.offset + q.len <= p.offset
  }

  /** No two skeletons, nor parts of one, overlap. */
  lemma SkeletonsApart(bs: seq<BufferRec>, metas: seq<Meta>, sizes: seq<nat>, strides: seq<int>, i: nat, j: nat)
    requires |strides| == |sizes| && i < |bs| && j < |bs|
    requires forall i | 0 <= i < |bs| :: LaidOut(bs[i], i, |bs|, metas, sizes, strides)
    ensures forall k, l | 0 <= k < 3 && 0 <= l < 3 && (i, k) != (j, l) ::
              Apart(SkeletonPieces(bs[i])[k], SkeletonPieces(bs[j])[l])
  {
    SkeletonWithin(bs[i], i, |bs|, metas, sizes, strides);
    if i != j {
      SkeletonWithin(bs[j], j, |bs|, metas, sizes, strides);
      Rows(SkelSize(metas, sizes), Min(i, j), Max(i, j));
    }
  }

  /** All skeletons lie behind the table of buffers and within the block. */
  lemma SkeletonsInBlock(bs: seq<BufferRec>, metas: seq<Meta>, sizes: seq<nat>, strides: seq<int>, i: nat, k: nat)
    requires |strides| == |sizes| && i < |bs| && k < 3
    requires LaidOut(bs[i], i, |bs|, metas, sizes, strides)
    ensures var p := SkeletonPieces(bs[i])[k];
            && SIZEOF_PTR * |bs| <= p.offset
            && p.offset + p.len <= |bs| * (SIZEOF_PTR + SkelSize(metas, sizes))
  {
    SkeletonWithin(bs[i], i, |bs|, metas, sizes, strides);
    Rows(SkelSize(metas, sizes), i, |bs|);
  }

  lemma Rows(size: nat, i: nat, j: nat)
    requires i < j
    ensures 0 <= size * i && size * i + size <= size * j
  {
    assert size * (i + 1) <= size * j;
  }

  // ---------- the allocator ----------

  lemma MetaPiecesGrow(ms: seq<MetaRec>, m: MetaRec)
    ensures MetaPieces(ms + [m]) == MetaPieces(ms) + [Piece(m.data, m.size)]
  {
    assert (ms + [m])[..|ms|] == ms;
  }

  lemma ChunkPiecesGrow(ds: seq<DataRec>, d: DataRec)
    ensures ChunkPieces(ds + [d]) == ChunkPieces(ds) + [Piece(d.chunk, SIZEOF_CHUNK)]
  {
    assert (ds + [d])[..|ds|] == ds;
  }

  lemma DataPiecesGrow(ds: seq<DataRec>, d: DataRec)
    ensures DataPieces(ds + [d]) == DataPieces(ds) + if d.mapped.Some? then [d.mapped.value] else []
  {
    assert (ds + [d])[..|ds|] == ds;
  }

  /** One more metadata entry extends the tiling by its size. */
  lemma MetaGrows(ms: seq<MetaRec>, m: MetaRec, base: nat)
    requires Tiles(MetaPieces(ms), base, m.data)
    ensures Tiles(MetaPieces(ms + [m]), base, m.data + m.size)
  {
    MetaPiecesGrow(ms, m);
    TilesGrow(MetaPieces(ms), base, Piece(m.data, m.size));
  }

  /** A query for the type and the size of metadata, and how many of them it finds. */
  method Query(p: AllocParam) returns (mtype: MetaType, size: nat, count: nat)
    ensures count == Found(p)
    ensures mtype == (if p.mtype.Some? then p.mtype.value else p.unset.mtype)
    ensures size == if p.size.Some? then p.size.value else p.unset.size
  {
    mtype, size, count := p.unset.mtype, p.unset.size, 0;
    if p.mtype.Some? {
      mtype, count := p.mtype.value, count + 1;
    }
    if p.size.Some? {
      size, count := p.size.value, count + 1;
    }
  }

  /** Collects the metadata: the shared entry, and one for each parameter that enables one. */
  method CollectMetas(params: seq<AllocParam>, metaEnable: nat) returns (metas: seq<Meta>, size: nat)
    ensures metas == Metas(params, metaEnable) && size == MetaSum(metas, |metas|)
  {
    metas := [Meta(Shared, SIZEOF_META_SHARED)];
    size := SIZEOF_META_SHARED;
    assert MetaSum(metas, 0) == 0;
    var i := 0;
    while i < |params|
      invariant 0 <= i <= |params| && metas == Metas(params[..i], metaEnable)
      invariant size == MetaSum(metas, |metas|)
    {
      assert params[..i + 1][..i] == params[..i];
      if params[i].podType == metaEnable {
        var mtype, msize, count := Query(params[i]);
        if count == 1 {
          MetaSumGrows(metas, Meta(mtype, msize), |metas|);
          metas := metas + [Meta(mtype, msize)];
          size := size + msize;
        }
      }
      i := i + 1;
    }
    assert params[..i] == params;
  }

  lemma {:induction false} MetaSumGrows(metas: seq<Meta>, m: Meta, n: nat)
    requires n <= |metas|
    ensures MetaSum(metas + [m], n) == MetaSum(metas, n)
  {
    if n > 0 {
      MetaSumGrows(metas, m, n - 1);
    }
  }

  /** The metadata of one buffer, from p on. */
  method PlaceMetas(metas: seq<Meta>, base: nat) returns (ms: seq<MetaRec>, p: nat)
    ensures |ms| == |metas| && p == base + MetaSum(metas, |metas|)
    ensures forall j | 0 <= j < |metas| :: ms[j].mtype == metas[j].mtype && ms[j].size == metas[j].size
    ensures Tiles(MetaPieces(ms), base, p)
  {
    ms, p := [], base;
    var j := 0;
    while j < |metas|
      invariant 0 <= j <= |metas| && |ms| == j && p == base + MetaSum(metas, j)
      invariant forall i | 0 <= i < j :: ms[i].mtype == metas[i].mtype && ms[i].size == metas[i].size
      invariant Tiles(MetaPieces(ms), base, p)
    {
      var m := MetaRec(metas[j].mtype, p, metas[j].size);
      MetaGrows(ms, m, base);
      ms := ms + [m];
      p := p + m.size;
      j := j + 1;
    }
  }

  /** A data entry extends the tiling of the chunks, and that of the data by its size. */
  lemma DataGrows(ds: seq<DataRec>, d: DataRec, cdp: nat, chunk: nat, first: nat, ddp: nat, size: nat)
    requires Tiles(ChunkPieces(ds), cdp, chunk) && Tiles(DataPieces(ds), first, ddp)
    requires d.chunk == chunk && d.mapped == if size > 0 then Some(Piece(ddp, size)) else None
    ensures Tiles(ChunkPieces(ds + [d]), cdp, chunk + SIZEOF_CHUNK)
    ensures Tiles(DataPieces(ds + [d]), first, ddp + size)
  {
    ChunkPiecesGrow(ds, d);
    TilesGrow(ChunkPieces(ds), cdp, Piece(chunk, SIZEOF_CHUNK));
    DataPiecesGrow(ds, d);
    if size > 0 {
      TilesGrow(DataPieces(ds), first, Piece(ddp, size));
    } else {
      assert DataPieces(ds) + [] == DataPieces(ds);
    }
  }

  /** The chunks of one buffer from cdp on, and its data behind them. */
  method PlaceDatas(sizes: seq<nat>, strides: seq<int>, cdp: nat) returns (ds: seq<DataRec>, ddp: nat)
    requires |strides| == |sizes|
    ensures |ds| == |sizes| && ddp == cdp + SIZEOF_CHUNK * |sizes| + Sum(sizes, |sizes|)
    ensures forall j | 0 <= j < |sizes| ::
              if sizes[j] > 0 then ds[j].mapped.Some? && ds[j].mapped.value.len == sizes[j]
                                   && ds[j].stride == strides[j]
              else ds[j].mapped.None?
    ensures Tiles(ChunkPieces(ds) + DataPieces(ds), cdp, ddp)
  {
    var first := cdp + SIZEOF_CHUNK * |sizes|;
    ds, ddp := [], first;
    var j := 0;
    while j < |sizes|
      invariant 0 <= j <= |sizes| && |ds| == j && ddp == first + Sum(sizes, j)
      invariant forall i | 0 <= i < j ::
                  if sizes[i] > 0 then ds[i].mapped.Some? && ds[i].mapped.value.len == sizes[i]
                                       && ds[i].stride == strides[i]
                  else ds[i].mapped.None?
      invariant Tiles(ChunkPieces(ds), cdp, cdp + SIZEOF_CHUNK * j)
      invariant Tiles(DataPieces(ds), first, ddp)
    {
      var chunk := cdp + SIZEOF_CHUNK * j;
      var d := if sizes[j] > 0 then DataRec(chunk, Some(Piece(ddp, sizes[j])), strides[j]) else DataRec(chunk, None, 0);
      DataGrows(ds, d, cdp, chunk, first, ddp, sizes[j]);
      ds := ds + [d];
      ddp := ddp + sizes[j];
      j := j + 1;
    }
    TilesJoin(ChunkPieces(ds), DataPieces(ds), cdp, first, ddp);
  }

  /** Lays out n buffers with the given parameters and data sizes. */
  method AllocBuffers(n: nat, params: seq<AllocParam>, metaEnable: nat, sizes: seq<nat>, strides: seq<int>)
    returns (buffers: array<BufferRec>, skelBytes: nat, memBytes: nat)
    requires |strides| == |sizes|
    ensures fresh(buffers) && buffers.Length == n
    ensures memBytes == n * DataSize(Metas(params, metaEnable), sizes)
    ensures skelBytes == n * (SIZEOF_PTR + SkelSize(Metas(params, metaEnable), sizes))
    ensures forall i | 0 <= i < n :: LaidOut(buffers[i], i, n, Metas(params, metaEnable), sizes, strides)
  {
    var metas, metaSize := CollectMetas(params, metaEnable);
    var dataSize, skelSize := BufferSizes(metas, metaSize, sizes);
    skelBytes, memBytes := n * (skelSize + SIZEOF_PTR), n * dataSize;
    var blank := BufferRec(0, 0, 0, [], 0, [], 0, 0);
    buffers := new BufferRec[n](_ => blank);
    var bp := SIZEOF_PTR * n;
    var i := 0;
    while i < n
      invariant 0 <= i <= n
      invariant forall k | 0 <= k < i :: LaidOut(buffers[k], k, n, metas, sizes, strides)
    {
      var b := PlaceBuffer(i, n, bp + skelSize * i, dataSize * i, dataSize, metas, sizes, strides);
      buffers[i] := b;
      i := i + 1;
    }
  }

  /** The shared memory and the skeleton of one buffer. */
  method BufferSizes(metas: seq<Meta>, metaSize: nat, sizes: seq<nat>) returns (dataSize: nat, skelSize: nat)
    requires metaSize == MetaSum(metas, |metas|)
    ensures dataSize == DataSize(metas, sizes) && skelSize == SkelSize(metas, sizes)
  {
    dataSize, skelSize := metaSize, SIZEOF_BUFFER + SIZEOF_META * |metas|;
    var i := 0;
    while i < |sizes|
      invariant 0 <= i <= |sizes|
      invariant dataSize == metaSize + SIZEOF_CHUNK * i + Sum(sizes, i)
      invariant skelSize == SIZEOF_BUFFER + SIZEOF_META * |metas| + SIZEOF_DATA * i
    {
      dataSize := dataSize + SIZEOF_CHUNK + sizes[i];
      skelSize := skelSize + SIZEOF_DATA;
      i := i + 1;
    }
  }

  /** One buffer: its skeleton at `at`, its memory from `base` on. */
  method PlaceBuffer(i: nat, ghost n: nat, at: nat, base: nat, dataSize: nat,
                     metas: seq<Meta>, sizes: seq<nat>, strides: seq<int>) returns (b: BufferRec)
    requires |strides| == |sizes| && dataSize == DataSize(metas, sizes)
    requires at == SIZEOF_PTR * n + SkelSize(metas, sizes) * i && base == dataSize * i
    ensures LaidOut(b, i, n, metas, sizes, strides)
  {
    var metasAt := at + SIZEOF_BUFFER;
    var ms, p := PlaceMetas(metas, base);
    var datasAt := metasAt + SIZEOF_META * |metas|;
    var ds, ddp := PlaceDatas(sizes, strides, p);
    b := BufferRec(at, i, metasAt, ms, datasAt, ds, base, dataSize);
    TilesJoin(MetaPieces(ms), ChunkPieces(ds) + DataPieces(ds), base, p, ddp);
    assert Pieces(b) == MetaPieces(ms) + (ChunkPieces(ds) + DataPieces(ds));
    TilesThree(SkeletonPieces(b)[0], SkeletonPieces(b)[1], SkeletonPieces(b)[2]);
  }
}
