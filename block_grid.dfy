/**
 * Image geometry of the DCT watermark codec (watermark/dct_watermark.py): edge padding to a
 * multiple of the block size, the grid of blocks, cropping and clipping back to 8-bit samples,
 * and the row-major block traversals that embed and read one bit per block.
 */
module BlockGrid {

  import opened TextBits
  import opened Coefficients
  import Arith

  /** One image plane (a grey image or one colour channel), as rows of samples. */
  type Image = seq<seq<real>>

  /** A grid of blocks, as rows of blocks. */
  type Grid = seq<seq<Block>>

  predicate IsImage(img: Image, h: nat, w: nat) {
    |img| == h && forall r | 0 <= r < h :: |img[r]| == w
  }

  /** `rows` rows of `cols` blocks each. */
  predicate HasShape(g: Grid, rows: nat, cols: nat) {
    |g| == rows && forall i | 0 <= i < rows :: |g[i]| == cols
  }

  predicate IsGrid(g: Grid, rows: nat, cols: nat, bs: nat) {
    HasShape(g, rows, cols) && forall i, j | 0 <= i < rows && 0 <= j < cols :: IsSquare(g[i][j], bs)
  }

  function Min(a: int, b: int): int {
    if a <= b then a else b
  }

  // ---------------------------------------------------------------------------------------
  // Padding and cropping

  /** `(block_size - n % block_size) % block_size`. */
  function PadAmount(n: nat, bs: nat): nat
    requires bs > 0
  {
    (bs - n % bs) % bs
  }

  /** `n + p` for `p < bs - n % bs` has remainder `n % bs + p`. */
  lemma RemainderAfterAdding(n: nat, p: nat, bs: nat)
    requires bs > 0 && n % bs + p < bs
    ensures (n + p) % bs == n % bs + p
  {
    assert n == (n / bs) * bs + n % bs;
    Arith.RowMajorDivMod(n / bs, n % bs + p, bs);
  }

  /** The padding is below `bs` and makes `n` a multiple of `bs`. */
  lemma PadAmountSpec(n: nat, bs: nat)
    requires bs > 0
    ensures PadAmount(n, bs) < bs
    ensures (n + PadAmount(n, bs)) % bs == 0
  {
    var q, r := n / bs, n % bs;
    assert n == q * bs + r;
    if r == 0 {
      Arith.RowMajorDivMod(1, 0, bs);
      assert PadAmount(n, bs) == 0;
      Arith.RowMajorDivMod(q, 0, bs);
    } else {
      Arith.RowMajorDivMod(0, bs - r, bs);
      assert PadAmount(n, bs) == bs - r;
      assert n + (bs - r) == (q + 1) * bs;
      Arith.RowMajorDivMod(q + 1, 0, bs);
    }
  }

  /** No smaller padding makes `n` a multiple of `bs`. */
  lemma PadAmountLeast(n: nat, bs: nat, p: nat)
    requires bs > 0 && p < PadAmount(n, bs)
    ensures (n + p) % bs != 0
  {
    var r := n % bs;
    if r == 0 {
      Arith.RowMajorDivMod(1, 0, bs);
    } else {
      Arith.RowMajorDivMod(0, bs - r, bs);
      RemainderAfterAdding(n, p, bs);
    }
  }

  /** The padded size divided by the block size: the number of blocks along that side. */
  lemma PaddedBlocks(n: nat, bs: nat)
    requires bs > 0
    ensures (n + PadAmount(n, bs)) / bs * bs == n + PadAmount(n, bs)
    ensures (n + PadAmount(n, bs)) % bs == 0
  {
    PadAmountSpec(n, bs);
    var m := n + PadAmount(n, bs);
    assert m == (m / bs) * bs + m % bs;
  }

  /** `np.pad(img, ((0, ph), (0, pw)), mode='edge')`: the last row and column repeated. */
  function PadEdge(img: Image, h: nat, w: nat, ph: nat, pw: nat): (r: Image)
    requires IsImage(img, h, w) && h > 0 && w > 0
    ensures IsImage(r, h + ph, w + pw)
    ensures forall y, x | 0 <= y < h + ph && 0 <= x < w + pw :: r[y][x] == img[Min(y, h - 1)][Min(x, w - 1)]
  {
    seq(h + ph, y requires 0 <= y < h + ph => seq(w + pw, x requires 0 <= x < w + pw => img[Min(y, h - 1)][Min(x, w - 1)]))
  }

  /** `img[:h, :w]`. */
  function Crop(img: Image, h: nat, w: nat): (r: Image)
    requires |img| >= h && forall y | 0 <= y < h :: |img[y]| >= w
    ensures IsImage(r, h, w)
    ensures forall y, x | 0 <= y < h && 0 <= x < w :: r[y][x] == img[y][x]
  {
    seq(h, y requires 0 <= y < h => img[y][..w])
  }

  /** Cropping an edge-padded image gives the image back. */
  lemma CropUndoesPad(img: Image, h: nat, w: nat, ph: nat, pw: nat)
    requires IsImage(img, h, w) && h > 0 && w > 0
    ensures Crop(PadEdge(img, h, w, ph, pw), h, w) == img
  {
    var c := Crop(PadEdge(img, h, w, ph, pw), h, w);
    forall y | 0 <= y < h
      ensures c[y] == img[y]
    {
    }
  }

  /** `np.clip(v, 0, 255).astype(np.uint8)`: clipped, then truncated to an integer. */
  function ClipToByte(v: real): (r: real)
    ensures 0.0 <= r <= 255.0 && r == r.Floor as real
    ensures 0.0 <= v <= 255.0 ==> r == v.Floor as real
  {
    if v < 0.0 then 0.0 else if v > 255.0 then 255.0 else v.Floor as real
  }

  /** Every sample is an integer in `0 .. 255`. */
  predicate IsBytePlane(img: Image) {
    forall y, x | 0 <= y < |img| && 0 <= x < |img[y]| :: 0.0 <= img[y][x] <= 255.0 && img[y][x] == img[y][x].Floor as real
  }

  function ClipPlane(img: Image): (r: Image)
    ensures |r| == |img| && forall y | 0 <= y < |img| :: |r[y]| == |img[y]|
    ensures IsBytePlane(r)
    ensures forall y, x | 0 <= y < |img| && 0 <= x < |img[y]| :: r[y][x] == ClipToByte(img[y][x])
  {
    seq(|img|, y requires 0 <= y < |img| => seq(|img[y]|, x requires 0 <= x < |img[y]| => ClipToByte(img[y][x])))
  }

  /** Clipping a plane that already holds bytes changes nothing. */
  lemma ClipPlaneOfBytes(img: Image)
    requires IsBytePlane(img)
    ensures ClipPlane(img) == img
  {
    var c := ClipPlane(img);
    forall y | 0 <= y < |img|
      ensures c[y] == img[y]
    {
    }
  }

  // ---------------------------------------------------------------------------------------
  // Blocks

  /** Row `y` of block `(i, j)`: samples `j bs .. j bs + bs` of image row `i bs + y`. */
  function TileRow(img: Image, rows: nat, cols: nat, bs: nat, i: nat, j: nat, y: nat): (r: seq<real>)
    requires 0 < bs && IsImage(img, rows * bs, cols * bs) && i < rows && j < cols && y < bs
    ensures |r| == bs
  {
    Arith.RowMajorBound(i, y, rows, bs);
    Arith.RowMajorBoundLe(j, bs, cols, bs);
    img[i * bs + y][j * bs..j * bs + bs]
  }

  /** Sample `(y, x)` of block `(i, j)` is sample `(i bs + y, j bs + x)` of the image. */
  function TileBlock(img: Image, rows: nat, cols: nat, bs: nat, i: nat, j: nat): (b: Block)
    requires 0 < bs && IsImage(img, rows * bs, cols * bs) && i < rows && j < cols
    ensures IsSquare(b, bs)
  {
    seq(bs, y requires 0 <= y < bs => TileRow(img, rows, cols, bs, i, j, y))
  }

  /** The `rows x cols` grid of `bs x bs` blocks of an image whose sides are multiples of `bs`. */
  function Tile(img: Image, rows: nat, cols: nat, bs: nat): (g: Grid)
    requires 0 < bs && IsImage(img, rows * bs, cols * bs)
    ensures IsGrid(g, rows, cols, bs)
    ensures forall i, j | 0 <= i < rows && 0 <= j < cols :: g[i][j] == TileBlock(img, rows, cols, bs, i, j)
  {
    seq(rows, i requires 0 <= i < rows => seq(cols, j requires 0 <= j < cols => TileBlock(img, rows, cols, bs, i, j)))
  }

  /** The image a grid of blocks covers: sample `(r, c)` is in block `(r / bs, c / bs)`. */
  function Untile(g: Grid, rows: nat, cols: nat, bs: nat): (img: Image)
    requires 0 < bs && IsGrid(g, rows, cols, bs)
    ensures IsImage(img, rows * bs, cols * bs)
  {
    seq(rows * bs, r requires 0 <= r < rows * bs =>
      Arith.RowMajorCell(r, rows, bs);
      seq(cols * bs, c requires 0 <= c < cols * bs =>
        Arith.RowMajorCell(c, cols, bs);
        g[r / bs][c / bs][r % bs][c % bs]))
  }

  /** Sample `(y, x)` of tiled block `(i, j)` is image sample `(i bs + y, j bs + x)`. */
  lemma TileSample(img: Image, rows: nat, cols: nat, bs: nat, i: nat, j: nat, y: nat, x: nat)
    requires 0 < bs && IsImage(img, rows * bs, cols * bs) && i < rows && j < cols && y < bs && x < bs
    ensures i * bs + y < rows * bs && j * bs + x < cols * bs
    ensures Tile(img, rows, cols, bs)[i][j][y][x] == img[i * bs + y][j * bs + x]
  {
    Arith.RowMajorBound(i, y, rows, bs);
    Arith.RowMajorBound(j, x, cols, bs);
    Arith.RowMajorBoundLe(j, bs, cols, bs);
    var row := TileRow(img, rows, cols, bs, i, j, y);
    assert row[x] == img[i * bs + y][j * bs + x];
  }

  /** Sample `(r, c)` of the untiled tiling is sample `(r, c)` of the image. */
  lemma UntileTileAt(img: Image, rows: nat, cols: nat, bs: nat, r: nat, c: nat)
    requires 0 < bs && IsImage(img, rows * bs, cols * bs) && r < rows * bs && c < cols * bs
    ensures Untile(Tile(img, rows, cols, bs), rows, cols, bs)[r][c] == img[r][c]
  {
    UntileSample(Tile(img, rows, cols, bs), rows, cols, bs, r, c);
    TileSampleAt(img, rows, cols, bs, r, c);
  }

  /** Image sample `(r, c)` lands at `(r % bs, c % bs)` of tiled block `(r / bs, c / bs)`. */
  lemma TileSampleAt(img: Image, rows: nat, cols: nat, bs: nat, r: nat, c: nat)
    requires 0 < bs && IsImage(img, rows * bs, cols * bs) && r < rows * bs && c < cols * bs
    ensures r / bs < rows && c / bs < cols && r % bs < bs && c % bs < bs
    ensures Tile(img, rows, cols, bs)[r / bs][c / bs][r % bs][c % bs] == img[r][c]
  {
    Arith.RowMajorCell(r, rows, bs);
    Arith.RowMajorCell(c, cols, bs);
    var i, y, j, x := r / bs, r % bs, c / bs, c % bs;
    TileSample(img, rows, cols, bs, i, j, y, x);
    assert i * bs + y == r && j * bs + x == c;
  }

  /** Sample `(r, c)` of an untiled grid is sample `(r % bs, c % bs)` of block `(r / bs, c / bs)`. */
  lemma UntileSample(g: Grid, rows: nat, cols: nat, bs: nat, r: nat, c: nat)
    requires 0 < bs && IsGrid(g, rows, cols, bs) && r < rows * bs && c < cols * bs
    ensures r / bs < rows && c / bs < cols && r % bs < bs && c % bs < bs
    ensures Untile(g, rows, cols, bs)[r][c] == g[r / bs][c / bs][r % bs][c % bs]
  {
    Arith.RowMajorCell(r, rows, bs);
    Arith.RowMajorCell(c, cols, bs);
  }

  /** Tiling and untiling are inverse: the blocks cover the image exactly once. */
  lemma UntileTile(img: Image, rows: nat, cols: nat, bs: nat)
    requires 0 < bs && IsImage(img, rows * bs, cols * bs)
    ensures Untile(Tile(img, rows, cols, bs), rows, cols, bs) == img
  {
    var u := Untile(Tile(img, rows, cols, bs), rows, cols, bs);
    forall r | 0 <= r < rows * bs
      ensures u[r] == img[r]
    {
      forall c | 0 <= c < cols * bs
        ensures u[r][c] == img[r][c]
      {
        UntileTileAt(img, rows, cols, bs, r, c);
      }
    }
  }

  /** Block `k` in row-major order is block `(k / cols, k % cols)`. */
  function CellAt(g: Grid, rows: nat, cols: nat, k: nat): Block
    requires HasShape(g, rows, cols) && k < rows * cols
  {
    Arith.RowMajorCell(k, rows, cols);
    g[k / cols][k % cols]
  }

  // ---------------------------------------------------------------------------------------
  // Traversals

  /** What becomes of block number `k`: bit `k` is embedded when there is one. */
  function EmbedCell(b: Block, k: nat, bits: string, op: (Block, char, nat) -> Block): Block {
    if k < |bits| then op(b, bits[k], k) else b
  }

  /** Row-major number of block `(i, j)` in a grid `cols` blocks wide. */
  function Index(i: nat, j: nat, cols: nat): nat {
    i * cols + j
  }

  /** The grid after embedding `bits` one per block, row-major. */
  function EmbedGrid(g: Grid, rows: nat, cols: nat, bs: nat, bits: string, op: (Block, char, nat) -> Block): (r: Grid)
    requires IsGrid(g, rows, cols, bs)
    ensures HasShape(r, rows, cols)
  {
    seq(rows, i requires 0 <= i < rows => seq(cols, j requires 0 <= j < cols => EmbedCell(g[i][j], Index(i, j, cols), bits, op)))
  }

  /** An operation that keeps blocks `bs x bs`. */
  ghost predicate KeepsSquare(op: (Block, char, nat) -> Block, bs: nat) {
    forall b: Block, c: char, k: nat :: IsSquare(b, bs) ==> IsSquare(op(b, c, k), bs)
  }

  lemma EmbedGridIsGrid(g: Grid, rows: nat, cols: nat, bs: nat, bits: string, op: (Block, char, nat) -> Block)
    requires IsGrid(g, rows, cols, bs) && KeepsSquare(op, bs)
    ensures IsGrid(EmbedGrid(g, rows, cols, bs, bits, op), rows, cols, bs)
  {
  }

  /** The contents of a 2-D array of blocks, as a grid. */
  function GridOf(a: array2<Block>): (g: Grid)
    reads a
    ensures |g| == a.Length0 && forall i | 0 <= i < a.Length0 :: |g[i]| == a.Length1
    ensures forall i, j | 0 <= i < a.Length0 && 0 <= j < a.Length1 :: g[i][j] == a[i, j]
  {
    seq(a.Length0, i requires 0 <= i < a.Length0 reads a => seq(a.Length1, j requires 0 <= j < a.Length1 reads a => a[i, j]))
  }

  /**
   * The embedding loops of `embed_watermark` and `_embed_in_channel`: blocks in row-major order,
   * block number `k` replaced in place by `op(block, bits[k], k)` while `k < len(bits)`, both
   * loops left as soon as the bits run out.
   */
  method EmbedBlocks(wm: array2<Block>, bits: string, op: (Block, char, nat) -> Block)
    modifies wm
    ensures forall i, j | 0 <= i < wm.Length0 && 0 <= j < wm.Length1 ::
      wm[i, j] == EmbedCell(old(wm[i, j]), Index(i, j, wm.Length1), bits, op)
  {
    var rows, cols := wm.Length0, wm.Length1;
    var bitIndex := 0;
    var i := 0;
    while i < rows
      invariant 0 <= i <= rows
      invariant bitIndex == i * cols && bitIndex <= |bits|
      invariant forall i', j' | 0 <= i' < i && 0 <= j' < cols ::
        wm[i', j'] == EmbedCell(old(wm[i', j']), Index(i', j', cols), bits, op)
      invariant forall i', j' | i <= i' < rows && 0 <= j' < cols :: wm[i', j'] == old(wm[i', j'])
    {
      var j := 0;
      while j < cols
        invariant 0 <= j <= cols
        invariant bitIndex == i * cols + j && bitIndex <= |bits|
        invariant forall i', j' | 0 <= i' < i && 0 <= j' < cols ::
          wm[i', j'] == EmbedCell(old(wm[i', j']), Index(i', j', cols), bits, op)
        invariant forall j' | 0 <= j' < j :: wm[i, j'] == EmbedCell(old(wm[i, j']), Index(i, j', cols), bits, op)
        invariant forall j' | j <= j' < cols :: wm[i, j'] == old(wm[i, j'])
        invariant forall i', j' | i < i' < rows && 0 <= j' < cols :: wm[i', j'] == old(wm[i', j'])
      {
        if bitIndex < |bits| {
          wm[i, j] := op(wm[i, j], bits[bitIndex], bitIndex);
          bitIndex := bitIndex + 1;
        } else {
          break;
        }
        j := j + 1;
      }
      if bitIndex >= |bits| {
        forall j' | j <= j' < cols
          ensures wm[i, j'] == EmbedCell(old(wm[i, j']), Index(i, j', cols), bits, op)
        {
        }
        forall i', j' | i < i' < rows && 0 <= j' < cols
          ensures wm[i', j'] == EmbedCell(old(wm[i', j']), Index(i', j', cols), bits, op)
        {
          Arith.LaterRow(i, i', j', cols);
        }
        break;
      }
      assert bitIndex == (i + 1) * cols;
      i := i + 1;
    }
  }

  /** The bits the extraction loops read: one per block, row-major, for the first `count` blocks. */
  function ReadCells(g: Grid, rows: nat, cols: nat, count: nat, rd: (Block, nat) -> char): (r: string)
    requires HasShape(g, rows, cols) && count <= rows * cols
    ensures |r| == count
    ensures forall k | 0 <= k < count :: r[k] == rd(CellAt(g, rows, cols, k), k)
  {
    seq(count, k requires 0 <= k < count => rd(CellAt(g, rows, cols, k), k))
  }

  /**
   * The extraction loops of `extract_watermark` and `_extract_from_channel`: blocks in
   * row-major order, one bit `rd(block, k)` appended per block while `k < bits_needed`.
   */
  method ExtractBlocks(g: Grid, rows: nat, cols: nat, bs: nat, needed: int, rd: (Block, nat) -> char)
    returns (bits: string)
    requires IsGrid(g, rows, cols, bs)
    ensures |bits| == Min(if needed < 0 then 0 else needed, rows * cols)
    ensures bits == ReadCells(g, rows, cols, |bits|, rd)
  {
    var n: nat := if needed < 0 then 0 else needed;
    bits := "";
    var bitIndex := 0;
    var i := 0;
    while i < rows
      invariant 0 <= i <= rows
      invariant bitIndex == |bits| == i * cols && bitIndex <= n
      invariant forall k | 0 <= k < |bits| :: k < rows * cols && bits[k] == rd(CellAt(g, rows, cols, k), k)
    {
      var j := 0;
      while j < cols
        invariant 0 <= j <= cols
        invariant bitIndex == |bits| == i * cols + j && bitIndex <= n
        invariant forall k | 0 <= k < |bits| :: k < rows * cols && bits[k] == rd(CellAt(g, rows, cols, k), k)
      {
        if bitIndex < needed {
          Arith.RowMajorDivMod(i, j, cols);
          Arith.RowMajorBound(i, j, rows, cols);
          bits := bits + [rd(g[i][j], bitIndex)];
          bitIndex := bitIndex + 1;
        } else {
          break;
        }
        j := j + 1;
      }
      if bitIndex >= needed {
        Arith.RowMajorBoundLe(i, j, rows, cols);
        break;
      }
      assert bitIndex == (i + 1) * cols;
      i := i + 1;
    }
  }

  // ---------------------------------------------------------------------------------------
  // The ideal channel

  /** Block number `k` of the embedded grid. */
  lemma EmbedGridAt(g: Grid, rows: nat, cols: nat, bs: nat, bits: string, op: (Block, char, nat) -> Block, k: nat)
    requires IsGrid(g, rows, cols, bs) && k < rows * cols
    ensures CellAt(EmbedGrid(g, rows, cols, bs, bits, op), rows, cols, k) ==
      EmbedCell(CellAt(g, rows, cols, k), k, bits, op)
  {
    Arith.RowMajorCell(k, rows, cols);
    var i, j := k / cols, k % cols;
    assert Index(i, j, cols) == k;
    var e := EmbedGrid(g, rows, cols, bs, bits, op);
    assert e[i][j] == EmbedCell(g[i][j], k, bits, op);
  }

  /** `op` writes a bit that `rd` reads back from the same block number. */
  ghost predicate ReadsBack(op: (Block, char, nat) -> Block, rd: (Block, nat) -> char, bs: nat) {
    forall b: Block, c: char, k: nat :: IsSquare(b, bs) && IsBit(c) ==> rd(op(b, c, k), k) == c
  }

  /**
   * Over an ideal channel (the embedded grid read as it is), reading `|bits|` blocks gives back
   * every embedded bit, whenever the grid has room for them and `rd` reads back what `op` writes.
   */
  lemma GridRoundTrip(g: Grid, rows: nat, cols: nat, bs: nat, bits: string,
                      op: (Block, char, nat) -> Block, rd: (Block, nat) -> char)
    requires IsGrid(g, rows, cols, bs) && KeepsSquare(op, bs) && ReadsBack(op, rd, bs)
    requires IsBinary(bits) && |bits| <= rows * cols
    ensures IsGrid(EmbedGrid(g, rows, cols, bs, bits, op), rows, cols, bs)
    ensures ReadCells(EmbedGrid(g, rows, cols, bs, bits, op), rows, cols, |bits|, rd) == bits
  {
    EmbedGridIsGrid(g, rows, cols, bs, bits, op);
    var e := EmbedGrid(g, rows, cols, bs, bits, op);
    var r := ReadCells(e, rows, cols, |bits|, rd);
    forall k | 0 <= k < |bits|
      ensures r[k] == bits[k]
    {
      EmbedGridAt(g, rows, cols, bs, bits, op, k);
      Arith.RowMajorCell(k, rows, cols);
      assert IsSquare(CellAt(g, rows, cols, k), bs);
    }
  }
}
