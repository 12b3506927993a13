/**
 * Per-block operations of the DCT watermark codec (watermark/dct_watermark.py): which
 * coefficient of a block carries a bit, how the basic codec and the quantisation-index
 * modulation (QIM) codec set it, and how they read it back.
 *
 * The 2-D DCT and its inverse (`cv2.dct`, `cv2.idct`) are not modelled: a `Transform` is an
 * arbitrary pair of block functions, and `Lossless` states the one property the ideal channel
 * needs, that the forward transform undoes the inverse one.
 */
module Coefficients {

  import opened Wrappers
  import opened TextBits
  import Arith

  /** A block of samples or of coefficients, as rows. */
  type Block = seq<seq<real>>

  /** A `(y, x)` coefficient position. */
  datatype Pos = Pos(y: nat, x: nat)

  datatype Transform = Transform(forward: Block -> Block, inverse: Block -> Block)

  /** Transforming an inverse-transformed coefficient block gives that block back. */
  ghost predicate Lossless(t: Transform) {
    forall c: Block :: t.forward(t.inverse(c)) == c
  }

  predicate IsSquare(b: Block, n: nat) {
    |b| == n && forall r | 0 <= r < n :: |b[r]| == n
  }

  /** Both transforms map `n x n` blocks to `n x n` blocks, as `cv2.dct` and `cv2.idct` do. */
  ghost predicate KeepsShape(t: Transform, n: nat) {
    forall b: Block :: IsSquare(b, n) ==> IsSquare(t.forward(b), n) && IsSquare(t.inverse(b), n)
  }

  /** `y < shape[0] and x < shape[1]` for the block. */
  predicate Fits(p: Pos, c: Block) {
    p.y < |c| && p.x < |c[p.y]|
  }

  function Coeff(c: Block, p: Pos): real
    requires Fits(p, c)
  {
    c[p.y][p.x]
  }

  /** `dct_block[y, x] = v`. */
  function SetCoeff(c: Block, p: Pos, v: real): (r: Block)
    requires Fits(p, c)
    ensures |r| == |c| && forall y | 0 <= y < |c| :: |r[y]| == |c[y]|
    ensures Fits(p, r) && Coeff(r, p) == v
    ensures forall y, x | 0 <= y < |c| && 0 <= x < |c[y]| && Pos(y, x) != p :: r[y][x] == c[y][x]
  {
    c[p.y := c[p.y][p.x := v]]
  }

  lemma SetCoeffKeepsFit(c: Block, p: Pos, v: real, q: Pos)
    requires Fits(p, c)
    ensures Fits(q, SetCoeff(c, p, v)) <==> Fits(q, c)
  {
  }

  function Abs(v: real): (r: real)
    ensures r >= 0.0 && (r == v || r == -v)
  {
    if v < 0.0 then -v else v
  }

  /** `coeff_pos` of the basic codec. */
  const BasicPositions: seq<Pos> := [Pos(1, 2), Pos(2, 1), Pos(2, 2), Pos(1, 3), Pos(3, 1)]

  /** `self.embedding_positions`: the seven mid-frequency positions of the enhanced codec. */
  const EmbeddingPositions: seq<Pos> := BasicPositions + [Pos(3, 2), Pos(2, 3)]

  /** The first position of `ps` that lies inside `c`, as the basic codec's `for ... break` finds it. */
  function FirstFit(ps: seq<Pos>, c: Block): (r: Option<Pos>)
    ensures r.Some? <==> exists i | 0 <= i < |ps| :: Fits(ps[i], c)
    ensures r.Some? ==> Fits(r.value, c)
    ensures r.Some? ==> exists i | 0 <= i < |ps| :: ps[i] == r.value && forall j | 0 <= j < i :: !Fits(ps[j], c)
  {
    if ps == [] then None
    else if Fits(ps[0], c) then Some(ps[0])
    else
      var r := FirstFit(ps[1..], c);
      assert forall i | 1 <= i < |ps| :: ps[i] == ps[1..][i - 1];
      r
  }

  /** Whether two blocks have rows of the same lengths. */
  predicate SameShape(a: Block, b: Block) {
    |a| == |b| && forall y | 0 <= y < |a| :: |a[y]| == |b[y]|
  }

  lemma {:induction false} FirstFitSameShape(ps: seq<Pos>, a: Block, b: Block)
    requires SameShape(a, b)
    ensures FirstFit(ps, a) == FirstFit(ps, b)
  {
    if ps != [] {
      FirstFitSameShape(ps[1..], a, b);
    }
  }

  /** Every basic position fits a square block of side 4 or more. */
  lemma FirstFitInSquare(c: Block, n: nat)
    requires IsSquare(c, n) && n >= 4
    ensures FirstFit(BasicPositions, c) == Some(Pos(1, 2))
  {
  }

  // ---------------------------------------------------------------------------------------
  // Basic codec: the sign of the first fitting coefficient

  /**
   * `_embed_bit_in_block`: the first fitting coefficient becomes `|c| + 255 s` for bit '1' and
   * `|c| - 255 s` otherwise; a block without a fitting position only goes through the transform.
   */
  function EmbedBitInBlock(t: Transform, block: Block, bit: char, s: real): Block {
    var c := t.forward(block);
    match FirstFit(BasicPositions, c)
    case None => t.inverse(c)
    case Some(p) =>
      var a := Abs(Coeff(c, p));
      t.inverse(SetCoeff(c, p, if bit == '1' then a + s * 255.0 else a - s * 255.0))
  }

  /** `_extract_bit_from_block`: '1' iff the first fitting coefficient is positive, '0' by default. */
  function ExtractBitFromBlock(t: Transform, block: Block): char {
    var c := t.forward(block);
    match FirstFit(BasicPositions, c)
    case None => '0'
    case Some(p) => if Coeff(c, p) > 0.0 then '1' else '0'
  }

  /** Over a lossless transform, a '1' embedded with positive strength reads back as '1'. */
  lemma BasicOneReadsBack(t: Transform, block: Block, s: real)
    requires Lossless(t) && s > 0.0
    requires FirstFit(BasicPositions, t.forward(block)).Some?
    ensures ExtractBitFromBlock(t, EmbedBitInBlock(t, block, '1', s)) == '1'
  {
    var c := t.forward(block);
    var p := FirstFit(BasicPositions, c).value;
    var c' := SetCoeff(c, p, Abs(Coeff(c, p)) + s * 255.0);
    assert EmbedBitInBlock(t, block, '1', s) == t.inverse(c');
    assert t.forward(t.inverse(c')) == c';
    FirstFitSameShape(BasicPositions, c', c);
    assert Coeff(c', p) > 0.0;
  }

  /**
   * As written, a '0' reads back as '1' whenever the chosen coefficient's magnitude exceeds
   * `255 s`: `|c| - 255 s` is then still positive.
   */
  lemma BasicZeroMisread(t: Transform, block: Block, s: real)
    requires Lossless(t)
    requires FirstFit(BasicPositions, t.forward(block)).Some?
    requires Abs(Coeff(t.forward(block), FirstFit(BasicPositions, t.forward(block)).value)) > s * 255.0
    ensures ExtractBitFromBlock(t, EmbedBitInBlock(t, block, '0', s)) == '1'
  {
    var c := t.forward(block);
    var p := FirstFit(BasicPositions, c).value;
    var c' := SetCoeff(c, p, Abs(Coeff(c, p)) - s * 255.0);
    assert EmbedBitInBlock(t, block, '0', s) == t.inverse(c');
    assert t.forward(t.inverse(c')) == c';
    FirstFitSameShape(BasicPositions, c', c);
    assert Coeff(c', p) > 0.0;
  }

  /** The identity transform, under which a block is its own coefficient block. */
  function Identity(): (t: Transform)
    ensures Lossless(t) && forall n: nat :: KeepsShape(t, n)
  {
    Transform(b => b, b => b)
  }

  /** An `n x n` block with every value `v`. */
  function Flat(n: nat, v: real): (b: Block)
    ensures IsSquare(b, n)
  {
    seq(n, _ => seq(n, _ => v))
  }

  /** Concretely: an 8 x 8 block of coefficient 100 at strength 0.1 keeps 74.5 > 0 for a '0'. */
  lemma BasicZeroMisreadExample()
    ensures ExtractBitFromBlock(Identity(), EmbedBitInBlock(Identity(), Flat(8, 100.0), '0', 0.1)) == '1'
  {
    var b := Flat(8, 100.0);
    FirstFitInSquare(b, 8);
    BasicZeroMisread(Identity(), b, 0.1);
  }

  /** The evidently intended basic rule: bit '0' makes the coefficient negative, `-(|c| + 255 s)`. */
  function CorrectedEmbedBitInBlock(t: Transform, block: Block, bit: char, s: real): Block {
    var c := t.forward(block);
    match FirstFit(BasicPositions, c)
    case None => t.inverse(c)
    case Some(p) =>
      var a := Abs(Coeff(c, p)) + s * 255.0;
      t.inverse(SetCoeff(c, p, if bit == '1' then a else -a))
  }

  /** With the corrected rule every bit reads back over a lossless transform. */
  lemma CorrectedBasicReadsBack(t: Transform, block: Block, bit: char, s: real)
    requires Lossless(t) && s > 0.0 && IsBit(bit)
    requires FirstFit(BasicPositions, t.forward(block)).Some?
    ensures ExtractBitFromBlock(t, CorrectedEmbedBitInBlock(t, block, bit, s)) == bit
  {
    var c := t.forward(block);
    var p := FirstFit(BasicPositions, c).value;
    var a := Abs(Coeff(c, p)) + s * 255.0;
    var c' := SetCoeff(c, p, if bit == '1' then a else -a);
    assert CorrectedEmbedBitInBlock(t, block, bit, s) == t.inverse(c');
    assert t.forward(t.inverse(c')) == c';
    FirstFitSameShape(BasicPositions, c', c);
    assert Coeff(c', p) > 0.0 <==> bit == '1';
  }

  // ---------------------------------------------------------------------------------------
  // Enhanced codec: quantisation-index modulation

  /** Python's `round` on a float: the nearest integer, halves going to the even neighbour. */
  function RoundHalfEven(r: real): (n: int)
    ensures -0.5 <= r - n as real <= 0.5
    ensures (r - n as real == 0.5 || r - n as real == -0.5) ==> n % 2 == 0
  {
    var f := r.Floor;
    var d := r - f as real;
    if d < 0.5 then f else if d > 0.5 then f + 1 else if f % 2 == 0 then f else f + 1
  }

  lemma RoundOfInteger(k: int)
    ensures RoundHalfEven(k as real) == k
  {
  }

  /** `_get_robust_embedding_positions`: 3, 5 or 7 positions by strength tier. */
  function RobustPositions(s: real): (ps: seq<Pos>)
    ensures |ps| <= |EmbeddingPositions| && ps == EmbeddingPositions[..|ps|]
  {
    if s < 0.1 then [Pos(1, 2), Pos(2, 1), Pos(2, 2)]
    else if s < 0.2 then [Pos(1, 2), Pos(2, 1), Pos(2, 2), Pos(1, 3), Pos(3, 1)]
    else [Pos(1, 2), Pos(2, 1), Pos(2, 2), Pos(1, 3), Pos(3, 1), Pos(3, 2), Pos(2, 3)]
  }

  /** A higher strength never selects fewer positions, and the lower tier is a prefix. */
  lemma TiersNested(s: real, s': real)
    requires s <= s'
    ensures |RobustPositions(s)| <= |RobustPositions(s')|
    ensures RobustPositions(s) == RobustPositions(s')[..|RobustPositions(s)|]
  {
  }

  /** The tier sizes: 3 below 0.1, 5 below 0.2, 7 from 0.2 on. */
  lemma TierSizes(s: real)
    ensures s < 0.1 ==> |RobustPositions(s)| == 3
    ensures 0.1 <= s < 0.2 ==> |RobustPositions(s)| == 5
    ensures 0.2 <= s ==> |RobustPositions(s)| == 7
  {
  }

  /** Every tier position fits a square block of side 4 or more. */
  lemma TierFits(c: Block, n: nat, s: real, pi: nat)
    requires IsSquare(c, n) && n >= 4 && pi < |RobustPositions(s)|
    ensures Fits(RobustPositions(s)[pi], c)
  {
    assert RobustPositions(s)[pi] == EmbeddingPositions[pi];
  }

  /** `16 * strength`: the quantisation step. */
  function QuantStep(s: real): real {
    16.0 * s
  }

  /**
   * The QIM rule of `_embed_bit_robust` for one coefficient: `q * (2 * round(v / 2q) + 1)` for
   * bit '1', `q * (2 * round(v / 2q))` otherwise.
   */
  function QimEmbed(v: real, bit: char, q: real): real
    requires q != 0.0
  {
    var n := RoundHalfEven(v / (2.0 * q));
    if bit == '1' then q * (2 * n + 1) as real else q * (2 * n) as real
  }

  /** The QIM read of `_extract_bit_robust`: '1' iff `round(v / q) % 2 == 1`. */
  function QimParity(v: real, q: real): char
    requires q != 0.0
  {
    if RoundHalfEven(v / q) % 2 == 1 then '1' else '0'
  }

  lemma QuotientOfMultiple(q: real, m: int)
    requires q != 0.0
    ensures (q * m as real) / q == m as real
  {
  }

  /** Bit '1' lands on an odd and bit '0' on an even multiple of `q`; reading with `q` recovers it. */
  lemma {:induction false} QimRoundTrip(v: real, bit: char, q: real)
    requires q != 0.0 && IsBit(bit)
    ensures QimParity(QimEmbed(v, bit, q), q) == bit
  {
    var n := RoundHalfEven(v / (2.0 * q));
    var m := if bit == '1' then 2 * n + 1 else 2 * n;
    assert QimEmbed(v, bit, q) == q * m as real;
    QuotientOfMultiple(q, m);
    RoundOfInteger(m);
    assert RoundHalfEven((q * m as real) / q) == m;
    assert (m % 2 == 1) == (bit == '1');
  }

  /** `|y| <= b` scales to `|a y| <= a b` for `a >= 0`. */
  lemma ScaleBound(d: real, a: real, y: real, b: real)
    requires a >= 0.0 && -b <= y <= b && d == a * y
    ensures -(a * b) <= d <= a * b
  {
    assert a * (b - y) >= 0.0;
    assert a * (y + b) >= 0.0;
  }

  /** Embedding moves a coefficient by at most `q` for bit '0' and at most `2q` for bit '1'. */
  lemma {:induction false} QimDistortion(v: real, bit: char, q: real)
    requires q > 0.0
    ensures Abs(QimEmbed(v, bit, q) - v) <= if bit == '1' then 2.0 * q else q
  {
    var x := v / (2.0 * q);
    var n := RoundHalfEven(x);
    var m := if bit == '1' then 2 * n + 1 else 2 * n;
    assert v == q * (2.0 * x);
    var y := m as real - 2.0 * x;
    var e := QimEmbed(v, bit, q) - v;
    assert e == q * y;
    ScaleBound(e, q, y, if bit == '1' then 2.0 else 1.0);
  }

  /**
   * `_embed_bit_robust`: when `pi` indexes a position of the strength's tier that fits, that
   * coefficient is set by the QIM rule with step `16 s`; otherwise the block only goes through the
   * transform.
   */
  function EmbedBitRobust(t: Transform, block: Block, bit: char, s: real, pi: nat): Block
    requires s != 0.0
  {
    var c := t.forward(block);
    var ps := RobustPositions(s);
    if pi < |ps| && Fits(ps[pi], c) then
      t.inverse(SetCoeff(c, ps[pi], QimEmbed(Coeff(c, ps[pi]), bit, QuantStep(s))))
    else t.inverse(c)
  }

  /** The fixed detection strength of `_extract_bit_robust`. */
  const DetectionStrength: real := 0.15

  /**
   * `_extract_bit_robust`: the parity with step `16 * 0.15` of the `pi`-th position of the 0.15
   * tier, '0' when `pi` is past that tier or the position does not fit.
   */
  function ExtractBitRobust(t: Transform, block: Block, pi: nat): char {
    ExtractBitRobustAt(t, block, DetectionStrength, pi)
  }

  /** The same read with the tier and the step of strength `s`. */
  function ExtractBitRobustAt(t: Transform, block: Block, s: real, pi: nat): char
    requires s != 0.0
  {
    var c := t.forward(block);
    var ps := RobustPositions(s);
    if pi < |ps| && Fits(ps[pi], c) then QimParity(Coeff(c, ps[pi]), QuantStep(s)) else '0'
  }

  /** A position index past the tier leaves the block's coefficients as they were. */
  lemma RobustPastTierUnmodified(t: Transform, block: Block, bit: char, s: real, pi: nat)
    requires Lossless(t) && s != 0.0 && pi >= |RobustPositions(s)|
    ensures t.forward(EmbedBitRobust(t, block, bit, s, pi)) == t.forward(block)
  {
    assert t.forward(t.inverse(t.forward(block))) == t.forward(block);
  }

  /** A position index past the detection tier always reads '0'. */
  lemma RobustPastTierReadsZero(t: Transform, block: Block, pi: nat)
    requires pi >= |RobustPositions(DetectionStrength)|
    ensures ExtractBitRobust(t, block, pi) == '0'
  {
  }

  /**
   * When the embedding strength and tier are also used to read, every bit written at a fitting
   * position of the tier reads back over a lossless transform.
   */
  lemma RobustReadsBack(t: Transform, block: Block, bit: char, s: real, pi: nat, n: nat)
    requires Lossless(t) && KeepsShape(t, n) && n >= 4 && IsSquare(block, n)
    requires s != 0.0 && IsBit(bit) && pi < |RobustPositions(s)|
    ensures ExtractBitRobustAt(t, EmbedBitRobust(t, block, bit, s, pi), s, pi) == bit
  {
    var c := t.forward(block);
    var p := RobustPositions(s)[pi];
    TierFits(c, n, s, pi);
    var v := QimEmbed(Coeff(c, p), bit, QuantStep(s));
    var c' := SetCoeff(c, p, v);
    assert t.forward(t.inverse(c')) == c';
    QimRoundTrip(Coeff(c, p), bit, QuantStep(s));
  }

  /** At the detection strength itself, positions 0..4 read back; 5 and 6 are always '0'. */
  lemma DetectionStrengthReads(t: Transform, block: Block, bit: char, pi: nat, n: nat)
    requires Lossless(t) && KeepsShape(t, n) && n >= 4 && IsSquare(block, n) && IsBit(bit)
    requires pi < |EmbeddingPositions|
    ensures ExtractBitRobust(t, EmbedBitRobust(t, block, bit, DetectionStrength, pi), pi) ==
      if pi < 5 then bit else '0'
  {
    if pi < 5 {
      RobustReadsBack(t, block, bit, DetectionStrength, pi, n);
    }
  }

  // ---------------------------------------------------------------------------------------
  // `_generate_zigzag_pattern`

  /** Cell `k` of the pattern: row `k / bs`, left to right on even rows, right to left on odd rows. */
  function ZigzagCell(k: nat, bs: nat): Pos
    requires bs > 0
  {
    var i := k / bs;
    var j := k % bs;
    Pos(i, if i % 2 == 0 then j else bs - 1 - j)
  }

  /** `_generate_zigzag_pattern`: rows in order, alternating direction. */
  method GenerateZigzagPattern(bs: nat) returns (pattern: seq<Pos>)
    ensures |pattern| == bs * bs
    ensures bs > 0 ==> forall k | 0 <= k < |pattern| :: pattern[k] == ZigzagCell(k, bs)
  {
    pattern := [];
    var i := 0;
    while i < bs
      invariant 0 <= i <= bs
      invariant |pattern| == i * bs
      invariant ZigzagPrefix(pattern, bs)
    {
      if i % 2 == 0 {
        var j := 0;
        while j < bs
          invariant 0 <= j <= bs
          invariant |pattern| == i * bs + j
          invariant ZigzagPrefix(pattern, bs)
        {
          ZigzagExtend(pattern, bs, i, j);
          pattern := pattern + [Pos(i, j)];
          j := j + 1;
        }
      } else {
        var j := bs - 1;
        while j >= 0
          invariant -1 <= j < bs
          invariant |pattern| == i * bs + (bs - 1 - j)
          invariant ZigzagPrefix(pattern, bs)
        {
          ZigzagExtend(pattern, bs, i, bs - 1 - j);
          pattern := pattern + [Pos(i, j)];
          j := j - 1;
        }
      }
      assert i * bs + bs == (i + 1) * bs;
      i := i + 1;
    }
  }

  /** The pattern built so far lists the first `|pattern|` zigzag cells. */
  ghost predicate ZigzagPrefix(pattern: seq<Pos>, bs: nat) {
    forall k | 0 <= k < |pattern| && bs > 0 :: pattern[k] == ZigzagCell(k, bs)
  }

  /** The next cell appended, the `c`-th visited in row `i`, is the next zigzag cell. */
  lemma ZigzagExtend(pattern: seq<Pos>, bs: nat, i: nat, c: nat)
    requires ZigzagPrefix(pattern, bs) && c < bs && |pattern| == i * bs + c
    ensures ZigzagPrefix(pattern + [Pos(i, if i % 2 == 0 then c else bs - 1 - c)], bs)
  {
    Arith.RowMajorDivMod(i, c, bs);
  }

  /** Every cell of the pattern lies inside the `bs x bs` block. */
  lemma ZigzagInBlock(k: nat, bs: nat)
    requires bs > 0 && k < bs * bs
    ensures ZigzagCell(k, bs).y < bs && ZigzagCell(k, bs).x < bs
  {
    Arith.RowMajorCell(k, bs, bs);
  }

  /** No cell is listed twice. */
  lemma ZigzagDistinct(k: nat, k': nat, bs: nat)
    requires bs > 0 && k < bs * bs && k' < bs * bs && k != k'
    ensures ZigzagCell(k, bs) != ZigzagCell(k', bs)
  {
    Arith.RowMajorCell(k, bs, bs);
    Arith.RowMajorCell(k', bs, bs);
  }

  /** Every cell `(i, j)` of the block is listed, at index `i * bs + j` or `i * bs + (bs - 1 - j)`. */
  lemma ZigzagCovers(i: nat, j: nat, bs: nat)
    requires i < bs && j < bs
    ensures var k := i * bs + (if i % 2 == 0 then j else bs - 1 - j);
      k < bs * bs && ZigzagCell(k, bs) == Pos(i, j)
  {
    var d := if i % 2 == 0 then j else bs - 1 - j;
    Arith.RowMajorDivMod(i, d, bs);
    Arith.RowMajorBound(i, d, bs, bs);
  }
}
