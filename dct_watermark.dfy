/**
 * The frame-level entry points of `DCTWatermark` (watermark/dct_watermark.py): the basic codec
 * (`embed_watermark`, `extract_watermark`) and the enhanced one (`embed_watermark_enhanced`,
 * `_embed_in_channel`, `_extract_from_channel`, `extract_watermark_enhanced`).
 *
 * A plane is edge-padded to whole blocks, cut into a grid of blocks, traversed row-major one
 * bit per block, put back together, cropped and clipped to bytes. The per-block operation is
 * the only part that differs between the codecs.
 */
module DctWatermark {

  import opened Wrappers
  import opened TextBits
  import opened Coefficients
  import opened BlockGrid
  import Counting
  import Arith
  import PyText

  /** A frame: one grey plane, or blue, green and red planes (OpenCV's channel order). */
  datatype Frame = Gray(plane: Image) | Color(blue: Image, green: Image, red: Image)

  predicate IsFrame(f: Frame, h: nat, w: nat) {
    match f
    case Gray(p) => IsImage(p, h, w)
    case Color(b, g, r) => IsImage(b, h, w) && IsImage(g, h, w) && IsImage(r, h, w)
  }

  /** The plane the basic extraction reads: the grey plane, or channel 0 of a colour frame. */
  function FirstPlane(f: Frame): Image {
    match f
    case Gray(p) => p
    case Color(b, _, _) => b
  }

  // ---------------------------------------------------------------------------------------
  // Geometry of one plane

  /** Blocks along a side of `n` samples once it is padded: `padded.shape[k] // block_size`. */
  function BlocksAlong(n: nat, bs: nat): (r: nat)
    requires bs > 0
    ensures r * bs == n + PadAmount(n, bs)
  {
    PaddedBlocks(n, bs);
    (n + PadAmount(n, bs)) / bs
  }

  /** The plane, edge-padded when either side is not a multiple of the block size. */
  function Padded(plane: Image, h: nat, w: nat, bs: nat): (r: Image)
    requires IsImage(plane, h, w) && h > 0 && w > 0 && bs > 0
    ensures IsImage(r, BlocksAlong(h, bs) * bs, BlocksAlong(w, bs) * bs)
  {
    var ph, pw := PadAmount(h, bs), PadAmount(w, bs);
    if ph > 0 || pw > 0 then PadEdge(plane, h, w, ph, pw) else plane
  }

  /** The grid of blocks of the padded plane. */
  function PlaneGrid(plane: Image, h: nat, w: nat, bs: nat): (g: Grid)
    requires IsImage(plane, h, w) && h > 0 && w > 0 && bs > 0
    ensures IsGrid(g, BlocksAlong(h, bs), BlocksAlong(w, bs), bs)
  {
    Tile(Padded(plane, h, w, bs), BlocksAlong(h, bs), BlocksAlong(w, bs), bs)
  }

  /** Blocks of the padded plane: `blocks_h * blocks_w`. */
  function Capacity(h: nat, w: nat, bs: nat): nat
    requires bs > 0
  {
    BlocksAlong(h, bs) * BlocksAlong(w, bs)
  }

  /** The grid put back together, cropped when it was padded, clipped and truncated to bytes. */
  function Finish(g: Grid, h: nat, w: nat, bs: nat): (r: Image)
    requires bs > 0 && IsGrid(g, BlocksAlong(h, bs), BlocksAlong(w, bs), bs)
    ensures IsImage(r, h, w) && IsBytePlane(r)
  {
    var img := Untile(g, BlocksAlong(h, bs), BlocksAlong(w, bs), bs);
    var cropped := if PadAmount(h, bs) > 0 || PadAmount(w, bs) > 0 then Crop(img, h, w) else img;
    ClipPlane(cropped)
  }

  /** The plane after embedding `bits` with the block operation `op`. */
  function EmbeddedPlane(plane: Image, h: nat, w: nat, bs: nat, bits: string, op: (Block, char, nat) -> Block): (r: Image)
    requires IsImage(plane, h, w) && h > 0 && w > 0 && bs > 0 && KeepsSquare(op, bs)
    ensures IsImage(r, h, w) && IsBytePlane(r)
  {
    var g := PlaneGrid(plane, h, w, bs);
    EmbedGridIsGrid(g, BlocksAlong(h, bs), BlocksAlong(w, bs), bs, bits, op);
    Finish(EmbedGrid(g, BlocksAlong(h, bs), BlocksAlong(w, bs), bs, bits, op), h, w, bs)
  }

  /**
   * The part `embed_watermark` and `_embed_in_channel` share: pad, copy into the working grid,
   * embed block by block in place, put back, crop, clip.
   */
  method EmbedPlane(plane: Image, h: nat, w: nat, bs: nat, bits: string, op: (Block, char, nat) -> Block)
    returns (out: Image)
    requires IsImage(plane, h, w) && h > 0 && w > 0 && bs > 0 && KeepsSquare(op, bs)
    ensures IsImage(out, h, w) && IsBytePlane(out)
    ensures out == EmbeddedPlane(plane, h, w, bs, bits, op)
  {
    var rows, cols := BlocksAlong(h, bs), BlocksAlong(w, bs);
    var g := PlaneGrid(plane, h, w, bs);
    var wm := new Block[rows, cols]((i, j) requires 0 <= i < rows && 0 <= j < cols => g[i][j]);
    EmbedBlocks(wm, bits, op);
    var e := GridOf(wm);
    assert e == EmbedGrid(g, rows, cols, bs, bits, op) by {
      forall i | 0 <= i < rows
        ensures e[i] == EmbedGrid(g, rows, cols, bs, bits, op)[i]
      {
      }
    }
    EmbedGridIsGrid(g, rows, cols, bs, bits, op);
    out := Finish(e, h, w, bs);
  }

  /** The bits the extraction loops read from a plane: the first `needed` blocks, one bit each. */
  function PlaneBits(plane: Image, h: nat, w: nat, bs: nat, needed: int, rd: (Block, nat) -> char): (r: string)
    requires IsImage(plane, h, w) && h > 0 && w > 0 && bs > 0
    ensures |r| == Min(if needed < 0 then 0 else needed, Capacity(h, w, bs))
  {
    var n := Min(if needed < 0 then 0 else needed, Capacity(h, w, bs));
    ReadCells(PlaneGrid(plane, h, w, bs), BlocksAlong(h, bs), BlocksAlong(w, bs), n, rd)
  }

  method ReadPlane(plane: Image, h: nat, w: nat, bs: nat, needed: int, rd: (Block, nat) -> char)
    returns (bits: string)
    requires IsImage(plane, h, w) && h > 0 && w > 0 && bs > 0
    ensures bits == PlaneBits(plane, h, w, bs, needed, rd)
  {
    bits := ExtractBlocks(PlaneGrid(plane, h, w, bs), BlocksAlong(h, bs), BlocksAlong(w, bs), bs, needed, rd);
  }

  // ---------------------------------------------------------------------------------------
  // Basic codec

  /** The block operation of `embed_watermark`. */
  function BasicOp(t: Transform, s: real): (Block, char, nat) -> Block {
    (b: Block, c: char, k: nat) => EmbedBitInBlock(t, b, c, s)
  }

  /** The block read of `extract_watermark`. */
  function BasicRead(t: Transform): (Block, nat) -> char {
    (b: Block, k: nat) => ExtractBitFromBlock(t, b)
  }

  lemma BasicOpKeepsSquare(t: Transform, s: real, bs: nat)
    requires KeepsShape(t, bs)
    ensures KeepsSquare(BasicOp(t, s), bs)
  {
  }

  /**
   * `embed_watermark`: a colour frame is reduced to grey by `luma` (`cv2.cvtColor`), the grey
   * plane carries the text's bits, and the result replaces channel 0 of a copy of the frame.
   */
  method EmbedWatermark(t: Transform, bs: nat, luma: (Image, Image, Image) -> Image,
                        frame: Frame, h: nat, w: nat, text: string, s: real)
    returns (out: Frame)
    requires IsFrame(frame, h, w) && h > 0 && w > 0 && bs > 0 && KeepsShape(t, bs)
    requires frame.Color? ==> IsImage(luma(frame.blue, frame.green, frame.red), h, w)
    ensures IsFrame(out, h, w) && out.Color? == frame.Color?
    ensures IsBytePlane(FirstPlane(out))
    ensures var gray := if frame.Color? then luma(frame.blue, frame.green, frame.red) else frame.plane;
      FirstPlane(out) == EmbeddedPlane(gray, h, w, bs, TextToBinary(text), BasicOp(t, s))
    ensures out.Color? ==> out.green == frame.green && out.red == frame.red
  {
    var gray := if frame.Color? then luma(frame.blue, frame.green, frame.red) else frame.plane;
    BasicOpKeepsSquare(t, s, bs);
    var plane := EmbedPlane(gray, h, w, bs, TextToBinary(text), BasicOp(t, s));
    if frame.Color? {
      out := Color(plane, frame.green, frame.red);
    } else {
      out := Gray(plane);
    }
  }

  /**
   * `extract_watermark`: `watermark_length * 8` bits read from channel 0 (or the grey plane),
   * decoded eight at a time; a length of 0 or less reads nothing.
   */
  method ExtractWatermark(t: Transform, bs: nat, frame: Frame, h: nat, w: nat, length: int)
    returns (text: string)
    requires IsFrame(frame, h, w) && h > 0 && w > 0 && bs > 0
    ensures text == DecodeBinary(PlaneBits(FirstPlane(frame), h, w, bs, length * 8, BasicRead(t)))
    ensures length <= 0 ==> text == []
    ensures length > 0 ==> |text| == Min(length * 8, Capacity(h, w, bs)) / 8
    ensures 0 <= length && 8 * length <= Capacity(h, w, bs) ==> |text| == length
  {
    var needed := length * 8;
    assert length <= 0 ==> needed <= 0;
    assert needed / 8 == length;
    var bits := ReadPlane(FirstPlane(frame), h, w, bs, needed, BasicRead(t));
    text := BinaryToText(bits);
    DecodeBinaryLength(bits);
  }

  /** The evidently intended block operation of the basic codec (see `CorrectedEmbedBitInBlock`). */
  function CorrectedBasicOp(t: Transform, s: real): (Block, char, nat) -> Block {
    (b: Block, c: char, k: nat) => CorrectedEmbedBitInBlock(t, b, c, s)
  }

  lemma CorrectedBasicOpReadsBack(t: Transform, s: real, bs: nat)
    requires Lossless(t) && KeepsShape(t, bs) && bs >= 4 && s > 0.0
    ensures KeepsSquare(CorrectedBasicOp(t, s), bs)
    ensures ReadsBack(CorrectedBasicOp(t, s), BasicRead(t), bs)
  {
    forall b: Block, c: char, k: nat | IsSquare(b, bs) && IsBit(c)
      ensures BasicRead(t)(CorrectedBasicOp(t, s)(b, c, k), k) == c
    {
      FirstFitInSquare(t.forward(b), bs);
      CorrectedBasicReadsBack(t, b, c, s);
    }
  }

  /**
   * With the corrected bit rule, the ideal channel (the embedded grid read as it is) returns
   * every Latin-1 text whose bits fit in the grid.
   */
  lemma CorrectedBasicRoundTrip(t: Transform, s: real, g: Grid, rows: nat, cols: nat, bs: nat, text: string)
    requires Lossless(t) && KeepsShape(t, bs) && bs >= 4 && s > 0.0
    requires IsGrid(g, rows, cols, bs) && IsLatin1(text) && 8 * |text| <= rows * cols
    ensures |TextToBinary(text)| == 8 * |text|
    ensures var e := EmbedGrid(g, rows, cols, bs, TextToBinary(text), CorrectedBasicOp(t, s));
      DecodeBinary(ReadCells(e, rows, cols, 8 * |text|, BasicRead(t))) == text
  {
    TextToBinaryLength(text);
    CorrectedBasicOpReadsBack(t, s, bs);
    GridRoundTrip(g, rows, cols, bs, TextToBinary(text), CorrectedBasicOp(t, s), BasicRead(t));
    BinaryRoundTrip(text);
  }

  // ---------------------------------------------------------------------------------------
  // Enhanced codec

  /** The block operation of `_embed_in_channel`: position `bit_index % len(self.embedding_positions)`. */
  function RobustOp(t: Transform, s: real): (Block, char, nat) -> Block
    requires s != 0.0
  {
    (b: Block, c: char, k: nat) => EmbedBitRobust(t, b, c, s, k % |EmbeddingPositions|)
  }

  /** The block read of `_extract_from_channel`, at the same position index. */
  function RobustRead(t: Transform): (Block, nat) -> char {
    (b: Block, k: nat) => ExtractBitRobust(t, b, k % |EmbeddingPositions|)
  }

  lemma RobustOpKeepsSquare(t: Transform, s: real, bs: nat)
    requires s != 0.0 && KeepsShape(t, bs)
    ensures KeepsSquare(RobustOp(t, s), bs)
  {
  }

  /** `_embed_in_channel`: the text's bits, each repeated `redundancy` times, embedded by QIM. */
  method EmbedInChannel(t: Transform, bs: nat, plane: Image, h: nat, w: nat, text: string, s: real, redundancy: int)
    returns (out: Image)
    requires IsImage(plane, h, w) && h > 0 && w > 0 && bs > 0 && KeepsShape(t, bs) && s != 0.0
    ensures IsImage(out, h, w) && IsBytePlane(out)
    ensures out == EmbeddedPlane(plane, h, w, bs, Expand(TextToBinary(text), redundancy), RobustOp(t, s))
  {
    var binary := TextToBinary(text);
    var redundant := Expand(binary, redundancy);
    RobustOpKeepsSquare(t, s, bs);
    out := EmbedPlane(plane, h, w, bs, redundant, RobustOp(t, s));
  }

  /** `embed_watermark_enhanced`: every channel of a colour frame carries the text independently. */
  method EmbedWatermarkEnhanced(t: Transform, bs: nat, frame: Frame, h: nat, w: nat, text: string, s: real, redundancy: int)
    returns (out: Frame)
    requires IsFrame(frame, h, w) && h > 0 && w > 0 && bs > 0 && KeepsShape(t, bs) && s != 0.0
    ensures IsFrame(out, h, w) && out.Color? == frame.Color?
    ensures var bits := Expand(TextToBinary(text), redundancy);
      match frame
      case Gray(p) => out.plane == EmbeddedPlane(p, h, w, bs, bits, RobustOp(t, s))
      case Color(b, g, r) =>
        out.blue == EmbeddedPlane(b, h, w, bs, bits, RobustOp(t, s)) &&
        out.green == EmbeddedPlane(g, h, w, bs, bits, RobustOp(t, s)) &&
        out.red == EmbeddedPlane(r, h, w, bs, bits, RobustOp(t, s))
  {
    match frame
    case Gray(p) =>
      var plane := EmbedInChannel(t, bs, p, h, w, text, s, redundancy);
      out := Gray(plane);
    case Color(b, g, r) =>
      var blue := EmbedInChannel(t, bs, b, h, w, text, s, redundancy);
      var green := EmbedInChannel(t, bs, g, h, w, text, s, redundancy);
      var red := EmbedInChannel(t, bs, r, h, w, text, s, redundancy);
      out := Color(blue, green, red);
  }

  /**
   * What `_extract_from_channel` decodes: `watermark_length * 8 * redundancy` raw bits, majority
   * voted in groups of `redundancy` when voting is on and `redundancy > 1`, otherwise the first
   * `watermark_length * 8` of them.
   */
  function ChannelBinary(raw: string, length: int, redundancy: int, voting: bool): (r: string)
    requires IsBinary(raw)
    ensures IsBinary(r)
  {
    if voting && redundancy > 1 then
      var v := Vote(raw, redundancy);
      assert IsBinary(v) by { VoteBinary(raw, redundancy); }
      v
    else
      var p := PyText.PyPrefix(raw, length * 8);
      assert forall i | 0 <= i < |p| :: p[i] == raw[i];
      p
  }

  lemma {:induction false} VoteBinary(bits: string, r: nat)
    requires r > 1
    ensures IsBinary(Vote(bits, r))
    decreases |bits|
  {
    if |bits| > r {
      VoteBinary(bits[r..], r);
    }
  }

  lemma {:induction false} RobustReadBinary(raw: string, plane: Image, h: nat, w: nat, bs: nat, needed: int, t: Transform)
    requires IsImage(plane, h, w) && h > 0 && w > 0 && bs > 0
    requires raw == PlaneBits(plane, h, w, bs, needed, RobustRead(t))
    ensures IsBinary(raw)
  {
  }

  /** The text `_extract_from_channel` returns for a plane. */
  function ChannelText(t: Transform, bs: nat, plane: Image, h: nat, w: nat, length: int, redundancy: int, voting: bool): string
    requires IsImage(plane, h, w) && h > 0 && w > 0 && bs > 0
  {
    var raw := PlaneBits(plane, h, w, bs, length * 8 * redundancy, RobustRead(t));
    RobustReadBinary(raw, plane, h, w, bs, length * 8 * redundancy, t);
    DecodeBinary(ChannelBinary(raw, length, redundancy, voting))
  }

  /** `_extract_from_channel`. */
  method ExtractFromChannel(t: Transform, bs: nat, plane: Image, h: nat, w: nat, length: int, redundancy: int, voting: bool)
    returns (text: string)
    requires IsImage(plane, h, w) && h > 0 && w > 0 && bs > 0
    ensures text == ChannelText(t, bs, plane, h, w, length, redundancy, voting)
  {
    var raw := ReadPlane(plane, h, w, bs, length * 8 * redundancy, RobustRead(t));
    RobustReadBinary(raw, plane, h, w, bs, length * 8 * redundancy, t);
    var binary;
    if voting && redundancy > 1 {
      binary := MajorityVote(raw, redundancy);
      VoteBinary(raw, redundancy);
    } else {
      binary := PyText.PyPrefix(raw, length * 8);
    }
    text := BinaryToText(binary);
  }

  /** With room for every copy of every bit, `_extract_from_channel` returns exactly `length` characters. */
  lemma ChannelTextLength(t: Transform, bs: nat, plane: Image, h: nat, w: nat, length: nat, redundancy: int, voting: bool)
    requires IsImage(plane, h, w) && h > 0 && w > 0 && bs > 0 && redundancy > 0
    requires length * 8 * redundancy <= Capacity(h, w, bs)
    ensures |ChannelText(t, bs, plane, h, w, length, redundancy, voting)| == length
  {
    var raw := PlaneBits(plane, h, w, bs, length * 8 * redundancy, RobustRead(t));
    RobustReadBinary(raw, plane, h, w, bs, length * 8 * redundancy, t);
    assert |raw| == length * 8 * redundancy;
    ChannelBinaryLength(raw, length, redundancy, voting);
    DecodeBinaryLength(ChannelBinary(raw, length, redundancy, voting));
  }

  /**
   * A length of 0 or less asks for no bits (with a non-negative redundancy), so the channel reads
   * nothing and its text is empty, voted or not.
   */
  lemma ChannelTextNonPositive(t: Transform, bs: nat, plane: Image, h: nat, w: nat, length: int, redundancy: int, voting: bool)
    requires IsImage(plane, h, w) && h > 0 && w > 0 && bs > 0
    requires length <= 0 && redundancy >= 0
    ensures ChannelText(t, bs, plane, h, w, length, redundancy, voting) == []
  {
    var needed := length * 8 * redundancy;
    assert needed <= 0 by { assert (-length * 8) * redundancy >= 0; }
    var raw := PlaneBits(plane, h, w, bs, needed, RobustRead(t));
    RobustReadBinary(raw, plane, h, w, bs, needed, t);
    assert raw == [];
  }

  /** Voted or cut, the bits read for `length` characters at `redundancy` copies are `length * 8` bits. */
  lemma ChannelBinaryLength(raw: string, length: nat, redundancy: int, voting: bool)
    requires IsBinary(raw) && redundancy > 0 && |raw| == length * 8 * redundancy
    ensures |ChannelBinary(raw, length, redundancy, voting)| == length * 8
  {
    if voting && redundancy > 1 {
      VoteLength(raw, redundancy);
      assert |raw| + redundancy - 1 == (length * 8) * redundancy + (redundancy - 1);
      Arith.RowMajorDivMod(length * 8, redundancy - 1, redundancy);
    } else {
      assert |raw| >= length * 8 by {
        Arith.MulSign(length * 8 + 1, redundancy);
      }
    }
  }

  /** Texts of the three channels, in channel order, without the empty ones (`if text:`). */
  function NonEmpty(texts: seq<string>): (r: seq<string>)
    ensures |r| <= |texts|
  {
    if texts == [] then []
    else (if texts[0] != [] then [texts[0]] else []) + NonEmpty(texts[1..])
  }

  /** The kept texts are exactly the non-empty ones. */
  lemma {:induction false} NonEmptyMembers(texts: seq<string>)
    ensures forall x | x in NonEmpty(texts) :: x != [] && x in texts
    ensures forall x | x in texts && x != [] :: x in NonEmpty(texts)
  {
    if texts != [] {
      NonEmptyMembers(texts[1..]);
      assert texts == [texts[0]] + texts[1..];
    }
  }

  /**
   * `extract_watermark_enhanced`: a grey frame gives its plane's text; a colour frame gives the
   * most common of its channels' non-empty texts, or nothing when all three are empty.
   */
  method ExtractWatermarkEnhanced(t: Transform, bs: nat, frame: Frame, h: nat, w: nat, length: int, redundancy: int, voting: bool)
    returns (result: Option<string>)
    requires IsFrame(frame, h, w) && h > 0 && w > 0 && bs > 0
    ensures frame.Gray? ==> result == Some(ChannelText(t, bs, frame.plane, h, w, length, redundancy, voting))
    ensures frame.Color? ==>
      var texts := NonEmpty(ChannelTexts(t, bs, [frame.blue, frame.green, frame.red], h, w, length, redundancy, voting));
      result == if texts == [] then None else Some(Counting.MostCommon(texts))
  {
    match frame
    case Gray(p) =>
      var text := ExtractFromChannel(t, bs, p, h, w, length, redundancy, voting);
      result := Some(text);
    case Color(b, g, r) =>
      var extracted := ReadChannels(t, bs, [b, g, r], h, w, length, redundancy, voting);
      if extracted != [] {
        result := Some(Counting.MostCommon(extracted));
      } else {
        result := None;
      }
  }

  /** The channel loop of `extract_watermark_enhanced`: each plane's text, keeping the non-empty ones. */
  method ReadChannels(t: Transform, bs: nat, planes: seq<Image>, h: nat, w: nat, length: int, redundancy: int, voting: bool)
    returns (extracted: seq<string>)
    requires h > 0 && w > 0 && bs > 0 && forall c | 0 <= c < |planes| :: IsImage(planes[c], h, w)
    ensures extracted == NonEmpty(ChannelTexts(t, bs, planes, h, w, length, redundancy, voting))
  {
    extracted := [];
    var channel := 0;
    while channel < |planes|
      invariant 0 <= channel <= |planes|
      invariant extracted + NonEmpty(ChannelTexts(t, bs, planes[channel..], h, w, length, redundancy, voting))
             == NonEmpty(ChannelTexts(t, bs, planes, h, w, length, redundancy, voting))
    {
      var text := ExtractFromChannel(t, bs, planes[channel], h, w, length, redundancy, voting);
      ChannelTextsStep(t, bs, planes, h, w, length, redundancy, voting, channel);
      // `if text:` appends the text; an empty one adds nothing
      var kept := if text != [] then [text] else [];
      Arith.AppendAssociative(extracted, kept, NonEmpty(ChannelTexts(t, bs, planes[channel + 1..], h, w, length, redundancy, voting)));
      extracted := extracted + kept;
      channel := channel + 1;
    }
  }

  /** The texts of the planes, in order. */
  function ChannelTexts(t: Transform, bs: nat, planes: seq<Image>, h: nat, w: nat, length: int, redundancy: int, voting: bool): (r: seq<string>)
    requires h > 0 && w > 0 && bs > 0 && forall c | 0 <= c < |planes| :: IsImage(planes[c], h, w)
    ensures |r| == |planes|
  {
    if planes == [] then []
    else [ChannelText(t, bs, planes[0], h, w, length, redundancy, voting)] + ChannelTexts(t, bs, planes[1..], h, w, length, redundancy, voting)
  }

  /** Reading plane `c` moves its text, if non-empty, from what is left to what is kept. */
  lemma ChannelTextsStep(t: Transform, bs: nat, planes: seq<Image>, h: nat, w: nat, length: int, redundancy: int, voting: bool, c: nat)
    requires h > 0 && w > 0 && bs > 0 && forall i | 0 <= i < |planes| :: IsImage(planes[i], h, w)
    requires c < |planes|
    ensures var text := ChannelText(t, bs, planes[c], h, w, length, redundancy, voting);
      NonEmpty(ChannelTexts(t, bs, planes[c..], h, w, length, redundancy, voting))
      == (if text != [] then [text] else []) + NonEmpty(ChannelTexts(t, bs, planes[c + 1..], h, w, length, redundancy, voting))
  {
    var rest := planes[c..];
    assert rest[0] == planes[c] && rest[1..] == planes[c + 1..];
  }

  /** When two or three channels agree on a text, that text is the one returned. */
  lemma ChannelMajorityWins(texts: seq<string>, x: string)
    requires 2 * Counting.Count(texts, x) > |texts|
    ensures texts != [] && Counting.MostCommon(texts) == x
  {
    Counting.MajorityIsMostCommon(texts, x);
  }

  // ---------------------------------------------------------------------------------------
  // The enhanced codec over an ideal channel

  /**
   * What the raw reads of `_extract_from_channel` are, over a lossless transform at the
   * detection strength 0.15, for bits embedded at strength 0.15: position indices 5 and 6
   * (`bit_index % 7`) are past the five-position tier and read '0'.
   */
  function MaskedPositions(bits: string): (r: string)
    ensures |r| == |bits|
  {
    seq(|bits|, k requires 0 <= k < |bits| => if k % |EmbeddingPositions| < 5 then bits[k] else '0')
  }

  /** As written: at strength 0.15, the ideal channel returns the masked bits, not the embedded ones. */
  lemma EnhancedReadsMasked(t: Transform, g: Grid, rows: nat, cols: nat, bs: nat, bits: string)
    requires Lossless(t) && KeepsShape(t, bs) && bs >= 4
    requires IsGrid(g, rows, cols, bs) && IsBinary(bits) && |bits| <= rows * cols
    ensures var e := EmbedGrid(g, rows, cols, bs, bits, RobustOp(t, DetectionStrength));
      ReadCells(e, rows, cols, |bits|, RobustRead(t)) == MaskedPositions(bits)
  {
    var op := RobustOp(t, DetectionStrength);
    RobustOpKeepsSquare(t, DetectionStrength, bs);
    EmbedGridIsGrid(g, rows, cols, bs, bits, op);
    var e := EmbedGrid(g, rows, cols, bs, bits, op);
    var r := ReadCells(e, rows, cols, |bits|, RobustRead(t));
    forall k | 0 <= k < |bits|
      ensures r[k] == MaskedPositions(bits)[k]
    {
      EnhancedReadsMaskedAt(t, g, rows, cols, bs, bits, k);
    }
  }

  /** Block `k` of the ideal channel at strength 0.15 reads back the masked bit `k`. */
  lemma EnhancedReadsMaskedAt(t: Transform, g: Grid, rows: nat, cols: nat, bs: nat, bits: string, k: nat)
    requires Lossless(t) && KeepsShape(t, bs) && bs >= 4
    requires IsGrid(g, rows, cols, bs) && IsBinary(bits) && k < |bits| <= rows * cols
    ensures var e := EmbedGrid(g, rows, cols, bs, bits, RobustOp(t, DetectionStrength));
      RobustRead(t)(CellAt(e, rows, cols, k), k) == MaskedPositions(bits)[k]
  {
    var op := RobustOp(t, DetectionStrength);
    EmbedGridAt(g, rows, cols, bs, bits, op, k);
    Arith.RowMajorCell(k, rows, cols);
    var b := CellAt(g, rows, cols, k);
    assert IsSquare(b, bs);
    DetectionStrengthReads(t, b, bits[k], k % |EmbeddingPositions|, bs);
  }

  /** Ones of a group of three. */
  lemma OnesOfThree(g: string)
    requires |g| == 3
    ensures Ones(g) == (if g[0] == '1' then 1 else 0) + (if g[1] == '1' then 1 else 0) + (if g[2] == '1' then 1 else 0)
  {
    var a, b := g[..1], g[..2];
    assert b[..1] == a && a[..0] == [];
    assert Ones(a) == (if g[0] == '1' then 1 else 0);
    assert Ones(b) == Ones(a) + (if g[1] == '1' then 1 else 0);
    assert g[..|g| - 1] == b;
  }

  /**
   * As written, with three copies per bit at the detection strength, bit 6 of the first
   * character is lost: its copies are raw bits 18, 19 and 20, at position indices 4, 5 and 6,
   * and the last two read '0', so a '1' there is voted down to '0'.
   */
  lemma EnhancedLosesBitSix(bits: string)
    requires IsBinary(bits) && |bits| >= 7 && bits[6] == '1'
    ensures var voted := Vote(MaskedPositions(Expand(bits, 3)), 3);
      6 < |voted| && voted[6] == '0' && voted[6] != bits[6]
  {
    var e := Expand(bits, 3);
    ExpandAt(bits, 3, 6, 0);
    var m := MaskedPositions(e);
    VoteAt(m, 3, 6, 18);
    assert |m| == 3 * |bits|;
    assert m[18] == e[18] by { assert 18 % |EmbeddingPositions| == 4; }
    assert m[19] == '0' by { assert 19 % |EmbeddingPositions| == 5; }
    assert m[20] == '0' by { assert 20 % |EmbeddingPositions| == 6; }
    var g := m[18..21];
    assert g[0] == '1' && g[1] == '0' && g[2] == '0';
    OnesOfThree(g);
  }

  /** 'B' (0x42, 01000010) has bit 6 set, so sent with three copies per bit it does not come back. */
  lemma EnhancedExampleB()
    ensures var bits := TextToBinary("B");
      var voted := Vote(MaskedPositions(Expand(bits, 3)), 3);
      |bits| == 8 && bits[6] == '1' && 6 < |voted| && voted[6] == '0'
  {
    var bits := TextToBinary("B");
    assert bits == "01000010" by {
      assert "B"[1..] == [];
      Format08bIsFixedBits(66);
      FixedBitsOfB();
    }
    EnhancedLosesBitSix(bits);
  }

  /** 'B' is 66, whose eight-bit form is "01000010". */
  lemma FixedBitsOfB()
    ensures FixedBits(66, 8) == "01000010"
  {
    assert FixedBits(0, 1) == "0";
    assert FixedBits(1, 2) == "01";
    assert FixedBits(2, 3) == "010";
    assert FixedBits(4, 4) == "0100";
    assert FixedBits(8, 5) == "01000";
    assert FixedBits(16, 6) == "010000";
    assert FixedBits(33, 7) == "0100001";
  }

  /** The evidently intended read: the embedding strength's tier and step, cycling over that tier. */
  function CorrectedRobustOp(t: Transform, s: real): (Block, char, nat) -> Block
    requires s != 0.0
  {
    (b: Block, c: char, k: nat) => EmbedBitRobust(t, b, c, s, k % |RobustPositions(s)|)
  }

  function CorrectedRobustRead(t: Transform, s: real): (Block, nat) -> char
    requires s != 0.0
  {
    (b: Block, k: nat) => ExtractBitRobustAt(t, b, s, k % |RobustPositions(s)|)
  }

  lemma CorrectedRobustReadsBack(t: Transform, s: real, bs: nat)
    requires Lossless(t) && KeepsShape(t, bs) && bs >= 4 && s != 0.0
    ensures KeepsSquare(CorrectedRobustOp(t, s), bs)
    ensures ReadsBack(CorrectedRobustOp(t, s), CorrectedRobustRead(t, s), bs)
  {
    forall b: Block, c: char, k: nat | IsSquare(b, bs) && IsBit(c)
      ensures CorrectedRobustRead(t, s)(CorrectedRobustOp(t, s)(b, c, k), k) == c
    {
      RobustReadsBack(t, b, c, s, k % |RobustPositions(s)|, bs);
    }
  }

  /**
   * With the corrected read, the ideal channel returns every Latin-1 text whose redundant bits
   * fit, for every strength and every redundancy above one.
   */
  lemma CorrectedEnhancedRoundTrip(t: Transform, s: real, g: Grid, rows: nat, cols: nat, bs: nat, text: string, redundancy: nat)
    requires Lossless(t) && KeepsShape(t, bs) && bs >= 4 && s != 0.0 && redundancy > 1
    requires IsGrid(g, rows, cols, bs) && IsLatin1(text) && redundancy * (8 * |text|) <= rows * cols
    ensures var bits := Expand(TextToBinary(text), redundancy);
      |bits| == redundancy * (8 * |text|) &&
      var e := EmbedGrid(g, rows, cols, bs, bits, CorrectedRobustOp(t, s));
      var voted := Vote(ReadCells(e, rows, cols, |bits|, CorrectedRobustRead(t, s)), redundancy);
      voted == TextToBinary(text) && DecodeBinary(voted) == text
  {
    var binary := TextToBinary(text);
    TextToBinaryLength(text);
    var bits := Expand(binary, redundancy);
    ExpandLength(binary, redundancy);
    ExpandBinary(binary, redundancy);
    assert |bits| == redundancy * (8 * |text|);
    CorrectedGridReadsBack(t, s, g, rows, cols, bs, bits);
    var e := EmbedGrid(g, rows, cols, bs, bits, CorrectedRobustOp(t, s));
    var raw := ReadCells(e, rows, cols, |bits|, CorrectedRobustRead(t, s));
    assert raw == bits;
    VoteUndoesExpand(binary, redundancy);
    assert Vote(raw, redundancy) == binary;
    BinaryRoundTrip(text);
  }

  /** Over a lossless transform, the corrected read returns every bit string that fits the grid. */
  lemma CorrectedGridReadsBack(t: Transform, s: real, g: Grid, rows: nat, cols: nat, bs: nat, bits: string)
    requires Lossless(t) && KeepsShape(t, bs) && bs >= 4 && s != 0.0
    requires IsGrid(g, rows, cols, bs) && IsBinary(bits) && |bits| <= rows * cols
    ensures ReadCells(EmbedGrid(g, rows, cols, bs, bits, CorrectedRobustOp(t, s)), rows, cols, |bits|, CorrectedRobustRead(t, s)) == bits
  {
    CorrectedRobustReadsBack(t, s, bs);
    GridRoundTrip(g, rows, cols, bs, bits, CorrectedRobustOp(t, s), CorrectedRobustRead(t, s));
  }
}
