/**
 * Bit-level plumbing of the DCT watermark codec (watermark/dct_watermark.py): text to bit
 * string and back, redundancy expansion and per-group majority voting.
 *
 * As in the source, a bit string is a string over the characters '0' and '1'.
 */
module TextBits {

  import Arith

  predicate IsBit(c: char) {
    c == '0' || c == '1'
  }

  predicate IsBinary(s: string) {
    forall i | 0 <= i < |s| :: IsBit(s[i])
  }

  /** Every character of `t` is a code point below 256 (one byte). */
  predicate IsLatin1(t: string) {
    forall i | 0 <= i < |t| :: t[i] as int < 256
  }

  function Digit(b: nat): char
    requires b < 2
  {
    if b == 0 then '0' else '1'
  }

  function Pow2(n: nat): (r: nat)
    ensures r >= 1
  {
    if n == 0 then 1 else 2 * Pow2(n - 1)
  }

  function Zeros(k: nat): (r: string)
    ensures |r| == k && IsBinary(r)
  {
    seq(k, _ => '0')
  }

  /** Python's `bin(n)` without its "0b" prefix: the shortest numeral, "0" for zero. */
  function BinDigits(n: nat): (r: string)
    ensures 1 <= |r| && IsBinary(r)
    decreases n
  {
    if n < 2 then [Digit(n)] else BinDigits(n / 2) + [Digit(n % 2)]
  }

  /** Python's `format(n, '08b')`: `bin(n)` left-padded with '0' to at least eight digits. */
  function Format08b(n: nat): string {
    var d := BinDigits(n);
    if |d| < 8 then Zeros(8 - |d|) + d else d
  }

  /** `n` written with exactly `width` binary digits, most significant first. */
  function FixedBits(n: nat, width: nat): (r: string)
    ensures |r| == width && IsBinary(r)
  {
    if width == 0 then [] else FixedBits(n / 2, width - 1) + [Digit(n % 2)]
  }

  /** Python's `int(s, 2)` on a string of binary digits: the first digit is the most significant. */
  function BitsValue(s: string): (v: nat)
    requires IsBinary(s)
    ensures v < Pow2(|s|)
  {
    if s == [] then 0
    else 2 * BitsValue(s[..|s| - 1]) + (if s[|s| - 1] == '1' then 1 else 0)
  }

  /** `_text_to_binary`: the `format(ord(c), '08b')` numerals of the characters, concatenated. */
  function TextToBinary(text: string): (r: string)
    ensures IsBinary(r)
  {
    if text == [] then [] else Format08b(text[0] as nat) + TextToBinary(text[1..])
  }

  /**
   * What `_binary_to_text` computes: one character `chr(int(group, 2))` per complete group of
   * eight bits; a trailing group shorter than eight bits is dropped.
   */
  function DecodeBinary(bits: string): (text: string)
    requires IsBinary(bits)
    decreases |bits|
  {
    if |bits| < 8 then []
    else
      assert BitsValue(bits[..8]) < 256 by { assert Pow2(8) == 256; }
      [BitsValue(bits[..8]) as char] + DecodeBinary(bits[8..])
  }

  /** `_binary_to_text`: the loop over eight-bit groups appending to `text`. */
  method BinaryToText(binary: string) returns (text: string)
    requires IsBinary(binary)
    ensures text == DecodeBinary(binary)
  {
    text := "";
    var i := 0;
    while i < |binary|
      invariant i <= |binary| ==> text + DecodeBinary(binary[i..]) == DecodeBinary(binary)
      invariant i > |binary| ==> text == DecodeBinary(binary)
      decreases |binary| - i
    {
      var byte := binary[i..if i + 8 <= |binary| then i + 8 else |binary|];
      if |byte| == 8 {
        assert binary[i..][..8] == byte && binary[i..][8..] == binary[i + 8..];
        assert BitsValue(byte) < 256 by { assert Pow2(8) == 256; }
        text := text + [BitsValue(byte) as char];
      }
      i := i + 8;
    }
  }

  // ---------------------------------------------------------------------------------------
  // Properties of the conversions

  lemma {:induction false} FixedBitsOfZero(w: nat)
    ensures FixedBits(0, w) == Zeros(w)
  {
    if w > 0 {
      FixedBitsOfZero(w - 1);
      assert FixedBits(0, w) == Zeros(w - 1) + ['0'];
    }
  }

  /** A numeral below `2^w` has at most `w` digits. */
  lemma {:induction false} BinDigitsShort(n: nat, w: nat)
    requires 1 <= w && n < Pow2(w)
    ensures |BinDigits(n)| <= w
    decreases w
  {
    if n >= 2 {
      BinDigitsShort(n / 2, w - 1);
    }
  }

  /** A numeral of at least `2^k` has more than `k` digits. */
  lemma {:induction false} BinDigitsLong(n: nat, k: nat)
    requires n >= Pow2(k)
    ensures |BinDigits(n)| > k
    decreases k
  {
    if k > 0 {
      BinDigitsLong(n / 2, k - 1);
    }
  }

  lemma {:induction false} PaddedNumeral(n: nat, w: nat)
    requires 1 <= w && n < Pow2(w)
    ensures |BinDigits(n)| <= w
    ensures Zeros(w - |BinDigits(n)|) + BinDigits(n) == FixedBits(n, w)
    decreases w
  {
    BinDigitsShort(n, w);
    if n < 2 {
      FixedBitsOfZero(w - 1);
      assert FixedBits(n, w) == FixedBits(0, w - 1) + [Digit(n)];
    } else {
      PaddedNumeral(n / 2, w - 1);
      var d := BinDigits(n / 2);
      assert Zeros(w - |BinDigits(n)|) == Zeros(w - 1 - |d|);
      assert Zeros(w - 1 - |d|) + (d + [Digit(n % 2)]) == (Zeros(w - 1 - |d|) + d) + [Digit(n % 2)];
    }
  }

  /** For a byte value, `format(n, '08b')` is exactly eight digits, most significant first. */
  lemma Format08bIsFixedBits(n: nat)
    requires n < 256
    ensures Format08b(n) == FixedBits(n, 8)
  {
    assert Pow2(8) == 256;
    PaddedNumeral(n, 8);
    if |BinDigits(n)| == 8 {
      assert Zeros(0) + BinDigits(n) == BinDigits(n);
    }
  }

  /** A code point of 256 or more gives more than eight digits, so the text's bits misalign. */
  lemma WideCharTakesMoreThanEightBits(c: char)
    requires c as int >= 256
    ensures |Format08b(c as nat)| > 8
  {
    assert Pow2(8) == 256;
    BinDigitsLong(c as nat, 8);
  }

  /** Reading a fixed-width numeral back with `int(_, 2)` gives the number. */
  lemma {:induction false} FixedBitsValue(n: nat, w: nat)
    requires n < Pow2(w)
    ensures BitsValue(FixedBits(n, w)) == n
    decreases w
  {
    if w > 0 {
      FixedBitsValue(n / 2, w - 1);
      var f := FixedBits(n, w);
      assert f[..|f| - 1] == FixedBits(n / 2, w - 1);
    }
  }

  /** `_text_to_binary` emits exactly eight bits per character of a Latin-1 text. */
  lemma {:induction false} TextToBinaryLength(t: string)
    requires IsLatin1(t)
    ensures |TextToBinary(t)| == 8 * |t|
  {
    if t != [] {
      Format08bIsFixedBits(t[0] as nat);
      TextToBinaryLength(t[1..]);
    }
  }

  /** Character `k` of a Latin-1 text occupies bits `8k .. 8k+8`, most significant bit first. */
  lemma TextToBinaryGroup(t: string, k: nat)
    requires IsLatin1(t) && k < |t|
    ensures |TextToBinary(t)| == 8 * |t|
    ensures TextToBinary(t)[8 * k..8 * k + 8] == FixedBits(t[k] as nat, 8)
    ensures BitsValue(TextToBinary(t)[8 * k..8 * k + 8]) == t[k] as int
  {
    TextToBinaryLength(t);
    GroupIsNumeral(t, k);
    assert Pow2(8) == 256;
    FixedBitsValue(t[k] as nat, 8);
  }

  /** The induction behind `TextToBinaryGroup`: group `k` is the fixed eight-bit numeral of `t[k]`. */
  lemma {:induction false} GroupIsNumeral(t: string, k: nat)
    requires IsLatin1(t) && k < |t|
    ensures 8 * k + 8 <= |TextToBinary(t)|
    ensures TextToBinary(t)[8 * k..8 * k + 8] == FixedBits(t[k] as nat, 8)
    decreases k
  {
    TextToBinaryLength(t);
    Format08bIsFixedBits(t[0] as nat);
    var head, rest := FixedBits(t[0] as nat, 8), TextToBinary(t[1..]);
    assert TextToBinary(t) == head + rest;
    if k > 0 {
      GroupIsNumeral(t[1..], k - 1);
      assert t[1..][k - 1] == t[k];
      GroupAfterHead(head, rest, k);
    } else {
      assert (head + rest)[0..8] == head;
    }
  }

  /** Group `k` of `head + rest`, for an eight-bit `head`, is group `k - 1` of `rest`. */
  lemma GroupAfterHead(head: string, rest: string, k: nat)
    requires |head| == 8 && 0 < k && 8 * k <= |rest|
    ensures (head + rest)[8 * k..8 * k + 8] == rest[8 * (k - 1)..8 * (k - 1) + 8]
  {
    var s := 8 * k;
    assert s - 8 == 8 * (k - 1);
    assert (head + rest)[s..s + 8] == rest[s - 8..s];
  }

  /** `_binary_to_text` yields one character per complete group of eight bits. */
  lemma {:induction false} DecodeBinaryLength(bits: string)
    requires IsBinary(bits)
    ensures |DecodeBinary(bits)| == |bits| / 8
    decreases |bits|
  {
    if |bits| >= 8 {
      DecodeBinaryLength(bits[8..]);
    }
  }

  /** `_binary_to_text(_text_to_binary(t)) == t` for every Latin-1 text. */
  lemma {:induction false} BinaryRoundTrip(t: string)
    requires IsLatin1(t)
    ensures DecodeBinary(TextToBinary(t)) == t
  {
    if t != [] {
      var head := Format08b(t[0] as nat);
      Format08bIsFixedBits(t[0] as nat);
      var bits := TextToBinary(t);
      TextToBinaryLength(t);
      assert bits[..8] == head && bits[8..] == TextToBinary(t[1..]);
      FixedBitsValue(t[0] as nat, 8) by { assert Pow2(8) == 256; }
      BinaryRoundTrip(t[1..]);
      assert DecodeBinary(bits) == [t[0]] + t[1..];
    }
  }

  // ---------------------------------------------------------------------------------------
  // Redundancy and majority voting (`_embed_in_channel`, `_extract_from_channel`)

  /** Python's `bit * r`: the character repeated `r` times, empty when `r <= 0`. */
  function Repeat(c: char, r: int): (s: string)
    ensures |s| == (if r > 0 then r else 0)
    ensures forall i | 0 <= i < |s| :: s[i] == c
  {
    if r <= 0 then [] else [c] + Repeat(c, r - 1)
  }

  /** `''.join(bit * redundancy for bit in bits)`. */
  function Expand(bits: string, r: int): string {
    if bits == [] then [] else Repeat(bits[0], r) + Expand(bits[1..], r)
  }

  /** Number of '1' characters. */
  function Ones(g: string): nat {
    if g == [] then 0 else Ones(g[..|g| - 1]) + (if g[|g| - 1] == '1' then 1 else 0)
  }

  /** The voted bit of one group: '1' iff `ones > len(group) / 2`. */
  function MajorityBit(g: string): char {
    if 2 * Ones(g) > |g| then '1' else '0'
  }

  /** What the voting loop computes: one majority bit per group of `r` consecutive bits. */
  function Vote(bits: string, r: nat): string
    requires r > 1
    decreases |bits|
  {
    if bits == [] then []
    else if |bits| <= r then [MajorityBit(bits)]
    else [MajorityBit(bits[..r])] + Vote(bits[r..], r)
  }

  /** The voting loop of `_extract_from_channel`, appending to `corrected_bits`. */
  method MajorityVote(extracted: string, r: nat) returns (corrected: string)
    requires r > 1
    ensures corrected == Vote(extracted, r)
  {
    corrected := "";
    var i := 0;
    while i < |extracted|
      invariant i <= |extracted| ==> corrected + Vote(extracted[i..], r) == Vote(extracted, r)
      invariant i > |extracted| ==> corrected == Vote(extracted, r)
      decreases |extracted| - i
    {
      var n := if i + r <= |extracted| then r else |extracted| - i;
      var group := extracted[i..i + n];
      var ones := Ones(group);
      VoteGroup(extracted, r, i, n, corrected);
      assert group == extracted[i..i + n];
      corrected := corrected + [if 2 * ones > |group| then '1' else '0'];
      i := i + r;
    }
  }

  /** One pass of the voting loop: the group at `i` contributes its majority bit. */
  lemma VoteGroup(bits: string, r: nat, i: nat, n: nat, before: string)
    requires r > 1 && i < |bits| && n == (if i + r <= |bits| then r else |bits| - i)
    requires before + Vote(bits[i..], r) == Vote(bits, r)
    ensures var after := before + [MajorityBit(bits[i..i + n])];
      (i + r <= |bits| ==> after + Vote(bits[i + r..], r) == Vote(bits, r)) &&
      (i + r > |bits| ==> after == Vote(bits, r))
  {
    if i + r > |bits| {
      assert bits[i..i + n] == bits[i..];
      VoteLastGroup(bits, r, i, before);
    } else {
      VoteFullGroup(bits, r, i, before);
    }
  }

  /** The short group at the end contributes the last voted bit. */
  lemma VoteLastGroup(bits: string, r: nat, i: nat, before: string)
    requires r > 1 && i < |bits| < i + r
    requires before + Vote(bits[i..], r) == Vote(bits, r)
    ensures before + [MajorityBit(bits[i..])] == Vote(bits, r)
  {
    var s := bits[i..];
    VoteHead(s, r);
    assert s[..|s|] == s && s[|s|..] == [];
    assert Vote(s, r) == [MajorityBit(s)];
  }

  /** A full group of `r` bits contributes one voted bit, and voting goes on after it. */
  lemma VoteFullGroup(bits: string, r: nat, i: nat, before: string)
    requires r > 1 && i + r <= |bits|
    requires before + Vote(bits[i..], r) == Vote(bits, r)
    ensures (before + [MajorityBit(bits[i..i + r])]) + Vote(bits[i + r..], r) == Vote(bits, r)
  {
    var s := bits[i..];
    var head := [MajorityBit(bits[i..i + r])];
    VoteHead(s, r);
    assert s[..r] == bits[i..i + r] && s[r..] == bits[i + r..];
    assert Vote(s, r) == head + Vote(bits[i + r..], r);
    Arith.AppendAssociative(before, head, Vote(bits[i + r..], r));
  }

  /** The first voted bit is the majority of the first (possibly short) group. */
  lemma VoteHead(s: string, r: nat)
    requires r > 1 && s != []
    ensures var n := if r <= |s| then r else |s|;
      Vote(s, r) == [MajorityBit(s[..n])] + Vote(s[n..], r)
  {
    if |s| <= r {
      assert s[..|s|] == s;
    }
  }

  /** The expansion has `r` copies of every bit, so its length is `r * |bits|`. */
  lemma {:induction false} ExpandLength(bits: string, r: nat)
    ensures |Expand(bits, r)| == r * |bits|
  {
    if bits != [] {
      ExpandLength(bits[1..], r);
    }
  }

  /** Expansion of a bit string is a bit string. */
  lemma {:induction false} ExpandBinary(bits: string, r: int)
    requires IsBinary(bits)
    ensures IsBinary(Expand(bits, r))
  {
    if bits != [] {
      ExpandBinary(bits[1..], r);
    }
  }

  /** Raw bit `k * r + d` of the expansion is a copy of bit `k`. */
  lemma {:induction false} ExpandAt(bits: string, r: nat, k: nat, d: nat)
    requires k < |bits| && d < r
    ensures |Expand(bits, r)| == r * |bits|
    ensures k * r + d < |Expand(bits, r)| && Expand(bits, r)[k * r + d] == bits[k]
    decreases k
  {
    ExpandLength(bits, r);
    Arith.RowMajorBound(k, d, |bits|, r);
    if k > 0 {
      ExpandAt(bits[1..], r, k - 1, d);
      assert k * r + d == r + ((k - 1) * r + d);
    }
  }

  lemma {:induction false} OnesOfRepeat(c: char, r: nat)
    ensures Ones(Repeat(c, r)) == (if c == '1' then r else 0)
  {
    if r > 0 {
      OnesOfRepeat(c, r - 1);
      var s := Repeat(c, r);
      assert s[..|s| - 1] == Repeat(c, r - 1);
    }
  }

  /** Voting undoes expansion: `vote(expand(b, r), r) == b` for every bit string and `r > 1`. */
  lemma {:induction false} VoteUndoesExpand(bits: string, r: nat)
    requires r > 1 && IsBinary(bits)
    ensures Vote(Expand(bits, r), r) == bits
  {
    if bits != [] {
      var e := Expand(bits, r);
      var g := Repeat(bits[0], r);
      OnesOfRepeat(bits[0], r);
      ExpandLength(bits[1..], r);
      VoteUndoesExpand(bits[1..], r);
      if |bits| == 1 {
        assert e == g;
      } else {
        assert |e| > r;
        assert e[..r] == g && e[r..] == Expand(bits[1..], r);
      }
    }
  }

  /** Number of positions of `g` that differ from `c`. */
  function Flips(g: string, c: char): nat {
    if g == [] then 0 else Flips(g[..|g| - 1], c) + (if g[|g| - 1] != c then 1 else 0)
  }

  /**
   * `observed` is a copy of `expand(bits, r)` in which every group of `r` raw bits has fewer
   * than `r / 2` flipped positions.
   */
  predicate WithinHalf(observed: string, bits: string, r: nat)
    requires r > 1
    decreases |bits|
  {
    if bits == [] then observed == []
    else |observed| >= r && 2 * Flips(observed[..r], bits[0]) < r && WithinHalf(observed[r..], bits[1..], r)
  }

  lemma {:induction false} OnesByFlips(g: string, c: char)
    requires IsBinary(g) && IsBit(c)
    ensures Ones(g) == if c == '1' then |g| - Flips(g, c) else Flips(g, c)
    ensures Flips(g, c) <= |g|
  {
    if g != [] {
      OnesByFlips(g[..|g| - 1], c);
    }
  }

  /** Majority voting corrects every group in which fewer than half of the copies flipped. */
  lemma {:induction false} VoteCorrects(observed: string, bits: string, r: nat)
    requires r > 1 && IsBinary(observed) && IsBinary(bits)
    requires WithinHalf(observed, bits, r)
    ensures Vote(observed, r) == bits
    decreases |bits|
  {
    if bits != [] {
      var g := observed[..r];
      OnesByFlips(g, bits[0]);
      VoteCorrects(observed[r..], bits[1..], r);
      if |observed| == r {
        assert observed == g;
      }
    }
  }

  /** The expansion itself is within half of the bits it expands. */
  lemma {:induction false} ExpandWithinHalf(bits: string, r: nat)
    requires r > 1
    ensures WithinHalf(Expand(bits, r), bits, r)
  {
    if bits != [] {
      var e := Expand(bits, r);
      var g := Repeat(bits[0], r);
      assert e[..r] == g && e[r..] == Expand(bits[1..], r);
      FlipsOfRepeat(bits[0], r);
      ExpandWithinHalf(bits[1..], r);
    }
  }

  lemma {:induction false} FlipsOfRepeat(c: char, r: nat)
    ensures Flips(Repeat(c, r), c) == 0
  {
    if r > 0 {
      FlipsOfRepeat(c, r - 1);
      var s := Repeat(c, r);
      assert s[..|s| - 1] == Repeat(c, r - 1);
    }
  }

  /** The voted string has one bit per group: `ceil(|bits| / r)` bits. */
  lemma {:induction false} VoteLength(bits: string, r: nat)
    requires r > 1
    ensures |Vote(bits, r)| == (|bits| + r - 1) / r
    decreases |bits|
  {
    if |bits| > r {
      var x := |bits| - r + r - 1;
      VoteLength(bits[r..], r);
      assert |Vote(bits, r)| == 1 + |Vote(bits[r..], r)|;
      Arith.DivModStep(x, r);
      assert |bits| + r - 1 == x + r;
    } else if bits != [] {
      Arith.RowMajorDivMod(1, |bits| - 1, r);
      assert |Vote(bits, r)| == 1;
      assert 1 * r + (|bits| - 1) == |bits| + r - 1;
    }
  }

  /** Voted bit `k` is the majority of the raw group starting at `start == k * r`. */
  lemma {:induction false} VoteAt(bits: string, r: nat, k: nat, start: nat)
    requires r > 1 && start == k * r && start + r <= |bits|
    ensures k < |Vote(bits, r)| && Vote(bits, r)[k] == MajorityBit(bits[start..start + r])
    decreases k
  {
    if k == 0 {
      assert start == 0;
      if |bits| == r {
        assert bits[0..r] == bits;
      } else {
        assert bits[0..r] == bits[..r];
      }
    } else {
      var q := start - r;
      assert q == (k - 1) * r;
      var rest := bits[r..];
      VoteHead(bits, r);
      VoteAt(rest, r, k - 1, q);
      assert rest[q..q + r] == bits[start..start + r];
    }
  }
}
