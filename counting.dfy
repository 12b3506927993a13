/**
 * `collections.Counter(xs).most_common(1)[0][0]`, as used by `extract_watermark_enhanced`
 * (watermark/dct_watermark.py) and `extract_watermark_from_video`
 * (watermark/video_processor.py): the most frequent element, and among equally frequent ones
 * the one seen first.
 */
module Counting {

  /** Number of occurrences of `x` in `xs`. */
  function Count<T(==)>(xs: seq<T>, x: T): (n: nat)
    ensures n <= |xs|
    ensures n > 0 <==> x in xs
  {
    if xs == [] then 0 else Count(xs[..|xs| - 1], x) + (if xs[|xs| - 1] == x then 1 else 0)
  }

  /**
   * Scanning `cs` in order, the first element whose count in `xs` is maximal: a later candidate
   * replaces the current one only with a strictly larger count.
   */
  function FirstMax<T(==)>(xs: seq<T>, cs: seq<T>): (r: T)
    requires cs != []
    ensures r in cs
    ensures forall c | c in cs :: Count(xs, c) <= Count(xs, r)
    ensures exists i | 0 <= i < |cs| :: cs[i] == r && forall j | 0 <= j < i :: Count(xs, cs[j]) < Count(xs, r)
  {
    if |cs| == 1 then cs[0]
    else
      var init := cs[..|cs| - 1];
      var last := cs[|cs| - 1];
      var best := FirstMax(xs, init);
      assert cs == init + [last];
      if Count(xs, last) > Count(xs, best) then last else best
  }

  /** `Counter(xs).most_common(1)[0][0]`. */
  function MostCommon<T(==)>(xs: seq<T>): (r: T)
    requires xs != []
    ensures r in xs
    ensures forall x | x in xs :: Count(xs, x) <= Count(xs, r)
    ensures forall i | 0 <= i < |xs| && Count(xs, xs[i]) == Count(xs, r) :: r in xs[..i + 1]
  {
    var r := FirstMax(xs, xs);
    forall i | 0 <= i < |xs| && Count(xs, xs[i]) == Count(xs, r)
      ensures r in xs[..i + 1]
    {
      var k :| 0 <= k < |xs| && xs[k] == r && forall j | 0 <= j < k :: Count(xs, xs[j]) < Count(xs, r);
      assert k <= i;
      assert xs[..i + 1][k] == r;
    }
    r
  }

  /** A value seen in more than half of the entries is the most common one. */
  lemma {:induction false} MajorityIsMostCommon<T>(xs: seq<T>, x: T)
    requires 2 * Count(xs, x) > |xs|
    ensures xs != [] && MostCommon(xs) == x
  {
    var r := MostCommon(xs);
    if r != x {
      CountsOfTwo(xs, x, r);
    }
  }

  /** Two different values together occur at most `|xs|` times. */
  lemma {:induction false} CountsOfTwo<T>(xs: seq<T>, a: T, b: T)
    requires a != b
    ensures Count(xs, a) + Count(xs, b) <= |xs|
  {
    if xs != [] {
      CountsOfTwo(xs[..|xs| - 1], a, b);
    }
  }

  /** When every entry is the same value, that value is the most common one. */
  lemma UnanimousIsMostCommon<T>(xs: seq<T>, x: T)
    requires xs != [] && forall i | 0 <= i < |xs| :: xs[i] == x
    ensures MostCommon(xs) == x
  {
    var r := MostCommon(xs);
    assert r in xs;
  }
}
