/** Failure-carrying wrappers used by the quantizers' results. */
module Wrappers {
  datatype Option<+T> = None | Some(value: T)

  datatype Result<+T, +E> = Ok(value: T) | Err(error: E)
}

/** Small facts about sequence prefixes, used by the loops that walk a sequence. */
module Sequences {
  lemma PrefixSnoc<T>(s: seq<T>, i: nat)
    requires i < |s|
    ensures s[..i + 1] == s[..i] + [s[i]]
  {
  }

  lemma PrefixAll<T>(s: seq<T>)
    ensures s[..|s|] == s
  {
  }
}

/**
 * The pixel value types shared by both quantizers and by the blur filter
 * (`RgbaColor` and `Image` in crates/src/lib.rs).
 */
module Colors {
  /** An unsigned 8-bit channel value (Rust `u8`). */
  newtype u8 = x: int | 0 <= x < 256

  /** Four independent 8-bit channels. */
  datatype RgbaColor = RgbaColor(r: u8, g: u8, b: u8, a: u8)

  /** Row-major pixels plus dimensions; the quantizers only read `pixels`. */
  datatype Image = Image(pixels: seq<RgbaColor>, width: nat, heigth: nat)

  /** Channel sums and a pixel count, the accumulator both quantizers fold pixels into. */
  datatype Totals = Totals(r: nat, g: nat, b: nat, a: nat, count: nat) {
    /** Accumulates one more pixel. */
    function Add(c: RgbaColor): Totals {
      Totals(r + c.r as nat, g + c.g as nat, b + c.b as nat, a + c.a as nat, count + 1)
    }

    function Plus(t: Totals): Totals {
      Totals(r + t.r, g + t.g, b + t.b, a + t.a, count + t.count)
    }
  }

  const NoTotals := Totals(0, 0, 0, 0, 0)

  /** Every channel sum is at most 255 per counted pixel. */
  predicate Bounded(t: Totals)
  {
    t.r <= 255 * t.count && t.g <= 255 * t.count && t.b <= 255 * t.count && t.a <= 255 * t.count
  }

  /** `x as u8`: keeps the low eight bits. */
  function Truncate8(x: nat): u8
  {
    (x % 256) as u8
  }

  /**
   * The averaged colour both quantizers compute: each channel is
   * `(sum / count) as u8`, integer division truncating toward zero.
   */
  function MeanColor(t: Totals): RgbaColor
    requires t.count > 0
  {
    RgbaColor(Truncate8(t.r / t.count), Truncate8(t.g / t.count),
              Truncate8(t.b / t.count), Truncate8(t.a / t.count))
  }

  /** When the sums are bounded the cast to `u8` loses nothing: each channel is the truncated mean. */
  lemma MeanColorExact(t: Totals)
    requires t.count > 0 && Bounded(t)
    ensures MeanColor(t).r as nat == t.r / t.count && MeanColor(t).g as nat == t.g / t.count
    ensures MeanColor(t).b as nat == t.b / t.count && MeanColor(t).a as nat == t.a / t.count
  {
    MeanChannelExact(t.r, t.count);
    MeanChannelExact(t.g, t.count);
    MeanChannelExact(t.b, t.count);
    MeanChannelExact(t.a, t.count);
  }

  lemma MeanChannelExact(x: nat, n: nat)
    requires n > 0 && x <= 255 * n
    ensures x / n <= 255 && Truncate8(x / n) as nat == x / n
  {
    var q := x / n;
    assert q * n <= 255 * n;
    MulCancel(q, 255, n);
  }

  lemma MulCancel(a: nat, b: nat, n: nat)
    requires n > 0 && a * n <= b * n
    ensures a <= b
  {
  }

  lemma MulSucc(a: nat, n: nat)
    ensures a * (n + 1) == a * n + a
  {
  }

  /** A sum of `n` values each between `lo` and `hi` has its truncated mean between them too. */
  lemma DivBetween(s: nat, n: nat, lo: nat, hi: nat)
    requires n > 0 && lo * n <= s <= hi * n
    ensures lo <= s / n <= hi
  {
    var q := s / n;
    assert q * n <= s < (q + 1) * n;
    MulCancel(q, hi, n);
    if q + 1 <= lo {
      MulLe(q + 1, lo, n);
    }
  }

  lemma MulLe(a: nat, b: nat, n: nat)
    requires a <= b
    ensures a * n <= b * n
  {
  }

  /** The totals of a pixel sequence, folded from the left as Rust's `fold` does. */
  function SumColors(s: seq<RgbaColor>): Totals {
    if s == [] then NoTotals
    else
      var t, c := SumColors(s[..|s| - 1]), s[|s| - 1];
      Totals(t.r + c.r as nat, t.g + c.g as nat, t.b + c.b as nat, t.a + c.a as nat, t.count + 1)
  }

  /** One more pixel adds its channels to the sums and one to the count. */
  lemma SumColorsSnoc(s: seq<RgbaColor>, c: RgbaColor)
    ensures SumColors(s + [c]) == SumColors(s).Add(c)
  {
    assert (s + [c])[..|s|] == s;
  }

  /** Adding the same totals to two accumulators that end up equal means they were equal. */
  lemma PlusCancel(x: Totals, y: Totals, t: Totals)
    requires x.Plus(t) == y.Plus(t)
    ensures x == y
  {
  }

  lemma PlusAssoc(x: Totals, y: Totals, z: Totals)
    ensures x.Plus(y).Plus(z) == x.Plus(y.Plus(z))
  {
  }

  lemma PlusNone(x: Totals)
    ensures x.Plus(NoTotals) == x
  {
  }

  /** Why a quantizer call fails; each variant stands for a panic of the source. */
  datatype QuantizeError =
    | NoCentroids       // `min_by(..).unwrap()` over an empty centroid list
    | NothingToReduce   // `last_mut().unwrap()` on an empty reduction bucket
}
