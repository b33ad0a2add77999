/**
  The brand palette of src/main.tsx: the logo's average colour, computed over an
  RGBA byte buffer, and the eleven shades `createShades` derives from it as
  `#rrggbb` strings. Image loading and canvas drawing are not modelled: the
  pixel buffer (or the way loading failed) is an input.
 */
module Palette {

  import opened Wrappers

  /** A colour as three channels; `Math.round` results, so integers. */
  datatype Rgb = Rgb(r: int, g: int, b: int)

  /** The colour used when the logo yields no usable pixel. */
  const Fallback := Rgb(14, 165, 233)

  /** A pixel counts towards the average only from this alpha upward. */
  const AlphaThreshold := 200

  predicate IsByte(v: int) { 0 <= v <= 255 }

  predicate IsColor(c: Rgb) { IsByte(c.r) && IsByte(c.g) && IsByte(c.b) }

  function Channel(c: Rgb, ch: nat): int
    requires ch < 3
  {
    if ch == 0 then c.r else if ch == 1 then c.g else c.b
  }

  // ---------------------------------------------------------------------------
  // Math.round and clamp
  // ---------------------------------------------------------------------------

  /** `Math.round`: the nearest integer, halves rounded towards +infinity. */
  function Round(x: real): (n: int)
    ensures x - 0.5 < n as real <= x + 0.5
  {
    (x + 0.5).Floor
  }

  lemma RoundOfInt(k: int)
    ensures Round(k as real) == k
  {
  }

  lemma RoundMonotone(x: real, y: real)
    requires x <= y
    ensures Round(x) <= Round(y)
  {
  }

  /** `clamp(value, min, max)` is `Math.min(max, Math.max(min, value))`. */
  function Clamp(value: int, min: int, max: int): (r: int)
    ensures r <= max
    ensures min <= max ==> min <= r
    ensures min <= value <= max ==> r == value
    ensures value < min && min <= max ==> r == min
    ensures max < value ==> r == max
  {
    var atLeastMin := if min < value then value else min;
    if max < atLeastMin then max else atLeastMin
  }

  // ---------------------------------------------------------------------------
  // Averaging the pixel buffer
  // ---------------------------------------------------------------------------

  /** Pixel `k` of an RGBA buffer occupies offsets 4k .. 4k+3; its alpha is at 4k+3. */
  predicate Qualifies(data: seq<int>, k: nat)
    requires 4 * k + 3 < |data|
  {
    data[4 * k + 3] >= AlphaThreshold
  }

  /** The number of qualifying pixels among the first `n`. */
  function Count(data: seq<int>, n: nat): (c: nat)
    requires 4 * n <= |data|
    ensures c <= n
  {
    if n == 0 then 0 else Count(data, n - 1) + (if Qualifies(data, n - 1) then 1 else 0)
  }

  /** The sum of channel `ch` (0 red, 1 green, 2 blue) over the qualifying pixels among the first `n`. */
  function Total(data: seq<int>, n: nat, ch: nat): (t: int)
    requires 4 * n <= |data| && ch < 3
    ensures (forall i :: 0 <= i < 4 * n ==> IsByte(data[i])) ==> 0 <= t <= 255 * Count(data, n)
  {
    if n == 0 then 0
    else Total(data, n - 1, ch) + (if Qualifies(data, n - 1) then data[4 * (n - 1) + ch] else 0)
  }

  /** `Math.round(total / count)`. */
  function Mean(total: int, count: nat): (m: int)
    requires count > 0
    ensures m == (2 * total + count) / (2 * count)
  {
    RoundMeanFormula(total, count);
    Round(total as real / count as real)
  }

  /** The colour the averaging loop resolves with, as a function of the buffer. */
  function MeanColor(data: seq<int>): (c: Rgb)
    requires |data| % 4 == 0
    ensures (forall k :: 0 <= k < |data| / 4 ==> !Qualifies(data, k)) ==> c == Fallback
    ensures (forall i :: 0 <= i < |data| ==> IsByte(data[i])) ==> IsColor(c)
  {
    var n := |data| / 4;
    var count := Count(data, n);
    CountZeroIffNoneQualify(data, n);
    if count == 0 then Fallback
    else
      var rgb := Rgb(Mean(Total(data, n, 0), count), Mean(Total(data, n, 1), count), Mean(Total(data, n, 2), count));
      if forall i :: 0 <= i < |data| ==> IsByte(data[i]) then
        MeanBetween(Total(data, n, 0), count, 0, 255);
        MeanBetween(Total(data, n, 1), count, 0, 255);
        MeanBetween(Total(data, n, 2), count, 0, 255);
        rgb
      else rgb
  }

  /** The loop of `extractAverageColorFromImage` over the `getImageData` buffer. */
  method AverageColor(data: seq<int>) returns (rgb: Rgb)
    requires |data| % 4 == 0
    ensures rgb == MeanColor(data)
  {
    var rTotal, gTotal, bTotal, count := 0, 0, 0, 0;
    var i := 0;
    while i < |data|
      invariant 0 <= i <= |data| && i % 4 == 0
      invariant count == Count(data, i / 4)
      invariant rTotal == Total(data, i / 4, 0)
      invariant gTotal == Total(data, i / 4, 1)
      invariant bTotal == Total(data, i / 4, 2)
    {
      var alpha := data[i + 3];
      if alpha < AlphaThreshold {
        i := i + 4;
        continue;
      }
      rTotal := rTotal + data[i];
      gTotal := gTotal + data[i + 1];
      bTotal := bTotal + data[i + 2];
      count := count + 1;
      i := i + 4;
    }
    if count == 0 {
      rgb := Fallback;
    } else {
      rgb := Rgb(Mean(rTotal, count), Mean(gTotal, count), Mean(bTotal, count));
    }
  }

  /** How loading the logo ended: `onerror`, no 2D context, or a pixel buffer. */
  datatype ImageLoad = LoadFailed | NoContext | Loaded(data: seq<int>)

  /** The value `extractAverageColorFromImage` resolves its promise with. */
  method ExtractAverageColor(load: ImageLoad) returns (rgb: Rgb)
    requires load.Loaded? ==> |load.data| % 4 == 0
    ensures !load.Loaded? ==> rgb == Fallback
    ensures load.Loaded? ==> rgb == MeanColor(load.data)
  {
    match load
    case LoadFailed => rgb := Fallback;
    case NoContext => rgb := Fallback;
    case Loaded(data) => rgb := AverageColor(data);
  }

  lemma {:induction false} CountZeroIffNoneQualify(data: seq<int>, n: nat)
    requires 4 * n <= |data|
    ensures Count(data, n) == 0 <==> forall k :: 0 <= k < n ==> !Qualifies(data, k)
  {
    if n > 0 {
      CountZeroIffNoneQualify(data, n - 1);
    }
  }

  /** When no pixel reaches the alpha threshold the result is the fallback colour; otherwise each
      channel is the rounded mean over the qualifying pixels. */
  lemma MeanColorCases(data: seq<int>)
    requires |data| % 4 == 0
    ensures var n := |data| / 4;
      if forall k :: 0 <= k < n ==> !Qualifies(data, k) then MeanColor(data) == Fallback
      else Count(data, n) > 0 &&
           forall ch :: 0 <= ch < 3 ==> Channel(MeanColor(data), ch) == Mean(Total(data, n, ch), Count(data, n))
  {
    CountZeroIffNoneQualify(data, |data| / 4);
  }

  lemma {:induction false} TotalBetween(data: seq<int>, n: nat, ch: nat, lo: int, hi: int)
    requires 4 * n <= |data| && ch < 3
    requires forall k :: 0 <= k < n && Qualifies(data, k) ==> lo <= data[4 * k + ch] <= hi
    ensures lo * Count(data, n) <= Total(data, n, ch) <= hi * Count(data, n)
  {
    if n > 0 {
      TotalBetween(data, n - 1, ch, lo, hi);
      var q := Qualifies(data, n - 1);
      BoundStep(lo, hi, Count(data, n - 1), Total(data, n - 1, ch), data[4 * (n - 1) + ch], q);
    }
  }

  /** One more pixel keeps the total between lo·count and hi·count. */
  lemma BoundStep(lo: int, hi: int, c: int, t: int, x: int, q: bool)
    requires lo * c <= t <= hi * c
    requires q ==> lo <= x <= hi
    ensures lo * (c + if q then 1 else 0) <= t + (if q then x else 0) <= hi * (c + if q then 1 else 0)
  {
    assert lo * (c + 1) == lo * c + lo && hi * (c + 1) == hi * c + hi;
  }

  lemma CastMul(a: int, b: int)
    ensures (a * b) as real == a as real * b as real
  {
  }

  lemma MulNonNeg(a: real, b: real)
    requires a >= 0.0 && b >= 0.0
    ensures a * b >= 0.0
  {
  }

  lemma LeDivide(a: real, b: real, d: real)
    requires d > 0.0 && a * d <= b * d
    ensures a <= b
  {
  }

  lemma LtDivide(a: real, b: real, d: real)
    requires d > 0.0 && a * d < b * d
    ensures a < b
  {
  }

  /** A rounded mean of values in [lo, hi] is in [lo, hi]. */
  lemma MeanBetween(total: int, count: nat, lo: int, hi: int)
    requires count > 0
    requires lo * count <= total <= hi * count
    ensures lo <= Mean(total, count) <= hi
  {
    var x := total as real / count as real;
    assert x * count as real == total as real;
    CastMul(lo, count);
    CastMul(hi, count);
    LeDivide(lo as real, x, count as real);
    LeDivide(x, hi as real, count as real);
    RoundMonotone(lo as real, x);
    RoundMonotone(x, hi as real);
    RoundOfInt(lo);
    RoundOfInt(hi);
  }

  /** Each channel of the average lies between the smallest and the largest qualifying sample. */
  lemma MeanColorBetween(data: seq<int>, ch: nat, lo: int, hi: int)
    requires |data| % 4 == 0 && ch < 3
    requires exists k :: 0 <= k < |data| / 4 && Qualifies(data, k)
    requires forall k :: 0 <= k < |data| / 4 && Qualifies(data, k) ==> lo <= data[4 * k + ch] <= hi
    ensures lo <= Channel(MeanColor(data), ch) <= hi
  {
    var n := |data| / 4;
    CountZeroIffNoneQualify(data, n);
    TotalBetween(data, n, ch, lo, hi);
    MeanBetween(Total(data, n, ch), Count(data, n), lo, hi);
  }

  /** Two buffers that agree on which pixels qualify and on the colour of those pixels. */
  predicate SameQualifyingPixels(a: seq<int>, b: seq<int>, n: nat)
    requires 4 * n <= |a| && 4 * n <= |b|
  {
    forall k :: 0 <= k < n ==>
      Qualifies(a, k) == Qualifies(b, k) &&
      (Qualifies(a, k) ==> a[4 * k] == b[4 * k] && a[4 * k + 1] == b[4 * k + 1] && a[4 * k + 2] == b[4 * k + 2])
  }

  lemma {:induction false} SameQualifyingSums(a: seq<int>, b: seq<int>, n: nat, ch: nat)
    requires 4 * n <= |a| && 4 * n <= |b| && ch < 3
    requires SameQualifyingPixels(a, b, n)
    ensures Count(a, n) == Count(b, n) && Total(a, n, ch) == Total(b, n, ch)
  {
    if n > 0 {
      assert SameQualifyingPixels(a, b, n - 1);
      SameQualifyingSums(a, b, n - 1, ch);
      var k := n - 1;
      assert Qualifies(a, k) == Qualifies(b, k);
      assert Qualifies(a, k) ==> a[4 * k + ch] == b[4 * k + ch];
    }
  }

  /** Pixels below the alpha threshold do not influence the result, whatever their colour. */
  lemma TranslucentPixelsIgnored(a: seq<int>, b: seq<int>)
    requires |a| == |b| && |a| % 4 == 0
    requires SameQualifyingPixels(a, b, |a| / 4)
    ensures MeanColor(a) == MeanColor(b)
  {
    var n := |a| / 4;
    SameQualifyingSums(a, b, n, 0);
    SameQualifyingSums(a, b, n, 1);
    SameQualifyingSums(a, b, n, 2);
  }

  /** The rounded mean equals the integer formula (2t + c) / (2c), with no floating point involved. */
  lemma RoundMeanFormula(total: int, count: nat)
    requires count > 0
    ensures Round(total as real / count as real) == (2 * total + count) / (2 * count)
  {
    var n, d := 2 * total + count, 2 * count;
    var q := n / d;
    assert d * q <= n < d * (q + 1);
    var y := total as real / count as real + 0.5;
    assert y * d as real == n as real by {
      assert (total as real / count as real) * count as real == total as real;
    }
    CastMul(q, d);
    CastMul(q + 1, d);
    LeDivide(q as real, y, d as real);
    LtDivide(y, (q + 1) as real, d as real);
  }

  // ---------------------------------------------------------------------------
  // toHex and hex
  // ---------------------------------------------------------------------------

  /** A lower-case base-16 digit, as `Number.prototype.toString(16)` writes it. */
  function HexDigit(d: int): (ch: char)
    requires 0 <= d < 16
    ensures IsHexDigit(ch) && DigitValue(ch) == d
  {
    if d < 10 then ('0' as int + d) as char else ('a' as int + d - 10) as char
  }

  predicate IsHexDigit(ch: char) { '0' <= ch <= '9' || 'a' <= ch <= 'f' }

  function DigitValue(ch: char): int
  {
    if '0' <= ch <= '9' then ch as int - '0' as int
    else if 'a' <= ch <= 'f' then ch as int - 'a' as int + 10
    else -1
  }

  /** `v.toString(16)` of a non-negative integer: its digits, most significant first, no leading zero. */
  function Radix16(v: nat): (s: string)
    ensures |s| >= 1 && IsHexDigit(s[0]) && IsHexDigit(s[|s| - 1])
    decreases v
  {
    if v < 16 then [HexDigit(v)] else Radix16(v / 16) + [HexDigit(v % 16)]
  }

  /** `v.toString(16)` of an integer: a minus sign before the digits of a negative one. */
  function ToString16(v: int): (s: string)
    ensures |s| >= 1 && (s[0] == '-' <==> v < 0)
  {
    if v < 0 then "-" + Radix16(-v) else Radix16(v)
  }

  /** `s.padStart(width, fill)` with a one-character fill. */
  function PadStart(s: string, width: nat, fill: char): (p: string)
    ensures |s| >= width ==> p == s
    ensures |s| < width ==> |p| == width
    ensures p[|p| - |s|..] == s
    ensures forall i :: 0 <= i < |p| - |s| ==> p[i] == fill
  {
    if |s| >= width then s else seq(width - |s|, _ => fill) + s
  }

  /** `toHex(v)` in createShades. */
  function ToHex(v: int): (t: string)
    ensures |t| >= 2
    ensures v >= 0 ==> IsHexDigit(t[0]) && IsHexDigit(t[|t| - 1])
  {
    PadStart(ToString16(v), 2, '0')
  }

  /** `hex(rr, gg, bb)` in createShades. */
  function Hex(rr: int, gg: int, bb: int): (h: string)
    ensures |h| >= 7 && h[0] == '#'
  {
    "#" + ToHex(rr) + ToHex(gg) + ToHex(bb)
  }

  /** The value of a string of base-16 digits, most significant first. */
  function ParseHex(s: string): int
  {
    if s == [] then 0 else 16 * ParseHex(s[..|s| - 1]) + DigitValue(s[|s| - 1])
  }

  predicate IsHexColor(s: string)
  {
    |s| == 7 && s[0] == '#' && forall i :: 1 <= i < 7 ==> IsHexDigit(s[i])
  }

  /** Reads a `#rrggbb` string back into its channels. */
  function DecodeColor(s: string): (c: Option<Rgb>)
    ensures c.Some? <==> IsHexColor(s)
  {
    if IsHexColor(s) then Some(Rgb(ParseHex(s[1..3]), ParseHex(s[3..5]), ParseHex(s[5..7]))) else None
  }

  lemma {:induction false} Radix16Digits(v: nat)
    ensures |Radix16(v)| >= 1
    ensures forall i :: 0 <= i < |Radix16(v)| ==> IsHexDigit(Radix16(v)[i])
    decreases v
  {
    if v < 16 {
    } else {
      Radix16Digits(v / 16);
    }
  }

  lemma {:induction false} Radix16Parses(v: nat)
    ensures ParseHex(Radix16(v)) == v
    decreases v
  {
    var s := Radix16(v);
    if v < 16 {
      assert s[..|s| - 1] == [];
    } else {
      Radix16Parses(v / 16);
      assert s[..|s| - 1] == Radix16(v / 16);
    }
  }

  lemma {:induction false} Radix16Length(v: nat)
    ensures |Radix16(v)| <= 2 <==> v < 256
    decreases v
  {
    if v >= 16 {
      Radix16Length(v / 16);
      if v >= 256 {
        Radix16Digits(v / 16 / 16);
      }
    }
  }

  /** For a channel in 0..255, `toHex` is exactly two lower-case digits that read back as the channel;
      any larger value gives more than two. */
  lemma ToHexPair(v: int)
    requires v >= 0
    ensures |ToHex(v)| == 2 <==> v < 256
    ensures v < 256 ==> IsHexDigit(ToHex(v)[0]) && IsHexDigit(ToHex(v)[1]) && ParseHex(ToHex(v)) == v
  {
    var s := Radix16(v);
    Radix16Digits(v);
    Radix16Parses(v);
    Radix16Length(v);
    if v < 16 {
      var p := ToHex(v);
      assert p == ['0'] + s;
      assert p[..1] == ['0'];
      assert ParseHex(p[..1]) == 0 by {
        assert p[..1][..0] == [];
      }
      assert ParseHex(s) == DigitValue(s[0]) by {
        assert s[..0] == [];
      }
    }
  }

  /** Three two-digit pairs after a `#` make a `#rrggbb` string that reads back as the three values. */
  lemma PairsMakeColor(a: string, b: string, c: string)
    requires |a| == 2 && |b| == 2 && |c| == 2
    requires IsHexDigit(a[0]) && IsHexDigit(a[1]) && IsHexDigit(b[0]) && IsHexDigit(b[1])
    requires IsHexDigit(c[0]) && IsHexDigit(c[1])
    ensures IsHexColor("#" + a + b + c)
    ensures DecodeColor("#" + a + b + c) == Some(Rgb(ParseHex(a), ParseHex(b), ParseHex(c)))
  {
    var s := "#" + a + b + c;
    assert s == ['#', a[0], a[1], b[0], b[1], c[0], c[1]];
    assert s[1..3] == a && s[3..5] == b && s[5..7] == c;
    assert IsHexColor(s);
  }

  /** `hex` of three channels in 0..255 is a `#rrggbb` string that decodes back to them. */
  lemma HexRoundTrip(rr: int, gg: int, bb: int)
    requires IsByte(rr) && IsByte(gg) && IsByte(bb)
    ensures IsHexColor(Hex(rr, gg, bb))
    ensures DecodeColor(Hex(rr, gg, bb)) == Some(Rgb(rr, gg, bb))
  {
    ToHexPair(rr);
    ToHexPair(gg);
    ToHexPair(bb);
    PairsMakeColor(ToHex(rr), ToHex(gg), ToHex(bb));
  }

  // ---------------------------------------------------------------------------
  // lighten, darken and createShades
  // ---------------------------------------------------------------------------

  /** One channel of `lighten(pct)`: the channel moved towards 255 by the fraction `pct`, rounded and clamped. */
  function LightenChannel(c: int, pct: real): (v: int)
    ensures IsByte(v)
  {
    Clamp(Round(c as real + (255 - c) as real * pct), 0, 255)
  }

  /** One channel of `darken(pct)`: the channel scaled by 1 - `pct`, rounded and clamped. */
  function DarkenChannel(c: int, pct: real): (v: int)
    ensures IsByte(v)
  {
    Clamp(Round(c as real * (1.0 - pct)), 0, 255)
  }

  function Lighten(base: Rgb, pct: real): (c: Rgb)
    ensures IsColor(c)
  {
    Rgb(LightenChannel(base.r, pct), LightenChannel(base.g, pct), LightenChannel(base.b, pct))
  }

  function Darken(base: Rgb, pct: real): (c: Rgb)
    ensures IsColor(c)
  {
    Rgb(DarkenChannel(base.r, pct), DarkenChannel(base.g, pct), DarkenChannel(base.b, pct))
  }

  lemma LightenNotDarker(c: int, pct: real)
    requires IsByte(c) && 0.0 <= pct <= 1.0
    ensures c <= LightenChannel(c, pct)
  {
    MulNonNeg((255 - c) as real, pct);
    RoundMonotone(c as real, c as real + (255 - c) as real * pct);
    RoundOfInt(c);
  }

  lemma DarkenNotLighter(c: int, pct: real)
    requires IsByte(c) && 0.0 <= pct <= 1.0
    ensures DarkenChannel(c, pct) <= c
  {
    MulNonNeg(c as real, pct);
    RoundMonotone(c as real * (1.0 - pct), c as real);
    RoundOfInt(c);
  }

  /** A larger percentage lightens at least as much. */
  lemma LightenMonotone(c: int, p: real, q: real)
    requires IsByte(c) && p <= q
    ensures LightenChannel(c, p) <= LightenChannel(c, q)
  {
    MulNonNeg((255 - c) as real, q - p);
    RoundMonotone(c as real + (255 - c) as real * p, c as real + (255 - c) as real * q);
  }

  /** A larger percentage darkens at least as much. */
  lemma DarkenMonotone(c: int, p: real, q: real)
    requires IsByte(c) && p <= q
    ensures DarkenChannel(c, q) <= DarkenChannel(c, p)
  {
    MulNonNeg(c as real, q - p);
    RoundMonotone(c as real * (1.0 - q), c as real * (1.0 - p));
  }

  /** The shade numbers of createShades, lightest first. */
  const ShadeKeys: seq<int> := [50, 100, 200, 300, 400, 500, 600, 700, 800, 900, 950]

  /** The colour of shade `key`: lightened by 90, 80, 60, 40 or 20 percent, the base colour itself
      at 500, or darkened by 15, 30, 45, 60 or 75 percent. */
  function ShadeColor(base: Rgb, key: int): (c: Rgb)
    requires key in ShadeKeys
    ensures IsColor(base) ==> IsColor(c)
  {
    if key == 50 then Lighten(base, 0.9)
    else if key == 100 then Lighten(base, 0.8)
    else if key == 200 then Lighten(base, 0.6)
    else if key == 300 then Lighten(base, 0.4)
    else if key == 400 then Lighten(base, 0.2)
    else if key == 500 then base
    else if key == 600 then Darken(base, 0.15)
    else if key == 700 then Darken(base, 0.3)
    else if key == 800 then Darken(base, 0.45)
    else if key == 900 then Darken(base, 0.6)
    else Darken(base, 0.75)
  }

  /** `createShades(rgb)`: shade number to `#rrggbb`. */
  function CreateShades(base: Rgb): (shades: map<int, string>)
    ensures shades.Keys == set k | k in ShadeKeys
  {
    map key | key in ShadeKeys :: Hex(ShadeColor(base, key).r, ShadeColor(base, key).g, ShadeColor(base, key).b)
  }

  /** Shade 500 is `hex(r, g, b)` of the base colour itself. */
  lemma Shade500IsBase(base: Rgb)
    ensures 500 in CreateShades(base) && CreateShades(base)[500] == Hex(base.r, base.g, base.b)
  {
    assert ShadeColor(base, 500) == base;
  }

  /** Every shade of a colour is a `#rrggbb` string that decodes to the shade's colour, whose
      channels are in 0..255. */
  lemma ShadesAreColors(base: Rgb)
    requires IsColor(base)
    ensures forall key :: key in CreateShades(base) ==>
      IsColor(ShadeColor(base, key)) && DecodeColor(CreateShades(base)[key]) == Some(ShadeColor(base, key))
  {
    forall key | key in ShadeKeys
      ensures IsColor(ShadeColor(base, key)) && DecodeColor(Hex(ShadeColor(base, key).r, ShadeColor(base, key).g, ShadeColor(base, key).b)) == Some(ShadeColor(base, key))
    {
      var c := ShadeColor(base, key);
      assert IsColor(c);
      HexRoundTrip(c.r, c.g, c.b);
    }
  }

  lemma ChannelTones(c: int)
    requires IsByte(c)
    ensures LightenChannel(c, 0.9) >= LightenChannel(c, 0.8) >= LightenChannel(c, 0.6)
      >= LightenChannel(c, 0.4) >= LightenChannel(c, 0.2) >= c
      >= DarkenChannel(c, 0.15) >= DarkenChannel(c, 0.3) >= DarkenChannel(c, 0.45)
      >= DarkenChannel(c, 0.6) >= DarkenChannel(c, 0.75)
  {
    LightenMonotone(c, 0.8, 0.9);
    LightenMonotone(c, 0.6, 0.8);
    LightenMonotone(c, 0.4, 0.6);
    LightenMonotone(c, 0.2, 0.4);
    LightenNotDarker(c, 0.2);
    DarkenNotLighter(c, 0.15);
    DarkenMonotone(c, 0.15, 0.3);
    DarkenMonotone(c, 0.3, 0.45);
    DarkenMonotone(c, 0.45, 0.6);
    DarkenMonotone(c, 0.6, 0.75);
  }

  /** Channel `ch` of every shade, lightest first. */
  function ShadeChannels(base: Rgb, ch: nat): (s: seq<int>)
    requires ch < 3
    ensures |s| == |ShadeKeys|
    ensures forall i :: 0 <= i < |ShadeKeys| ==> s[i] == Channel(ShadeColor(base, ShadeKeys[i]), ch)
  {
    seq(|ShadeKeys|, i requires 0 <= i < |ShadeKeys| => Channel(ShadeColor(base, ShadeKeys[i]), ch))
  }

  /** Neighbouring shades: 50 >= 100 >= ... >= 950 in every channel. */
  lemma ShadesStepDown(base: Rgb, ch: nat)
    requires IsColor(base) && ch < 3
    ensures forall i :: 0 <= i < |ShadeKeys| - 1 ==> ShadeChannels(base, ch)[i] >= ShadeChannels(base, ch)[i + 1]
  {
    var c := Channel(base, ch);
    ChannelTones(c);
    var s := ShadeChannels(base, ch);
    assert s == [LightenChannel(c, 0.9), LightenChannel(c, 0.8), LightenChannel(c, 0.6), LightenChannel(c, 0.4),
                 LightenChannel(c, 0.2), c, DarkenChannel(c, 0.15), DarkenChannel(c, 0.3), DarkenChannel(c, 0.45),
                 DarkenChannel(c, 0.6), DarkenChannel(c, 0.75)];
  }

  lemma {:induction false} DescendingFromSteps(s: seq<int>)
    requires forall i :: 0 <= i < |s| - 1 ==> s[i] >= s[i + 1]
    ensures forall i, j :: 0 <= i <= j < |s| ==> s[i] >= s[j]
  {
    if |s| > 1 {
      var t := s[1..];
      assert forall i :: 0 <= i < |t| - 1 ==> t[i] >= t[i + 1] by {
        forall i | 0 <= i < |t| - 1 ensures t[i] >= t[i + 1] {
          assert t[i] == s[i + 1] && t[i + 1] == s[i + 2];
        }
      }
      DescendingFromSteps(t);
      forall i, j | 0 <= i <= j < |s| ensures s[i] >= s[j] {
        if 0 < i {
          assert s[i] == t[i - 1] && s[j] == t[j - 1];
        } else if 0 < j {
          assert s[1] == t[0] && s[j] == t[j - 1];
        }
      }
    }
  }

  /** Each channel decreases from shade 50 to shade 950: a lower shade number is never darker. */
  lemma ShadesOrdered(base: Rgb, ch: nat)
    requires IsColor(base) && ch < 3
    ensures forall i, j :: 0 <= i <= j < |ShadeKeys| ==> ShadeChannels(base, ch)[i] >= ShadeChannels(base, ch)[j]
  {
    ShadesStepDown(base, ch);
    DescendingFromSteps(ShadeChannels(base, ch));
  }
}
