/** Colour strings of the form `#rrggbb` shared by every script: formatting
    with `f'#{r:02x}{g:02x}{b:02x}'`, reading back with `int(s[1:3], 16)`,
    the hue of a cell value, and the channel-wise floor mean of colours. */
module Colors {
  import Hex
  import Arith

  type Channel = c: int | 0 <= c < 256

  datatype Rgb = Rgb(r: Channel, g: Channel, b: Channel)

  /** The RGB conversion of a hue in degrees: `colorsys.hls_to_rgb(hue / 360,
      0.5, 1)` followed by `int(x * 255)` on each channel. It is floating
      point, so every operation that needs it takes it as a parameter. */
  type HlsToRgb = int -> Rgb

  /** A `#` followed by six hexadecimal digits. */
  predicate IsColor(s: string) {
    |s| == 7 && s[0] == '#' && Hex.AllDigits(s[1..])
  }

  /** Two hexadecimal digits read as `int(s, 16)` never exceed 255. */
  function Byte(s: string): (c: Channel)
    requires |s| == 2 && Hex.AllDigits(s)
    ensures c == Hex.Parse(s)
  {
    assert s[..1][..0] == [] && s[..1][0] == s[0];
    assert Hex.Parse(s[..1]) == Hex.DigitValue(s[0]);
    Hex.Parse(s)
  }

  /** The channels read back from `s[1:3]`, `s[3:5]` and `s[5:7]`. */
  function Channels(s: string): Rgb
    requires IsColor(s)
  {
    Rgb(Byte(s[1..3]), Byte(s[3..5]), Byte(s[5..7]))
  }

  /** `f'{c:02x}'` for a channel: its high and its low hexadecimal digit. */
  function Hex2(c: Channel): string {
    [Hex.DigitChar(c / 16), Hex.DigitChar(c % 16)]
  }

  /** `Hex2` is the general `0Wx` format at width 2, and reading its two
      digits back with `int(s, 16)` gives the channel. */
  lemma Hex2Reads(c: Channel)
    ensures Hex2(c) == Hex.Padded(c, 2)
    ensures |Hex2(c)| == 2 && Hex.AllDigits(Hex2(c)) && Byte(Hex2(c)) == c
  {
    if c >= 16 {
      assert Hex.Digits(c) == Hex.Digits(c / 16) + [Hex.DigitChar(c % 16)];
    }
    Hex.PaddedWidth(c, 2);
    Hex.ParsePadded(c, 2);
  }

  /** `f'#{r:02x}{g:02x}{b:02x}'`. */
  function Format(c: Rgb): string {
    "#" + Hex2(c.r) + Hex2(c.g) + Hex2(c.b)
  }

  /** A formatted colour is well formed and its three channels read back
      unchanged. */
  lemma FormatReads(c: Rgb)
    ensures IsColor(Format(c)) && Channels(Format(c)) == c
  {
    Hex2Reads(c.r);
    Hex2Reads(c.g);
    Hex2Reads(c.b);
    var s := Format(c);
    assert s[1..3] == Hex2(c.r) && s[3..5] == Hex2(c.g) && s[5..7] == Hex2(c.b);
    assert s[1..] == Hex2(c.r) + Hex2(c.g) + Hex2(c.b);
  }

  /** `(value * 36) % 360`: ten hues 36 degrees apart, one per decimal digit. */
  function BaseHue(value: int): (hue: int)
    ensures 0 <= hue < 360 && hue % 36 == 0
    ensures hue == 36 * (value % 10)
  {
    (value * 36) % 360
  }

  /** The colour of a hue-rotation cell: the hue through the HLS conversion,
      then formatted. */
  function HueColor(hls: HlsToRgb, hue: int): string {
    Format(hls(hue))
  }

  /** A hue's colour string carries exactly the converted channels. */
  lemma HueColorReads(hls: HlsToRgb, hue: int)
    ensures IsColor(HueColor(hls, hue)) && Channels(HueColor(hls, hue)) == hls(hue)
  {
    FormatReads(hls(hue));
  }

  /** The colour of a hue-rotation cell depends only on the value's last
      decimal digit, so values 10 apart look the same. */
  lemma HueColorPeriodic(hls: HlsToRgb, v: int, k: int)
    ensures HueColor(hls, BaseHue(v + 10 * k)) == HueColor(hls, BaseHue(v))
  {
    assert (v + 10 * k) % 10 == v % 10;
  }

  function Pick(c: Rgb, channel: nat): Channel {
    if channel == 0 then c.r else if channel == 1 then c.g else c.b
  }

  predicate AllColors(colors: seq<string>) {
    forall i :: 0 <= i < |colors| ==> IsColor(colors[i])
  }

  /** The sum of one channel over a list of colour strings (the `total_r`,
      `total_g`, `total_b` accumulators). */
  function Total(colors: seq<string>, channel: nat): (t: nat)
    requires AllColors(colors)
    ensures t <= 255 * |colors|
  {
    if colors == [] then 0
    else Total(colors[..|colors| - 1], channel) + Pick(Channels(colors[|colors| - 1]), channel)
  }

  /** One channel of the average: `int(total / count)`, the floor of the
      mean. */
  function MeanChannel(colors: seq<string>, channel: nat): (c: Channel)
    requires |colors| > 0 && AllColors(colors)
    ensures c * |colors| <= Total(colors, channel) < c * |colors| + |colors|
  {
    var t := Total(colors, channel);
    Arith.FloorDiv(t, |colors|);
    Arith.FloorDivBound(t, |colors|, 255);
    t / |colors|
  }

  /** The average colour of a non-empty list of colour strings, each channel
      the floor of its mean. */
  function Mean(colors: seq<string>): Rgb
    requires |colors| > 0 && AllColors(colors)
  {
    Rgb(MeanChannel(colors, 0), MeanChannel(colors, 1), MeanChannel(colors, 2))
  }

  /** Adding one more colour adds its channel to the total. */
  lemma TotalSnoc(colors: seq<string>, c: string, channel: nat)
    requires AllColors(colors) && IsColor(c)
    ensures AllColors(colors + [c])
    ensures Total(colors + [c], channel) == Total(colors, channel) + Pick(Channels(c), channel)
  {
    assert (colors + [c])[..|colors|] == colors;
  }

  /** The colours of a list of cell values under the plain hue rotation. */
  function Paint(hls: HlsToRgb, values: seq<int>): (colors: seq<string>)
    ensures |colors| == |values|
    ensures forall k :: 0 <= k < |values| ==> colors[k] == HueColor(hls, BaseHue(values[k]))
  {
    seq(|values|, k requires 0 <= k < |values| => HueColor(hls, BaseHue(values[k])))
  }

  lemma PaintColors(hls: HlsToRgb, values: seq<int>)
    ensures AllColors(Paint(hls, values))
  {
    forall k | 0 <= k < |values| ensures IsColor(Paint(hls, values)[k]) {
      HueColorReads(hls, BaseHue(values[k]));
    }
  }

  /** The channel total of the hue-rotation colours of a list of values,
      read from the values without going through the colour strings. */
  function HueTotal(hls: HlsToRgb, values: seq<int>, channel: nat): nat {
    if values == [] then 0
    else HueTotal(hls, values[..|values| - 1], channel) + Pick(hls(BaseHue(values[|values| - 1])), channel)
  }

  /** Reading the channels back from the formatted colour strings gives the
      same total. */
  lemma {:induction false} HueTotalIsTotal(hls: HlsToRgb, values: seq<int>, channel: nat)
    ensures AllColors(Paint(hls, values))
    ensures HueTotal(hls, values, channel) == Total(Paint(hls, values), channel)
  {
    PaintColors(hls, values);
    if values != [] {
      var n := |values|;
      HueTotalIsTotal(hls, values[..n - 1], channel);
      assert Paint(hls, values)[..n - 1] == Paint(hls, values[..n - 1]);
      HueColorReads(hls, BaseHue(values[n - 1]));
    }
  }

  /** One more value of a row adds its channel to the total. */
  lemma HueTotalExtend(hls: HlsToRgb, before: seq<int>, row: seq<int>, j: nat, channel: nat)
    requires j < |row|
    ensures HueTotal(hls, before + row[..j + 1], channel)
         == HueTotal(hls, before + row[..j], channel) + Pick(hls(BaseHue(row[j])), channel)
  {
    assert (before + row[..j + 1])[..|before| + j] == before + row[..j];
  }

  /** Dividing the three running totals by the count gives the mean
      colour. */
  lemma MeanFromTotals(colors: seq<string>, n: int, tr: int, tg: int, tb: int)
    requires |colors| == n > 0 && AllColors(colors)
    requires tr == Total(colors, 0) && tg == Total(colors, 1) && tb == Total(colors, 2)
    ensures tr / n == MeanChannel(colors, 0) && tg / n == MeanChannel(colors, 1) && tb / n == MeanChannel(colors, 2)
    ensures Rgb(tr / n, tg / n, tb / n) == Mean(colors)
  {
  }

  /** The average lies between the smallest and the largest value the
      channel takes. */
  lemma {:induction false} TotalWithin(colors: seq<string>, channel: nat, lo: int, hi: int)
    requires AllColors(colors)
    requires forall i :: 0 <= i < |colors| ==> lo <= Pick(Channels(colors[i]), channel) <= hi
    ensures lo * |colors| <= Total(colors, channel) <= hi * |colors|
    decreases |colors|
  {
    if colors != [] {
      var n := |colors|;
      var init := colors[..n - 1];
      assert forall i :: 0 <= i < |init| ==> init[i] == colors[i];
      TotalWithin(init, channel, lo, hi);
      var x := Pick(Channels(colors[n - 1]), channel);
      assert lo <= x <= hi;
      assert Total(colors, channel) == Total(init, channel) + x;
      Arith.MulSucc(lo, n - 1);
      Arith.MulSucc(hi, n - 1);
    }
  }

  /** Each channel of the average lies between the least and the greatest
      value of that channel over the averaged colours. */
  lemma MeanWithin(colors: seq<string>, channel: nat, lo: int, hi: int)
    requires channel < 3
    requires |colors| > 0 && AllColors(colors)
    requires forall i :: 0 <= i < |colors| ==> lo <= Pick(Channels(colors[i]), channel) <= hi
    ensures lo <= Pick(Mean(colors), channel) <= hi
  {
    TotalWithin(colors, channel, lo, hi);
    var c := MeanChannel(colors, channel);
    Arith.FloorMeanWithin(Total(colors, channel), |colors|, c, lo, hi);
    assert Pick(Mean(colors), channel) == c;
  }

  /** Averaging a grid whose cells all show one colour gives that colour. */
  lemma MeanOfUniform(colors: seq<string>, c: Rgb)
    requires |colors| > 0
    requires forall i :: 0 <= i < |colors| ==> colors[i] == Format(c)
    ensures AllColors(colors) && Mean(colors) == c
  {
    FormatReads(c);
    forall channel | 0 <= channel < 3
      ensures Pick(Mean(colors), channel) == Pick(c, channel)
    {
      MeanWithin(colors, channel, Pick(c, channel), Pick(c, channel));
    }
  }
}
