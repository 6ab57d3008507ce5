/** Flow colours: `generate_colors(n)` starts from a random RGB triple and
    advances every channel by `256 / n`, modulo 256, once per colour, printing
    each triple as `#rrggbb`. The random start is a parameter here. */
module Colors {
  import opened Base

  /** One colour channel, as `int(random.random() * 256)` produces it. */
  type Channel = c: int | 0 <= c < 256

  predicate IsLowerHexDigit(c: char)
  {
    ('0' <= c <= '9') || ('a' <= c <= 'f')
  }

  function HexDigit(d: int): (c: char)
    requires 0 <= d < 16
    ensures IsLowerHexDigit(c)
  {
    if d < 10 then ('0' as int + d) as char else ('a' as int + d - 10) as char
  }

  function HexValue(c: char): (d: int)
    requires IsLowerHexDigit(c)
    ensures 0 <= d < 16
  {
    if c <= '9' then c as int - '0' as int else c as int - 'a' as int + 10
  }

  /** `'%02x' % v`: two lower-case hexadecimal digits. */
  function Hex2(v: Channel): (h: string)
    ensures |h| == 2 && IsLowerHexDigit(h[0]) && IsLowerHexDigit(h[1])
    ensures 16 * HexValue(h[0]) + HexValue(h[1]) == v
  {
    [HexDigit(v / 16), HexDigit(v % 16)]
  }

  /** A `#` followed by six lower-case hexadecimal digits. */
  predicate IsHexColor(c: string)
  {
    |c| == 7 && c[0] == '#' && forall k :: 1 <= k < 7 ==> IsLowerHexDigit(c[k])
  }

  /** Reads the three channels back from a colour string. */
  function ParseColor(c: string): (rgb: (int, int, int))
    requires IsHexColor(c)
  {
    (16 * HexValue(c[1]) + HexValue(c[2]),
     16 * HexValue(c[3]) + HexValue(c[4]),
     16 * HexValue(c[5]) + HexValue(c[6]))
  }

  /** `'#%02x%02x%02x' % (r, g, b)`. */
  function FormatColor(r: Channel, g: Channel, b: Channel): string
  {
    "#" + Hex2(r) + Hex2(g) + Hex2(b)
  }

  /** A formatted colour is well formed and reads back as `(r, g, b)`. */
  lemma FormatColorParses(r: Channel, g: Channel, b: Channel)
    ensures IsHexColor(FormatColor(r, g, b))
    ensures ParseColor(FormatColor(r, g, b)) == (r, g, b)
  {
    var c := FormatColor(r, g, b);
    var hr, hg, hb := Hex2(r), Hex2(g), Hex2(b);
    assert c[1] == hr[0] && c[2] == hr[1];
    assert c[3] == hg[0] && c[4] == hg[1];
    assert c[5] == hb[0] && c[6] == hb[1];
  }

  /** `k` steps of size `step`, added up one at a time. */
  function Offset(step: nat, k: nat): (d: nat)
    decreases k
  {
    if k == 0 then 0 else Offset(step, k - 1) + step
  }

  /** The value of a channel starting at `start` after `i + 1` steps, modulo 256. */
  function ChannelAt(start: int, step: nat, i: nat): Channel
  {
    (start + Offset(step, i + 1)) % 256
  }

  /** One step applied to the start channel is the same as one more step. */
  lemma ChannelShift(c: int, step: nat, i: nat)
    ensures ChannelAt((c + step) % 256, step, i) == ChannelAt(c, step, i + 1)
  {
    var x := c + step;
    var y := Offset(step, i + 1);
    assert x == 256 * (x / 256) + x % 256;
    ModAddMultiple(x % 256 + y, x / 256);
    OffsetStepFirst(step, i + 1);
  }

  /** The first step can be taken out in front as well as at the end. */
  lemma {:induction false} OffsetStepFirst(step: nat, k: nat)
    ensures Offset(step, k + 1) == step + Offset(step, k)
    decreases k
  {
    if k > 0 {
      OffsetStepFirst(step, k - 1);
    }
  }

  /** The additive offset is the product of the count and the step. */
  lemma {:induction false} OffsetIsProduct(step: nat, k: nat)
    ensures Offset(step, k) == k * step
    decreases k
  {
    if k > 0 {
      OffsetIsProduct(step, k - 1);
      assert k * step == (k - 1) * step + step;
    }
  }

  lemma ModAddMultiple(a: int, q: int)
    ensures (a + 256 * q) % 256 == a % 256
  {
  }

  /** The loop of `generate_colors`, run `count` more times from the channels
      `(r, g, b)`. */
  function ColorRun(r: Channel, g: Channel, b: Channel, step: nat, count: nat): (cs: seq<string>)
    ensures |cs| == count
    decreases count
  {
    if count == 0 then []
    else
      var r', g', b' := (r + step) % 256, (g + step) % 256, (b + step) % 256;
      [FormatColor(r', g', b')] + ColorRun(r', g', b', step, count - 1)
  }

  /** Every colour of the loop is well formed. */
  lemma ColorRunWellFormed(r: Channel, g: Channel, b: Channel, step: nat, count: nat)
    ensures forall k :: 0 <= k < count ==> IsHexColor(ColorRun(r, g, b, step, count)[k])
  {
    forall k | 0 <= k < count
      ensures IsHexColor(ColorRun(r, g, b, step, count)[k])
    {
      ColorRunClosedForm(r, g, b, step, count, k);
      FormatColorParses(ChannelAt(r, step, k), ChannelAt(g, step, k), ChannelAt(b, step, k));
    }
  }

  /** The `i`-th colour of the loop is the channel triple after `i + 1` steps
      from the start, in closed form. */
  lemma {:induction false} ColorRunClosedForm(r: Channel, g: Channel, b: Channel, step: nat, count: nat, i: nat)
    requires i < count
    ensures ColorRun(r, g, b, step, count)[i]
            == FormatColor(ChannelAt(r, step, i), ChannelAt(g, step, i), ChannelAt(b, step, i))
    decreases i
  {
    if i > 0 {
      var r', g', b' := (r + step) % 256, (g + step) % 256, (b + step) % 256;
      ColorRunClosedForm(r', g', b', step, count - 1, i - 1);
      ClosedFormStep(r, g, b, r', g', b', step, count, i);
    } else {
      ClosedFormFirst(r, g, b, step, count);
    }
  }

  /** The first colour of the loop is the channel triple after one step. */
  lemma ClosedFormFirst(r: Channel, g: Channel, b: Channel, step: nat, count: nat)
    requires 0 < count
    ensures ColorRun(r, g, b, step, count)[0]
            == FormatColor(ChannelAt(r, step, 0), ChannelAt(g, step, 0), ChannelAt(b, step, 0))
  {
    ColorRunHead(r, g, b, step, count);
    ChannelAtFirst(r, step);
    ChannelAtFirst(g, step);
    ChannelAtFirst(b, step);
  }

  /** The inductive step of the closed form: the `i`-th colour is the
      `(i - 1)`-th colour of the run started one step later. */
  lemma ClosedFormStep(r: Channel, g: Channel, b: Channel, r': Channel, g': Channel, b': Channel, step: nat, count: nat, i: nat)
    requires 0 < i < count
    requires r' == (r + step) % 256 && g' == (g + step) % 256 && b' == (b + step) % 256
    requires ColorRun(r', g', b', step, count - 1)[i - 1]
             == FormatColor(ChannelAt(r', step, i - 1), ChannelAt(g', step, i - 1), ChannelAt(b', step, i - 1))
    ensures ColorRun(r, g, b, step, count)[i]
            == FormatColor(ChannelAt(r, step, i), ChannelAt(g, step, i), ChannelAt(b, step, i))
  {
    ColorRunTail(r, g, b, step, count, i);
    ChannelShift(r, step, i - 1);
    ChannelShift(g, step, i - 1);
    ChannelShift(b, step, i - 1);
  }

  lemma ColorRunHead(r: Channel, g: Channel, b: Channel, step: nat, count: nat)
    requires 0 < count
    ensures ColorRun(r, g, b, step, count)[0] == FormatColor((r + step) % 256, (g + step) % 256, (b + step) % 256)
  {
  }

  lemma ChannelAtFirst(c: int, step: nat)
    ensures ChannelAt(c, step, 0) == (c + step) % 256
  {
    assert Offset(step, 1) == Offset(step, 0) + step;
  }

  lemma ColorRunTail(r: Channel, g: Channel, b: Channel, step: nat, count: nat, i: nat)
    requires 0 < i < count
    ensures ColorRun(r, g, b, step, count)[i]
            == ColorRun((r + step) % 256, (g + step) % 256, (b + step) % 256, step, count - 1)[i - 1]
  {
  }

  /** `256 / n`: Python's float step added to an integer channel and truncated
      gives the same channel as adding the integer quotient. */
  function Step(n: nat): nat
    requires n > 0
  {
    256 / n
  }

  /** `generate_colors(n)` with the random start channels given. Python's float
      step `256 / n` is added to an integer and truncated, which is the integer
      quotient `256 / n`. `n == 0` divides by zero. */
  function GenerateColors(n: nat, r: Channel, g: Channel, b: Channel): (res: Result<seq<string>>)
    ensures res.Err? <==> n == 0
    ensures res.Err? ==> res.error == NoColors
    ensures res.Ok? ==> |res.value| == n && forall k :: 0 <= k < n ==> IsHexColor(res.value[k])
  {
    if n == 0 then Err(NoColors)
    else
      ColorRunWellFormed(r, g, b, Step(n), n);
      Ok(ColorRun(r, g, b, Step(n), n))
  }

  /** The `i`-th generated colour has every channel advanced `i + 1` times by
      `256 / n` from its random start. */
  lemma GeneratedChannels(n: nat, r: Channel, g: Channel, b: Channel, i: nat)
    requires i < n
    ensures GenerateColors(n, r, g, b).value[i]
            == FormatColor(ChannelAt(r, Step(n), i), ChannelAt(g, Step(n), i), ChannelAt(b, Step(n), i))
  {
    ColorRunClosedForm(r, g, b, Step(n), n, i);
  }

  /** Every channel advances by the same amount, so the differences between
      channels, modulo 256, are those of the random start for every colour. */
  lemma ChannelDifferenceConstant(c: int, d: int, step: nat, i: nat)
    ensures (ChannelAt(d, step, i) - ChannelAt(c, step, i)) % 256 == (d - c) % 256
  {
    var y := Offset(step, i + 1);
    var x1, x2 := c + y, d + y;
    assert x1 == 256 * (x1 / 256) + ChannelAt(c, step, i);
    assert x2 == 256 * (x2 / 256) + ChannelAt(d, step, i);
    assert ChannelAt(d, step, i) - ChannelAt(c, step, i) == (d - c) + 256 * (x1 / 256 - x2 / 256);
    ModAddMultiple(d - c, x1 / 256 - x2 / 256);
  }

  /** Offsets add up. */
  lemma {:induction false} OffsetAdd(step: nat, a: nat, b: nat)
    ensures Offset(step, a + b) == Offset(step, a) + Offset(step, b)
    decreases b
  {
    if b > 0 {
      OffsetAdd(step, a, b - 1);
    }
  }

  /** Adding a positive amount below 256 always changes a value modulo 256. */
  lemma ModShiftChanges(x: int, gap: int)
    requires 0 < gap < 256
    ensures (x + gap) % 256 != x % 256
  {
    var y := x + gap;
    assert x == 256 * (x / 256) + x % 256;
    assert y == 256 * (y / 256) + y % 256;
  }

  /** Different step counts whose distance stays below one turn of the colour
      wheel give different channel values. */
  lemma ChannelsApart(c: int, step: nat, i: nat, j: nat)
    requires 1 <= step && i < j && Offset(step, j - i) < 256
    ensures ChannelAt(c, step, i) != ChannelAt(c, step, j)
  {
    OffsetAdd(step, i + 1, j - i);
    assert i + 1 + (j - i) == j + 1;
    OffsetStepFirst(step, j - i - 1);
    ModShiftChanges(c + Offset(step, i + 1), Offset(step, j - i));
  }

  /** For up to 256 flows the colours are pairwise distinct: the red channels
      of two different colours differ by a non-zero multiple of the step that
      is less than 256. */
  lemma ColorsDistinct(n: nat, r: Channel, g: Channel, b: Channel, i: nat, j: nat)
    requires 1 <= n <= 256 && i < j < n
    ensures GenerateColors(n, r, g, b).value[i] != GenerateColors(n, r, g, b).value[j]
  {
    var step := Step(n);
    StepBounds(n, i, j);
    ChannelsApart(r, step, i, j);
    GeneratedChannels(n, r, g, b, i);
    GeneratedChannels(n, r, g, b, j);
    FormatDistinct(ChannelAt(r, step, i), ChannelAt(g, step, i), ChannelAt(b, step, i),
                   ChannelAt(r, step, j), ChannelAt(g, step, j), ChannelAt(b, step, j));
  }

  /** Colours with different red channels are formatted differently. */
  lemma FormatDistinct(r1: Channel, g1: Channel, b1: Channel, r2: Channel, g2: Channel, b2: Channel)
    requires r1 != r2
    ensures FormatColor(r1, g1, b1) != FormatColor(r2, g2, b2)
  {
    FormatColorParses(r1, g1, b1);
    FormatColorParses(r2, g2, b2);
  }

  lemma StepBounds(n: nat, i: nat, j: nat)
    requires 1 <= n <= 256 && i < j < n
    ensures 1 <= Step(n) && Offset(Step(n), j - i) < 256
  {
    var step := Step(n);
    StepFits(n);
    OffsetIsProduct(step, j - i);
    MulMonotone(j - i, n - 1, step);
    assert (n - 1) * step == n * step - step;
  }

  /** `n` steps of `256 / n` fit in one turn of the colour wheel. */
  lemma StepFits(n: nat)
    requires 1 <= n <= 256
    ensures 1 <= Step(n) && n * Step(n) <= 256
  {
    var q, m := 256 / n, 256 % n;
    assert 256 == n * q + m;
  }

  /** Multiplication by a natural number keeps order; Z3 does not find this
      unaided among the other facts of StepBounds. */
  lemma MulMonotone(a: nat, b: nat, c: nat)
    requires a <= b
    ensures a * c <= b * c
  {
  }
}
