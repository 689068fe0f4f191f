/** `colorToIRCCompatible` (bot/discord.go): the IRC colour code closest to a Discord embed
    colour, by squared distance in RGB over a palette of the IRC colours 2 to 15. */
module DiscordColor {
  import opened Bytes

  /** `[3]uint8`: red, green, blue. */
  type Rgb = s: seq<byte> | |s| == 3 witness [0, 0, 0]

  /** `ircColors` as the source writes it: IRC colours 2..15, white and black left out. */
  const IrcColors: seq<Rgb> := [
    [0x00, 0x00, 0xAA], [0x00, 0xAA, 0x00], [0xFF, 0x55, 0x55], [0xAA, 0x00, 0x00],
    [0xAA, 0x00, 0xAA], [0xFF, 0x55, 0x55], [0xFF, 0xFF, 0x55], [0x55, 0xFF, 0x55],
    [0x00, 0xAA, 0xAA], [0x55, 0xFF, 0xFF], [0x55, 0x55, 0xFF], [0xFF, 0x55, 0xFF],
    [0x55, 0x55, 0x55], [0xAA, 0xAA, 0xAA]]

  /** The same table with IRC colour 7 (orange) as `AA5500` in the sixth entry. */
  const CorrectedColors: seq<Rgb> := [
    [0x00, 0x00, 0xAA], [0x00, 0xAA, 0x00], [0xFF, 0x55, 0x55], [0xAA, 0x00, 0x00],
    [0xAA, 0x00, 0xAA], [0xAA, 0x55, 0x00], [0xFF, 0xFF, 0x55], [0x55, 0xFF, 0x55],
    [0x00, 0xAA, 0xAA], [0x55, 0xFF, 0xFF], [0x55, 0x55, 0xFF], [0xFF, 0x55, 0xFF],
    [0x55, 0x55, 0x55], [0xAA, 0xAA, 0xAA]]

  /** `squaredDifference`: the subtraction is done in the direction that cannot wrap, and
      the square of a difference of two bytes fits in a `uint32`. */
  function SquaredDifference(a: byte, b: byte): (d: nat)
    ensures d == (a as int - b as int) * (a as int - b as int)
    ensures d == 0 <==> a == b
    ensures d <= 255 * 255
  {
    var diff := if a > b then (a - b) as int else (b - a) as int;
    SquareOfByteDifference(a as int, b as int, diff);
    diff * diff
  }

  /** The square of the non-negative difference of two bytes. */
  lemma SquareOfByteDifference(a: int, b: int, diff: int)
    requires 0 <= a <= 255 && 0 <= b <= 255
    requires diff == if a > b then a - b else b - a
    ensures diff * diff == (a - b) * (a - b)
    ensures diff * diff == 0 <==> a == b
    ensures diff * diff <= 255 * 255
  {
    var x := a - b;
    if a <= b {
      NegatedSquare(x);
      assert diff == -x;
    }
    SquareBound(diff);
  }

  /** The square of a byte is at most the square of 255, and zero only for zero. */
  lemma SquareBound(d: int)
    requires 0 <= d <= 255
    ensures d * d <= 255 * 255
    ensures d * d == 0 <==> d == 0
  {
    MulMonotone(d, 255, d);
    MulMonotone(d, 255, 255);
    if d != 0 {
      MulMonotone(1, d, d);
    }
  }

  lemma MulMonotone(x: int, y: int, z: int)
    requires 0 <= x <= y && 0 <= z
    ensures x * z <= y * z
  {
  }

  lemma NegatedSquare(x: int)
    ensures (-x) * (-x) == x * x
  {
  }

  /** The distance summed over the first `n` channels. */
  function PartialDistance(t: Rgb, c: Rgb, n: nat): (d: nat)
    requires n <= 3
    ensures d <= n * (255 * 255)
    ensures d == 0 <==> t[..n] == c[..n]
  {
    if n == 0 then 0
    else
      assert t[..n] == t[..n - 1] + [t[n - 1]] && c[..n] == c[..n - 1] + [c[n - 1]];
      PartialDistance(t, c, n - 1) + SquaredDifference(t[n - 1], c[n - 1])
  }

  /** The squared RGB distance of two colours. */
  function Distance(t: Rgb, c: Rgb): nat
  {
    PartialDistance(t, c, 3)
  }

  /** A distance is zero exactly between equal colours, and never comes near the `uint32`
      limit, so `distance +=` does not wrap and the first entry always beats the initial
      `minDistance` of `0xFFFFFFFF`. */
  lemma DistanceBounds(t: Rgb, c: Rgb)
    ensures Distance(t, c) <= 3 * 255 * 255 < 0xFFFF_FFFF
    ensures Distance(t, c) == 0 <==> t == c
  {
    assert t[..3] == t && c[..3] == c;
  }

  /** `target`: `uint8(color >> 16)`, `uint8(color >> 8)`, `uint8(color)`. Go's `>>` on a
      signed integer floors and `uint8(...)` keeps the low eight bits; Dafny's `/` and `%`
      by a positive constant do the same. */
  function Target(color: int): Rgb
  {
    [((color / 0x1_0000) % 0x100) as byte, ((color / 0x100) % 0x100) as byte, (color % 0x100) as byte]
  }

  /** `0xRRGGBB` with the three channels given. */
  function Pack(c: Rgb): int
  {
    c[0] as int * 0x1_0000 + c[1] as int * 0x100 + c[2] as int
  }

  /** Splitting an embed colour into channels is the inverse of packing them. */
  lemma TargetPack(c: Rgb)
    ensures Target(Pack(c)) == c
  {
    var r, g, b := c[0] as int, c[1] as int, c[2] as int;
    var x := Pack(c);
    assert x / 0x100 == r * 0x100 + g;
    assert x / 0x1_0000 == r;
  }

  /** Only the low 24 bits of the colour matter: a value of `color` with higher bits set
      picks the same target as those 24 bits. */
  lemma TargetLow24(color: int)
    ensures Target(color) == Target(color % 0x100_0000)
  {
    var low := color % 0x100_0000;
    var q := color / 0x100_0000;
    ShiftLow(color, q, low, 0x1_0000, 0x100);
    DivideByte(color / 0x1_0000, q, low / 0x1_0000);
    ShiftLow(color, q, low, 0x100, 0x1_0000);
    DivideByte(color / 0x100, q * 0x100, low / 0x100);
    DivideByte(color, q * 0x1_0000, low);
  }

  /** `x` is `q` whole bytes above `r`, so its low byte is that of `r`. */
  lemma DivideByte(x: int, q: int, r: int)
    requires x == q * 0x100 + r && 0 <= r
    ensures x % 0x100 == r % 0x100
  {
  }

  /** Shifting right by `d` (a power of two dividing 2^24) commutes with splitting off the
      bits above bit 24. */
  lemma ShiftLow(color: int, q: int, low: int, d: int, m: int)
    requires d * m == 0x100_0000 && (d == 0x1_0000 || d == 0x100)
    requires q == color / 0x100_0000 && low == color % 0x100_0000
    ensures color / d == q * m + low / d
  {
  }

  // ---------------------------------------------------------------------------------------
  // The nearest palette entry

  /** The index the loop keeps: the entry closest to `t`, the earliest one among equals
      (`distance < minDistance` is strict). */
  function NearestIndex(t: Rgb, palette: seq<Rgb>): (k: nat)
    requires palette != []
    ensures k < |palette|
    decreases |palette|
  {
    if |palette| == 1 then 0
    else
      var k := NearestIndex(t, palette[..|palette| - 1]);
      if Distance(t, palette[|palette| - 1]) < Distance(t, palette[k]) then |palette| - 1 else k
  }

  /** `k` is the earliest among the palette entries nearest to `t`. */
  predicate IsEarliestNearest(t: Rgb, palette: seq<Rgb>, k: int)
  {
    0 <= k < |palette|
    && (forall j :: 0 <= j < |palette| ==> Distance(t, palette[k]) <= Distance(t, palette[j]))
    && (forall j :: 0 <= j < k ==> Distance(t, palette[k]) < Distance(t, palette[j]))
  }

  lemma {:induction false} NearestIndexIsEarliestNearest(t: Rgb, palette: seq<Rgb>)
    requires palette != []
    ensures IsEarliestNearest(t, palette, NearestIndex(t, palette))
    decreases |palette|
  {
    if |palette| > 1 {
      var init := palette[..|palette| - 1];
      NearestIndexIsEarliestNearest(t, init);
      assert forall j :: 0 <= j < |init| ==> init[j] == palette[j];
    }
  }

  /** There is only one earliest nearest entry. */
  lemma EarliestNearestUnique(t: Rgb, palette: seq<Rgb>, k: int, m: int)
    requires IsEarliestNearest(t, palette, k) && IsEarliestNearest(t, palette, m)
    ensures k == m
  {
    assert Distance(t, palette[k]) <= Distance(t, palette[m]);
    assert Distance(t, palette[m]) <= Distance(t, palette[k]);
  }

  /** The code the conversion returns: `uint8(i) + 2` for the earliest nearest entry `i`,
      or 0 when the palette is empty. */
  function NearestCode(t: Rgb, palette: seq<Rgb>): byte
  {
    if palette == [] then 0 else CodeOf(NearestIndex(t, palette))
  }

  /** `uint8(i) + 2`, wrapping as `uint8` does. */
  function CodeOf(i: nat): (code: byte)
    ensures i < 0xFE ==> code as int == i + 2
  {
    ((i % 0x100 + 2) % 0x100) as byte
  }

  /** The inner loop of `colorToIRCCompatible`: `distance += squaredDifference(...)` over
      the three channels, in `uint32`. */
  method ChannelDistance(target: Rgb, col: Rgb) returns (distance: nat)
    ensures distance == Distance(target, col)
    ensures distance < 0xFFFF_FFFF
  {
    distance := 0;
    var index := 0;
    while index < 3
      invariant 0 <= index <= 3
      invariant distance == PartialDistance(target, col, index)
    {
      distance := (distance + SquaredDifference(target[index], col[index])) % 0x1_0000_0000;
      index := index + 1;
    }
    DistanceBounds(target, col);
  }

  /** `colorToIRCCompatible`, over the palette it searches. */
  method ColorToIrc(color: int, palette: seq<Rgb>) returns (code: byte)
    ensures code == NearestCode(Target(color), palette)
  {
    var target := Target(color);
    var minDistance: int := 0xFFFF_FFFF;
    var minIndex: byte := 0;
    ghost var best := 0;
    var i := 0;
    while i < |palette|
      invariant 0 <= i <= |palette|
      invariant i == 0 ==> minDistance == 0xFFFF_FFFF && minIndex == 0
      invariant i > 0 ==> best == NearestIndex(target, palette[..i]) && minDistance == Distance(target, palette[best])
      invariant i > 0 ==> minIndex == CodeOf(best)
    {
      var distance := ChannelDistance(target, palette[i]);
      NearestIndexStep(target, palette, i);
      if distance < minDistance {
        minDistance := distance;
        minIndex := CodeOf(i);
        best := i;
      }
      i := i + 1;
    }
    assert palette[..|palette|] == palette;
    code := minIndex;
  }

  /** One more entry: it wins when strictly closer than the best so far. */
  lemma NearestIndexStep(t: Rgb, palette: seq<Rgb>, i: nat)
    requires i < |palette|
    ensures i == 0 ==> NearestIndex(t, palette[..i + 1]) == 0
    ensures i > 0 ==> var k := NearestIndex(t, palette[..i]);
                      NearestIndex(t, palette[..i + 1]) == if Distance(t, palette[i]) < Distance(t, palette[k]) then i else k
  {
    assert palette[..i + 1][..i] == palette[..i];
  }

  // ---------------------------------------------------------------------------------------
  // The palette

  /** Over the fourteen-entry table every colour gets a code from 2 to 15. */
  lemma CodesInRange(t: Rgb, palette: seq<Rgb>)
    requires |palette| == 14
    ensures 2 <= NearestCode(t, palette) <= 15
  {
    var k := NearestIndex(t, palette);
    assert NearestCode(t, palette) as int == k + 2;
  }

  /** When the entries are all different, each entry's own colour gets that entry's code. */
  lemma DistinctEntriesOwnCode(palette: seq<Rgb>, k: nat)
    requires k < |palette| < 0xFE
    requires forall i, j :: 0 <= i < j < |palette| ==> palette[i] != palette[j]
    ensures NearestCode(palette[k], palette) as int == k + 2
  {
    forall j | 0 <= j < |palette| ensures Distance(palette[k], palette[k]) <= Distance(palette[k], palette[j]) {
      DistanceBounds(palette[k], palette[k]);
    }
    forall j | 0 <= j < k ensures Distance(palette[k], palette[k]) < Distance(palette[k], palette[j]) {
      DistanceBounds(palette[k], palette[k]);
      DistanceBounds(palette[k], palette[j]);
    }
    NearestIndexIsEarliestNearest(palette[k], palette);
    EarliestNearestUnique(palette[k], palette, k, NearestIndex(palette[k], palette));
  }

  /** A later entry equal to an earlier one is never the earliest nearest. */
  lemma DuplicateNeverChosen(t: Rgb, palette: seq<Rgb>, i: nat, j: nat)
    requires i < j < |palette| && palette[i] == palette[j]
    ensures palette != [] && NearestIndex(t, palette) != j
  {
    NearestIndexIsEarliestNearest(t, palette);
  }

  /** The corrected table has no two equal entries. */
  lemma CorrectedColorsDistinct()
    ensures forall i, j :: 0 <= i < j < |CorrectedColors| ==> CorrectedColors[i] != CorrectedColors[j]
  {
  }

  /** As written, the table holds `FF5555` twice (entries three and six), so no embed colour
      is ever shown as IRC colour 7. */
  lemma AsWrittenNeverSeven(color: int)
    ensures ColorCodeAsWritten(color) != 7
  {
    var t := Target(color);
    DuplicateNeverChosen(t, IrcColors, 2, 5);
    var k := NearestIndex(t, IrcColors);
    assert NearestCode(t, IrcColors) as int == k + 2;
  }

  /** `FF5555`, the colour written twice, comes out as 4. */
  lemma AsWrittenRedIsFour()
    ensures ColorCodeAsWritten(0xFF5555) == 4
  {
    var red: Rgb := [0xFF, 0x55, 0x55];
    TargetPack(red);
    assert Pack(red) == 0xFF5555;
    DuplicateOwnCode(red);
  }

  lemma DuplicateOwnCode(red: Rgb)
    requires red == IrcColors[2]
    ensures NearestCode(red, IrcColors) == 4
  {
    forall j | 0 <= j < |IrcColors| ensures Distance(red, IrcColors[2]) <= Distance(red, IrcColors[j]) {
      DistanceBounds(red, IrcColors[2]);
    }
    forall j | 0 <= j < 2 ensures Distance(red, IrcColors[2]) < Distance(red, IrcColors[j]) {
      DistanceBounds(red, IrcColors[2]);
      DistanceBounds(red, IrcColors[j]);
    }
    NearestIndexIsEarliestNearest(red, IrcColors);
    EarliestNearestUnique(red, IrcColors, 2, NearestIndex(red, IrcColors));
  }

  /** With the corrected table, orange `AA5500` is IRC colour 7, and every entry of the
      table maps to its own code. */
  lemma CorrectedOrangeIsSeven(k: nat)
    requires k < |CorrectedColors|
    ensures ColorCode(0xAA5500) == 7
    ensures NearestCode(CorrectedColors[k], CorrectedColors) as int == k + 2
  {
    CorrectedColorsDistinct();
    DistinctEntriesOwnCode(CorrectedColors, k);
    DistinctEntriesOwnCode(CorrectedColors, 5);
    var orange: Rgb := [0xAA, 0x55, 0x00];
    TargetPack(orange);
    assert Pack(orange) == 0xAA5500;
  }

  /** The code the bot uses for an embed colour, over the table as written. */
  function ColorCodeAsWritten(color: int): byte
  {
    NearestCode(Target(color), IrcColors)
  }

  /** The code the rest of the model uses, over the corrected table. */
  function ColorCode(color: int): (code: byte)
    ensures 2 <= code <= 15
  {
    CodesInRange(Target(color), CorrectedColors);
    NearestCode(Target(color), CorrectedColors)
  }
}
