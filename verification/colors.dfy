/** The brick colouring patterns and the table that selects among them (breakout.c
    rainbow_colors, alternating_colors, zebra_colors, sphere_colors, france_colors,
    brick_color_functions, get_color_for_brick). Colours are 0xaabbggrr words. */
module Colors {
  import opened Grid

  type Pixel = bv32

  /** The rainbow table: thirteen entries, of which only the first BrickRows are ever read. */
  const RainbowTable: seq<Pixel> := [
    0xff2800ff, 0xff0048ff, 0xff00b9ff, 0xff00ffd2, 0xff00ff5b, 0xff15ff00, 0xff86ff00,
    0xfffcff00, 0xffff8f00, 0xffff1d00, 0xffff005a, 0xffff00cc, 0xffbf00ff
  ]

  const Red: Pixel := 0xff0000ff
  const Blue: Pixel := 0xffff0000
  const White: Pixel := 0xffffffff
  const Black: Pixel := 0xff000000

  function RainbowColors(x: nat, y: nat): Pixel {
    RainbowTable[y % BrickRows]
  }

  function AlternatingColors(x: nat, y: nat): Pixel {
    if (x + y) % 2 == 0 then Blue else Red
  }

  function ZebraColors(x: nat, y: nat): Pixel {
    if y % 2 == 0 then White else Black
  }

  /** The size_t sum of squares that sphere_colors takes the square root of, with the
      unsigned wrap-around of `x - BRICKS_PER_ROW / 2` written out. */
  function SphereDistanceSquared(x: nat, y: nat): nat {
    var dx := SizeSub(x, BricksPerRow / 2);
    var dy := SizeSub(y, BrickRows / 2);
    (SizeMul(dx, dx) + SizeMul(dy, dy)) % SizeModulus
  }

  /** sphere_colors. The source truncates the double square root of the distance to an
      integer radius and compares it with 4 and 5; since the square root is correctly
      rounded and 16 and 25 are perfect squares, `radius < 4` holds exactly when the
      squared distance is below 16, and `radius < 5` when it is below 25. */
  function SphereColors(x: nat, y: nat): Pixel {
    var d := SphereDistanceSquared(x, y);
    if d < 16 then Red else if d < 25 then Black else White
  }

  function FranceColors(x: nat, y: nat): Pixel {
    if x < BricksPerRow / 3 then Blue
    else if x < 2 * BricksPerRow / 3 then White
    else Red
  }

  /** get_color_for_brick: the pattern selected by the state's colour index. The index
      must be a valid table position, which the state invariant guarantees. Each pattern
      draws from its own palette; the rainbow never reaches the table's last entry. */
  function ColorFor(func: nat, x: nat, y: nat): (c: Pixel)
    requires func < ColorFuncCount
    ensures func == 0 ==> c in RainbowTable[..BrickRows]
    ensures func == 1 ==> c == Blue || c == Red
    ensures func == 2 ==> c == White || c == Black
    ensures func == 3 ==> c == Red || c == Black || c == White
    ensures func == 4 ==> c == Blue || c == White || c == Red
  {
    match func
    case 0 => RainbowColors(x, y)
    case 1 => AlternatingColors(x, y)
    case 2 => ZebraColors(x, y)
    case 3 => SphereColors(x, y)
    case 4 => FranceColors(x, y)
  }

  /** Whatever the pattern and the cell, get_color_for_brick yields a fully opaque colour:
      the alpha byte of the 0xaabbggrr word is 0xff. */
  lemma ColorsAreOpaque(func: nat, x: nat, y: nat)
    requires func < ColorFuncCount
    ensures ColorFor(func, x, y) >> 24 == 0xff
  {
    if func == 0 {
      var row := y % BrickRows;
      assert forall n | 0 <= n < |RainbowTable| :: RainbowTable[n] >> 24 == 0xff;
      assert RainbowTable[row] >> 24 == 0xff;
    }
  }

  /** Every row of the grid gets its own rainbow colour, whatever the column. */
  lemma RainbowRowsDistinct(x1: nat, y1: nat, x2: nat, y2: nat)
    requires InGrid(x1, y1) && InGrid(x2, y2)
    ensures RainbowColors(x1, y1) == RainbowColors(x2, y2) <==> y1 == y2
  {
  }

  /** Neighbouring cells alternate; diagonal neighbours agree. */
  lemma AlternatingIsCheckerboard(x: nat, y: nat)
    ensures AlternatingColors(x, y) != AlternatingColors(x + 1, y)
    ensures AlternatingColors(x, y) != AlternatingColors(x, y + 1)
    ensures AlternatingColors(x, y) == AlternatingColors(x + 1, y + 1)
  {
  }

  /** Zebra stripes are whole rows that alternate. */
  lemma ZebraIsRowStripes(x1: nat, x2: nat, y: nat)
    ensures ZebraColors(x1, y) == ZebraColors(x2, y)
    ensures ZebraColors(x1, y) != ZebraColors(x1, y + 1)
  {
  }

  /** The flag is three bands of three columns each. */
  lemma FranceIsThreeBands(x1: nat, y1: nat, x2: nat, y2: nat)
    requires InGrid(x1, y1) && InGrid(x2, y2)
    ensures FranceColors(x1, y1) == FranceColors(x2, y2) <==> x1 / 3 == x2 / 3
  {
  }

  /** On the grid the unsigned wrap-around cancels: the sum is the true squared distance
      from the centre cell (4, 6). */
  lemma SphereWrapCancels(x: nat, y: nat)
    requires InGrid(x, y)
    ensures SphereDistanceSquared(x, y) == (x - 4) * (x - 4) + (y - 6) * (y - 6)
  {
    assert BricksPerRow / 2 == 4 && BrickRows / 2 == 6;
    var dx := SizeSub(x, 4);
    var dy := SizeSub(y, 6);
    assert dx == (x - 4) % SizeModulus && dy == (y - 6) % SizeModulus;
    SquareWrap(x - 4);
    SquareWrap(y - 6);
    var sx := SizeMul(dx, dx);
    var sy := SizeMul(dy, dy);
    assert sx == (x - 4) * (x - 4) && sy == (y - 6) * (y - 6);
    assert SphereDistanceSquared(x, y) == (sx + sy) % SizeModulus;
  }

  /** Squaring a small difference gives its true square even when the difference wrapped. */
  lemma SquareWrap(d: int)
    requires -6 <= d <= 6
    ensures SizeMul(d % SizeModulus, d % SizeModulus) == d * d
    ensures 0 <= d * d <= 36
  {
    var a := if d < 0 then -d else d;
    MulMonotone(a, 6, a);
    MulMonotone(a, 6, 6);
    assert d * d == a * a;
    if d < 0 {
      var w := SizeModulus + d;
      assert d % SizeModulus == w;
      assert w * w == SizeModulus * (SizeModulus + 2 * d) + d * d;
      ModAfterMultiple(SizeModulus + 2 * d, d * d);
    } else {
      assert d % SizeModulus == d;
    }
  }

  lemma ModAfterMultiple(q: int, r: int)
    requires 0 <= r < SizeModulus
    ensures (SizeModulus * q + r) % SizeModulus == r
  {
  }

  /** The sphere pattern is a red disc inside a black ring on white, mirror-symmetric
      about the centre column. */
  lemma SphereIsSymmetric(x: nat, y: nat)
    requires InGrid(x, y)
    ensures SphereColors(x, y) == SphereColors(BricksPerRow - 1 - x, y)
    ensures SphereColors(x, y) == Red <==> (x - 4) * (x - 4) + (y - 6) * (y - 6) < 16
  {
    var x' := BricksPerRow - 1 - x;
    SphereWrapCancels(x, y);
    SphereWrapCancels(x', y);
    MirrorSquare(x - 4, x' - 4);
  }

  lemma MirrorSquare(a: int, b: int)
    requires b == -a
    ensures b * b == a * a
  {
  }

}
