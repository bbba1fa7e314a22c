// Palette colours and the distance between them.
module Palette {
  import opened Bytes

  datatype Colour = Colour(red: Byte, green: Byte, blue: Byte, flags: Byte)

  predicate SameRgb(a: Colour, b: Colour) {
    a.red == b.red && a.green == b.green && a.blue == b.blue
  }

  // A weighted square; a shift to the right by eight divides it by 256.
  function Weighted(weight: int, x: int, divisor: int): int
    requires divisor > 0
  {
    weight * x * x / divisor
  }

  // What `colour_distance` takes the square root of. The root is strictly monotone
  // on these values, so comparing distances is comparing them.
  function SquaredDistance(a: Colour, b: Colour): int {
    var mean: int := (a.red + b.red) / 2;
    Weighted(512 + mean, a.red - b.red, 256) + Weighted(4, a.green - b.green, 1)
      + Weighted(767 - mean, a.blue - b.blue, 256)
  }

  lemma WeightedIsPositive(weight: int, x: int, divisor: int)
    requires 0 < divisor <= weight
    ensures Weighted(weight, x, divisor) >= 0
    ensures Weighted(weight, x, divisor) == 0 <==> x == 0
  {
    if x != 0 {
      SquareIsPositive(weight, x);
      Quotient(weight * x * x, weight, divisor);
    }
  }

  lemma SquareIsPositive(weight: int, x: int)
    requires weight > 0 && x != 0
    ensures weight * x * x >= weight
  {
    var square := x * x;
    assert square >= 1;
    assert weight * square >= weight;
    assert weight * x * x == weight * square;
  }

  lemma Quotient(n: int, weight: int, divisor: int)
    requires 0 < divisor <= weight <= n
    ensures n / divisor > 0
  {
  }

  // The distance is zero exactly between colours with the same red, green and blue.
  lemma ZeroExactlyForSameRgb(a: Colour, b: Colour)
    ensures SquaredDistance(a, b) >= 0
    ensures SquaredDistance(a, b) == 0 <==> SameRgb(a, b)
  {
    hide Weighted;
    var mean := (a.red + b.red) / 2;
    WeightedIsPositive(512 + mean, a.red - b.red, 256);
    WeightedIsPositive(4, a.green - b.green, 1);
    WeightedIsPositive(767 - mean, a.blue - b.blue, 256);
  }

  // What green, blue and red contribute: green four times the square of the difference, red
  // and blue between two and three times, red the more the more red there is.
  lemma Contributions(a: Colour, b: Colour)
    ensures var mean := (a.red as int + b.red as int) / 2;
            var r, g, c := a.red as int - b.red as int, a.green as int - b.green as int, a.blue as int - b.blue as int;
            && SquaredDistance(a, b) - SquaredDistance(a, b.(green := a.green)) == 4 * g * g
            && SquaredDistance(a, b) - SquaredDistance(a, b.(blue := a.blue)) == (767 - mean) * c * c / 256
            && SquaredDistance(a, b.(green := a.green, blue := a.blue)) == (512 + mean) * r * r / 256
  {
    hide Weighted;
    var mean := (a.red as int + b.red as int) / 2;
    WeightedIs(512 + mean, a.red as int - b.red as int, 256);
    WeightedIs(4, a.green as int - b.green as int, 1);
    WeightedIs(767 - mean, a.blue as int - b.blue as int, 256);
    WeightedIs(4, 0, 1);
    WeightedIs(767 - mean, 0, 256);
  }

  lemma WeightedIs(weight: int, x: int, divisor: int)
    requires divisor > 0
    ensures Weighted(weight, x, divisor) == weight * x * x / divisor
    ensures divisor == 1 ==> Weighted(weight, x, divisor) == weight * x * x
    ensures x == 0 ==> Weighted(weight, x, divisor) == 0
  {
  }
}
