/** The day-loop game's generator: xorshift32 with shifts 13, 17 and 5 over a
    single 32-bit word. The closure's mutable word is threaded explicitly. */
module XorShift {
  import opened Common

  const Pow32: int := 0x1_0000_0000

  /** A draw: the raw unsigned output and the word the generator now holds. */
  datatype Sample<T> = Sample(value: T, state: bv32)

  /** `seed >>> 0` of an integral seed. */
  function Seed(seed: int): bv32 {
    (seed % Pow32) as bv32
  }

  function Shift(s: bv32): bv32 {
    var s1 := s ^ (s << 13);
    var s2 := s1 ^ (s1 >> 17);
    s2 ^ (s2 << 5)
  }

  /** `next()`: one xorshift step; the fraction returned is raw / 2^32. */
  function Next(s: bv32): (r: Sample<nat>)
    ensures r.state == Shift(s)
    ensures r.value < Pow32
  {
    var s' := Shift(s);
    Sample(s' as int, s')
  }

  function Fraction(raw: nat): real {
    raw as real / Pow32 as real
  }

  /** Every fraction lies in [0, 1). */
  lemma FractionRange(raw: nat)
    requires raw < Pow32
    ensures 0.0 <= Fraction(raw) < 1.0
  {
    assert raw as real < Pow32 as real;
  }

  /** The zero word is absorbing: a seed that is a multiple of 2^32 draws 0 forever. */
  lemma ZeroAbsorbing(seed: int)
    requires seed % Pow32 == 0
    ensures Seed(seed) == 0 && Next(Seed(seed)).state == 0 && Next(Seed(seed)).value == 0
  {
  }

  /** Each xorshift stage is invertible, so a non-zero word never reaches zero. */
  lemma NonZeroStaysNonZero(s: bv32)
    requires s != 0
    ensures Shift(s) != 0
  {
    var s1 := s ^ (s << 13);
    var s2 := s1 ^ (s1 >> 17);
    assert s1 != 0;
    assert s2 != 0;
  }

  function Ceil(x: real): int {
    -((-x).Floor)
  }

  /** `int(min, max)`: throws when floor(max) < ceil(min); otherwise one draw
      scaled onto [ceil(min), floor(max)]. */
  function Int(s: bv32, minInclusive: real, maxInclusive: real): (r: Result<Sample<int>>)
    ensures r.Err? <==> maxInclusive.Floor < Ceil(minInclusive)
    ensures r.Ok? ==> Ceil(minInclusive) <= r.value.value <= maxInclusive.Floor
    ensures r.Ok? ==> r.value.state == Shift(s)
  {
    var min := Ceil(minInclusive);
    var max := maxInclusive.Floor;
    if max < min then Err(InvalidIntRange)
    else
      var draw := Next(s);
      var span := max - min + 1;
      ScaleBelow(draw.value, span);
      Ok(Sample(min + (draw.value * span) / Pow32, draw.state))
  }

  lemma ScaleBelow(raw: nat, span: int)
    requires raw < Pow32 && span > 0
    ensures 0 <= (raw * span) / Pow32 < span
  {
    MulMonotone(raw, Pow32 - 1, span);
    QuotientBelow(raw * span, Pow32, span);
  }
}
