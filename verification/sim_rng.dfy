/** The raid kernel's seeded generator: a four-word 32-bit state seeded by a
    SplitMix32 chain and advanced by an add/rotate/xor step with a counter
    word. JavaScript's `| 0`, `>>>` and `Math.imul` are exactly wrapping
    32-bit operations, so the state is four `bv32` words; the raw output of
    a draw is the unsigned reading of the result word. */
module SimRng {
  import opened Common

  datatype RngState = RngState(a: bv32, b: bv32, c: bv32, d: bv32)

  /** A value drawn from the generator together with the advanced state. */
  datatype Draw<T> = Draw(value: T, state: RngState)

  const TwoTo32: int := 0x1_0000_0000
  /** The divisor the source uses to turn a raw draw into a fraction. */
  const RawMax: int := 0xffff_ffff

  /** `x | 0` of an integral JavaScript number, as bits. */
  function ToBits(n: int): bv32 {
    (n % TwoTo32) as bv32
  }

  function SplitMix32(seed: bv32): bv32 {
    var t := seed + 0x9e37_79b9;
    var t1 := (t ^ (t >> 16)) * 0x21f0_aaad;
    var t2 := (t1 ^ (t1 >> 15)) * 0x735a_2d97;
    t2 ^ (t2 >> 15)
  }

  /** Seeds the four words by chaining SplitMix32 from the seed. */
  function CreateRng(seed: int): (s: RngState)
    ensures s.a == SplitMix32(ToBits(seed))
    ensures s.b == SplitMix32(s.a) && s.c == SplitMix32(s.b) && s.d == SplitMix32(s.c)
  {
    var a := SplitMix32(ToBits(seed));
    var b := SplitMix32(a);
    var c := SplitMix32(b);
    var d := SplitMix32(c);
    RngState(a, b, c, d)
  }

  /** Seeds that agree modulo 2^32 are the same seed word, so they seed the same generator. */
  lemma SeedModular(seed: int)
    ensures ToBits(seed + TwoTo32) == ToBits(seed)
  {
    assert (seed + TwoTo32) % TwoTo32 == seed % TwoTo32;
  }

  /** Hence seeding is periodic in the seed with period 2^32. */
  lemma CreateRngModular(seed: int)
    ensures CreateRng(seed + TwoTo32) == CreateRng(seed)
  {
    SeedModular(seed);
  }

  /** One draw: the raw 32-bit output (as an unsigned integer) and the next state. */
  function NextRng(s: RngState): (r: Draw<nat>)
    ensures r.value < TwoTo32
    ensures r.state.d == s.d + 1
    ensures r.state.a == s.b ^ (s.b >> 9)
  {
    var t := s.a + s.b;
    var a := s.b ^ (s.b >> 9);
    var b := s.c + (s.c << 3);
    var c0 := (s.c << 21) | (s.c >> 11);
    var d := s.d + 1;
    var res := t + d;
    var c := c0 + res;
    Draw(res as int, RngState(a, b, c, d))
  }

  /** The fraction the source derives from a raw draw: raw / 0xffffffff. */
  function Value(raw: nat): real {
    raw as real / RawMax as real
  }

  /** The fraction lies in [0, 1], and reaches 1 exactly on the largest raw output. */
  lemma ValueRange(raw: nat)
    requires raw < TwoTo32
    ensures 0.0 <= Value(raw) <= 1.0
    ensures Value(raw) == 1.0 <==> raw == RawMax
  {
    if raw < RawMax {
      assert raw as real < RawMax as real;
    }
  }

  /** floor(raw / divisor * span) + min, computed exactly. */
  function Scale(raw: nat, min: int, max: int, divisor: int): int
    requires divisor > 0
  {
    (raw * (max - min + 1)) / divisor + min
  }

  /** `nextInt` as written: floor(value * span) + min with value = raw / 0xffffffff. */
  function NextInt(s: RngState, min: int, max: int): (r: Draw<int>)
    ensures r.state == NextRng(s).state
  {
    var draw := NextRng(s);
    Draw(Scale(draw.value, min, max, RawMax), draw.state)
  }

  /** Scaling by 0xffffffff stays in [min, max + 1] and reaches max + 1
      exactly on the raw value 0xffffffff. */
  lemma ScaleAsWrittenRange(raw: nat, min: int, max: int)
    requires raw < TwoTo32 && min <= max
    ensures min <= Scale(raw, min, max, RawMax) <= max + 1
    ensures Scale(raw, min, max, RawMax) == max + 1 <==> raw == RawMax
  {
    var span := max - min + 1;
    if raw < RawMax {
      MulMonotone(raw, RawMax - 1, span);
      QuotientBelow(raw * span, RawMax, span);
    } else {
      assert raw * span == RawMax * span;
    }
  }

  /** Scaling by 2^32 stays in [min, max]. */
  lemma ScaleFixedRange(raw: nat, min: int, max: int)
    requires raw < TwoTo32 && min <= max
    ensures min <= Scale(raw, min, max, TwoTo32) <= max
  {
    var span := max - min + 1;
    MulMonotone(raw, TwoTo32 - 1, span);
    QuotientBelow(raw * span, TwoTo32, span);
  }

  /** As written, `nextInt` stays in [min, max + 1], and yields max + 1
      exactly when the raw draw is 0xffffffff. */
  lemma NextIntRange(s: RngState, min: int, max: int)
    requires min <= max
    ensures min <= NextInt(s, min, max).value <= max + 1
    ensures NextInt(s, min, max).value == max + 1 <==> NextRng(s).value == RawMax
  {
    ScaleAsWrittenRange(NextRng(s).value, min, max);
  }

  /** A state whose next raw draw is 0xffffffff. */
  const OvershootState: RngState := RngState(1, 0, 0, 0xffff_fffd)

  /** The discrepancy: from this state `nextInt(0, 9)` returns 10. */
  lemma NextIntOvershoots()
    ensures NextRng(OvershootState).value == RawMax
    ensures NextInt(OvershootState, 0, 9).value == 10
  {
  }

  /** `pickOne` as written: it throws on an empty list; otherwise it indexes
      with `nextInt(0, n - 1)`, and an index of n reads `undefined`, which
      every caller then dereferences. */
  function PickOne<T>(s: RngState, items: seq<T>): (r: Result<Draw<T>>)
    ensures |items| == 0 ==> r == Err(EmptyPick)
    ensures r.Ok? ==> r.value.state == NextRng(s).state && r.value.value in items
  {
    if |items| == 0 then Err(EmptyPick)
    else
      var draw := NextInt(s, 0, |items| - 1);
      if 0 <= draw.value < |items| then Ok(Draw(items[draw.value], draw.state))
      else Err(UndefinedPick)
  }

  /** On a non-empty list the as-written pick fails exactly on the raw draw 0xffffffff. */
  lemma PickOneUndefined<T>(s: RngState, items: seq<T>)
    requires |items| > 0
    ensures PickOne(s, items).Err? <==> NextRng(s).value == RawMax
  {
    NextIntRange(s, 0, |items| - 1);
  }

  /** Corrected `nextInt`: dividing by 2^32 keeps the result in [min, max]. */
  function NextIntFixed(s: RngState, min: int, max: int): (r: Draw<int>)
    ensures r.state == NextRng(s).state
    ensures min <= max ==> min <= r.value <= max
  {
    var draw := NextRng(s);
    if min <= max then
      ScaleFixedRange(draw.value, min, max);
      Draw(Scale(draw.value, min, max, TwoTo32), draw.state)
    else
      Draw(Scale(draw.value, min, max, TwoTo32), draw.state)
  }

  /** Corrected `pickOne`: fails only on an empty list, and otherwise returns
      an element chosen with exactly one draw. */
  function PickOneFixed<T>(s: RngState, items: seq<T>): (r: Result<Draw<T>>)
    ensures r.Err? <==> |items| == 0
    ensures r.Err? ==> r.fault == EmptyPick
    ensures r.Ok? ==> r.value.state == NextRng(s).state && r.value.value in items
  {
    if |items| == 0 then Err(EmptyPick)
    else
      var draw := NextIntFixed(s, 0, |items| - 1);
      Ok(Draw(items[draw.value], draw.state))
  }
}
