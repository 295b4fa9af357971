/** Shared vocabulary of the kernel: optional values, the fatal-error result
    type that stands in for a thrown exception, integer positions and the
    small arithmetic helpers every rule module uses. */
module Common {

  datatype Option<+T> = None | Some(value: T) {
    function GetOr(default: T): T {
      match this
      case Some(v) => v
      case None => default
    }
  }

  /** A programmer or static-data error: the cases where the source throws. */
  datatype Fault =
    | UnknownItem(itemId: string)
    | MissingDroneTemplate(chassisId: string)
    | WeaponMissingMaxAmmo(weaponId: string)
    | MissingUnit(unitId: string)
    | EmptyPick
    | UndefinedPick
    | MissingRoomTemplate
    | MissingRoomRow
    | InvalidIntRange

  /** Either a value or the fault the source would have thrown. */
  datatype Result<+T> = Ok(value: T) | Err(fault: Fault) {
    predicate IsFailure() {
      Err?
    }

    function PropagateFailure<U>(): Result<U>
      requires Err?
    {
      Err(fault)
    }

    function Extract(): T
      requires Ok?
    {
      value
    }
  }

  datatype Vec2 = Vec2(x: int, y: int)

  /** JavaScript truthiness of an optional string: present and non-empty. */
  predicate Truthy(o: Option<string>) {
    o.Some? && o.value != ""
  }

  /** `Math.sign` on integers. */
  function Sign(n: int): (r: int)
    ensures r == 0 <==> n == 0
    ensures r * n == Abs(n)
  {
    if n > 0 then 1 else if n < 0 then -1 else 0
  }

  function Abs(n: int): (r: nat)
    ensures r == n || r == -n
  {
    if n < 0 then -n else n
  }

  function Max(a: int, b: int): (r: int)
    ensures r >= a && r >= b && (r == a || r == b)
  {
    if a >= b then a else b
  }

  function Min(a: int, b: int): (r: int)
    ensures r <= a && r <= b && (r == a || r == b)
  {
    if a <= b then a else b
  }

  /** Number of grid steps between two cells when moving only along the axes. */
  function Manhattan(a: Vec2, b: Vec2): nat {
    Abs(a.x - b.x) + Abs(a.y - b.y)
  }

  /** Decimal rendering of a natural number, as template literals print it. */
  function NatToString(n: nat): (s: string)
    ensures |s| >= 1
    ensures forall i :: 0 <= i < |s| ==> '0' <= s[i] <= '9'
    decreases n
  {
    if n < 10 then [DigitChar(n)] else NatToString(n / 10) + [DigitChar(n % 10)]
  }

  function DigitChar(d: nat): (c: char)
    requires d < 10
    ensures '0' <= c <= '9'
  {
    ['0', '1', '2', '3', '4', '5', '6', '7', '8', '9'][d]
  }

  /** Different numbers print differently, so numbered ids never collide. */
  lemma {:induction false} NatToStringInjective(a: nat, b: nat)
    requires NatToString(a) == NatToString(b)
    ensures a == b
    decreases a
  {
    var sa, sb := NatToString(a), NatToString(b);
    if a < 10 && b < 10 {
      assert DigitChar(a) == sa[0] == sb[0] == DigitChar(b);
      DigitCharInjective(a, b);
    } else if a >= 10 && b >= 10 {
      var pa, pb := NatToString(a / 10), NatToString(b / 10);
      assert sa == pa + [DigitChar(a % 10)] && sb == pb + [DigitChar(b % 10)];
      assert |pa| == |pb|;
      assert sa[..|pa|] == pa && sb[..|pb|] == pb;
      NatToStringInjective(a / 10, b / 10);
      assert DigitChar(a % 10) == sa[|sa| - 1] == sb[|sb| - 1] == DigitChar(b % 10);
      DigitCharInjective(a % 10, b % 10);
      DecimalSplit(a);
      DecimalSplit(b);
    }
  }

  lemma DigitCharInjective(d: nat, e: nat)
    requires d < 10 && e < 10 && DigitChar(d) == DigitChar(e)
    ensures d == e
  {
  }

  lemma DecimalSplit(n: nat)
    ensures n == n / 10 * 10 + n % 10
  {
  }

  /** Two ids built from one prefix and a number agree only for the same number. */
  lemma NumberedIdInjective(prefix: string, a: nat, b: nat)
    requires prefix + NatToString(a) == prefix + NatToString(b)
    ensures a == b
  {
    var x, y := prefix + NatToString(a), prefix + NatToString(b);
    assert x[|prefix|..] == NatToString(a) && y[|prefix|..] == NatToString(b);
    NatToStringInjective(a, b);
  }

  /** Decimal rendering of an integer, with a leading minus for negatives. */
  function IntToString(n: int): string {
    if n < 0 then "-" + NatToString(-n) else NatToString(n)
  }

  /** Whether `needle` occurs as a contiguous piece of `hay` (String.prototype.includes). */
  predicate Contains(hay: string, needle: string)
    decreases |hay|
  {
    if |needle| > |hay| then false
    else if hay[..|needle|] == needle then true
    else Contains(hay[1..], needle)
  }

  /** The values of the present options, in order. */
  function Somes<T>(os: seq<Option<T>>): (vs: seq<T>)
    ensures |vs| <= |os|
    decreases |os|
  {
    if |os| == 0 then []
    else (if os[0].Some? then [os[0].value] else []) + Somes(os[1..])
  }

  /** Every value kept comes from a present option. */
  lemma {:induction false} SomesFrom<T>(os: seq<Option<T>>, k: nat)
    requires k < |Somes(os)|
    ensures exists i :: 0 <= i < |os| && os[i] == Some(Somes(os)[k])
    decreases |os|
  {
    var rest := Somes(os[1..]);
    if os[0].Some? && k == 0 {
      assert os[0] == Some(Somes(os)[k]);
    } else {
      var k' := if os[0].Some? then k - 1 else k;
      assert Somes(os)[k] == rest[k'];
      SomesFrom(os[1..], k');
      var i :| 0 <= i < |os[1..]| && os[1..][i] == Some(rest[k']);
      assert os[i + 1] == Some(Somes(os)[k]);
    }
  }

  /** `a` is `b` with some elements left out, the rest kept in order. */
  predicate Subsequence<T(==)>(a: seq<T>, b: seq<T>)
    decreases |b|
  {
    |a| == 0 || (|b| > 0 && ((a[0] == b[0] && Subsequence(a[1..], b[1..])) || Subsequence(a, b[1..])))
  }

  lemma {:induction false} SubsequenceRefl<T>(a: seq<T>)
    ensures Subsequence(a, a)
    decreases |a|
  {
    if |a| > 0 {
      SubsequenceRefl(a[1..]);
    }
  }

  /** Elements of a sequence, as a set. */
  function Elems<T>(s: seq<T>): set<T> {
    set i | 0 <= i < |s| :: s[i]
  }

  predicate Distinct<T(==)>(s: seq<T>) {
    forall i, j :: 0 <= i < j < |s| ==> s[i] != s[j]
  }

  lemma MulMonotone(x: int, y: int, k: int)
    requires x <= y && k >= 0
    ensures x * k <= y * k
  {
  }

  /** A quotient and remainder pair is the only one. */
  lemma DivModUnique(i: int, w: int, x: int, y: int)
    requires 0 <= x < w && y >= 0 && i == y * w + x
    ensures i % w == x && i / w == y
  {
    var q, r := i / w, i % w;
    assert q * w + r == i;
    if q > y {
      MulMonotone(1, q - y, w);
    } else if q < y {
      MulMonotone(1, y - q, w);
    }
  }

  /** For 0 <= n < m * span the quotient n / m stays below span. */
  lemma QuotientBelow(n: int, m: int, span: int)
    requires m > 0 && 0 <= n < m * span
    ensures 0 <= n / m < span
  {
    var q := n / m;
    assert q * m <= n;
    if q >= span {
      MulMonotone(span, q, m);
      assert false;
    }
  }
}
