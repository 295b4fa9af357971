/** `stableStringify`: the canonical JSON text replay hashes are computed
    from. Arrays keep their order, object entries are emitted sorted by key,
    and everything else is written as `JSON.stringify` writes it, so the
    text depends on what a value holds and not on the order its object
    keys were inserted in.

    Values are the JSON values the game state consists of: null, booleans,
    integers, strings, arrays and objects. Objects list their entries in
    insertion order, as `Object.entries` does. Strings are sequences of
    Unicode scalar values, so the lone-surrogate escapes of `JSON.stringify`
    do not arise. */
module CanonicalJson {
  import opened Common
  import Order

  datatype Json =
    | Null
    | Bool(b: bool)
    | Num(n: int)
    | Str(s: string)
    | Arr(items: seq<Json>)
    | Obj(fields: seq<Field>)

  datatype Field = Field(key: string, value: Json)

  function FieldKey(f: Field): string {
    f.key
  }

  function KeysOf(fs: seq<Field>): (ks: seq<string>)
    ensures |ks| == |fs| && forall i :: 0 <= i < |fs| ==> ks[i] == fs[i].key
  {
    seq(|fs|, i requires 0 <= i < |fs| => fs[i].key)
  }

  /** A JavaScript object never holds one key twice. */
  predicate DistinctKeys(fs: seq<Field>) {
    Distinct(KeysOf(fs))
  }

  /** Every object inside the value, at any depth, has distinct keys. */
  ghost predicate WellFormedJson(v: Json)
    decreases v
  {
    match v
    case Arr(items) => forall i :: 0 <= i < |items| ==> WellFormedJson(items[i])
    case Obj(fs) => DistinctKeys(fs) && forall i :: 0 <= i < |fs| ==> WellFormedJson(fs[i].value)
    case _ => true
  }

  // ---------------------------------------------------------------------
  // String quoting (`JSON.stringify` on a string)

  function HexDigit(d: nat): (c: char)
    requires d < 16
  {
    "0123456789abcdef"[d]
  }

  /** How `JSON.stringify` writes one character inside a string literal:
      the quote and the backslash are escaped, the five control characters
      with a short escape use it, the other control characters become a
      `\u00XX` escape with lower-case hex digits, and the rest stand as they are. */
  function EscapeChar(c: char): (e: string)
    ensures |e| >= 1
  {
    if c == '"' then ['\\', '"']
    else if c == '\\' then ['\\', '\\']
    else if c == '\U{8}' then ['\\', 'b']
    else if c == '\t' then ['\\', 't']
    else if c == '\n' then ['\\', 'n']
    else if c == '\U{C}' then ['\\', 'f']
    else if c == '\r' then ['\\', 'r']
    else if c < '\U{20}' then ['\\', 'u', '0', '0', HexDigit(c as int / 16), HexDigit(c as int % 16)]
    else [c]
  }

  function EscapeAll(s: string): string
    decreases |s|
  {
    if |s| == 0 then "" else EscapeChar(s[0]) + EscapeAll(s[1..])
  }

  function Quote(s: string): (q: string)
    ensures |q| >= 2 && q[0] == '"' && q[|q| - 1] == '"'
  {
    "\"" + EscapeAll(s) + "\""
  }

  // ---------------------------------------------------------------------
  // Reading a string literal back

  function HexValue(c: char): Option<nat> {
    if '0' <= c <= '9' then Some(c as int - '0' as int)
    else if 'a' <= c <= 'f' then Some(c as int - 'a' as int + 10)
    else if 'A' <= c <= 'F' then Some(c as int - 'A' as int + 10)
    else None
  }

  /** The code point of four hex digits, when it is not a surrogate. */
  function HexChar(h: string): Option<char>
    requires |h| == 4
  {
    match (HexValue(h[0]), HexValue(h[1]), HexValue(h[2]), HexValue(h[3]))
    case (Some(a), Some(b), Some(c), Some(d)) =>
      var n := ((a * 16 + b) * 16 + c) * 16 + d;
      if 0 <= n < 0xD800 || 0xE000 <= n < 0x11_0000 then Some(n as char) else None
    case _ => None
  }

  /** Decodes the body of a JSON string literal (section 7 of RFC 8259),
      failing on an unescaped quote or control character or a malformed escape. */
  function Unescape(t: string): Option<string>
    decreases |t|
  {
    if |t| == 0 then Some("")
    else if t[0] == '\\' then
      if |t| < 2 then None
      else
        var c := t[1];
        var short :=
          if c == '"' then Some('"') else if c == '\\' then Some('\\') else if c == '/' then Some('/')
          else if c == 'b' then Some('\U{8}') else if c == 't' then Some('\t') else if c == 'n' then Some('\n')
          else if c == 'f' then Some('\U{C}') else if c == 'r' then Some('\r') else None;
        if short.Some? then
          match Unescape(t[2..])
          case None => None
          case Some(rest) => Some([short.value] + rest)
        else if c == 'u' && |t| >= 6 then
          match HexChar(t[2..6])
          case None => None
          case Some(d) =>
            match Unescape(t[6..])
            case None => None
            case Some(rest) => Some([d] + rest)
        else None
    else if t[0] == '"' || t[0] < '\U{20}' then None
    else
      match Unescape(t[1..])
      case None => None
      case Some(rest) => Some([t[0]] + rest)
  }

  function Unquote(q: string): Option<string> {
    if |q| >= 2 && q[0] == '"' && q[|q| - 1] == '"' then Unescape(q[1..|q| - 1]) else None
  }

  lemma HexRoundTrip(c: char)
    requires c < '\U{20}'
    ensures HexChar(['0', '0', HexDigit(c as int / 16), HexDigit(c as int % 16)]) == Some(c)
  {
    var n := c as int;
    var hi, lo := n / 16, n % 16;
    assert HexValue(HexDigit(hi)) == Some(hi);
    assert HexValue(HexDigit(lo)) == Some(lo);
    assert ((0 * 16 + 0) * 16 + hi) * 16 + lo == n;
  }

  /** Decoding undoes the escape of one character in front of any text. */
  lemma EscapeCharRoundTrip(c: char, rest: string)
    ensures Unescape(EscapeChar(c) + rest) ==
              match Unescape(rest) case None => None case Some(r) => Some([c] + r)
  {
    var t := EscapeChar(c) + rest;
    if c == '"' || c == '\\' || c == '\U{8}' || c == '\t' || c == '\n' || c == '\U{C}' || c == '\r' {
      assert t[2..] == rest;
    } else if c < '\U{20}' {
      HexRoundTrip(c);
      assert t[2..6] == ['0', '0', HexDigit(c as int / 16), HexDigit(c as int % 16)];
      assert t[6..] == rest;
    } else {
      assert t[1..] == rest;
    }
  }

  lemma {:induction false} EscapeAllRoundTrip(s: string)
    ensures Unescape(EscapeAll(s)) == Some(s)
    decreases |s|
  {
    if |s| > 0 {
      EscapeAllRoundTrip(s[1..]);
      EscapeCharRoundTrip(s[0], EscapeAll(s[1..]));
      assert [s[0]] + s[1..] == s;
    }
  }

  /** A quoted string reads back as the string itself, so distinct keys
      are written as distinct texts. */
  lemma QuoteRoundTrip(s: string)
    ensures Unquote(Quote(s)) == Some(s)
  {
    var q := Quote(s);
    assert q[1..|q| - 1] == EscapeAll(s);
    EscapeAllRoundTrip(s);
  }

  lemma QuoteInjective(a: string, b: string)
    requires Quote(a) == Quote(b)
    ensures a == b
  {
    QuoteRoundTrip(a);
    QuoteRoundTrip(b);
  }

  // ---------------------------------------------------------------------
  // The serialiser

  /** `Array.prototype.join(',')`. */
  function Join(parts: seq<string>): string
    decreases |parts|
  {
    if |parts| == 0 then ""
    else if |parts| == 1 then parts[0]
    else parts[0] + "," + Join(parts[1..])
  }

  /** The entries of an object sorted by key. */
  function SortFields(fs: seq<Field>): (r: seq<Field>)
    ensures |r| == |fs| && forall i :: 0 <= i < |r| ==> r[i] in fs
  {
    var r := Order.SortBy(fs, FieldKey);
    assert forall i :: 0 <= i < |r| ==> r[i] in fs by {
      forall i | 0 <= i < |r|
        ensures r[i] in fs
      {
        assert r[i] in multiset(r);
      }
    }
    r
  }

  function Stringify(v: Json): string
    decreases v
  {
    match v
    case Null => "null"
    case Bool(b) => if b then "true" else "false"
    case Num(n) => IntToString(n)
    case Str(s) => Quote(s)
    case Arr(items) =>
      "[" + Join(seq(|items|, i requires 0 <= i < |items| => Stringify(items[i]))) + "]"
    case Obj(fs) =>
      var sorted := SortFields(fs);
      "{" + Join(seq(|sorted|, i requires 0 <= i < |sorted| => Quote(sorted[i].key) + ":" + Stringify(sorted[i].value))) + "}"
  }

  // ---------------------------------------------------------------------
  // Independence of key order

  /** Two values that differ at most in the order of their object entries. */
  ghost predicate SameValue(a: Json, b: Json)
    decreases a
  {
    match a
    case Arr(x) =>
      b.Arr? && |x| == |b.items| && forall i :: 0 <= i < |x| ==> SameValue(x[i], b.items[i])
    case Obj(f) =>
      && b.Obj? && DistinctKeys(f) && DistinctKeys(b.fields)
      && (forall k :: k in KeysOf(f) <==> k in KeysOf(b.fields))
      && forall i, j :: 0 <= i < |f| && 0 <= j < |b.fields| && f[i].key == b.fields[j].key ==>
           SameValue(f[i].value, b.fields[j].value)
    case _ => a == b
  }

  /** A sequence without repeated elements holds each value at most once. */
  lemma {:induction false} DistinctCount<T>(s: seq<T>, x: T)
    requires Distinct(s)
    ensures multiset(s)[x] <= 1
    decreases |s|
  {
    if |s| > 0 {
      assert s == [s[0]] + s[1..];
      assert Distinct(s[1..]) by {
        forall i, j | 0 <= i < j < |s[1..]|
          ensures s[1..][i] != s[1..][j]
        {
          assert s[1..][i] == s[i + 1] && s[1..][j] == s[j + 1];
        }
      }
      DistinctCount(s[1..], x);
      if x == s[0] {
        assert x !in s[1..];
      }
    }
  }

  lemma TwoIndicesCount<T>(s: seq<T>, i: nat, j: nat)
    requires i < j < |s| && s[i] == s[j]
    ensures multiset(s)[s[i]] >= 2
  {
    assert s == s[..j] + s[j..];
    assert s[i] == s[..j][i];
    assert s[j] == s[j..][0];
    assert multiset(s) == multiset(s[..j]) + multiset(s[j..]);
  }

  /** Rearranging entries with distinct keys keeps the keys distinct. */
  lemma PermDistinctKeys(s: seq<Field>, r: seq<Field>)
    requires multiset(r) == multiset(s) && DistinctKeys(s)
    ensures DistinctKeys(r)
  {
    forall i, j | 0 <= i < j < |r|
      ensures KeysOf(r)[i] != KeysOf(r)[j]
    {
      if r[i].key == r[j].key {
        assert r[i] in multiset(s) && r[j] in multiset(s);
        var p :| 0 <= p < |s| && s[p] == r[i];
        var q :| 0 <= q < |s| && s[q] == r[j];
        if p == q {
          TwoIndicesCount(r, i, j);
          assert Distinct(s) by {
            forall a, b | 0 <= a < b < |s|
              ensures s[a] != s[b]
            {
              assert KeysOf(s)[a] != KeysOf(s)[b];
            }
          }
          DistinctCount(s, r[i]);
        }
      }
    }
  }

  predicate StrictlyIncreasing(ks: seq<string>) {
    forall i, j :: 0 <= i < j < |ks| ==> Order.Less(ks[i], ks[j])
  }

  /** Sorting an object's entries lists its keys in strictly increasing order. */
  lemma SortedKeys(fs: seq<Field>)
    requires DistinctKeys(fs)
    ensures StrictlyIncreasing(KeysOf(SortFields(fs)))
    ensures forall k :: k in KeysOf(SortFields(fs)) <==> k in KeysOf(fs)
  {
    var r := SortFields(fs);
    Order.SortBySorted(fs, FieldKey);
    PermDistinctKeys(fs, r);
    forall i, j | 0 <= i < j < |r|
      ensures Order.Less(KeysOf(r)[i], KeysOf(r)[j])
    {
      assert !Order.Less(FieldKey(r[j]), FieldKey(r[i]));
      assert KeysOf(r)[i] != KeysOf(r)[j];
      Order.LessTotal(r[i].key, r[j].key);
    }
    forall k
      ensures k in KeysOf(r) <==> k in KeysOf(fs)
    {
      if k in KeysOf(fs) {
        var p :| 0 <= p < |fs| && KeysOf(fs)[p] == k;
        assert fs[p] in multiset(r);
        var i :| 0 <= i < |r| && r[i] == fs[p];
        assert KeysOf(r)[i] == k;
      }
      if k in KeysOf(r) {
        var i :| 0 <= i < |r| && KeysOf(r)[i] == k;
        var p :| 0 <= p < |fs| && fs[p] == r[i];
        assert KeysOf(fs)[p] == k;
      }
    }
  }

  /** Strictly increasing key lists with the same keys start with the same key. */
  lemma IncreasingHeads(a: seq<string>, b: seq<string>)
    requires StrictlyIncreasing(a) && StrictlyIncreasing(b)
    requires forall k :: k in a <==> k in b
    requires |a| > 0
    ensures |b| > 0 && a[0] == b[0]
  {
    assert a[0] in a;
    var q :| 0 <= q < |b| && b[q] == a[0];
    assert b[0] in b;
    var p :| 0 <= p < |a| && a[p] == b[0];
    if q > 0 {
      if p > 0 {
        Order.LessAsymmetric(a[0], a[p]);
      } else {
        Order.LessIrreflexive(a[0]);
      }
      assert false;
    }
  }

  /** A key after the shared first key of one list is after it in the other. */
  lemma IncreasingTailKey(a: seq<string>, b: seq<string>, k: string)
    requires StrictlyIncreasing(a) && StrictlyIncreasing(b)
    requires forall x :: x in a <==> x in b
    requires |a| > 0 && |b| > 0 && a[0] == b[0] && k in a[1..]
    ensures k in b[1..]
  {
    var i :| 0 <= i < |a[1..]| && a[1..][i] == k;
    assert a[i + 1] == k;
    assert k != a[0] by {
      Order.LessIrreflexive(a[0]);
    }
    assert k in a;
    var j :| 0 <= j < |b| && b[j] == k;
    assert j != 0;
    assert b[1..][j - 1] == k;
  }

  /** Two strictly increasing key lists with the same keys are one list. */
  lemma {:induction false} StrictlyIncreasingUnique(a: seq<string>, b: seq<string>)
    requires StrictlyIncreasing(a) && StrictlyIncreasing(b)
    requires forall k :: k in a <==> k in b
    ensures a == b
    decreases |a|
  {
    if |b| > 0 {
      assert b[0] in b;
    }
    if |a| > 0 {
      IncreasingHeads(a, b);
      forall k | k in a[1..]
        ensures k in b[1..]
      {
        IncreasingTailKey(a, b, k);
      }
      forall k | k in b[1..]
        ensures k in a[1..]
      {
        IncreasingTailKey(b, a, k);
      }
      StrictlyIncreasingUnique(a[1..], b[1..]);
      assert a == [a[0]] + a[1..] && b == [b[0]] + b[1..];
    }
  }

  /** Objects with the same keys list them in the same sorted order. */
  lemma SortedKeysAgree(f: seq<Field>, g: seq<Field>)
    requires DistinctKeys(f) && DistinctKeys(g)
    requires forall k :: k in KeysOf(f) <==> k in KeysOf(g)
    ensures KeysOf(SortFields(f)) == KeysOf(SortFields(g))
  {
    SortedKeys(f);
    SortedKeys(g);
    StrictlyIncreasingUnique(KeysOf(SortFields(f)), KeysOf(SortFields(g)));
  }

  /** The text depends only on what a value holds: reordering the entries
      of any object, at any depth, leaves it unchanged. */
  lemma {:induction false} SameValueSameText(a: Json, b: Json)
    requires SameValue(a, b)
    ensures Stringify(a) == Stringify(b)
    decreases a
  {
    match a
    case Arr(x) =>
      var y := b.items;
      var px := seq(|x|, i requires 0 <= i < |x| => Stringify(x[i]));
      var py := seq(|y|, i requires 0 <= i < |y| => Stringify(y[i]));
      forall i | 0 <= i < |x|
        ensures px[i] == py[i]
      {
        SameValueSameText(x[i], y[i]);
      }
      assert px == py;
    case Obj(f) =>
      var g := b.fields;
      var sf, sg := SortFields(f), SortFields(g);
      SortedKeysAgree(f, g);
      var pf := seq(|sf|, i requires 0 <= i < |sf| => Quote(sf[i].key) + ":" + Stringify(sf[i].value));
      var pg := seq(|sg|, i requires 0 <= i < |sg| => Quote(sg[i].key) + ":" + Stringify(sg[i].value));
      forall i | 0 <= i < |sf|
        ensures pf[i] == pg[i]
      {
        assert KeysOf(sf)[i] == KeysOf(sg)[i];
        var p :| 0 <= p < |f| && f[p] == sf[i];
        var q :| 0 <= q < |g| && g[q] == sg[i];
        assert SameValue(f[p].value, g[q].value);
        SameValueSameText(f[p].value, g[q].value);
      }
      assert pf == pg;
    case _ =>
  }

  lemma {:induction false} SameValueReflexive(v: Json)
    requires WellFormedJson(v)
    ensures SameValue(v, v)
    decreases v
  {
    match v
    case Arr(x) =>
      forall i | 0 <= i < |x|
        ensures SameValue(x[i], x[i])
      {
        SameValueReflexive(x[i]);
      }
    case Obj(f) =>
      forall i, j | 0 <= i < |f| && 0 <= j < |f| && f[i].key == f[j].key
        ensures SameValue(f[i].value, f[j].value)
      {
        SameValueReflexive(f[i].value);
      }
    case _ =>
  }

  /** Two objects holding the same entries in different insertion orders
      are written as the same text. */
  lemma KeyOrderIrrelevant(f: seq<Field>, g: seq<Field>)
    requires WellFormedJson(Obj(f)) && DistinctKeys(g)
    requires forall e :: e in f <==> e in g
    ensures Stringify(Obj(f)) == Stringify(Obj(g))
  {
    forall k
      ensures k in KeysOf(f) <==> k in KeysOf(g)
    {
      if k in KeysOf(f) {
        var i :| 0 <= i < |f| && KeysOf(f)[i] == k;
        assert f[i] in g;
        var j :| 0 <= j < |g| && g[j] == f[i];
        assert KeysOf(g)[j] == k;
      }
      if k in KeysOf(g) {
        var j :| 0 <= j < |g| && KeysOf(g)[j] == k;
        assert g[j] in f;
        var i :| 0 <= i < |f| && f[i] == g[j];
        assert KeysOf(f)[i] == k;
      }
    }
    forall i, j | 0 <= i < |f| && 0 <= j < |g| && f[i].key == g[j].key
      ensures SameValue(f[i].value, g[j].value)
    {
      assert g[j] in f;
      SameValueReflexive(f[i].value);
    }
    SameValueSameText(Obj(f), Obj(g));
  }
}
