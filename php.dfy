/** The PHP values the plugin handles: scalars, ordered arrays, and the
    `stdClass` objects `json_decode` produces, with the conversions PHP
    applies to them (truthiness, string conversion, array-key coercion). */
module Php {
  import opened Decimal

  datatype Option<T> = None | Some(value: T)

  /** How a PHP function call ends: it returns a value, or an uncaught
      `TypeError`/`Error` aborts the whole request. */
  datatype Completion<T> = Returned(value: T) | Aborted

  /** A PHP array key: integer or string. */
  datatype Key = IntKey(i: int) | StrKey(s: string)

  /** A PHP value. `Arr` is an ordered array (a decoded JSON list has the keys
      0, 1, 2, ...); `Obj` is a `stdClass` with its properties in order.
      Floating-point numbers are not modelled. */
  datatype Value =
    | Null
    | Bool(b: bool)
    | Int(i: int)
    | Str(s: string)
    | Arr(entries: seq<(Key, Value)>)
    | Obj(props: seq<(string, Value)>)

  /** Request options (`WP_Http::request()` arguments): an array with string keys. */
  type Options = seq<(string, Value)>

  /** PHP's boolean conversion, as used by `if ( $x )` and `! $x`. */
  predicate Truthy(v: Value) {
    match v
    case Null => false
    case Bool(b) => b
    case Int(i) => i != 0
    case Str(s) => s != "" && s != "0"
    case Arr(e) => |e| > 0
    case Obj(_) => true
  }

  predicate IsScalar(v: Value) {
    !v.Arr? && !v.Obj?
  }

  /** PHP's string conversion of a scalar (`null` and `false` print as ""). */
  function ToStr(v: Value): string
    requires IsScalar(v)
  {
    match v
    case Null => ""
    case Bool(b) => if b then "1" else ""
    case Int(i) => IntToString(i)
    case Str(s) => s
  }

  /** String interpolation (`"...{$v}..."`): an array prints as "Array"
      (with a warning), an object without `__toString` raises an `Error`. */
  function Interpolate(v: Value): Option<string> {
    match v
    case Arr(_) => Some("Array")
    case Obj(_) => None
    case _ => Some(ToStr(v))
  }

  /** The key `$a[$v]` stores under. An array or object offset raises a
      `TypeError`, so only scalars have a key. */
  function ToKey(v: Value): Key
    requires IsScalar(v)
  {
    match v
    case Null => StrKey("")
    case Bool(b) => IntKey(if b then 1 else 0)
    case Int(i) => IntKey(i)
    case Str(s) => if IsIntegerString(s) then IntKey(ParseInteger(s)) else StrKey(s)
  }

  /** A key as `foreach ( $a as $k => ... )` hands it back, converted to a string. */
  function KeyToStr(k: Key): string {
    match k
    case IntKey(i) => IntToString(i)
    case StrKey(s) => s
  }

  /** Storing under a value and reading the key back as a string gives the
      value's own string form; `false` is the one scalar for which this fails
      (it is stored under 0 but prints as ""). */
  lemma KeyStringAgrees(v: Value)
    requires IsScalar(v) && v != Bool(false)
    ensures KeyToStr(ToKey(v)) == ToStr(v)
  {
    if v.Str? && IsIntegerString(v.s) {
      IntegerStringRoundTrip(v.s);
    }
  }

  /** Two strings are stored under the same key exactly when they are equal,
      although numeric strings become integer keys. */
  lemma StringKeysInjective(a: string, b: string)
    ensures ToKey(Str(a)) == ToKey(Str(b)) <==> a == b
  {
    if ToKey(Str(a)) == ToKey(Str(b)) {
      KeyStringAgrees(Str(a));
      KeyStringAgrees(Str(b));
    }
  }

  // ---------------------------------------------------------------------
  // Ordered arrays: a sequence of (key, value) pairs in insertion order.

  /** `$a[$k]`, or None when the key is absent. */
  function Find<K(==), V>(a: seq<(K, V)>, k: K): Option<V>
    decreases |a|
  {
    if a == [] then None
    else if a[0].0 == k then Some(a[0].1)
    else Find(a[1..], k)
  }

  /** No key occurs twice: every PHP array has this shape. */
  predicate UniqueKeys<K(==), V>(a: seq<(K, V)>)
    decreases |a|
  {
    a == [] || (Find(a[1..], a[0].0).None? && UniqueKeys(a[1..]))
  }

  /** A key stored at some position is found. */
  lemma {:induction false} FindPresent<K, V>(a: seq<(K, V)>, k: K, i: int)
    requires 0 <= i < |a| && a[i].0 == k
    ensures Find(a, k).Some?
  {
    if a[0].0 != k {
      assert a[1..][i - 1] == a[i];
      FindPresent(a[1..], k, i - 1);
    }
  }

  /** A key that is found is stored, with its value, at some position. */
  lemma {:induction false} FindIndex<K, V>(a: seq<(K, V)>, k: K)
    requires Find(a, k).Some?
    ensures exists i | 0 <= i < |a| :: a[i] == (k, Find(a, k).value)
  {
    if a[0].0 != k {
      FindIndex(a[1..], k);
      var i :| 0 <= i < |a[1..]| && a[1..][i] == (k, Find(a[1..], k).value);
      assert a[i + 1] == a[1..][i];
    }
  }

  /** In an array with unique keys, a key sits at one position only. */
  lemma {:induction false} UniqueKeysIndex<K, V>(a: seq<(K, V)>, i: int, j: int)
    requires UniqueKeys(a) && 0 <= i < |a| && 0 <= j < |a| && a[i].0 == a[j].0
    ensures i == j
  {
    if i != j {
      if i == 0 {
        assert a[1..][j - 1] == a[j];
        FindPresent(a[1..], a[0].0, j - 1);
      } else if j == 0 {
        assert a[1..][i - 1] == a[i];
        FindPresent(a[1..], a[0].0, i - 1);
      } else {
        assert a[1..][i - 1] == a[i] && a[1..][j - 1] == a[j];
        UniqueKeysIndex(a[1..], i - 1, j - 1);
      }
    }
  }

  /** `$a[$k] = $v`: an existing key keeps its position and takes the new
      value; a new key is appended at the end. */
  function Assign<K(==, !new), V>(a: seq<(K, V)>, k: K, v: V): (r: seq<(K, V)>)
    ensures Find(r, k) == Some(v)
    ensures forall k' | k' != k :: Find(r, k') == Find(a, k')
    ensures Find(a, k).Some? ==> |r| == |a| && forall i | 0 <= i < |a| :: r[i].0 == a[i].0
    ensures Find(a, k).None? ==> r == a + [(k, v)]
    ensures UniqueKeys(a) ==> UniqueKeys(r)
    decreases |a|
  {
    if a == [] then [(k, v)]
    else if a[0].0 == k then [(k, v)] + a[1..]
    else [a[0]] + Assign(a[1..], k, v)
  }

  /** The value of the last pair whose key is `k`. */
  function LastValue<K(==), V>(pairs: seq<(K, V)>, k: K): Option<V>
    decreases |pairs|
  {
    if pairs == [] then None
    else if pairs[|pairs| - 1].0 == k then Some(pairs[|pairs| - 1].1)
    else LastValue(pairs[..|pairs| - 1], k)
  }

  /** A key has a last value exactly when some pair carries it. */
  lemma {:induction false} LastValueFound<K, V>(pairs: seq<(K, V)>, k: K)
    ensures LastValue(pairs, k).Some? <==> exists i | 0 <= i < |pairs| :: pairs[i].0 == k
  {
    if pairs != [] {
      var n := |pairs| - 1;
      LastValueFound(pairs[..n], k);
      if pairs[n].0 != k && exists i | 0 <= i < |pairs| :: pairs[i].0 == k {
        var i :| 0 <= i < |pairs| && pairs[i].0 == k;
        assert pairs[..n][i].0 == k;
      }
    }
  }

  /** Pair `i` is the last one whose key is `k`. */
  predicate LastWith<K(==), V>(pairs: seq<(K, V)>, k: K, i: int) {
    0 <= i < |pairs| && pairs[i].0 == k && forall j | i < j < |pairs| :: pairs[j].0 != k
  }

  /** The last value of a key is the value of the last pair carrying it. */
  lemma {:induction false} LastValueAt<K, V>(pairs: seq<(K, V)>, k: K, i: int)
    requires LastWith(pairs, k, i)
    ensures LastValue(pairs, k) == Some(pairs[i].1)
  {
    var n := |pairs| - 1;
    if i < n {
      assert LastWith(pairs[..n], k, i);
      LastValueAt(pairs[..n], k, i);
    }
  }

  /** A key with a last value has a last pair carrying it. */
  lemma {:induction false} LastPairExists<K, V>(pairs: seq<(K, V)>, k: K)
    requires LastValue(pairs, k).Some?
    ensures exists i :: LastWith(pairs, k, i) && pairs[i].1 == LastValue(pairs, k).value
  {
    var n := |pairs| - 1;
    if pairs[n].0 == k {
      assert LastWith(pairs, k, n);
    } else {
      LastPairExists(pairs[..n], k);
      var i :| LastWith(pairs[..n], k, i) && pairs[..n][i].1 == LastValue(pairs[..n], k).value;
      assert LastWith(pairs, k, i);
    }
  }

  /** `$a[$k] = $v` for each pair in order: each key ends with the value of
      its last assignment, keys never assigned keep their old value. */
  function AssignEach<K(==, !new), V>(a: seq<(K, V)>, pairs: seq<(K, V)>): (r: seq<(K, V)>)
    ensures UniqueKeys(a) ==> UniqueKeys(r)
    ensures forall k :: Find(r, k) == (if LastValue(pairs, k).Some? then LastValue(pairs, k) else Find(a, k))
    decreases |pairs|
  {
    if pairs == [] then a
    else
      var n := |pairs| - 1;
      Assign(AssignEach(a, pairs[..n]), pairs[n].0, pairs[n].1)
  }

  // ---------------------------------------------------------------------
  // Decoded JSON.

  /** The values `foreach ( $v as $x )` visits: the elements of an array, the
      properties of an object, and nothing for a scalar (PHP warns and skips
      the loop). */
  function Elements(v: Value): (xs: seq<Value>)
    ensures |xs| == match v case Arr(e) => |e| case Obj(p) => |p| case _ => 0
  {
    match v
    case Arr(e) => seq(|e|, i requires 0 <= i < |e| => e[i].1)
    case Obj(p) => seq(|p|, i requires 0 <= i < |p| => p[i].1)
    case _ => []
  }

  /** `$v->name`: the property of an object, and `null` (with a warning) for
      a missing property or a value that is not an object. */
  function Prop(v: Value, name: string): Value {
    match v
    case Obj(p) => (match Find(p, name) case Some(x) => x case None => Null)
    case _ => Null
  }
}
