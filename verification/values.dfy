/**
 * The dynamic value `son` (include/value.hpp, src/value.cpp) as a datatype: a tagged
 * union whose untyped `void*` storage becomes structural. The header's read-only
 * members and the value-level meaning of the mutators are functions here; the class in
 * module Mutators performs the mutators in place.
 */
module Values {
  import opened Options

  const TWO_TO_THE_64: int := 0x1_0000_0000_0000_0000
  const TWO_TO_THE_63: int := 0x8000_0000_0000_0000

  /** `integer_t`: an unsigned 64-bit integer. */
  newtype u64 = x: int | 0 <= x < 0x1_0000_0000_0000_0000

  /** `type_t`: the tag of a value. */
  datatype Type = NullType | BooleanType | IntegerType | FloatingType | StringType | ObjectType | ArrayType

  /**
   * A `son` value. A floating payload is kept as the 64 bits of its `double`: no
   * arithmetic is done on it. An object is an ordered list of (key, value) pairs
   * that may repeat a key; an array is an ordered list of values.
   */
  datatype Son =
    | Null
    | Boolean(b: bool)
    | Integer(n: u64)
    | Floating(bits: u64)
    | String(s: string)
    | Object(pairs: seq<(string, Son)>)
    | Array(items: seq<Son>)

  // ---------------------------------------------------------------- tag queries

  /** `type()`. */
  function TypeOf(v: Son): Type {
    match v
    case Null => NullType
    case Boolean(_) => BooleanType
    case Integer(_) => IntegerType
    case Floating(_) => FloatingType
    case String(_) => StringType
    case Object(_) => ObjectType
    case Array(_) => ArrayType
  }

  /** `is_null()` … `is_array()`: a comparison of the tag. */
  predicate IsNull(v: Son) { TypeOf(v) == NullType }
  predicate IsBoolean(v: Son) { TypeOf(v) == BooleanType }
  predicate IsInteger(v: Son) { TypeOf(v) == IntegerType }
  predicate IsFloating(v: Son) { TypeOf(v) == FloatingType }
  predicate IsString(v: Son) { TypeOf(v) == StringType }
  predicate IsObject(v: Son) { TypeOf(v) == ObjectType }
  predicate IsArray(v: Son) { TypeOf(v) == ArrayType }

  /** Number of the seven `is_*` queries that hold of `v`. */
  function HoldingQueries(v: Son): nat {
    (if IsNull(v) then 1 else 0) + (if IsBoolean(v) then 1 else 0) +
    (if IsInteger(v) then 1 else 0) + (if IsFloating(v) then 1 else 0) +
    (if IsString(v) then 1 else 0) + (if IsObject(v) then 1 else 0) +
    (if IsArray(v) then 1 else 0)
  }

  /**
   * Exactly one `is_*` query holds of every value, and each holds exactly of the
   * variant carrying that payload.
   */
  lemma QueriesPartition(v: Son)
    ensures HoldingQueries(v) == 1
    ensures IsNull(v) <==> v.Null?
    ensures IsBoolean(v) <==> v.Boolean?
    ensures IsInteger(v) <==> v.Integer?
    ensures IsFloating(v) <==> v.Floating?
    ensures IsString(v) <==> v.String?
    ensures IsObject(v) <==> v.Object?
    ensures IsArray(v) <==> v.Array?
  {
  }

  /** `get_boolean()`: asserts the tag and returns the stored flag. */
  function GetBoolean(v: Son): (r: bool)
    requires IsBoolean(v)
    ensures Boolean(r) == v
  {
    v.b
  }

  /** `get_integer()`: asserts the tag and returns the stored integer. */
  function GetInteger(v: Son): (r: u64)
    requires IsInteger(v)
    ensures Integer(r) == v
  {
    v.n
  }

  /** `get_floating()`: asserts the tag and returns the stored `double` (as its bits). */
  function GetFloating(v: Son): (r: u64)
    requires IsFloating(v)
    ensures Floating(r) == v
  {
    v.bits
  }

  /** `type_name()`: the name of a tag. */
  function TypeName(t: Type): string {
    match t
    case NullType => "null"
    case BooleanType => "boolean"
    case IntegerType => "integer"
    case FloatingType => "floating"
    case StringType => "string"
    case ObjectType => "object"
    case ArrayType => "array"
  }

  /** Every tag has a non-empty name and no two tags share one. */
  lemma TypeNamesDistinct(t: Type, u: Type)
    ensures |TypeName(t)| > 0
    ensures TypeName(t) == TypeName(u) <==> t == u
  {
    if t != u {
      // Names of equal length differ in their first letter.
      assert TypeName(t)[0] != TypeName(u)[0] || |TypeName(t)| != |TypeName(u)|;
    }
  }

  // ---------------------------------------------------------------- equality

  /**
   * Structural equality: the same tag and equal payloads, keys and order included.
   * `operator==` is declared but not defined, so this is the equality `operator!=`
   * negates in this model.
   */
  predicate Equal(a: Son, b: Son)
    decreases a
  {
    match a
    case Null => b.Null?
    case Boolean(x) => b.Boolean? && b.b == x
    case Integer(x) => b.Integer? && b.n == x
    case Floating(x) => b.Floating? && b.bits == x
    case String(x) => b.String? && b.s == x
    case Object(ps) =>
      b.Object? && |ps| == |b.pairs| &&
      forall i :: 0 <= i < |ps| ==> ps[i].0 == b.pairs[i].0 && Equal(ps[i].1, b.pairs[i].1)
    case Array(xs) =>
      b.Array? && |xs| == |b.items| &&
      forall i :: 0 <= i < |xs| ==> Equal(xs[i], b.items[i])
  }

  /** `operator!=`: the negation of `operator==`. */
  predicate NotEqual(a: Son, b: Son) {
    !Equal(a, b)
  }

  /** Structural equality is exactly equality of values. */
  lemma {:induction false} EqualIsIdentity(a: Son, b: Son)
    ensures Equal(a, b) <==> a == b
    decreases a
  {
    match a
    case Object(ps) =>
      if b.Object? && |ps| == |b.pairs| {
        forall i | 0 <= i < |ps|
          ensures Equal(ps[i].1, b.pairs[i].1) <==> ps[i].1 == b.pairs[i].1
        {
          EqualIsIdentity(ps[i].1, b.pairs[i].1);
        }
        if Equal(a, b) {
          assert ps == b.pairs;
        }
      }
    case Array(xs) =>
      if b.Array? && |xs| == |b.items| {
        forall i | 0 <= i < |xs|
          ensures Equal(xs[i], b.items[i]) <==> xs[i] == b.items[i]
        {
          EqualIsIdentity(xs[i], b.items[i]);
        }
        if Equal(a, b) {
          assert xs == b.items;
        }
      }
    case _ =>
  }

  /** `operator!=` holds exactly of distinct values. */
  lemma NotEqualIsDistinct(a: Son, b: Son)
    ensures NotEqual(a, b) <==> a != b
  {
    EqualIsIdentity(a, b);
  }

  // ---------------------------------------------------------------- size, empty, iteration

  /** `size()`: 0 for null, 1 for a scalar or a string, the element count of a container. */
  function Size(v: Son): nat {
    match v
    case Null => 0
    case Object(ps) => |ps|
    case Array(xs) => |xs|
    case _ => 1
  }

  /** `empty()`: true for null, false for a scalar or a string, a container without elements. */
  predicate Empty(v: Son) {
    match v
    case Null => true
    case Object(ps) => |ps| == 0
    case Array(xs) => |xs| == 0
    case _ => false
  }

  /** A value is empty exactly when its size is zero; an empty string is not empty. */
  lemma EmptyIffSizeZero(v: Son)
    ensures Empty(v) <==> Size(v) == 0
    ensures v.String? ==> !Empty(v) && Size(v) == 1
  {
  }

  /** `iterator::set_to_end()`: the index one past the last element. */
  function EndIndex(v: Son): (idx: nat) {
    match v
    case Object(ps) => |ps|
    case Array(xs) => |xs|
    case _ => 1
  }

  /** The end index is the size, except for null, whose only iteration step is null itself. */
  lemma EndIndexIsSize(v: Son)
    ensures (v.Object? || v.Array?) ==> EndIndex(v) == Size(v)
    ensures !(v.Object? || v.Array?) ==> EndIndex(v) == 1
    ensures v.Null? ==> EndIndex(v) == Size(v) + 1
  {
  }

  /** `iterator::operator*()` at index `idx`: an object's value, an array's element, or the value itself. */
  function Deref(v: Son, idx: nat): Son
    requires idx < EndIndex(v)
  {
    match v
    case Object(ps) => ps[idx].1
    case Array(xs) => xs[idx]
    case _ => v
  }

  /** The values an iteration from index 0 to the end index visits, in order. */
  function Iterate(v: Son): (r: seq<Son>)
    ensures |r| == EndIndex(v)
  {
    seq(EndIndex(v), i requires 0 <= i < EndIndex(v) => Deref(v, i))
  }

  /**
   * Iterating an object visits its values in order, an array its elements, and any
   * other value (null included) visits that value once.
   */
  lemma IterateVisits(v: Son)
    ensures v.Object? ==>
      |Iterate(v)| == |v.pairs| && forall i :: 0 <= i < |v.pairs| ==> Iterate(v)[i] == v.pairs[i].1
    ensures v.Array? ==> Iterate(v) == v.items
    ensures !(v.Object? || v.Array?) ==> Iterate(v) == [v]
  {
  }

  // ---------------------------------------------------------------- construction and clear

  /** `son(type_t)`: the given tag with a zero scalar or an empty string or container. */
  function Default(t: Type): (v: Son)
    ensures TypeOf(v) == t
    ensures Size(v) == (if t == NullType || t == ObjectType || t == ArrayType then 0 else 1)
  {
    match t
    case NullType => Null
    case BooleanType => Boolean(false)
    case IntegerType => Integer(0)
    case FloatingType => Floating(0)
    case StringType => String("")
    case ObjectType => Object([])
    case ArrayType => Array([])
  }

  /** `clear()`: keep the tag; zero a scalar, empty a string or container; null stays null. */
  function Cleared(v: Son): (r: Son)
    ensures TypeOf(r) == TypeOf(v)
  {
    match v
    case Null => Null
    case Boolean(_) => Boolean(false)
    case Integer(_) => Integer(0)
    case Floating(_) => Floating(0)
    case String(_) => String("")
    case Object(_) => Object([])
    case Array(_) => Array([])
  }

  /** Clearing yields the default value of the tag; clearing twice is clearing once. */
  lemma ClearedIsDefault(v: Son)
    ensures Cleared(v) == Default(TypeOf(v))
    ensures Cleared(Cleared(v)) == Cleared(v)
    ensures Empty(Cleared(v)) <==> (v.Null? || v.Object? || v.Array?)
  {
  }

  // ---------------------------------------------------------------- keyed access

  /** The index of the first pair whose key is `key`. */
  function FindKey(pairs: seq<(string, Son)>, key: string): (r: Option<nat>)
    ensures r.Some? ==>
      r.value < |pairs| && pairs[r.value].0 == key && forall j :: 0 <= j < r.value ==> pairs[j].0 != key
    ensures r.None? ==> forall j :: 0 <= j < |pairs| ==> pairs[j].0 != key
  {
    if |pairs| == 0 then None
    else if pairs[0].0 == key then Some(0)
    else match FindKey(pairs[1..], key)
      case None => None
      case Some(i) => Some(i + 1)
  }

  /** The pairs of a value `push(key, v)` and `operator[](key)` accept: none for null. */
  function PairsOf(v: Son): seq<(string, Son)>
    requires v.Null? || v.Object?
  {
    if v.Null? then [] else v.pairs
  }

  /** `push(key, value)`: null becomes an object; the pair is appended even when the key is present. */
  function Pushed(v: Son, key: string, value: Son): (r: Son)
    requires v.Null? || v.Object?
    ensures r.Object? && r.pairs == PairsOf(v) + [(key, value)]
  {
    Object(PairsOf(v) + [(key, value)])
  }

  /**
   * `operator[](key)`: the value after the call and the index of the pair whose value
   * the returned reference denotes. A present key leaves the value as it is; an absent
   * key (or a null receiver) gets a `(key, null)` pair appended.
   */
  function KeyIndexed(v: Son, key: string): (Son, nat)
    requires v.Null? || v.Object?
  {
    match FindKey(PairsOf(v), key)
    case Some(i) => (v, i)
    case None => (Pushed(v, key, Null), |PairsOf(v)|)
  }

  /**
   * What `operator[](key)` guarantees: the result is an object whose pair at the
   * returned index has the key and is the first such pair; earlier pairs are kept;
   * an object already holding the key is unchanged, otherwise exactly one pair
   * `(key, null)` is appended; null becomes the object `{key: null}`.
   */
  lemma KeyIndexedSpec(v: Son, key: string)
    requires v.Null? || v.Object?
    ensures var (r, i) := KeyIndexed(v, key);
      r.Object? && i < |r.pairs| && r.pairs[i].0 == key &&
      (forall j :: 0 <= j < i ==> r.pairs[j].0 != key) &&
      r.pairs[..|PairsOf(v)|] == PairsOf(v)
    ensures var (r, i) := KeyIndexed(v, key);
      (v.Object? && (exists j :: 0 <= j < |v.pairs| && v.pairs[j].0 == key)) ==> r == v
    ensures var (r, i) := KeyIndexed(v, key);
      FindKey(PairsOf(v), key).None? ==> r.pairs == PairsOf(v) + [(key, Null)] && i == |PairsOf(v)|
    ensures v.Null? ==> KeyIndexed(v, key) == (Object([(key, Null)]), 0)
  {
    var (r, i) := KeyIndexed(v, key);
    assert r.pairs[..|PairsOf(v)|] == PairsOf(v);
  }

  /** Indexing with the same key a second time changes nothing and finds the same pair. */
  lemma KeyIndexedIdempotent(v: Son, key: string)
    requires v.Null? || v.Object?
    ensures KeyIndexed(KeyIndexed(v, key).0, key) == KeyIndexed(v, key)
  {
    var (r, i) := KeyIndexed(v, key);
    KeyIndexedSpec(v, key);
    assert FindKey(PairsOf(r), key) == Some(i);
  }

  /** A pushed duplicate key is shadowed: lookup still finds the earlier pair. */
  lemma PushedDuplicateShadowed(v: Son, key: string, value: Son)
    requires v.Object? && FindKey(v.pairs, key).Some?
    ensures FindKey(Pushed(v, key, value).pairs, key) == FindKey(v.pairs, key)
    ensures Size(Pushed(v, key, value)) == Size(v) + 1
  {
    var i := FindKey(v.pairs, key).value;
    var ps := Pushed(v, key, value).pairs;
    assert ps[..|v.pairs|] == v.pairs;
    FindKeyFirst(ps, key, i);
  }

  /**
   * After `push(key, value)` a lookup of `key` finds the first pair that already had
   * it, or the pushed pair when there was none; the size grows by one either way.
   */
  lemma PushedLookup(v: Son, key: string, value: Son)
    requires v.Null? || v.Object?
    ensures FindKey(Pushed(v, key, value).pairs, key) ==
      (if FindKey(PairsOf(v), key).Some? then FindKey(PairsOf(v), key) else Some(|PairsOf(v)|))
    ensures Size(Pushed(v, key, value)) == Size(v) + 1
  {
    var ps := Pushed(v, key, value).pairs;
    match FindKey(PairsOf(v), key)
    case Some(i) =>
      assert ps[i] == PairsOf(v)[i];
      FindKeyFirst(ps, key, i);
    case None =>
      FindKeyFirst(ps, key, |PairsOf(v)|);
  }

  /**
   * `v[key] = x`: `operator[](key)` finds or appends the pair for `key`, and the
   * assignment writes `x` through the returned reference into that pair.
   */
  function Assigned(v: Son, key: string, x: Son): Son
    requires v.Null? || v.Object?
  {
    match FindKey(PairsOf(v), key)
    case Some(i) => Object(v.pairs[i := (key, x)])
    case None => Pushed(v, key, x)
  }

  /**
   * After `v[key] = x` the value is an object in which a lookup of `key` finds `x` at
   * the pair `operator[](key)` denotes; every other pair is the old one, and a pair is
   * added only when the key was absent.
   */
  lemma AssignedSpec(v: Son, key: string, x: Son)
    requires v.Null? || v.Object?
    ensures var r, i := Assigned(v, key, x), KeyIndexed(v, key).1;
      r.Object? && FindKey(r.pairs, key) == Some(i) && r.pairs[i].1 == x
    ensures var r, i := Assigned(v, key, x), KeyIndexed(v, key).1;
      forall j :: 0 <= j < |PairsOf(v)| && j != i ==> r.pairs[j] == PairsOf(v)[j]
    ensures Size(Assigned(v, key, x)) == |PairsOf(v)| + (if FindKey(PairsOf(v), key).Some? then 0 else 1)
  {
    var r := Assigned(v, key, x);
    match FindKey(PairsOf(v), key)
    case Some(i) =>
      assert forall j :: 0 <= j < i ==> r.pairs[j] == v.pairs[j];
      FindKeyFirst(r.pairs, key, i);
    case None =>
      FindKeyFirst(r.pairs, key, |PairsOf(v)|);
  }

  /** Assigning into a null value auto-vivifies it into the one-pair object `{key: x}`. */
  lemma AssignedAutoVivifies(key: string, x: Son)
    ensures Assigned(Null, key, x) == Object([(key, x)])
  {
  }

  /** Assigning the same key twice keeps only the second value, in the same place. */
  lemma AssignedTwice(v: Son, key: string, x: Son, y: Son)
    requires v.Null? || v.Object?
    ensures Assigned(Assigned(v, key, x), key, y) == Assigned(v, key, y)
  {
    AssignedSpec(v, key, x);
    match FindKey(PairsOf(v), key)
    case Some(i) =>
    case None =>
      assert Assigned(v, key, x).pairs[|PairsOf(v)| := (key, y)] == PairsOf(v) + [(key, y)];
  }

  /** The first pair with a key is where FindKey stops. */
  lemma {:induction false} FindKeyFirst(pairs: seq<(string, Son)>, key: string, i: nat)
    requires i < |pairs| && pairs[i].0 == key
    requires forall j :: 0 <= j < i ==> pairs[j].0 != key
    ensures FindKey(pairs, key) == Some(i)
    decreases i
  {
    if i > 0 {
      FindKeyFirst(pairs[1..], key, i - 1);
    }
  }

  // ---------------------------------------------------------------- item push

  /** The items of a value `push(value)` accepts: none for null. */
  function ItemsOf(v: Son): seq<Son>
    requires v.Null? || v.Array?
  {
    if v.Null? then [] else v.items
  }

  /**
   * `push(const son&)` as written: the body only asserts that the receiver is null or
   * an array, so the receiver is left as it was and its size does not grow.
   */
  function ItemPushedAsWritten(v: Son, x: Son): (r: Son)
    requires v.Null? || v.Array?
    ensures r == v && Size(r) == Size(v)
  {
    v
  }

  /** `push(value)` as the design intends: null becomes an array, then the item is appended. */
  function PushedItem(v: Son, x: Son): (r: Son)
    requires v.Null? || v.Array?
  {
    Array(ItemsOf(v) + [x])
  }

  /**
   * The intended push appends: the result is an array one item longer, its earlier
   * items are the receiver's and its last item is `x`. On null it is the array `[x]`,
   * and iterating a pushed array visits the old items, then `x`.
   */
  lemma PushedItemSpec(v: Son, x: Son)
    requires v.Null? || v.Array?
    ensures PushedItem(v, x).Array? && Size(PushedItem(v, x)) == Size(v) + 1
    ensures PushedItem(v, x).items[..Size(v)] == ItemsOf(v)
    ensures PushedItem(v, x).items[Size(v)] == x
    ensures v.Null? ==> PushedItem(v, x) == Array([x])
    ensures v.Array? ==> Iterate(PushedItem(v, x)) == Iterate(v) + [x]
  {
    var r := PushedItem(v, x);
    assert r.items[..Size(v)] == ItemsOf(v);
    IterateVisits(r);
    IterateVisits(v);
  }

  /** Two pushes append both items, in the order they were pushed. */
  lemma PushedItemTwice(v: Son, x: Son, y: Son)
    requires v.Null? || v.Array?
    ensures PushedItem(PushedItem(v, x), y).items == ItemsOf(v) + [x, y]
  {
    assert ItemsOf(v) + [x] + [y] == ItemsOf(v) + [x, y];
  }

  /**
   * The push as written never does what the design intends: on every receiver it
   * leaves the size one short, and on null it keeps null where the design gives `[x]`.
   */
  lemma PushStubDropsItem(v: Son, x: Son)
    requires v.Null? || v.Array?
    ensures Size(ItemPushedAsWritten(v, x)) + 1 == Size(PushedItem(v, x))
    ensures ItemPushedAsWritten(v, x) != PushedItem(v, x)
    ensures ItemPushedAsWritten(Null, x) == Null
  {
    PushedItemSpec(v, x);
  }

  // ---------------------------------------------------------------- integer signedness

  /**
   * The lexer computes a signed 64-bit `int64_t` while a value holds an unsigned
   * `uint64_t`: storing one in the other keeps the bits, i.e. reduces modulo 2^64.
   */
  function FromSigned(x: int): (u: u64)
    requires -TWO_TO_THE_63 <= x < TWO_TO_THE_63
    ensures (u as int) % TWO_TO_THE_64 == x % TWO_TO_THE_64
  {
    if x < 0 then (x + TWO_TO_THE_64) as u64 else x as u64
  }

  /** Reading a stored `uint64_t` back as `int64_t`. */
  function ToSigned(u: u64): (x: int)
    ensures -TWO_TO_THE_63 <= x < TWO_TO_THE_63
    ensures x % TWO_TO_THE_64 == (u as int) % TWO_TO_THE_64
  {
    if u as int < TWO_TO_THE_63 then u as int else u as int - TWO_TO_THE_64
  }

  /** The two conversions are inverse bijections between the signed and unsigned ranges. */
  lemma SignedRoundTrip(x: int, u: u64)
    requires -TWO_TO_THE_63 <= x < TWO_TO_THE_63
    ensures ToSigned(FromSigned(x)) == x
    ensures FromSigned(ToSigned(u)) == u
    ensures x >= 0 ==> FromSigned(x) as int == x
  {
  }
}
