/**
 * A `son` variable: the object whose constructors, assignments and mutators rewrite its
 * tag and payload in place (src/value.cpp:22-182, 225-244). Each method is stated
 * against the value-level functions of module Values.
 */
module Mutators {
  import opened Options
  import opened Values

  class SonVar {
    /** The tag and payload of this `son`. */
    var val: Son

    /** `son()` and `son(nullptr)`: null. */
    constructor ()
      ensures val == Null && IsNull(val) && Empty(val)
    {
      val := Null;
    }

    /** `son(type_t)`: the default value of the tag. */
    constructor OfType(t: Type)
      ensures val == Default(t) && TypeOf(val) == t
    {
      val := Default(t);
    }

    /** `son(boolean_t)`. */
    constructor OfBoolean(b: bool)
      ensures IsBoolean(val) && GetBoolean(val) == b
    {
      val := Boolean(b);
    }

    /** `son(integer_t)`. */
    constructor OfInteger(n: u64)
      ensures IsInteger(val) && GetInteger(val) == n
    {
      val := Integer(n);
    }

    /** `son(floating_t)`, the `double` given by its bits. */
    constructor OfFloating(bits: u64)
      ensures IsFloating(val) && GetFloating(val) == bits
    {
      val := Floating(bits);
    }

    /** `son(const char*)`: a string value holding a copy of the characters. */
    constructor OfString(s: string)
      ensures IsString(val) && val.s == s && Size(val) == 1
    {
      val := String(s);
    }

    /** `son(const son&)`: the same tag and an equal payload; `other` is not changed. */
    constructor Copy(other: SonVar)
      ensures val == other.val && Equal(val, other.val)
      ensures other.val == old(other.val)
    {
      val := other.val;
      new;
      EqualIsIdentity(val, other.val);
    }

    /** `son(son&&)`: take `other`'s tag and payload by a swap with a fresh null. */
    constructor Move(other: SonVar)
      modifies other
      ensures val == old(other.val) && other.val == Null
    {
      val := other.val;
      new;
      other.val := Null;
    }

    /** `swap`: exchange tag and payload with `other` (nothing changes when it is this variable). */
    method Swap(other: SonVar)
      modifies this, other
      ensures val == old(other.val) && other.val == old(val)
    {
      var mine := val;
      val := other.val;
      other.val := mine;
    }

    /** `operator=(const son&)`: copy `other`, then swap the copy in; `other` is not changed. */
    method CopyAssign(other: SonVar)
      modifies this
      ensures val == old(other.val) && other.val == old(other.val)
    {
      var copy := new SonVar.Copy(other);
      copy.Swap(this);
    }

    /** `operator=(son&&)`: swap with `other`, which receives this variable's old value. */
    method MoveAssign(other: SonVar)
      modifies this, other
      ensures val == old(other.val) && other.val == old(val)
    {
      other.Swap(this);
    }

    /**
     * `operator[](const char*)` on a null or object receiver: auto-vivify a null
     * receiver, search the pairs for the first one with `key`, and append `(key, null)`
     * when there is none. The result is the index of the pair the returned reference
     * belongs to.
     */
    method IndexKey(key: string) returns (idx: nat)
      requires val.Null? || val.Object?
      modifies this
      ensures (val, idx) == KeyIndexed(old(val), key)
    {
      if val.Null? {
        PushKey(key, Null);
        assert FindKey(val.pairs, key) == Some(0);
        return 0;
      }
      var pairs := val.pairs;
      var i := 0;
      while i < |pairs|
        invariant i <= |pairs| && val == old(val)
        invariant forall j :: 0 <= j < i ==> pairs[j].0 != key
      {
        if pairs[i].0 == key {
          FindKeyFirst(pairs, key, i);
          return i;
        }
        i := i + 1;
      }
      PushKey(key, Null);
      idx := |pairs|;
    }

    /** `operator[](int32_t)` on an array: the element at an index inside the array. */
    method IndexArray(i: int) returns (elem: Son)
      requires val.Array? && 0 <= i < |val.items|
      ensures elem in val.items && elem == Iterate(val)[i]
    {
      elem := val.items[i];
    }

    /**
     * A write `x` through the reference `operator[](key)` returned: the value of the
     * pair at `idx` becomes `x`, its key and every other pair stay.
     */
    method SetValueAt(idx: nat, x: Son)
      requires val.Object? && idx < |val.pairs|
      modifies this
      ensures val == Object(old(val).pairs[idx := (old(val).pairs[idx].0, x)])
    {
      val := Object(val.pairs[idx := (val.pairs[idx].0, x)]);
    }

    /** `v[key] = x` on a null or object receiver: index the key, then write through the reference. */
    method AssignKey(key: string, x: Son)
      requires val.Null? || val.Object?
      modifies this
      ensures val == Assigned(old(val), key, x)
    {
      ghost var v := val;
      var idx := IndexKey(key);
      KeyIndexedSpec(v, key);
      SetValueAt(idx, x);
      if FindKey(PairsOf(v), key).None? {
        assert val.pairs == PairsOf(v) + [(key, x)];
      }
    }

    /**
     * `v[i] = x` on an array: the write through the reference `operator[](int32_t)`
     * returns replaces the item at `i` and nothing else.
     */
    method AssignItem(i: int, x: Son)
      requires val.Array? && 0 <= i < |val.items|
      modifies this
      ensures val.Array? && |val.items| == |old(val).items| && Iterate(val)[i] == x
      ensures forall j :: 0 <= j < |val.items| && j != i ==> val.items[j] == old(val).items[j]
    {
      val := Array(val.items[i := x]);
      IterateVisits(val);
    }

    /** `push(const char*, const son&)`: make a null receiver an object, then append the pair. */
    method PushKey(key: string, value: Son)
      requires val.Null? || val.Object?
      modifies this
      ensures val == Pushed(old(val), key, value)
    {
      if val.Null? {
        var obj := new SonVar.OfType(ObjectType);
        Swap(obj);
      }
      val := Object(val.pairs + [(key, value)]);
    }

    /** `push(const son&)` on a null or array receiver: as written it changes nothing. */
    method Push(value: Son)
      requires val.Null? || val.Array?
      modifies this
      ensures val == old(val) && val == ItemPushedAsWritten(old(val), value)
    {
    }

    /**
     * `push(const son&)` as the design intends, the counterpart of `PushKey`: make a
     * null receiver an array, then append the item.
     */
    method PushItem(value: Son)
      requires val.Null? || val.Array?
      modifies this
      ensures val == PushedItem(old(val), value)
    {
      if val.Null? {
        var arr := new SonVar.OfType(ArrayType);
        Swap(arr);
      }
      val := Array(val.items + [value]);
    }

    /** `clear()`: keep the tag, zero a scalar and empty a string or container. */
    method Clear()
      modifies this
      ensures val == Cleared(old(val))
    {
      match val
      case Null =>
      case Boolean(_) => val := Boolean(false);
      case Integer(_) => val := Integer(0);
      case Floating(_) => val := Floating(0);
      case String(_) => val := String("");
      case Object(_) => val := Object([]);
      case Array(_) => val := Array([]);
    }
  }
}
