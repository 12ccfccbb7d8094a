/** `isObject` and `omit` from the modal helpers: a copy of a plain object without some keys. */
module Omit {

  /** A key as the caller passes it: a string or a number. */
  datatype Key = StrKey(s: string) | NumKey(n: int)

  /** The `keys` argument: one key, an array of keys, or anything else. */
  datatype KeysArg = Single(key: Key) | Many(keys: seq<Key>) | NotKeys

  /** One own enumerable property, in `Object.keys` order. */
  datatype Prop<V> = Prop(name: string, value: V)

  /** A value handed to `omit`: a plain object with its properties, or anything else. */
  datatype Value<V> = PlainObject(props: seq<Prop<V>>) | NonPlain(other: V)

  /** `isObject`: `Object.prototype.toString` reports `[object Object]`, i.e. a plain object. */
  predicate IsObject<V>(x: Value<V>) {
    x.PlainObject?
  }

  /** `keysArray.includes(name)`: property names are strings, so only a string key equal to it matches. */
  predicate Listed(name: string, keys: seq<Key>) {
    StrKey(name) in keys
  }

  /** The `reduce` over `Object.keys(obj)`: copies each property whose name is not listed. */
  function Keep<V>(props: seq<Prop<V>>, keys: seq<Key>): seq<Prop<V>> {
    if props == [] then []
    else
      var rest := Keep(props[1..], keys);
      if Listed(props[0].name, keys) then rest else [props[0]] + rest
  }

  /** `omit(obj, keys)` */
  function OmitKeys<V>(obj: Value<V>, keys: KeysArg): Value<V> {
    if !IsObject(obj) then obj
    else if keys.NotKeys? then obj
    else
      var keysArray := if keys.Many? then keys.keys else [keys.key];
      PlainObject(Keep(obj.props, keysArray))
  }

  /** The copy holds exactly the properties whose names are not listed, values unchanged, in order. */
  lemma {:induction false} KeepMeaning<V>(props: seq<Prop<V>>, keys: seq<Key>)
    ensures forall p :: p in Keep(props, keys) <==> p in props && !Listed(p.name, keys)
    ensures forall i :: 0 <= i < |Keep(props, keys)| ==> !Listed(Keep(props, keys)[i].name, keys)
    ensures |Keep(props, keys)| <= |props|
    decreases props
  {
    if props != [] {
      KeepMeaning(props[1..], keys);
      assert props == [props[0]] + props[1..];
    }
  }

  /** The copy keeps the original order: keeping from a concatenation keeps from each part, in turn. */
  lemma {:induction false} KeepAppend<V>(a: seq<Prop<V>>, b: seq<Prop<V>>, keys: seq<Key>)
    ensures Keep(a + b, keys) == Keep(a, keys) + Keep(b, keys)
    decreases a
  {
    if a == [] {
      assert a + b == b;
    } else {
      KeepAppend(a[1..], b, keys);
      assert (a + b)[0] == a[0];
      assert (a + b)[1..] == a[1..] + b;
    }
  }

  /** Whatever the keys, anything but a plain object comes back unchanged. */
  lemma NonObjectUnchanged<V>(obj: Value<V>, keys: KeysArg)
    requires !IsObject(obj)
    ensures OmitKeys(obj, keys) == obj
  {
  }

  /** A `keys` argument that is neither a key nor an array leaves the object as it is. */
  lemma OtherKeysUnchanged<V>(obj: Value<V>)
    ensures OmitKeys(obj, NotKeys) == obj
  {
  }

  /** A single key is treated as the one-element list. */
  lemma SingleAsList<V>(obj: Value<V>, key: Key)
    ensures OmitKeys(obj, Single(key)) == OmitKeys(obj, Many([key]))
  {
  }

  /** Numbers never equal the string property names, so a numeric key omits nothing. */
  lemma {:induction false} NumericKeysOmitNothing<V>(props: seq<Prop<V>>, n: int)
    ensures OmitKeys(PlainObject(props), Single(NumKey(n))) == PlainObject(props)
  {
    KeepUnlisted(props, [NumKey(n)]);
  }

  /** When no property name is listed, the copy equals the original. */
  lemma {:induction false} KeepUnlisted<V>(props: seq<Prop<V>>, keys: seq<Key>)
    requires forall i :: 0 <= i < |props| ==> !Listed(props[i].name, keys)
    ensures Keep(props, keys) == props
    decreases props
  {
    if props != [] {
      KeepUnlisted(props[1..], keys);
      assert props == [props[0]] + props[1..];
    }
  }

  /** Omitting the same keys again changes nothing. */
  lemma OmitTwice<V>(obj: Value<V>, keys: KeysArg)
    ensures OmitKeys(OmitKeys(obj, keys), keys) == OmitKeys(obj, keys)
  {
    if IsObject(obj) && !keys.NotKeys? {
      var keysArray := if keys.Many? then keys.keys else [keys.key];
      var kept := Keep(obj.props, keysArray);
      KeepMeaning(obj.props, keysArray);
      KeepUnlisted(kept, keysArray);
    }
  }
}
