/**
  Merging user options over the default settings (`extend`, built on the
  `forEach` helper's walk over an object's own properties).

  A plain JavaScript object is modelled as the list of its own enumerable
  properties in insertion order; an object never has two properties with the
  same key. That is the order `for … in` visits them as long as no key is an
  array index (such as "0"), which JavaScript lists first in ascending order,
  and `o[k] = v` creates a property for every key but "__proto__", whose
  assignment sets the prototype instead. The settings objects here use only
  plain identifiers as keys.
 */
module Settings {

  datatype Prop<V> = Prop(key: string, value: V)

  /** The keys of an object, in enumeration order. */
  function Keys<V>(o: seq<Prop<V>>): (ks: seq<string>)
    ensures |ks| == |o|
    ensures forall i :: 0 <= i < |o| ==> ks[i] == o[i].key
  {
    seq(|o|, i requires 0 <= i < |o| => o[i].key)
  }

  /** No key occurs twice, as in every JavaScript object. */
  predicate DistinctKeys<V>(o: seq<Prop<V>>)
  {
    forall i, j :: 0 <= i < j < |o| ==> o[i].key != o[j].key
  }

  /** The object read as a dictionary: each key to its value (a later property
      overrides an earlier one with the same key). */
  function ToMap<V>(o: seq<Prop<V>>): map<string, V>
  {
    if o == [] then map[] else ToMap(o[..|o| - 1])[o[|o| - 1].key := o[|o| - 1].value]
  }

  /** The property assignment `o[k] = v`: an existing property keeps its place
      and takes the new value; a new one is added at the end. */
  function Assign<V>(o: seq<Prop<V>>, k: string, v: V): (r: seq<Prop<V>>)
    ensures Keys(r) == if k in Keys(o) then Keys(o) else Keys(o) + [k]
    ensures DistinctKeys(o) ==> DistinctKeys(r)
  {
    if k in Keys(o) then Replace(o, k, v) else o + [Prop(k, v)]
  }

  /** Every property with key `k` takes the value `v`, in place. */
  function Replace<V>(o: seq<Prop<V>>, k: string, v: V): seq<Prop<V>>
  {
    seq(|o|, i requires 0 <= i < |o| => if o[i].key == k then Prop(k, v) else o[i])
  }

  /** The keys of `options`, in order, that `defaults` does not have. */
  function NewKeys<V>(options: seq<Prop<V>>, defaults: seq<Prop<V>>): (ks: seq<string>)
    ensures forall k :: k in ks ==> k in Keys(options) && k !in Keys(defaults)
  {
    if options == [] then []
    else
      var last := options[|options| - 1];
      NewKeys(options[..|options| - 1], defaults) + (if last.key in Keys(defaults) then [] else [last.key])
  }

  /** `extend(defaults, options)` (scrollspy.js): a fresh object that first takes
      every default property, then every option property, in order. The result
      reads as the union of the two dictionaries with the options winning, and its
      keys are those of `defaults` followed by the options' own new keys. */
  method Extend<V>(defaults: seq<Prop<V>>, options: seq<Prop<V>>) returns (extended: seq<Prop<V>>)
    requires DistinctKeys(defaults) && DistinctKeys(options)
    ensures DistinctKeys(extended)
    ensures ToMap(extended) == ToMap(defaults) + ToMap(options)
    ensures Keys(extended) == Keys(defaults) + NewKeys(options, defaults)
  {
    extended := [];
    for i := 0 to |defaults|
      invariant extended == defaults[..i]
    {
      assert defaults[i].key !in Keys(extended);
      extended := Assign(extended, defaults[i].key, defaults[i].value);
      assert defaults[..i + 1] == defaults[..i] + [defaults[i]];
    }
    assert defaults[..|defaults|] == defaults;
    for j := 0 to |options|
      invariant DistinctKeys(extended)
      invariant ToMap(extended) == ToMap(defaults) + ToMap(options[..j])
      invariant Keys(extended) == Keys(defaults) + NewKeys(options[..j], defaults)
    {
      OptionStep(extended, defaults, options, j);
      extended := Assign(extended, options[j].key, options[j].value);
    }
    assert options[..|options|] == options;
  }

  /** One step of the second loop keeps its invariant. */
  lemma OptionStep<V>(extended: seq<Prop<V>>, defaults: seq<Prop<V>>, options: seq<Prop<V>>, j: nat)
    requires DistinctKeys(options) && j < |options|
    requires DistinctKeys(extended)
    requires ToMap(extended) == ToMap(defaults) + ToMap(options[..j])
    requires Keys(extended) == Keys(defaults) + NewKeys(options[..j], defaults)
    ensures var next := Assign(extended, options[j].key, options[j].value);
      DistinctKeys(next) &&
      ToMap(next) == ToMap(defaults) + ToMap(options[..j + 1]) &&
      Keys(next) == Keys(defaults) + NewKeys(options[..j + 1], defaults)
  {
    NotEarlier(options, j);
    OptionStepKeys(extended, defaults, options, j);
    OptionStepMap(extended, defaults, options, j);
  }

  lemma OptionStepKeys<V>(extended: seq<Prop<V>>, defaults: seq<Prop<V>>, options: seq<Prop<V>>, j: nat)
    requires j < |options|
    requires options[j].key !in Keys(options[..j])
    requires Keys(extended) == Keys(defaults) + NewKeys(options[..j], defaults)
    ensures Keys(Assign(extended, options[j].key, options[j].value)) ==
              Keys(defaults) + NewKeys(options[..j + 1], defaults)
  {
    var k := options[j].key;
    var before := options[..j];
    var after := options[..j + 1];
    assert after[..j] == before && after[j] == options[j];
    var added := if k in Keys(defaults) then [] else [k];
    assert NewKeys(after, defaults) == NewKeys(before, defaults) + added;
    assert k !in NewKeys(before, defaults);
    assert k in Keys(extended) <==> k in Keys(defaults);
    assert Keys(defaults) + NewKeys(after, defaults) ==
           (Keys(defaults) + NewKeys(before, defaults)) + added;
  }

  lemma OptionStepMap<V>(extended: seq<Prop<V>>, defaults: seq<Prop<V>>, options: seq<Prop<V>>, j: nat)
    requires j < |options|
    requires ToMap(extended) == ToMap(defaults) + ToMap(options[..j])
    ensures ToMap(Assign(extended, options[j].key, options[j].value)) ==
              ToMap(defaults) + ToMap(options[..j + 1])
  {
    var prop := options[j];
    var before := options[..j];
    var after := options[..j + 1];
    assert after[..j] == before && after[j] == prop;
    AssignToMap(extended, prop.key, prop.value);
    assert ToMap(after) == ToMap(before)[prop.key := prop.value];
    UnionUpdate(ToMap(defaults), ToMap(before), prop.key, prop.value);
  }

  /** With distinct keys, the key at `j` is not among the keys before it. */
  lemma NotEarlier<V>(o: seq<Prop<V>>, j: nat)
    requires DistinctKeys(o) && j < |o|
    ensures o[j].key !in Keys(o[..j])
  {
    var ks := Keys(o[..j]);
    assert forall i :: 0 <= i < j ==> ks[i] == o[i].key;
  }

  lemma UnionUpdate<K, V>(a: map<K, V>, b: map<K, V>, k: K, v: V)
    ensures (a + b)[k := v] == a + b[k := v]
  {
  }

  // ---------------------------------------------------------------------------
  // Reading objects as dictionaries

  /** The dictionary has exactly the object's keys. */
  lemma {:induction false} ToMapKeys<V>(o: seq<Prop<V>>)
    ensures forall k :: k in ToMap(o) <==> k in Keys(o)
  {
    if o != [] {
      var init := o[..|o| - 1];
      ToMapKeys(init);
      assert Keys(o) == Keys(init) + [o[|o| - 1].key];
    }
  }

  /** Each property of an object with distinct keys is found in its dictionary. */
  lemma {:induction false} ToMapAt<V>(o: seq<Prop<V>>, i: nat)
    requires DistinctKeys(o) && i < |o|
    ensures o[i].key in ToMap(o) && ToMap(o)[o[i].key] == o[i].value
  {
    if i < |o| - 1 {
      ToMapAt(o[..|o| - 1], i);
    }
  }

  /** In the merged dictionary every option property reads as its own value, and
      every default property that no option overrides reads as the default. */
  lemma MergeLookup<V>(defaults: seq<Prop<V>>, options: seq<Prop<V>>)
    requires DistinctKeys(defaults) && DistinctKeys(options)
    ensures forall i :: 0 <= i < |options| ==>
              options[i].key in ToMap(defaults) + ToMap(options) &&
              (ToMap(defaults) + ToMap(options))[options[i].key] == options[i].value
    ensures forall i :: 0 <= i < |defaults| && defaults[i].key !in Keys(options) ==>
              defaults[i].key in ToMap(defaults) + ToMap(options) &&
              (ToMap(defaults) + ToMap(options))[defaults[i].key] == defaults[i].value
  {
    ToMapKeys(options);
    forall i | 0 <= i < |options| { ToMapAt(options, i); }
    forall i | 0 <= i < |defaults| { ToMapAt(defaults, i); }
  }

  /** Assignment updates the dictionary at the assigned key and nowhere else. */
  lemma {:induction false} AssignToMap<V>(o: seq<Prop<V>>, k: string, v: V)
    ensures ToMap(Assign(o, k, v)) == ToMap(o)[k := v]
  {
    if k in Keys(o) {
      ReplaceToMap(o, k, v);
      assert Assign(o, k, v) == Replace(o, k, v);
    } else {
      var r := o + [Prop(k, v)];
      assert r[..|r| - 1] == o;
    }
  }

  lemma {:induction false} ReplaceToMap<V>(o: seq<Prop<V>>, k: string, v: V)
    requires k in Keys(o)
    ensures ToMap(Replace(o, k, v)) == ToMap(o)[k := v]
  {
    var r := Replace(o, k, v);
    var n := |o|;
    var init := o[..n - 1];
    var last := o[n - 1];
    assert r[..n - 1] == Replace(init, k, v);
    assert Keys(o) == Keys(init) + [last.key];
    if k in Keys(init) {
      ReplaceToMap(init, k, v);
    } else {
      assert last.key == k;
      assert Replace(init, k, v) == init;
    }
  }
}
