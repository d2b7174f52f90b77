/** `deepMerge` of src/config/loader.ts, and what a saved config looks like after a reload. */
module Merge {
  import opened Options
  import opened Json
  import opened ConfigTree
  import RoundTrip

  /** The value of a key after the merge; `Undefined` is no override. */
  function MergedValue(base: Fields, over: Fields, k: string): (r: Value)
    requires k in base || (k in over && over[k] != Undefined)
    decreases Obj(over), 0
  {
    if k in over && over[k].Obj? && k in base && base[k].Obj? then Obj(DeepMerged(base[k].fields, over[k].fields))
    else if k in over && over[k] != Undefined then over[k]
    else base[k]
  }

  function DeepMerged(base: Fields, over: Fields): (out: Fields)
    ensures forall k :: k in out <==> k in base || (k in over && over[k] != Undefined)
    decreases Obj(over), 1
  {
    map k | k in base.Keys + over.Keys && (k in base || over[k] != Undefined) :: MergedValue(base, over, k)
  }

  /** The loop of the source: a copy of the base, one override at a time. */
  method DeepMerge(base: Fields, overrides: Fields) returns (out: Fields)
    ensures out == DeepMerged(base, overrides)
    decreases Obj(overrides)
  {
    hide DeepMerged;
    out := base;
    var todo := overrides.Keys;
    while todo != {}
      invariant todo <= overrides.Keys
      invariant forall k :: k in out <==> k in base || (k in overrides && k !in todo && overrides[k] != Undefined)
      invariant forall k | k in out ::
                  if k in overrides && k !in todo then out[k] == MergedValue(base, overrides, k) else out[k] == base[k]
      decreases |todo|
    {
      var key :| key in todo;
      todo := todo - {key};
      var value := overrides[key];
      if value.Obj? && key in out && out[key].Obj? {
        var merged := DeepMerge(out[key].fields, value.fields);
        out := out[key := Obj(merged)];
      } else if value != Undefined {
        out := out[key := value];
      }
    }
    MergedThroughout(base, overrides, out);
  }

  lemma MergedThroughout(base: Fields, over: Fields, out: Fields)
    requires forall k :: k in out <==> k in base || (k in over && over[k] != Undefined)
    requires forall k | k in out :: if k in over then out[k] == MergedValue(base, over, k) else out[k] == base[k]
    ensures out == DeepMerged(base, over)
  {
  }

  // ---- laws ----

  /** Overriding twice is overriding once. */
  lemma {:induction false} MergeIdempotent(base: Fields, over: Fields)
    ensures DeepMerged(DeepMerged(base, over), over) == DeepMerged(base, over)
    decreases Obj(over)
  {
    var once := DeepMerged(base, over);
    forall k | k in once
      ensures MergedValue(once, over, k) == once[k]
    {
      if k in over && over[k].Obj? {
        if k in base && base[k].Obj? {
          MergeIdempotent(base[k].fields, over[k].fields);
        } else {
          MergeSelf(over[k].fields);
        }
      }
    }
  }

  lemma {:induction false} MergeSelf(over: Fields)
    ensures DeepMerged(over, over) == over
    decreases Obj(over)
  {
    forall k | k in over
      ensures MergedValue(over, over, k) == over[k]
    {
      if over[k].Obj? {
        MergeSelf(over[k].fields);
      }
    }
  }

  /** The value at a path of keys. */
  function At(m: Fields, path: seq<string>): (r: Maybe<Value>)
    requires path != []
    decreases |path|
  {
    if path[0] !in m then Nothing
    else if |path| == 1 then Just(m[path[0]])
    else if m[path[0]].Obj? then At(m[path[0]].fields, path[1..])
    else Nothing
  }

  /** Every override that is not itself an object wins at its path. */
  lemma {:induction false} OverrideWins(base: Fields, over: Fields, path: seq<string>)
    requires path != [] && At(over, path).Just? && !At(over, path).value.Obj? && At(over, path).value != Undefined
    ensures At(DeepMerged(base, over), path) == At(over, path)
    decreases |path|
  {
    var k := path[0];
    if |path| > 1 && k in base && base[k].Obj? {
      OverrideWins(base[k].fields, over[k].fields, path[1..]);
    }
  }

  /** The overrides say something about the path: a value on the way to it or at it. */
  predicate Touches(over: Fields, path: seq<string>)
    requires path != []
    decreases |path|
  {
    path[0] in over && (|path| == 1 || !over[path[0]].Obj? || Touches(over[path[0]].fields, path[1..]))
  }

  /** No key holds `Undefined`. */
  predicate Defined(v: Value) {
    v != Undefined && (v.Obj? ==> forall k | k in v.fields :: Defined(v.fields[k]))
  }

  lemma {:induction false} UntouchedIsAbsent(over: Fields, path: seq<string>)
    requires path != [] && !Touches(over, path)
    ensures At(over, path) == Nothing
    decreases |path|
  {
    if path[0] in over {
      UntouchedIsAbsent(over[path[0]].fields, path[1..]);
    }
  }

  /** A path the overrides do not touch keeps the base's value, or its absence. */
  lemma {:induction false} UntouchedKeepsBase(base: Fields, over: Fields, path: seq<string>)
    requires path != [] && Defined(Obj(over)) && !Touches(over, path)
    ensures At(DeepMerged(base, over), path) == At(base, path)
    decreases |path|
  {
    var k := path[0];
    if k in over {
      assert Defined(over[k]);
      if k in base && base[k].Obj? {
        UntouchedKeepsBase(base[k].fields, over[k].fields, path[1..]);
      } else {
        UntouchedIsAbsent(over[k].fields, path[1..]);
      }
    }
  }

  /** A key without a value overrides nothing. */
  lemma UndefinedKeepsBase(base: Fields, over: Fields, k: string)
    requires k in over && over[k] == Undefined
    ensures At(DeepMerged(base, over), [k]) == At(base, [k])
  {
  }

  /** Every key of the base, at every level where both sides are objects. */
  predicate Covers(over: Fields, base: Fields)
    decreases Obj(over)
  {
    forall k | k in base :: k in over && (over[k].Obj? && base[k].Obj? ==> Covers(over[k].fields, base[k].fields))
  }

  /** The overrides are the whole result exactly when they cover the base. */
  lemma {:induction false} MergeIsOverride(base: Fields, over: Fields)
    requires Defined(Obj(over))
    ensures DeepMerged(base, over) == over <==> Covers(over, base)
    decreases Obj(over)
  {
    var out := DeepMerged(base, over);
    forall k | k in over
      ensures over[k] != Undefined && k in out && (out[k] == over[k] <==> KeyCovered(over, base, k))
    {
      assert Defined(Obj(over).fields[k]);
      assert out[k] == MergedValue(base, over, k);
      if over[k].Obj? && k in base && base[k].Obj? {
        assert over[k] == Obj(over[k].fields);
        MergeIsOverride(base[k].fields, over[k].fields);
      }
    }
    CoversByKey(over, base);
    assert out.Keys == base.Keys + over.Keys;
  }

  /** What `Covers` asks of one key the overrides have. */
  predicate KeyCovered(over: Fields, base: Fields, k: string)
    requires k in over
  {
    over[k].Obj? && k in base && base[k].Obj? ==> Covers(over[k].fields, base[k].fields)
  }

  lemma CoversByKey(over: Fields, base: Fields)
    ensures Covers(over, base) <==> base.Keys <= over.Keys && forall k | k in over :: KeyCovered(over, base, k)
  {
    if base.Keys <= over.Keys && forall k | k in over :: KeyCovered(over, base, k) {
      forall k | k in base
        ensures k in over && (over[k].Obj? && base[k].Obj? ==> Covers(over[k].fields, base[k].fields))
      {
        assert KeyCovered(over, base, k);
      }
    }
  }

  lemma {:induction false} MeaningDefined(items: seq<RoundTrip.Item>)
    ensures Defined(Obj(RoundTrip.Meaning(items)))
    decreases items
  {
    if items != [] {
      MeaningDefined(items[1..]);
      if items[0].Section? {
        MeaningDefined(items[0].items);
      }
      var head, rest := RoundTrip.ItemMeaning(items[0]), RoundTrip.Meaning(items[1..]);
      forall k | k in head + rest
        ensures Defined((head + rest)[k])
      {
        if k in rest {
          assert Defined(Obj(rest).fields[k]);
        }
      }
    }
  }

  /** Saving and loading: a faithful config comes back from disk, merged over the defaults, as exactly itself
      if and only if it has every key of the defaults at every level. */
  lemma SavedConfigReloads(items: seq<RoundTrip.Item>, defaults: Fields)
    requires RoundTrip.Legal(items) && RoundTrip.Faithful(items) && RoundTrip.OneLined(items)
    ensures DeepMerged(defaults, Document(RoundTrip.ConfigText(items))) == RoundTrip.Meaning(items)
       <==> Covers(RoundTrip.Meaning(items), defaults)
  {
    RoundTrip.ConfigRoundTrip(items);
    MeaningDefined(items);
    MergeIsOverride(defaults, RoundTrip.Meaning(items));
  }

  /** A key the saved file does not mention keeps its default. */
  lemma UnsavedKeepsDefault(items: seq<RoundTrip.Item>, defaults: Fields, path: seq<string>)
    requires RoundTrip.Legal(items) && RoundTrip.Faithful(items) && RoundTrip.OneLined(items)
    requires path != [] && !Touches(RoundTrip.Meaning(items), path)
    ensures At(DeepMerged(defaults, Document(RoundTrip.ConfigText(items))), path) == At(defaults, path)
  {
    RoundTrip.ConfigRoundTrip(items);
    MeaningDefined(items);
    UntouchedKeepsBase(defaults, RoundTrip.Meaning(items), path);
  }
}
