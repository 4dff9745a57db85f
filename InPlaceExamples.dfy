/** `sample_data1` of the repository's tests built as Python objects, and the
    two in-place walks run on it. */
module InPlaceExamples {
  import opened Documents
  import opened LookupApi
  import opened InPlace
  import opened Examples

  /** `sample_data1` built as Python objects, then `nested_delete(sample_data1,
      'build_version')` run on them: the top dict ends as the test expects. */
  method DeleteSampleData1InPlace() returns (r: Val, removed: PyDict)
    ensures ValValid(r) && r.DictRef?
    ensures Model(r) ==
      Dict([(S("os_details"), Dict([(S("product_version"), Atom(Str("10.13.6")))])),
            (S("name"), Atom(Str("Test"))), (S("date"), Atom(Str("YYYY-MM-DD HH:MM:SS")))])
    ensures removed.Valid() && removed.model == BuildVersion()
  {
    var top;
    top, removed := SampleData1InPlace();
    BuildVersionFirst();
    assert Dropped(top, S("build_version")) == removed.Repr;
    assert removed.Repr <= Unwalked(DictRef(top), S("build_version"));
    label before:
    r := NestedDelete(DictRef(top), S("build_version"));
    assert unchanged@before(removed.Repr);
    DeleteSampleData1();
  }

  /** `sample_data1` built as Python objects, then `nested_update(sample_data1,
      'build_version', 'Test1')` run on them: the top dict ends as the test
      expects, and the dict the store replaced is left as it was. */
  method UpdateSampleData1InPlace() returns (r: Val, replaced: PyDict)
    ensures ValValid(r) && r.DictRef?
    ensures Model(r) ==
      Dict([(S("build_version"), Atom(Str("Test1"))),
            (S("os_details"), Dict([(S("product_version"), Atom(Str("10.13.6"))), (S("build_version"), Atom(Str("Test1")))])),
            (S("name"), Atom(Str("Test"))), (S("date"), Atom(Str("YYYY-MM-DD HH:MM:SS")))])
    ensures replaced.Valid() && replaced.model == BuildVersion()
  {
    var top;
    top, replaced := SampleData1InPlace();
    BuildVersionFirst();
    assert Dropped(top, S("build_version")) == replaced.Repr;
    assert replaced.Repr <= Unwalked(DictRef(top), S("build_version"));
    label before:
    r := NestedUpdate(DictRef(top), S("build_version"), Str("Test1"));
    assert unchanged@before(replaced.Repr);
    UpdateSampleData1();
  }

  /** `{"a": {"y": 1}}`: a document in which no dict binds "k". */
  function NestedPair(): Doc {
    Dict([(S("a"), Dict([(S("y"), Atom(Int(1)))]))])
  }

  /** Neither walk has anything to remove or replace in `NestedPair()`. */
  lemma NestedPairUntouched()
    ensures Deleted(S("k"), NestedPair()) == NestedPair()
    ensures Updated(S("k"), Atom(Int(2)), NestedPair()) == NestedPair()
    ensures TruthyIndex(S("k"), NestedPair().entries) < 0
  {
    assert Keys(NestedPair().entries) == [S("a")];
    var inner := Dict([(S("y"), Atom(Int(1)))]);
    assert AllEntries(inner) == [(S("y"), Atom(Int(1)))];
    assert AllEntries(NestedPair()) == [(S("a"), inner)] + AllEntries(inner);
    DeletedFixpoint(S("k"), NestedPair());
    UpdatedFixpoint(S("k"), Atom(Int(2)), NestedPair());
  }

  /** New objects standing for `NestedPair()`; `inner` is the dict under "a". */
  method NestedPairInPlace() returns (top: PyDict, inner: PyDict)
    ensures top.Valid() && fresh(top.Repr) && top.entries == [(S("a"), DictRef(inner))] && top.model == NestedPair()
    ensures inner.Valid() && inner.model == Dict([(S("y"), Atom(Int(1)))])
  {
    inner := NewDictOfOne((S("y"), Leaf(Int(1))));
    top := NewDictOfOne((S("a"), DictRef(inner)));
  }

  /** `top = {"a": {"y": 1}}` walked by the dict branch of `nested_delete(top,
      "k")`: no value binds "k", so `top` still holds the very same inner dict,
      and that dict still stands for `{"y": 1}`. */
  method DeleteAbsentKeyInPlace() returns (top: PyDict, inner: PyDict)
    ensures top.Valid() && top.entries == [(S("a"), DictRef(inner))]
    ensures inner.Valid() && inner.model == Dict([(S("y"), Atom(Int(1)))])
  {
    top, inner := NestedPairInPlace();
    NestedPairUntouched();
    DeleteInDict(top, S("k"));
    assert ValValid(top.entries[0].1) && top.model.entries[0].1 == Model(top.entries[0].1);
  }

  /** The same with `nested_update(top, "k", 2)`. */
  method UpdateAbsentKeyInPlace() returns (top: PyDict, inner: PyDict)
    ensures top.Valid() && top.entries == [(S("a"), DictRef(inner))]
    ensures inner.Valid() && inner.model == Dict([(S("y"), Atom(Int(1)))])
  {
    top, inner := NestedPairInPlace();
    NestedPairUntouched();
    UpdateInDict(top, S("k"), Int(2));
    assert ValValid(top.entries[0].1) && top.model.entries[0].1 == Model(top.entries[0].1);
  }

  /** In `sample_data1` the first entry is the truthy one of `build_version`. */
  lemma BuildVersionFirst()
    ensures TruthyIndex(S("build_version"), SampleData1().entries) == 0
  {
  }

  /** New objects standing for `sample_data1`; `build` is the dict under its
      first key. */
  method SampleData1InPlace() returns (top: PyDict, build: PyDict)
    ensures top.Valid() && fresh(top.Repr) && top.model == SampleData1()
    ensures top.entries[0] == (S("build_version"), DictRef(build))
    ensures build.Valid() && build.model == BuildVersion()
  {
    build := BuildVersionInPlace();
    var os := OsDetailsInPlace();
    top := NewDictOfFour((S("build_version"), DictRef(build)), (S("os_details"), DictRef(os)),
      (S("name"), Leaf(Str("Test"))), (S("date"), Leaf(Str("YYYY-MM-DD HH:MM:SS"))));
  }

  method OsDetailsInPlace() returns (os: PyDict)
    ensures os.Valid() && fresh(os.Repr) && os.model == OsDetails()
  {
    os := NewDictOfTwo((S("product_version"), Leaf(Str("10.13.6"))), (S("build_version"), Leaf(Str("17G65"))));
  }

  method BuildVersionInPlace() returns (build: PyDict)
    ensures build.Valid() && fresh(build.Repr) && build.model == BuildVersion()
  {
    var core := NewDictOfTwo((S("build_version"), Leaf(Str("4"))), (S("l2_cache(per_core)"), Leaf(Str("256 KB"))));
    var inner := NewDictOfThree((S("processor_name"), Leaf(Str("Intel Core i7"))),
      (S("processor_speed"), Leaf(Str("2.7 GHz"))), (S("core_details"), DictRef(core)));
    build := NewDictOfFour((S("model_name"), Leaf(Str("MacBook Pro"))), (S("build_version"), DictRef(inner)),
      (S("number_of_cores"), Leaf(Str("4"))), (S("memory"), Leaf(Str("256 KB"))));
  }

  /** `{a.0: a.1}` as a new dict. */
  method NewDictOfOne(a: (Key, Val)) returns (x: PyDict)
    requires ValValid(a.1)
    ensures x.Valid() && fresh(x) && x.entries == [a] && x.Repr <= {x} + Footprint(a.1)
    ensures x.model == Dict([(a.0, Model(a.1))])
  {
    x := NewDictOfList([a]);
    ItemFootprintsWithin(Values([a]), Footprint(a.1));
    ghost var m := EntryModels([a]);
    assert m == [m[0]];
  }

  /** `{a.0: a.1, b.0: b.1}` as a new dict. */
  method NewDictOfTwo(a: (Key, Val), b: (Key, Val)) returns (x: PyDict)
    requires a.0 != b.0 && ValValid(a.1) && ValValid(b.1) && Footprint(a.1) !! Footprint(b.1)
    ensures x.Valid() && fresh(x) && x.Repr <= {x} + Footprint(a.1) + Footprint(b.1)
    ensures x.model == Dict([(a.0, Model(a.1)), (b.0, Model(b.1))])
  {
    x := NewDictOfList([a, b]);
    PartsOfTwo(a, b);
  }

  /** The footprint and the documents of two values, written out. */
  lemma PartsOfTwo(a: (Key, Val), b: (Key, Val))
    ensures ItemFootprints(Values([a, b])) <= Footprint(a.1) + Footprint(b.1)
    ensures EntryModels([a, b]) == [(a.0, Model(a.1)), (b.0, Model(b.1))]
  {
    ItemFootprintsWithin(Values([a, b]), Footprint(a.1) + Footprint(b.1));
    ghost var m := EntryModels([a, b]);
    assert m == [m[0], m[1]];
  }

  /** `{a.0: a.1, b.0: b.1, c.0: c.1}` as a new dict. */
  method NewDictOfThree(a: (Key, Val), b: (Key, Val), c: (Key, Val)) returns (x: PyDict)
    requires a.0 != b.0 && a.0 != c.0 && b.0 != c.0
    requires ValValid(a.1) && ValValid(b.1) && ValValid(c.1)
    requires Footprint(a.1) !! Footprint(b.1) && Footprint(a.1) !! Footprint(c.1) && Footprint(b.1) !! Footprint(c.1)
    ensures x.Valid() && fresh(x) && x.Repr <= {x} + Footprint(a.1) + Footprint(b.1) + Footprint(c.1)
    ensures x.model == Dict([(a.0, Model(a.1)), (b.0, Model(b.1)), (c.0, Model(c.1))])
  {
    x := NewDictOfList([a, b, c]);
    PartsOfThree(a, b, c);
  }

  /** The footprint and the documents of three values, written out. */
  lemma PartsOfThree(a: (Key, Val), b: (Key, Val), c: (Key, Val))
    ensures ItemFootprints(Values([a, b, c])) <= Footprint(a.1) + Footprint(b.1) + Footprint(c.1)
    ensures EntryModels([a, b, c]) == [(a.0, Model(a.1)), (b.0, Model(b.1)), (c.0, Model(c.1))]
  {
    ItemFootprintsWithin(Values([a, b, c]), Footprint(a.1) + Footprint(b.1) + Footprint(c.1));
    ghost var m := EntryModels([a, b, c]);
    assert m == [m[0], m[1], m[2]];
  }

  /** `{a.0: a.1, b.0: b.1, c.0: c.1, d.0: d.1}` as a new dict. */
  method NewDictOfFour(a: (Key, Val), b: (Key, Val), c: (Key, Val), d: (Key, Val)) returns (x: PyDict)
    requires UniqueKeys([a, b, c, d])
    requires ValValid(a.1) && ValValid(b.1) && ValValid(c.1) && ValValid(d.1)
    requires Footprint(a.1) !! Footprint(b.1) && Footprint(a.1) !! Footprint(c.1) && Footprint(a.1) !! Footprint(d.1)
    requires Footprint(b.1) !! Footprint(c.1) && Footprint(b.1) !! Footprint(d.1) && Footprint(c.1) !! Footprint(d.1)
    ensures x.Valid() && fresh(x) && x.entries == [a, b, c, d]
    ensures x.Repr <= {x} + Footprint(a.1) + Footprint(b.1) + Footprint(c.1) + Footprint(d.1)
    ensures x.model == Dict([(a.0, Model(a.1)), (b.0, Model(b.1)), (c.0, Model(c.1)), (d.0, Model(d.1))])
  {
    x := NewDictOfList([a, b, c, d]);
    PartsOfFour(a, b, c, d);
  }

  /** The footprint and the documents of four values, written out. */
  lemma PartsOfFour(a: (Key, Val), b: (Key, Val), c: (Key, Val), d: (Key, Val))
    ensures ItemFootprints(Values([a, b, c, d])) <= Footprint(a.1) + Footprint(b.1) + Footprint(c.1) + Footprint(d.1)
    ensures EntryModels([a, b, c, d]) == [(a.0, Model(a.1)), (b.0, Model(b.1)), (c.0, Model(c.1)), (d.0, Model(d.1))]
  {
    ItemFootprintsWithin(Values([a, b, c, d]), Footprint(a.1) + Footprint(b.1) + Footprint(c.1) + Footprint(d.1));
    ghost var m := EntryModels([a, b, c, d]);
    assert m == [m[0], m[1], m[2], m[3]];
  }

  /** A new dict over `e`: the constructor, called apart from the heap-free
      facts its callers need about `e`. */
  method NewDictOfList(e: seq<(Key, Val)>) returns (x: PyDict)
    requires UniqueKeys(e)
    requires forall i :: 0 <= i < |e| ==> ValValid(e[i].1)
    requires forall i, j :: 0 <= i < j < |e| ==> Footprint(e[i].1) !! Footprint(e[j].1)
    ensures x.Valid() && fresh(x) && x.entries == e && x.model == Dict(EntryModels(e))
    ensures x.Repr == {x} + ItemFootprints(Values(e))
  {
    x := new PyDict(e);
  }
}
