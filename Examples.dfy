/** Documents and outcomes taken from the repository's tests, checked against
    the model, plus a few examples of its own for `nested_get` and for the
    truthiness test on `key`. */
module Examples {
  import opened Documents
  import opened Traversal
  import opened LookupApi

  function S(name: string): Key { StrKey(name) }

  /** `{'a': 1, 'b': {'d': 100}, 'c': {'d': 200}}` */
  function SubjectDict(): Doc {
    Dict([(S("a"), Atom(Int(1))), (S("b"), Dict([(S("d"), Atom(Int(100)))])), (S("c"), Dict([(S("d"), Atom(Int(200)))]))])
  }

  lemma LookupSubjectDict()
    ensures NestedLookup(S("d"), SubjectDict()) == [Atom(Int(100)), Atom(Int(200))]
  {
    var e := SubjectDict().entries;
    assert e[1..] == [e[1], e[2]];
    assert e[1..][1..] == [e[2]];
    assert LookupEntries(S("d"), [e[2]]) == [Atom(Int(200))];
    assert LookupEntries(S("d"), [e[1], e[2]]) == [Atom(Int(100)), Atom(Int(200))];
  }

  lemma LookupWrappedInList()
    ensures NestedLookup(S("d"), List([Dict([]), SubjectDict(), Dict([])])) == [Atom(Int(100)), Atom(Int(200))]
  {
    LookupSubjectDict();
    WrappedInList(S("d"), SubjectDict());
  }

  lemma LookupWrappedInListInDictInList()
    ensures NestedLookup(S("d"), List([Dict([]), Dict([(S("H"), List([SubjectDict()]))])])) == [Atom(Int(100)), Atom(Int(200))]
  {
    LookupSubjectDict();
    InListInDictInList(S("d"), S("H"), SubjectDict());
  }

  lemma LookupWrappedInListInList()
    ensures NestedLookup(S("d"), List([Dict([]), List([SubjectDict(), Dict([])])])) == [Atom(Int(100)), Atom(Int(200))]
  {
    LookupSubjectDict();
    InListInList(S("d"), SubjectDict());
  }

  /** Wrapping a document in a list, under a key that is not the query, in a
      list, changes nothing. */
  lemma InListInDictInList(key: Key, h: Key, d: Doc)
    requires h != key
    ensures NestedLookup(key, List([Dict([]), Dict([(h, List([d]))])])) == NestedLookup(key, d)
  {
    var items := [Dict([]), Dict([(h, List([d]))])];
    assert items[1..] == [items[1]];
    assert items[1..][1..] == [];
    assert [d][1..] == [];
    assert LookupItems(key, [d]) == NestedLookup(key, d);
    assert [(h, List([d]))][1..] == [];
    assert LookupEntries(key, [(h, List([d]))]) == LookupItems(key, [d]) + LookupEntries(key, []);
    assert NestedLookup(key, items[1]) == NestedLookup(key, d);
    assert LookupItems(key, [items[1]]) == NestedLookup(key, d);
    assert NestedLookup(key, Dict([])) == [];
    assert LookupItems(key, items) == NestedLookup(key, d);
  }

  lemma InListInList(key: Key, d: Doc)
    ensures NestedLookup(key, List([Dict([]), List([d, Dict([])])])) == NestedLookup(key, d)
  {
    var inner := [d, Dict([])];
    assert inner[1..] == [Dict([])];
    assert inner[1..][1..] == [];
    assert NestedLookup(key, Dict([])) == [];
    assert LookupItems(key, [Dict([])]) == [];
    assert LookupItems(key, inner) == NestedLookup(key, d);
    var items := [Dict([]), List(inner)];
    assert items[1..] == [List(inner)];
    assert items[1..][1..] == [];
    assert LookupItems(key, [List(inner)]) == NestedLookup(key, d);
    assert LookupItems(key, items) == NestedLookup(key, d);
  }

  /** `{1: "a", 2: {"b": 44, "C": 55}, 3: "d", 4: "e", "6776": "works"}` */
  function SubjectDict4(): Doc {
    Dict([(IntKey(1), Atom(Str("a"))), (IntKey(2), Dict([(S("b"), Atom(Int(44))), (S("C"), Atom(Int(55)))])),
          (IntKey(3), Atom(Str("d"))), (IntKey(4), Atom(Str("e"))), (S("6776"), Atom(Str("works")))])
  }

  /** An integer key matches an integer key, never the string of its digits. */
  lemma LookupIntegerKey()
    ensures NestedLookup(IntKey(4), SubjectDict4()) == [Atom(Str("e"))]
  {
    var e := SubjectDict4().entries;
    assert e == e[..3] + [e[3]] + e[4..];
    MatchedValueNotSearched(IntKey(4), e[..3], e[3].1, e[4..]);
    NothingBefore4();
    assert e[4..] == [(S("6776"), Atom(Str("works")))];
  }

  lemma NothingBefore4()
    ensures LookupEntries(IntKey(4), SubjectDict4().entries[..3]) == []
  {
    var e := SubjectDict4().entries[..3];
    assert e == [e[0]] + [e[1]] + [e[2]];
    LookupEntriesAppend(IntKey(4), [e[0]] + [e[1]], [e[2]]);
    LookupEntriesAppend(IntKey(4), [e[0]], [e[1]]);
    assert e[1].1 == Dict([(S("b"), Atom(Int(44))), (S("C"), Atom(Int(55)))]);
  }

  /** An integer key never matches the string of its digits. */
  lemma LookupIntegerKeyNotString()
    ensures NestedLookup(IntKey(6776), Dict([(S("6776"), Atom(Str("works")))])) == []
  {
  }

  /** The parts of `sample_data1` of the tests. */
  function OsDetails(): Doc {
    Dict([(S("product_version"), Atom(Str("10.13.6"))), (S("build_version"), Atom(Str("17G65")))])
  }

  function BuildVersion(): Doc {
    Dict([
      (S("model_name"), Atom(Str("MacBook Pro"))),
      (S("build_version"), Dict([
        (S("processor_name"), Atom(Str("Intel Core i7"))),
        (S("processor_speed"), Atom(Str("2.7 GHz"))),
        (S("core_details"), Dict([(S("build_version"), Atom(Str("4"))), (S("l2_cache(per_core)"), Atom(Str("256 KB")))]))])),
      (S("number_of_cores"), Atom(Str("4"))),
      (S("memory"), Atom(Str("256 KB")))])
  }

  /** `sample_data1` of the tests. */
  function SampleData1(): Doc {
    Dict([
      (S("build_version"), BuildVersion()),
      (S("os_details"), OsDetails()),
      (S("name"), Atom(Str("Test"))),
      (S("date"), Atom(Str("YYYY-MM-DD HH:MM:SS")))])
  }

  /** The walk stops at a match: in `sample_data1` only the outer
      `build_version` dict and the one under `os_details` are reported, not
      the two found inside the first match. */
  lemma LookupAfterKeyIsFound()
    ensures NestedLookup(S("build_version"), SampleData1()) == [BuildVersion(), Atom(Str("17G65"))]
  {
    var k := S("build_version");
    var e := SampleData1().entries;
    var after := e[1..];
    assert e == [] + [(k, BuildVersion())] + after;
    MatchedValueNotSearched(k, [], BuildVersion(), after);
    assert after == [(S("os_details"), OsDetails()), (S("name"), Atom(Str("Test"))), (S("date"), Atom(Str("YYYY-MM-DD HH:MM:SS")))];
    OnlyFirstSearched(k, after[0], after[1], after[2]);
    LookupOsDetails();
  }

  lemma LookupOsDetails()
    ensures NestedLookup(S("build_version"), OsDetails()) == [Atom(Str("17G65"))]
  {
  }

  /** Of three entries whose last two hold scalars, none bound to `key`, only
      the first can report anything. */
  lemma OnlyFirstSearched(key: Key, a: (Key, Doc), b: (Key, Doc), c: (Key, Doc))
    requires a.0 != key && b.0 != key && c.0 != key && b.1.Atom? && c.1.Atom?
    ensures LookupEntries(key, [a, b, c]) == NestedLookup(key, a.1)
  {
    assert [a, b, c][1..] == [b, c];
    assert [b, c][1..] == [c];
    assert [c][1..] == [];
    EntryContribution(key, [c]);
    EntryContribution(key, [b, c]);
    EntryContribution(key, [a, b, c]);
  }

  lemma DeleteSampleData1()
    ensures Deleted(S("build_version"), SampleData1()) ==
      Dict([(S("os_details"), Dict([(S("product_version"), Atom(Str("10.13.6")))])),
            (S("name"), Atom(Str("Test"))), (S("date"), Atom(Str("YYYY-MM-DD HH:MM:SS")))])
  {
    var k := S("build_version");
    assert Deleted(k, SampleData1()) == Dict(DeletedEntries(k, SampleData1().entries, 0)) by {
      assert TruthyIndex(k, SampleData1().entries) == 0;
    }
    DroppedFirstOfFour(k, (k, BuildVersion()), (S("os_details"), OsDetails()),
      (S("name"), Atom(Str("Test"))), (S("date"), Atom(Str("YYYY-MM-DD HH:MM:SS"))));
    DeleteOsDetails();
  }

  lemma DeleteOsDetails()
    ensures Deleted(S("build_version"), OsDetails()) == Dict([(S("product_version"), Atom(Str("10.13.6")))])
  {
    assert TruthyIndex(S("build_version"), OsDetails().entries) == 1;
  }

  /** Dropping the first of four entries whose last two hold scalars. */
  lemma DroppedFirstOfFour(key: Key, a: (Key, Doc), b: (Key, Doc), c: (Key, Doc), d: (Key, Doc))
    requires c.1.Atom? && d.1.Atom?
    ensures DeletedEntries(key, [a, b, c, d], 0) == [(b.0, Deleted(key, b.1)), c, d]
  {
    var e := [a, b, c, d];
    var r := DeletedEntries(key, e, 0);
    DeletedEntriesAt(key, e, 0);
    assert r == [r[0], r[1], r[2]];
  }

  lemma UpdateSampleData1()
    ensures Updated(S("build_version"), Atom(Str("Test1")), SampleData1()) ==
      Dict([(S("build_version"), Atom(Str("Test1"))),
            (S("os_details"), Dict([(S("product_version"), Atom(Str("10.13.6"))), (S("build_version"), Atom(Str("Test1")))])),
            (S("name"), Atom(Str("Test"))), (S("date"), Atom(Str("YYYY-MM-DD HH:MM:SS")))])
  {
    assert TruthyIndex(S("build_version"), SampleData1().entries) == 0;
    UpdateSampleData1Entries();
  }

  lemma UpdateSampleData1Entries()
    ensures UpdatedEntries(S("build_version"), Atom(Str("Test1")), SampleData1().entries, 0) ==
      [(S("build_version"), Atom(Str("Test1"))),
       (S("os_details"), Dict([(S("product_version"), Atom(Str("10.13.6"))), (S("build_version"), Atom(Str("Test1")))])),
       (S("name"), Atom(Str("Test"))), (S("date"), Atom(Str("YYYY-MM-DD HH:MM:SS")))]
  {
    var k, v := S("build_version"), Atom(Str("Test1"));
    StoredFirstOfFour(k, v, (k, BuildVersion()), (S("os_details"), OsDetails()),
      (S("name"), Atom(Str("Test"))), (S("date"), Atom(Str("YYYY-MM-DD HH:MM:SS"))));
    UpdateOsDetails();
  }

  /** Replacing the first of four entries whose last two hold scalars. */
  lemma StoredFirstOfFour(key: Key, value: Doc, a: (Key, Doc), b: (Key, Doc), c: (Key, Doc), d: (Key, Doc))
    requires NoTruthy(key, value) && c.1.Atom? && d.1.Atom?
    ensures UpdatedEntries(key, value, [a, b, c, d], 0) == [(a.0, value), (b.0, Updated(key, value, b.1)), c, d]
  {
    var e := [a, b, c, d];
    var r := UpdatedEntries(key, value, e, 0);
    StoredAt(key, value, e, 0);
    assert r == [r[0], r[1], r[2], r[3]];
  }

  lemma UpdateOsDetails()
    ensures Updated(S("build_version"), Atom(Str("Test1")), OsDetails()) ==
      Dict([(S("product_version"), Atom(Str("10.13.6"))), (S("build_version"), Atom(Str("Test1")))])
  {
    assert TruthyIndex(S("build_version"), OsDetails().entries) == 1;
  }

  function ProcessorDetails(): Doc {
    List([
      Dict([(S("processor_name"), Atom(Str("Intel Core i7"))), (S("processor_speed"), Atom(Str("2.7 GHz")))]),
      Dict([(S("total_number_of_cores"), Atom(Str("4"))), (S("l2_cache(per_core)"), Atom(Str("256 KB")))])])
  }

  function HardwareDetails(): Doc {
    Dict([
      (S("model_name"), Atom(Str("MacBook Pro"))),
      (S("processor_details"), ProcessorDetails()),
      (S("total_number_of_cores"), Atom(Str("5"))),
      (S("memory"), Atom(Str("16 GB")))])
  }

  /** `sample_data2` of the tests. */
  function SampleData2(): Doc {
    Dict([(S("hardware_details"), HardwareDetails())])
  }

  lemma DeleteSampleData2()
    ensures Deleted(S("processor_details"), SampleData2()) ==
      Dict([(S("hardware_details"), Dict([
        (S("model_name"), Atom(Str("MacBook Pro"))),
        (S("total_number_of_cores"), Atom(Str("5"))),
        (S("memory"), Atom(Str("16 GB")))]))])
  {
    var k := S("processor_details");
    assert TruthyIndex(k, SampleData2().entries) == -1;
    DeleteHardwareDetails();
    DeletedEntriesAt(k, SampleData2().entries, -1);
    var top := DeletedEntries(k, SampleData2().entries, -1);
    assert top == [top[0]];
  }

  lemma DeleteHardwareDetails()
    ensures Deleted(S("processor_details"), HardwareDetails()) ==
      Dict([(S("model_name"), Atom(Str("MacBook Pro"))),
            (S("total_number_of_cores"), Atom(Str("5"))),
            (S("memory"), Atom(Str("16 GB")))])
  {
    var k := S("processor_details");
    var hw := HardwareDetails().entries;
    ProcessorDetailsIndex();
    DeletedEntriesAt(k, hw, 1);
    var r := DeletedEntries(k, hw, 1);
    assert hw[0] == (S("model_name"), Atom(Str("MacBook Pro")));
    assert hw[2] == (S("total_number_of_cores"), Atom(Str("5")));
    assert hw[3] == (S("memory"), Atom(Str("16 GB")));
    assert r[0] == (S("model_name"), Atom(Str("MacBook Pro")));
    assert r[1] == (S("total_number_of_cores"), Atom(Str("5")));
    assert r[2] == (S("memory"), Atom(Str("16 GB")));
    assert r == [r[0], r[1], r[2]];
    assert Deleted(k, HardwareDetails()) == Dict(r);
  }

  /** `sample_data3` of the tests. */
  function SampleData3(): Doc {
    Dict([(S("values"), List([Dict([(S("checks"), List([Dict([(S("monitoring_zones"), List([
      Atom(Str("mzdfw")), Atom(Str("mzfra")), Atom(Str("mzhkg")), Atom(Str("mziad")),
      Atom(Str("mzlon")), Atom(Str("mzord")), Atom(Str("mzsyd"))]))])]))])]))])
  }

  lemma DeleteSampleData3()
    ensures Deleted(S("monitoring_zones"), SampleData3()) ==
      Dict([(S("values"), List([Dict([(S("checks"), List([Dict([])]))])]))])
  {
    var k := S("monitoring_zones");
    var zones := SampleData3().entries[0].1.items[0].entries[0].1.items[0].entries[0].1;
    var check := Dict([(k, zones)]);
    var checks := Dict([(S("checks"), List([check]))]);
    assert SampleData3() == Dict([(S("values"), List([checks]))]);
    assert TruthyIndex(k, check.entries) == 0;
    assert Deleted(k, check) == Dict([]);
    DeletedItemsAt(k, [check]);
    assert Deleted(k, List([check])) == List([Dict([])]);
    assert TruthyIndex(k, checks.entries) == -1;
    DeletedEntriesAt(k, checks.entries, -1);
    assert Deleted(k, checks) == Dict([(S("checks"), List([Dict([])]))]);
    DeletedItemsAt(k, [checks]);
    assert Deleted(k, List([checks])) == List([Dict([(S("checks"), List([Dict([])]))])]);
    assert TruthyIndex(k, SampleData3().entries) == -1;
    DeletedEntriesAt(k, SampleData3().entries, -1);
    var r := DeletedEntries(k, SampleData3().entries, -1);
    assert r == [r[0]];
  }

  /** The dict stored by `nested_update` in the tests of `sample_data2`. */
  function TestValue1(): (v: Doc)
    ensures NoTruthy(S("processor_details"), v)
  {
    var v := Dict([(S("test_key1"), Atom(Str("test_value1")))]);
    assert AllEntries(v) == [(S("test_key1"), Atom(Str("test_value1")))];
    v
  }

  lemma UpdateSampleData2()
    ensures Updated(S("processor_details"), TestValue1(), SampleData2()) ==
      Dict([(S("hardware_details"), Dict([
        (S("model_name"), Atom(Str("MacBook Pro"))),
        (S("processor_details"), TestValue1()),
        (S("total_number_of_cores"), Atom(Str("5"))),
        (S("memory"), Atom(Str("16 GB")))]))])
  {
    var k, v := S("processor_details"), TestValue1();
    var e := SampleData2().entries;
    assert e == [(S("hardware_details"), HardwareDetails())];
    assert TruthyIndex(k, e) == -1;
    var r := UpdatedEntries(k, v, e, -1);
    assert r == [(S("hardware_details"), Updated(k, v, HardwareDetails()))] by {
      StoredAt(k, v, e, -1);
      assert r == [r[0]];
    }
    UpdateHardwareDetails();
  }

  /** In `hardware_details`, `processor_details` is the second entry and its list is not empty. */
  lemma ProcessorDetailsIndex()
    ensures TruthyIndex(S("processor_details"), HardwareDetails().entries) == 1
  {
    var e := HardwareDetails().entries;
    assert Keys(e)[0] != S("processor_details") && Keys(e)[1] == S("processor_details");
  }

  lemma UpdateHardwareDetails()
    ensures Updated(S("processor_details"), TestValue1(), HardwareDetails()) ==
      Dict([(S("model_name"), Atom(Str("MacBook Pro"))),
            (S("processor_details"), TestValue1()),
            (S("total_number_of_cores"), Atom(Str("5"))),
            (S("memory"), Atom(Str("16 GB")))])
  {
    var k, v := S("processor_details"), TestValue1();
    var e := HardwareDetails().entries;
    ProcessorDetailsIndex();
    StoredSecondOfFour(k, v, (S("model_name"), Atom(Str("MacBook Pro"))), (k, ProcessorDetails()),
      (S("total_number_of_cores"), Atom(Str("5"))), (S("memory"), Atom(Str("16 GB"))));
  }

  /** Replacing the second of four entries whose other three hold scalars. */
  lemma StoredSecondOfFour(key: Key, value: Doc, a: (Key, Doc), b: (Key, Doc), c: (Key, Doc), d: (Key, Doc))
    requires NoTruthy(key, value) && a.1.Atom? && c.1.Atom? && d.1.Atom?
    ensures UpdatedEntries(key, value, [a, b, c, d], 1) == [a, (b.0, value), c, d]
  {
    var e := [a, b, c, d];
    var r := UpdatedEntries(key, value, e, 1);
    StoredAt(key, value, e, 1);
    assert r == [r[0], r[1], r[2], r[3]];
  }

  /** The dict stored by `nested_update` in the test of `sample_data3`. */
  function TestValue2(): (v: Doc)
    ensures NoTruthy(S("checks"), v)
  {
    Dict([(S("key1"), List([Atom(Str("value1"))])), (S("key2"), Atom(Str("value2")))])
  }

  lemma UpdateSampleData3()
    ensures Updated(S("checks"), TestValue2(), SampleData3()) ==
      Dict([(S("values"), List([Dict([(S("checks"), TestValue2())])]))])
  {
    var k, v := S("checks"), TestValue2();
    var checks := SampleData3().entries[0].1.items[0];
    assert SampleData3() == Dict([(S("values"), List([checks]))]);
    assert Updated(k, v, checks) == Dict([(k, v)]) by {
      assert TruthyIndex(k, checks.entries) == 0;
      StoredAt(k, v, checks.entries, 0);
      var r := UpdatedEntries(k, v, checks.entries, 0);
      assert r == [r[0]];
    }
    assert Updated(k, v, List([checks])) == List([Dict([(k, v)])]) by {
      WalkedAt(k, v, [checks]);
      var r := UpdatedItems(k, v, [checks]);
      assert r == [r[0]];
    }
    assert TruthyIndex(k, SampleData3().entries) == -1;
    StoredAt(k, v, SampleData3().entries, -1);
    var r := UpdatedEntries(k, v, SampleData3().entries, -1);
    assert r == [r[0]];
  }

  /** nested_get reports the first match, and None in place of a falsy first match. */
  lemma GetFound()
    ensures NestedGet(SubjectDict(), S("d")) == Ok(Atom(Int(100)))
  {
    LookupSubjectDict();
  }

  /** The first match is falsy, so nothing is returned even though a later match is truthy. */
  lemma GetFalsyFirst()
    ensures NestedGet(Dict([(S("k"), Atom(Int(0))), (S("j"), Dict([(S("k"), Atom(Int(7)))]))]), S("k")) == Ok(Atom(Null))
  {
  }

  lemma GetMissing()
    ensures NestedGet(SubjectDict(), S("z")) == Err(IndexError)
  {
  }

  /** A falsy value is not deleted, and the walk goes on into the other entries. */
  lemma FalsyValueNotDeleted()
    ensures Deleted(S("k"), Dict([(S("k"), Atom(Str(""))), (S("j"), Dict([(S("k"), Atom(Int(1)))]))])) ==
      Dict([(S("k"), Atom(Str(""))), (S("j"), Dict([]))])
  {
    var e := [(S("k"), Atom(Str(""))), (S("j"), Dict([(S("k"), Atom(Int(1)))]))];
    assert TruthyIndex(S("k"), e) == -1;
    assert Deleted(S("k"), Dict([(S("k"), Atom(Int(1)))])) == Dict([]);
    DeletedEntriesAt(S("k"), e, -1);
    var r := DeletedEntries(S("k"), e, -1);
    assert r == [r[0], r[1]];
  }

  /** A falsy value is not replaced, and the walk goes on into the other entries. */
  lemma FalsyValueNotReplaced()
    ensures Updated(S("k"), Atom(Int(9)), Dict([(S("k"), List([])), (S("j"), List([Dict([(S("k"), Atom(Bool(true)))])]))])) ==
      Dict([(S("k"), List([])), (S("j"), List([Dict([(S("k"), Atom(Int(9)))])]))])
  {
    var k, v := S("k"), Atom(Int(9));
    var inner := Dict([(k, Atom(Bool(true)))]);
    var e := [(k, List([])), (S("j"), List([inner]))];
    assert TruthyIndex(k, e) == -1;
    assert TruthyIndex(k, inner.entries) == 0;
    StoredAt(k, v, inner.entries, 0);
    assert Updated(k, v, inner) == Dict([(k, v)]);
    WalkedAt(k, v, [inner]);
    assert Updated(k, v, List([inner])) == List([Dict([(k, v)])]);
    StoredAt(k, v, e, -1);
    var r := UpdatedEntries(k, v, e, -1);
    assert r == [r[0], r[1]];
  }
}
