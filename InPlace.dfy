/** `nested_delete` and `nested_update` as the source runs them: walks that
    change the lists and dicts of a document in place and return the document
    they were given. Lists and dicts are objects on the heap; scalars are
    stored by value. Each object carries the document it stands for (`model`)
    and the objects it owns (`Repr`); `Valid` says the objects form a tree. */
module InPlace {
  import opened Documents
  import opened Traversal
  import opened LookupApi

  /** A value held by a list or a dict: a scalar, or a reference to a list or a dict. */
  datatype Val = Leaf(scalar: Scalar) | ListRef(list: PyList) | DictRef(dict: PyDict)

  /** The object a value refers to, if any. */
  function Objects(v: Val): set<object> {
    match v
    case Leaf(_) => {}
    case ListRef(l) => {l}
    case DictRef(d) => {d}
  }

  /** Every object reachable from `v`. */
  ghost function Footprint(v: Val): set<object>
    reads Objects(v)
  {
    match v
    case Leaf(_) => {}
    case ListRef(l) => l.Repr
    case DictRef(d) => d.Repr
  }

  /** The document `v` stands for. */
  ghost function Model(v: Val): Doc
    reads Objects(v)
  {
    match v
    case Leaf(s) => Atom(s)
    case ListRef(l) => l.model
    case DictRef(d) => d.model
  }

  ghost predicate ValValid(v: Val)
    reads Objects(v), Footprint(v)
    decreases Footprint(v), 1
  {
    match v
    case Leaf(_) => true
    case ListRef(l) => l.Valid()
    case DictRef(d) => d.Valid()
  }

  /** The objects the values of `vs` refer to. */
  function ItemObjects(vs: seq<Val>): set<object> {
    if vs == [] then {} else Objects(vs[0]) + ItemObjects(vs[1..])
  }

  /** Every object reachable from the values of `vs`. */
  ghost function ItemFootprints(vs: seq<Val>): set<object>
    reads ItemObjects(vs)
  {
    if vs == [] then {} else Footprint(vs[0]) + ItemFootprints(vs[1..])
  }

  /** Each value's footprint is part of the footprint of them all. */
  lemma {:induction false} ItemFootprintsContain(vs: seq<Val>)
    ensures forall i :: 0 <= i < |vs| ==> Footprint(vs[i]) <= ItemFootprints(vs)
  {
    if vs != [] {
      ItemFootprintsContain(vs[1..]);
      forall i | 1 <= i < |vs| ensures Footprint(vs[i]) <= ItemFootprints(vs) {
        assert vs[i] == vs[1..][i - 1];
      }
    }
  }

  /** A valid value owns the object it refers to. */
  lemma ValidOwnsObjects(v: Val)
    requires ValValid(v)
    ensures Objects(v) <= Footprint(v)
  {
  }

  /** The footprint of values that each lie within `s` lies within `s`. */
  lemma {:induction false} ItemFootprintsWithin(vs: seq<Val>, s: set<object>)
    requires forall i :: 0 <= i < |vs| ==> Footprint(vs[i]) <= s
    ensures ItemFootprints(vs) <= s
  {
    if vs != [] {
      assert forall i :: 0 <= i < |vs[1..]| ==> vs[1..][i] == vs[i + 1];
      ItemFootprintsWithin(vs[1..], s);
    }
  }

  /** An object that no value of `vs` refers to is not among their objects. */
  lemma {:induction false} ItemObjectsOutside(vs: seq<Val>, o: object)
    requires forall i :: 0 <= i < |vs| ==> o !in Objects(vs[i])
    ensures o !in ItemObjects(vs)
  {
    if vs != [] {
      assert forall i :: 0 <= i < |vs[1..]| ==> vs[1..][i] == vs[i + 1];
      ItemObjectsOutside(vs[1..], o);
    }
  }

  /** The values of a list of entries. */
  function Values(entries: seq<(Key, Val)>): (r: seq<Val>)
    ensures |r| == |entries| && forall i :: 0 <= i < |entries| ==> r[i] == entries[i].1
  {
    seq(|entries|, i requires 0 <= i < |entries| => entries[i].1)
  }

  lemma ValuesRemoved(entries: seq<(Key, Val)>, p: int)
    requires 0 <= p < |entries|
    ensures Values(entries[..p] + entries[p + 1..]) == Values(entries)[..p] + Values(entries)[p + 1..]
  {
    var l, r := Values(entries[..p] + entries[p + 1..]), Values(entries)[..p] + Values(entries)[p + 1..];
    assert forall j :: 0 <= j < |l| ==> l[j] == r[j] by {
      forall j | 0 <= j < |l| ensures l[j] == r[j] {
        if j >= p { assert l[j] == entries[j + 1].1; }
      }
    }
  }

  /** The documents the values of `vs` stand for. */
  ghost function ItemModels(vs: seq<Val>): (r: seq<Doc>)
    reads ItemObjects(vs)
    ensures |r| == |vs| && forall i :: 0 <= i < |vs| ==> r[i] == Model(vs[i])
  {
    if vs == [] then [] else [Model(vs[0])] + ItemModels(vs[1..])
  }

  /** The entries of documents that `entries` stand for. */
  ghost function EntryModels(entries: seq<(Key, Val)>): (r: seq<(Key, Doc)>)
    reads ItemObjects(Values(entries))
    ensures |r| == |entries| && forall i :: 0 <= i < |entries| ==> r[i] == (entries[i].0, Model(entries[i].1))
  {
    var ms := ItemModels(Values(entries));
    seq(|entries|, i requires 0 <= i < |entries| => (entries[i].0, ms[i]))
  }

  /** A Python list. */
  class PyList {
    var items: seq<Val>
    ghost var model: Doc
    ghost var Repr: set<object>

    /** `[v0, v1, ...]`: a new list over values that share no object. */
    constructor (items: seq<Val>)
      requires forall i :: 0 <= i < |items| ==> ValValid(items[i])
      requires forall i, j :: 0 <= i < j < |items| ==> Footprint(items[i]) !! Footprint(items[j])
      ensures Valid() && this.items == items && model == List(ItemModels(items))
      ensures Repr == {this} + ItemFootprints(items)
    {
      ghost var within := ItemFootprints(items);
      ItemsValidNew(items);
      this.items := items;
      model := List(ItemModels(items));
      Repr := {this} + within;
      new;
      ItemObjectsOutside(items, this);
      forall i | 0 <= i < |items| ensures this !in Footprint(items[i]) {
      }
      ItemFootprintsWithin(items, within - {this});
      assert this !in within && Repr - {this} == within;
      ListValidFrom(this);
    }

    ghost predicate Valid()
      reads this, Repr
      decreases Repr, 0
    {
      this in Repr &&
      model.List? && |model.items| == |items| &&
      (forall i :: 0 <= i < |items| ==>
        Objects(items[i]) <= Repr && Footprint(items[i]) <= Repr && Objects(items[i]) <= Footprint(items[i]) &&
        this !in Footprint(items[i]) &&
        ValValid(items[i]) && model.items[i] == Model(items[i])) &&
      (forall i, j :: 0 <= i < j < |items| ==> Footprint(items[i]) !! Footprint(items[j]))
    }
  }

  /** A Python dict; `entries` are kept in iteration order. */
  class PyDict {
    var entries: seq<(Key, Val)>
    ghost var model: Doc
    ghost var Repr: set<object>

    /** `{k0: v0, k1: v1, ...}`: a new dict over distinct keys and values that share no object. */
    constructor (entries: seq<(Key, Val)>)
      requires UniqueKeys(entries)
      requires forall i :: 0 <= i < |entries| ==> ValValid(entries[i].1)
      requires forall i, j :: 0 <= i < j < |entries| ==> Footprint(entries[i].1) !! Footprint(entries[j].1)
      ensures Valid() && this.entries == entries && model == Dict(EntryModels(entries))
      ensures Repr == {this} + ItemFootprints(Values(entries))
    {
      ghost var within := ItemFootprints(Values(entries));
      EntriesValidNew(entries);
      this.entries := entries;
      model := Dict(EntryModels(entries));
      Repr := {this} + within;
      new;
      ItemObjectsOutside(Values(entries), this);
      forall i | 0 <= i < |entries| ensures this !in Footprint(entries[i].1) {
      }
      ItemFootprintsWithin(Values(entries), within - {this});
      assert this !in within && Repr - {this} == within;
      DictValidFrom(this);
    }

    ghost predicate Valid()
      reads this, Repr
      decreases Repr, 0
    {
      this in Repr &&
      model.Dict? && |model.entries| == |entries| && UniqueKeys(entries) &&
      (forall i :: 0 <= i < |entries| ==>
        Objects(entries[i].1) <= Repr && Footprint(entries[i].1) <= Repr &&
        Objects(entries[i].1) <= Footprint(entries[i].1) && this !in Footprint(entries[i].1) && ValValid(entries[i].1) &&
        model.entries[i] == (entries[i].0, Model(entries[i].1))) &&
      (forall i, j :: 0 <= i < j < |entries| ==> Footprint(entries[i].1) !! Footprint(entries[j].1))
    }
  }

  /** The part of a list's `Valid()` about its items: `vs` are valid values
      inside `within`, apart from each other, standing for `ms`. */
  ghost predicate ItemsValid(vs: seq<Val>, ms: seq<Doc>, within: set<object>)
    reads within
  {
    |ms| == |vs| &&
    (forall i :: 0 <= i < |vs| ==>
      Objects(vs[i]) <= within && Footprint(vs[i]) <= within && ValValid(vs[i]) && ms[i] == Model(vs[i])) &&
    (forall i, j :: 0 <= i < j < |vs| ==>
      Objects(vs[i]) <= within && Objects(vs[j]) <= within && Footprint(vs[i]) !! Footprint(vs[j]))
  }

  /** The part of a dict's `Valid()` about its entries: `es` are valid values
      inside `within`, apart from each other, under distinct keys, standing for `ms`. */
  ghost predicate EntriesValid(es: seq<(Key, Val)>, ms: seq<(Key, Doc)>, within: set<object>)
    reads within
  {
    |ms| == |es| && UniqueKeys(es) &&
    (forall i :: 0 <= i < |es| ==>
      Objects(es[i].1) <= within && Footprint(es[i].1) <= within && ValValid(es[i].1) &&
      ms[i] == (es[i].0, Model(es[i].1))) &&
    (forall i, j :: 0 <= i < j < |es| ==>
      Objects(es[i].1) <= within && Objects(es[j].1) <= within && Footprint(es[i].1) !! Footprint(es[j].1))
  }

  /** Valid values that share no object are valid items within their joint footprint. */
  lemma ItemsValidNew(vs: seq<Val>)
    requires forall i :: 0 <= i < |vs| ==> ValValid(vs[i])
    requires forall i, j :: 0 <= i < j < |vs| ==> Footprint(vs[i]) !! Footprint(vs[j])
    ensures ItemsValid(vs, ItemModels(vs), ItemFootprints(vs))
  {
    ItemFootprintsContain(vs);
    forall i | 0 <= i < |vs| ensures Objects(vs[i]) <= Footprint(vs[i]) {
      ValidOwnsObjects(vs[i]);
    }
  }

  /** Valid values under distinct keys that share no object are valid entries
      within their joint footprint. */
  lemma EntriesValidNew(es: seq<(Key, Val)>)
    requires UniqueKeys(es)
    requires forall i :: 0 <= i < |es| ==> ValValid(es[i].1)
    requires forall i, j :: 0 <= i < j < |es| ==> Footprint(es[i].1) !! Footprint(es[j].1)
    ensures EntriesValid(es, EntryModels(es), ItemFootprints(Values(es)))
  {
    ItemFootprintsContain(Values(es));
    forall i | 0 <= i < |es| ensures Objects(es[i].1) <= Footprint(es[i].1) {
      ValidOwnsObjects(es[i].1);
    }
  }

  lemma ListValidFrom(l: PyList)
    requires l in l.Repr && l.model.List? && ItemsValid(l.items, l.model.items, l.Repr - {l})
    ensures l.Valid()
  {
    forall i | 0 <= i < |l.items| ensures Objects(l.items[i]) <= Footprint(l.items[i]) {
      ValidOwnsObjects(l.items[i]);
    }
  }

  /** No value of `es` shares an object with `outside`. */
  ghost predicate ApartFrom(es: seq<(Key, Val)>, outside: set<object>, within: set<object>)
    reads within
  {
    forall i :: 0 <= i < |es| ==> Objects(es[i].1) <= within && Footprint(es[i].1) !! outside
  }

  lemma EntriesValidOf(d: PyDict)
    requires d.Valid()
    ensures EntriesValid(d.entries, d.model.entries, d.Repr - {d})
  {
  }

  lemma DictValidFrom(d: PyDict)
    requires d in d.Repr && d.model.Dict? && EntriesValid(d.entries, d.model.entries, d.Repr - {d})
    ensures d.Valid()
  {
    forall i | 0 <= i < |d.entries| ensures Objects(d.entries[i].1) <= Footprint(d.entries[i].1) {
      ValidOwnsObjects(d.entries[i].1);
    }
  }

  /** Removing entry `p` keeps the others valid, and apart from the removed value. */
  lemma EntriesValidRemoved(es: seq<(Key, Val)>, ms: seq<(Key, Doc)>, within: set<object>, p: int)
    requires EntriesValid(es, ms, within) && 0 <= p < |es|
    ensures EntriesValid(es[..p] + es[p + 1..], ms[..p] + ms[p + 1..], within)
    ensures ApartFrom(es[..p] + es[p + 1..], Footprint(es[p].1), within)
  {
    var e, m := es[..p] + es[p + 1..], ms[..p] + ms[p + 1..];
    assert forall j :: 0 <= j < |e| ==>
      (e[j] == es[if j < p then j else j + 1] && m[j] == ms[if j < p then j else j + 1]);
    assert UniqueKeys(e);
  }

  /** Storing a scalar at entry `p` keeps the entries valid, and apart from the replaced value. */
  lemma EntriesValidStored(es: seq<(Key, Val)>, ms: seq<(Key, Doc)>, within: set<object>, p: int, s: Scalar)
    requires EntriesValid(es, ms, within) && 0 <= p < |es|
    ensures EntriesValid(es[p := (es[p].0, Leaf(s))], ms[p := (ms[p].0, Atom(s))], within)
    ensures ApartFrom(es[p := (es[p].0, Leaf(s))], Footprint(es[p].1), within)
  {
    var e := es[p := (es[p].0, Leaf(s))];
    assert forall j :: 0 <= j < |e| ==> e[j].0 == es[j].0;
    assert UniqueKeys(e);
  }

  /** Python truthiness of a stored value, read from the objects themselves. */
  function IsTruthy(v: Val): bool
    reads Objects(v)
  {
    match v
    case Leaf(s) => ScalarTruthy(s)
    case ListRef(l) => |l.items| > 0
    case DictRef(d) => |d.entries| > 0
  }

  lemma TruthyAgrees(v: Val)
    requires ValValid(v)
    ensures IsTruthy(v) == Truthy(Model(v))
  {
  }

  /** The objects of a valid value stand for a document whose every dict has
      unique keys. */
  lemma {:induction false} ValidWellFormed(v: Val)
    requires ValValid(v)
    ensures WellFormed(Model(v))
    decreases Footprint(v)
  {
    match v
    case Leaf(_) =>
    case ListRef(l) =>
      forall i | 0 <= i < |l.items| ensures WellFormed(l.model.items[i]) {
        ValidWellFormed(l.items[i]);
      }
    case DictRef(d) =>
      forall i | 0 <= i < |d.entries| ensures WellFormed(d.model.entries[i].1) {
        ValidWellFormed(d.entries[i].1);
      }
      assert Keys(d.entries) == Keys(d.model.entries);
  }

  /** The objects of the value that `key` binds truthily in `d`: the dict
      branch of either walk removes or replaces that value without walking
      into it. Empty when `key` has no truthy entry. */
  ghost function Dropped(d: PyDict, key: Key): set<object>
    requires d.Valid()
    reads d, d.Repr
  {
    var at := TruthyIndex(key, d.model.entries);
    if at >= 0 then Footprint(d.entries[at].1) else {}
  }

  /** The objects either walk never reaches: those of every value it removes
      or replaces, in every dict it walks. */
  ghost function Unwalked(v: Val, key: Key): (r: set<object>)
    requires ValValid(v)
    reads Objects(v), Footprint(v)
    ensures r <= Footprint(v)
    decreases Footprint(v), 0
  {
    match v
    case Leaf(_) => {}
    case ListRef(l) =>
      assert l.Valid() && AllValid(l.items, l.Repr - {l});
      UnwalkedOf(l.items, key, l.Repr - {l})
    case DictRef(d) =>
      assert d.Valid() && AllValid(Values(d.entries), d.Repr - {d});
      Dropped(d, key) + UnwalkedOf(Values(d.entries), key, d.Repr - {d})
  }

  /** Valid values whose objects all lie within `within`. */
  ghost predicate AllValid(vs: seq<Val>, within: set<object>)
    reads within
  {
    forall j :: 0 <= j < |vs| ==> Objects(vs[j]) <= within && Footprint(vs[j]) <= within && ValValid(vs[j])
  }

  /** The objects the walks never reach inside any of the values `vs`. */
  ghost function UnwalkedOf(vs: seq<Val>, key: Key, within: set<object>): (r: set<object>)
    requires AllValid(vs, within)
    reads within
    ensures r <= within
    decreases within, 1
  {
    set j, o | 0 <= j < |vs| && o in Unwalked(vs[j], key) :: o
  }

  /** The values of a valid dict are valid and lie within its objects other than itself. */
  lemma ValuesValid(d: PyDict)
    requires d.Valid()
    ensures AllValid(Values(d.entries), d.Repr - {d})
  {
  }

  /** When every value of `vs` but the one at `i` is also a value of `ws`,
      what is unwalked in `vs` is unwalked in `ws` or lies in `dropped`. */
  lemma UnwalkedOfCovered(vs: seq<Val>, ws: seq<Val>, i: int, key: Key, within: set<object>, dropped: set<object>)
    requires AllValid(vs, within) && AllValid(ws, within)
    requires 0 <= i < |vs| ==> Footprint(vs[i]) <= dropped
    requires forall j :: 0 <= j < |vs| && j != i ==> vs[j] in ws
    ensures UnwalkedOf(vs, key, within) <= dropped + UnwalkedOf(ws, key, within)
  {
    forall o | o in UnwalkedOf(vs, key, within) ensures o in dropped + UnwalkedOf(ws, key, within) {
      var j :| 0 <= j < |vs| && o in Unwalked(vs[j], key);
      if j != i {
        var m :| 0 <= m < |ws| && ws[m] == vs[j];
        assert o in Unwalked(ws[m], key);
      }
    }
  }

  /** Removing the value at `i` leaves valid values, and what is unwalked in
      `vs` is then unwalked in what remains or lies in the removed value. */
  lemma UnwalkedOfRemoved(vs: seq<Val>, i: int, key: Key, within: set<object>)
    requires AllValid(vs, within) && 0 <= i < |vs|
    ensures AllValid(vs[..i] + vs[i + 1..], within)
    ensures UnwalkedOf(vs, key, within) <= Footprint(vs[i]) + UnwalkedOf(vs[..i] + vs[i + 1..], key, within)
  {
    var ws := vs[..i] + vs[i + 1..];
    forall j | 0 <= j < |vs| && j != i ensures vs[j] in ws {
      assert vs[j] == ws[if j < i then j else j - 1];
    }
    assert forall j :: 0 <= j < |ws| ==> ws[j] == vs[if j < i then j else j + 1];
    UnwalkedOfCovered(vs, ws, i, key, within, Footprint(vs[i]));
  }

  /** Storing a scalar at `i` leaves valid values, and what is unwalked in
      `vs` is then unwalked in the new values or lies in the replaced one. */
  lemma UnwalkedOfStored(vs: seq<Val>, i: int, s: Scalar, key: Key, within: set<object>)
    requires AllValid(vs, within) && 0 <= i < |vs|
    ensures AllValid(vs[i := Leaf(s)], within)
    ensures UnwalkedOf(vs, key, within) <= Footprint(vs[i]) + UnwalkedOf(vs[i := Leaf(s)], key, within)
  {
    var ws := vs[i := Leaf(s)];
    forall j | 0 <= j < |vs| && j != i ensures vs[j] in ws {
      assert vs[j] == ws[j];
    }
    UnwalkedOfCovered(vs, ws, i, key, within, Footprint(vs[i]));
  }

  // ----- nested_delete -----

  method NestedDelete(document: Val, key: Key) returns (r: Val)
    requires ValValid(document)
    modifies Footprint(document)
    ensures r == document
    ensures ValValid(document) && Footprint(document) == old(Footprint(document))
    ensures Model(document) == Deleted(key, old(Model(document)))
    ensures NoTruthy(key, Model(document))
    ensures unchanged(old(Unwalked(document, key)))
    decreases Footprint(document), 4
  {
    ValidWellFormed(document);
    DeletedNoTruthy(key, Model(document));
    r := document;
    match document
    case Leaf(_) =>
    case ListRef(l) => DeleteInList(l, key);
    case DictRef(d) => DeleteInDict(d, key);
  }

  /** The list branch: every element is walked; the list itself is untouched. */
  method DeleteInList(l: PyList, key: Key)
    requires l.Valid()
    modifies l.Repr
    ensures l.Valid() && l.Repr == old(l.Repr) && l.items == old(l.items)
    ensures l.model == Deleted(key, old(l.model))
    ensures unchanged(old(Unwalked(ListRef(l), key)))
    decreases l.Repr, 3
  {
    ghost var before := l.model.items;
    var i := 0;
    while i < |l.items|
      invariant 0 <= i <= |l.items|
      invariant l.Valid() && l.Repr == old(l.Repr) && l.items == old(l.items)
      invariant forall j :: 0 <= j < i ==> l.model.items[j] == Deleted(key, before[j])
      invariant forall j :: i <= j < |before| ==> l.model.items[j] == before[j]
      invariant forall j :: 0 <= j < i ==> unchanged(old(Unwalked(l.items[j], key)))
      invariant forall j :: i <= j < |l.items| ==> unchanged(old(Footprint(l.items[j])))
    {
      DeleteItem(l, i, key);
      i := i + 1;
    }
    DeletedItemsAt(key, before);
  }

  /** One turn of the list branch: element `i` is walked, no other one changes. */
  method DeleteItem(l: PyList, i: int, key: Key)
    requires l.Valid() && 0 <= i < |l.items|
    modifies l, Footprint(l.items[i])
    ensures l.Valid() && l.Repr == old(l.Repr) && l.items == old(l.items)
    ensures l.model == List(old(l.model.items)[i := Deleted(key, old(l.model.items[i]))])
    ensures unchanged(old(Unwalked(l.items[i], key)))
    decreases l.Repr, 1
  {
    var v := l.items[i];
    var _ := NestedDelete(v, key);
    l.model := List(l.model.items[i := Model(v)]);
    forall j | 0 <= j < |l.items| && j != i
      ensures ValValid(l.items[j]) && Model(l.items[j]) == old(Model(l.items[j]))
      ensures Footprint(l.items[j]) == old(Footprint(l.items[j]))
    {
      assert forall o :: o in old(Footprint(l.items[j])) ==> o !in old(Footprint(v));
    }
  }

  /** The dict branch: the entry for `key` goes when its value is truthy, then
      every remaining value is walked. */
  method DeleteInDict(d: PyDict, key: Key)
    requires d.Valid()
    modifies d.Repr
    ensures d.Valid() && d.Repr == old(d.Repr)
    ensures d.model == Deleted(key, old(d.model))
    ensures var drop := TruthyIndex(key, old(d.model.entries));
      if drop < 0 then d.entries == old(d.entries) else d.entries == old(d.entries[..drop] + d.entries[drop + 1..])
    ensures unchanged(old(Unwalked(DictRef(d), key)))
    decreases d.Repr, 3
  {
    ghost var before := d.model.entries;
    ghost var dropped := Dropped(d, key);
    ghost var unwalked := Unwalked(DictRef(d), key);
    ghost var drop := RemoveTruthy(d, key);
    ghost var kept, held := d.model.entries, d.entries;
    ValuesValid(d);
    ghost var rest := UnwalkedOf(Values(d.entries), key, d.Repr - {d});
    assert unwalked <= dropped + rest && d !in unwalked;
    assert unchanged(unwalked);
    label walk:
    DeleteValues(d, key, dropped);
    assert unchanged@walk(dropped + rest) && d.entries == held;
    WalkedKept(key, before, drop, kept, d.model.entries);
  }

  /** `document.get(key)` read for its truth: the position of the entry for
      `key` when its value is truthy, and -1 when the key is absent or its
      value falsy. */
  method TruthyAt(d: PyDict, key: Key) returns (p: int)
    requires d.Valid()
    ensures p == TruthyIndex(key, d.model.entries)
  {
    var found := Find(Keys(d.entries), key);
    assert Keys(d.entries) == Keys(d.model.entries);
    p := -1;
    if found.Some? {
      TruthyAgrees(d.entries[found.value].1);
      if IsTruthy(d.entries[found.value].1) {
        p := found.value;
      }
    }
  }

  /** `if document.get(key): del document[key]`: the entry for `key` goes when
      its value is truthy. What the walk will not reach is then the removed
      value's objects and what it will not reach in the values kept. */
  method RemoveTruthy(d: PyDict, key: Key) returns (ghost drop: int)
    requires d.Valid()
    modifies d
    ensures d.Valid() && d.Repr == old(d.Repr)
    ensures drop == TruthyIndex(key, old(d.model.entries))
    ensures drop < 0 ==> d.model == old(d.model) && d.entries == old(d.entries)
    ensures drop >= 0 ==> d.model.entries == old(d.model.entries[..drop] + d.model.entries[drop + 1..])
    ensures drop >= 0 ==> d.entries == old(d.entries[..drop] + d.entries[drop + 1..])
    ensures d !in old(Dropped(d, key))
    ensures forall j :: 0 <= j < |d.entries| ==> Footprint(d.entries[j].1) !! old(Dropped(d, key))
    ensures old(UnwalkedOf(Values(d.entries), key, d.Repr - {d}))
      <= old(Dropped(d, key)) + UnwalkedOf(Values(d.entries), key, d.Repr - {d})
  {
    var p := TruthyAt(d, key);
    drop := p;
    if p >= 0 {
      ghost var vs, within := Values(d.entries), d.Repr - {d};
      ghost var ws := vs[..p] + vs[p + 1..];
      UnwalkedOfRemoved(vs, p, key, within);
      ghost var rest := UnwalkedOf(ws, key, within);
      assert UnwalkedOf(vs, key, within) <= Dropped(d, key) + rest;
      RemoveEntry(d, p);
      assert unchanged(within) && Values(d.entries) == ws;
      assert AllValid(ws, within) && UnwalkedOf(ws, key, within) == rest;
    }
  }

  /** The loop of the dict branch: every value the dict holds is walked, in
      iteration order; no object of `outside` changes. */
  method DeleteValues(d: PyDict, key: Key, ghost outside: set<object>)
    requires d.Valid() && d !in outside
    requires forall j :: 0 <= j < |d.entries| ==> Footprint(d.entries[j].1) !! outside
    modifies d.Repr
    ensures d.Valid() && d.Repr == old(d.Repr) && d.entries == old(d.entries)
    ensures |d.model.entries| == |old(d.model.entries)|
    ensures forall j :: 0 <= j < |d.entries| ==>
      d.model.entries[j] == (old(d.model.entries[j].0), Deleted(key, old(d.model.entries[j].1)))
    ensures unchanged(old(UnwalkedOf(Values(d.entries), key, d.Repr - {d})))
    ensures unchanged(outside)
    decreases d.Repr, 2
  {
    ghost var before := d.model.entries;
    var i := 0;
    while i < |d.entries|
      invariant 0 <= i <= |d.entries|
      invariant d.Valid() && d.Repr == old(d.Repr) && d.entries == old(d.entries)
      invariant |d.model.entries| == |before|
      invariant forall j :: 0 <= j < i ==> d.model.entries[j] == (before[j].0, Deleted(key, before[j].1))
      invariant forall j :: i <= j < |before| ==> d.model.entries[j] == before[j]
      invariant unchanged(outside)
      invariant forall j :: 0 <= j < i ==> unchanged(old(Unwalked(d.entries[j].1, key)))
      invariant forall j :: i <= j < |d.entries| ==> unchanged(old(Footprint(d.entries[j].1)))
    {
      DeleteValue(d, i, key);
      i := i + 1;
    }
  }

  /** The entries the dict branch ends with are those of Deleted: the kept
      entries, each value walked. */
  lemma WalkedKept(key: Key, before: seq<(Key, Doc)>, drop: int, kept: seq<(Key, Doc)>, after: seq<(Key, Doc)>)
    requires -1 <= drop < |before|
    requires drop < 0 ==> kept == before
    requires drop >= 0 ==> kept == before[..drop] + before[drop + 1..]
    requires |after| == |kept|
    requires forall j :: 0 <= j < |kept| ==> after[j] == (kept[j].0, Deleted(key, kept[j].1))
    ensures after == DeletedEntries(key, before, drop)
  {
    DeletedEntriesAt(key, before, drop);
    var r := DeletedEntries(key, before, drop);
    forall j | 0 <= j < |after| ensures after[j] == r[j] {
      if drop >= 0 && j >= drop {
        assert kept[j] == before[j + 1];
      }
    }
  }

  /** `del document[key]`: entry `p` leaves the dict, the others keep their order. */
  method RemoveEntry(d: PyDict, p: int)
    requires d.Valid() && 0 <= p < |d.entries|
    modifies d
    ensures d.Valid() && d.Repr == old(d.Repr)
    ensures d.entries == old(d.entries[..p] + d.entries[p + 1..])
    ensures d.model == Dict(old(d.model.entries[..p] + d.model.entries[p + 1..]))
    ensures Values(d.entries) == old(Values(d.entries)[..p] + Values(d.entries)[p + 1..])
    ensures forall j :: 0 <= j < |d.entries| ==> Footprint(d.entries[j].1) !! old(Footprint(d.entries[p].1))
  {
    var e := d.entries[..p] + d.entries[p + 1..];
    ghost var m := d.model.entries[..p] + d.model.entries[p + 1..];
    ghost var within := d.Repr - {d};
    ValuesRemoved(d.entries, p);
    EntriesValidOf(d);
    EntriesValidRemoved(d.entries, d.model.entries, within, p);
    d.entries := e;
    d.model := Dict(m);
    assert EntriesValid(e, m, within) && ApartFrom(e, old(Footprint(d.entries[p].1)), within);
    DictValidFrom(d);
  }

  /** One turn of the dict branch: the value of entry `i` is walked, nothing else changes. */
  method DeleteValue(d: PyDict, i: int, key: Key)
    requires d.Valid() && 0 <= i < |d.entries|
    modifies d, Footprint(d.entries[i].1)
    ensures d.Valid() && d.Repr == old(d.Repr) && d.entries == old(d.entries)
    ensures forall j :: 0 <= j < |d.entries| ==> Footprint(d.entries[j].1) == old(Footprint(d.entries[j].1))
    ensures d.model == Dict(old(d.model.entries)[i := (old(d.model.entries[i].0), Deleted(key, old(d.model.entries[i].1)))])
    ensures unchanged(old(Unwalked(d.entries[i].1, key)))
    decreases d.Repr, 1
  {
    var v := d.entries[i].1;
    var _ := NestedDelete(v, key);
    d.model := Dict(d.model.entries[i := (d.entries[i].0, Model(v))]);
    forall j | 0 <= j < |d.entries| && j != i
      ensures ValValid(d.entries[j].1) && Model(d.entries[j].1) == old(Model(d.entries[j].1))
      ensures Footprint(d.entries[j].1) == old(Footprint(d.entries[j].1))
    {
      assert forall o :: o in old(Footprint(d.entries[j].1)) ==> o !in old(Footprint(v));
    }
  }

  // ----- nested_update -----

  method NestedUpdate(document: Val, key: Key, value: Scalar) returns (r: Val)
    requires ValValid(document)
    modifies Footprint(document)
    ensures r == document
    ensures ValValid(document) && Footprint(document) == old(Footprint(document))
    ensures Model(document) == Updated(key, Atom(value), old(Model(document)))
    ensures forall v :: v in NestedLookup(key, Model(document)) ==> v == Atom(value) || !Truthy(v)
    ensures unchanged(old(Unwalked(document, key)))
    decreases Footprint(document), 4
  {
    ValidWellFormed(document);
    UpdatedLookup(key, Atom(value), Model(document));
    r := document;
    match document
    case Leaf(_) =>
    case ListRef(l) => UpdateInList(l, key, value);
    case DictRef(d) => UpdateInDict(d, key, value);
  }

  /** The list branch: every element is walked; the list itself is untouched. */
  method UpdateInList(l: PyList, key: Key, value: Scalar)
    requires l.Valid()
    modifies l.Repr
    ensures l.Valid() && l.Repr == old(l.Repr) && l.items == old(l.items)
    ensures l.model == Updated(key, Atom(value), old(l.model))
    ensures unchanged(old(Unwalked(ListRef(l), key)))
    decreases l.Repr, 3
  {
    ghost var before := l.model.items;
    var i := 0;
    while i < |l.items|
      invariant 0 <= i <= |l.items|
      invariant l.Valid() && l.Repr == old(l.Repr) && l.items == old(l.items)
      invariant forall j :: 0 <= j < i ==> l.model.items[j] == Updated(key, Atom(value), before[j])
      invariant forall j :: i <= j < |before| ==> l.model.items[j] == before[j]
      invariant forall j :: 0 <= j < i ==> unchanged(old(Unwalked(l.items[j], key)))
      invariant forall j :: i <= j < |l.items| ==> unchanged(old(Footprint(l.items[j])))
    {
      UpdateItem(l, i, key, value);
      i := i + 1;
    }
    UpdatedItemsAt(key, Atom(value), before);
  }

  /** One turn of the list branch: element `i` is walked, no other one changes. */
  method UpdateItem(l: PyList, i: int, key: Key, value: Scalar)
    requires l.Valid() && 0 <= i < |l.items|
    modifies l, Footprint(l.items[i])
    ensures l.Valid() && l.Repr == old(l.Repr) && l.items == old(l.items)
    ensures l.model == List(old(l.model.items)[i := Updated(key, Atom(value), old(l.model.items[i]))])
    ensures unchanged(old(Unwalked(l.items[i], key)))
    decreases l.Repr, 1
  {
    var v := l.items[i];
    var _ := NestedUpdate(v, key, value);
    l.model := List(l.model.items[i := Model(v)]);
    forall j | 0 <= j < |l.items| && j != i
      ensures ValValid(l.items[j]) && Model(l.items[j]) == old(Model(l.items[j]))
      ensures Footprint(l.items[j]) == old(Footprint(l.items[j]))
    {
      assert forall o :: o in old(Footprint(l.items[j])) ==> o !in old(Footprint(v));
    }
  }

  /** The dict branch: a truthy value bound to `key` is replaced by `value`,
      then every value (the stored one included) is walked. */
  method UpdateInDict(d: PyDict, key: Key, value: Scalar)
    requires d.Valid()
    modifies d.Repr
    ensures d.Valid() && d.Repr == old(d.Repr)
    ensures d.model == Updated(key, Atom(value), old(d.model))
    ensures var at := TruthyIndex(key, old(d.model.entries));
      if at < 0 then d.entries == old(d.entries) else d.entries == old(d.entries[at := (d.entries[at].0, Leaf(value))])
    ensures unchanged(old(Unwalked(DictRef(d), key)))
    decreases d.Repr, 3
  {
    ghost var before := d.model.entries;
    ghost var dropped := Dropped(d, key);
    ghost var unwalked := Unwalked(DictRef(d), key);
    ghost var at := StoreTruthy(d, key, value);
    ghost var stored, held := d.model.entries, d.entries;
    ValuesValid(d);
    ghost var rest := UnwalkedOf(Values(d.entries), key, d.Repr - {d});
    assert unwalked <= dropped + rest && d !in unwalked;
    assert unchanged(unwalked);
    label walk:
    UpdateValues(d, key, value, dropped);
    assert unchanged@walk(dropped + rest) && d.entries == held;
    WalkedStored(key, value, before, at, stored, d.model.entries);
  }

  /** `if document.get(key): document[key] = value`: a truthy value of `key`
      is replaced. What the walk will not reach is then the replaced value's
      objects and what it will not reach in the values the dict now holds. */
  method StoreTruthy(d: PyDict, key: Key, value: Scalar) returns (ghost at: int)
    requires d.Valid()
    modifies d
    ensures d.Valid() && d.Repr == old(d.Repr)
    ensures at == TruthyIndex(key, old(d.model.entries))
    ensures at < 0 ==> d.model == old(d.model) && d.entries == old(d.entries)
    ensures at >= 0 ==> d.model.entries == old(d.model.entries[at := (d.model.entries[at].0, Atom(value))])
    ensures at >= 0 ==> d.entries == old(d.entries[at := (d.entries[at].0, Leaf(value))])
    ensures d !in old(Dropped(d, key))
    ensures forall j :: 0 <= j < |d.entries| ==> Footprint(d.entries[j].1) !! old(Dropped(d, key))
    ensures old(UnwalkedOf(Values(d.entries), key, d.Repr - {d}))
      <= old(Dropped(d, key)) + UnwalkedOf(Values(d.entries), key, d.Repr - {d})
  {
    var p := TruthyAt(d, key);
    at := p;
    if p >= 0 {
      ghost var vs, within := Values(d.entries), d.Repr - {d};
      ghost var ws := vs[p := Leaf(value)];
      UnwalkedOfStored(vs, p, value, key, within);
      ghost var rest := UnwalkedOf(ws, key, within);
      assert UnwalkedOf(vs, key, within) <= Dropped(d, key) + rest;
      StoreValue(d, p, value);
      assert unchanged(within) && Values(d.entries) == ws;
      assert AllValid(ws, within) && UnwalkedOf(ws, key, within) == rest;
    }
  }

  /** The loop of the dict branch: every value the dict holds is walked, in
      iteration order; no object of `outside` changes. */
  method UpdateValues(d: PyDict, key: Key, value: Scalar, ghost outside: set<object>)
    requires d.Valid() && d !in outside
    requires forall j :: 0 <= j < |d.entries| ==> Footprint(d.entries[j].1) !! outside
    modifies d.Repr
    ensures d.Valid() && d.Repr == old(d.Repr) && d.entries == old(d.entries)
    ensures |d.model.entries| == |old(d.model.entries)|
    ensures forall j :: 0 <= j < |d.entries| ==>
      d.model.entries[j] == (old(d.model.entries[j].0), Updated(key, Atom(value), old(d.model.entries[j].1)))
    ensures unchanged(old(UnwalkedOf(Values(d.entries), key, d.Repr - {d})))
    ensures unchanged(outside)
    decreases d.Repr, 2
  {
    ghost var before := d.model.entries;
    var i := 0;
    while i < |d.entries|
      invariant 0 <= i <= |d.entries|
      invariant d.Valid() && d.Repr == old(d.Repr) && d.entries == old(d.entries)
      invariant |d.model.entries| == |before|
      invariant forall j :: 0 <= j < i ==> d.model.entries[j] == (before[j].0, Updated(key, Atom(value), before[j].1))
      invariant forall j :: i <= j < |before| ==> d.model.entries[j] == before[j]
      invariant unchanged(outside)
      invariant forall j :: 0 <= j < i ==> unchanged(old(Unwalked(d.entries[j].1, key)))
      invariant forall j :: i <= j < |d.entries| ==> unchanged(old(Footprint(d.entries[j].1)))
    {
      UpdateValue(d, i, key, value);
      i := i + 1;
    }
  }

  /** The entries the dict branch ends with are those of Updated: `value` at
      position `at`, every other value walked. */
  lemma WalkedStored(key: Key, value: Scalar, before: seq<(Key, Doc)>, at: int,
                     stored: seq<(Key, Doc)>, after: seq<(Key, Doc)>)
    requires -1 <= at < |before|
    requires at < 0 ==> stored == before
    requires at >= 0 ==> stored == before[at := (before[at].0, Atom(value))]
    requires |after| == |stored|
    requires forall j :: 0 <= j < |stored| ==> after[j] == (stored[j].0, Updated(key, Atom(value), stored[j].1))
    ensures after == UpdatedEntries(key, Atom(value), before, at)
  {
    UpdatedEntriesAt(key, Atom(value), before, at);
  }

  /** `document[key] = value`: the value of entry `p` is replaced in place. */
  method StoreValue(d: PyDict, p: int, value: Scalar)
    requires d.Valid() && 0 <= p < |d.entries|
    modifies d
    ensures d.Valid() && d.Repr == old(d.Repr)
    ensures d.entries == old(d.entries[p := (d.entries[p].0, Leaf(value))])
    ensures d.model == Dict(old(d.model.entries[p := (d.model.entries[p].0, Atom(value))]))
    ensures forall j :: 0 <= j < |d.entries| ==> Footprint(d.entries[j].1) !! old(Footprint(d.entries[p].1))
  {
    var e := d.entries[p := (d.entries[p].0, Leaf(value))];
    ghost var m := d.model.entries[p := (d.model.entries[p].0, Atom(value))];
    ghost var within := d.Repr - {d};
    EntriesValidOf(d);
    EntriesValidStored(d.entries, d.model.entries, within, p, value);
    d.entries := e;
    d.model := Dict(m);
    assert EntriesValid(e, m, within) && ApartFrom(e, old(Footprint(d.entries[p].1)), within);
    DictValidFrom(d);
  }

  /** One turn of the dict branch: the value of entry `i` is walked, nothing else changes. */
  method UpdateValue(d: PyDict, i: int, key: Key, value: Scalar)
    requires d.Valid() && 0 <= i < |d.entries|
    modifies d, Footprint(d.entries[i].1)
    ensures d.Valid() && d.Repr == old(d.Repr) && d.entries == old(d.entries)
    ensures forall j :: 0 <= j < |d.entries| ==> Footprint(d.entries[j].1) == old(Footprint(d.entries[j].1))
    ensures d.model == Dict(old(d.model.entries)[i := (old(d.model.entries[i].0), Updated(key, Atom(value), old(d.model.entries[i].1)))])
    ensures unchanged(old(Unwalked(d.entries[i].1, key)))
    decreases d.Repr, 1
  {
    var v := d.entries[i].1;
    var _ := NestedUpdate(v, key, value);
    d.model := Dict(d.model.entries[i := (d.entries[i].0, Model(v))]);
    forall j | 0 <= j < |d.entries| && j != i
      ensures ValValid(d.entries[j].1) && Model(d.entries[j].1) == old(Model(d.entries[j].1))
      ensures Footprint(d.entries[j].1) == old(Footprint(d.entries[j].1))
    {
      assert forall o :: o in old(Footprint(d.entries[j].1)) ==> o !in old(Footprint(v));
    }
  }
}
