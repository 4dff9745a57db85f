/** The operations of nested_lookup/lookup_api.py, stated on document values:
    `nested_get`, and what `nested_delete` and `nested_update` turn a document
    into. The in-place walks themselves are in module InPlace. */
module LookupApi {
  import opened Documents
  import opened Traversal

  datatype GetError = IndexError

  datatype GetResult = Ok(value: Doc) | Err(error: GetError)

  /** `nested_get(document, key)`: the first value the lookup reports when it
      is truthy, and None when it is falsy; `result[0]` raises IndexError when
      the lookup reports nothing. */
  function NestedGet(document: Doc, key: Key): (r: GetResult)
    ensures r.Err? <==> key !in AllKeys(document)
    ensures r.Ok? && Truthy(r.value) ==> (key, r.value) in AllEntries(document)
    ensures r.Ok? ==> NestedLookup(key, document) != []
    ensures r.Ok? && NestedLookup(key, document) != [] ==>
      var first := NestedLookup(key, document)[0];
      (Truthy(first) ==> r.value == first) && (!Truthy(first) ==> r.value == Atom(Null))
  {
    LookupEmptyIff(key, document);
    LookupSound(key, document);
    var result := NestedLookup(key, document);
    if result == [] then Err(IndexError)
    else if Truthy(result[0]) then Ok(result[0])
    else Ok(Atom(Null))
  }

  /** `if document.get(key):` in a dict walk: the position of the entry for
      `key` when it is present with a truthy value, and -1 otherwise. */
  function TruthyIndex(key: Key, entries: seq<(Key, Doc)>): (p: int)
    ensures -1 <= p < |entries|
    ensures p >= 0 <==> Get(entries, key).Some? && Truthy(Get(entries, key).value)
    ensures p >= 0 ==> entries[p] == (key, Get(entries, key).value)
  {
    match Find(Keys(entries), key)
    case None => -1
    case Some(i) => if Truthy(entries[i].1) then i else -1
  }

  // ----- nested_delete -----

  /** The document `nested_delete(document, key)` leaves behind. */
  function Deleted(key: Key, document: Doc): (r: Doc)
    ensures document.Atom? ==> r == document
    ensures document.List? ==> r.List? && |r.items| == |document.items|
    ensures document.Dict? ==> r.Dict? && |document.entries| - 1 <= |r.entries| <= |document.entries|
    decreases document
  {
    match document
    case Atom(_) => document
    case List(items) => List(DeletedItems(key, items))
    case Dict(entries) => Dict(DeletedEntries(key, entries, TruthyIndex(key, entries)))
  }

  function DeletedItems(key: Key, items: seq<Doc>): (r: seq<Doc>)
    ensures |r| == |items|
    decreases items
  {
    if items == [] then [] else [Deleted(key, items[0])] + DeletedItems(key, items[1..])
  }

  /** The entry at position `drop` is removed; every other value is walked. */
  function DeletedEntries(key: Key, entries: seq<(Key, Doc)>, drop: int): (r: seq<(Key, Doc)>)
    ensures |r| == |entries| - (if 0 <= drop < |entries| then 1 else 0)
    decreases entries
  {
    if entries == [] then []
    else
      assert entries[0].1 < entries[0];
      (if drop == 0 then [] else [(entries[0].0, Deleted(key, entries[0].1))])
      + DeletedEntries(key, entries[1..], drop - 1)
  }

  // ----- nested_update -----

  /** The document `nested_update(document, key, value)` leaves behind.
      The source stores `value` and then walks into it; that walk changes
      nothing because `value` binds `key` to nothing truthy (UpdatedFixpoint),
      and when it does, the source only terminates if nothing is ever stored. */
  function Updated(key: Key, value: Doc, document: Doc): (r: Doc)
    requires NoTruthy(key, value) || NoTruthy(key, document)
    ensures document.Atom? ==> r == document
    ensures document.List? ==> r.List? && |r.items| == |document.items|
    ensures document.Dict? ==> r.Dict? && Keys(r.entries) == Keys(document.entries)
    decreases document
  {
    match document
    case Atom(_) => document
    case List(items) => List(UpdatedItems(key, value, items))
    case Dict(entries) => Dict(UpdatedEntries(key, value, entries, TruthyIndex(key, entries)))
  }

  function UpdatedItems(key: Key, value: Doc, items: seq<Doc>): (r: seq<Doc>)
    requires NoTruthy(key, value) || NoTruthyIn(key, ItemsEntries(items))
    ensures |r| == |items|
    decreases items
  {
    if items == [] then []
    else [Updated(key, value, items[0])] + UpdatedItems(key, value, items[1..])
  }

  /** The entry at position `at` now holds `value`; every other value is walked. */
  function UpdatedEntries(key: Key, value: Doc, entries: seq<(Key, Doc)>, at: int): (r: seq<(Key, Doc)>)
    requires NoTruthy(key, value) || NoTruthyIn(key, EntriesEntries(entries))
    ensures |r| == |entries| && forall i :: 0 <= i < |r| ==> r[i].0 == entries[i].0
    decreases entries
  {
    if entries == [] then []
    else
      assert entries[0].1 < entries[0];
      [(entries[0].0, if at == 0 then value else Updated(key, value, entries[0].1))]
      + UpdatedEntries(key, value, entries[1..], at - 1)
  }

  // ----- what the walks do at one level -----

  /** A list keeps its length; each element is walked. */
  lemma {:induction false} DeletedItemsAt(key: Key, items: seq<Doc>)
    ensures |DeletedItems(key, items)| == |items|
    ensures forall j :: 0 <= j < |items| ==> DeletedItems(key, items)[j] == Deleted(key, items[j])
    decreases |items|
  {
    if items != [] {
      DeletedItemsAt(key, items[1..]);
    }
  }

  /** A dict loses the entry at `drop`; every other entry keeps its key and its
      place, and its value is walked. */
  lemma {:induction false} DeletedEntriesAt(key: Key, entries: seq<(Key, Doc)>, drop: int)
    ensures 0 <= drop < |entries| ==> |DeletedEntries(key, entries, drop)| == |entries| - 1
    ensures !(0 <= drop < |entries|) ==> |DeletedEntries(key, entries, drop)| == |entries|
    ensures forall j :: 0 <= j < |entries| && (drop < 0 || j < drop) ==>
      DeletedEntries(key, entries, drop)[j] == (entries[j].0, Deleted(key, entries[j].1))
    ensures forall j :: 0 <= drop <= j < |entries| - 1 ==>
      DeletedEntries(key, entries, drop)[j] == (entries[j + 1].0, Deleted(key, entries[j + 1].1))
    decreases |entries|
  {
    if entries != [] {
      var rest := entries[1..];
      DeletedEntriesAt(key, rest, drop - 1);
      var r := DeletedEntries(key, entries, drop);
      var r' := DeletedEntries(key, rest, drop - 1);
      if drop == 0 {
        assert r == r';
        forall j | 0 <= j < |entries| - 1
          ensures r[j] == (entries[j + 1].0, Deleted(key, entries[j + 1].1))
        {
          assert entries[j + 1] == rest[j];
        }
      } else {
        assert r == [(entries[0].0, Deleted(key, entries[0].1))] + r';
        forall j | 0 < j < |r| ensures r[j] == r'[j - 1] {
        }
      }
    }
  }

  /** A list keeps its length; each element is walked. */
  lemma {:induction false} UpdatedItemsAt(key: Key, value: Doc, items: seq<Doc>)
    requires NoTruthy(key, value) || NoTruthyIn(key, ItemsEntries(items))
    ensures forall j :: 0 <= j < |items| ==> NoTruthy(key, value) || NoTruthy(key, items[j])
    ensures |UpdatedItems(key, value, items)| == |items|
    ensures forall j :: 0 <= j < |items| ==>
      UpdatedItems(key, value, items)[j] == Updated(key, value, items[j])
    decreases |items|
  {
    ItemsEntriesContain(items);
    if items != [] {
      UpdatedItemsAt(key, value, items[1..]);
      forall j | 0 < j < |items| ensures UpdatedItems(key, value, items)[j] == Updated(key, value, items[j]) {
        assert items[j] == items[1..][j - 1];
      }
    }
  }

  /** A dict keeps its keys in order; the entry at `at` holds `value` and every
      other value is walked. */
  lemma {:induction false} UpdatedEntriesAt(key: Key, value: Doc, entries: seq<(Key, Doc)>, at: int)
    requires NoTruthy(key, value) || NoTruthyIn(key, EntriesEntries(entries))
    ensures forall j :: 0 <= j < |entries| ==> NoTruthy(key, value) || NoTruthy(key, entries[j].1)
    ensures |UpdatedEntries(key, value, entries, at)| == |entries|
    ensures Keys(UpdatedEntries(key, value, entries, at)) == Keys(entries)
    ensures forall j :: 0 <= j < |entries| ==>
      UpdatedEntries(key, value, entries, at)[j]
        == (entries[j].0, if j == at then value else Updated(key, value, entries[j].1))
    decreases |entries|
  {
    EntriesEntriesContain(entries);
    if entries != [] {
      UpdatedEntriesAt(key, value, entries[1..], at - 1);
      var r := UpdatedEntries(key, value, entries, at);
      forall j | 0 < j < |entries|
        ensures r[j] == (entries[j].0, if j == at then value else Updated(key, value, entries[j].1))
      {
        assert entries[j] == entries[1..][j - 1];
      }
    }
  }

  /** UpdatedEntriesAt for a value that binds `key` to nothing truthy, without
      the per-entry termination facts, which callers on a key-free value do not need. */
  lemma StoredAt(key: Key, value: Doc, entries: seq<(Key, Doc)>, at: int)
    requires NoTruthy(key, value)
    ensures |UpdatedEntries(key, value, entries, at)| == |entries|
    ensures forall j :: 0 <= j < |entries| ==>
      UpdatedEntries(key, value, entries, at)[j] ==
        (entries[j].0, if j == at then value else Updated(key, value, entries[j].1))
  {
    UpdatedEntriesAt(key, value, entries, at);
  }

  /** UpdatedItemsAt for a value that binds `key` to nothing truthy. */
  lemma WalkedAt(key: Key, value: Doc, items: seq<Doc>)
    requires NoTruthy(key, value)
    ensures |UpdatedItems(key, value, items)| == |items|
    ensures forall j :: 0 <= j < |items| ==> UpdatedItems(key, value, items)[j] == Updated(key, value, items[j])
  {
    UpdatedItemsAt(key, value, items);
  }

  // ----- nested_delete: what is removed, what stays -----

  /** A document without a truthy binding of `key` is left as it is. */
  lemma {:induction false} DeletedFixpoint(key: Key, d: Doc)
    requires NoTruthy(key, d)
    ensures Deleted(key, d) == d
    decreases d
  {
    match d
    case Atom(_) =>
    case List(items) =>
      ItemsEntriesContain(items);
      DeletedItemsAt(key, items);
      forall j | 0 <= j < |items| ensures Deleted(key, items[j]) == items[j] {
        assert NoTruthy(key, items[j]) by {
          forall e | e in AllEntries(items[j]) && e.0 == key ensures !Truthy(e.1) {
            assert e in ItemsEntries(items);
          }
        }
        DeletedFixpoint(key, items[j]);
      }
      assert DeletedItems(key, items) == items;
    case Dict(entries) =>
      EntriesEntriesContain(entries);
      var drop := TruthyIndex(key, entries);
      assert drop == -1;
      DeletedEntriesAt(key, entries, drop);
      forall j | 0 <= j < |entries| ensures Deleted(key, entries[j].1) == entries[j].1 {
        assert entries[j].1 < entries[j];
        DeletedFixpoint(key, entries[j].1);
      }
      assert DeletedEntries(key, entries, drop) == entries;
  }

  /** After the walk no dict of the document binds `key` to a truthy value;
      an entry that bound it to a falsy value is still there. */
  lemma {:induction false} DeletedNoTruthy(key: Key, d: Doc)
    requires WellFormed(d)
    ensures NoTruthy(key, Deleted(key, d))
    decreases d
  {
    match d
    case Atom(_) =>
    case List(items) =>
      DeletedItemsAt(key, items);
      forall j | 0 <= j < |items| ensures NoTruthy(key, Deleted(key, items[j])) {
        DeletedNoTruthy(key, items[j]);
      }
      NoTruthyItems(key, DeletedItems(key, items));
    case Dict(entries) => DeletedDictNoTruthy(key, entries);
  }

  lemma {:induction false} DeletedDictNoTruthy(key: Key, entries: seq<(Key, Doc)>)
    requires WellFormed(Dict(entries))
    ensures NoTruthy(key, Deleted(key, Dict(entries)))
    decreases entries, 0
  {
    var drop := TruthyIndex(key, entries);
    DeletedEntriesAt(key, entries, drop);
    var r := DeletedEntries(key, entries, drop);
    forall j | 0 <= j < |r| ensures NoTruthy(key, r[j].1) && (r[j].0 == key ==> !Truthy(r[j].1)) {
      var i := if 0 <= drop && drop <= j then j + 1 else j;
      assert r[j] == (entries[i].0, Deleted(key, entries[i].1));
      KeptEntryFalsy(key, entries, i);
      assert entries[i].1 < entries[i];
      DeletedNoTruthy(key, entries[i].1);
    }
    NoTruthyEntries(key, r);
  }

  /** In a dict with unique keys, an entry for `key` that the walk keeps is falsy
      and so is left unchanged by the walk. */
  lemma KeptEntryFalsy(key: Key, entries: seq<(Key, Doc)>, i: int)
    requires UniqueKeys(entries) && 0 <= i < |entries| && i != TruthyIndex(key, entries)
    ensures entries[i].0 == key ==> !Truthy(entries[i].1) && Deleted(key, entries[i].1) == entries[i].1
  {
    if entries[i].0 == key {
      assert Keys(entries)[i] == key;
      var p := Find(Keys(entries), key);
      assert p.Some?;
      assert Keys(entries)[p.value] == key;
      assert p.value == i;
    }
  }

  lemma {:induction false} NoTruthyItems(key: Key, items: seq<Doc>)
    requires forall j :: 0 <= j < |items| ==> NoTruthy(key, items[j])
    ensures NoTruthyIn(key, ItemsEntries(items))
    decreases |items|
  {
    if items != [] {
      NoTruthyItems(key, items[1..]);
    }
  }

  lemma {:induction false} NoTruthyEntries(key: Key, entries: seq<(Key, Doc)>)
    requires forall j :: 0 <= j < |entries| ==>
      NoTruthy(key, entries[j].1) && (entries[j].0 == key ==> !Truthy(entries[j].1))
    ensures NoTruthyIn(key, EntriesEntries(entries))
    decreases |entries|
  {
    if entries != [] {
      NoTruthyEntries(key, entries[1..]);
    }
  }

  /** Deleting twice is deleting once. */
  lemma DeletedIdempotent(key: Key, d: Doc)
    requires WellFormed(d)
    ensures Deleted(key, Deleted(key, d)) == Deleted(key, d)
  {
    DeletedNoTruthy(key, d);
    DeletedFixpoint(key, Deleted(key, d));
  }

  /** After the walk a lookup of `key` reports only falsy values. */
  lemma DeletedLookup(key: Key, d: Doc)
    requires WellFormed(d)
    ensures forall v :: v in NestedLookup(key, Deleted(key, d)) ==> !Truthy(v)
  {
    DeletedNoTruthy(key, d);
    LookupSound(key, Deleted(key, d));
  }

  /** The keys left in one dict: all of them but the one at `drop`. */
  lemma DeletedEntriesKeys(key: Key, entries: seq<(Key, Doc)>, drop: int)
    ensures Keys(DeletedEntries(key, entries, drop))
      == if 0 <= drop < |entries| then Keys(entries)[..drop] + Keys(entries)[drop + 1..] else Keys(entries)
  {
    DeletedEntriesAt(key, entries, drop);
  }

  lemma SubseqWithout<T>(s: seq<T>, i: int)
    requires 0 <= i < |s|
    ensures IsSubseq(s[..i] + s[i + 1..], s)
  {
    assert s == s[..i] + ([s[i]] + s[i + 1..]);
    SubseqRefl(s[..i]);
    SubseqRefl(s[i + 1..]);
    SubseqCons(s[i], s[i + 1..], s[i + 1..]);
    SubseqAppend(s[..i], s[..i], s[i + 1..], [s[i]] + s[i + 1..]);
  }

  /** Removing the only occurrence of `key` from a key list. */
  lemma KeysWithout(ks: seq<Key>, drop: int, key: Key)
    requires 0 <= drop < |ks| && ks[drop] == key
    requires forall i :: 0 <= i < |ks| && i != drop ==> ks[i] != key
    ensures var rk := ks[..drop] + ks[drop + 1..];
      IsSubseq(rk, ks) && key !in rk && forall k :: k != key ==> (k in rk <==> k in ks)
  {
    SubseqWithout(ks, drop);
    SubseqSound(ks[..drop] + ks[drop + 1..], ks);
    WithoutDrops(ks, drop, key);
    WithoutKeeps(ks, drop);
  }

  lemma WithoutDrops(ks: seq<Key>, drop: int, key: Key)
    requires 0 <= drop < |ks|
    requires forall i :: 0 <= i < |ks| && i != drop ==> ks[i] != key
    ensures key !in ks[..drop] + ks[drop + 1..]
  {
    var rk := ks[..drop] + ks[drop + 1..];
    forall j | 0 <= j < |rk| ensures rk[j] != key {
      if j < drop {
        assert rk[j] == ks[j];
      } else {
        assert rk[j] == ks[j + 1];
      }
    }
  }

  lemma WithoutKeeps(ks: seq<Key>, drop: int)
    requires 0 <= drop < |ks|
    ensures forall i :: 0 <= i < |ks| && i != drop ==> ks[i] in ks[..drop] + ks[drop + 1..]
  {
    var rk := ks[..drop] + ks[drop + 1..];
    forall i | 0 <= i < |ks| && i != drop ensures ks[i] in rk {
      if i < drop {
        assert rk[i] == ks[i];
      } else {
        assert rk[i - 1] == ks[i];
      }
    }
  }

  /** What the walk does to the keys of one dict: it keeps their order, drops
      none but `key`, and drops `key` exactly when it was bound to a truthy value. */
  lemma DeletedDictKeys(key: Key, entries: seq<(Key, Doc)>)
    requires UniqueKeys(entries)
    ensures Deleted(key, Dict(entries)).Dict?
    ensures var r := Deleted(key, Dict(entries)).entries;
      IsSubseq(Keys(r), Keys(entries)) &&
      (forall k :: k != key ==> (k in Keys(r) <==> k in Keys(entries))) &&
      (key in Keys(r) <==> Get(entries, key).Some? && !Truthy(Get(entries, key).value))
  {
    var drop := TruthyIndex(key, entries);
    DeletedEntriesKeys(key, entries, drop);
    var ks := Keys(entries);
    if drop < 0 {
      SubseqRefl(ks);
    } else {
      KeysWithout(ks, drop, key);
    }
  }

  // ----- nested_update: what is replaced, what stays -----

  /** A document without a truthy binding of `key` is left as it is; in
      particular the walk into a freshly stored `value` changes nothing. */
  lemma {:induction false} UpdatedFixpoint(key: Key, value: Doc, d: Doc)
    requires NoTruthy(key, d)
    ensures Updated(key, value, d) == d
    decreases d
  {
    match d
    case Atom(_) =>
    case List(items) =>
      ItemsEntriesContain(items);
      UpdatedItemsAt(key, value, items);
      forall j | 0 <= j < |items| ensures Updated(key, value, items[j]) == items[j] {
        assert NoTruthy(key, items[j]) by {
          forall e | e in AllEntries(items[j]) && e.0 == key ensures !Truthy(e.1) {
            assert e in ItemsEntries(items);
          }
        }
        UpdatedFixpoint(key, value, items[j]);
      }
      assert UpdatedItems(key, value, items) == items;
    case Dict(entries) =>
      EntriesEntriesContain(entries);
      var at := TruthyIndex(key, entries);
      assert at == -1;
      UpdatedEntriesAt(key, value, entries, at);
      forall j | 0 <= j < |entries| ensures Updated(key, value, entries[j].1) == entries[j].1 {
        assert entries[j].1 < entries[j];
        assert NoTruthy(key, entries[j].1) by {
          forall e | e in AllEntries(entries[j].1) && e.0 == key ensures !Truthy(e.1) {
            assert e in EntriesEntries(entries);
          }
        }
        UpdatedFixpoint(key, value, entries[j].1);
      }
      assert UpdatedEntries(key, value, entries, at) == entries;
  }

  /** The dict-level test after the walk: the entry for `key` is found truthy
      exactly where it was before, unless the stored value is falsy. */
  lemma UpdatedTruthyIndex(key: Key, value: Doc, entries: seq<(Key, Doc)>)
    requires NoTruthy(key, value) || NoTruthy(key, Dict(entries))
    ensures var at := TruthyIndex(key, entries);
      TruthyIndex(key, UpdatedEntries(key, value, entries, at))
        == if at >= 0 && Truthy(value) then at else -1
  {
    var at := TruthyIndex(key, entries);
    if NoTruthy(key, value) {
      UpdatedEntriesAt(key, value, entries, at);
      var r := UpdatedEntries(key, value, entries, at);
      assert Find(Keys(r), key) == Find(Keys(entries), key);
      match Find(Keys(entries), key)
      case None =>
      case Some(p) =>
        if at < 0 {
          UpdatedFalsy(key, value, entries[p].1);
          assert r[p] == entries[p];
        }
    } else {
      assert at == -1 by {
        EntriesEntriesContain(entries);
      }
      UpdatedFixpoint(key, value, Dict(entries));
    }
  }

  /** Every entry for `key` left in the document holds `value` or a falsy value. */
  lemma UpdatedReplaces(key: Key, value: Doc, d: Doc)
    requires NoTruthy(key, value) || NoTruthy(key, d)
    requires WellFormed(d)
    ensures forall e :: e in AllEntries(Updated(key, value, d)) && e.0 == key ==>
      e.1 == value || !Truthy(e.1)
  {
    if NoTruthy(key, d) {
      UpdatedFixpoint(key, value, d);
    } else {
      UpdatedReplacesRec(key, value, d);
    }
  }

  /** None of `entries` binds `key` to a truthy value other than `value`. */
  predicate OnlyValueIn(key: Key, value: Doc, entries: seq<(Key, Doc)>) {
    forall e :: e in entries && e.0 == key ==> e.1 == value || !Truthy(e.1)
  }

  lemma {:induction false} UpdatedReplacesRec(key: Key, value: Doc, d: Doc)
    requires NoTruthy(key, value)
    requires WellFormed(d)
    ensures OnlyValueIn(key, value, AllEntries(Updated(key, value, d)))
    decreases d
  {
    match d
    case Atom(_) =>
    case List(items) =>
      UpdatedItemsAt(key, value, items);
      var r := UpdatedItems(key, value, items);
      forall j | 0 <= j < |r| ensures OnlyValueIn(key, value, AllEntries(r[j])) {
        UpdatedReplacesRec(key, value, items[j]);
      }
      OnlyValueItems(key, value, r);
    case Dict(entries) =>
      var at := TruthyIndex(key, entries);
      UpdatedEntriesAt(key, value, entries, at);
      var r := UpdatedEntries(key, value, entries, at);
      forall j | 0 <= j < |r|
        ensures OnlyValueIn(key, value, AllEntries(r[j].1))
        ensures r[j].0 == key ==> r[j].1 == value || !Truthy(r[j].1)
      {
        if j == at {
          assert r[j].1 == value;
        } else {
          assert entries[j].1 < entries[j];
          UpdatedReplacesRec(key, value, entries[j].1);
          if entries[j].0 == key {
            KeptEntryFalsy(key, entries, j);
            UpdatedFalsy(key, value, entries[j].1);
          }
        }
      }
      OnlyValueEntries(key, value, r);
  }

  lemma UpdatedFalsy(key: Key, value: Doc, d: Doc)
    requires !Truthy(d)
    ensures NoTruthy(key, d) && Updated(key, value, d) == d
  {
  }

  lemma {:induction false} OnlyValueItems(key: Key, value: Doc, items: seq<Doc>)
    requires forall j :: 0 <= j < |items| ==> OnlyValueIn(key, value, AllEntries(items[j]))
    ensures OnlyValueIn(key, value, ItemsEntries(items))
    decreases |items|
  {
    if items != [] {
      OnlyValueItems(key, value, items[1..]);
    }
  }

  lemma {:induction false} OnlyValueEntries(key: Key, value: Doc, entries: seq<(Key, Doc)>)
    requires forall j :: 0 <= j < |entries| ==>
      OnlyValueIn(key, value, AllEntries(entries[j].1))
      && (entries[j].0 == key ==> entries[j].1 == value || !Truthy(entries[j].1))
    ensures OnlyValueIn(key, value, EntriesEntries(entries))
    decreases |entries|
  {
    if entries != [] {
      OnlyValueEntries(key, value, entries[1..]);
    }
  }

  /** Updating twice is updating once, on every input the walk terminates on;
      the first update leaves a document the second one terminates on. */
  lemma {:induction false} UpdatedIdempotent(key: Key, value: Doc, d: Doc)
    requires NoTruthy(key, value) || NoTruthy(key, d)
    ensures NoTruthy(key, value) || NoTruthy(key, Updated(key, value, d))
    ensures Updated(key, value, Updated(key, value, d)) == Updated(key, value, d)
    decreases d, 2
  {
    if NoTruthy(key, value) {
      ValueUpdatedIdempotent(key, value, d);
    } else {
      UpdatedFixpoint(key, value, d);
    }
  }

  /** UpdatedIdempotent for a value that binds `key` to nothing truthy. */
  lemma {:induction false} ValueUpdatedIdempotent(key: Key, value: Doc, d: Doc)
    requires NoTruthy(key, value)
    ensures Updated(key, value, Updated(key, value, d)) == Updated(key, value, d)
    decreases d, 1
  {
    match d
    case Atom(_) =>
    case List(items) =>
      UpdatedItemsAt(key, value, items);
      var r := UpdatedItems(key, value, items);
      UpdatedItemsAt(key, value, r);
      forall j | 0 <= j < |items| ensures Updated(key, value, r[j]) == r[j] {
        ValueUpdatedIdempotent(key, value, items[j]);
      }
      assert UpdatedItems(key, value, r) == r;
    case Dict(entries) =>
      UpdatedIdempotentDict(key, value, entries);
  }

  lemma {:induction false} UpdatedIdempotentDict(key: Key, value: Doc, entries: seq<(Key, Doc)>)
    requires NoTruthy(key, value)
    ensures Updated(key, value, Updated(key, value, Dict(entries))) == Updated(key, value, Dict(entries))
    decreases entries, 1
  {
    var at := TruthyIndex(key, entries);
    var r := UpdatedEntries(key, value, entries, at);
    var at2 := TruthyIndex(key, r);
    var r2 := UpdatedEntries(key, value, r, at2);
    assert r2 == r by {
      StoredAt(key, value, entries, at);
      assert at2 == at || at2 == -1 by {
        UpdatedTruthyIndex(key, value, entries);
      }
      StoredAt(key, value, r, at2);
      UpdatedFixpoint(key, value, value);
      ValuesIdempotent(key, value, entries);
      SecondWalkKeeps(key, value, entries, at, r, at2, r2);
    }
    assert Updated(key, value, Dict(entries)) == Dict(r);
  }
  /** The entries a second update leaves are those of the first. */
  lemma SecondWalkKeeps(key: Key, value: Doc, entries: seq<(Key, Doc)>, at: int,
                        r: seq<(Key, Doc)>, at2: int, r2: seq<(Key, Doc)>)
    requires NoTruthy(key, value) && Updated(key, value, value) == value
    requires at2 == at || at2 == -1
    requires |r| == |entries| && |r2| == |r|
    requires forall j :: 0 <= j < |entries| ==>
      r[j] == (entries[j].0, if j == at then value else Updated(key, value, entries[j].1))
    requires forall j :: 0 <= j < |r| ==>
      r2[j] == (r[j].0, if j == at2 then value else Updated(key, value, r[j].1))
    requires forall j :: 0 <= j < |entries| ==>
      Updated(key, value, Updated(key, value, entries[j].1)) == Updated(key, value, entries[j].1)
    ensures r2 == r
  {
    forall j | 0 <= j < |r| ensures r2[j] == r[j] {
      if j != at {
        assert j != at2;
      }
    }
  }

  lemma {:induction false} ValuesIdempotent(key: Key, value: Doc, entries: seq<(Key, Doc)>)
    requires NoTruthy(key, value)
    ensures forall j :: 0 <= j < |entries| ==>
      Updated(key, value, Updated(key, value, entries[j].1)) == Updated(key, value, entries[j].1)
    decreases entries, 0
  {
    forall j | 0 <= j < |entries|
      ensures Updated(key, value, Updated(key, value, entries[j].1)) == Updated(key, value, entries[j].1)
    {
      assert entries[j].1 < entries[j];
      ValueUpdatedIdempotent(key, value, entries[j].1);
    }
  }

  /** Updating with a truthy value changes nothing that deleting would keep:
      outside the replaced entries the document is untouched. This holds on
      every input the update walk terminates on. */
  lemma {:induction false} UpdatedThenDeleted(key: Key, value: Doc, d: Doc)
    requires Truthy(value) && (NoTruthy(key, value) || NoTruthy(key, d))
    ensures Deleted(key, Updated(key, value, d)) == Deleted(key, d)
    decreases d, 2
  {
    if NoTruthy(key, value) {
      ValueUpdatedThenDeleted(key, value, d);
    } else {
      UpdatedFixpoint(key, value, d);
    }
  }

  /** UpdatedThenDeleted for a value that binds `key` to nothing truthy. */
  lemma {:induction false} ValueUpdatedThenDeleted(key: Key, value: Doc, d: Doc)
    requires NoTruthy(key, value) && Truthy(value)
    ensures Deleted(key, Updated(key, value, d)) == Deleted(key, d)
    decreases d, 1
  {
    match d
    case Atom(_) =>
    case List(items) =>
      UpdatedItemsAt(key, value, items);
      var r := UpdatedItems(key, value, items);
      DeletedItemsAt(key, r);
      DeletedItemsAt(key, items);
      forall j | 0 <= j < |items| ensures Deleted(key, r[j]) == Deleted(key, items[j]) {
        ValueUpdatedThenDeleted(key, value, items[j]);
      }
      assert DeletedItems(key, r) == DeletedItems(key, items);
    case Dict(entries) => UpdatedThenDeletedDict(key, value, entries);
  }

  lemma {:induction false} UpdatedThenDeletedDict(key: Key, value: Doc, entries: seq<(Key, Doc)>)
    requires NoTruthy(key, value) && Truthy(value)
    ensures Deleted(key, Updated(key, value, Dict(entries))) == Deleted(key, Dict(entries))
    decreases entries, 0
  {
    var at := TruthyIndex(key, entries);
    var r := UpdatedEntries(key, value, entries, at);
    assert TruthyIndex(key, r) == at by {
      UpdatedTruthyIndex(key, value, entries);
    }
    var x := DeletedEntries(key, r, at);
    var y := DeletedEntries(key, entries, at);
    assert x == y by {
      StoredAt(key, value, entries, at);
      DeletedEntriesAt(key, r, at);
      DeletedEntriesAt(key, entries, at);
      forall j | 0 <= j < |x| ensures x[j] == y[j] {
        var i := if 0 <= at <= j then j + 1 else j;
        assert x[j] == (r[i].0, Deleted(key, r[i].1));
        assert y[j] == (entries[i].0, Deleted(key, entries[i].1));
        assert entries[i].1 < entries[i];
        ValueUpdatedThenDeleted(key, value, entries[i].1);
      }
    }
  }

  /** After the walk a lookup of `key` reports only `value` or falsy values. */
  lemma UpdatedLookup(key: Key, value: Doc, d: Doc)
    requires NoTruthy(key, value) || NoTruthy(key, d)
    requires WellFormed(d)
    ensures forall v :: v in NestedLookup(key, Updated(key, value, d)) ==> v == value || !Truthy(v)
  {
    UpdatedReplaces(key, value, d);
    LookupSound(key, Updated(key, value, d));
  }
}
