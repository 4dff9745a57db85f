/** The traversal engine of nested_lookup/nested_lookup.py: a depth-first walk
    that reports the value of every dict entry whose key equals the query,
    without searching inside a value it has reported. */
module Traversal {
  import opened Documents

  /** `nested_lookup(key, document)`: the list of everything the generator
      `_nested_lookup` yields, in the order it yields it. */
  function NestedLookup(key: Key, document: Doc): (r: seq<Doc>)
    ensures forall v :: v in r ==> v < document
    decreases document
  {
    match document
    case Atom(_) => []
    case List(items) => LookupItems(key, items)
    case Dict(entries) => LookupEntries(key, entries)
  }

  /** The walk over the elements of a list, in index order. */
  function LookupItems(key: Key, items: seq<Doc>): (r: seq<Doc>)
    ensures forall v :: v in r ==> exists d :: d in items && v < d
    decreases items
  {
    if items == [] then []
    else
      assert items[0] in items && forall d :: d in items[1..] ==> d in items;
      NestedLookup(key, items[0]) + LookupItems(key, items[1..])
  }

  /** The walk over the entries of a dict, in iteration order: a matching entry
      yields its value; otherwise a dict value is searched recursively and a
      list value element by element; a scalar value yields nothing. */
  function LookupEntries(key: Key, entries: seq<(Key, Doc)>): (r: seq<Doc>)
    ensures forall v :: v in r ==> exists e :: e in entries && (v == e.1 || v < e.1)
    decreases entries
  {
    if entries == [] then []
    else
      assert entries[0].1 < entries[0];
      var head :=
        if entries[0].0 == key then [entries[0].1]
        else match entries[0].1
          case Dict(_) => NestedLookup(key, entries[0].1)
          case List(items) => LookupItems(key, items)
          case Atom(_) => [];
      head + LookupEntries(key, entries[1..])
  }

  /** What one dict entry contributes to the walk. */
  lemma EntryContribution(key: Key, entries: seq<(Key, Doc)>)
    requires entries != []
    ensures LookupEntries(key, entries) ==
      (if entries[0].0 == key then [entries[0].1] else NestedLookup(key, entries[0].1))
      + LookupEntries(key, entries[1..])
  {
  }

  lemma {:induction false} LookupItemsAppend(key: Key, a: seq<Doc>, b: seq<Doc>)
    ensures LookupItems(key, a + b) == LookupItems(key, a) + LookupItems(key, b)
    decreases |a|
  {
    if a == [] {
      assert a + b == b;
    } else {
      assert (a + b)[1..] == a[1..] + b;
      LookupItemsAppend(key, a[1..], b);
    }
  }

  lemma {:induction false} LookupEntriesAppend(key: Key, a: seq<(Key, Doc)>, b: seq<(Key, Doc)>)
    ensures LookupEntries(key, a + b) == LookupEntries(key, a) + LookupEntries(key, b)
    decreases |a|
  {
    if a == [] {
      assert a + b == b;
    } else {
      assert (a + b)[1..] == a[1..] + b;
      LookupEntriesAppend(key, a[1..], b);
    }
  }

  /** A list is searched element by element, so empty dicts around a document
      change nothing. */
  lemma WrappedInList(key: Key, d: Doc)
    ensures NestedLookup(key, List([Dict([]), d, Dict([])])) == NestedLookup(key, d)
  {
    var items := [Dict([]), d, Dict([])];
    assert items[1..] == [d, Dict([])];
    assert items[1..][1..] == [Dict([])];
    assert LookupItems(key, [Dict([])]) == [];
    assert LookupItems(key, [d, Dict([])]) == NestedLookup(key, d);
  }

  /** A matching entry contributes its value whole, as one element, and nothing
      from inside that value is reported, whatever the value holds. */
  lemma {:induction false} MatchedValueNotSearched(key: Key, before: seq<(Key, Doc)>, v: Doc, after: seq<(Key, Doc)>)
    ensures NestedLookup(key, Dict(before + [(key, v)] + after))
      == LookupEntries(key, before) + [v] + LookupEntries(key, after)
  {
    LookupEntriesAppend(key, before + [(key, v)], after);
    LookupEntriesAppend(key, before, [(key, v)]);
    assert [(key, v)][1..] == [];
  }

  // ----- the reference: every value bound to the key, at any depth -----

  lemma {:induction false} MatchValuesAppend(key: Key, a: seq<(Key, Doc)>, b: seq<(Key, Doc)>)
    ensures MatchValues(key, a + b) == MatchValues(key, a) + MatchValues(key, b)
    decreases |a|
  {
    if a == [] {
      assert a + b == b;
    } else {
      assert (a + b)[0] == a[0];
      assert (a + b)[1..] == a[1..] + b;
      MatchValuesAppend(key, a[1..], b);
      var head := if a[0].0 == key then [a[0].1] else [];
      assert MatchValues(key, a + b) == head + MatchValues(key, a[1..] + b);
      assert MatchValues(key, a) == head + MatchValues(key, a[1..]);
    }
  }

  lemma {:induction false} MatchValuesSound(key: Key, entries: seq<(Key, Doc)>)
    ensures |MatchValues(key, entries)| <= |entries|
    ensures forall v :: v in MatchValues(key, entries) ==> (key, v) in entries
    ensures MatchValues(key, entries) == [] <==> key !in Keys(entries)
    decreases |entries|
  {
    if entries != [] {
      MatchValuesSound(key, entries[1..]);
      assert Keys(entries) == [entries[0].0] + Keys(entries[1..]);
    }
  }

  lemma {:induction false} SubseqAppend<T>(a1: seq<T>, b1: seq<T>, a2: seq<T>, b2: seq<T>)
    requires IsSubseq(a1, b1) && IsSubseq(a2, b2)
    ensures IsSubseq(a1 + a2, b1 + b2)
    decreases |b1|
  {
    if a1 == [] {
      SubseqPadLeft(a2, b1, b2);
      assert a1 + a2 == a2;
    } else {
      assert b1 != [];
      assert (b1 + b2)[1..] == b1[1..] + b2;
      if a1[0] == b1[0] {
        assert (a1 + a2)[1..] == a1[1..] + a2;
        SubseqAppend(a1[1..], b1[1..], a2, b2);
      } else {
        SubseqAppend(a1, b1[1..], a2, b2);
      }
    }
  }

  lemma {:induction false} SubseqPadLeft<T>(a: seq<T>, pad: seq<T>, b: seq<T>)
    requires IsSubseq(a, b)
    ensures IsSubseq(a, pad + b)
    decreases |pad|
  {
    if pad != [] {
      assert pad + b == [pad[0]] + (pad[1..] + b);
      SubseqPadLeft(a, pad[1..], b);
      SubseqCons(pad[0], a, pad[1..] + b);
    } else {
      assert pad + b == b;
    }
  }

  /** One more element in front of the right side keeps the relation. */
  lemma {:induction false} SubseqCons<T>(x: T, a: seq<T>, b: seq<T>)
    requires IsSubseq(a, b)
    ensures IsSubseq(a, [x] + b)
    decreases |b|, 1
  {
    assert ([x] + b)[1..] == b;
    if a != [] && a[0] == x {
      SubseqTail(a, b);
    }
  }

  /** Dropping the head of the left side keeps the relation. */
  lemma {:induction false} SubseqTail<T>(a: seq<T>, b: seq<T>)
    requires a != [] && IsSubseq(a, b)
    ensures IsSubseq(a[1..], b)
    decreases |b|, 0
  {
    assert b != [];
    assert b == [b[0]] + b[1..];
    if a[0] == b[0] {
      SubseqCons(b[0], a[1..], b[1..]);
    } else {
      SubseqTail(a, b[1..]);
      SubseqCons(b[0], a[1..], b[1..]);
    }
  }

  lemma {:induction false} SubseqRefl<T>(a: seq<T>)
    ensures IsSubseq(a, a)
    decreases |a|
  {
    if a != [] {
      SubseqRefl(a[1..]);
    }
  }

  lemma {:induction false} SubseqSound<T>(a: seq<T>, b: seq<T>)
    requires IsSubseq(a, b)
    ensures |a| <= |b|
    ensures forall x :: x in a ==> x in b
    decreases |b|
  {
    if a != [] {
      if a[0] == b[0] {
        SubseqSound(a[1..], b[1..]);
        forall x | x in a ensures x in b {
          if x != a[0] {
            assert x in a[1..];
          }
        }
      } else {
        SubseqSound(a, b[1..]);
      }
    }
  }

  /** The walk reports values bound to the key at any depth, in traversal
      order, skipping only those nested inside a value it already reported. */
  lemma {:induction false} LookupSubseq(key: Key, d: Doc)
    ensures IsSubseq(NestedLookup(key, d), MatchValues(key, AllEntries(d)))
    decreases d
  {
    match d
    case Atom(_) =>
    case List(items) => ItemsSubseq(key, items);
    case Dict(entries) => EntriesSubseq(key, entries);
  }

  lemma {:induction false} ItemsSubseq(key: Key, items: seq<Doc>)
    ensures IsSubseq(LookupItems(key, items), MatchValues(key, ItemsEntries(items)))
    decreases items
  {
    if items != [] {
      LookupSubseq(key, items[0]);
      ItemsSubseq(key, items[1..]);
      MatchValuesAppend(key, AllEntries(items[0]), ItemsEntries(items[1..]));
      SubseqAppend(NestedLookup(key, items[0]), MatchValues(key, AllEntries(items[0])),
                   LookupItems(key, items[1..]), MatchValues(key, ItemsEntries(items[1..])));
    }
  }

  lemma {:induction false} EntriesSubseq(key: Key, entries: seq<(Key, Doc)>)
    ensures IsSubseq(LookupEntries(key, entries), MatchValues(key, EntriesEntries(entries)))
    decreases entries
  {
    if entries != [] {
      var (k, v) := entries[0];
      assert v < entries[0];
      var rest := entries[1..];
      EntryContribution(key, entries);
      LookupSubseq(key, v);
      EntriesSubseq(key, rest);
      MatchValuesAppend(key, [(k, v)] + AllEntries(v), EntriesEntries(rest));
      MatchValuesAppend(key, [(k, v)], AllEntries(v));
      assert [(k, v)][1..] == [];
      var inner := MatchValues(key, AllEntries(v));
      var head := if k == key then [v] else NestedLookup(key, v);
      assert IsSubseq(head, MatchValues(key, [(k, v)]) + inner) by {
        if k == key {
          assert inner == [] + inner;
          SubseqPadLeft([], [], inner);
          assert IsSubseq([v], [v] + inner);
        } else {
          assert MatchValues(key, [(k, v)]) + inner == inner;
        }
      }
      SubseqAppend(head, MatchValues(key, [(k, v)]) + inner,
                   LookupEntries(key, rest), MatchValues(key, EntriesEntries(rest)));
    }
  }

  /** Soundness and bound: every reported value is bound to the key by some
      dict entry of the document, and there are no more reports than such
      entries (so no more than dict entries overall). */
  lemma LookupSound(key: Key, d: Doc)
    ensures forall v :: v in NestedLookup(key, d) ==> (key, v) in AllEntries(d)
    ensures |NestedLookup(key, d)| <= |MatchValues(key, AllEntries(d))| <= |AllEntries(d)|
  {
    LookupSubseq(key, d);
    SubseqSound(NestedLookup(key, d), MatchValues(key, AllEntries(d)));
    MatchValuesSound(key, AllEntries(d));
  }

  /** The walk reports nothing exactly when the key occurs nowhere in the document. */
  lemma LookupEmptyIff(key: Key, d: Doc)
    ensures NestedLookup(key, d) == [] <==> key !in AllKeys(d)
  {
    LookupSubseq(key, d);
    MatchValuesSound(key, AllEntries(d));
    if key in AllKeys(d) {
      FoundSomewhere(key, d);
    }
  }

  lemma {:induction false} KeysAppend<V>(a: seq<(Key, V)>, b: seq<(Key, V)>)
    ensures Keys(a + b) == Keys(a) + Keys(b)
  {
  }

  lemma {:induction false} FoundSomewhere(key: Key, d: Doc)
    requires key in AllKeys(d)
    ensures NestedLookup(key, d) != []
    decreases d
  {
    match d
    case Atom(_) =>
    case List(items) => ItemsFound(key, items);
    case Dict(entries) => EntriesFound(key, entries);
  }

  lemma {:induction false} ItemsFound(key: Key, items: seq<Doc>)
    requires key in Keys(ItemsEntries(items))
    ensures LookupItems(key, items) != []
    decreases items
  {
    KeysAppend(AllEntries(items[0]), ItemsEntries(items[1..]));
    if key in AllKeys(items[0]) {
      FoundSomewhere(key, items[0]);
    } else {
      ItemsFound(key, items[1..]);
    }
  }

  lemma {:induction false} EntriesFound(key: Key, entries: seq<(Key, Doc)>)
    requires key in Keys(EntriesEntries(entries))
    ensures LookupEntries(key, entries) != []
    decreases entries
  {
    var (k, v) := entries[0];
    assert v < entries[0];
    EntryContribution(key, entries);
    KeysAppend([(k, v)] + AllEntries(v), EntriesEntries(entries[1..]));
    KeysAppend([(k, v)], AllEntries(v));
    if k != key {
      if key in AllKeys(v) {
        FoundSomewhere(key, v);
      } else {
        EntriesFound(key, entries[1..]);
      }
    }
  }

  /** Completeness: when no value bound to the key itself contains the key,
      the walk reports every value bound to the key, in traversal order. */
  lemma {:induction false} LookupComplete(key: Key, d: Doc)
    requires forall e :: e in AllEntries(d) && e.0 == key ==> key !in AllKeys(e.1)
    ensures NestedLookup(key, d) == MatchValues(key, AllEntries(d))
    decreases d
  {
    match d
    case Atom(_) =>
    case List(items) => ItemsComplete(key, items);
    case Dict(entries) => EntriesComplete(key, entries);
  }

  lemma {:induction false} ItemsComplete(key: Key, items: seq<Doc>)
    requires forall e :: e in ItemsEntries(items) && e.0 == key ==> key !in AllKeys(e.1)
    ensures LookupItems(key, items) == MatchValues(key, ItemsEntries(items))
    decreases items
  {
    if items != [] {
      LookupComplete(key, items[0]);
      ItemsComplete(key, items[1..]);
      MatchValuesAppend(key, AllEntries(items[0]), ItemsEntries(items[1..]));
    }
  }

  lemma {:induction false} EntriesComplete(key: Key, entries: seq<(Key, Doc)>)
    requires forall e :: e in EntriesEntries(entries) && e.0 == key ==> key !in AllKeys(e.1)
    ensures LookupEntries(key, entries) == MatchValues(key, EntriesEntries(entries))
    decreases entries
  {
    if entries != [] {
      var (k, v) := entries[0];
      assert v < entries[0];
      var rest := entries[1..];
      assert EntriesEntries(entries) == [(k, v)] + AllEntries(v) + EntriesEntries(rest);
      EntryContribution(key, entries);
      LookupComplete(key, v);
      EntriesComplete(key, rest);
      MatchValuesAppend(key, [(k, v)] + AllEntries(v), EntriesEntries(rest));
      MatchValuesAppend(key, [(k, v)], AllEntries(v));
      assert [(k, v)][1..] == [];
      if k == key {
        assert (k, v) in EntriesEntries(entries);
        MatchValuesSound(key, AllEntries(v));
      }
    }
  }
}
