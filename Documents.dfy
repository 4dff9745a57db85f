/** Nested documents as the library sees them: the shapes produced by parsing
    JSON/YAML into native Python values. A document is a scalar leaf, a list of
    documents, or a dict whose entries are kept in iteration order. */
module Documents {

  datatype Option<T> = None | Some(value: T)

  /** Non-container leaves: Python's None, booleans, integers and strings. */
  datatype Scalar = Null | Bool(b: bool) | Int(i: int) | Str(s: string)

  /** Dict keys: the lookups compare keys with Python's `==`, which on these
      two kinds is structural equality (an integer key never equals a string key). */
  datatype Key = StrKey(name: string) | IntKey(num: int)

  datatype Doc =
    | Atom(scalar: Scalar)
    | List(items: seq<Doc>)
    | Dict(entries: seq<(Key, Doc)>)

  /** Python truthiness of a leaf: None, False, 0 and "" are falsy. */
  predicate ScalarTruthy(s: Scalar) {
    match s
    case Null => false
    case Bool(b) => b
    case Int(i) => i != 0
    case Str(t) => t != ""
  }

  /** Python truthiness of a document: empty lists and empty dicts are falsy. */
  predicate Truthy(d: Doc) {
    match d
    case Atom(s) => ScalarTruthy(s)
    case List(items) => items != []
    case Dict(entries) => entries != []
  }

  /** The keys of an entry list, in iteration order. */
  function Keys<V>(entries: seq<(Key, V)>): seq<Key> {
    seq(|entries|, i requires 0 <= i < |entries| => entries[i].0)
  }

  /** A Python dict never holds the same key twice. */
  predicate UniqueKeys<V>(entries: seq<(Key, V)>) {
    forall i, j :: 0 <= i < j < |entries| ==> entries[i].0 != entries[j].0
  }

  /** Position of `key` among `keys`: how `dict.get` finds the entry it reads. */
  function Find(keys: seq<Key>, key: Key): (r: Option<nat>)
    ensures r.Some? ==> r.value < |keys| && keys[r.value] == key
    ensures r.Some? ==> forall j :: 0 <= j < r.value ==> keys[j] != key
    ensures r.None? <==> key !in keys
  {
    if keys == [] then None
    else if keys[0] == key then Some(0)
    else match Find(keys[1..], key)
      case None => None
      case Some(p) => Some(p + 1)
  }

  /** `dict.get(key)`: the value bound to `key`, if any. */
  function Get<V>(entries: seq<(Key, V)>, key: Key): (r: Option<V>)
    ensures r.Some? <==> key in Keys(entries)
    ensures r.Some? ==> (key, r.value) in entries
  {
    match Find(Keys(entries), key)
    case None => None
    case Some(p) => Some(entries[p].1)
  }

  /** Every dict entry of `d`, in the depth-first order in which the walks
      visit them: an entry comes before the entries nested inside its value. */
  function AllEntries(d: Doc): seq<(Key, Doc)>
    decreases d
  {
    match d
    case Atom(_) => []
    case List(items) => ItemsEntries(items)
    case Dict(entries) => EntriesEntries(entries)
  }

  function ItemsEntries(items: seq<Doc>): seq<(Key, Doc)>
    decreases items
  {
    if items == [] then [] else AllEntries(items[0]) + ItemsEntries(items[1..])
  }

  function EntriesEntries(entries: seq<(Key, Doc)>): seq<(Key, Doc)>
    decreases entries
  {
    if entries == [] then []
    else
      assert entries[0].1 < entries[0];
      [entries[0]] + AllEntries(entries[0].1) + EntriesEntries(entries[1..])
  }

  /** Every key of every dict in `d`, in traversal order, duplicates kept. */
  function AllKeys(d: Doc): seq<Key> {
    Keys(AllEntries(d))
  }

  /** The values of the entries bound to `key`, in order. */
  function MatchValues(key: Key, entries: seq<(Key, Doc)>): seq<Doc> {
    if entries == [] then []
    else (if entries[0].0 == key then [entries[0].1] else []) + MatchValues(key, entries[1..])
  }

  /** Every dict inside `d` (at any depth) has unique keys. */
  predicate WellFormed(d: Doc)
    decreases d
  {
    match d
    case Atom(_) => true
    case List(items) => forall i :: 0 <= i < |items| ==> WellFormed(items[i])
    case Dict(entries) =>
      UniqueKeys(entries) && forall i :: 0 <= i < |entries| ==> WellFormed(entries[i].1)
  }

  /** None of `entries` binds `key` to a truthy value. */
  predicate NoTruthyIn(key: Key, entries: seq<(Key, Doc)>) {
    forall e :: e in entries && e.0 == key ==> !Truthy(e.1)
  }

  /** No dict inside `d` binds `key` to a truthy value. */
  predicate NoTruthy(key: Key, d: Doc) {
    NoTruthyIn(key, AllEntries(d))
  }

  /** `a` is `b` with some elements left out, order kept. */
  predicate IsSubseq<T(==)>(a: seq<T>, b: seq<T>)
    decreases |b|
  {
    if a == [] then true
    else if b == [] then false
    else if a[0] == b[0] then IsSubseq(a[1..], b[1..])
    else IsSubseq(a, b[1..])
  }

  /** The entries found under an element of a list are among the list's entries. */
  lemma {:induction false} ItemsEntriesContain(items: seq<Doc>)
    ensures forall j, e :: 0 <= j < |items| && e in AllEntries(items[j]) ==> e in ItemsEntries(items)
    decreases |items|
  {
    if items != [] {
      ItemsEntriesContain(items[1..]);
      forall j, e | 0 <= j < |items| && e in AllEntries(items[j]) ensures e in ItemsEntries(items) {
        if j > 0 {
          assert items[j] == items[1..][j - 1];
        }
      }
    }
  }

  /** A dict's own entries, and the entries found under their values, are among
      the dict's entries at any depth. */
  lemma {:induction false} EntriesEntriesContain(entries: seq<(Key, Doc)>)
    ensures forall j :: 0 <= j < |entries| ==> entries[j] in EntriesEntries(entries)
    ensures forall j, e :: 0 <= j < |entries| && e in AllEntries(entries[j].1) ==> e in EntriesEntries(entries)
    decreases |entries|
  {
    if entries != [] {
      EntriesEntriesContain(entries[1..]);
      forall j | 0 <= j < |entries| ensures entries[j] in EntriesEntries(entries) {
        if j > 0 {
          assert entries[j] == entries[1..][j - 1];
        }
      }
      forall j, e | 0 <= j < |entries| && e in AllEntries(entries[j].1) ensures e in EntriesEntries(entries) {
        if j > 0 {
          assert entries[j] == entries[1..][j - 1];
        }
      }
    }
  }
}
