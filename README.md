# nested-lookup, modelled in Dafny

nested-lookup searches and edits nested documents: lists and dicts nested in
each other, the shapes that parsing JSON or YAML yields in Python. This
project models the core of the library and proves properties of it. The core
is:

- `nested_lookup` (nested_lookup/nested_lookup.py). It walks a document depth
  first and reports the value of every dict entry whose key equals the query.
  It does not descend into a value it reports.
- `nested_get`, `nested_delete` and `nested_update` (nested_lookup/lookup_api.py).
  - `nested_get` returns the first reported value if it is truthy, and `None`
    otherwise.
  - `nested_delete` removes, in place, every entry of `key` whose value is
    truthy.
  - `nested_update` replaces, in place, every truthy value of `key` that the
    walk reaches with a new one. Entries inside a replaced value are dropped
    with it, unsearched.

Files:

- `Documents.dfy` defines documents and their parts:
  - `Doc`: a scalar leaf, a list, or a dict as an ordered entry list;
  - Python truthiness;
  - `dict.get`;
  - the list of all entries of a document in traversal order (`AllEntries`).
- `NestedLookup.dfy` holds the traversal and its soundness and completeness
  lemmas.
- `LookupApi.dfy` holds:
  - `nested_get`;
  - `Deleted` and `Updated`, the documents that `nested_delete` and
    `nested_update` leave behind;
  - lemmas about both.
- `InPlace.dfy` models the two in-place walks as the source runs them:
  - Lists and dicts are heap objects (`PyList`, `PyDict`) that a walk mutates.
  - `NestedDelete` and `NestedUpdate`, and the list and dict branches they
    call, are proved to leave the object graph standing for `Deleted` or
    `Updated` of the document it held before.
  - Each one-step method states which single element or entry changes, and
    that the others stay.
  - The dict branch of each walk removes or replaces the value of `key`
    without walking into it. `Unwalked` collects, at every depth, the objects
    of those removed or replaced values. Every walk is proved to leave them
    unchanged.
  - The constructors build a list or a dict over values that share no object.
- `Examples.dfy` holds documents and expected results from the repository's
  tests, proved against the model. It also holds a few examples of its own
  for `nested_get` and for the truthiness test on `key`.
- `InPlaceExamples.dfy` builds `sample_data1` of the tests as objects and runs
  both in-place walks on it. It also runs both dict branches on
  `{"a": {"y": 1}}` with a key bound nowhere, which leaves every object as it
  was.

Python's `dict.get(key)` followed by a truthiness test is the condition both
editing walks use. It is `TruthyIndex`: the position of the entry for `key`
when its value is truthy, and -1 otherwise. A present entry with a falsy value
(`0`, `""`, `False`, `None`, `[]`, `{}`) is therefore neither deleted nor
replaced.

Where the library's documentation or tests and the code disagree, the model
follows the code:

- The docstring of `nested_get` (lookup_api.py:12-13) promises "Value if found
  else NULL". On a document without the key, the code raises `IndexError`
  instead, because it evaluates `result[0]` on an empty list. The model returns
  `Err(IndexError)`.
- The traversal does not descend into a value it reports. So
  `test_nested_lookup.py:111-132` expects four matches of `build_version`
  where the code yields two. `Examples.LookupAfterKeyIsFound` proves the two
  that the code yields.

## Model

| member | source | states |
|---|---|---|
| Documents.Find | nested_lookup/lookup_api.py:37 | the position found holds the key, is its first occurrence, and there is none exactly when the key is absent |
| Documents.Get | nested_lookup/lookup_api.py:37 | `dict.get` finds a value exactly when the key is present, and the pair is an entry of the dict |
| Traversal.NestedLookup | nested_lookup/nested_lookup.py:3-24 | `nested_lookup(key, document)`: every reported value lies strictly inside the document, so the document itself is never reported and a scalar document yields nothing |
| Traversal.LookupItems | nested_lookup/nested_lookup.py:9-12 | the walk over a list reports only values lying strictly inside one of its elements |
| Traversal.LookupEntries | nested_lookup/nested_lookup.py:14-24 | the walk over a dict's entries reports only values of its entries or values lying strictly inside them |
| Traversal.EntryContribution | nested_lookup/nested_lookup.py:15-24 | an entry contributes its value when its key matches, and otherwise whatever the search of its value yields |
| Traversal.LookupItemsAppend | nested_lookup/nested_lookup.py:9-12 | the walk over a list is the concatenation of the walks over its parts, in order |
| Traversal.LookupEntriesAppend | nested_lookup/nested_lookup.py:14-24 | the walk over a dict's entries is the concatenation of the walks over its parts, in iteration order |
| Traversal.WrappedInList | nested_lookup/nested_lookup.py:9-12 | wrapping a document in a list between two empty dicts reports the same values |
| Traversal.MatchedValueNotSearched | nested_lookup/nested_lookup.py:16-17 | a matching entry contributes its value as one element and its value is not searched further |
| Traversal.LookupSubseq | nested_lookup/nested_lookup.py:7-24 | the reported values are a subsequence, order kept, of the values bound to the key anywhere in the document |
| Traversal.LookupSound | nested_lookup/nested_lookup.py:3-24 | every reported value is bound to the key by some entry of the document; there are at most as many as such entries |
| Traversal.LookupEmptyIff | nested_lookup/nested_lookup.py:3-24 | nothing is reported exactly when the key occurs nowhere in the document |
| Traversal.FoundSomewhere | nested_lookup/nested_lookup.py:7-24 | a key present at any depth yields at least one value |
| Traversal.LookupComplete | nested_lookup/nested_lookup.py:7-24 | when no value bound to the key contains the key again, the walk reports every value bound to the key, in traversal order |
| LookupApi.NestedGet | nested_lookup/lookup_api.py:5-20 | an error exactly when the key occurs nowhere; otherwise the first reported value when truthy, `None` when it is falsy |
| LookupApi.TruthyIndex | nested_lookup/lookup_api.py:37 | non-negative exactly when `document.get(key)` is truthy, and then it is the entry of `key` |
| LookupApi.Deleted | nested_lookup/lookup_api.py:23-41 | `nested_delete(document, key)` as a document: a scalar is returned as it is, a list keeps its length, a dict loses at most one entry |
| LookupApi.DeletedItems | nested_lookup/lookup_api.py:33-35 | the list branch keeps the list's length |
| LookupApi.DeletedEntries | nested_lookup/lookup_api.py:36-40 | the dict branch loses exactly one entry when the dropped position is one of its entries, and none otherwise |
| LookupApi.DeletedItemsAt | nested_lookup/lookup_api.py:33-35 | deleting in a list keeps its length and walks every element |
| LookupApi.DeletedEntriesAt | nested_lookup/lookup_api.py:36-40 | deleting in a dict drops the truthy entry of `key`, keeps the order of the others and walks their values |
| LookupApi.KeptEntryFalsy | nested_lookup/lookup_api.py:37-38 | an entry of `key` that the dict walk keeps is falsy and is left as it is |
| LookupApi.DeletedFixpoint | nested_lookup/lookup_api.py:23-41 | a document binding `key` to nothing truthy is returned unchanged |
| LookupApi.DeletedNoTruthy | nested_lookup/lookup_api.py:23-41 | after the walk no dict at any depth binds `key` to a truthy value |
| LookupApi.DeletedIdempotent | nested_lookup/lookup_api.py:23-41 | deleting twice is deleting once |
| LookupApi.DeletedLookup | nested_lookup/lookup_api.py:23-41 | a lookup of `key` after the walk reports only falsy values |
| LookupApi.DeletedEntriesKeys | nested_lookup/lookup_api.py:36-40 | the keys left in a dict are its keys without the dropped one, in order |
| LookupApi.DeletedDictKeys | nested_lookup/lookup_api.py:36-40 | a dict keeps every other key in order, and keeps `key` exactly when its value was falsy |
| LookupApi.Updated | nested_lookup/lookup_api.py:44-62 | `nested_update(document, key, value)` as a document, on inputs where the new value or the document binds `key` to nothing truthy (it requires this): a scalar is returned as it is, a list keeps its length, a dict keeps its keys in order |
| LookupApi.UpdatedItems | nested_lookup/lookup_api.py:54-56 | the list branch keeps the list's length |
| LookupApi.UpdatedEntries | nested_lookup/lookup_api.py:57-61 | the dict branch keeps every key at its position |
| LookupApi.UpdatedItemsAt | nested_lookup/lookup_api.py:54-56 | updating in a list keeps its length and walks every element |
| LookupApi.UpdatedEntriesAt | nested_lookup/lookup_api.py:57-61 | updating in a dict keeps its keys in order; the truthy entry of `key` holds the new value and every other value is walked |
| LookupApi.UpdatedFixpoint | nested_lookup/lookup_api.py:44-62 | a document binding `key` to nothing truthy is returned unchanged, so walking into the stored value is a no-op |
| LookupApi.UpdatedFalsy | nested_lookup/lookup_api.py:58 | a falsy value is never entered and is left as it is |
| LookupApi.UpdatedTruthyIndex | nested_lookup/lookup_api.py:58-61 | on every input the walk terminates on, the entry of `key` is found truthy again after the store exactly when it was and the new value is truthy |
| LookupApi.UpdatedReplaces | nested_lookup/lookup_api.py:44-62 | after the walk every entry of `key` at any depth holds the new value or a falsy one |
| LookupApi.UpdatedIdempotent | nested_lookup/lookup_api.py:44-62 | on every input the walk terminates on, the first update leaves a document the second one terminates on, and updating twice with the same value is updating once |
| LookupApi.UpdatedThenDeleted | nested_lookup/lookup_api.py:23-62 | on every input the update walk terminates on, with a truthy value, deleting after an update gives what deleting alone gives |
| LookupApi.UpdatedLookup | nested_lookup/lookup_api.py:44-62 | a lookup of `key` after the walk reports only the new value or falsy values |
| InPlace.PyList.constructor | test_lookup_api.py:31-34 | a list display over valid values that share no object is a valid list standing for the list of their documents, owning just them and their objects |
| InPlace.PyDict.constructor | test_lookup_api.py:9-26 | a dict display over distinct keys and valid values that share no object is a valid dict standing for the entries of their documents, in order, owning just them and their objects |
| InPlace.TruthyAgrees | nested_lookup/lookup_api.py:37 | the truthiness the walk reads from the objects is the truthiness of the document they stand for |
| InPlace.ValidWellFormed | nested_lookup/lookup_api.py:36-40 | a dict object never holds a key twice, at any depth |
| InPlace.NestedDelete | nested_lookup/lookup_api.py:23-41 | returns the object it was given, now standing for `Deleted` of the old document, with no truthy binding of `key` left; the objects of every value `del` removes, in any dict at any depth, are left as they were |
| InPlace.DeleteInList | nested_lookup/lookup_api.py:33-35 | the loop walks every element in place; the list object keeps its elements; the objects of values removed under any element are left as they were |
| InPlace.DeleteItem | nested_lookup/lookup_api.py:34-35 | only the list and that element's objects may change, no other element changes, and the objects of values removed under that element are left as they were |
| InPlace.DeleteInDict | nested_lookup/lookup_api.py:36-40 | the truthy entry of `key` is removed, then every remaining value is walked in iteration order; the dict ends holding the very same value objects less the removed one, in order, and holds all of them when `key` has no truthy value; the removed value's objects, and those of values removed deeper, are left as they were |
| InPlace.TruthyAt | nested_lookup/lookup_api.py:37 | `document.get(key)` tested for truth, read from the dict object, finds exactly the entry `TruthyIndex` names, or none |
| InPlace.RemoveTruthy | nested_lookup/lookup_api.py:37-38 | the entry of `key` is removed exactly when its value is truthy, the other value objects stay in order and nothing changes otherwise; what the later walk cannot reach is the removed value's objects plus what it cannot reach in the values kept |
| InPlace.DeleteValues | nested_lookup/lookup_api.py:39-40 | every value is walked in iteration order with the keys kept; objects outside the values and those the walks cannot reach are left as they were |
| InPlace.RemoveEntry | nested_lookup/lookup_api.py:38 | `del document[key]` removes one entry and keeps the others in order; the values kept share no object with the removed one |
| InPlace.DeleteValue | nested_lookup/lookup_api.py:39-40 | only the dict and that value's objects may change, no other entry changes, and the objects of values removed under that value are left as they were |
| InPlace.WalkedKept | nested_lookup/lookup_api.py:36-40 | the entries the dict loop ends with are those of `Deleted` |
| InPlace.NestedUpdate | nested_lookup/lookup_api.py:44-62 | returns the object it was given, now standing for `Updated` of the old document; a lookup then reports only the new value or falsy values; the objects of every value the store replaces, in any dict at any depth, are left as they were |
| InPlace.UpdateInList | nested_lookup/lookup_api.py:54-56 | the loop walks every element in place; the list object keeps its elements; the objects of values replaced under any element are left as they were |
| InPlace.UpdateItem | nested_lookup/lookup_api.py:55-56 | only the list and that element's objects may change, no other element changes, and the objects of values replaced under that element are left as they were |
| InPlace.UpdateInDict | nested_lookup/lookup_api.py:57-61 | the truthy value of `key` is replaced, then every value is walked in iteration order; the dict ends holding the very same value objects except the replaced one, now the new scalar, and all of them when `key` has no truthy value; the replaced value's objects, and those of values replaced deeper, are left as they were |
| InPlace.StoreTruthy | nested_lookup/lookup_api.py:58-59 | the value of `key` is replaced exactly when it is truthy, the other value objects stay in place and nothing changes otherwise; what the later walk cannot reach is the replaced value's objects plus what it cannot reach in the other values |
| InPlace.UpdateValues | nested_lookup/lookup_api.py:60-61 | every value is walked in iteration order with the keys kept; objects outside the values and those the walks cannot reach are left as they were |
| InPlace.StoreValue | nested_lookup/lookup_api.py:59 | `document[key] = value` replaces one value in place and keeps keys and order; the other values share no object with the replaced one |
| InPlace.UpdateValue | nested_lookup/lookup_api.py:60-61 | only the dict and that value's objects may change, no other entry changes, and the objects of values replaced under that value are left as they were |
| InPlace.WalkedStored | nested_lookup/lookup_api.py:57-61 | the entries the dict loop ends with are those of `Updated` |
| Examples.LookupSubjectDict | test_nested_lookup.py:44-49 | the lookup of `d` in `subject_dict` gives 100 then 200 |
| Examples.LookupWrappedInList | test_nested_lookup.py:51-56 | the same inside a list between empty dicts |
| Examples.LookupWrappedInListInDictInList | test_nested_lookup.py:58-63 | the same inside a list under a dict in a list |
| Examples.LookupWrappedInListInList | test_nested_lookup.py:65-70 | the same inside a list in a list |
| Examples.LookupIntegerKey | test_nested_lookup.py:72-74 | the integer key 4 finds `"e"` in `subject_dict4` |
| Examples.LookupIntegerKeyNotString | nested_lookup/nested_lookup.py:16 | an integer key does not match the string of its digits |
| Examples.LookupAfterKeyIsFound | test_nested_lookup.py:111-132 | the code reports two `build_version` values in `subject_dict3`, not the four the test expects |
| Examples.DeleteSampleData1 | test_lookup_api.py:107-113 | deleting `build_version` from `sample_data1` gives the expected dict |
| Examples.DeleteSampleData2 | test_lookup_api.py:115-123 | deleting `processor_details` from `sample_data2` gives the expected dict |
| Examples.DeleteSampleData3 | test_lookup_api.py:125-127 | deleting `monitoring_zones` from `sample_data3` gives `{"values": [{"checks": [{}]}]}` |
| Examples.UpdateSampleData1 | test_lookup_api.py:131-140 | updating `build_version` to `"Test1"` in `sample_data1` gives the expected dict |
| Examples.UpdateSampleData2 | test_lookup_api.py:331-345 | updating `processor_details` in `sample_data2` with a dict stores that dict in place of the list, unsearched |
| Examples.UpdateSampleData3 | test_lookup_api.py:347-354 | updating `checks` in `sample_data3` with a dict gives the expected document |
| Examples.GetFound | nested_lookup/lookup_api.py:16-18 | `nested_get` returns the first match when it is truthy |
| Examples.GetFalsyFirst | nested_lookup/lookup_api.py:17-20 | a falsy first match gives `None` even when a later match is truthy |
| Examples.GetMissing | nested_lookup/lookup_api.py:16-17 | no match raises `IndexError` |
| Examples.FalsyValueNotDeleted | nested_lookup/lookup_api.py:37-40 | a falsy entry of `key` stays and the walk goes on into the other entries |
| Examples.FalsyValueNotReplaced | nested_lookup/lookup_api.py:58-61 | a falsy entry of `key` is not replaced and the walk goes on into the other entries |
| InPlaceExamples.SampleData1InPlace | test_lookup_api.py:9-26 | new dict objects built as the test writes `sample_data1` form a tree standing for it, with the `build_version` dict under its first key |
| InPlaceExamples.DeleteSampleData1InPlace | test_lookup_api.py:107-113 | `nested_delete` run in place on those objects leaves the dict the test expects, and the removed `build_version` dict still holds what it held |
| InPlaceExamples.BuildVersionFirst | test_lookup_api.py:9-26 | the first entry of `sample_data1` is the truthy binding of `build_version` |
| InPlaceExamples.UpdateSampleData1InPlace | test_lookup_api.py:131-140 | `nested_update` run in place on those objects with `"Test1"` leaves the dict the test expects, and the replaced `build_version` dict still holds what it held |
| InPlaceExamples.NestedPairUntouched | nested_lookup/lookup_api.py:23-62 | in `{"a": {"y": 1}}` no dict binds `"k"`, so neither walk changes the document |
| InPlaceExamples.NestedPairInPlace | nested_lookup/lookup_api.py:36-40 | new objects for `{"a": {"y": 1}}` form a tree, with the inner dict under `"a"` |
| InPlaceExamples.DeleteAbsentKeyInPlace | nested_lookup/lookup_api.py:36-40 | the dict branch of `nested_delete` with a key bound nowhere leaves the outer dict holding the very same inner dict, which still stands for `{"y": 1}` |
| InPlaceExamples.UpdateAbsentKeyInPlace | nested_lookup/lookup_api.py:57-61 | the same for the dict branch of `nested_update` |

## Left out

- Scalars cover None, booleans, integers and strings. Floats are left out, because the walks only compare keys and test truthiness.
- Keys are strings or integers. In Python, `True == 1` and `1 == 1.0`, so a boolean or float key can match an integer key; bool, float and tuple keys are left out.
- Tuples and sets are not modelled. Python's walk treats them as leaves. Mapping and sequence types other than dict and list are not modelled either.
- `nested_lookup` is a generator consumed by `list(...)`. Only the resulting list is modelled, not the laziness.
- InPlace.NestedUpdate: stores scalar values only. A container value stored in place would be one object shared by every replaced entry. That breaks the tree shape the heap model relies on. `LookupApi.Updated` covers container values on documents as values.
- InPlace.NestedDelete, InPlace.NestedUpdate and the methods they call: require the objects to form a tree, with no shared or cyclic lists and dicts. Python allows aliasing and cycles; a cyclic document makes the walks recurse without end.
- LookupApi.Updated: requires that the new value or the document binds `key` to nothing truthy. When both do, the source stores the value and then walks into it, finds `key` in it, stores the value inside itself, and recurses until Python's recursion limit. That non-termination is not modelled.
- InPlace.NestedDelete, InPlace.NestedUpdate: the contracts give the new document the root object stands for, and the objects the walks do not reach, but not which objects the root holds afterwards. `DeleteInList`/`UpdateInList` (the list keeps its elements) and `DeleteInDict`/`UpdateInDict` (the dict keeps its value objects, less or except the one of `key`) state that for the branch the root takes; `NestedDelete` and `NestedUpdate` do not restate it. Nor do they state, as one clause, that every list and dict at any depth now stands for `Deleted`/`Updated` of what it stood for, or that no object changes when `key` has no truthy value anywhere: both follow one level at a time from the branch contracts and `DeletedFixpoint`/`UpdatedFixpoint`, as `InPlaceExamples.DeleteAbsentKeyInPlace` shows, but are not proved for every depth. The root-level clauses on these two recursive methods make their callers' proofs too costly for the verifier.
- InPlace.PyList, InPlace.PyDict: `Repr` over-approximates what an object owns. It never shrinks, so the objects of a value `del` removes or the store replaces stay in the root's `Repr`. Walking such a detached value on its own afterwards changes objects in the root's `Repr`, and the root's `Valid()` can then no longer be shown, although in Python the two are independent after the `del` or the store.
- Python's recursion limit on deep documents is not modelled.
- The test of `sample_data4` (test_lookup_api.py:356-408) is not reproduced, because its document holds floats.
- The keyword options `wild`, `with_keys`, `in_place` and `treat_as_element`, and the helpers `nested_alter`, `get_all_keys` and the occurrence counters, are not part of this model.
- setup.py is not part of this model.
