# In-memory item store

This project models the storage core of a small item-catalogue web service. The
models are the pydantic records `ItemBase`, `ItemCreate`, `ItemUpdate` and
`ItemInDB` in `app/models.py`. The store is the class `InMemoryItemStorage` in
`app/storage.py`: a dictionary from integer id to record that keeps insertion
order, and a counter that hands out ids.

The Dafny modules follow the program:

- `Models` (models.dfy) holds the records. It covers each record's fields and
  defaults, the `price > 0` constraint, the dictionary form that `.dict()` and
  `.dict(exclude_unset=True)` produce, and what building a record from keyword
  arguments accepts or rejects. A ValidationError is a `Result` error that
  names the fields at fault.
- `Storage` (storage.dfy) holds the class `InMemoryItemStorage`. Its fields are:
  - `items`, for `_items`;
  - `order`, the insertion order of the dictionary's keys;
  - `idSeq`, for `_id_seq`;
  - `issued`, a ghost record of every id handed out.

  Its methods are `NextId`, `Create`, `Update`, `Store` and `Delete`. Its
  functions are `Values`, `Get` and `List`. `Valid()` is the invariant every
  operation keeps:
  - each key is listed once, in increasing id order;
  - each record is stored under its own id and has a positive price;
  - every stored id was handed out by the counter.

  That the counter never goes back comes from the contracts of `NextId`
  (one step up) and of `Update` and `Delete` (unchanged).
- `Seqs` and `Text` (seqs.dfy, text.dfy) hold the Python building blocks
  `list` uses: the list comprehension as a filter, the slice
  `items[skip : skip + limit]`, `str.lower` and substring `in`.
- `Scenarios` (scenarios.dfy) holds short client runs against the store, with
  their exact results proved. Examples are the second page of a listing, a
  partial update, a rejected update, a double delete and "no id reuse".
- `Wrappers` (wrappers.dfy) holds `Option` and `Result`.

Every operation is connected to a specification:

- `List` is stated against the set of stored records that pass the filters.
  Its result is exactly those records whose rank among the matching records
  lies in `[skip, skip + limit)`, listed in increasing id order, and the
  result's size follows from that rank window.
- `Update` runs the source's loop (`OverwriteSet`) over the record's
  dictionary and re-validates the result. It is proved equal to the typed
  merge `Merge`, whose field-by-field behaviour is stated in `MergeFields`.
- `Create`, `Update` and `Delete` each state the new dictionary, the new
  insertion order, the counter, and the new `Values()` listing relative to
  the old one.

Two details of the code that the model keeps:

- `name` has no length constraint: `Field(...)` only makes it required. The
  model therefore accepts any string, including the empty one.
- The name filter is a case-folded substring test. Over "Sample", "Example"
  and "Other", `name_contains="sam"` keeps only "Sample", because "example"
  contains no "sam". `Scenarios.NameFilterExample` proves this.

## Model

| member | source | states |
|---|---|---|
| Storage.InMemoryItemStorage.constructor | app/storage.py:7-9 | the store starts empty: no records, an empty key order, the counter at 0, no id handed out, and the invariant holds |
| Storage.InMemoryItemStorage.NextId | app/storage.py:11-13 | the counter rises by one and hands out its new value; that id was never handed out and exceeds every earlier one |
| Storage.InMemoryItemStorage.Values | app/storage.py:22 | `list(self._items.values())` contains a record exactly when it is stored under its own id, and lists records in increasing id order |
| Storage.InMemoryItemStorage.Get | app/storage.py:34-35 | returns the record with the requested id, and returns None exactly when no stored record has that id |
| Storage.InMemoryItemStorage.Matching | app/storage.py:24-30 | the records that pass both filters are exactly the stored records that satisfy the name and activity conditions |
| Storage.InMemoryItemStorage.List | app/storage.py:15-32 | returns at most `limit` records, every one stored and passing both filters, in increasing id order; a record is returned exactly when it matches and its rank among the matches lies in `[skip, skip+limit)`; the result's size is `min(limit, matches - skip)`, or 0 when `skip` is past the end; with no filter the result is that slice of all records |
| Storage.InMemoryItemStorage.Create | app/storage.py:37-41 | the new record takes the next id and the input's fields unchanged; its id is new and exceeds every earlier id; it is added to the dictionary and placed last in insertion order; `get` finds it; the listing grows by exactly that record; the invariant holds |
| Storage.InMemoryItemStorage.Update | app/storage.py:43-54 | an id that is not stored gives None and changes nothing; otherwise the result is the merge of the stored record with the update's set fields and keeps the id; a merge that fails validation changes nothing; a valid merge replaces only that record and keeps the key order, the counter and the other records |
| Storage.InMemoryItemStorage.Store | app/storage.py:53 | writing an already-stored key changes only that key's record and keeps the invariant |
| Storage.InMemoryItemStorage.Delete | app/storage.py:56-60 | returns true exactly when the id was stored; then that key is removed from the dictionary and from the insertion order, and the listing loses exactly that record; afterwards `get` finds nothing; the counter is unchanged, so an id is never reused |
| Storage.OverwriteSet | app/storage.py:48-50 | the loop, which overwrites the copied dictionary with each set field's value, gives the stored dictionary updated by `.dict(exclude_unset=True)` |
| Storage.SelectFacts | app/storage.py:24-30 | the two comprehensions keep exactly the records that pass both filters, in their original order; with neither filter on they keep everything |
| Storage.SelectedWindow | app/storage.py:24-32 | slicing the filtered listing gives the rank window of the matching records, with its size, order and no-filter case |
| Storage.NeedleCaseIrrelevant | app/storage.py:26 | the needle is case-folded too: a needle and its lower-case form select the same records |
| Storage.EntriesFacts | app/storage.py:22 | the values in key order are exactly the stored records, in increasing id order |
| Storage.AppendIndexed | app/storage.py:40 | storing a record under a new id larger than every key appends it to the insertion order and to the listing |
| Storage.ReplaceIndexed | app/storage.py:53 | storing a record under an existing key keeps the key order and replaces that record in place in the listing |
| Storage.RemoveIndexed | app/storage.py:58 | `del` removes the key from the insertion order and the record from the listing, and keeps the rest in order |
| Storage.FilterValues | app/storage.py:58 | the listing over the surviving keys is the old listing without the removed record |
| Storage.WindowOfListing | app/storage.py:32 | a slice of a listing in increasing id order holds exactly the records whose rank lies in the window, and its size follows from that |
| Models.NewItemCreate | app/models.py:5-17 | `ItemCreate(**kw)` accepts exactly when `name` is a string, `price` a positive number, `description` a string or None, and `is_active` a flag if given; it defaults the description to None and `is_active` to True; otherwise it rejects, naming exactly the fields at fault and never `id` |
| Models.CreateDefaults | app/models.py:7-13 | arguments that give only a name and a positive price are accepted, with no description and `is_active` True |
| Models.NewItemInDB | app/models.py:27-28 | `ItemInDB(**kw)` accepts exactly when `id` is an integer and the ItemBase fields are accepted, and then holds that id and record; otherwise it names the fields at fault |
| Models.NewItemUpdate | app/models.py:20-24 | `ItemUpdate(**kw)` accepts exactly when every given field is None or of its declared type and a given price is positive; a rejection names exactly the fields at fault. It sets exactly the fields given, keeping an explicit None apart from an omitted field; with no arguments it sets nothing |
| Models.BaseDict | app/models.py:5-13 | `.dict()` of an ItemBase has exactly the four declared fields |
| Models.ItemDict | app/models.py:27-28 | `.dict()` of an ItemInDB has the four fields plus `id` |
| Models.BaseRoundTrip | app/storage.py:39 | building an ItemCreate from a record's dictionary gives the record back, and rejects only the price when the price is not positive |
| Models.ItemRoundTrip | app/storage.py:39 | building an ItemInDB from a valid record's dictionary gives the record back |
| Models.SetFields | app/storage.py:49 | the fields `exclude_unset` keeps are exactly the set fields, listed in strictly increasing declaration order, so each appears once |
| Models.ExcludeUnset | app/storage.py:49 | `.dict(exclude_unset=True)` holds exactly the set fields, with None for an explicit None |
| Models.UpdateRoundTrip | app/storage.py:49 | building an ItemUpdate from its `exclude_unset` dictionary gives the update back |
| Models.MergeFields | app/storage.py:48-52 | the merge is valid exactly when no required field is set to None and any given price is positive; a valid merge keeps the id, takes each set field from the update, keeps each unset field, and stays valid |
| Models.MergeNothing | app/storage.py:48-52 | an update that sets nothing gives back the stored record unchanged |
| Models.MergedDict | app/storage.py:48-50 | overwriting a record's dictionary with the set fields gives the dictionary of the merged record |
| Models.MergedDictChecks | app/storage.py:52 | in the merged dictionary, `id` and `description` are always accepted; `name`, `price` and `is_active` are accepted exactly when the update does not set them to None (or, for the price, to a non-positive number) |
| Models.InvalidMergeRejected | app/storage.py:52 | re-validation rejects an invalid merge for exactly the fields the merge names |
| Models.DictMergeIsMerge | app/storage.py:48-52 | copying the dictionary, overwriting the set fields and re-validating gives exactly the typed merge |
| Models.BaseErrors | app/models.py:5-13 | the rejected fields are empty exactly when the ItemBase fields are accepted, and never include `id` |
| Models.UpdateErrors | app/models.py:20-24 | the rejected fields are empty exactly when the ItemUpdate fields are accepted |
| Text.Lower | app/storage.py:26 | ASCII lower-casing, the model's stand-in for `str.lower`, keeps the length |
| Text.LowerIdempotent | app/storage.py:26 | lower-casing twice is lower-casing once |
| Text.Contains | app/storage.py:26 | `needle in hay` holds exactly when the needle occurs at some position of `hay` |
| Text.ShiftOccurrence | app/storage.py:26 | when the needle is not a prefix, its occurrences in a string are those in the string's tail |
| Text.AbsentFirstChar | app/storage.py:26 | a needle whose first character does not appear in `hay` does not occur in it |
| Seqs.Filter | app/storage.py:25-30 | a comprehension with a condition keeps the elements that satisfy it, and nothing else |
| Seqs.FilterMember | app/storage.py:25-30 | an element is in the comprehension's result exactly when it is in the input and satisfies the condition |
| Seqs.FilterIncreasing | app/storage.py:25-30 | a comprehension keeps the input's increasing order |
| Seqs.Window | app/storage.py:32 | `s[skip : skip + limit]` for non-negative bounds has length `min(limit, len(s) - skip)`, or 0 past the end, and its k-th element is `s[skip + k]` |
| Seqs.CardOfIncreasing | app/storage.py:32 | a strictly increasing listing has no duplicates, so its set of elements is as large as the listing |
| Scenarios.CreateMany | app/storage.py:37-41 | n creates in a row hand out the ids 1 to n, and the listing holds them in that order |
| Scenarios.CreateThenGet | app/storage.py:34-41 | the first record created gets id 1 and the input's fields, and `get` returns it |
| Scenarios.SecondPage | app/storage.py:15-32 | with five records, `skip=2, limit=2` returns the records with ids 3 and 4 |
| Scenarios.DeleteTwice | app/storage.py:56-60 | deleting a stored id returns true, and deleting it again returns false |
| Scenarios.NoReuseAfterDelete | app/storage.py:11-13 | after creating two records and deleting the second, the next record gets id 3 |
| Scenarios.PriceOnlyUpdate | app/storage.py:43-54 | an update that sets only the price replaces the price and keeps the other fields; `get` then returns the merged record |
| Scenarios.NullNameRejected | app/storage.py:43-54 | an update that sets the name to None fails validation on `name`, and the stored record stays as it was |
| Scenarios.MissingUpdate | app/storage.py:44-46 | updating an id that is not stored gives None and hands out no id |
| Scenarios.SamInSample | app/storage.py:26 | "Sample" matches the needle "sam" |
| Scenarios.SamNotIn | app/storage.py:26 | neither "Example" nor "Other" matches the needle "sam" |
| Scenarios.NameFilterExample | app/storage.py:24-27 | over "Sample", "Example" and "Other", `name_contains="sam"` keeps only "Sample" |

## Left out

- The HTTP layer (the router, query-parameter bounds, status codes and error
  bodies), the application entry point and the module-level `storage`
  singleton are not part of this model.
- Concurrency is not modelled. The store is used by one caller at a time.
- Prices are Dafny `real`s, not IEEE floats. Only their sign is constrained,
  so rounding and special float values are not modelled.
- `str.lower` is modelled on ASCII letters only. Unicode case mapping, which
  can change a string's length, is not modelled.
- Pydantic's type coercions are not modelled: for example, the string "5"
  accepted as a price, or 1 accepted as a flag. A keyword is either of the
  declared type, None, or some other value, and an other value is rejected.
- Storage.InMemoryItemStorage.List: the default arguments of `list`
  (`skip=0`, `limit=100`, no name filter, no activity filter) are not
  modelled; every call passes all four arguments.
- Storage.InMemoryItemStorage.List: `skip` and `limit` are natural numbers,
  because the router never passes negatives; Python's negative-slice
  semantics are not modelled.
- Storage.InMemoryItemStorage.Create: requires an input whose price is
  positive, which every constructed ItemCreate satisfies. Building the
  ItemInDB therefore cannot fail, and the model proves that.
- Storage.InMemoryItemStorage.Update: requires an input that satisfies
  ItemUpdate's own `price > 0` constraint, which every constructed ItemUpdate
  does. An explicit None for `name`, `price` or `is_active` is still modelled,
  as the Invalid outcome: the ValidationError that `ItemInDB(**updated_data)`
  raises, with nothing stored.
- Storage.InMemoryItemStorage.Update: the `if not stored` test is modelled as
  "the id is not stored", because a pydantic record is always truthy.
- Aliasing is not modelled. In the source, `get`, `list`, `create` and
  `update` return the stored `ItemInDB` object itself, and pydantic does not
  validate attribute assignment. A caller that runs, say,
  `storage.get(1).price = -1` changes the stored record and breaks the
  `price > 0` invariant. In the model, records are immutable values, so
  `Valid()` assumes that callers do not mutate the records they receive.
- Python's insertion-ordered dict is modelled as a map plus a key sequence.
  Ids are handed out in increasing order and never reused, so insertion order
  is increasing id order, and the invariant records that.
