/** The in-memory item store of app/storage.py: a dictionary from id to record
    that keeps insertion order, and a counter that hands out ids. */
module Storage {
  import opened Wrappers
  import opened Seqs
  import opened Text
  import opened Models

  /** What `update` yields: None for an id that is not stored, the stored merged
      record, or the ValidationError that re-validating the merge raises (with
      the fields at fault), in which case nothing is stored. */
  datatype UpdateOutcome = NotFound | Updated(item: ItemInDB) | Invalid(fields: set<FieldName>)

  /** The outcome of re-validating a merged record. */
  function Outcome(merged: Result<ItemInDB, set<FieldName>>): (r: UpdateOutcome)
    ensures r.Updated? <==> merged.Ok?
    ensures r.Updated? ==> r.item == merged.value
    ensures merged.Err? ==> r == Invalid(merged.error)
  {
    match merged
    case Ok(x) => Updated(x)
    case Err(e) => Invalid(e)
  }

  /** `if name_contains:`: None and the empty string apply no name filter. */
  predicate NameFilterOn(nameContains: Option<string>)
  {
    nameContains.Some? && nameContains.value != ""
  }

  /** `name_contains.lower() in item.name.lower()`. */
  predicate NameHas(needle: string, x: ItemInDB)
  {
    Contains(Lower(x.base.name), Lower(needle))
  }

  /** `item.is_active == is_active`. */
  predicate ActiveIs(flag: bool, x: ItemInDB)
  {
    x.base.isActive == flag
  }

  /** A record passes the `name_contains` filter. */
  predicate NameMatches(nameContains: Option<string>, x: ItemInDB)
  {
    NameFilterOn(nameContains) ==> NameHas(nameContains.value, x)
  }

  /** A record passes the `is_active` filter. */
  predicate ActiveMatches(isActive: Option<bool>, x: ItemInDB)
  {
    isActive.Some? ==> ActiveIs(isActive.value, x)
  }

  /** The name filter is case-insensitive in the needle as well: folding the
      needle's case first selects the same records. */
  lemma NeedleCaseIrrelevant(needle: string, x: ItemInDB)
    ensures NameHas(Lower(needle), x) == NameHas(needle, x)
  {
    LowerIdempotent(needle);
  }

  /** A record passes both filters of `list`. */
  predicate Passes(nameContains: Option<string>, isActive: Option<bool>, x: ItemInDB)
  {
    NameMatches(nameContains, x) && ActiveMatches(isActive, x)
  }

  /** The comprehension conditions of `list`, as functions. */
  function HasName(needle: string): ItemInDB -> bool { x => NameHas(needle, x) }

  function HasActive(flag: bool): ItemInDB -> bool { x => ActiveIs(flag, x) }

  /** What `del` keeps: every key but one, every record but the one with that id. */
  function Except(id: int): int -> bool { k => k != id }

  function NotId(id: int): ItemInDB -> bool { (x: ItemInDB) => x.id != id }

  function IdOf(x: ItemInDB): int { x.id }

  function KeyOf(k: int): int { k }

  /** s with every record that has x's id replaced by x. */
  function Replaced(s: seq<ItemInDB>, x: ItemInDB): (r: seq<ItemInDB>)
    ensures |r| == |s|
  {
    seq(|s|, i requires 0 <= i < |s| => if s[i].id == x.id then x else s[i])
  }

  /** The two comprehensions of `list`: by name when `name_contains` is
      non-empty, then by activity when `is_active` is given. */
  function Select(all: seq<ItemInDB>, nameContains: Option<string>, isActive: Option<bool>): seq<ItemInDB>
  {
    var byName := if NameFilterOn(nameContains) then Filter(all, HasName(nameContains.value)) else all;
    if isActive.Some? then Filter(byName, HasActive(isActive.value)) else byName
  }

  /** The filters keep, in their order, exactly the records that pass both; with
      neither filter on they keep everything. */
  lemma SelectFacts(all: seq<ItemInDB>, nameContains: Option<string>, isActive: Option<bool>)
    requires IncreasingBy(all, IdOf)
    ensures IncreasingBy(Select(all, nameContains, isActive), IdOf)
    ensures forall x :: x in Select(all, nameContains, isActive) <==> x in all && Passes(nameContains, isActive, x)
    ensures !NameFilterOn(nameContains) && isActive.None? ==> Select(all, nameContains, isActive) == all
  {
    var byName := if NameFilterOn(nameContains) then Filter(all, HasName(nameContains.value)) else all;
    if NameFilterOn(nameContains) {
      FilterIncreasing(all, HasName(nameContains.value), IdOf);
    }
    if isActive.Some? {
      FilterIncreasing(byName, HasActive(isActive.value), IdOf);
    }
    forall x ensures x in Select(all, nameContains, isActive) <==> x in all && Passes(nameContains, isActive, x) {
      if NameFilterOn(nameContains) {
        FilterMember(all, HasName(nameContains.value), x);
      }
      if isActive.Some? {
        FilterMember(byName, HasActive(isActive.value), x);
      }
    }
  }

  /** The records of a listing that pass both filters. */
  ghost function MatchingIn(all: seq<ItemInDB>, nameContains: Option<string>, isActive: Option<bool>): set<ItemInDB>
  {
    set x | x in all && Passes(nameContains, isActive, x)
  }

  /** The slice of the filtered listing of records listed by increasing id is
      the rank window of the listing's matching records. */
  lemma SelectedWindow(all: seq<ItemInDB>, skip: nat, limit: nat, nameContains: Option<string>, isActive: Option<bool>)
    requires IncreasingBy(all, IdOf)
    ensures var r, m := Window(Select(all, nameContains, isActive), skip, limit), MatchingIn(all, nameContains, isActive);
      && |r| <= limit
      && (forall x :: x in r ==> x in all && Passes(nameContains, isActive, x))
      && IncreasingBy(r, IdOf)
      && (forall x :: x in r <==> x in m && skip <= Rank(m, x) < skip + limit)
      && |r| == (if skip >= |m| then 0 else Min(limit, |m| - skip))
      && (!NameFilterOn(nameContains) && isActive.None? ==> r == Window(all, skip, limit))
  {
    var f := Select(all, nameContains, isActive);
    var m := MatchingIn(all, nameContains, isActive);
    SelectFacts(all, nameContains, isActive);
    WindowOfListing(f, m, skip, limit);
    WindowIncreasing(f, skip, limit);
  }

  /** keys lists every key of m once, in increasing order, and every record of m
      is stored under its own id. */
  ghost predicate Indexed(m: map<int, ItemInDB>, keys: seq<int>)
  {
    && (forall i :: 0 <= i < |keys| ==> keys[i] in m)
    && (forall k :: k in m ==> k in keys)
    && IncreasingBy(keys, KeyOf)
    && (forall k :: k in m ==> m[k].id == k)
  }

  /** The records stored under the given keys, in the keys' order. */
  function Entries(m: map<int, ItemInDB>, keys: seq<int>): (r: seq<ItemInDB>)
    requires forall i :: 0 <= i < |keys| ==> keys[i] in m
    ensures |r| == |keys|
    ensures forall i :: 0 <= i < |keys| ==> r[i] == m[keys[i]]
  {
    seq(|keys|, i requires 0 <= i < |keys| => m[keys[i]])
  }

  /** How many records of m have a smaller id than x: x's position in a listing
      of m by increasing id. */
  ghost function Rank(m: set<ItemInDB>, x: ItemInDB): nat
  {
    |set y | y in m && y.id < x.id|
  }

  class InMemoryItemStorage {
    /** `_items`: the stored records by id. */
    var items: map<int, ItemInDB>
    /** The keys of `_items` in insertion order. */
    var order: seq<int>
    /** `_id_seq`: the last id handed out. */
    var idSeq: nat
    /** Every id `_next_id` has handed out. */
    ghost var issued: set<int>

    /** Every key is listed once in insertion order; since ids are handed out in
        increasing order and an update never moves a key, insertion order is
        increasing id order. Each record is stored under its own id and satisfies
        the price constraint, and its id was handed out by the counter. */
    ghost predicate Valid()
      reads this
    {
      && Indexed(items, order)
      && (forall k :: k in items ==> ValidItem(items[k]))
      && items.Keys <= issued
      && (forall k :: k in issued ==> 1 <= k <= idSeq)
    }

    /** `__init__`: no records, counter at 0. */
    constructor ()
      ensures Valid()
      ensures items == map[] && order == [] && idSeq == 0 && issued == {}
    {
      items, order, idSeq := map[], [], 0;
      issued := {};
    }

    /** `list(self._items.values())`: the stored records in insertion order,
        which is increasing id order; a record is listed exactly when it is
        stored under its id. */
    function Values(): (r: seq<ItemInDB>)
      reads this
      requires Valid()
      ensures forall k :: k in items ==> items[k] in r
      ensures forall x :: x in r ==> x.id in items && items[x.id] == x
      ensures IncreasingBy(r, IdOf)
    {
      EntriesFacts(items, order);
      Entries(items, order)
    }

    /** `_next_id`: advance the counter and hand out its new value. */
    method NextId() returns (id: nat)
      requires Valid()
      modifies this`idSeq, this`issued
      ensures Valid()
      ensures id == old(idSeq) + 1 && idSeq == id
      ensures id !in old(issued) && (forall k :: k in old(issued) ==> k < id)
      ensures issued == old(issued) + {id}
    {
      idSeq := idSeq + 1;
      issued := issued + {idSeq};
      id := idSeq;
    }

    /** `get`: the record stored under the id, or None when no listed record
        has that id. */
    function Get(id: int): (r: Option<ItemInDB>)
      reads this
      requires Valid()
      ensures r.Some? ==> r.value.id == id && r.value in Values()
      ensures r.None? <==> forall x :: x in Values() ==> x.id != id
    {
      if id in items then Some(items[id]) else None
    }

    /** The stored records that pass both filters. */
    ghost function Matching(nameContains: Option<string>, isActive: Option<bool>): (m: set<ItemInDB>)
      reads this
      requires Valid()
      ensures forall x :: x in m <==> x.id in items && items[x.id] == x && Passes(nameContains, isActive, x)
    {
      MatchingIn(Values(), nameContains, isActive)
    }

    /** `list`: filter by name, then by activity, then take `[skip : skip + limit]`.
        The result lists, in increasing id (so insertion) order, exactly the
        matching records whose position among all matching records lies in
        [skip, skip + limit); with no filter it is that slice of all records. */
    function List(skip: nat, limit: nat, nameContains: Option<string>, isActive: Option<bool>): (r: seq<ItemInDB>)
      reads this
      requires Valid()
      ensures |r| <= limit
      ensures forall x :: x in r ==> x in Values() && Passes(nameContains, isActive, x)
      ensures IncreasingBy(r, IdOf)
      ensures forall x :: x in r <==> x in Matching(nameContains, isActive)
                                       && skip <= Rank(Matching(nameContains, isActive), x) < skip + limit
      ensures |r| == if skip >= |Matching(nameContains, isActive)| then 0
                     else Min(limit, |Matching(nameContains, isActive)| - skip)
      ensures !NameFilterOn(nameContains) && isActive.None? ==> r == Window(Values(), skip, limit)
    {
      SelectedWindow(Values(), skip, limit, nameContains, isActive);
      assert Matching(nameContains, isActive) == MatchingIn(Values(), nameContains, isActive);
      Window(Select(Values(), nameContains, isActive), skip, limit)
    }

    /** `create`: hand out the next id, store the record built from the input
        under it, and return it. The input's fields are stored unchanged, the new
        id exceeds every id handed out before, and no other record changes. */
    method Create(data: ItemCreate) returns (item: ItemInDB)
      requires Valid() && ValidBase(data)
      modifies this
      ensures Valid()
      ensures item == ItemInDB(old(idSeq) + 1, data)
      ensures idSeq == item.id
      ensures item.id !in old(issued) && (forall k :: k in old(issued) ==> k < item.id)
      ensures issued == old(issued) + {item.id}
      ensures items == old(items)[item.id := item]
      ensures order == old(order) + [item.id]
      ensures Get(item.id) == Some(item)
      ensures Values() == old(Values()) + [item]
    {
      var id := NextId();
      var kw := BaseDict(data)[Id := IntV(id)];
      ItemRoundTrip(ItemInDB(id, data));
      var validated := NewItemInDB(kw);
      item := validated.value;
      AppendIndexed(items, order, item);
      items := items[id := item];
      order := order + [id];
    }

    /** `update`: None when the id is not stored. Otherwise copy the stored
        record's dictionary, overwrite the fields the input sets, and re-validate
        the result as an ItemInDB before storing it under the same key: an unset
        field, the id and every other record stay as they were, and a merge that
        fails validation leaves the store untouched. */
    method Update(id: int, data: ItemUpdate) returns (r: UpdateOutcome)
      requires Valid() && ValidUpdate(data)
      modifies this
      ensures Valid()
      ensures idSeq == old(idSeq) && issued == old(issued) && order == old(order)
      ensures r == if id in old(items) then Outcome(Merge(old(items)[id], data)) else NotFound
      ensures items == if r.Updated? then old(items)[id := r.item] else old(items)
      ensures r.Updated? ==> r.item.id == id && Get(id) == Some(r.item)
      ensures Values() == if r.Updated? then Replaced(old(Values()), r.item) else old(Values())
    {
      if id !in items {
        return NotFound;
      }
      var stored := items[id];
      var updatedData := OverwriteSet(ItemDict(stored), data);
      DictMergeIsMerge(stored, data);
      var validated := NewItemInDB(updatedData);
      if validated.Err? {
        return Invalid(validated.error);
      }
      MergeFields(stored, data);
      ReplaceIndexed(items, order, validated.value);
      Store(validated.value);
      r := Updated(validated.value);
    }

    /** `self._items[item_id] = updated_item` for a key already stored: the key
        keeps its place in insertion order and only its record changes. */
    method Store(x: ItemInDB)
      requires Valid() && x.id in items && ValidItem(x)
      modifies this`items
      ensures Valid()
      ensures items == old(items)[x.id := x]
    {
      ReplaceIndexed(items, order, x);
      items := items[x.id := x];
    }

    /** `delete`: remove the record and report whether it was stored. The counter
        is left alone, so a removed id is never handed out again. */
    method Delete(id: int) returns (deleted: bool)
      requires Valid()
      modifies this
      ensures Valid()
      ensures deleted <==> id in old(items)
      ensures items == if deleted then old(items) - {id} else old(items)
      ensures order == if deleted then Filter(old(order), Except(id)) else old(order)
      ensures idSeq == old(idSeq) && issued == old(issued)
      ensures Get(id) == None
      ensures Values() == if deleted then Filter(old(Values()), NotId(id)) else old(Values())
    {
      if id in items {
        RemoveIndexed(items, order, id);
        items := items - {id};
        order := Filter(order, Except(id));
        deleted := true;
      } else {
        deleted := false;
      }
    }
  }

  /** The loop of `update`: copy the stored record's dictionary and, for each
      field the input sets, in declaration order, overwrite its entry with the
      input's value. The result is the stored dictionary updated by the input's
      `exclude_unset` dictionary: set fields replaced, every other entry kept. */
  method OverwriteSet(stored: Kwargs, data: ItemUpdate) returns (updated: Kwargs)
    ensures updated == stored + ExcludeUnset(data)
  {
    updated := stored;
    var fields := SetFields(data);
    ghost var done: set<FieldName> := {};
    for i := 0 to |fields|
      invariant forall j :: 0 <= j < i ==> fields[j] in done
      invariant forall f :: f in done ==> IsSet(data, f)
      invariant forall f :: f in updated <==> f in stored || f in done
      invariant forall f :: f in updated ==> updated[f] == if f in done then UpdateValue(data, f) else stored[f]
    {
      updated := updated[fields[i] := UpdateValue(data, fields[i])];
      done := done + {fields[i]};
    }
    var given := ExcludeUnset(data);
    forall f | f in given ensures f in done {
      var j :| 0 <= j < |fields| && fields[j] == f;
    }
    MapsAgree(updated, stored + given);
  }

  /** The listing of an indexed map holds each of its records, only those, in
      increasing id order. */
  lemma EntriesFacts(m: map<int, ItemInDB>, keys: seq<int>)
    requires Indexed(m, keys)
    ensures forall k :: k in m ==> m[k] in Entries(m, keys)
    ensures forall x :: x in Entries(m, keys) ==> x.id in m && m[x.id] == x
    ensures IncreasingBy(Entries(m, keys), IdOf)
  {
    var r := Entries(m, keys);
    forall k | k in m ensures m[k] in r {
      var i :| 0 <= i < |keys| && keys[i] == k;
      assert r[i] == m[k];
    }
    forall x | x in r ensures x.id in m && m[x.id] == x {
      var i :| 0 <= i < |r| && r[i] == x;
      assert keys[i] in m;
    }
  }

  /** Storing a record under a key larger than every listed one appends it. */
  lemma AppendIndexed(m: map<int, ItemInDB>, keys: seq<int>, x: ItemInDB)
    requires Indexed(m, keys)
    requires forall i :: 0 <= i < |keys| ==> keys[i] < x.id
    ensures Indexed(m[x.id := x], keys + [x.id])
    ensures Entries(m[x.id := x], keys + [x.id]) == Entries(m, keys) + [x]
  {
    var m', keys' := m[x.id := x], keys + [x.id];
    forall k | k in m' ensures k in keys' {
      if k != x.id {
        assert k in m;
        var i :| 0 <= i < |keys| && keys[i] == k;
        assert keys'[i] == k;
      } else {
        assert keys'[|keys|] == k;
      }
    }
  }

  /** Storing a record under a key already listed changes that one entry only. */
  lemma ReplaceIndexed(m: map<int, ItemInDB>, keys: seq<int>, x: ItemInDB)
    requires Indexed(m, keys)
    requires x.id in m
    ensures Indexed(m[x.id := x], keys)
    ensures Entries(m[x.id := x], keys) == Replaced(Entries(m, keys), x)
  {
  }

  /** Deleting a key drops it from the key listing and its record from the
      listing of records. */
  lemma RemoveIndexed(m: map<int, ItemInDB>, keys: seq<int>, id: int)
    requires Indexed(m, keys)
    ensures Indexed(m - {id}, Filter(keys, Except(id)))
    ensures Entries(m - {id}, Filter(keys, Except(id))) == Filter(Entries(m, keys), NotId(id))
  {
    var keys' := Filter(keys, Except(id));
    FilterIncreasing(keys, Except(id), KeyOf);
    forall k | k in m - {id} ensures k in keys' {
      FilterMember(keys, Except(id), k);
    }
    FilterValues(m, keys, id);
    forall i | 0 <= i < |keys'| ensures keys'[i] != id {
      assert Except(id)(keys'[i]);
    }
    EntriesAgree(m, m - {id}, keys');
  }

  /** Dropping a key from the listing drops its record from the listing of records. */
  lemma {:induction false} FilterValues(m: map<int, ItemInDB>, keys: seq<int>, id: int)
    requires forall i :: 0 <= i < |keys| ==> keys[i] in m
    requires forall k :: k in m ==> m[k].id == k
    ensures forall i :: 0 <= i < |Filter(keys, Except(id))| ==> Filter(keys, Except(id))[i] in m
    ensures Entries(m, Filter(keys, Except(id))) == Filter(Entries(m, keys), NotId(id))
  {
    if keys != [] {
      var rest := keys[1..];
      FilterValues(m, rest, id);
      var e := Entries(m, keys);
      assert e[1..] == Entries(m, rest);
    }
  }

  /** Listing the same keys of two maps that agree on them gives the same records. */
  lemma EntriesAgree(m: map<int, ItemInDB>, m': map<int, ItemInDB>, keys: seq<int>)
    requires forall i :: 0 <= i < |keys| ==> keys[i] in m && keys[i] in m' && m[keys[i]] == m'[keys[i]]
    ensures Entries(m, keys) == Entries(m', keys)
  {
  }

  /** A slice of a listing of m by increasing id holds exactly the records of m
      whose rank lies in the slice's range. */
  lemma WindowOfListing(f: seq<ItemInDB>, m: set<ItemInDB>, skip: nat, limit: nat)
    requires IncreasingBy(f, IdOf)
    requires forall x :: x in f <==> x in m
    ensures |m| == |f|
    ensures forall x :: x in Window(f, skip, limit) <==> x in m && skip <= Rank(m, x) < skip + limit
  {
    CardOfIncreasing(f, IdOf);
    assert (set x | x in f) == m;
    var w := Window(f, skip, limit);
    forall x ensures x in w <==> x in m && skip <= Rank(m, x) < skip + limit {
      if x in w {
        var j :| 0 <= j < |w| && w[j] == x;
        RankInListing(f, m, skip + j);
      }
      if x in m {
        var k :| 0 <= k < |f| && f[k] == x;
        RankInListing(f, m, k);
        if skip <= k < skip + limit {
          assert w[k - skip] == x;
        }
      }
    }
  }

  /** A slice of a listing by increasing id is ordered the same way. */
  lemma WindowIncreasing(f: seq<ItemInDB>, skip: nat, limit: nat)
    requires IncreasingBy(f, IdOf)
    ensures IncreasingBy(Window(f, skip, limit), IdOf)
  {
  }

  /** In a listing by increasing id, a record's rank is its position. */
  lemma RankInListing(f: seq<ItemInDB>, m: set<ItemInDB>, k: nat)
    requires IncreasingBy(f, IdOf)
    requires forall x :: x in f <==> x in m
    requires k < |f|
    ensures Rank(m, f[k]) == k
  {
    var below := set y | y in m && y.id < f[k].id;
    assert below == set y | y in f[..k] by {
      forall y | y in below ensures y in f[..k] {
        var j :| 0 <= j < |f| && f[j] == y;
        assert f[..k][j] == y;
      }
    }
    assert IncreasingBy(f[..k], IdOf);
    CardOfIncreasing(f[..k], IdOf);
  }
}
