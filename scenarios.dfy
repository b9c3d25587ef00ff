/** Short client runs of the store, with their results derived from the
    contracts of the store's operations. */
module Scenarios {
  import opened Wrappers
  import opened Seqs
  import opened Models
  import opened Text
  import opened Storage

  /** An active record with no description. */
  function Sample(name: string, price: real): ItemCreate
  {
    ItemBase(name, None, price, true)
  }

  /** Deleting the same id twice reports true and then false. */
  method DeleteTwice() returns (first: bool, second: bool)
    ensures first && !second
  {
    var s := new InMemoryItemStorage();
    var x := s.Create(Sample("a", 1.0));
    first := s.Delete(x.id);
    second := s.Delete(x.id);
  }

  /** After ids 1 and 2 are handed out and 2 is deleted, the next create hands
      out 3, not the freed 2. */
  method NoReuseAfterDelete() returns (c: int)
    ensures c == 3
  {
    var s := CreateMany(2);
    var deleted := s.Delete(2);
    var z := s.Create(Sample("c", 1.0));
    c := z.id;
  }

  /** Create n records in a fresh store: they are listed in creation order
      with ids 1 to n. */
  method CreateMany(n: nat) returns (s: InMemoryItemStorage)
    ensures fresh(s) && s.Valid() && s.idSeq == n && |s.Values()| == n
    ensures forall i :: 0 <= i < n ==> s.Values()[i].id == i + 1
  {
    s := new InMemoryItemStorage();
    for k := 0 to n
      invariant s.Valid() && s.idSeq == k && |s.Values()| == k
      invariant forall i :: 0 <= i < k ==> s.Values()[i].id == i + 1
    {
      var x := s.Create(Sample("item", 1.0));
    }
  }

  /** Over five records created in order, `list(skip=2, limit=2)` returns the
      third and the fourth. */
  method SecondPage() returns (page: seq<ItemInDB>)
    ensures |page| == 2 && page[0].id == 3 && page[1].id == 4
  {
    var s := CreateMany(5);
    page := s.List(2, 2, None, None);
  }

  /** Create then get: the stored record has the input's fields and the new id. */
  method CreateThenGet(data: ItemCreate) returns (item: ItemInDB, found: Option<ItemInDB>)
    requires ValidBase(data)
    ensures found == Some(item) && item.base == data && item.id == 1
  {
    var s := new InMemoryItemStorage();
    item := s.Create(data);
    found := s.Get(item.id);
  }

  /** A partial update that sets only the price keeps every other field, and
      the store holds the merged record afterwards. */
  method PriceOnlyUpdate() returns (priced: UpdateOutcome, after: Option<ItemInDB>)
    ensures priced == Updated(ItemInDB(1, ItemBase("A", Some("d"), 9.0, true)))
    ensures after == Some(ItemInDB(1, ItemBase("A", Some("d"), 9.0, true)))
  {
    var s := new InMemoryItemStorage();
    var x := s.Create(ItemBase("A", Some("d"), 5.0, true));
    var u := ItemUpdate(Unset, Unset, Given(9.0), Unset);
    assert Merge(x, u) == Ok(ItemInDB(1, ItemBase("A", Some("d"), 9.0, true)));
    priced := s.Update(x.id, u);
    after := s.Get(x.id);
  }

  /** An update that sets the name to None is rejected and the record stays. */
  method NullNameRejected() returns (cleared: UpdateOutcome, after: Option<ItemInDB>)
    ensures cleared == Invalid({Name})
    ensures after == Some(ItemInDB(1, ItemBase("A", Some("d"), 5.0, true)))
  {
    var s := new InMemoryItemStorage();
    var x := s.Create(ItemBase("A", Some("d"), 5.0, true));
    var u := ItemUpdate(Null, Unset, Unset, Unset);
    assert Merge(x, u) == Err({Name});
    cleared := s.Update(x.id, u);
    after := s.Get(x.id);
  }

  /** An update of an id that is not stored finds nothing and hands out no id. */
  method MissingUpdate() returns (missing: UpdateOutcome, counter: nat)
    ensures missing == NotFound && counter == 0
  {
    var s := new InMemoryItemStorage();
    missing := s.Update(7, ItemUpdate(Unset, Unset, Given(2.0), Unset));
    counter := s.idSeq;
  }

  /** "Sample" matches the needle "sam" once the case is folded. */
  lemma SamInSample(x: ItemInDB)
    requires x.base.name == "Sample"
    ensures NameHas("sam", x)
  {
    assert Lower("sam") == "sam" && Lower("Sample") == "sample";
    assert OccursAt("sample", "sam", 0);
  }

  /** Neither "Example" nor "Other" holds an 's', so neither matches "sam". */
  lemma SamNotIn(x: ItemInDB)
    requires x.base.name == "Example" || x.base.name == "Other"
    ensures !NameHas("sam", x)
  {
    assert Lower("sam") == "sam";
    if x.base.name == "Example" {
      assert Lower("Example") == "example";
      AbsentFirstChar("example", "sam");
    } else {
      assert Lower("Other") == "other";
      AbsentFirstChar("other", "sam");
    }
  }

  /** `name_contains="sam"` over records named "Sample", "Example" and "Other"
      keeps only "Sample": the match ignores case, and "example" does not
      contain "sam". */
  lemma NameFilterExample(x1: ItemInDB, x2: ItemInDB, x3: ItemInDB)
    requires x1.base.name == "Sample" && x2.base.name == "Example" && x3.base.name == "Other"
    ensures Select([x1, x2, x3], Some("sam"), None) == [x1]
  {
    SamInSample(x1);
    SamNotIn(x2);
    SamNotIn(x3);
    var keep := HasName("sam");
    assert NameFilterOn(Some("sam"));
    var all := [x1, x2, x3];
    assert all[1..] == [x2, x3] && all[1..][1..] == [x3];
    assert Filter([x3], keep) == [];
    assert Filter([x2, x3], keep) == [];
  }
}
