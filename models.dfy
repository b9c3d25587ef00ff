/** The records the item store keeps and accepts (the pydantic models
    ItemBase, ItemCreate, ItemUpdate and ItemInDB of app/models.py): their
    fields, their defaults, the `price > 0` constraint, the dictionary form
    that `.dict()` produces, and what constructing a model from keyword
    arguments accepts or rejects. */
module Models {
  import opened Wrappers

  /** The fields of the models, in declaration order; only ItemInDB has `Id`. */
  datatype FieldName = Id | Name | Description | Price | IsActive

  /** A value in the dictionary form of a record, or passed by keyword. */
  datatype Value = NoneV | IntV(i: int) | StrV(s: string) | RealV(x: real) | BoolV(b: bool)

  /** Keyword arguments to a model constructor: a field is absent or given a value
      (possibly None). A key the model does not declare is ignored. */
  type Kwargs = map<FieldName, Value>

  /** ItemBase: `name` and `price` required, `description` optional, `is_active` a flag.
      The price is an abstract number; only its sign is constrained. */
  datatype ItemBase = ItemBase(name: string, description: Option<string>, price: real, isActive: bool)

  /** ItemCreate declares exactly the fields of ItemBase. */
  type ItemCreate = ItemBase

  /** ItemInDB: the fields of ItemBase plus a required integer id. */
  datatype ItemInDB = ItemInDB(id: int, base: ItemBase)

  /** One field of an ItemUpdate: never set, explicitly set to None, or set to a value.
      Pydantic keeps the first two apart through the set of fields given. */
  datatype Arg<T> = Unset | Null | Given(value: T)

  /** ItemUpdate: every field optional. */
  datatype ItemUpdate = ItemUpdate(name: Arg<string>, description: Arg<string>, price: Arg<real>, isActive: Arg<bool>)

  /** The `gt=0` constraint on `price`; nothing constrains the contents of `name`. */
  predicate ValidBase(b: ItemBase)
  {
    b.price > 0.0
  }

  predicate ValidItem(x: ItemInDB)
  {
    ValidBase(x.base)
  }

  /** A price, when one is given to an update, is positive. */
  predicate ValidUpdate(u: ItemUpdate)
  {
    u.price.Given? ==> u.price.value > 0.0
  }

  /** Reading an ItemUpdate attribute: None both when unset and when set to None. */
  function Attr<T>(a: Arg<T>): (r: Option<T>)
    ensures r.Some? <==> a.Given?
    ensures a.Given? ==> r.value == a.value
  {
    if a.Given? then Some(a.value) else None
  }

  // ---- Validation of keyword arguments, field by field ----

  /** `name: str`, required. */
  predicate NameAccepted(kw: Kwargs)
  {
    Name in kw && kw[Name].StrV?
  }

  /** `description: Optional[str] = None`. */
  predicate DescriptionAccepted(kw: Kwargs)
  {
    Description in kw ==> kw[Description].NoneV? || kw[Description].StrV?
  }

  /** `price: float`, required, `gt=0`. */
  predicate PriceAccepted(kw: Kwargs)
  {
    Price in kw && kw[Price].RealV? && kw[Price].x > 0.0
  }

  /** `is_active: bool = True`: may be left out, but not given as None. */
  predicate IsActiveAccepted(kw: Kwargs)
  {
    IsActive in kw ==> kw[IsActive].BoolV?
  }

  /** `id: int`, required. */
  predicate IdAccepted(kw: Kwargs)
  {
    Id in kw && kw[Id].IntV?
  }

  predicate BaseAccepted(kw: Kwargs)
  {
    NameAccepted(kw) && DescriptionAccepted(kw) && PriceAccepted(kw) && IsActiveAccepted(kw)
  }

  /** The ItemBase fields a constructor rejects. */
  function BaseErrors(kw: Kwargs): (e: set<FieldName>)
    ensures Id !in e
    ensures e == {} <==> BaseAccepted(kw)
  {
    (if NameAccepted(kw) then {} else {Name})
    + (if DescriptionAccepted(kw) then {} else {Description})
    + (if PriceAccepted(kw) then {} else {Price})
    + (if IsActiveAccepted(kw) then {} else {IsActive})
  }

  /** `ItemCreate(**kw)`: the validated record, with `description` defaulting to
      None and `is_active` to True, or the fields of the ValidationError. */
  function NewItemCreate(kw: Kwargs): (r: Result<ItemCreate, set<FieldName>>)
    ensures r.Ok? <==> BaseAccepted(kw)
    ensures r.Err? ==> r.error == BaseErrors(kw)
    ensures r.Ok? ==> ValidBase(r.value)
    ensures Name !in kw || Price !in kw ==> r.Err?
    ensures r.Err? ==> r.error != {} && Id !in r.error
    ensures r.Ok? ==> NameAccepted(kw) && r.value.name == kw[Name].s
    ensures r.Ok? ==> PriceAccepted(kw) && r.value.price == kw[Price].x
    ensures r.Ok? ==> (r.value.description.Some? <==> Description in kw && kw[Description].StrV?)
    ensures r.Ok? && Description in kw && kw[Description].StrV? ==> r.value.description.value == kw[Description].s
    ensures r.Ok? && IsActive !in kw ==> r.value.isActive
    ensures r.Ok? && IsActive in kw ==> kw[IsActive].BoolV? && r.value.isActive == kw[IsActive].b
  {
    if !BaseAccepted(kw) then Err(BaseErrors(kw))
    else
      Ok(ItemBase(
           kw[Name].s,
           if Description in kw && kw[Description].StrV? then Some(kw[Description].s) else None,
           kw[Price].x,
           if IsActive in kw then kw[IsActive].b else true))
  }

  /** Only `name` and `price` are required: leaving out `description` and
      `is_active` gives a record with no description that is active. */
  lemma CreateDefaults(n: string, p: real)
    requires p > 0.0
    ensures NewItemCreate(map[Name := StrV(n), Price := RealV(p)]) == Ok(ItemBase(n, None, p, true))
  {
  }

  /** `ItemInDB(**kw)`: an ItemCreate built from the same arguments, plus the id. */
  function NewItemInDB(kw: Kwargs): (r: Result<ItemInDB, set<FieldName>>)
    ensures r.Ok? ==> ValidItem(r.value)
    ensures r.Ok? <==> IdAccepted(kw) && NewItemCreate(kw).Ok?
    ensures r.Ok? ==> r.value == ItemInDB(kw[Id].i, NewItemCreate(kw).value)
    ensures r.Err? ==> r.error == BaseErrors(kw) + (if IdAccepted(kw) then {} else {Id})
  {
    if !(IdAccepted(kw) && BaseAccepted(kw)) then Err(BaseErrors(kw) + (if IdAccepted(kw) then {} else {Id}))
    else Ok(ItemInDB(kw[Id].i, NewItemCreate(kw).value))
  }

  /** The ItemUpdate fields a constructor accepts: left out, None, or a value of
      the declared type, and a price that is given a number is positive. */
  predicate UpdateFieldAccepted(kw: Kwargs, f: FieldName)
  {
    f in kw ==>
      match f
      case Id => true
      case Name => kw[f].NoneV? || kw[f].StrV?
      case Description => kw[f].NoneV? || kw[f].StrV?
      case Price => kw[f].NoneV? || (kw[f].RealV? && kw[f].x > 0.0)
      case IsActive => kw[f].NoneV? || kw[f].BoolV?
  }

  predicate UpdateAccepted(kw: Kwargs)
  {
    UpdateFieldAccepted(kw, Name) && UpdateFieldAccepted(kw, Description)
    && UpdateFieldAccepted(kw, Price) && UpdateFieldAccepted(kw, IsActive)
  }

  /** The ItemUpdate fields a constructor rejects. */
  function UpdateErrors(kw: Kwargs): (e: set<FieldName>)
    ensures Id !in e
    ensures e == {} <==> UpdateAccepted(kw)
  {
    (if UpdateFieldAccepted(kw, Name) then {} else {Name})
    + (if UpdateFieldAccepted(kw, Description) then {} else {Description})
    + (if UpdateFieldAccepted(kw, Price) then {} else {Price})
    + (if UpdateFieldAccepted(kw, IsActive) then {} else {IsActive})
  }

  /** `ItemUpdate(**kw)`: the fields given become set, the others stay unset. */
  function NewItemUpdate(kw: Kwargs): (r: Result<ItemUpdate, set<FieldName>>)
    ensures r.Ok? <==> UpdateAccepted(kw)
    ensures r.Err? ==> r.error == UpdateErrors(kw)
    ensures r.Ok? ==> ValidUpdate(r.value)
    ensures kw == map[] ==> r == Ok(ItemUpdate(Unset, Unset, Unset, Unset))
    ensures r.Ok? ==> && (r.value.name.Unset? <==> Name !in kw) && (r.value.description.Unset? <==> Description !in kw)
                      && (r.value.price.Unset? <==> Price !in kw) && (r.value.isActive.Unset? <==> IsActive !in kw)
    ensures r.Ok? ==> && (r.value.name.Null? <==> Name in kw && kw[Name].NoneV?)
                      && (r.value.price.Null? <==> Price in kw && kw[Price].NoneV?)
                      && (r.value.description.Null? <==> Description in kw && kw[Description].NoneV?)
                      && (r.value.isActive.Null? <==> IsActive in kw && kw[IsActive].NoneV?)
    ensures Price in kw && kw[Price].RealV? && kw[Price].x <= 0.0 ==> r.Err? && Price in r.error
    ensures r.Err? ==> r.error != {} && Id !in r.error
  {
    if !UpdateAccepted(kw) then Err(UpdateErrors(kw))
    else
      // After validation a given field holds None or a value of its type.
      Ok(ItemUpdate(
           if Name !in kw then Unset else if kw[Name].StrV? then Given(kw[Name].s) else Null,
           if Description !in kw then Unset else if kw[Description].StrV? then Given(kw[Description].s) else Null,
           if Price !in kw then Unset else if kw[Price].RealV? then Given(kw[Price].x) else Null,
           if IsActive !in kw then Unset else if kw[IsActive].BoolV? then Given(kw[IsActive].b) else Null))
  }

  // ---- Dictionary forms (`.dict()`) ----

  /** `.dict()` of an ItemBase: every field present, a missing description as None. */
  function BaseDict(b: ItemBase): (kw: Kwargs)
    ensures kw.Keys == {Name, Description, Price, IsActive}
  {
    map[Name := StrV(b.name),
        Description := if b.description.Some? then StrV(b.description.value) else NoneV,
        Price := RealV(b.price),
        IsActive := BoolV(b.isActive)]
  }

  /** `.dict()` of an ItemInDB: the ItemBase dictionary plus the id. */
  function ItemDict(x: ItemInDB): (kw: Kwargs)
    ensures kw.Keys == {Id, Name, Description, Price, IsActive}
  {
    BaseDict(x.base)[Id := IntV(x.id)]
  }

  /** Constructing an ItemCreate from an ItemBase's dictionary gives the record back,
      and rejects only the price when the record breaks the price constraint. */
  lemma BaseRoundTrip(b: ItemBase)
    ensures NewItemCreate(BaseDict(b)) == if ValidBase(b) then Ok(b) else Err({Price})
  {
    var kw := BaseDict(b);
    assert NameAccepted(kw) && DescriptionAccepted(kw) && IsActiveAccepted(kw);
    assert BaseErrors(kw) == if PriceAccepted(kw) then {} else {Price};
  }

  /** Constructing an ItemInDB from a valid record's dictionary gives the record back. */
  lemma ItemRoundTrip(x: ItemInDB)
    requires ValidItem(x)
    ensures NewItemInDB(ItemDict(x)) == Ok(x)
  {
    var kw := ItemDict(x);
    assert kw - {Id} == BaseDict(x.base);
    assert NewItemCreate(kw) == NewItemCreate(BaseDict(x.base)) by {
      assert forall f :: f != Id ==> (f in kw <==> f in BaseDict(x.base));
    }
    BaseRoundTrip(x.base);
  }

  /** The update was given field f (Id is not a field of ItemUpdate). */
  predicate IsSet(u: ItemUpdate, f: FieldName)
  {
    match f
    case Id => false
    case Name => !u.name.Unset?
    case Description => !u.description.Unset?
    case Price => !u.price.Unset?
    case IsActive => !u.isActive.Unset?
  }

  /** The fields of ItemUpdate. */
  const UpdateFields: set<FieldName> := {Name, Description, Price, IsActive}

  /** A field's position in the declaration of ItemInDB. */
  function Position(f: FieldName): nat
  {
    match f
    case Id => 0
    case Name => 1
    case Description => 2
    case Price => 3
    case IsActive => 4
  }

  /** The fields set in an update, in declaration order. */
  function SetFields(u: ItemUpdate): (fs: seq<FieldName>)
    ensures forall i, j :: 0 <= i < j < |fs| ==> Position(fs[i]) < Position(fs[j])
    ensures forall i :: 0 <= i < |fs| ==> IsSet(u, fs[i])
    ensures forall f :: f in fs <==> IsSet(u, f)
  {
    (if u.name.Unset? then [] else [Name])
    + (if u.description.Unset? then [] else [Description])
    + (if u.price.Unset? then [] else [Price])
    + (if u.isActive.Unset? then [] else [IsActive])
  }

  /** The value `.dict()` gives an update field (None when it is not set to a value). */
  function UpdateValue(u: ItemUpdate, f: FieldName): Value
  {
    match f
    case Id => NoneV
    case Name => if u.name.Given? then StrV(u.name.value) else NoneV
    case Description => if u.description.Given? then StrV(u.description.value) else NoneV
    case Price => if u.price.Given? then RealV(u.price.value) else NoneV
    case IsActive => if u.isActive.Given? then BoolV(u.isActive.value) else NoneV
  }

  /** `.dict(exclude_unset=True)` of an ItemUpdate: only the fields it was given. */
  function ExcludeUnset(u: ItemUpdate): (kw: Kwargs)
    ensures forall f :: f in kw <==> IsSet(u, f)
    ensures forall f :: f in kw ==> kw[f] == UpdateValue(u, f)
  {
    map f | f in UpdateFields && IsSet(u, f) :: UpdateValue(u, f)
  }

  /** Constructing an ItemUpdate from its `.dict(exclude_unset=True)` gives the update back. */
  lemma UpdateRoundTrip(u: ItemUpdate)
    requires ValidUpdate(u)
    ensures NewItemUpdate(ExcludeUnset(u)) == Ok(u)
  {
    var kw := ExcludeUnset(u);
    assert Id !in kw;
    assert (Name in kw <==> !u.name.Unset?) && (Description in kw <==> !u.description.Unset?);
    assert (Price in kw <==> !u.price.Unset?) && (IsActive in kw <==> !u.isActive.Unset?);
    assert UpdateErrors(kw) == {};
  }

  // ---- The merge `update` performs, on typed records ----

  /** None, or a number that is not positive, for a required price. */
  predicate PriceRejected(p: Arg<real>)
  {
    p.Null? || (p.Given? && p.value <= 0.0)
  }

  /** An update that a stored record can take: no required field set to None,
      no non-positive price. */
  predicate MergeAccepted(u: ItemUpdate)
  {
    !u.name.Null? && !PriceRejected(u.price) && !u.isActive.Null?
  }

  /** The record an update makes of a stored one: a field set in the update
      replaces the stored field, an unset field keeps it. Setting `name`,
      `price` or `is_active` to None, or `price` to a non-positive number,
      makes the merge invalid; setting `description` to None clears it. */
  function Merge(x: ItemInDB, u: ItemUpdate): (r: Result<ItemInDB, set<FieldName>>)
  {
    if !MergeAccepted(u) then
      Err((if u.name.Null? then {Name} else {})
          + (if PriceRejected(u.price) then {Price} else {})
          + (if u.isActive.Null? then {IsActive} else {}))
    else
      Ok(ItemInDB(x.id, ItemBase(
           if u.name.Given? then u.name.value else x.base.name,
           match u.description
           case Unset => x.base.description
           case Null => None
           case Given(d) => Some(d),
           if u.price.Given? then u.price.value else x.base.price,
           if u.isActive.Given? then u.isActive.value else x.base.isActive)))
  }

  /** What a merge keeps and what it takes from the update. */
  lemma MergeFields(x: ItemInDB, u: ItemUpdate)
    requires ValidItem(x)
    ensures Merge(x, u).Ok? <==> !u.name.Null? && !u.price.Null? && !u.isActive.Null? && (u.price.Given? ==> u.price.value > 0.0)
    ensures Merge(x, u).Ok? ==> ValidItem(Merge(x, u).value) && Merge(x, u).value.id == x.id
    ensures Merge(x, u).Ok? ==>
      var y := Merge(x, u).value.base;
      && (y.name == if u.name.Given? then u.name.value else x.base.name)
      && (y.description == if u.description.Unset? then x.base.description else Attr(u.description))
      && (y.price == if u.price.Given? then u.price.value else x.base.price)
      && (y.isActive == if u.isActive.Given? then u.isActive.value else x.base.isActive)
  {
  }

  /** An update that sets nothing gives the stored record back unchanged. */
  lemma MergeNothing(x: ItemInDB)
    ensures Merge(x, ItemUpdate(Unset, Unset, Unset, Unset)) == Ok(x)
  {
  }

  /** Overwriting a record's dictionary with an update's set fields gives the
      dictionary of a record y that takes exactly the set fields from the update. */
  lemma MergedDict(x: ItemInDB, u: ItemUpdate, y: ItemInDB)
    requires MergeAccepted(u) && y.id == x.id
    requires y.base.name == if u.name.Given? then u.name.value else x.base.name
    requires y.base.description == if u.description.Unset? then x.base.description else Attr(u.description)
    requires y.base.price == if u.price.Given? then u.price.value else x.base.price
    requires y.base.isActive == if u.isActive.Given? then u.isActive.value else x.base.isActive
    ensures ItemDict(x) + ExcludeUnset(u) == ItemDict(y)
  {
    var kw, m := ItemDict(x) + ExcludeUnset(u), ItemDict(y);
    forall f ensures f in kw && f in m && kw[f] == m[f] {
      MergedEntry(x, u, y, f);
    }
    MapsAgree(kw, m);
  }

  /** One entry of the merged dictionary of MergedDict. */
  lemma MergedEntry(x: ItemInDB, u: ItemUpdate, y: ItemInDB, f: FieldName)
    requires MergeAccepted(u) && y.id == x.id
    requires y.base.name == if u.name.Given? then u.name.value else x.base.name
    requires y.base.description == if u.description.Unset? then x.base.description else Attr(u.description)
    requires y.base.price == if u.price.Given? then u.price.value else x.base.price
    requires y.base.isActive == if u.isActive.Given? then u.isActive.value else x.base.isActive
    ensures f in ItemDict(x) + ExcludeUnset(u) && f in ItemDict(y)
    ensures (ItemDict(x) + ExcludeUnset(u))[f] == ItemDict(y)[f]
  {
    var stored, given := ItemDict(x), ExcludeUnset(u);
    assert f in stored;
    if IsSet(u, f) {
      assert (stored + given)[f] == UpdateValue(u, f);
    } else {
      assert (stored + given)[f] == stored[f];
    }
  }

  /** Two argument dictionaries with the same keys and the same value at each key are equal. */
  lemma MapsAgree(a: Kwargs, b: Kwargs)
    requires forall f :: f in a <==> f in b
    requires forall f :: f in a ==> a[f] == b[f]
    ensures a == b
  {
  }

  /** Which fields the ItemInDB constructor accepts in a merged dictionary. */
  lemma MergedDictChecks(x: ItemInDB, u: ItemUpdate)
    requires ValidItem(x)
    ensures var kw := ItemDict(x) + ExcludeUnset(u);
      && IdAccepted(kw) && DescriptionAccepted(kw)
      && (NameAccepted(kw) <==> !u.name.Null?)
      && (PriceAccepted(kw) <==> !PriceRejected(u.price))
      && (IsActiveAccepted(kw) <==> !u.isActive.Null?)
  {
    var stored, given := ItemDict(x), ExcludeUnset(u);
    var kw := stored + given;
    assert kw[Id] == stored[Id];
    assert kw[Name] == if IsSet(u, Name) then UpdateValue(u, Name) else stored[Name];
    assert kw[Description] == if IsSet(u, Description) then UpdateValue(u, Description) else stored[Description];
    assert kw[Price] == if IsSet(u, Price) then UpdateValue(u, Price) else stored[Price];
    assert kw[IsActive] == if IsSet(u, IsActive) then UpdateValue(u, IsActive) else stored[IsActive];
  }

  /** When the merge is invalid, the ItemInDB constructor rejects the merged
      dictionary for exactly the fields the merge names. */
  lemma InvalidMergeRejected(kw: Kwargs, x: ItemInDB, u: ItemUpdate)
    requires !MergeAccepted(u)
    requires IdAccepted(kw) && DescriptionAccepted(kw)
    requires NameAccepted(kw) <==> !u.name.Null?
    requires PriceAccepted(kw) <==> !PriceRejected(u.price)
    requires IsActiveAccepted(kw) <==> !u.isActive.Null?
    ensures NewItemInDB(kw) == Merge(x, u)
  {
    assert !BaseAccepted(kw);
    assert BaseErrors(kw) + {} == Merge(x, u).error;
  }

  /** Overwriting the stored record's dictionary with the update's set fields and
      constructing an ItemInDB from the result is the typed merge. */
  lemma DictMergeIsMerge(x: ItemInDB, u: ItemUpdate)
    requires ValidItem(x)
    ensures NewItemInDB(ItemDict(x) + ExcludeUnset(u)) == Merge(x, u)
  {
    if Merge(x, u).Ok? {
      MergeFields(x, u);
      MergedDict(x, u, Merge(x, u).value);
      ItemRoundTrip(Merge(x, u).value);
    } else {
      MergedDictChecks(x, u);
      InvalidMergeRejected(ItemDict(x) + ExcludeUnset(u), x, u);
    }
  }
}
