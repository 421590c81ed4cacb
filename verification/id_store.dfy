/** The in-memory mock store behind the company, contact and activity
    services: a module-level list of records keyed by a numeric `Id`, newest
    first. Each operation is a pure function from the store before the call to
    the store after it and what the call returns or throws; the artificial
    `delay` before each one is not part of the model. */
module IdStore {
  import opened Maybe
  import opened JsValue
  import opened Lists

  type Store = seq<Record>

  /** What a call hands back: a value, or the `Error` it throws for an unknown `Id`. */
  datatype Outcome<T> = Ok(value: T) | NotFound(message: string)

  /** The store after a call, and the call's outcome. */
  datatype Reply<T> = Reply(store: Store, out: Outcome<T>)

  predicate HasId(r: Record, k: int) {
    IdOf(r) == Num(k)
  }

  /** The store invariant: every `Id` is a number and no two records share one. */
  predicate WellFormed(store: Store) {
    && (forall i :: 0 <= i < |store| ==> IdOf(store[i]).Num?)
    && (forall i, j :: 0 <= i < j < |store| ==> IdOf(store[i]) != IdOf(store[j]))
  }

  /** Index of the first record whose `Id` is `k`. */
  function FirstWithId(store: Store, k: int): (r: Option<nat>)
    ensures r.Some? ==> r.value < |store| && HasId(store[r.value], k)
    ensures r.Some? ==> forall j :: 0 <= j < r.value ==> !HasId(store[j], k)
    ensures r.None? <==> forall j :: 0 <= j < |store| ==> !HasId(store[j], k)
  {
    if |store| == 0 then None
    else if HasId(store[0], k) then Some(0)
    else
      assert forall j :: 1 <= j < |store| ==> store[j] == store[1..][j - 1];
      match FirstWithId(store[1..], k)
      case None => None
      case Some(i) => Some(i + 1)
  }

  /** `store.findIndex(c => c.Id === parseInt(id))`; `None` stands for -1. */
  function FindIndex(store: Store, id: Value): (r: Option<nat>)
    ensures r.Some? <==> Present(store, id)
    ensures r.Some? ==> r.value < |store| && HasId(store[r.value], ParseIntOf(id).value)
    ensures r.Some? ==> forall j :: 0 <= j < r.value ==> !HasId(store[j], ParseIntOf(id).value)
  {
    match ParseIntOf(id)
    case None => None
    case Some(k) => FirstWithId(store, k)
  }

  /** Some record has `Id === parseInt(id)`. */
  predicate Present(store: Store, id: Value) {
    ParseIntOf(id).Some? && exists j :: 0 <= j < |store| && HasId(store[j], ParseIntOf(id).value)
  }

  lemma FindIndexIffPresent(store: Store, id: Value)
    ensures FindIndex(store, id).Some? <==> Present(store, id)
    ensures FindIndex(store, id).Some? ==>
      FindIndex(store, id).value < |store| && HasId(store[FindIndex(store, id).value], ParseIntOf(id).value)
  {
  }

  /** The text of the thrown `Error`: `${entity} with ID ${id} not found`. */
  function NotFoundMessage(entity: string, id: Value): string {
    entity + " with ID " + ToStr(id) + " not found"
  }

  /** `getAll`: a copy of the store, which stays as it was. */
  function GetAll(store: Store): (r: Reply<seq<Record>>)
    ensures r.store == store
    ensures r.out.Ok? && r.out.value == store
  {
    Reply(store, Ok(store))
  }

  /** `getById`: the first record whose `Id` is `parseInt(id)`, or the error. */
  function GetById(store: Store, id: Value, entity: string): (r: Reply<Record>)
    ensures r.store == store
    ensures r.out.Ok? <==> Present(store, id)
    ensures r.out.Ok? ==> r.out.value in store && HasId(r.out.value, ParseIntOf(id).value)
    ensures r.out.Ok? ==>
      var i := FindIndex(store, id).value;
      r.out.value == store[i] && forall j :: 0 <= j < i ==> !HasId(store[j], ParseIntOf(id).value)
    ensures r.out.NotFound? ==> r.out.message == NotFoundMessage(entity, id)
  {
    FindIndexIffPresent(store, id);
    match FindIndex(store, id)
    case None => Reply(store, NotFound(NotFoundMessage(entity, id)))
    case Some(i) => Reply(store, Ok(store[i]))
  }

  /** In a well-formed store the record found is the only one with that `Id`. */
  lemma GetByIdUnique(store: Store, id: Value, entity: string, j: nat)
    requires WellFormed(store)
    requires j < |store| && ParseIntOf(id).Some? && HasId(store[j], ParseIntOf(id).value)
    ensures GetById(store, id, entity).out == Ok(store[j])
  {
  }

  /** With two records sharing an `Id`, `find` returns the earlier one. */
  lemma GetByIdReturnsFirstOfDuplicates(a: Record, b: Record, entity: string)
    requires HasId(a, 1) && HasId(b, 1)
    ensures GetById([a, b], Num(1), entity).out == Ok(a)
  {
  }

  // ---- Id assignment -------------------------------------------------------

  /** The largest numeric `Id` in the store, if there is one. */
  function MaxId(store: Store): (m: Option<int>)
    ensures m.None? <==> forall i :: 0 <= i < |store| ==> !IdOf(store[i]).Num?
    ensures m.Some? ==> exists i :: 0 <= i < |store| && HasId(store[i], m.value)
    ensures m.Some? ==> forall i :: 0 <= i < |store| && IdOf(store[i]).Num? ==> IdOf(store[i]).n <= m.value
  {
    if |store| == 0 then None
    else
      assert forall j :: 1 <= j < |store| ==> store[j] == store[1..][j - 1];
      var rest := MaxId(store[1..]);
      var here := IdOf(store[0]);
      if !here.Num? then rest
      else if rest.None? || rest.value < here.n then Some(here.n)
      else rest
  }

  /** The `Id` the corrected `create` assigns: one more than the largest
      existing `Id`, and 1 in a store without one. */
  function NextId(store: Store): (n: int)
    ensures forall i :: 0 <= i < |store| && IdOf(store[i]).Num? ==> IdOf(store[i]).n < n
    ensures (forall i :: 0 <= i < |store| ==> !IdOf(store[i]).Num?) ==> n == 1
    ensures (exists i :: 0 <= i < |store| && IdOf(store[i]).Num?) ==>
      exists i :: 0 <= i < |store| && HasId(store[i], n - 1)
  {
    match MaxId(store)
    case None => 1
    case Some(m) => m + 1
  }

  /** The number `Math.max` sees for an argument: `null` is 0, `false` and
      `true` are 0 and 1, numbers and infinities are themselves, `undefined`
      is `NaN`. Strings and objects are not modelled and are taken as `NaN`. */
  function ToNumber(v: Value): (r: Value)
    ensures r.Num? || r.NaN? || r.Infinity?
    ensures v.Num? || v.Infinity? ==> r == v
    ensures v.Null? ==> r == Num(0)
    ensures v.Bool? ==> r == Num(if v.b then 1 else 0)
    ensures !(v.Null? || v.Bool? || v.Num? || v.Infinity?) ==> r == NaN
  {
    match v
    case Null => Num(0)
    case Bool(b) => Num(if b then 1 else 0)
    case Num(_) => v
    case Infinity(_) => v
    case _ => NaN
  }

  /** `y <= x` on numbers and infinities. */
  predicate NumLe(y: Value, x: Value) {
    x == Infinity(false) || y == Infinity(true) || (x.Num? && y.Num? && y.n <= x.n)
  }

  /** `Math.max(a, b)`: both arguments are converted to numbers, and a `NaN`
      on either side gives `NaN`. */
  function JsMax2(a: Value, b: Value): (r: Value)
    ensures r.NaN? <==> ToNumber(a).NaN? || ToNumber(b).NaN?
    ensures !r.NaN? ==> r == ToNumber(a) || r == ToNumber(b)
    ensures !r.NaN? ==> NumLe(ToNumber(a), r) && NumLe(ToNumber(b), r)
  {
    var x := ToNumber(a);
    var y := ToNumber(b);
    if x.NaN? || y.NaN? then NaN
    else if x == Infinity(false) || y == Infinity(false) then Infinity(false)
    else if x == Infinity(true) then y
    else if y == Infinity(true) then x
    else if x.n < y.n then y
    else x
  }

  /** `Math.max(...vs)`: `-Infinity` for no arguments, `NaN` as soon as one
      argument is not a number, else the largest argument. */
  function JsMax(vs: seq<Value>): (r: Value)
    ensures |vs| == 0 ==> r == Infinity(true)
    ensures r.NaN? <==> exists i :: 0 <= i < |vs| && ToNumber(vs[i]).NaN?
    ensures !r.NaN? ==> forall i :: 0 <= i < |vs| ==> NumLe(ToNumber(vs[i]), r)
    ensures !r.NaN? && |vs| > 0 ==> exists i :: 0 <= i < |vs| && r == ToNumber(vs[i])
  {
    if |vs| == 0 then Infinity(true)
    else
      var rest := JsMax(vs[1..]);
      assert forall i :: 1 <= i < |vs| ==> vs[i] == vs[1..][i - 1];
      var r := JsMax2(vs[0], rest);
      assert !r.NaN? ==> exists i :: 0 <= i < |vs| && r == ToNumber(vs[i]) by {
        if !r.NaN? && r != ToNumber(vs[0]) {
          var j :| 0 <= j < |vs[1..]| && rest == ToNumber(vs[1..][j]);
          assert r == ToNumber(vs[j + 1]);
        }
      }
      r
  }

  /** `v + 1` on numbers and infinities. */
  function PlusOne(v: Value): Value {
    match v
    case Num(n) => Num(n + 1)
    case Infinity(_) => v
    case _ => NaN
  }

  /** The `Id` that `create` assigns: `Math.max(...store.map(c => c.Id)) + 1`.
      It is `-Infinity` on an empty store, `NaN` as soon as one `Id` is not a
      number, and otherwise one more than the largest `Id`. */
  function NextIdAsWritten(store: Store): (r: Value)
    ensures store == [] ==> r == Infinity(true)
    ensures r.NaN? <==> exists i :: 0 <= i < |store| && ToNumber(IdOf(store[i])).NaN?
    ensures r.Num? ==> forall i :: 0 <= i < |store| && ToNumber(IdOf(store[i])).Num? ==> ToNumber(IdOf(store[i])).n < r.n
    ensures r.Num? ==> exists i :: 0 <= i < |store| && ToNumber(IdOf(store[i])) == Num(r.n - 1)
  {
    var ids := Ids(store);
    var m := JsMax(ids);
    assert forall i :: 0 <= i < |store| ==> ids[i] == IdOf(store[i]);
    assert m.Num? ==> exists i :: 0 <= i < |store| && ToNumber(IdOf(store[i])) == m by {
      if m.Num? {
        var j :| 0 <= j < |ids| && m == ToNumber(ids[j]);
        assert ToNumber(IdOf(store[j])) == m;
      }
    }
    PlusOne(m)
  }

  lemma {:induction false} JsMaxOfNumericIds(store: Store)
    requires |store| > 0
    requires forall i :: 0 <= i < |store| ==> IdOf(store[i]).Num?
    ensures MaxId(store).Some? && JsMax(Ids(store)) == Num(MaxId(store).value)
  {
    assert Ids(store)[1..] == Ids(store[1..]);
    var n := IdOf(store[0]).n;
    assert JsMax(Ids(store)) == JsMax2(Num(n), JsMax(Ids(store[1..])));
    if |store| > 1 {
      assert forall i :: 0 <= i < |store[1..]| ==> store[1..][i] == store[i + 1];
      JsMaxOfNumericIds(store[1..]);
      var m := MaxId(store[1..]).value;
      assert JsMax2(Num(n), Num(m)) == Num(if n < m then m else n);
    } else {
      assert JsMax(Ids(store[1..])) == Infinity(true);
    }
  }

  /** On a store with at least one record and numeric `Id`s the `Id` that
      `create` assigns and the corrected one coincide. */
  lemma NextIdAgreesOnNonEmpty(store: Store)
    requires |store| > 0
    requires forall i :: 0 <= i < |store| ==> IdOf(store[i]).Num?
    ensures NextIdAsWritten(store) == Num(NextId(store))
  {
    JsMaxOfNumericIds(store);
  }

  /** The record `create` stores: `{...data, Id: newId, ...overrides}`. */
  function NewRecord(data: Record, newId: Value, overrides: Record): Record {
    Spread(Spread(data, map["Id" := newId]), overrides)
  }

  /** `create` as written: the new record gets `Math.max(...ids) + 1` and goes first. */
  function CreateAsWritten(store: Store, data: Record, overrides: Record): (r: Reply<Record>)
    requires "Id" !in overrides
    ensures r.out.Ok? && r.store == [r.out.value] + store
    ensures IdOf(r.out.value) == NextIdAsWritten(store)
  {
    var rec := NewRecord(data, NextIdAsWritten(store), overrides);
    Reply([rec] + store, Ok(rec))
  }

  /** On an empty store `Math.max()` is `-Infinity`, so `create` stamps the
      record with `Id = -Infinity`: `getById` of that `Id` cannot find it
      (`parseInt("-Infinity")` is `NaN`), and the next `create` assigns
      `-Infinity` again, so `Id`s are no longer unique. */
  lemma CreateOnEmptyStoreAsWritten(d1: Record, d2: Record, overrides: Record, entity: string)
    requires "Id" !in overrides
    ensures NextIdAsWritten([]) == Infinity(true)
    ensures var s1 := CreateAsWritten([], d1, overrides).store;
      && GetById(s1, IdOf(s1[0]), entity).out.NotFound?
      && var s2 := CreateAsWritten(s1, d2, overrides).store;
      && |s2| == 2 && IdOf(s2[0]) == IdOf(s2[1]) == Infinity(true)
      && !WellFormed(s2)
  {
    var s1 := CreateAsWritten([], d1, overrides).store;
    assert Ids(s1) == [Infinity(true)];
    assert JsMax(Ids(s1)) == Infinity(true);
    var s2 := CreateAsWritten(s1, d2, overrides).store;
    assert s2[1] == s1[0];
  }

  /** `create`, with `Id`s starting at 1 in an empty store: the new record is
      `{...data, Id: newId, ...overrides}` and is put in front of the others. */
  function Create(store: Store, data: Record, overrides: Record): (r: Reply<Record>)
    requires "Id" !in overrides
    ensures r.out.Ok?
    ensures |r.store| == |store| + 1 && r.store[0] == r.out.value && r.store[1..] == store
    ensures HasId(r.out.value, NextId(store))
    ensures r.out.value.Keys == data.Keys + overrides.Keys + {"Id"}
    ensures forall k :: k in overrides ==> r.out.value[k] == overrides[k]
    ensures forall k :: k in data && k !in overrides && k != "Id" ==> r.out.value[k] == data[k]
  {
    var rec := NewRecord(data, Num(NextId(store)), overrides);
    assert ([rec] + store)[1..] == store;
    Reply([rec] + store, Ok(rec))
  }

  lemma CreatePreservesWellFormed(store: Store, data: Record, overrides: Record)
    requires "Id" !in overrides
    requires WellFormed(store)
    ensures WellFormed(Create(store, data, overrides).store)
  {
    var s := Create(store, data, overrides).store;
    forall i, j | 0 <= i < j < |s|
      ensures IdOf(s[i]) != IdOf(s[j])
    {
      assert s[j] == store[j - 1];
      if i > 0 {
        assert s[i] == store[i - 1];
      }
    }
  }

  /** What `create` returned can be read back with `getById`. */
  lemma CreateThenGetById(store: Store, data: Record, overrides: Record, entity: string)
    requires "Id" !in overrides
    requires WellFormed(store)
    ensures var r := Create(store, data, overrides);
      GetById(r.store, Num(NextId(store)), entity).out == Ok(r.out.value)
  {
    var r := Create(store, data, overrides);
    CreatePreservesWellFormed(store, data, overrides);
    GetByIdUnique(r.store, Num(NextId(store)), entity, 0);
  }

  /** Two creates in a row list the second record before the first. */
  lemma NewestFirst(store: Store, d1: Record, d2: Record, overrides: Record)
    requires "Id" !in overrides
    ensures var r1 := Create(store, d1, overrides);
      var r2 := Create(r1.store, d2, overrides);
      r2.store[0] == r2.out.value && r2.store[1] == r1.out.value && r2.store[2..] == store
  {
    var r1 := Create(store, d1, overrides);
    var r2 := Create(r1.store, d2, overrides);
    assert r2.store[2..] == r2.store[1..][1..];
  }

  /** The merged record `update` stores:
      `{...old, ...data, Id: parseInt(id), ...overrides}`. */
  function Merged(prev: Record, data: Record, k: int, overrides: Record): (r: Record)
    requires "Id" !in overrides
    ensures HasId(r, k)
    ensures r.Keys == prev.Keys + data.Keys + overrides.Keys + {"Id"}
    ensures forall key :: key in overrides ==> r[key] == overrides[key]
    ensures forall key :: key in data && key !in overrides && key != "Id" ==> r[key] == data[key]
    ensures forall key :: key in prev && key !in data && key !in overrides && key != "Id" ==> r[key] == prev[key]
  {
    Spread(Spread(Spread(prev, data), map["Id" := Num(k)]), overrides)
  }

  /** `update`: the first record with `Id === parseInt(id)` is replaced by the
      shallow merge of it and `data`, keeping that `Id`; an unknown `Id` throws
      and leaves the store as it was. */
  function Update(store: Store, id: Value, data: Record, overrides: Record, entity: string): (r: Reply<Record>)
    requires "Id" !in overrides
    ensures r.out.Ok? <==> Present(store, id)
    ensures r.out.NotFound? ==> r.store == store && r.out.message == NotFoundMessage(entity, id)
    ensures r.out.Ok? ==>
      var i := FindIndex(store, id).value;
      && i < |store|
      && |r.store| == |store|
      && r.store[i] == r.out.value
      && (forall j :: 0 <= j < |store| && j != i ==> r.store[j] == store[j])
      && IdOf(r.out.value) == IdOf(store[i]) == Num(ParseIntOf(id).value)
      && r.out.value.Keys == store[i].Keys + data.Keys + overrides.Keys + {"Id"}
      && (forall k :: k in overrides ==> r.out.value[k] == overrides[k])
      && (forall k :: k in data && k !in overrides && k != "Id" ==> r.out.value[k] == data[k])
      && (forall k :: k in store[i] && k !in data && k !in overrides ==> r.out.value[k] == store[i][k])
  {
    FindIndexIffPresent(store, id);
    match FindIndex(store, id)
    case None => Reply(store, NotFound(NotFoundMessage(entity, id)))
    case Some(i) =>
      var rec := Merged(store[i], data, ParseIntOf(id).value, overrides);
      assert "Id" in store[i] ==> store[i]["Id"] == rec["Id"];
      Reply(store[i := rec], Ok(rec))
  }

  lemma UpdatePreservesWellFormed(store: Store, id: Value, data: Record, overrides: Record, entity: string)
    requires "Id" !in overrides
    requires WellFormed(store)
    ensures WellFormed(Update(store, id, data, overrides, entity).store)
  {
    var r := Update(store, id, data, overrides, entity);
    if r.out.Ok? {
      assert forall j :: 0 <= j < |store| ==> IdOf(r.store[j]) == IdOf(store[j]);
    }
  }

  /** `delete`: the first record with `Id === parseInt(id)` is cut out and
      returned, the others keep their order; an unknown `Id` throws. */
  function Delete(store: Store, id: Value, entity: string): (r: Reply<Record>)
    ensures r.out.Ok? <==> Present(store, id)
    ensures r.out.NotFound? ==> r.store == store && r.out.message == NotFoundMessage(entity, id)
    ensures r.out.Ok? ==>
      var i := FindIndex(store, id).value;
      && i < |store|
      && r.out.value == store[i]
      && HasId(r.out.value, ParseIntOf(id).value)
      && r.store == store[..i] + store[i + 1..]
      && |r.store| == |store| - 1
  {
    FindIndexIffPresent(store, id);
    match FindIndex(store, id)
    case None => Reply(store, NotFound(NotFoundMessage(entity, id)))
    case Some(i) => Reply(store[..i] + store[i + 1..], Ok(store[i]))
  }

  lemma DeletePreservesWellFormed(store: Store, id: Value, entity: string)
    requires WellFormed(store)
    ensures WellFormed(Delete(store, id, entity).store)
  {
    var r := Delete(store, id, entity);
    if r.out.Ok? {
      CutPreservesWellFormed(store, FindIndex(store, id).value);
    }
  }

  /** Cutting one record out of a well-formed store leaves it well formed. */
  lemma CutPreservesWellFormed(store: Store, i: nat)
    requires WellFormed(store) && i < |store|
    ensures WellFormed(store[..i] + store[i + 1..])
  {
    var s := store[..i] + store[i + 1..];
    assert forall a :: 0 <= a < i ==> s[a] == store[a];
    assert forall a :: i <= a < |s| ==> s[a] == store[a + 1];
    forall a, b | 0 <= a < b < |s|
      ensures IdOf(s[a]) != IdOf(s[b])
    {
      var a' := if a < i then a else a + 1;
      var b' := if b < i then b else b + 1;
      assert s[a] == store[a'] && s[b] == store[b'];
    }
  }

  /** In a well-formed store a deleted `Id` is gone: `getById` then throws. */
  lemma DeleteThenGetById(store: Store, id: Value, entity: string)
    requires WellFormed(store)
    requires Present(store, id)
    ensures !Present(Delete(store, id, entity).store, id)
  {
    var r := Delete(store, id, entity);
    var i := FindIndex(store, id).value;
    CutDropsId(store, i, ParseIntOf(id).value, r.store);
  }

  /** Cutting out the record with `Id` `k` leaves no record with that `Id`. */
  lemma CutDropsId(store: Store, i: nat, k: int, s: Store)
    requires WellFormed(store) && i < |store| && HasId(store[i], k)
    requires s == store[..i] + store[i + 1..]
    ensures forall j :: 0 <= j < |s| ==> !HasId(s[j], k)
  {
    forall j | 0 <= j < |s|
      ensures !HasId(s[j], k)
    {
      var j' := if j < i then j else j + 1;
      assert s[j] == store[j'];
      if j' < i {
        assert IdOf(store[j']) != IdOf(store[i]);
      } else {
        assert IdOf(store[i]) != IdOf(store[j']);
      }
    }
  }
}
