/** The mock activity service: the id-keyed store of activities (the fixture
    array itself), stamped with a `timestamp` on create. */
module ActivitiesService {
  import opened Maybe
  import opened JsValue
  import opened Lists
  import opened IdStore

  const Entity := "Activity"

  /** `getAll`: a copy of the list of activities, order kept, store untouched. */
  function GetAll(store: Store): (r: Reply<seq<Record>>)
    ensures r.store == store && r.out == Ok(store)
  {
    IdStore.GetAll(store)
  }

  /** `getById`: throws exactly when no activity has `Id === parseInt(id)`. */
  function GetById(store: Store, id: Value): (r: Reply<Record>)
    ensures r.store == store
    ensures r.out.Ok? <==> Present(store, id)
    ensures r.out.Ok? ==> r.out.value in store && HasId(r.out.value, ParseIntOf(id).value)
    ensures r.out.Ok? ==>
      var i := FindIndex(store, id).value;
      r.out.value == store[i] && forall j :: 0 <= j < i ==> !HasId(store[j], ParseIntOf(id).value)
    ensures r.out.NotFound? ==> r.out.message == "Activity with ID " + ToStr(id) + " not found"
  {
    IdStore.GetById(store, id, Entity)
  }

  /** `create`: the activity gets a fresh `Id` and the `timestamp` of the
      call, and is put first. */
  function Create(store: Store, data: Record, now: string): (r: Reply<Record>)
    ensures r.out.Ok?
    ensures |r.store| == |store| + 1 && r.store[0] == r.out.value && r.store[1..] == store
    ensures HasId(r.out.value, NextId(store))
    ensures forall i :: 0 <= i < |store| ==> IdOf(store[i]) != IdOf(r.out.value)
    ensures Get(r.out.value, "timestamp") == Str(now)
    ensures r.out.value.Keys == data.Keys + {"Id", "timestamp"}
    ensures forall k :: k in data && k !in {"Id", "timestamp"} ==> r.out.value[k] == data[k]
  {
    IdStore.Create(store, data, map["timestamp" := Str(now)])
  }

  /** `update`: plain shallow merge with `Id` kept; only the matched slot
      changes, and an unknown `Id` throws and leaves the store as it was. */
  function Update(store: Store, id: Value, data: Record): (r: Reply<Record>)
    ensures r.out.Ok? <==> Present(store, id)
    ensures r.out.NotFound? ==> r.store == store
    ensures r.out.Ok? ==>
      var i := FindIndex(store, id).value;
      && i < |store| && |r.store| == |store| && r.store[i] == r.out.value
      && (forall j :: 0 <= j < |store| && j != i ==> r.store[j] == store[j])
      && IdOf(r.out.value) == IdOf(store[i])
      && r.out.value.Keys == store[i].Keys + data.Keys + {"Id"}
      && (forall k :: k in data && k != "Id" ==> r.out.value[k] == data[k])
      && (forall k :: k in store[i] && k !in data ==> r.out.value[k] == store[i][k])
  {
    IdStore.Update(store, id, data, map[], Entity)
  }

  /** `delete`: one activity fewer, the matched one; an unknown `Id` throws
      and leaves the store as it was. */
  function Delete(store: Store, id: Value): (r: Reply<Record>)
    ensures r.out.Ok? <==> Present(store, id)
    ensures r.out.NotFound? ==> r.store == store
    ensures r.out.Ok? ==>
      var i := FindIndex(store, id).value;
      && i < |store| && r.out.value == store[i]
      && r.store == store[..i] + store[i + 1..]
      && |r.store| == |store| - 1
  {
    IdStore.Delete(store, id, Entity)
  }

  /** Updating with the record's own fields changes nothing: the merge is
      idempotent on what is already stored. */
  lemma UpdateWithStoredFieldsIsNoChange(store: Store, i: nat)
    requires WellFormed(store)
    requires i < |store|
    ensures Update(store, IdOf(store[i]), store[i]).store == store
  {
    var id := IdOf(store[i]);
    GetByIdUnique(store, id, Entity, i);
    var r := Update(store, id, store[i]);
    assert r.out.value == store[i];
  }
}
