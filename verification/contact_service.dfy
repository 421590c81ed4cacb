/** The mock contact service: the id-keyed store of contacts, with `mrr`
    coerced to an integer on every create and update. */
module ContactService {
  import opened Maybe
  import opened JsValue
  import opened Lists
  import opened IdStore

  const Entity := "Contact"

  /** `mrr: parseInt(data.mrr) || 0` */
  function Revenue(data: Record): (o: Record)
    ensures o.Keys == {"mrr"}
    ensures o["mrr"] == Num(ParseIntOr(Get(data, "mrr"), 0))
  {
    map["mrr" := Num(ParseIntOr(Get(data, "mrr"), 0))]
  }

  /** `getAll`: a copy of the list of contacts, order kept, store untouched. */
  function GetAll(store: Store): (r: Reply<seq<Record>>)
    ensures r.store == store && r.out == Ok(store)
  {
    IdStore.GetAll(store)
  }

  /** `getById`: the contact whose `Id` is `parseInt(id)`; throws when there is none. */
  function GetById(store: Store, id: Value): (r: Reply<Record>)
    ensures r.store == store
    ensures r.out.Ok? <==> Present(store, id)
    ensures r.out.Ok? ==> r.out.value in store && HasId(r.out.value, ParseIntOf(id).value)
    ensures r.out.Ok? ==>
      var i := FindIndex(store, id).value;
      r.out.value == store[i] && forall j :: 0 <= j < i ==> !HasId(store[j], ParseIntOf(id).value)
    ensures r.out.NotFound? ==> r.out.message == "Contact with ID " + ToStr(id) + " not found"
  {
    IdStore.GetById(store, id, Entity)
  }

  /** `create`: the contact gets a fresh `Id`, a `createdAt` stamp and an
      integer `mrr`, and is put first. */
  function Create(store: Store, data: Record, now: string): (r: Reply<Record>)
    ensures r.out.Ok?
    ensures |r.store| == |store| + 1 && r.store[0] == r.out.value && r.store[1..] == store
    ensures HasId(r.out.value, NextId(store))
    ensures forall i :: 0 <= i < |store| ==> IdOf(store[i]) != IdOf(r.out.value)
    ensures Get(r.out.value, "createdAt") == Str(now)
    ensures Get(r.out.value, "mrr") == Num(ParseIntOr(Get(data, "mrr"), 0))
    ensures forall k :: k in data && k !in {"Id", "createdAt", "mrr"} ==> Get(r.out.value, k) == data[k]
  {
    IdStore.Create(store, data, Revenue(data)["createdAt" := Str(now)])
  }

  /** `update`: shallow merge over the stored contact, `Id` kept, `mrr`
      recomputed from `data` alone; an unknown `Id` throws. */
  function Update(store: Store, id: Value, data: Record): (r: Reply<Record>)
    ensures r.out.Ok? <==> Present(store, id)
    ensures r.out.NotFound? ==> r.store == store
    ensures r.out.Ok? ==>
      var i := FindIndex(store, id).value;
      && i < |store| && |r.store| == |store| && r.store[i] == r.out.value
      && (forall j :: 0 <= j < |store| && j != i ==> r.store[j] == store[j])
      && IdOf(r.out.value) == IdOf(store[i])
      && Get(r.out.value, "mrr") == Num(ParseIntOr(Get(data, "mrr"), 0))
      && (forall k :: k in data && k !in {"Id", "mrr"} ==> Get(r.out.value, k) == data[k])
      && (forall k :: k in store[i] && k !in data && k != "mrr" ==> Get(r.out.value, k) == store[i][k])
  {
    IdStore.Update(store, id, data, Revenue(data), Entity)
  }

  /** An update whose data has no `mrr` resets the contact's `mrr` to 0. */
  lemma UpdateWithoutMrrResetsIt(store: Store, id: Value, data: Record)
    requires Present(store, id)
    requires "mrr" !in data
    ensures Get(Update(store, id, data).out.value, "mrr") == Num(0)
  {
  }

  /** `delete`: the matching contact is removed and returned; throws when there is none. */
  function Delete(store: Store, id: Value): (r: Reply<Record>)
    ensures r.out.Ok? <==> Present(store, id)
    ensures r.out.NotFound? ==> r.store == store
    ensures r.out.Ok? ==>
      var i := FindIndex(store, id).value;
      && i < |store| && r.out.value == store[i]
      && r.store == store[..i] + store[i + 1..]
  {
    IdStore.Delete(store, id, Entity)
  }

  /** Every mutation keeps the contact `Id`s numeric and distinct. */
  lemma MutationsPreserveWellFormed(store: Store, id: Value, data: Record, now: string)
    requires WellFormed(store)
    ensures WellFormed(Create(store, data, now).store)
    ensures WellFormed(Update(store, id, data).store)
    ensures WellFormed(Delete(store, id).store)
  {
    CreatePreservesWellFormed(store, data, Revenue(data)["createdAt" := Str(now)]);
    UpdatePreservesWellFormed(store, id, data, Revenue(data), Entity);
    DeletePreservesWellFormed(store, id, Entity);
  }
}
