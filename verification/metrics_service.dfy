/** The mock metrics service. Unlike the other stores, metrics carry no `Id`:
    they are addressed by their position in the list. */
module MetricsService {
  import opened JsText
  import opened JsValue
  import opened IdStore

  /** The error every out-of-range operation throws. */
  function MissingMessage(index: int): string {
    "Metric at index " + IntToString(index) + " not found"
  }

  predicate InRange(store: Store, index: int) {
    0 <= index < |store|
  }

  /** `getAll`: a copy of the whole list. */
  function GetAll(store: Store): (r: Reply<seq<Record>>)
    ensures r.store == store && r.out == Ok(store)
  {
    Reply(store, Ok(store))
  }

  /** `getById(index)`: the metric in that slot; a missing slot reads as
      `undefined`, which is falsy, and throws. Every stored metric is an
      object and so truthy. */
  function GetById(store: Store, index: int): (r: Reply<Record>)
    ensures r.store == store
    ensures r.out.Ok? <==> InRange(store, index)
    ensures r.out.Ok? ==> r.out.value == store[index]
    ensures r.out.NotFound? ==> r.out.message == MissingMessage(index)
  {
    if InRange(store, index) then Reply(store, Ok(store[index]))
    else Reply(store, NotFound(MissingMessage(index)))
  }

  /** `create`: a copy of the data is appended at the end. */
  function Create(store: Store, data: Record): (r: Reply<Record>)
    ensures r.out == Ok(data)
    ensures |r.store| == |store| + 1
    ensures r.store[..|store|] == store && r.store[|store|] == data
  {
    Reply(store + [data], Ok(data))
  }

  /** `update(index, data)`: the slot becomes `{...old, ...data}`; an index
      outside `0 .. length-1` throws and changes nothing. */
  function Update(store: Store, index: int, data: Record): (r: Reply<Record>)
    ensures r.out.Ok? <==> InRange(store, index)
    ensures r.out.NotFound? ==> r.store == store && r.out.message == MissingMessage(index)
    ensures r.out.Ok? ==>
      && |r.store| == |store|
      && r.store[index] == r.out.value
      && (forall j :: 0 <= j < |store| && j != index ==> r.store[j] == store[j])
      && r.out.value.Keys == store[index].Keys + data.Keys
      && (forall k :: k in data ==> r.out.value[k] == data[k])
      && (forall k :: k in store[index] && k !in data ==> r.out.value[k] == store[index][k])
  {
    if !InRange(store, index) then Reply(store, NotFound(MissingMessage(index)))
    else
      var updated := Spread(store[index], data);
      Reply(store[index := updated], Ok(updated))
  }

  /** `delete(index)`: the slot is spliced out and its metric returned; the
      metrics after it move up one place. */
  function Delete(store: Store, index: int): (r: Reply<Record>)
    ensures r.out.Ok? <==> InRange(store, index)
    ensures r.out.NotFound? ==> r.store == store && r.out.message == MissingMessage(index)
    ensures r.out.Ok? ==>
      && r.out.value == store[index]
      && |r.store| == |store| - 1
      && (forall j :: 0 <= j < index ==> r.store[j] == store[j])
      && (forall j :: index <= j < |r.store| ==> r.store[j] == store[j + 1])
  {
    if !InRange(store, index) then Reply(store, NotFound(MissingMessage(index)))
    else Reply(store[..index] + store[index + 1..], Ok(store[index]))
  }

  /** A created metric is found at the old length, the only new index. */
  lemma CreateThenGetById(store: Store, data: Record)
    ensures var s := Create(store, data).store;
      && GetById(s, |store|).out == Ok(data)
      && GetById(s, |store| + 1).out.NotFound?
  {
  }

  /** Reading a slot after updating it gives the merged metric. */
  lemma UpdateThenGetById(store: Store, index: int, data: Record)
    requires InRange(store, index)
    ensures var r := Update(store, index, data);
      GetById(r.store, index).out == r.out
  {
  }

  /** Delete removes exactly the returned metric: what is left, together with
      it, is the collection that was there before. */
  lemma DeleteKeepsOthers(store: Store, index: int)
    requires InRange(store, index)
    ensures var r := Delete(store, index);
      multiset(r.store) + multiset{r.out.value} == multiset(store)
  {
    assert store == store[..index] + [store[index]] + store[index + 1..];
  }

  /** Updating a slot with its own contents changes nothing. */
  lemma UpdateWithOwnContentsIsNoChange(store: Store, index: int)
    requires InRange(store, index)
    ensures Update(store, index, store[index]).store == store
  {
    var r := Update(store, index, store[index]);
    assert r.out.value == store[index];
  }
}
