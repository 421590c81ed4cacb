/** The mock company service: the id-keyed store of companies, with
    `employees` and `mrr` coerced to integers on every create and update. */
module CompanyService {
  import opened Maybe
  import opened JsText
  import opened JsValue
  import opened Lists
  import opened IdStore

  const Entity := "Company"

  /** `employees: parseInt(data.employees) || 1, mrr: parseInt(data.mrr) || 0` */
  function Counts(data: Record): (o: Record)
    ensures o.Keys == {"employees", "mrr"}
    ensures o["employees"].Num? && o["employees"].n != 0
    ensures o["employees"] == Num(ParseIntOr(Get(data, "employees"), 1))
    ensures o["mrr"] == Num(ParseIntOr(Get(data, "mrr"), 0))
  {
    map["employees" := Num(ParseIntOr(Get(data, "employees"), 1)),
        "mrr" := Num(ParseIntOr(Get(data, "mrr"), 0))]
  }

  /** `getAll`: a copy of the list of companies, order kept, store untouched. */
  function GetAll(store: Store): (r: Reply<seq<Record>>)
    ensures r.store == store && r.out == Ok(store)
  {
    IdStore.GetAll(store)
  }

  /** `getById`: the company whose `Id` is `parseInt(id)`; throws when there is none. */
  function GetById(store: Store, id: Value): (r: Reply<Record>)
    ensures r.store == store
    ensures r.out.Ok? <==> Present(store, id)
    ensures r.out.Ok? ==> r.out.value in store && HasId(r.out.value, ParseIntOf(id).value)
    ensures r.out.Ok? ==>
      var i := FindIndex(store, id).value;
      r.out.value == store[i] && forall j :: 0 <= j < i ==> !HasId(store[j], ParseIntOf(id).value)
    ensures r.out.NotFound? ==> r.out.message == "Company with ID " + ToStr(id) + " not found"
  {
    IdStore.GetById(store, id, Entity)
  }

  /** `create`: the company gets a fresh `Id`, a `createdAt` stamp and
      integer counts, and is put first. */
  function Create(store: Store, data: Record, now: string): (r: Reply<Record>)
    ensures r.out.Ok?
    ensures |r.store| == |store| + 1 && r.store[0] == r.out.value && r.store[1..] == store
    ensures HasId(r.out.value, NextId(store))
    ensures forall i :: 0 <= i < |store| ==> IdOf(store[i]) != IdOf(r.out.value)
    ensures Get(r.out.value, "createdAt") == Str(now)
    ensures Get(r.out.value, "employees") == Num(ParseIntOr(Get(data, "employees"), 1))
    ensures Get(r.out.value, "mrr") == Num(ParseIntOr(Get(data, "mrr"), 0))
    ensures forall k :: k in data && k !in {"Id", "createdAt", "employees", "mrr"} ==>
      Get(r.out.value, k) == data[k]
  {
    IdStore.Create(store, data, Counts(data)["createdAt" := Str(now)])
  }

  /** `update`: shallow merge over the stored company, `Id` kept, counts
      recomputed from `data` alone; an unknown `Id` throws. */
  function Update(store: Store, id: Value, data: Record): (r: Reply<Record>)
    ensures r.out.Ok? <==> Present(store, id)
    ensures r.out.NotFound? ==> r.store == store
    ensures r.out.Ok? ==>
      var i := FindIndex(store, id).value;
      && i < |store| && |r.store| == |store| && r.store[i] == r.out.value
      && (forall j :: 0 <= j < |store| && j != i ==> r.store[j] == store[j])
      && IdOf(r.out.value) == IdOf(store[i])
      && Get(r.out.value, "employees") == Num(ParseIntOr(Get(data, "employees"), 1))
      && Get(r.out.value, "mrr") == Num(ParseIntOr(Get(data, "mrr"), 0))
      && (forall k :: k in data && k !in {"Id", "employees", "mrr"} ==> Get(r.out.value, k) == data[k])
      && (forall k :: k in store[i] && k !in data && k !in {"employees", "mrr"} ==>
            Get(r.out.value, k) == store[i][k])
  {
    var r := IdStore.Update(store, id, data, Counts(data), Entity);
    if r.out.NotFound? then r
    else
      UpdatedFields(r.out.value, store[FindIndex(store, id).value], data);
      r
  }

  /** The fields of the merge `{...company, ...data, Id, employees, mrr}`, read
      with `Get`. */
  lemma UpdatedFields(rec: Record, prev: Record, data: Record)
    requires rec.Keys == prev.Keys + data.Keys + Counts(data).Keys + {"Id"}
    requires forall k :: k in Counts(data) ==> rec[k] == Counts(data)[k]
    requires forall k :: k in data && k !in Counts(data) && k != "Id" ==> rec[k] == data[k]
    requires forall k :: k in prev && k !in data && k !in Counts(data) ==> rec[k] == prev[k]
    ensures Get(rec, "employees") == Num(ParseIntOr(Get(data, "employees"), 1))
    ensures Get(rec, "mrr") == Num(ParseIntOr(Get(data, "mrr"), 0))
    ensures forall k :: k in data && k !in {"Id", "employees", "mrr"} ==> Get(rec, k) == data[k]
    ensures forall k :: k in prev && k !in data && k !in {"employees", "mrr"} ==> Get(rec, k) == prev[k]
  {
    assert forall k :: k in Counts(data) <==> k == "employees" || k == "mrr";
  }

  /** An update that leaves out the counts resets them to 1 employee and 0 MRR. */
  lemma UpdateWithoutCountsResetsThem(store: Store, id: Value, data: Record)
    requires Present(store, id)
    requires "employees" !in data && "mrr" !in data
    ensures Get(Update(store, id, data).out.value, "employees") == Num(1)
    ensures Get(Update(store, id, data).out.value, "mrr") == Num(0)
  {
  }

  /** `delete`: the matching company is removed and returned; throws when there is none. */
  function Delete(store: Store, id: Value): (r: Reply<Record>)
    ensures r.out.Ok? <==> Present(store, id)
    ensures r.out.NotFound? ==> r.store == store
    ensures r.out.Ok? ==>
      var i := FindIndex(store, id).value;
      && i < |store| && r.out.value == store[i]
      && r.store == store[..i] + store[i + 1..]
  {
    IdStore.Delete(store, id, Entity)
  }

  /** Creating a company from the form's submitted values stores the numbers
      the form typed in: `employees: "50", mrr: "1000"` become 50 and 1000. */
  lemma CreateCoercesNumericText(store: Store, data: Record, now: string)
    requires Get(data, "employees") == Str("50") && Get(data, "mrr") == Str("1000")
    ensures Get(Create(store, data, now).out.value, "employees") == Num(50)
    ensures Get(Create(store, data, now).out.value, "mrr") == Num(1000)
  {
    ParsesFifty();
    ParsesThousand();
    assert ParseIntOr(Str("50"), 1) == 50;
    assert ParseIntOr(Str("1000"), 0) == 1000;
  }

  lemma ParsesFifty()
    ensures ParseIntOf(Str("50")) == Some(50)
  {
    ParseIntOfIntToString(50);
    PrintsFifty();
  }

  lemma PrintsFifty()
    ensures IntToString(50) == "50"
  {
    assert DigitChar(5) == '5' && DigitChar(0) == '0';
    assert NatToString(5) == "5";
  }

  lemma ParsesThousand()
    ensures ParseIntOf(Str("1000")) == Some(1000)
  {
    ParseIntOfIntToString(1000);
    PrintsThousand();
  }

  lemma PrintsThousand()
    ensures IntToString(1000) == "1000"
  {
    PrintsHundred();
    assert DigitChar(0) == '0';
    assert NatToString(1000) == NatToString(100) + "0";
  }

  lemma PrintsHundred()
    ensures NatToString(100) == "100"
  {
    assert DigitChar(1) == '1' && DigitChar(0) == '0';
    assert NatToString(1) == "1";
    assert NatToString(10) == "10";
  }

  /** Every mutation keeps the company `Id`s numeric and distinct. */
  lemma MutationsPreserveWellFormed(store: Store, id: Value, data: Record, now: string)
    requires WellFormed(store)
    ensures WellFormed(Create(store, data, now).store)
    ensures WellFormed(Update(store, id, data).store)
    ensures WellFormed(Delete(store, id).store)
  {
    CreatePreservesWellFormed(store, data, Counts(data)["createdAt" := Str(now)]);
    UpdatePreservesWellFormed(store, id, data, Counts(data), Entity);
    DeletePreservesWellFormed(store, id, Entity);
  }
}
