/** The contacts page: search and status filter over the loaded contacts,
    the per-status counter, and the list merges after a save or a delete. */
module ContactsPage {
  import opened Maybe
  import opened JsText
  import opened JsValue
  import opened Lists

  datatype Filters = Filters(search: string, status: string)

  /** `${firstName} ${lastName}`: each part converted with `String`. */
  function FullName(c: Record): string {
    ToStr(Get(c, "firstName")) + " " + ToStr(Get(c, "lastName"))
  }

  /** The search condition; the full name is always text, while `email` and
      `company` throw (`None`) when they are not. */
  function SearchMatch(c: Record, term: string): Option<bool> {
    OrElse(Some(Includes(ToLower(FullName(c)), ToLower(term))),
           OrElse(LowerIncludes(Get(c, "email"), term), LowerIncludes(Get(c, "company"), term)))
  }

  predicate StatusMatch(c: Record, status: string) {
    StrictEq(Get(c, "status"), Str(status))
  }

  predicate WellTyped(c: Record) {
    Get(c, "email").Str? && Get(c, "company").Str?
  }

  /** On a well-typed contact the search is: the full name, email or company
      contains the term, ignoring case. */
  lemma SearchMatchIff(c: Record, term: string)
    requires WellTyped(c)
    ensures SearchMatch(c, term).Some?
    ensures SearchMatch(c, term) == Some(true) <==>
      || Includes(ToLower(FullName(c)), ToLower(term))
      || Includes(ToLower(Get(c, "email").s), ToLower(term))
      || Includes(ToLower(Get(c, "company").s), ToLower(term))
  {
  }

  /** A first-name match is found before `email` is looked at, so such a
      contact is kept even when its `email` is not text. */
  lemma NameMatchShortCircuits(c: Record, term: string)
    requires Includes(ToLower(FullName(c)), ToLower(term))
    ensures SearchMatch(c, term) == Some(true)
  {
  }

  predicate SearchKept(c: Record, term: string) {
    term != "" ==> SearchMatch(c, term) == Some(true)
  }

  predicate StatusKept(c: Record, status: string) {
    status != "all" ==> StatusMatch(c, status)
  }

  predicate Kept(c: Record, f: Filters) {
    SearchKept(c, f.search) && StatusKept(c, f.status)
  }

  /** The search step; the whole list when no term is typed. */
  function BySearch(cs: seq<Record>, term: string): (r: Option<seq<Record>>)
    ensures (forall c :: c in cs ==> WellTyped(c)) ==> r.Some?
    ensures r.Some? ==> IsSubseq(r.value, cs)
    ensures r.Some? ==> forall c :: multiset(r.value)[c] == if SearchKept(c, term) then multiset(cs)[c] else 0
  {
    SubseqRefl(cs);
    if term == "" then Some(cs)
    else
      assert forall i :: 0 <= i < |cs| ==> cs[i] in cs;
      FilterJS(cs, c => SearchMatch(c, term))
  }

  /** The status step; the whole list on `"all"`. */
  function ByStatus(cs: seq<Record>, status: string): (r: seq<Record>)
    ensures IsSubseq(r, cs)
    ensures forall c :: multiset(r)[c] == if StatusKept(c, status) then multiset(cs)[c] else 0
  {
    SubseqRefl(cs);
    if status == "all" then cs else Filter(cs, c => StatusMatch(c, status))
  }

  /** The filter effect: search when a term is typed, then status; every
      copy of a kept contact stays, in order. */
  function Filtered(cs: seq<Record>, f: Filters): (r: Option<seq<Record>>)
    ensures (forall c :: c in cs ==> WellTyped(c)) ==> r.Some?
    ensures r.Some? ==> IsSubseq(r.value, cs)
    ensures r.Some? ==> forall c :: multiset(r.value)[c] == if Kept(c, f) then multiset(cs)[c] else 0
    ensures r.Some? ==> forall c :: c in r.value <==> c in cs && Kept(c, f)
  {
    match BySearch(cs, f.search)
    case None => None
    case Some(a) =>
      var b := ByStatus(a, f.status);
      SubseqTrans(b, a, cs);
      assert forall c :: c in b <==> multiset(b)[c] > 0;
      assert forall c :: c in cs <==> multiset(cs)[c] > 0;
      Some(b)
  }

  /** The status filter on `"all"` is the identity; any other status keeps
      exactly the contacts with that status. */
  lemma StatusFilterAlone(cs: seq<Record>, status: string)
    ensures status == "all" ==> Filtered(cs, Filters("", status)) == Some(cs)
    ensures status != "all" ==> Filtered(cs, Filters("", status)).Some?
    ensures status != "all" ==>
      forall c :: c in Filtered(cs, Filters("", status)).value <==> c in cs && StatusMatch(c, status)
  {
  }

  /** `getStatusCount(status)`: how often the status occurs in the status column. */
  function StatusCount(cs: seq<Record>, status: string): (n: nat)
    ensures n == multiset(Column(cs, "status"))[Str(status)]
  {
    CountWhereIsMultiplicity(cs, "status", Str(status));
    CountWhere(cs, "status", Str(status))
  }

  /** The counter is the number of rows the status filter alone shows. */
  lemma StatusCountMatchesFilter(cs: seq<Record>, status: string)
    requires status != "all"
    ensures StatusCount(cs, status) == |Filtered(cs, Filters("", status)).value|
  {
    FilterExt(cs, (x: Record) => StrictEq(Get(x, "status"), Str(status)), c => StatusMatch(c, status));
  }

  /** `handleSaveContact`: replace by `Id` after an edit, prepend after a create. */
  function Save(cs: seq<Record>, editing: bool, saved: Record): (r: seq<Record>)
    ensures editing ==> |r| == |cs| && forall i :: 0 <= i < |cs| ==>
      r[i] == (if StrictEq(IdOf(cs[i]), IdOf(saved)) then saved else cs[i])
    ensures !editing ==> r == [saved] + cs
  {
    SaveMerge(cs, editing, saved)
  }

  /** `handleDeleteContact`: every entry with the deleted `Id` goes, nothing else. */
  function Delete(cs: seq<Record>, contact: Record): (r: seq<Record>)
    ensures IsSubseq(r, cs)
    ensures forall c :: c in r <==> c in cs && !StrictEq(IdOf(c), IdOf(contact))
    ensures forall c :: multiset(r)[c] == if StrictEq(IdOf(c), IdOf(contact)) then 0 else multiset(cs)[c]
  {
    RemoveById(cs, IdOf(contact))
  }

  /** Saving an edit keeps every contact's `Id` in its place. */
  lemma SaveEditKeepsOrder(cs: seq<Record>, saved: Record)
    ensures Ids(Save(cs, true, saved)) == Ids(cs)
  {
    SaveEditKeepsIds(cs, saved);
  }
}
