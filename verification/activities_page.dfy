/** The activities page: search and type filter, the newest-first ordering
    of what is shown, and the list merges after a save or a delete. Dates are
    abstracted to the integer a `key` function gives each activity (the
    `Date` value of its `timestamp`). */
module ActivitiesPage {
  import opened Maybe
  import opened JsText
  import opened JsValue
  import opened Lists

  datatype Filters = Filters(search: string, kind: string)

  /** `description?.…includes(q) || type?.…includes(q)` */
  function SearchMatch(a: Record, term: string): Option<bool> {
    OrElse(OptLowerIncludes(Get(a, "description"), term), OptLowerIncludes(Get(a, "type"), term))
  }

  predicate TypeMatch(a: Record, kind: string) {
    StrictEq(Get(a, "type"), Str(kind))
  }

  /** Neither searched field is a non-string, non-nullish value. */
  predicate WellTyped(a: Record) {
    && (Get(a, "description").Str? || Nullish(Get(a, "description")))
    && (Get(a, "type").Str? || Nullish(Get(a, "type")))
  }

  /** On a well-typed activity the search is: the description or the type
      contains the term, ignoring case; a missing field never matches. */
  lemma SearchMatchIff(a: Record, term: string)
    requires WellTyped(a)
    ensures SearchMatch(a, term).Some?
    ensures SearchMatch(a, term) == Some(true) <==>
      || (Get(a, "description").Str? && Includes(ToLower(Get(a, "description").s), ToLower(term)))
      || (Get(a, "type").Str? && Includes(ToLower(Get(a, "type").s), ToLower(term)))
  {
  }

  predicate SearchKept(a: Record, term: string) {
    term != "" ==> SearchMatch(a, term) == Some(true)
  }

  predicate TypeKept(a: Record, kind: string) {
    kind != "all" ==> TypeMatch(a, kind)
  }

  predicate Kept(a: Record, f: Filters) {
    SearchKept(a, f.search) && TypeKept(a, f.kind)
  }

  /** The search step; the whole list when no term is typed. */
  function BySearch(xs: seq<Record>, term: string): (r: Option<seq<Record>>)
    ensures (forall a :: a in xs ==> WellTyped(a)) ==> r.Some?
    ensures r.Some? ==> IsSubseq(r.value, xs)
    ensures r.Some? ==> forall a :: multiset(r.value)[a] == if SearchKept(a, term) then multiset(xs)[a] else 0
  {
    SubseqRefl(xs);
    if term == "" then Some(xs)
    else
      assert forall i :: 0 <= i < |xs| ==> xs[i] in xs;
      FilterJS(xs, a => SearchMatch(a, term))
  }

  /** The type step; the whole list on `"all"`. */
  function ByType(xs: seq<Record>, kind: string): (r: seq<Record>)
    ensures IsSubseq(r, xs)
    ensures forall a :: multiset(r)[a] == if TypeKept(a, kind) then multiset(xs)[a] else 0
  {
    SubseqRefl(xs);
    if kind == "all" then xs else Filter(xs, a => TypeMatch(a, kind))
  }

  /** The two filters of `filterActivities`, before the sort: every copy of
      a kept activity, in order. */
  function Filtered(xs: seq<Record>, f: Filters): (r: Option<seq<Record>>)
    ensures (forall a :: a in xs ==> WellTyped(a)) ==> r.Some?
    ensures r.Some? ==> IsSubseq(r.value, xs)
    ensures r.Some? ==> forall a :: multiset(r.value)[a] == if Kept(a, f) then multiset(xs)[a] else 0
    ensures r.Some? ==> forall a :: a in r.value <==> a in xs && Kept(a, f)
  {
    match BySearch(xs, f.search)
    case None => None
    case Some(b) =>
      var c := ByType(b, f.kind);
      SubseqTrans(c, b, xs);
      assert forall a :: a in c <==> multiset(c)[a] > 0;
      assert forall a :: a in xs <==> multiset(xs)[a] > 0;
      Some(c)
  }

  /** Newest first: keys never increase along the list. */
  predicate SortedDesc(xs: seq<Record>, key: Record -> int) {
    forall i, j :: 0 <= i < j < |xs| ==> key(xs[i]) >= key(xs[j])
  }

  /** Inserts `x` before the first element that is not newer than it, so an
      element already in the list with an equal key stays after `x`. */
  function Insert(x: Record, xs: seq<Record>, key: Record -> int): (r: seq<Record>)
    requires SortedDesc(xs, key)
    ensures SortedDesc(r, key)
    ensures multiset(r) == multiset(xs) + multiset{x}
    ensures |r| == |xs| + 1
    ensures r[0] == x || (|xs| > 0 && r[0] == xs[0])
  {
    if |xs| == 0 then [x]
    else if key(xs[0]) <= key(x) then
      ConsSorted(x, xs, key);
      [x] + xs
    else
      var rest := Insert(x, xs[1..], key);
      assert multiset(xs) == multiset{xs[0]} + multiset(xs[1..]) by {
        assert xs == [xs[0]] + xs[1..];
      }
      assert key(rest[0]) <= key(xs[0]);
      ConsSorted(xs[0], rest, key);
      [xs[0]] + rest
  }

  /** A newest-first list stays newest-first with an element in front that is
      at least as new as its head. */
  lemma ConsSorted(h: Record, t: seq<Record>, key: Record -> int)
    requires SortedDesc(t, key)
    requires |t| > 0 ==> key(t[0]) <= key(h)
    ensures SortedDesc([h] + t, key)
  {
    var r := [h] + t;
    forall i, j | 0 <= i < j < |r|
      ensures key(r[i]) >= key(r[j])
    {
      assert r[j] == t[j - 1];
      if i > 0 {
        assert r[i] == t[i - 1];
      } else {
        assert key(t[0]) >= key(t[j - 1]);
      }
    }
  }

  /** `filtered.sort((a, b) => new Date(b.timestamp) - new Date(a.timestamp))`:
      a stable sort, newest first. */
  function SortNewestFirst(xs: seq<Record>, key: Record -> int): (r: seq<Record>)
    ensures SortedDesc(r, key)
    ensures multiset(r) == multiset(xs)
    ensures |r| == |xs|
  {
    if |xs| == 0 then []
    else
      assert xs == [xs[0]] + xs[1..];
      Insert(xs[0], SortNewestFirst(xs[1..], key), key)
  }

  /** The elements with key `k`, in order. */
  function WithKey(xs: seq<Record>, key: Record -> int, k: int): seq<Record> {
    if |xs| == 0 then []
    else if key(xs[0]) == k then [xs[0]] + WithKey(xs[1..], key, k)
    else WithKey(xs[1..], key, k)
  }

  lemma {:induction false} WithKeyAppend(a: seq<Record>, b: seq<Record>, key: Record -> int, k: int)
    ensures WithKey(a + b, key, k) == WithKey(a, key, k) + WithKey(b, key, k)
    decreases |a|
  {
    if |a| == 0 {
      assert a + b == b;
    } else {
      assert (a + b)[1..] == a[1..] + b;
      WithKeyAppend(a[1..], b, key, k);
    }
  }

  /** Inserting `x` puts it ahead of every element with the same key. */
  lemma {:induction false} InsertWithKey(x: Record, xs: seq<Record>, key: Record -> int, k: int)
    requires SortedDesc(xs, key)
    ensures WithKey(Insert(x, xs, key), key, k) ==
      if key(x) == k then [x] + WithKey(xs, key, k) else WithKey(xs, key, k)
    decreases |xs|
  {
    if |xs| == 0 {
    } else if key(xs[0]) <= key(x) {
      assert ([x] + xs)[1..] == xs;
      if key(x) == k {
      } else if key(xs[0]) == k {
        assert ([x] + xs)[0] == x;
      }
    } else {
      InsertWithKey(x, xs[1..], key, k);
      var rest := Insert(x, xs[1..], key);
      assert ([xs[0]] + rest)[1..] == rest;
      if key(x) == k {
        // xs[0] is strictly newer than x, so it is not among the key-k elements
        assert key(xs[0]) != k;
      }
    }
  }

  /** Stability: activities with the same timestamp keep their relative order. */
  lemma {:induction false} SortIsStable(xs: seq<Record>, key: Record -> int, k: int)
    ensures WithKey(SortNewestFirst(xs, key), key, k) == WithKey(xs, key, k)
    decreases |xs|
  {
    if |xs| > 0 {
      SortIsStable(xs[1..], key, k);
      InsertWithKey(xs[0], SortNewestFirst(xs[1..], key), key, k);
    }
  }

  /** A list already newest first is left as it is. */
  lemma {:induction false} SortSortedIsIdentity(xs: seq<Record>, key: Record -> int)
    requires SortedDesc(xs, key)
    ensures SortNewestFirst(xs, key) == xs
    decreases |xs|
  {
    if |xs| > 0 {
      assert SortedDesc(xs[1..], key);
      SortSortedIsIdentity(xs[1..], key);
      assert xs == [xs[0]] + xs[1..];
      if |xs| > 1 {
        assert key(xs[1]) <= key(xs[0]);
      }
    }
  }

  /** What the list shows: every copy of each kept activity, newest first. */
  function Shown(xs: seq<Record>, f: Filters, key: Record -> int): (r: Option<seq<Record>>)
    ensures (forall a :: a in xs ==> WellTyped(a)) ==> r.Some?
    ensures r.Some? ==> SortedDesc(r.value, key)
    ensures r.Some? ==> forall a :: multiset(r.value)[a] == if Kept(a, f) then multiset(xs)[a] else 0
    ensures r.Some? ==> forall a :: a in r.value <==> a in xs && Kept(a, f)
  {
    match Filtered(xs, f)
    case None => None
    case Some(ys) =>
      var r := SortNewestFirst(ys, key);
      assert forall a :: a in r <==> a in multiset(ys);
      Some(r)
  }

  /** `handleFormSubmit` after a create: the new activity goes first. */
  function Created(xs: seq<Record>, created: Record): (r: seq<Record>)
    ensures |r| == |xs| + 1 && r[0] == created && r[1..] == xs
  {
    SaveMerge(xs, false, created)
  }

  /** `handleFormSubmit` after an update: every entry carrying the `Id` of the
      activity being edited becomes the updated record. */
  function Updated(xs: seq<Record>, editing: Record, updated: Record): (r: seq<Record>)
    ensures |r| == |xs|
    ensures forall i :: 0 <= i < |xs| ==>
      r[i] == (if StrictEq(IdOf(xs[i]), IdOf(editing)) then updated else xs[i])
  {
    ReplaceById(xs, IdOf(editing), updated)
  }

  /** `handleDeleteActivity` */
  function Delete(xs: seq<Record>, activity: Record): (r: seq<Record>)
    ensures IsSubseq(r, xs)
    ensures forall a :: a in r <==> a in xs && !StrictEq(IdOf(a), IdOf(activity))
    ensures forall a :: multiset(r)[a] == if StrictEq(IdOf(a), IdOf(activity)) then 0 else multiset(xs)[a]
  {
    RemoveById(xs, IdOf(activity))
  }

  /** Deleting the activity just created restores the list, when its `Id` was fresh. */
  lemma DeleteAfterCreateRestores(xs: seq<Record>, created: Record)
    requires !IdOf(created).NaN?
    requires forall a :: a in xs ==> IdOf(a) != IdOf(created)
    ensures Delete(Created(xs, created), created) == xs
  {
    DeleteUndoesCreate(xs, created);
  }
}
