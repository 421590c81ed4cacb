/** The array idioms the pages and services are written with: `filter` (also
    with a predicate that may throw), `map` replacing one record by `Id`,
    `filter` removing by `Id`, and counting matches. */
module Lists {
  import opened Maybe
  import opened JsValue

  /** `a` is `b` with some elements left out and the rest in their order. */
  predicate IsSubseq<T(==)>(a: seq<T>, b: seq<T>)
    decreases |b|
  {
    || |a| == 0
    || (|b| > 0 && ((a[0] == b[0] && IsSubseq(a[1..], b[1..])) || IsSubseq(a, b[1..])))
  }

  lemma {:induction false} SubseqRefl<T>(a: seq<T>)
    ensures IsSubseq(a, a)
    decreases |a|
  {
    if |a| > 0 {
      SubseqRefl(a[1..]);
    }
  }

  lemma {:induction false} SubseqTrans<T>(a: seq<T>, b: seq<T>, c: seq<T>)
    requires IsSubseq(a, b) && IsSubseq(b, c)
    ensures IsSubseq(a, c)
    decreases |c|
  {
    if |a| > 0 {
      if IsSubseq(b, c[1..]) {
        SubseqTrans(a, b, c[1..]);
      } else {
        assert b[0] == c[0] && IsSubseq(b[1..], c[1..]);
        if a[0] == b[0] && IsSubseq(a[1..], b[1..]) {
          SubseqTrans(a[1..], b[1..], c[1..]);
        } else {
          SubseqTrans(a, b[1..], c[1..]);
        }
      }
    }
  }

  /** Elements of a subsequence come from the original. */
  lemma {:induction false} SubseqMembers<T>(a: seq<T>, b: seq<T>)
    requires IsSubseq(a, b)
    ensures forall x :: x in a ==> x in b
    ensures |a| <= |b|
    decreases |b|
  {
    if |a| > 0 {
      if a[0] == b[0] && IsSubseq(a[1..], b[1..]) {
        SubseqMembers(a[1..], b[1..]);
        assert forall x :: x in a ==> x == a[0] || x in a[1..];
      } else {
        SubseqMembers(a, b[1..]);
      }
    }
  }

  /** `xs.filter(p)`: every copy of a kept element stays, in order. */
  function Filter<T(!new)>(xs: seq<T>, p: T -> bool): (r: seq<T>)
    ensures IsSubseq(r, xs)
    ensures forall x :: x in r <==> x in xs && p(x)
    ensures forall x :: multiset(r)[x] == if p(x) then multiset(xs)[x] else 0
    ensures |r| <= |xs|
  {
    if |xs| == 0 then []
    else
      var rest := Filter(xs[1..], p);
      assert xs == [xs[0]] + xs[1..];
      assert multiset(xs) == multiset{xs[0]} + multiset(xs[1..]);
      if p(xs[0]) then
        assert ([xs[0]] + rest)[1..] == rest;
        [xs[0]] + rest
      else rest
  }

  /** `xs.filter(p)` where evaluating `p` on an element may throw (`None`);
      the whole call then throws. */
  function FilterJS<T(!new)>(xs: seq<T>, p: T -> Option<bool>): (r: Option<seq<T>>)
    ensures r.Some? <==> forall i :: 0 <= i < |xs| ==> p(xs[i]).Some?
    ensures r.Some? ==> IsSubseq(r.value, xs)
    ensures r.Some? ==> forall x :: x in r.value <==> x in xs && p(x) == Some(true)
    ensures r.Some? ==> forall x :: multiset(r.value)[x] == if p(x) == Some(true) then multiset(xs)[x] else 0
  {
    if |xs| == 0 then Some([])
    else
      assert forall i :: 1 <= i < |xs| ==> xs[i] == xs[1..][i - 1];
      assert xs == [xs[0]] + xs[1..];
      assert multiset(xs) == multiset{xs[0]} + multiset(xs[1..]);
      match p(xs[0])
      case None => None
      case Some(keep) =>
        match FilterJS(xs[1..], p)
        case None => None
        case Some(rest) =>
          if keep then
            assert ([xs[0]] + rest)[1..] == rest;
            Some([xs[0]] + rest)
          else Some(rest)
  }

  /** A filter whose predicate never throws is the plain filter. */
  lemma {:induction false} FilterJSTotal<T(!new)>(xs: seq<T>, p: T -> bool)
    ensures FilterJS(xs, x => Some(p(x))) == Some(Filter(xs, p))
  {
    if |xs| > 0 {
      FilterJSTotal(xs[1..], p);
    }
  }

  /** Counting the kept positions from `k` on: the filter of `xs[k..]` has
      one element for each of them. */
  lemma {:induction false} FilterJSLengthFrom<T(!new)>(xs: seq<T>, p: T -> Option<bool>, k: nat)
    requires k <= |xs|
    requires forall i :: k <= i < |xs| ==> p(xs[i]).Some?
    ensures FilterJS(xs[k..], p).Some?
    ensures |FilterJS(xs[k..], p).value| == |set i | k <= i < |xs| && p(xs[i]) == Some(true)|
    decreases |xs| - k
  {
    if k < |xs| {
      FilterJSLengthFrom(xs, p, k + 1);
      FilterJSStep(xs[k..], p);
      assert xs[k..][1..] == xs[k + 1..];
      PositionsStep(xs, p, k);
    }
  }

  /** One step of `FilterJS`: the head adds one element exactly when kept. */
  lemma FilterJSStep<T(!new)>(ys: seq<T>, p: T -> Option<bool>)
    requires |ys| > 0 && p(ys[0]).Some? && FilterJS(ys[1..], p).Some?
    ensures FilterJS(ys, p).Some?
    ensures |FilterJS(ys, p).value| == |FilterJS(ys[1..], p).value| + if p(ys[0]) == Some(true) then 1 else 0
  {
  }

  /** The kept positions from `k` on are those from `k + 1` on, plus `k`
      when its element is kept. */
  lemma PositionsStep<T>(xs: seq<T>, p: T -> Option<bool>, k: nat)
    requires k < |xs|
    ensures |set i | k <= i < |xs| && p(xs[i]) == Some(true)| ==
      |set i | k + 1 <= i < |xs| && p(xs[i]) == Some(true)| + if p(xs[k]) == Some(true) then 1 else 0
  {
    var here := set i | k <= i < |xs| && p(xs[i]) == Some(true);
    var later := set i | k + 1 <= i < |xs| && p(xs[i]) == Some(true);
    assert k !in later;
    if p(xs[k]) == Some(true) {
      assert here == {k} + later;
    } else {
      assert here == later;
    }
  }

  /** The length of a filter that does not throw is the number of positions
      whose element the predicate keeps (`s`). */
  lemma FilterJSLength<T(!new)>(xs: seq<T>, p: T -> Option<bool>, s: set<int>)
    requires FilterJS(xs, p).Some?
    requires forall i :: i in s <==> 0 <= i < |xs| && p(xs[i]) == Some(true)
    ensures |FilterJS(xs, p).value| == |s|
  {
    FilterJSLengthFrom(xs, p, 0);
    assert xs[0..] == xs;
    assert s == set i | 0 <= i < |xs| && p(xs[i]) == Some(true);
  }

  /** Filters by predicates that agree on every element give the same list. */
  lemma {:induction false} FilterExt<T(!new)>(xs: seq<T>, p: T -> bool, q: T -> bool)
    requires forall x :: x in xs ==> p(x) == q(x)
    ensures Filter(xs, p) == Filter(xs, q)
  {
    if |xs| > 0 {
      assert xs[0] in xs;
      assert forall x :: x in xs[1..] ==> x in xs;
      FilterExt(xs[1..], p, q);
    }
  }

  /** A filter that keeps every element is the identity. */
  lemma {:induction false} FilterKeepsAll<T(!new)>(xs: seq<T>, p: T -> bool)
    requires forall x :: x in xs ==> p(x)
    ensures Filter(xs, p) == xs
  {
    if |xs| > 0 {
      assert xs[0] in xs;
      assert forall x :: x in xs[1..] ==> x in xs;
      FilterKeepsAll(xs[1..], p);
    }
  }

  function IdOf(r: Record): Value {
    Get(r, "Id")
  }

  /** `xs.map(x => x.Id === id ? saved : x)` */
  function ReplaceById(xs: seq<Record>, id: Value, saved: Record): (r: seq<Record>)
    ensures |r| == |xs|
    ensures forall i :: 0 <= i < |xs| ==> r[i] == (if StrictEq(IdOf(xs[i]), id) then saved else xs[i])
  {
    seq(|xs|, i requires 0 <= i < |xs| => if StrictEq(IdOf(xs[i]), id) then saved else xs[i])
  }

  /** `xs.filter(x => x.Id !== id)` */
  function RemoveById(xs: seq<Record>, id: Value): (r: seq<Record>)
    ensures IsSubseq(r, xs)
    ensures forall x :: x in r <==> x in xs && !StrictEq(IdOf(x), id)
    ensures forall x :: multiset(r)[x] == if StrictEq(IdOf(x), id) then 0 else multiset(xs)[x]
  {
    Filter(xs, x => !StrictEq(IdOf(x), id))
  }

  /** Removing an `Id` no record carries changes nothing. */
  lemma RemoveAbsentId(xs: seq<Record>, id: Value)
    requires forall x :: x in xs ==> !StrictEq(IdOf(x), id)
    ensures RemoveById(xs, id) == xs
  {
    FilterKeepsAll(xs, x => !StrictEq(IdOf(x), id));
  }

  /** The list after a save: on edit every element with the saved `Id` is
      replaced, on create the saved record goes first. */
  function SaveMerge(xs: seq<Record>, editing: bool, saved: Record): (r: seq<Record>)
    ensures editing ==> |r| == |xs|
    ensures editing ==> forall i :: 0 <= i < |xs| ==>
      r[i] == (if StrictEq(IdOf(xs[i]), IdOf(saved)) then saved else xs[i])
    ensures !editing ==> |r| == |xs| + 1 && r[0] == saved && r[1..] == xs
  {
    if editing then ReplaceById(xs, IdOf(saved), saved) else [saved] + xs
  }

  /** Deleting a record just created with a fresh `Id` gives back the list as
      it was before the create. */
  lemma DeleteUndoesCreate(xs: seq<Record>, saved: Record)
    requires !IdOf(saved).NaN?
    requires forall x :: x in xs ==> IdOf(x) != IdOf(saved)
    ensures RemoveById(SaveMerge(xs, false, saved), IdOf(saved)) == xs
  {
    RemoveAbsentId(xs, IdOf(saved));
    assert ([saved] + xs)[1..] == xs;
  }

  /** Saving an edit of a record already in the list keeps the list of `Id`s. */
  lemma SaveEditKeepsIds(xs: seq<Record>, saved: Record)
    ensures Ids(SaveMerge(xs, true, saved)) == Ids(xs)
  {
    ReplaceByIdKeepsIds(xs, IdOf(saved), saved);
  }

  /** The `Id` of each record, in order. */
  function Ids(xs: seq<Record>): (r: seq<Value>)
    ensures |r| == |xs|
    ensures forall i :: 0 <= i < |xs| ==> r[i] == IdOf(xs[i])
  {
    seq(|xs|, i requires 0 <= i < |xs| => IdOf(xs[i]))
  }

  /** Replacing by `Id` with a record carrying that same `Id` leaves the list
      of `Id`s as it was, so unique `Id`s stay unique. */
  lemma ReplaceByIdKeepsIds(xs: seq<Record>, id: Value, saved: Record)
    requires IdOf(saved) == id
    ensures Ids(ReplaceById(xs, id, saved)) == Ids(xs)
  {
  }

  /** The value of field `k` of each record, in order. */
  function Column(xs: seq<Record>, k: string): seq<Value> {
    if |xs| == 0 then [] else [Get(xs[0], k)] + Column(xs[1..], k)
  }

  /** `xs.filter(x => x[k] === v).length` */
  function CountWhere(xs: seq<Record>, k: string, v: Value): nat {
    |Filter(xs, (x: Record) => StrictEq(Get(x, k), v))|
  }

  /** The count of records whose field `k` is `v` is the number of times `v`
      occurs in that column (`NaN` is never counted). */
  lemma {:induction false} CountWhereIsMultiplicity(xs: seq<Record>, k: string, v: Value)
    ensures CountWhere(xs, k, v) == if v.NaN? then 0 else multiset(Column(xs, k))[v]
  {
    if |xs| > 0 {
      CountWhereIsMultiplicity(xs[1..], k, v);
      assert multiset(Column(xs, k)) == multiset{Get(xs[0], k)} + multiset(Column(xs[1..], k));
    }
  }
}
