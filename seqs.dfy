/** Order-preserving de-duplication, the way both validators build the
    derived clue-colour list: walk the input and append what is not there yet. */
module Seqs {
  import opened Wrappers

  predicate NoDuplicates<T(==,!new)>(s: seq<T>) {
    forall i, j :: 0 <= i < j < |s| ==> s[i] != s[j]
  }

  /** The position of the first occurrence of `x` in `s`. */
  function IndexOf<T(==,!new)>(s: seq<T>, x: T): (k: nat)
    requires x in s
    ensures k < |s| && s[k] == x && x !in s[..k]
  {
    if s[0] == x then 0 else 1 + IndexOf(s[1..], x)
  }

  /** `acc` followed by each element of `xs` that is not yet present, in the
      order `xs` has them (a loop calling `includes`/`StringInSlice`, then
      `push`/`append`). */
  function AppendNew<T(==,!new)>(acc: seq<T>, xs: seq<T>): seq<T>
    decreases |xs|
  {
    if xs == [] then acc
    else
      var a := AppendNew(acc, xs[..|xs| - 1]);
      var x := xs[|xs| - 1];
      if x in a then a else a + [x]
  }

  /** Appending keeps `acc` as a prefix, adds exactly the elements of `xs`,
      and adds no repeats. */
  lemma {:induction false} AppendNewSpec<T(!new)>(acc: seq<T>, xs: seq<T>)
    ensures |acc| <= |AppendNew(acc, xs)| && AppendNew(acc, xs)[..|acc|] == acc
    ensures forall x :: x in AppendNew(acc, xs) <==> x in acc || x in xs
    ensures NoDuplicates(acc) ==> NoDuplicates(AppendNew(acc, xs))
    decreases |xs|
  {
    if xs != [] {
      var init, x := xs[..|xs| - 1], xs[|xs| - 1];
      AppendNewSpec(acc, init);
      assert xs == init + [x];
      var a := AppendNew(acc, init);
      if x !in a {
        NoDuplicatesSnoc(a, x);
        assert (a + [x])[..|acc|] == a[..|acc|];
      }
    }
  }

  /** Appending two runs one after the other is appending their concatenation. */
  lemma {:induction false} AppendNewConcat<T(!new)>(acc: seq<T>, xs: seq<T>, ys: seq<T>)
    ensures AppendNew(AppendNew(acc, xs), ys) == AppendNew(acc, xs + ys)
    decreases |ys|
  {
    if ys == [] {
      assert xs + ys == xs;
    } else {
      AppendNewConcat(acc, xs, ys[..|ys| - 1]);
      assert (xs + ys)[..|xs + ys| - 1] == xs + ys[..|ys| - 1];
    }
  }

  /** One more element keeps a sequence free of repeats exactly when it is
      not already there. */
  lemma NoDuplicatesSnoc<T(!new)>(s: seq<T>, x: T)
    ensures NoDuplicates(s + [x]) <==> NoDuplicates(s) && x !in s
  {
    var t := s + [x];
    assert forall i :: 0 <= i < |s| ==> t[i] == s[i];
    if x in s {
      var k := IndexOf(s, x);
      assert t[k] == t[|s|];
    }
  }

  /** Distinct elements of `s`, each at the place it is first seen. */
  function Dedup<T(==,!new)>(s: seq<T>): seq<T> {
    AppendNew([], s)
  }

  /** One more element is appended to the de-duplicated list exactly when it
      is new. */
  lemma DedupSnoc<T(!new)>(s: seq<T>, x: T)
    ensures Dedup(s + [x]) == if x in Dedup(s) then Dedup(s) else Dedup(s) + [x]
  {
    AppendNewConcat([], s, [x]);
    assert [x][..0] == [];
  }

  /** The de-duplicated list has no repeats, holds exactly the elements of
      `s`, and keeps them in the order of their first occurrence in `s`. */
  lemma {:induction false} DedupSpec<T(!new)>(s: seq<T>)
    ensures NoDuplicates(Dedup(s))
    ensures forall x :: x in Dedup(s) <==> x in s
    ensures forall i, j :: 0 <= i < j < |Dedup(s)| ==>
      IndexOf(s, Dedup(s)[i]) < IndexOf(s, Dedup(s)[j])
    decreases |s|
  {
    if s != [] {
      var p := s[..|s| - 1];
      var x := s[|s| - 1];
      assert s == p + [x];
      DedupSpec(p);
      var d := Dedup(p);
      assert AppendNew([], s) == if x in d then d else d + [x];
      forall y | y in p ensures IndexOf(s, y) == IndexOf(p, y) {
        var k := IndexOf(p, y);
        assert s[..k] == p[..k];
      }
      if x !in d {
        assert x !in p;
        assert IndexOf(s, x) == |p| by {
          assert s[..|p|] == p;
        }
      }
    }
  }

  /** A loop that converts each item in order, pushing the converted value,
      and stops at the first item that fails; `context` carries what the
      conversion looks items up in. */
  function MapResult<A, C, B, E>(items: seq<A>, context: C, convert: (A, C) -> Result<B, E>): (r: Result<seq<B>, E>)
    ensures r.Ok? <==> forall i :: 0 <= i < |items| ==> convert(items[i], context).Ok?
    ensures r.Ok? ==> |r.value| == |items|
    ensures r.Ok? ==> forall i :: 0 <= i < |items| ==> r.value[i] == convert(items[i], context).value
    ensures r.Fatal? ==> exists i :: 0 <= i < |items| && convert(items[i], context).Fatal?
    ensures r.Thrown? ==> exists i :: 0 <= i < |items| && convert(items[i], context).Thrown?
    decreases |items|
  {
    if items == [] then Ok([])
    else
      var init := items[..|items| - 1];
      assert forall i :: 0 <= i < |items| - 1 ==> items[i] == init[i];
      var converted :- MapResult(init, context, convert);
      var last :- convert(items[|items| - 1], context);
      Ok(converted + [last])
  }

  /** The first item that fails decides the error. */
  lemma {:induction false} MapResultFirstFailure<A, C, B, E>(items: seq<A>, context: C, convert: (A, C) -> Result<B, E>, k: nat)
    requires k < |items| && !convert(items[k], context).Ok?
    requires forall j :: 0 <= j < k ==> convert(items[j], context).Ok?
    ensures MapResult(items, context, convert) == convert(items[k], context).PropagateFailure()
    decreases |items|
  {
    if k < |items| - 1 {
      var init := items[..|items| - 1];
      MapResultFirstFailure(init, context, convert, k);
    } else {
      var init := items[..|items| - 1];
      assert forall j :: 0 <= j < |init| ==> init[j] == items[j];
    }
  }

  /** Growing the converted prefix by one item. */
  lemma MapResultStep<A, C, B, E>(items: seq<A>, context: C, convert: (A, C) -> Result<B, E>, i: nat, converted: seq<B>)
    requires i < |items|
    requires MapResult(items[..i], context, convert) == Ok(converted)
    requires convert(items[i], context).Ok?
    ensures MapResult(items[..i + 1], context, convert) == Ok(converted + [convert(items[i], context).value])
  {
    assert items[..i + 1][..i] == items[..i];
  }

  /** The conversion loop itself. */
  method MapResultLoop<A, C, B, E>(items: seq<A>, context: C, convert: (A, C) -> Result<B, E>) returns (r: Result<seq<B>, E>)
    ensures r == MapResult(items, context, convert)
  {
    var converted: seq<B> := [];
    for i := 0 to |items|
      invariant MapResult(items[..i], context, convert) == Ok(converted)
    {
      var item := convert(items[i], context);
      if !item.Ok? {
        MapResultFirstFailure(items, context, convert, i);
        return item.PropagateFailure();
      }
      MapResultStep(items, context, convert, i, converted);
      converted := converted + [item.value];
    }
    assert items[..|items|] == items;
    return Ok(converted);
  }
}
