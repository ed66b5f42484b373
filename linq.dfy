/** The LINQ operators the services use, over finite lists. */
module Linq {
  import opened Wrappers

  /** `s.Where(p).ToList()`: the elements of `s` that satisfy `p`, in their original order. */
  function Where<T(!new)>(s: seq<T>, p: T -> bool): (r: seq<T>)
    ensures |r| <= |s|
    ensures forall x :: x in r <==> x in s && p(x)
    // every kept element occurs as often as in `s`, every other one not at all
    ensures forall x :: multiset(r)[x] == if p(x) then multiset(s)[x] else 0
  {
    if s == [] then []
    else
      assert s == [s[0]] + s[1..];
      if p(s[0]) then [s[0]] + Where(s[1..], p)
      else Where(s[1..], p)
  }

  /** On a single element `Where` keeps it or drops it. With `WhereAppend` this fixes the
      result of `Where` on every list, order included. */
  lemma WhereOne<T(!new)>(x: T, p: T -> bool)
    ensures Where([x], p) == if p(x) then [x] else []
  {
    assert [x][1..] == [];
    assert [x] + [] == [x];
  }

  /** A list whose every element satisfies `p` passes `Where` unchanged. */
  lemma {:induction false} WhereKeepsAll<T(!new)>(s: seq<T>, p: T -> bool)
    requires forall i :: 0 <= i < |s| ==> p(s[i])
    ensures Where(s, p) == s
  {
    if s != [] {
      assert forall i :: 0 <= i < |s[1..]| ==> s[1..][i] == s[i + 1];
      WhereKeepsAll(s[1..], p);
      assert [s[0]] + s[1..] == s;
    }
  }

  /** `Where` keeps order: filtering a concatenation concatenates the filtered parts. */
  lemma {:induction false} WhereAppend<T(!new)>(a: seq<T>, b: seq<T>, p: T -> bool)
    ensures Where(a + b, p) == Where(a, p) + Where(b, p)
  {
    if a == [] {
      assert a + b == b;
    } else {
      assert (a + b)[0] == a[0];
      assert (a + b)[1..] == a[1..] + b;
      WhereAppend(a[1..], b, p);
      if p(a[0]) {
        assert [a[0]] + (Where(a[1..], p) + Where(b, p)) == ([a[0]] + Where(a[1..], p)) + Where(b, p);
      }
    }
  }

  /** Filtering by `p` and then by a stronger `q` is filtering by `q` alone. */
  lemma {:induction false} WhereNarrow<T(!new)>(s: seq<T>, p: T -> bool, q: T -> bool)
    requires forall x :: q(x) ==> p(x)
    ensures Where(Where(s, p), q) == Where(s, q)
  {
    if s != [] {
      WhereNarrow(s[1..], p, q);
      if p(s[0]) {
        var w := [s[0]] + Where(s[1..], p);
        assert w[0] == s[0] && w[1..] == Where(s[1..], p);
      }
    }
  }

  /** `s.Any(p)`. */
  function Any<T>(s: seq<T>, p: T -> bool): (b: bool)
    ensures b <==> exists i :: 0 <= i < |s| && p(s[i])
  {
    if s == [] then false
    else if p(s[0]) then true
    else
      var rest := Any(s[1..], p);
      assert forall i :: 1 <= i < |s| ==> s[i] == s[1..][i - 1];
      rest
  }

  /** The position of the first element satisfying `p`, or `|s|` when there is none. */
  function FirstIndex<T>(s: seq<T>, p: T -> bool): (i: nat)
    ensures i <= |s|
    ensures i < |s| ==> p(s[i])
    ensures forall j :: 0 <= j < i ==> !p(s[j])
  {
    if s == [] then 0
    else if p(s[0]) then 0
    else 1 + FirstIndex(s[1..], p)
  }

  /** The first match in a concatenation is the first match of the left part, when there is
      one, and otherwise the first match of the right part. */
  lemma {:induction false} FirstIndexAppend<T>(a: seq<T>, b: seq<T>, p: T -> bool)
    ensures FirstIndex(a + b, p) == if FirstIndex(a, p) < |a| then FirstIndex(a, p) else |a| + FirstIndex(b, p)
  {
    if a == [] {
      assert a + b == b;
    } else {
      assert (a + b)[0] == a[0];
      assert (a + b)[1..] == a[1..] + b;
      if !p(a[0]) {
        FirstIndexAppend(a[1..], b, p);
      }
    }
  }

  /** `s.FirstOrDefault(p)` on a list of references: the first match, or null. */
  function FirstOrDefault<T>(s: seq<T>, p: T -> bool): (r: Option<T>)
    ensures r.None? <==> forall i :: 0 <= i < |s| ==> !p(s[i])
    ensures r.Some? ==> exists i :: 0 <= i < |s| && s[i] == r.value && p(s[i]) &&
                                    forall j :: 0 <= j < i ==> !p(s[j])
  {
    var i := FirstIndex(s, p);
    if i < |s| then Some(s[i]) else None
  }

  /** `FirstOrDefault` on a concatenation searches the left part first. */
  lemma FirstOrDefaultAppend<T>(a: seq<T>, b: seq<T>, p: T -> bool)
    ensures FirstOrDefault(a + b, p) == if FirstOrDefault(a, p).Some? then FirstOrDefault(a, p) else FirstOrDefault(b, p)
  {
    FirstIndexAppend(a, b, p);
    var i := FirstIndex(a, p);
    if i < |a| {
      assert (a + b)[i] == a[i];
    } else {
      var j := FirstIndex(b, p);
      if j < |b| {
        assert (a + b)[|a| + j] == b[j];
      }
    }
  }

  /** `s.SelectMany(f).ToList()` where `f` may yield a null collection: enumerating a null
      collection throws, so the whole result is then None. */
  function SelectMany<T, U(!new)>(s: seq<T>, f: T -> Option<seq<U>>): (r: Option<seq<U>>)
    ensures r.None? <==> exists i :: 0 <= i < |s| && f(s[i]).None?
    ensures r.Some? ==> forall y :: y in r.value <==>
                          exists i :: 0 <= i < |s| && f(s[i]).Some? && y in f(s[i]).value
  {
    if s == [] then Some([])
    else
      var rest := SelectMany(s[1..], f);
      assert forall i :: 1 <= i < |s| ==> s[i] == s[1..][i - 1];
      match f(s[0])
      case None => None
      case Some(first) =>
        if rest.None? then None else Some(first + rest.value)
  }

  /** Flattening a single element yields its own collection. */
  lemma SelectManyOne<T, U(!new)>(x: T, f: T -> Option<seq<U>>)
    requires f(x).Some?
    ensures SelectMany([x], f) == f(x)
  {
    assert [x][1..] == [];
    assert f(x).value + [] == f(x).value;
  }

  /** `SelectMany` keeps order: the flattening of a concatenation is the concatenation
      of the flattenings. */
  lemma {:induction false} SelectManyAppend<T, U(!new)>(a: seq<T>, b: seq<T>, f: T -> Option<seq<U>>)
    requires SelectMany(a, f).Some? && SelectMany(b, f).Some?
    ensures SelectMany(a + b, f) == Some(SelectMany(a, f).value + SelectMany(b, f).value)
  {
    if a == [] {
      assert a + b == b;
      assert SelectMany(a, f).value == [];
      assert [] + SelectMany(b, f).value == SelectMany(b, f).value;
    } else {
      assert (a + b)[0] == a[0];
      assert (a + b)[1..] == a[1..] + b;
      SelectManyAppend(a[1..], b, f);
      var first := f(a[0]).value;
      var restA := SelectMany(a[1..], f).value;
      var all := SelectMany(b, f).value;
      assert SelectMany(a, f).value == first + restA;
      assert first + (restA + all) == (first + restA) + all;
    }
  }
}
