/** Mapping over lists where a step may fail or give several results, and what permuting the list does to it. */
module Sequences {
  import opened Encoding

  /** All results in order, or None as soon as one step fails. */
  function MapAll<S, T>(f: S -> Option<T>, s: seq<S>): Option<seq<T>> {
    if s == [] then Some([])
    else
      match (MapAll(f, s[..|s| - 1]), f(s[|s| - 1]))
      case (Some(init), Some(last)) => Some(init + [last])
      case _ => None
  }

  function FlatMap<S, T>(f: S -> seq<T>, s: seq<S>): seq<T> {
    if s == [] then [] else FlatMap(f, s[..|s| - 1]) + f(s[|s| - 1])
  }

  function Filter<S>(keep: S -> bool, s: seq<S>): (kept: seq<S>)
    ensures forall x :: x in kept ==> x in s && keep(x)
  {
    if s == [] then []
    else Filter(keep, s[..|s| - 1]) + (if keep(s[|s| - 1]) then [s[|s| - 1]] else [])
  }

  function SumOf<S>(f: S -> int, s: seq<S>): int {
    if s == [] then 0 else SumOf(f, s[..|s| - 1]) + f(s[|s| - 1])
  }

  lemma {:induction false} MapAllElements<S, T>(f: S -> Option<T>, s: seq<S>)
    ensures MapAll(f, s).Some? <==> forall i :: 0 <= i < |s| ==> f(s[i]).Some?
    ensures MapAll(f, s).Some? ==>
              |MapAll(f, s).value| == |s| && forall i :: 0 <= i < |s| ==> f(s[i]) == Some(MapAll(f, s).value[i])
  {
    if s != [] {
      MapAllElements(f, s[..|s| - 1]);
    }
  }

  lemma {:induction false} MapAllCongruence<S, T>(f: S -> Option<T>, g: S -> Option<T>, s: seq<S>)
    requires forall x :: x in s ==> f(x) == g(x)
    ensures MapAll(f, s) == MapAll(g, s)
  {
    if s != [] {
      MapAllCongruence(f, g, s[..|s| - 1]);
    }
  }

  // ---------------------------------------------------------------- permutations

  lemma {:induction false} SameMembers<S>(a: seq<S>, b: seq<S>)
    requires multiset(a) == multiset(b)
    ensures forall x :: x in a <==> x in b
  {
    forall x ensures x in a <==> x in b {
      assert x in a <==> x in multiset(a);
      assert x in b <==> x in multiset(b);
    }
  }

  function RemoveAt<S>(s: seq<S>, i: int): (r: seq<S>)
    requires 0 <= i < |s|
    ensures |r| == |s| - 1
    ensures multiset(r) == multiset(s) - multiset{s[i]}
  {
    assert s == s[..i] + [s[i]] + s[i + 1..];
    s[..i] + s[i + 1..]
  }

  lemma {:induction false} MapAllAppend<S, T>(f: S -> Option<T>, init: seq<S>, last: S)
    ensures MapAll(f, init + [last]).Some? <==> MapAll(f, init).Some? && f(last).Some?
    ensures MapAll(f, init + [last]).Some? ==> MapAll(f, init + [last]).value == MapAll(f, init).value + [f(last).value]
  {
    assert (init + [last])[..|init|] == init;
  }

  lemma {:induction false} MapAllRemoveAt<S, T>(f: S -> Option<T>, s: seq<S>, i: int)
    requires 0 <= i < |s|
    ensures MapAll(f, s).Some? <==> MapAll(f, RemoveAt(s, i)).Some? && f(s[i]).Some?
    ensures MapAll(f, s).Some? ==>
              multiset(MapAll(f, s).value) == multiset(MapAll(f, RemoveAt(s, i)).value) + multiset{f(s[i]).value}
  {
    hide MapAll;
    var n := |s| - 1;
    assert s == s[..n] + [s[n]];
    MapAllAppend(f, s[..n], s[n]);
    if i == n {
      assert RemoveAt(s, i) == s[..n];
    } else {
      MapAllRemoveAt(f, s[..n], i);
      var shorter := RemoveAt(s[..n], i);
      MapAllAppend(f, shorter, s[n]);
      assert RemoveAt(s, i) == shorter + [s[n]];
    }
  }

  /** Permuting the list does not change whether all steps succeed, and permutes the results. */
  lemma {:induction false} MapAllPermutation<S, T>(f: S -> Option<T>, a: seq<S>, b: seq<S>)
    requires multiset(a) == multiset(b)
    ensures MapAll(f, a).Some? <==> MapAll(f, b).Some?
    ensures MapAll(f, a).Some? ==> multiset(MapAll(f, a).value) == multiset(MapAll(f, b).value)
    decreases |a|
  {
    if a == [] {
      assert |multiset(b)| == 0;
      assert b == [];
    } else {
      var n := |a| - 1;
      assert a == a[..n] + [a[n]];
      assert a[n] in multiset(b);
      hide MapAll;
      var i :| 0 <= i < |b| && b[i] == a[n];
      MapAllAppend(f, a[..n], a[n]);
      MapAllRemoveAt(f, b, i);
      MapAllPermutation(f, a[..n], RemoveAt(b, i));
    }
  }

  lemma {:induction false} FilterNone<S>(keep: S -> bool, s: seq<S>)
    ensures Filter(keep, s[..0]) == []
  {
  }

  lemma {:induction false} FilterLast<S>(keep: S -> bool, s: seq<S>, i: nat)
    requires i < |s|
    ensures Filter(keep, s[..i + 1]) == if keep(s[i]) then Filter(keep, s[..i]) + [s[i]] else Filter(keep, s[..i])
  {
    assert s[..i + 1][..i] == s[..i];
  }

  function KeptOnce<S>(keep: S -> bool, x: S): multiset<S> {
    if keep(x) then multiset{x} else multiset{}
  }

  lemma {:induction false} FilterAppend<S>(keep: S -> bool, init: seq<S>, last: S)
    ensures multiset(Filter(keep, init + [last])) == multiset(Filter(keep, init)) + KeptOnce(keep, last)
  {
    assert (init + [last])[..|init|] == init;
  }

  lemma {:induction false} FilterRemoveAt<S>(keep: S -> bool, s: seq<S>, i: int)
    requires 0 <= i < |s|
    ensures multiset(Filter(keep, s)) == multiset(Filter(keep, RemoveAt(s, i))) + KeptOnce(keep, s[i])
  {
    hide Filter, KeptOnce;
    var n := |s| - 1;
    assert s == s[..n] + [s[n]];
    FilterAppend(keep, s[..n], s[n]);
    if i == n {
      assert RemoveAt(s, i) == s[..n];
    } else {
      FilterRemoveAt(keep, s[..n], i);
      var shorter := RemoveAt(s[..n], i);
      FilterAppend(keep, shorter, s[n]);
      assert RemoveAt(s, i) == shorter + [s[n]];
    }
  }

  lemma {:induction false} FilterPermutation<S>(keep: S -> bool, a: seq<S>, b: seq<S>)
    requires multiset(a) == multiset(b)
    ensures multiset(Filter(keep, a)) == multiset(Filter(keep, b))
    decreases |a|
  {
    if a == [] {
      assert |multiset(b)| == 0;
      assert b == [];
    } else {
      var n := |a| - 1;
      assert a == a[..n] + [a[n]];
      assert a[n] in multiset(b);
      var i :| 0 <= i < |b| && b[i] == a[n];
      hide Filter, KeptOnce;
      FilterAppend(keep, a[..n], a[n]);
      FilterRemoveAt(keep, b, i);
      FilterPermutation(keep, a[..n], RemoveAt(b, i));
    }
  }

  // ---------------------------------------------------------------- sums

  lemma {:induction false} SumOfOne<S>(f: S -> int, x: S)
    ensures SumOf(f, [x]) == f(x)
  {
    var one := [x];
    assert one[..|one| - 1] == [];
  }

  lemma {:induction false} SumConcat<S>(f: S -> int, a: seq<S>, b: seq<S>)
    ensures SumOf(f, a + b) == SumOf(f, a) + SumOf(f, b)
  {
    if b == [] {
      assert a + b == a;
    } else {
      var n := |b| - 1;
      assert (a + b)[..|a + b| - 1] == a + b[..n];
      SumConcat(f, a, b[..n]);
    }
  }

  lemma {:induction false} SumFlatMap<S, T>(f: T -> int, g: S -> seq<T>, h: S -> int, s: seq<S>)
    requires forall x :: x in s ==> SumOf(f, g(x)) == h(x)
    ensures SumOf(f, FlatMap(g, s)) == SumOf(h, s)
  {
    if s != [] {
      var n := |s| - 1;
      SumFlatMap(f, g, h, s[..n]);
      SumConcat(f, FlatMap(g, s[..n]), g(s[n]));
    }
  }

  lemma {:induction false} SumAdds<S>(f: S -> int, g: S -> int, h: S -> int, s: seq<S>)
    requires forall x :: x in s ==> h(x) == f(x) + g(x)
    ensures SumOf(h, s) == SumOf(f, s) + SumOf(g, s)
  {
    if s != [] {
      SumAdds(f, g, h, s[..|s| - 1]);
    }
  }

  lemma {:induction false} SumOfFiltered<S>(f: S -> int, keep: S -> bool, h: S -> int, s: seq<S>)
    requires forall x :: x in s ==> h(x) == if keep(x) then f(x) else 0
    ensures SumOf(f, Filter(keep, s)) == SumOf(h, s)
  {
    if s != [] {
      var n := |s| - 1;
      SumOfFiltered(f, keep, h, s[..n]);
      SumConcat(f, Filter(keep, s[..n]), if keep(s[n]) then [s[n]] else []);
      if keep(s[n]) {
        assert [s[n]][..0] == [];
      }
    }
  }

  lemma {:induction false} SumCongruence<S>(f: S -> int, g: S -> int, s: seq<S>)
    requires forall x :: x in s ==> f(x) == g(x)
    ensures SumOf(f, s) == SumOf(g, s)
  {
    if s != [] {
      SumCongruence(f, g, s[..|s| - 1]);
    }
  }

  lemma {:induction false} SumOfRead<S, T>(read: S -> Option<T>, s: seq<S>, f: T -> int, g: S -> int)
    requires MapAll(read, s).Some?
    requires forall x :: x in s && read(x).Some? ==> f(read(x).value) == g(x)
    ensures SumOf(f, MapAll(read, s).value) == SumOf(g, s)
  {
    if s != [] {
      SumOfRead(read, s[..|s| - 1], f, g);
      var results := MapAll(read, s).value;
      assert results[..|results| - 1] == MapAll(read, s[..|s| - 1]).value;
    }
  }
}
