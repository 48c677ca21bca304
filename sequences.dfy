/** Sequence helpers shared by the tag resolver and the context registry. */
module Sequences {

  /** No element occurs twice. */
  predicate NoDup<T(==)>(s: seq<T>) {
    forall i, j :: 0 <= i < j < |s| ==> s[i] != s[j]
  }

  /** Ruby's `Array#uniq`: the first occurrence of every element, in order.
      The result lists nothing twice and is never longer than the input. */
  function Uniq<T(==)>(s: seq<T>): (r: seq<T>)
    ensures NoDup(r)
    ensures |r| <= |s|
    decreases |s|
  {
    if s == [] then []
    else
      var prefix := Uniq(s[..|s| - 1]);
      if s[|s| - 1] in prefix then prefix else prefix + [s[|s| - 1]]
  }

  /** `uniq` drops no element and adds none. */
  lemma {:induction false} UniqMembers<T(!new)>(s: seq<T>)
    ensures forall x :: x in Uniq(s) <==> x in s
    decreases |s|
  {
    if s != [] {
      var p := s[..|s| - 1];
      UniqMembers(p);
      assert s == p + [s[|s| - 1]];
    }
  }

  /** The elements of `s` that do not occur in `xs`, in the order of `s`. */
  function Without<T(==)>(s: seq<T>, xs: seq<T>): seq<T>
    decreases |s|
  {
    if s == [] then []
    else Without(s[..|s| - 1], xs) + (if s[|s| - 1] in xs then [] else [s[|s| - 1]])
  }

  lemma {:induction false} WithoutMembers<T(!new)>(s: seq<T>, xs: seq<T>)
    ensures forall x :: x in Without(s, xs) <==> x in s && x !in xs
    decreases |s|
  {
    if s != [] {
      var p := s[..|s| - 1];
      WithoutMembers(p, xs);
      assert s == p + [s[|s| - 1]];
    }
  }

  /** The same fact as `WithoutMembers`, for one element. */
  lemma {:induction false} WithoutMember<T>(s: seq<T>, xs: seq<T>, x: T)
    ensures x in Without(s, xs) <==> x in s && x !in xs
    decreases |s|
  {
    if s != [] {
      var p := s[..|s| - 1];
      WithoutMember(p, xs, x);
      assert s == p + [s[|s| - 1]];
    }
  }

  /** One step of `uniq`: a trailing element already present is dropped. */
  lemma UniqSnocOld<T(!new)>(s: seq<T>, x: T)
    requires x in s
    ensures Uniq(s + [x]) == Uniq(s)
  {
    assert (s + [x])[..|s|] == s;
    UniqMembers(s);
  }

  /** One step of `uniq`: a trailing element not yet present is kept. */
  lemma UniqSnocNew<T(!new)>(s: seq<T>, x: T)
    requires x !in s
    ensures Uniq(s + [x]) == Uniq(s) + [x]
  {
    assert (s + [x])[..|s|] == s;
    UniqMembers(s);
  }

  lemma WithoutSnoc<T(!new)>(s: seq<T>, x: T, xs: seq<T>)
    ensures Without(s + [x], xs) == Without(s, xs) + (if x in xs then [] else [x])
  {
    assert (s + [x])[..|s|] == s;
  }

  /** Deduplicating a concatenation keeps the deduplicated first part as a
      prefix and appends, in their order, the later elements not seen before. */
  lemma {:induction false} UniqAppend<T(!new)>(a: seq<T>, b: seq<T>)
    ensures Uniq(a + b) == Uniq(a) + Uniq(Without(b, a))
    decreases |b|
  {
    if b == [] {
      assert a + b == a;
    } else {
      var b', x := b[..|b| - 1], b[|b| - 1];
      assert b == b' + [x];
      UniqAppend(a, b');
      UniqAppendStep(a, b', x);
    }
  }

  /** The inductive step of `UniqAppend`: appending one more element. */
  lemma UniqAppendStep<T(!new)>(a: seq<T>, b: seq<T>, x: T)
    requires Uniq(a + b) == Uniq(a) + Uniq(Without(b, a))
    ensures Uniq(a + (b + [x])) == Uniq(a) + Uniq(Without(b + [x], a))
  {
    if x in a {
      UniqAppendStepOld(a, b, x);
    } else if x in b {
      UniqAppendStepSeen(a, b, x);
    } else {
      UniqAppendStepNew(a, b, x);
    }
  }

  /** The step for an element of the first part: nothing is added. */
  lemma UniqAppendStepOld<T(!new)>(a: seq<T>, b: seq<T>, x: T)
    requires x in a
    requires Uniq(a + b) == Uniq(a) + Uniq(Without(b, a))
    ensures Uniq(a + (b + [x])) == Uniq(a) + Uniq(Without(b + [x], a))
  {
    AppendSnoc(a, b, x);
    UniqSnocOld(a + b, x);
    WithoutSnocDropped(b, x, a);
  }

  /** The step for an element of the second part only, seen before: nothing
      is added either. */
  lemma UniqAppendStepSeen<T(!new)>(a: seq<T>, b: seq<T>, x: T)
    requires x !in a && x in b
    requires Uniq(a + b) == Uniq(a) + Uniq(Without(b, a))
    ensures Uniq(a + (b + [x])) == Uniq(a) + Uniq(Without(b + [x], a))
  {
    AppendSnoc(a, b, x);
    UniqSnocOld(a + b, x);
    WithoutSnocKept(b, x, a);
    WithoutMember(b, a, x);
    UniqSnocOld(Without(b, a), x);
  }

  /** The step for an element in neither part: it is appended. */
  lemma UniqAppendStepNew<T(!new)>(a: seq<T>, b: seq<T>, x: T)
    requires x !in a && x !in b
    requires Uniq(a + b) == Uniq(a) + Uniq(Without(b, a))
    ensures Uniq(a + (b + [x])) == Uniq(a) + Uniq(Without(b + [x], a))
  {
    AppendSnoc(a, b, x);
    UniqSnocNew(a + b, x);
    WithoutSnocKept(b, x, a);
    WithoutMember(b, a, x);
    UniqSnocNew(Without(b, a), x);
    SnocAssoc(Uniq(a + b), Uniq(a), Uniq(Without(b, a)), x);
  }

  lemma AppendSnoc<T>(a: seq<T>, b: seq<T>, x: T)
    ensures a + (b + [x]) == (a + b) + [x]
    ensures x in a + b <==> x in a || x in b
  {
  }

  lemma WithoutSnocDropped<T(!new)>(s: seq<T>, x: T, xs: seq<T>)
    requires x in xs
    ensures Without(s + [x], xs) == Without(s, xs)
  {
    WithoutSnoc(s, x, xs);
  }

  lemma WithoutSnocKept<T(!new)>(s: seq<T>, x: T, xs: seq<T>)
    requires x !in xs
    ensures Without(s + [x], xs) == Without(s, xs) + [x]
  {
    WithoutSnoc(s, x, xs);
  }

  lemma SnocAssoc<T>(u: seq<T>, p: seq<T>, q: seq<T>, x: T)
    requires u == p + q
    ensures u + [x] == p + (q + [x])
  {
  }

  lemma ConcatAssoc<T>(p: seq<T>, q: seq<T>, e: seq<T>)
    ensures (p + q) + e == p + (q + e)
  {
  }

  /** A sequence without duplicates is its own `uniq`. */
  lemma {:induction false} UniqOfNoDup<T(!new)>(s: seq<T>)
    requires NoDup(s)
    ensures Uniq(s) == s
    decreases |s|
  {
    if s != [] {
      var p := s[..|s| - 1];
      assert NoDup(p);
      UniqOfNoDup(p);
      assert s[|s| - 1] !in p by {
        forall i | 0 <= i < |p| ensures p[i] != s[|s| - 1] {
          assert s[i] != s[|s| - 1];
        }
      }
      assert s == p + [s[|s| - 1]];
    }
  }

  /** `(a + b).uniq` keeps every element of `a.uniq` in place and adds only
      elements of `b`; with no duplicates in `a` the prefix is `a` itself. */
  lemma UniqExtends<T(!new)>(a: seq<T>, b: seq<T>)
    requires NoDup(a)
    ensures |a| <= |Uniq(a + b)| && Uniq(a + b)[..|a|] == a
    ensures forall x :: x in Uniq(a + b)[|a|..] <==> x in b && x !in a
  {
    UniqAppend(a, b);
    UniqOfNoDup(a);
    UniqMembers(Without(b, a));
    WithoutMembers(b, a);
  }

  /** `select`: the elements satisfying `p`, in order. */
  function Filter<T>(s: seq<T>, p: T -> bool): seq<T>
    decreases |s|
  {
    if s == [] then []
    else Filter(s[..|s| - 1], p) + (if p(s[|s| - 1]) then [s[|s| - 1]] else [])
  }

  lemma FilterSnoc<T>(s: seq<T>, x: T, p: T -> bool)
    ensures Filter(s + [x], p) == Filter(s, p) + (if p(x) then [x] else [])
  {
    assert (s + [x])[..|s|] == s;
  }

  /** Filtering keeps exactly the elements satisfying the condition. */
  lemma {:induction false} FilterMembers<T(!new)>(s: seq<T>, p: T -> bool)
    ensures forall x :: x in Filter(s, p) <==> x in s && p(x)
    decreases |s|
  {
    if s != [] {
      var s' := s[..|s| - 1];
      FilterMembers(s', p);
      assert s == s' + [s[|s| - 1]];
    }
  }

  /** Filtering a concatenation filters each part: the order of `s` is kept. */
  lemma {:induction false} FilterAppend<T>(a: seq<T>, b: seq<T>, p: T -> bool)
    ensures Filter(a + b, p) == Filter(a, p) + Filter(b, p)
    decreases |b|
  {
    if b == [] {
      assert a + b == a;
    } else {
      var b', x := b[..|b| - 1], b[|b| - 1];
      assert b == b' + [x];
      assert a + b == (a + b') + [x];
      FilterAppend(a, b', p);
      FilterSnoc(a + b', x, p);
      FilterSnoc(b', x, p);
      var e := if p(x) then [x] else [];
      ConcatAssoc(Filter(a, p), Filter(b', p), e);
    }
  }

  /** Filtering keeps every copy of a kept element and drops every copy of
      the others. */
  lemma {:induction false} FilterCount<T>(s: seq<T>, p: T -> bool, x: T)
    ensures multiset(Filter(s, p))[x] == if p(x) then multiset(s)[x] else 0
    decreases |s|
  {
    if s != [] {
      var s', y := s[..|s| - 1], s[|s| - 1];
      assert s == s' + [y];
      FilterCount(s', p, x);
      assert multiset(s) == multiset(s') + multiset{y};
    }
  }

  /** Filtering never lengthens, and keeps a sequence whose every element
      satisfies the condition. */
  lemma {:induction false} FilterLength<T>(s: seq<T>, p: T -> bool)
    ensures |Filter(s, p)| <= |s|
    ensures (forall i :: 0 <= i < |s| ==> p(s[i])) ==> Filter(s, p) == s
    decreases |s|
  {
    if s != [] {
      var s' := s[..|s| - 1];
      FilterLength(s', p);
      assert s == s' + [s[|s| - 1]];
      if forall i :: 0 <= i < |s| ==> p(s[i]) {
        assert forall i :: 0 <= i < |s'| ==> s'[i] == s[i];
        assert p(s[|s| - 1]);
      }
    }
  }

  /** When exactly one element satisfies the condition, filtering yields it alone. */
  lemma {:induction false} FilterSingle<T>(s: seq<T>, p: T -> bool, i: nat)
    requires i < |s|
    requires forall j :: 0 <= j < |s| ==> (p(s[j]) <==> j == i)
    ensures Filter(s, p) == [s[i]]
    decreases |s|
  {
    var s', y := s[..|s| - 1], s[|s| - 1];
    assert s == s' + [y];
    FilterSnoc(s', y, p);
    if i == |s| - 1 {
      forall j | 0 <= j < |s'| ensures !p(s'[j]) {
        assert s'[j] == s[j];
      }
      FilterNone(s', p);
    } else {
      forall j | 0 <= j < |s'| ensures p(s'[j]) <==> j == i {
        assert s'[j] == s[j];
      }
      FilterSingle(s', p, i);
      assert !p(y);
    }
  }

  /** When no element satisfies the condition, filtering yields nothing. */
  lemma {:induction false} FilterNone<T>(s: seq<T>, p: T -> bool)
    requires forall j :: 0 <= j < |s| ==> !p(s[j])
    ensures Filter(s, p) == []
    decreases |s|
  {
    if s != [] {
      FilterNone(s[..|s| - 1], p);
    }
  }

  /** A non-empty filter starts with the first element satisfying the condition. */
  lemma {:induction false} FilterFirst<T(!new)>(s: seq<T>, p: T -> bool)
    requires Filter(s, p) != []
    ensures exists i :: 0 <= i < |s| && p(s[i]) && (forall j :: 0 <= j < i ==> !p(s[j])) && Filter(s, p)[0] == s[i]
    decreases |s|
  {
    var s', x := s[..|s| - 1], s[|s| - 1];
    assert s == s' + [x];
    if Filter(s', p) != [] {
      FilterFirst(s', p);
      var i :| 0 <= i < |s'| && p(s'[i]) && (forall j :: 0 <= j < i ==> !p(s'[j])) && Filter(s', p)[0] == s'[i];
      assert s[i] == s'[i];
    } else {
      forall j | 0 <= j < |s'| ensures !p(s[j]) {
        FilterMembers(s', p);
        assert s'[j] == s[j];
        assert s'[j] in s';
      }
      assert p(x) && Filter(s, p)[0] == x;
    }
  }
}
