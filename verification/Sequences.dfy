/** List operations the components share, with the laws their proofs use. */
module Sequences {

  /** Position of the first x, or the length when there is none. */
  function IndexOf<T(==)>(s: seq<T>, x: T): (i: nat)
    ensures i <= |s|
    ensures i < |s| ==> s[i] == x
    ensures x !in s[..i]
    ensures i < |s| <==> x in s
  {
    if s == [] || s[0] == x then 0 else
      assert s == [s[0]] + s[1..];
      1 + IndexOf(s[1..], x)
  }

  lemma {:induction false} IndexOfConcat<T>(a: seq<T>, x: T, b: seq<T>)
    requires x !in a
    ensures IndexOf(a + [x] + b, x) == |a|
  {
    if a == [] {
      assert (a + [x] + b)[0] == x;
    } else {
      assert (a + [x] + b)[1..] == a[1..] + [x] + b;
      IndexOfConcat(a[1..], x, b);
    }
  }

  ghost predicate NoDup<T(!new)>(s: seq<T>) {
    forall i, j :: 0 <= i < j < |s| ==> s[i] != s[j]
  }

  /** Keep the first occurrence of every element. */
  function Dedup<T(==,!new)>(s: seq<T>): (r: seq<T>)
    ensures forall x :: x in r <==> x in s
  {
    if s == [] then []
    else
      var init, last := s[..|s| - 1], s[|s| - 1];
      assert s == init + [last];
      var r := Dedup(init);
      if last in init then r else r + [last]
  }

  lemma {:induction false} DedupNoDup<T(!new)>(s: seq<T>)
    ensures NoDup(Dedup(s))
  {
    if s != [] {
      DedupNoDup(s[..|s| - 1]);
    }
  }

  lemma {:induction false} DedupOfNoDup<T(!new)>(s: seq<T>)
    requires NoDup(s)
    ensures Dedup(s) == s
  {
    if s != [] {
      DedupOfNoDup(s[..|s| - 1]);
    }
  }

  lemma DedupSnoc<T(!new)>(s: seq<T>, x: T)
    ensures Dedup(s + [x]) == if x in s then Dedup(s) else Dedup(s) + [x]
  {
    assert (s + [x])[..|s + [x]| - 1] == s;
  }

  lemma DedupPrefix<T(!new)>(s: seq<T>, i: nat)
    requires i < |s|
    ensures Dedup(s[..i + 1]) == if s[i] in s[..i] then Dedup(s[..i]) else Dedup(s[..i]) + [s[i]]
  {
    assert s[..i + 1][..i] == s[..i];
  }

  /** Deduplicating parts first does not change the deduplicated whole. */
  lemma {:induction false} DedupAbsorbs<T(!new)>(a: seq<T>, b: seq<T>)
    ensures Dedup(a + b) == Dedup(Dedup(a) + Dedup(b))
    decreases |a| + |b|
  {
    if b == [] {
      assert a + b == a;
      assert Dedup(a) + Dedup(b) == Dedup(a);
      DedupNoDup(a);
      DedupOfNoDup(Dedup(a));
    } else {
      var init, last := b[..|b| - 1], b[|b| - 1];
      assert a + b == (a + init) + [last];
      DedupSnoc(a + init, last);
      DedupAbsorbs(a, init);
      if last !in init {
        assert Dedup(a) + Dedup(b) == (Dedup(a) + Dedup(init)) + [last];
        DedupSnoc(Dedup(a) + Dedup(init), last);
      }
    }
  }

  function Flatten<T>(parts: seq<seq<T>>): seq<T> {
    if parts == [] then [] else parts[0] + Flatten(parts[1..])
  }

  lemma {:induction false} FlattenConcat<T>(a: seq<seq<T>>, b: seq<seq<T>>)
    ensures Flatten(a + b) == Flatten(a) + Flatten(b)
  {
    if a == [] {
      assert a + b == b;
    } else {
      assert (a + b)[1..] == a[1..] + b;
      FlattenConcat(a[1..], b);
    }
  }

  lemma FlattenOne<T>(x: seq<T>)
    ensures Flatten([x]) == x
  {
    assert [x][1..] == [];
    assert x + [] == x;
  }

  lemma {:induction false} FlattenMember<T>(parts: seq<seq<T>>, x: T)
    ensures x in Flatten(parts) <==> exists p :: p in parts && x in p
  {
    if parts != [] {
      FlattenMember(parts[1..], x);
      if p :| p in parts && x in p {
        assert p == parts[0] || p in parts[1..];
      }
      if x in Flatten(parts[1..]) {
        var p :| p in parts[1..] && x in p;
        assert p in parts;
      }
    }
  }

  /** The list without any occurrence of x. */
  function Without<T(==,!new)>(s: seq<T>, x: T): (r: seq<T>)
    ensures forall y :: y in r <==> y in s && y != x
  {
    if s == [] then []
    else
      assert s == s[..|s| - 1] + [s[|s| - 1]];
      Without(s[..|s| - 1], x) + if s[|s| - 1] != x then [s[|s| - 1]] else []
  }

  lemma WithoutSnoc<T(!new)>(s: seq<T>, y: T, x: T)
    ensures Without(s + [y], x) == Without(s, x) + if y != x then [y] else []
  {
    assert (s + [y])[..|s|] == s;
  }

  lemma {:induction false} WithoutNoDup<T(!new)>(s: seq<T>, x: T)
    requires NoDup(s)
    ensures NoDup(Without(s, x))
  {
    if s != [] {
      var init := s[..|s| - 1];
      WithoutNoDup(init, x);
      assert s[|s| - 1] !in init;
    }
  }

  lemma {:induction false} WithoutAbsent<T(!new)>(s: seq<T>, x: T)
    requires x !in s
    ensures Without(s, x) == s
  {
    if s != [] {
      assert s == s[..|s| - 1] + [s[|s| - 1]];
      WithoutAbsent(s[..|s| - 1], x);
    }
  }

  lemma {:induction false} WithoutConcat<T(!new)>(a: seq<T>, b: seq<T>, x: T)
    ensures Without(a + b, x) == Without(a, x) + Without(b, x)
  {
    if b == [] {
      assert a + b == a;
    } else {
      var init, last := b[..|b| - 1], b[|b| - 1];
      assert a + b == (a + init) + [last];
      WithoutSnoc(a + init, last, x);
      WithoutConcat(a, init, x);
    }
  }

  ghost predicate SameMembers<T(!new)>(a: seq<T>, b: seq<T>) {
    forall x :: x in a <==> x in b
  }

  lemma {:induction false} NoDupSize<T>(s: seq<T>)
    requires forall i, j :: 0 <= i < j < |s| ==> s[i] != s[j]
    ensures |set x | x in s| == |s|
  {
    if s != [] {
      var init, last := s[..|s| - 1], s[|s| - 1];
      NoDupSize(init);
      assert s == init + [last];
      assert (set x | x in s) == (set x | x in init) + {last};
    }
  }

  /** Two lists without repetition and with the same members have the same length. */
  lemma SameMembersSameLength<T(!new)>(a: seq<T>, b: seq<T>)
    requires NoDup(a) && NoDup(b) && SameMembers(a, b)
    ensures |a| == |b|
  {
    NoDupSize(a);
    NoDupSize(b);
    assert (set x | x in a) == (set x | x in b);
  }

  /** A new element at either end of a listing. */
  lemma ExtendListing<T(!new)>(s: seq<T>, all: seq<T>, x: T)
    requires NoDup(s) && SameMembers(s, all) && x !in s
    ensures NoDup([x] + s) && SameMembers([x] + s, all + [x])
    ensures NoDup(s + [x]) && SameMembers(s + [x], all + [x])
  {
  }

  /** Comparing the length with the number of different members detects repetition. */
  lemma {:induction false} NoDupIffSize<T(!new)>(s: seq<T>)
    ensures |set x | x in s| <= |s|
    ensures NoDup(s) <==> |set x | x in s| == |s|
  {
    if s != [] {
      var init, last := s[..|s| - 1], s[|s| - 1];
      assert s == init + [last];
      NoDupIffSize(init);
      assert (set x | x in s) == (set x | x in init) + {last};
      if last in init {
        assert (set x | x in s) == (set x | x in init);
        var i :| 0 <= i < |init| && init[i] == last;
        assert s[i] == s[|s| - 1];
      }
    }
  }

  lemma EmptyIfNoMember<T(!new)>(s: seq<T>)
    ensures s == [] <==> forall x :: x !in s
  {
    assert s != [] ==> s[0] in s;
  }

  lemma NoDupConcat<T(!new)>(a: seq<T>, b: seq<T>)
    requires NoDup(a) && NoDup(b) && forall i :: 0 <= i < |a| ==> a[i] !in b
    ensures NoDup(a + b)
  {
  }

  lemma Assoc<T>(a: seq<T>, b: seq<T>, c: seq<T>)
    ensures a + b + c == a + (b + c)
  {
  }

  lemma {:induction false} SubsetSize<T>(a: set<T>, b: set<T>)
    requires a <= b
    ensures |a| <= |b|
    ensures |a| == |b| ==> a == b
  {
    if a != {} {
      var x :| x in a;
      SubsetSize(a - {x}, b - {x});
      if |a| == |b| {
        assert a == (a - {x}) + {x} && b == (b - {x}) + {x};
      }
    }
  }
}
