/** The order of the firewall's sections: a stable partition, realised one move at a time. */
module FirewallOrder {
  import opened FirewallStore
  import opened Sequences
  import opened Uci

  /** Take a section out and put it back at a position; an unknown section changes nothing. */
  function Move(order: seq<string>, x: string, position: nat): seq<string> {
    if x !in order then order
    else
      var rest := Without(order, x);
      var i := if position < |rest| then position else |rest|;
      rest[..i] + [x] + rest[i..]
  }

  /** The first n sections of the target moved to positions 0, 1, ... in turn. */
  function MoveAll(order: seq<string>, target: seq<string>, n: nat): seq<string>
    requires n <= |target|
  {
    if n == 0 then order else Move(MoveAll(order, target, n - 1), target[n - 1], n - 1)
  }

  ghost predicate Permutation(a: seq<string>, b: seq<string>) {
    NoDup(a) && NoDup(b) && SameMembers(a, b)
  }

  lemma MovePermutes(order: seq<string>, x: string, position: nat)
    requires NoDup(order)
    ensures Permutation(Move(order, x, position), order)
  {
    if x in order {
      WithoutNoDup(order, x);
      InsertPermutes(Without(order, x), x, if position < |Without(order, x)| then position else |Without(order, x)|);
    }
  }

  lemma InsertPermutes(rest: seq<string>, x: string, i: nat)
    requires NoDup(rest) && x !in rest && i <= |rest|
    ensures NoDup(rest[..i] + [x] + rest[i..])
    ensures forall y :: y in rest[..i] + [x] + rest[i..] <==> y in rest || y == x
  {
    var r := rest[..i] + [x] + rest[i..];
    assert rest == rest[..i] + rest[i..];
    forall j, k | 0 <= j < k < |r| ensures r[j] != r[k] {
      assert j != i ==> r[j] == rest[if j < i then j else j - 1];
      assert k != i ==> r[k] == rest[if k < i then k else k - 1];
    }
  }

  /** Moving a section that lies behind a prefix to the prefix's end extends the prefix. */
  lemma MoveExtends(order: seq<string>, x: string, n: nat)
    requires n <= |order| && x in order && x !in order[..n]
    ensures n < |Move(order, x, n)| && Move(order, x, n)[..n + 1] == order[..n] + [x]
  {
    assert order == order[..n] + order[n..];
    WithoutConcat(order[..n], order[n..], x);
    WithoutAbsent(order[..n], x);
    var rest := Without(order, x);
    assert rest[..n] == order[..n];
  }

  /** The loop of moves ends in exactly the target order. */
  lemma {:induction false} MoveAllRealises(order: seq<string>, target: seq<string>, n: nat)
    requires Permutation(order, target) && n <= |target|
    ensures Permutation(MoveAll(order, target, n), target)
    ensures n <= |MoveAll(order, target, n)| && MoveAll(order, target, n)[..n] == target[..n]
  {
    if n > 0 {
      MoveAllRealises(order, target, n - 1);
      MoveRealises(MoveAll(order, target, n - 1), target, n - 1);
    }
  }

  lemma MoveRealises(before: seq<string>, target: seq<string>, n: nat)
    requires Permutation(before, target) && n < |target|
    requires n <= |before| && before[..n] == target[..n]
    ensures Permutation(Move(before, target[n], n), target)
    ensures n < |Move(before, target[n], n)| && Move(before, target[n], n)[..n + 1] == target[..n + 1]
  {
    assert target[n] in target && target[n] !in target[..n];
    MovePermutes(before, target[n], n);
    MoveExtends(before, target[n], n);
    assert target[..n + 1] == target[..n] + [target[n]];
  }

  lemma ReorderRealises(order: seq<string>, target: seq<string>)
    requires Permutation(order, target)
    ensures MoveAll(order, target, |target|) == target
  {
    var end := MoveAll(order, target, |target|);
    MoveAllRealises(order, target, |target|);
    SameMembersSameLength(end, target);
    assert end == end[..|target|] && target == target[..|target|];
  }

  /** Whatever the list of moves, no section is lost or doubled. */
  lemma {:induction false} MoveAllPermutes(order: seq<string>, target: seq<string>, n: nat)
    requires NoDup(order) && n <= |target|
    ensures Permutation(MoveAll(order, target, n), order)
  {
    if n > 0 {
      MoveAllPermutes(order, target, n - 1);
      MovePermutes(MoveAll(order, target, n - 1), target[n - 1], n - 1);
    }
  }

  // ----- the target

  /** The classes in the order the file is to have. */
  const CLASSES := [Defaults, Zone, Forwarding, OtherRule, ForwardRule, OutputRule, InputRule]

  /** One listing after the other. */
  function Arranged(listing: Class -> seq<string>, classes: seq<Class>): seq<string> {
    if classes == [] then [] else listing(classes[0]) + Arranged(listing, classes[1..])
  }

  lemma EveryClass(k: Class)
    ensures k in CLASSES && NoDup(CLASSES)
  {
    assert CLASSES[0] == Defaults && CLASSES[1] == Zone && CLASSES[2] == Forwarding && CLASSES[3] == OtherRule;
    assert CLASSES[4] == ForwardRule && CLASSES[5] == OutputRule && CLASSES[6] == InputRule;
  }

  function Listing(c: Firewall): Class -> seq<string> {
    k => ClassIds(c, k)
  }

  function Target(c: Firewall): seq<string> {
    Arranged(Listing(c), CLASSES)
  }

  /** The listing with one class replaced. */
  function Replaced(c: Firewall, k: Class, ids: seq<string>): Class -> seq<string> {
    j => if j == k then ids else ClassIds(c, j)
  }

  /** Every class is listed without repetition, and holds exactly its sections. */
  ghost predicate Lists(c: Firewall, listing: Class -> seq<string>) {
    forall k :: NoDup(listing(k)) &&
      forall id :: id in listing(k) <==> id in c.order && id in c.secs && ClassOf(c.secs[id]) == k
  }

  lemma OwnListing(c: Firewall)
    requires c.Valid()
    ensures Lists(c, Listing(c))
  {
    forall k ensures NoDup(ClassIds(c, k)) {
      SelectNoDup(Is(k), c.order, c.secs);
    }
  }

  lemma AppendClass(a: seq<string>, b: seq<string>)
    requires NoDup(a) && NoDup(b) && forall id :: id in a ==> id !in b
    ensures NoDup(a + b)
  {
    forall i | 0 <= i < |a| ensures a[i] !in b {
      assert a[i] in a;
    }
    NoDupConcat(a, b);
  }

  lemma {:induction false} ArrangedMembers(c: Firewall, listing: Class -> seq<string>, classes: seq<Class>)
    requires Lists(c, listing) && NoDup(classes)
    ensures NoDup(Arranged(listing, classes))
    ensures forall id :: id in Arranged(listing, classes) <==>
        id in c.order && id in c.secs && ClassOf(c.secs[id]) in classes
  {
    if classes != [] {
      ArrangedMembers(c, listing, classes[1..]);
      assert classes == [classes[0]] + classes[1..];
      AppendClass(listing(classes[0]), Arranged(listing, classes[1..]));
    }
  }

  /** Listing every class lists every section once. */
  lemma ArrangedPermutes(c: Firewall, listing: Class -> seq<string>)
    requires c.Valid() && Lists(c, listing)
    ensures Permutation(c.order, Arranged(listing, CLASSES))
  {
    EveryClass(Defaults);
    ArrangedMembers(c, listing, CLASSES);
    forall id | id in c.order ensures id in Arranged(listing, CLASSES) {
      EveryClass(ClassOf(c.secs[id]));
    }
  }

  // ----- stability

  lemma SelectClass(c: Firewall, listing: Class -> seq<string>, k: Class, j: Class)
    requires Lists(c, listing)
    ensures Select(Is(k), listing(j), c.secs) == if j == k then listing(k) else []
  {
    assert NoDup(listing(j));
    if j == k {
      SelectAll(Is(k), listing(j), c.secs);
    } else {
      SelectNone(Is(k), listing(j), c.secs);
    }
  }

  /** Every class of the arranged file is listed as given. */
  lemma {:induction false} ArrangedListing(c: Firewall, listing: Class -> seq<string>, classes: seq<Class>, k: Class)
    requires Lists(c, listing) && NoDup(classes)
    ensures Select(Is(k), Arranged(listing, classes), c.secs) == if k in classes then listing(k) else []
  {
    if classes != [] {
      var rest := Arranged(listing, classes[1..]);
      ArrangedListing(c, listing, classes[1..], k);
      SelectClass(c, listing, k, classes[0]);
      SelectConcat(Is(k), listing(classes[0]), rest, c.secs);
      assert classes == [classes[0]] + classes[1..];
      assert listing(k) + [] == listing(k) && [] + listing(k) == listing(k);
    }
  }

  /** Sections of an earlier class come first. */
  ghost predicate Grouped(c: Firewall, order: seq<string>, classes: seq<Class>) {
    forall i, j :: 0 <= i < j < |order| ==>
      order[i] in c.secs && order[j] in c.secs
      && IndexOf(classes, ClassOf(c.secs[order[i]])) <= IndexOf(classes, ClassOf(c.secs[order[j]]))
  }

  /** Two sections of an arrangement, the first of which may be of the first class. */
  lemma GroupedPair(c: Firewall, first: seq<string>, rest: seq<string>, classes: seq<Class>, i: nat, j: nat)
    requires classes != [] && i < j < |first| + |rest|
    requires forall id :: id in first ==> id in c.secs && ClassOf(c.secs[id]) == classes[0]
    requires forall id :: id in rest ==> id in c.secs && ClassOf(c.secs[id]) != classes[0]
    requires Grouped(c, rest, classes[1..])
    ensures var a, b := (first + rest)[i], (first + rest)[j];
      && a in c.secs && b in c.secs
      && IndexOf(classes, ClassOf(c.secs[a])) <= IndexOf(classes, ClassOf(c.secs[b]))
  {
    var all := first + rest;
    assert all[i] in all && all[j] in all;
    if i >= |first| {
      assert all[i] == rest[i - |first|] && all[j] == rest[j - |first|];
    } else {
      assert all[i] == first[i] && first[i] in first;
    }
  }

  lemma {:induction false} ArrangedGroups(c: Firewall, listing: Class -> seq<string>, classes: seq<Class>)
    requires Lists(c, listing) && NoDup(classes)
    ensures Grouped(c, Arranged(listing, classes), classes)
  {
    if classes != [] {
      var first, rest := listing(classes[0]), Arranged(listing, classes[1..]);
      ArrangedGroups(c, listing, classes[1..]);
      ArrangedMembers(c, listing, classes[1..]);
      forall i, j | 0 <= i < j < |first + rest|
        ensures (first + rest)[i] in c.secs && (first + rest)[j] in c.secs
        ensures IndexOf(classes, ClassOf(c.secs[(first + rest)[i]])) <=
                  IndexOf(classes, ClassOf(c.secs[(first + rest)[j]]))
      {
        GroupedPair(c, first, rest, classes, i, j);
      }
    }
  }

  /** The target holds every section once, class after class, with every class in its old order. */
  lemma TargetIsStablePartition(c: Firewall)
    requires c.Valid()
    ensures Permutation(c.order, Target(c)) && Grouped(c, Target(c), CLASSES)
    ensures forall k :: Select(Is(k), Target(c), c.secs) == ClassIds(c, k)
  {
    OwnListing(c);
    ArrangedPermutes(c, Listing(c));
    EveryClass(Defaults);
    ArrangedGroups(c, Listing(c), CLASSES);
    forall k ensures Select(Is(k), Target(c), c.secs) == ClassIds(c, k) {
      EveryClass(k);
      ArrangedListing(c, Listing(c), CLASSES, k);
    }
  }

  /** The file after the loop of moves. */
  function Reordered(c: Firewall, target: seq<string>): Firewall {
    c.(order := MoveAll(c.order, target, |target|))
  }

  /** Reordering realises the target, and reordering again changes nothing. */
  lemma ReorderTwice(c: Firewall)
    requires c.Valid()
    ensures var once := Reordered(c, Target(c));
            once.order == Target(c) && once.Valid() && Reordered(once, Target(once)) == once
  {
    TargetIsStablePartition(c);
    ReorderRealises(c.order, Target(c));
    var once := Reordered(c, Target(c));
    forall k ensures ClassIds(once, k) == ClassIds(c, k) {}
    SameListingSameArrangement(Listing(once), Listing(c), CLASSES);
    TargetIsStablePartition(once);
    ReorderRealises(once.order, Target(once));
  }

  lemma {:induction false} SameListingSameArrangement(a: Class -> seq<string>, b: Class -> seq<string>,
    classes: seq<Class>)
    requires forall k :: a(k) == b(k)
    ensures Arranged(a, classes) == Arranged(b, classes)
  {
    if classes != [] {
      SameListingSameArrangement(a, b, classes[1..]);
    }
  }
}
