/** The cascade as the hook performs it: nested loops that delete and rewrite sections. */
module NetworkCleaner {
  import opened CleanNetwork
  import opened Multiwan
  import opened Sequences
  import opened Uci
  import opened Wrappers

  // ----- what one loop does to the sections

  /** The listed sections that go are gone, the other listed ones are rewritten, the rest is as before. */
  ghost predicate Swept(before: map<string, Entry>, after: map<string, Entry>, ids: seq<string>, gone: Entry -> bool,
    next: Entry -> Entry)
  {
    && (forall id :: id in after <==> id in before && !(id in ids && gone(before[id])))
    && (forall id :: id in after ==> after[id] == if id in ids then next(before[id]) else before[id])
  }

  function Same(): Entry -> Entry {
    (e: Entry) => e
  }

  function Rewriting(removed: seq<string>): Entry -> Entry {
    (e: Entry) => if e.Policy? then Policy(RemoveEach(e.useMember, removed)) else e
  }

  function Emptied(removed: seq<string>): Entry -> bool {
    (e: Entry) => e.Policy? && RemoveEach(e.useMember, removed) == []
  }

  function Unused(removed: seq<string>): Entry -> bool {
    (e: Entry) => e.Rule? && RemoveEach(e.usePolicy, removed) == []
  }

  /** Deleting a section keeps the order of the others. */
  lemma DeleteKeepsOrder(order: seq<string>, c: Mwan, id: string)
    requires c.order == Keep(order, c.secs.Keys)
    ensures c.Delete(id).order == Keep(order, c.Delete(id).secs.Keys)
  {
    KeepWithout(order, c.secs.Keys, id);
    assert c.Delete(id).secs.Keys == c.secs.Keys - {id};
  }

  function IsMember(): Entry -> bool {
    (e: Entry) => e.Member?
  }

  function IsRule(): Entry -> bool {
    (e: Entry) => e.Rule?
  }

  /** The three lists are those of the sections seen. */
  ghost predicate Split(entries: seq<string>, secs: map<string, Entry>, policies: seq<string>, rules: seq<string>,
    members: seq<string>)
  {
    policies == Select(IsPolicy(), entries, secs) && rules == Select(IsRule(), entries, secs) &&
      members == Select(IsMember(), entries, secs)
  }

  predicate AllThere(entries: seq<string>, secs: map<string, Entry>) {
    forall i :: 0 <= i < |entries| ==> entries[i] in secs
  }

  lemma ThereNext(entries: seq<string>, secs: map<string, Entry>, i: nat)
    requires i < |entries|
    ensures AllThere(entries[..i + 1], secs) <==> AllThere(entries[..i], secs) && entries[i] in secs
  {
  }

  lemma SplitNext(entries: seq<string>, secs: map<string, Entry>, i: nat, policies: seq<string>, rules: seq<string>,
    members: seq<string>)
    requires i < |entries| && entries[i] in secs && Split(entries[..i], secs, policies, rules, members)
    ensures var id, e := entries[i], secs[entries[i]];
            Split(entries[..i + 1], secs, Joined(policies, e.Policy?, id), Joined(rules, e.Rule?, id),
              Joined(members, e.Member?, id))
  {
    JoinedNext(IsPolicy(), entries, secs, i);
    JoinedNext(IsRule(), entries, secs, i);
    JoinedNext(IsMember(), entries, secs, i);
  }

  method Drop(list: seq<string>, removed: seq<string>) returns (left: seq<string>)
    ensures left == RemoveEach(list, removed)
  {
    left := list;
    for i := 0 to |removed|
      invariant left == RemoveEach(list, removed[..i])
    {
      assert removed[..i + 1][..i] == removed[..i];
      if removed[i] in left {
        left := RemoveFirst(left, removed[i]);
      } else {
        RemoveAbsent(left, removed[i]);
      }
    }
    assert removed[..|removed|] == removed;
  }

  lemma {:induction false} RemoveAbsent(s: seq<string>, x: string)
    requires x !in s
    ensures RemoveFirst(s, x) == s
  {
    if s != [] {
      assert s == [s[0]] + s[1..];
      RemoveAbsent(s[1..], x);
    }
  }

  lemma SweptNext(before: map<string, Entry>, after: map<string, Entry>, ids: seq<string>, id: string,
    gone: Entry -> bool, next: Entry -> Entry)
    requires Swept(before, after, ids, gone, next) && id !in ids && id in before
    ensures id in after && after[id] == before[id]
    ensures gone(before[id]) ==> Swept(before, after - {id}, ids + [id], gone, next)
    ensures !gone(before[id]) ==> Swept(before, after[id := next(before[id])], ids + [id], gone, next)
  {
  }

  lemma PolicySwept(before: map<string, Entry>, after: map<string, Entry>, ids: seq<string>, id: string,
    removed: seq<string>)
    requires Swept(before, after, ids, Emptied(removed), Rewriting(removed)) && id !in ids && id in before &&
        before[id].Policy?
    ensures id in after && after[id] == before[id]
    ensures var left := RemoveEach(before[id].useMember, removed);
            && Emptied(removed)(before[id]) == (left == [])
            && (left == [] ==> Swept(before, after - {id}, ids + [id], Emptied(removed), Rewriting(removed)))
            && (left != [] ==>
              Swept(before, after[id := Policy(left)], ids + [id], Emptied(removed), Rewriting(removed)))
  {
    SweptNext(before, after, ids, id, Emptied(removed), Rewriting(removed));
  }

  ghost predicate PoliciesSwept(before: map<string, Entry>, after: map<string, Entry>, ids: seq<string>,
    removed: seq<string>, gone: seq<string>)
  {
    Swept(before, after, ids, Emptied(removed), Rewriting(removed)) && gone == Select(Emptied(removed), ids, before)
  }

  lemma NextPolicy(before: map<string, Entry>, after: map<string, Entry>, policies: seq<string>, i: nat,
    removed: seq<string>, gone: seq<string>)
    requires NoDup(policies) && i < |policies| && PoliciesSwept(before, after, policies[..i], removed, gone)
    requires policies[i] in before && before[policies[i]].Policy?
    ensures var id, left := policies[i], RemoveEach(before[policies[i]].useMember, removed);
            && id in after && after[id] == before[id]
            && (left == [] ==> PoliciesSwept(before, after - {id}, policies[..i + 1], removed, gone + [id]))
            && (left != [] ==> PoliciesSwept(before, after[id := Policy(left)], policies[..i + 1], removed, gone))
  {
    NextListed(policies, i, Emptied(removed), before);
    PolicySwept(before, after, policies[..i], policies[i], removed);
    assert gone + [] == gone;
  }

  /** The next section of a list without repetition, and the list of those that go. */
  lemma NextListed(ids: seq<string>, i: nat, p: Entry -> bool, secs: map<string, Entry>)
    requires NoDup(ids) && i < |ids| && ids[i] in secs
    ensures ids[i] !in ids[..i] && ids[..i + 1] == ids[..i] + [ids[i]]
    ensures Select(p, ids[..i + 1], secs) == Select(p, ids[..i], secs) + if p(secs[ids[i]]) then [ids[i]] else []
  {
    NextDistinct(ids, i);
    SelectStep(p, ids, secs, i);
  }

  lemma NextDistinct(ids: seq<string>, i: nat)
    requires NoDup(ids) && i < |ids|
    ensures ids[i] !in ids[..i] && ids[..i + 1] == ids[..i] + [ids[i]]
  {
  }

  class NetworkCleaner {
    var mwan: Mwan
    var qosify: Qosify

    constructor (start: State)
      ensures mwan == start.mwan && qosify == start.qosify
    {
      mwan, qosify := start.mwan, start.qosify;
    }

    /** Delete the members of the interface and list them; a member without an interface raises. */
    method DeleteMembers(members: seq<string>, x: string, ghost order: seq<string>)
      returns (ok: bool, removed: seq<string>)
      requires NoDup(members) && forall id :: id in members ==> id in mwan.secs && mwan.secs[id].Member?
      requires mwan.order == Keep(order, mwan.secs.Keys)
      modifies `mwan
      ensures ok <==> forall i :: 0 <= i < |members| ==> old(mwan).secs[members[i]] != Member(None)
      ensures ok ==> Swept(old(mwan).secs, mwan.secs, members, IsMemberOf(x), Same())
      ensures ok ==> removed == Select(IsMemberOf(x), members, old(mwan).secs)
      ensures mwan.order == Keep(order, mwan.secs.Keys)
    {
      removed := [];
      ghost var before := mwan.secs;
      for i := 0 to |members|
        invariant Swept(before, mwan.secs, members[..i], IsMemberOf(x), Same())
        invariant removed == Select(IsMemberOf(x), members[..i], before)
        invariant forall j :: 0 <= j < i ==> before[members[j]] != Member(None)
        invariant mwan.order == Keep(order, mwan.secs.Keys)
      {
        var member := members[i];
        assert member in members;
        NextListed(members, i, IsMemberOf(x), before);
        SweptNext(before, mwan.secs, members[..i], member, IsMemberOf(x), Same());
        var interface := mwan.secs[member].interface;
        if interface.None? {
          return false, removed;
        }
        if interface.value == x {
          DeleteKeepsOrder(order, mwan, member);
          mwan := mwan.Delete(member);
          removed := removed + [member];
        } else {
          assert mwan.secs[member := before[member]] == mwan.secs;
        }
      }
      assert members[..|members|] == members;
      return true, removed;
    }

    method SweepPolicy(policy: string, removed: seq<string>, ghost order: seq<string>) returns (empty: bool)
      requires policy in mwan.secs && mwan.secs[policy].Policy? && mwan.order == Keep(order, mwan.secs.Keys)
      modifies `mwan
      ensures mwan.order == Keep(order, mwan.secs.Keys)
      ensures var left := RemoveEach(old(mwan).secs[policy].useMember, removed);
              && empty == (left == [])
              && mwan.secs == if empty then old(mwan).secs - {policy} else old(mwan).secs[policy := Policy(left)]
    {
      var left := Drop(mwan.secs[policy].useMember, removed);
      empty := left == [];
      if empty {
        DeleteKeepsOrder(order, mwan, policy);
        mwan := mwan.Delete(policy);
      } else {
        SetKeepsOrder(order, mwan, policy, Policy(left));
        mwan := mwan.Set(policy, Policy(left));
      }
    }

    /** Take the removed members out of every policy; a policy without members goes. */
    method SweepPolicies(policies: seq<string>, removed: seq<string>, ghost order: seq<string>)
      returns (gone: seq<string>)
      requires NoDup(policies) && forall id :: id in policies ==> id in mwan.secs && mwan.secs[id].Policy?
      requires mwan.order == Keep(order, mwan.secs.Keys)
      modifies `mwan
      ensures Swept(old(mwan).secs, mwan.secs, policies, Emptied(removed), Rewriting(removed))
      ensures gone == Select(Emptied(removed), policies, old(mwan).secs)
      ensures mwan.order == Keep(order, mwan.secs.Keys)
    {
      gone := [];
      ghost var before := mwan.secs;
      for i := 0 to |policies|
        invariant PoliciesSwept(before, mwan.secs, policies[..i], removed, gone)
        invariant mwan.order == Keep(order, mwan.secs.Keys)
      {
        NextPolicy(before, mwan.secs, policies, i, removed, gone);
        var empty := SweepPolicy(policies[i], removed, order);
        if empty {
          gone := gone + [policies[i]];
        }
      }
      assert policies[..|policies|] == policies;
    }

    /** A rule all of whose policies went goes; any other rule is not touched. */
    method SweepRules(rules: seq<string>, gone: seq<string>, ghost order: seq<string>)
      requires NoDup(rules) && forall id :: id in rules ==> id in mwan.secs && mwan.secs[id].Rule?
      requires mwan.order == Keep(order, mwan.secs.Keys)
      modifies `mwan
      ensures Swept(old(mwan).secs, mwan.secs, rules, Unused(gone), Same())
      ensures mwan.order == Keep(order, mwan.secs.Keys)
    {
      ghost var before := mwan.secs;
      for i := 0 to |rules|
        invariant Swept(before, mwan.secs, rules[..i], Unused(gone), Same())
        invariant mwan.order == Keep(order, mwan.secs.Keys)
      {
        var rule := rules[i];
        assert rule in rules;
        NextListed(rules, i, Unused(gone), before);
        SweptNext(before, mwan.secs, rules[..i], rule, Unused(gone), Same());
        var left := Drop(mwan.secs[rule].usePolicy, gone);
        if left == [] {
          DeleteKeepsOrder(order, mwan, rule);
          mwan := mwan.Delete(rule);
        } else {
          assert mwan.secs[rule := before[rule]] == mwan.secs;
        }
      }
      assert rules[..|rules|] == rules;
    }

    /** Sort the sections by type; reading one that is gone raises. */
    method SplitEntries(entries: seq<string>)
      returns (ok: bool, policies: seq<string>, rules: seq<string>, members: seq<string>)
      ensures ok <==> forall i :: 0 <= i < |entries| ==> entries[i] in mwan.secs
      ensures ok ==> Split(entries, mwan.secs, policies, rules, members)
    {
      policies, rules, members := [], [], [];
      var secs := mwan.secs;
      for i := 0 to |entries|
        invariant AllThere(entries[..i], secs)
        invariant Split(entries[..i], secs, policies, rules, members)
      {
        var entry := entries[i];
        ThereNext(entries, secs, i);
        if entry !in secs {
          return false, [], [], [];
        }
        SplitNext(entries, secs, i, policies, rules, members);
        policies := Joined(policies, secs[entry].Policy?, entry);
        rules := Joined(rules, secs[entry].Rule?, entry);
        members := Joined(members, secs[entry].Member?, entry);
      }
      assert entries[..|entries|] == entries;
      return true, policies, rules, members;
    }

    /** One interface, with the sections as they were when the hook started. */
    method RemoveInterface(entries: seq<string>, x: string) returns (ok: bool)
      requires mwan.Valid() && (Readable(entries, mwan) ==> entries == mwan.order)
      requires x in entries && (x in mwan.secs ==> mwan.secs[x] == Interface)
      requires (forall i :: 0 <= i < |entries| ==> entries[i] in mwan.secs) ==> entries == mwan.order
      modifies `mwan
      ensures ok <==> Readable(entries, old(mwan))
      ensures ok ==> mwan == Cascade(old(mwan), x)
    {
      ghost var c := mwan;
      var policies, rules, members;
      ok, policies, rules, members := SplitEntries(entries);
      if !ok {
        return;
      }
      Listings(c, x, policies, rules, members);
      KeepAll(c.order, c.secs.Keys);
      DeleteKeepsOrder(c.order, mwan, x);
      mwan := mwan.Delete(x);
      ghost var s1 := mwan.secs;
      var removed, gone;
      ok, removed := DeleteMembers(members, x, c.order);
      MembersReadable(c, x, members);
      if !ok {
        return;
      }
      ghost var s2 := mwan.secs;
      MembersListed(c, x, members);
      MembersSwept(c, x, s1, s2, members);
      OthersStay(c, x, s2, policies, rules);
      gone := SweepPolicies(policies, removed, c.order);
      ghost var s3 := mwan.secs;
      PoliciesListed(c, x, s2, policies);
      AfterPolicies(c, x, s2, s3, policies, rules);
      SweepRules(rules, gone, c.order);
      AfterRules(c, x, s3, mwan.secs, rules);
    }

    /** One recorded change. */
    method CleanItem(item: Item, entries: seq<string>, mwanInterfaces: seq<string>, qosifyInterfaces: seq<string>,
      ghost start: State)
      returns (ok: bool)
      requires entries == start.mwan.order && Resumable(start, mwan)
      requires mwanInterfaces == MwanInterfaces(start) && qosifyInterfaces == QosifyInterfaces(start)
      modifies this
      ensures ok <==> RemoveItem(start, State(old(mwan), old(qosify)), item).Some?
      ensures ok ==> RemoveItem(start, State(old(mwan), old(qosify)), item) == Some(State(mwan, qosify))
    {
      ok := true;
      if IsRemoval(item) {
        if |item| < 2 {
          return false;
        }
        var x := item[1];
        if x in qosifyInterfaces {
          if x !in qosify.secs {
            return false;
          }
          qosify := qosify.Delete(x);
        }
        if x in mwanInterfaces {
          ok := RemoveInterface(entries, x);
        }
      }
    }

    /** The hook: the recorded changes in turn; an exception ends it. */
    method CleanNetwork(items: seq<Item>) returns (ok: bool)
      requires mwan.Valid() && qosify.Valid()
      modifies this
      ensures ok <==> CleanUp(State(old(mwan), old(qosify)), items).Some?
      ensures ok ==> CleanUp(State(old(mwan), old(qosify)), items) == Some(State(mwan, qosify))
    {
      ghost var start := State(mwan, qosify);
      var entries := mwan.order;
      var mwanInterfaces := mwan.Ids(IsInterface());
      var qosifyInterfaces := qosify.Ids(IsShaped());
      for i := 0 to |items|
        invariant CleanUp(start, items[..i]) == Some(State(mwan, qosify))
      {
        CleanUpSnoc(start, items, i);
        CompletesIff(start, items[..i]);
        StillReadable(start, items[..i]);
        ok := CleanItem(items[i], entries, mwanInterfaces, qosifyInterfaces, start);
        if !ok {
          return;
        }
      }
      assert items[..|items|] == items;
      return true;
    }
  }

  /** What a cascade needs to know of a configuration that earlier items may have changed. */
  ghost predicate Resumable(start: State, c: Mwan) {
    && c.Valid()
    && (forall x :: x in MwanInterfaces(start) ==> x in start.mwan.order && (x in c.secs ==> c.secs[x] == Interface))
    && ((forall i :: 0 <= i < |start.mwan.order| ==> start.mwan.order[i] in c.secs) ==> start.mwan.order == c.order)
  }

  /** The state after one more item; and once an item raised, the hook has raised. */
  lemma CleanUpSnoc(start: State, items: seq<Item>, i: nat)
    requires i < |items| && CleanUp(start, items[..i]).Some?
    ensures CleanUp(start, items[..i + 1]) == RemoveItem(start, CleanUp(start, items[..i]).value, items[i])
    ensures CleanUp(start, items[..i + 1]).None? ==> CleanUp(start, items).None?
  {
    assert items[..i + 1][..i] == items[..i];
    if CleanUp(start, items[..i + 1]).None? {
      CleanUpStopped(start, items, i + 1);
    }
  }

  lemma {:induction false} CleanUpStopped(start: State, items: seq<Item>, i: nat)
    requires i <= |items| && CleanUp(start, items[..i]).None?
    ensures CleanUp(start, items).None?
  {
    if i == |items| {
      assert items[..i] == items;
    } else {
      assert items[..|items| - 1][..i] == items[..i];
      CleanUpStopped(start, items[..|items| - 1], i);
    }
  }

  /** Either nothing was removed from the multi-WAN configuration yet, or one of its sections is missing. */
  lemma StillReadable(start: State, items: seq<Item>)
    requires start.mwan.Valid()
    ensures Resumable(start, ExpectedMwan(start, items))
  {
    var named := Named(items, MwanInterfaces(start));
    if named != [] {
      assert named[0] in named;
      CascadeValid(start.mwan, named[0]);
      var i :| 0 <= i < |start.mwan.order| && start.mwan.order[i] == named[0];
      assert start.mwan.order[i] !in Cascade(start.mwan, named[0]).secs;
    }
  }

  lemma {:induction false} KeepNoDup(s: seq<string>, kept: set<string>)
    requires NoDup(s)
    ensures NoDup(Keep(s, kept))
  {
    if s != [] {
      KeepNoDup(s[..|s| - 1], kept);
    }
  }

  lemma CascadeValid(c: Mwan, x: string)
    requires c.Valid()
    ensures Cascade(c, x).Valid()
  {
    KeepNoDup(c.order, Cascade(c, x).secs.Keys);
  }

  // ----- the stages of the cascade

  lemma Listings(c: Mwan, x: string, policies: seq<string>, rules: seq<string>, members: seq<string>)
    requires c.Valid() && x in c.secs && c.secs[x] == Interface
    requires policies == c.Ids(IsPolicy()) && rules == c.Ids(IsRule()) && members == c.Ids(IsMember())
    ensures NoDup(policies) && NoDup(rules) && NoDup(members)
    ensures forall id :: id in members ==> id in c.secs && c.secs[id].Member? && id != x
  {
    SelectNoDup(IsPolicy(), c.order, c.secs);
    SelectNoDup(IsRule(), c.order, c.secs);
    SelectNoDup(IsMember(), c.order, c.secs);
  }

  lemma MembersReadable(c: Mwan, x: string, members: seq<string>)
    requires c.Valid() && x in c.secs && c.secs[x] == Interface && members == c.Ids(IsMember())
    ensures Readable(c.order, c) <==> forall i :: 0 <= i < |members| ==> (c.secs - {x})[members[i]] != Member(None)
  {
    forall i | 0 <= i < |members| ensures members[i] in c.order && members[i] in c.secs - {x} {
      assert members[i] in members;
    }
    if !Readable(c.order, c) {
      var i :| 0 <= i < |c.order| && c.secs[c.order[i]] == Member(None);
      assert c.order[i] in members;
    }
  }

  ghost predicate MembersDone(c: Mwan, x: string, s: map<string, Entry>) {
    forall id :: (id in s <==> id in c.secs && id != x && !MemberOf(c, id, x)) && (id in s ==> s[id] == c.secs[id])
  }

  lemma MembersListed(c: Mwan, x: string, members: seq<string>)
    requires c.Valid() && x in c.secs && c.secs[x] == Interface && members == c.Ids(IsMember())
    ensures Select(IsMemberOf(x), members, c.secs - {x}) == MembersOf(c, x)
  {
    SelectWithin(IsMemberOf(x), IsMember(), c.order, c.secs, c.secs - {x});
  }

  lemma OthersStay(c: Mwan, x: string, s2: map<string, Entry>, policies: seq<string>, rules: seq<string>)
    requires c.Valid() && x in c.secs && c.secs[x] == Interface && MembersDone(c, x, s2)
    requires policies == c.Ids(IsPolicy()) && rules == c.Ids(IsRule())
    ensures forall id :: id in policies ==> id in s2 && s2[id] == c.secs[id] && s2[id].Policy?
    ensures forall id :: id in rules ==> id in s2 && s2[id] == c.secs[id] && s2[id].Rule?
  {
  }

  lemma MembersSwept(c: Mwan, x: string, s1: map<string, Entry>, s2: map<string, Entry>, members: seq<string>)
    requires c.Valid() && s1 == c.secs - {x} && members == c.Ids(IsMember())
    requires Swept(s1, s2, members, IsMemberOf(x), Same())
    ensures MembersDone(c, x, s2)
  {
    forall id ensures (id in s2 <==> id in c.secs && id != x && !MemberOf(c, id, x)) &&
      (id in s2 ==> s2[id] == c.secs[id])
    {
      if id in s1 {
        assert MemberOf(c, id, x) ==> id in members;
      }
    }
  }

  ghost predicate PoliciesDone(c: Mwan, x: string, s: map<string, Entry>) {
    forall id :: (id in s <==> id in c.secs && id != x && !MemberOf(c, id, x) && !PolicyGone(c, x, id))
                 && (id in s ==> s[id] == Rewritten(c, x, c.secs[id]))
  }

  lemma PoliciesListed(c: Mwan, x: string, s2: map<string, Entry>, policies: seq<string>)
    requires c.Valid() && policies == c.Ids(IsPolicy())
    requires forall id :: id in policies ==> id in s2 && s2[id] == c.secs[id]
    ensures Select(Emptied(MembersOf(c, x)), policies, s2) == PoliciesGone(c, x)
  {
    SelectWithin(Emptied(MembersOf(c, x)), IsPolicy(), c.order, c.secs, s2);
    SelectSame(Emptied(MembersOf(c, x)), IsGone(c, x), c.order, c.secs);
  }

  lemma AfterPolicy(c: Mwan, x: string, s2: map<string, Entry>, s3: map<string, Entry>, policies: seq<string>,
    id: string)
    requires c.Valid() && MembersDone(c, x, s2) && policies == c.Ids(IsPolicy())
    requires Swept(s2, s3, policies, Emptied(MembersOf(c, x)), Rewriting(MembersOf(c, x)))
    ensures id in s3 <==> id in c.secs && id != x && !MemberOf(c, id, x) && !PolicyGone(c, x, id)
    ensures id in s3 ==> s3[id] == Rewritten(c, x, c.secs[id])
  {
    if id in c.secs && c.secs[id].Policy? {
      assert id in policies;
    } else {
      assert id !in policies;
    }
  }

  lemma AfterPolicies(c: Mwan, x: string, s2: map<string, Entry>, s3: map<string, Entry>, policies: seq<string>,
    rules: seq<string>)
    requires c.Valid() && x in c.secs && c.secs[x] == Interface && MembersDone(c, x, s2)
    requires policies == c.Ids(IsPolicy()) && rules == c.Ids(IsRule())
    requires Swept(s2, s3, policies, Emptied(MembersOf(c, x)), Rewriting(MembersOf(c, x)))
    ensures PoliciesDone(c, x, s3)
    ensures forall id :: id in rules ==> id in s3 && s3[id] == c.secs[id] && s3[id].Rule?
  {
    forall id ensures (id in s3 <==> id in c.secs && id != x && !MemberOf(c, id, x) && !PolicyGone(c, x, id))
                      && (id in s3 ==> s3[id] == Rewritten(c, x, c.secs[id]))
    {
      AfterPolicy(c, x, s2, s3, policies, id);
    }
  }

  lemma AfterRule(c: Mwan, x: string, s3: map<string, Entry>, s4: map<string, Entry>, rules: seq<string>, id: string)
    requires c.Valid() && x in c.secs && c.secs[x] == Interface && PoliciesDone(c, x, s3)
    requires rules == c.Ids(IsRule()) && Swept(s3, s4, rules, Unused(PoliciesGone(c, x)), Same())
    ensures id in s4 <==> id in c.secs && Survives(c, x, id)
    ensures id in s4 ==> s4[id] == Rewritten(c, x, c.secs[id])
  {
    if id in c.secs && c.secs[id].Rule? {
      assert id in rules;
    } else {
      assert id !in rules;
    }
  }

  lemma AfterRules(c: Mwan, x: string, s3: map<string, Entry>, s4: map<string, Entry>, rules: seq<string>)
    requires c.Valid() && x in c.secs && c.secs[x] == Interface && PoliciesDone(c, x, s3)
    requires rules == c.Ids(IsRule()) && Swept(s3, s4, rules, Unused(PoliciesGone(c, x)), Same())
    ensures s4 == Cascade(c, x).secs
  {
    forall id ensures (id in s4 <==> id in c.secs && Survives(c, x, id)) &&
      (id in s4 ==> s4[id] == Rewritten(c, x, c.secs[id]))
    {
      AfterRule(c, x, s3, s4, rules, id);
    }
  }

  lemma SetKeepsOrder(order: seq<string>, c: Mwan, id: string, e: Entry)
    requires c.order == Keep(order, c.secs.Keys) && id in c.secs
    ensures c.Set(id, e).order == Keep(order, c.Set(id, e).secs.Keys)
  {
    assert c.Set(id, e).secs.Keys == c.secs.Keys;
  }
}
