/** The addresses an object stands for: a recursive expansion that deduplicates at every level. */
module ObjectIps {
  import opened Objects
  import opened Sequences
  import opened Wrappers

  // ----- the measure

  ghost predicate Reaches(s: Store, a: string, b: string) {
    exists p :: IsPath(s, p) && |p| >= 2 && p[0] == a && p[|p| - 1] == b
  }

  ghost function Reach(s: Store, a: string): set<string> {
    set b | b in s.objects && Reaches(s, a, b)
  }

  /** The object sets that an expansion of the name can visit. */
  ghost function Below(s: Store, name: string): set<string> {
    match SplitSlash(name)
    case None => {}
    case Some((database, id)) => if database == OBJECTS && id in s.objects then {id} + Reach(s, id) else {}
  }

  lemma ReachesOver(s: Store, a: string, b: string, c: string)
    requires Edge(s, a, b) && Reaches(s, b, c)
    ensures Reaches(s, a, c)
  {
    var p :| IsPath(s, p) && |p| >= 2 && p[0] == b && p[|p| - 1] == c;
    assert IsPath(s, [a, b]);
    PathJoin(s, [a, b], p);
    assert |[a, b] + p[1..]| >= 2;
  }

  lemma EdgeReaches(s: Store, a: string, b: string)
    requires Edge(s, a, b)
    ensures Reaches(s, a, b)
  {
    assert IsPath(s, [a, b]);
  }

  lemma AcyclicReaches(s: Store, a: string)
    requires Acyclic(s)
    ensures !Reaches(s, a, a)
  {
  }

  /** A member's expansion visits strictly less, so the recursion ends. */
  lemma BelowShrinks(s: Store, id: string, m: string)
    requires Loopless(s) && id in s.objects && m in s.objects[id].members
    ensures Below(s, m) < Below(s, Ref(id))
  {
    SplitRef(id);
    assert id in Below(s, Ref(id));
    if SplitSlash(m).Some? && SplitSlash(m).value.0 == OBJECTS && SplitSlash(m).value.1 in s.objects {
      var b := SplitSlash(m).value.1;
      SplitIsRef(m);
      EdgeBelow(s, id, b);
    }
  }

  lemma EdgeBelow(s: Store, a: string, b: string)
    requires Acyclic(s) && Edge(s, a, b)
    ensures {b} + Reach(s, b) <= Reach(s, a) && a !in {b} + Reach(s, b)
  {
    EdgeReaches(s, a, b);
    forall c | c in Reach(s, b) ensures c in Reach(s, a) && c != a {
      ReachesOver(s, a, b, c);
      AcyclicReaches(s, a);
    }
    AcyclicReaches(s, a);
  }

  // ----- the reference tree

  /** Everything the name stands for, left to right and with repetition; None when a name is malformed. */
  function Tree(s: Store, name: string): Option<seq<string>>
    requires Loopless(s)
    decreases Below(s, name), 1, 0
  {
    if name == "" then Some([])
    else
      match SplitSlash(name)
      case None => None
      case Some((database, id)) =>
        match Lookup(s, name)
        case None => Some([])
        case Some(o) =>
          if database == "dhcp" then Some(if o.ip != "" then [o.ip] else [])
          else if database == "users" then Some(if o.vpnIp != "" then [o.vpnIp] else [])
          else if database == OBJECTS then
            SplitIsRef(name);
            TreeOfMembers(s, id, o.members)
          else Some([])
  }

  function TreeOfMember(s: Store, id: string, m: string): Option<seq<string>>
    requires Loopless(s) && id in s.objects && m in s.objects[id].members
    decreases Below(s, Ref(id)), 0, 0
  {
    BelowShrinks(s, id, m);
    if IsObjectId(m) then Tree(s, m) else Some([m])
  }

  function TreeOfMembers(s: Store, id: string, members: seq<string>): Option<seq<string>>
    requires Loopless(s) && id in s.objects && forall m :: m in members ==> m in s.objects[id].members
    decreases Below(s, Ref(id)), 0, |members| + 1
  {
    if members == [] then Some([])
    else
      var init, last := members[..|members| - 1], members[|members| - 1];
      var before := TreeOfMembers(s, id, init);
      var after := TreeOfMember(s, id, last);
      if before.None? || after.None? then None else Some(before.value + after.value)
  }

  /** Deduplicated once, by first occurrence. */
  function Addresses(s: Store, name: string): Option<seq<string>>
    requires Loopless(s)
  {
    match Tree(s, name)
    case None => None
    case Some(t) => Some(Dedup(t))
  }

  // ----- the program

  lemma ExtendDedup(ips: seq<string>, tree: seq<string>, more: seq<string>)
    requires Dedup(ips) == Dedup(tree)
    ensures Dedup(ips + more) == Dedup(tree + more)
    ensures Dedup(ips + Dedup(more)) == Dedup(tree + more)
  {
    DedupAbsorbs(ips, more);
    DedupAbsorbs(tree, more);
    DedupAbsorbs(ips, Dedup(more));
    DedupNoDup(more);
    DedupOfNoDup(Dedup(more));
  }

  lemma TreeSnoc(s: Store, id: string, members: seq<string>, i: nat)
    requires Loopless(s) && id in s.objects && i < |members| && forall m :: m in members ==> m in s.objects[id].members
    ensures members[i] in s.objects[id].members
    ensures var before, after := TreeOfMembers(s, id, members[..i]), TreeOfMember(s, id, members[i]);
            TreeOfMembers(s, id, members[..i + 1]) ==
            if before.None? || after.None? then None else Some(before.value + after.value)
  {
    assert members[i] in members;
    assert members[..i + 1][..i] == members[..i];
  }

  lemma {:induction false} TreeFails(s: Store, id: string, members: seq<string>, i: nat)
    requires Loopless(s) && id in s.objects && forall m :: m in members ==> m in s.objects[id].members
    requires i <= |members| && TreeOfMembers(s, id, members[..i]).None?
    ensures TreeOfMembers(s, id, members).None?
    decreases |members|
  {
    if i < |members| {
      assert members[..|members| - 1][..i] == members[..i];
      TreeFails(s, id, members[..|members| - 1], i);
    } else {
      assert members[..i] == members;
    }
  }

  /**
   The recursion of the program, which deduplicates what every nested set returns; it yields the whole
   tree deduplicated once.
   */
  method GetObjectIps(s: Store, name: string) returns (r: Option<seq<string>>)
    requires Loopless(s)
    ensures r == Addresses(s, name)
    decreases Below(s, name), 1, 0
  {
    if name == "" {
      return Some([]);
    }
    var parts := SplitSlash(name);
    if parts.None? {
      return None;
    }
    var obj := Lookup(s, name);
    if obj.None? {
      return Some([]);
    }
    var database := parts.value.0;
    var ips := [];
    if database == "dhcp" {
      if obj.value.ip != "" {
        ips := ips + [obj.value.ip];
      }
    } else if database == "users" {
      if obj.value.vpnIp != "" {
        ips := ips + [obj.value.vpnIp];
      }
    } else if database == OBJECTS {
      SplitIsRef(name);
      var all := ExpandMembers(s, parts.value.1);
      if all.None? {
        return None;
      }
      ips := all.value;
    }
    r := Some(Dedup(ips));
  }

  method ExpandMembers(s: Store, id: string) returns (r: Option<seq<string>>)
    requires Loopless(s) && id in s.objects
    ensures r.Some? <==> TreeOfMembers(s, id, s.objects[id].members).Some?
    ensures r.Some? ==> Dedup(r.value) == Dedup(TreeOfMembers(s, id, s.objects[id].members).value)
    decreases Below(s, Ref(id)), 0, 0
  {
    var members := s.objects[id].members;
    var ips := [];
    for i := 0 to |members|
      invariant TreeOfMembers(s, id, members[..i]).Some?
      invariant Dedup(ips) == Dedup(TreeOfMembers(s, id, members[..i]).value)
    {
      TreeSnoc(s, id, members, i);
      var m := members[i];
      ghost var before := TreeOfMembers(s, id, members[..i]).value;
      if IsObjectId(m) {
        BelowShrinks(s, id, m);
        var nested := GetObjectIps(s, m);
        if nested.None? {
          TreeFails(s, id, members, i + 1);
          return None;
        }
        ExtendDedup(ips, before, TreeOfMember(s, id, m).value);
        ips := ips + nested.value;
      } else {
        ExtendDedup(ips, before, [m]);
        ips := ips + [m];
      }
    }
    assert members[..|members|] == members;
    r := Some(ips);
  }

  /** The result has no duplicates and holds exactly what the tree holds. */
  lemma AddressesDistinct(s: Store, name: string)
    requires Loopless(s) && Addresses(s, name).Some?
    ensures NoDup(Addresses(s, name).value)
    ensures forall a :: a in Addresses(s, name).value <==> a in Tree(s, name).value
  {
    DedupNoDup(Tree(s, name).value);
  }

  // ----- when the expansion raises

  /** Some member of the set looks like a name but does not split into a database and an id. */
  ghost predicate Malformed(s: Store, id: string) {
    id in s.objects && exists m :: m in s.objects[id].members && IsObjectId(m) && SplitSlash(m).None?
  }

  ghost predicate Fails(s: Store, name: string) {
    (name != "" && SplitSlash(name).None?) || exists b :: b in Below(s, name) && Malformed(s, b)
  }

  ghost predicate SomeFails(s: Store, members: seq<string>) {
    exists m :: m in members && IsObjectId(m) && Fails(s, m)
  }

  /** What a set reaches is one of its members or below one of them. */
  lemma ReachStep(s: Store, a: string, c: string)
    requires Reaches(s, a, c)
    ensures exists b :: Edge(s, a, b) && (c == b || Reaches(s, b, c))
  {
    var p :| IsPath(s, p) && |p| >= 2 && p[0] == a && p[|p| - 1] == c;
    PathTail(s, p);
    assert Edge(s, a, p[1]);
    if |p| > 2 {
      assert Reaches(s, p[1], c);
    }
  }

  lemma BelowOfRef(s: Store, id: string)
    requires Loopless(s) && id in s.objects
    ensures Below(s, Ref(id)) == {id} + Reach(s, id)
  {
    SplitRef(id);
  }

  ghost predicate HoldsMalformed(s: Store, id: string) {
    exists b :: b in {id} + Reach(s, id) && Malformed(s, b)
  }

  lemma RefFails(s: Store, id: string)
    requires Loopless(s) && id in s.objects
    ensures IsObjectId(Ref(id)) && (Fails(s, Ref(id)) <==> HoldsMalformed(s, id))
  {
    BelowOfRef(s, id);
    SplitRef(id);
  }

  lemma MemberFails(s: Store, id: string)
    requires Loopless(s) && id in s.objects && HoldsMalformed(s, id)
    ensures SomeFails(s, s.objects[id].members)
  {
    var b :| b in {id} + Reach(s, id) && Malformed(s, b);
    if b == id {
      var m :| m in s.objects[id].members && IsObjectId(m) && SplitSlash(m).None?;
      assert Fails(s, m);
    } else {
      ReachStep(s, id, b);
      var c :| Edge(s, id, c) && (b == c || Reaches(s, c, b));
      assert HoldsMalformed(s, c);
      RefFails(s, c);
    }
  }

  lemma MemberFailureSpreads(s: Store, id: string, m: string)
    requires Loopless(s) && id in s.objects && m in s.objects[id].members && IsObjectId(m) && Fails(s, m)
    ensures Fails(s, Ref(id))
  {
    BelowOfRef(s, id);
    if SplitSlash(m).None? {
      assert Malformed(s, id);
    } else {
      BelowShrinks(s, id, m);
    }
  }

  /** A set fails exactly when one of its members does. */
  lemma SetFailsIff(s: Store, id: string)
    requires Loopless(s) && id in s.objects
    ensures Fails(s, Ref(id)) <==> SomeFails(s, s.objects[id].members)
  {
    RefFails(s, id);
    if HoldsMalformed(s, id) {
      MemberFails(s, id);
    }
    if SomeFails(s, s.objects[id].members) {
      var m :| m in s.objects[id].members && IsObjectId(m) && Fails(s, m);
      MemberFailureSpreads(s, id, m);
    }
  }

  /** On any acyclic store an expansion raises exactly for a malformed name, or above a set that holds one. */
  lemma ExpansionFailsIff(s: Store, name: string)
    requires Loopless(s)
    ensures Addresses(s, name).None? <==> Fails(s, name)
  {
    TreeFailsIff(s, name);
  }

  lemma {:induction false} TreeFailsIff(s: Store, name: string)
    requires Loopless(s)
    ensures Tree(s, name).None? <==> Fails(s, name)
    decreases Below(s, name), 1, 0
  {
    if name != "" && SplitSlash(name).Some? {
      var (database, id) := SplitSlash(name).value;
      if database == OBJECTS && id in s.objects {
        SplitIsRef(name);
        MembersFailIff(s, id, s.objects[id].members);
        SetFailsIff(s, id);
      }
    }
  }

  lemma {:induction false} MembersFailIff(s: Store, id: string, members: seq<string>)
    requires Loopless(s) && id in s.objects && forall m :: m in members ==> m in s.objects[id].members
    ensures TreeOfMembers(s, id, members).None? <==> SomeFails(s, members)
    decreases Below(s, Ref(id)), 0, |members|
  {
    if members != [] {
      var init, last := members[..|members| - 1], members[|members| - 1];
      assert members == init + [last];
      MembersFailIff(s, id, init);
      if IsObjectId(last) {
        BelowShrinks(s, id, last);
        TreeFailsIff(s, last);
      }
      assert SomeFails(s, members) <==> SomeFails(s, init) || (IsObjectId(last) && Fails(s, last));
    }
  }

  /** On a good store only the name itself can be malformed. */
  lemma ExpansionCompletes(s: Store, name: string)
    requires Good(s)
    ensures Addresses(s, name).None? <==> name != "" && SplitSlash(name).None?
  {
    ExpansionFailsIff(s, name);
  }
}
