/**
 What host sets promise in the terms of their names: which edits are accepted and what they store, exactly
 which members are taken for a loop, and exactly which addresses an object stands for.
 */
module ObjectLaws {
  import opened Objects
  import opened ObjectIps
  import opened Sequences
  import opened Wrappers

  // ----- names

  /** A name of an object starts with the name of its database and a slash. */
  lemma ObjectIdIff(s: string)
    ensures IsObjectId(s) <==>
              exists rest :: s == "objects/" + rest || s == "dhcp/" + rest || s == "users/" + rest
  {
    if StartsWith(s, "objects/") {
      assert s == "objects/" + s[8..];
    } else if StartsWith(s, "dhcp/") {
      assert s == "dhcp/" + s[5..];
    } else if StartsWith(s, "users/") {
      assert s == "users/" + s[6..];
    }
    if rest :| s == "objects/" + rest || s == "dhcp/" + rest || s == "users/" + rest {
      assert s == "objects/" + rest ==> s[..8] == "objects/";
      assert s == "dhcp/" + rest ==> s[..5] == "dhcp/";
      assert s == "users/" + rest ==> s[..6] == "users/";
    }
  }

  lemma SplitNamed(database: string, id: string)
    requires '/' !in database && '/' !in id
    ensures SplitSlash(database + "/" + id) == Some((database, id))
  {
    var r := database + ['/'] + id;
    IndexOfConcat(database, '/', id);
    assert database + "/" + id == r;
    assert r[..|database|] == database && r[|database| + 1..] == id;
  }

  /** Of all names just `objects/` and the id of a set of the type denote one. */
  lemma SetKindIff(s: Store, id: string)
    requires '/' !in id
    ensures IsHostSet(s, "objects/" + id) <==> id in s.objects && s.objects[id].kind == "host"
    ensures IsDomainSet(s, "objects/" + id) <==> id in s.objects && s.objects[id].kind == "domain"
  {
    SplitRef(id);
    assert "objects/" + id == Ref(id);
  }

  // ----- what is stored

  /** A member of a new set: an address of its family, or the name of an object that exists. */
  predicate MemberOk(x: Syntax, s: Store, family: string, m: string) {
    if IsObjectId(m) then Lookup(s, m).Some? else x.isAddress(family, m)
  }

  /** A set is added exactly if its name is short and plain and its members are in order. */
  lemma AddHostSetIff(x: Syntax, s: Store, id: string, name: string, family: string, members: seq<string>)
    ensures var t := AddHostSet(x, s, id, name, family, members);
      && (t.Some? <==>
            |name| <= 16 && x.isAlphanumeric(name) && forall m :: m in members ==> MemberOk(x, s, family, m))
      && (t.Some? ==>
            && t.value.foreign == s.foreign && t.value.bindings == s.bindings
            && t.value.objects == s.objects[id := Object("host", name, family, members, "", "")])
  {
    forall i | 0 <= i < |members|
      ensures ValidMember(x, s, "", family, members[i]) <==> MemberOk(x, s, family, members[i])
    {
    }
  }

  /**
   A set is edited exactly if it exists, its name is short and its members are in order; a host set may have
   no member that leads back to it. Type and addresses of its own stay.
   */
  lemma EditHostSetIff(x: Syntax, s: Store, id: string, name: string, family: string, members: seq<string>)
    requires '/' !in id
    ensures var t := EditHostSet(x, s, id, name, family, members);
      && (t.Some? <==>
            && id in s.objects && |name| <= 16
            && (forall m :: m in members ==> MemberOk(x, s, family, m))
            && (s.objects[id].kind == "host" ==>
                  forall m :: m in members && IsObjectId(m) ==> !HasLoop(s, "objects/" + id, m, 0)))
      && (t.Some? ==>
            && t.value.foreign == s.foreign && t.value.bindings == s.bindings
            && t.value.objects == s.objects[id :=
                 Object(s.objects[id].kind, name, family, members, s.objects[id].ip, s.objects[id].vpnIp)])
  {
    SetKindIff(s, id);
    assert Ref(id) == "objects/" + id;
    forall i | 0 <= i < |members|
      ensures ValidMember(x, s, Ref(id), family, members[i]) <==>
          MemberOk(x, s, family, members[i]) &&
            (IsObjectId(members[i]) && IsHostSet(s, Ref(id)) ==> !HasLoop(s, Ref(id), members[i], 0))
    {
    }
  }

  /** A set is deleted exactly if it exists, no rule is bound to it and no set, itself included, holds it. */
  lemma DeleteSetIff(s: Store, id: string)
    ensures var t := DeleteSet(s, id);
      && (t.Some? <==>
            && id in s.objects && "objects/" + id !in s.bindings
            && forall a :: a in s.objects ==> "objects/" + id !in s.objects[a].members)
      && (t.Some? ==>
            t.value.foreign == s.foreign && t.value.bindings == s.bindings && t.value.objects == s.objects - {id})
  {
    assert Ref(id) == "objects/" + id;
  }

  // ----- what is taken for a loop

  /** Every name of the list but the last one is an object that holds the next one. */
  ghost predicate Leads(s: Store, p: seq<string>) {
    p != [] && forall i :: 0 <= i < |p| - 1 ==> Holds(s, p[i], p[i + 1])
  }

  ghost predicate Holds(s: Store, a: string, b: string) {
    IsObjectId(a) && Lookup(s, a).Some? && b in Lookup(s, a).value.members
  }

  /** The target comes up within so many names, or there are more names than that. */
  ghost predicate LoopWithin(s: Store, target: string, p: seq<string>, limit: nat) {
    Leads(s, p) && (|p| == limit + 1 || (|p| <= limit && p[|p| - 1] == target && IsObjectId(target)))
  }

  lemma LeadsFrom(s: Store, m: string, p: seq<string>)
    requires Leads(s, p) && Holds(s, m, p[0])
    ensures Leads(s, [m] + p)
  {
    var q := [m] + p;
    forall i | 0 <= i < |q| - 1 ensures Holds(s, q[i], q[i + 1]) {
      if i > 0 {
        assert Holds(s, p[i - 1], p[i - 1 + 1]);
      }
    }
  }

  lemma LeadsTail(s: Store, p: seq<string>)
    requires Leads(s, p) && |p| >= 2
    ensures Leads(s, p[1..]) && Holds(s, p[0], p[1])
  {
    assert Holds(s, p[0], p[0 + 1]);
    forall i | 0 <= i < |p[1..]| - 1 ensures Holds(s, p[1..][i], p[1..][i + 1]) {
      assert Holds(s, p[i + 1], p[i + 1 + 1]);
    }
  }

  lemma {:induction false} LoopLeads(s: Store, target: string, m: string, depth: nat) returns (p: seq<string>)
    requires depth <= 3 && HasLoop(s, target, m, depth)
    ensures p != [] && p[0] == m && LoopWithin(s, target, p, 3 - depth)
    decreases 3 - depth
  {
    if depth == 3 || m == target {
      p := [m];
    } else {
      var members := Lookup(s, m).value.members;
      var i :| 0 <= i < |members| && HasLoop(s, target, members[i], depth + 1);
      var q := LoopLeads(s, target, members[i], depth + 1);
      LeadsFrom(s, m, q);
      p := [m] + q;
      assert p[|p| - 1] == q[|q| - 1];
    }
  }

  lemma {:induction false} LeadsLoop(s: Store, target: string, p: seq<string>, depth: nat)
    requires depth <= 3 && p != [] && LoopWithin(s, target, p, 3 - depth)
    ensures HasLoop(s, target, p[0], depth)
    decreases 3 - depth
  {
    if depth < 3 && |p| > 1 {
      LeadsTail(s, p);
      LeadsLoop(s, target, p[1..], depth + 1);
      var members := Lookup(s, p[0]).value.members;
      var i :| 0 <= i < |members| && members[i] == p[1];
      assert HasLoop(s, target, members[i], depth + 1);
    }
  }

  /**
   A member is taken for a loop exactly if it leads to the set in at most two steps, or leads anywhere at all
   in three.
   */
  lemma LoopIff(s: Store, target: string, m: string)
    ensures HasLoop(s, target, m, 0) <==> exists p :: p != [] && p[0] == m && LoopWithin(s, target, p, 3)
  {
    if HasLoop(s, target, m, 0) {
      var p := LoopLeads(s, target, m, 0);
    }
    if p :| p != [] && p[0] == m && LoopWithin(s, target, p, 3) {
      LeadsLoop(s, target, p, 0);
    }
  }

  // ----- which addresses an object stands for

  /** The address that a host or a user has of its own. */
  ghost predicate OwnAddress(s: Store, name: string, a: string) {
    && name in s.foreign && a != ""
    && exists id :: '/' !in id &&
         ((name == "dhcp/" + id && s.foreign[name].ip == a) || (name == "users/" + id && s.foreign[name].vpnIp == a))
  }

  /** A set holds the address itself, or names a host or a user that has it. */
  ghost predicate HoldsAddress(s: Store, id: string, a: string) {
    id in s.objects && exists m :: m in s.objects[id].members && Gives(s, m, a)
  }

  ghost predicate Gives(s: Store, m: string, a: string) {
    if IsObjectId(m) then OwnAddress(s, m, a) else m == a
  }

  ghost predicate AddressBelow(s: Store, id: string, a: string) {
    exists b :: (b == id || Reaches(s, id, b)) && HoldsAddress(s, b, a)
  }

  lemma BelowStep(s: Store, id: string, a: string)
    ensures AddressBelow(s, id, a) <==> HoldsAddress(s, id, a) || exists b :: Edge(s, id, b) && AddressBelow(s, b, a)
  {
    if AddressBelow(s, id, a) && !HoldsAddress(s, id, a) {
      var c :| Reaches(s, id, c) && HoldsAddress(s, c, a);
      ReachStep(s, id, c);
      var b :| Edge(s, id, b) && (c == b || Reaches(s, b, c));
      assert AddressBelow(s, b, a);
    }
    if b :| Edge(s, id, b) && AddressBelow(s, b, a) {
      var c :| (c == b || Reaches(s, b, c)) && HoldsAddress(s, c, a);
      EdgeReaches(s, id, b);
      if c != b {
        ReachesOver(s, id, b, c);
      }
      assert Reaches(s, id, c);
    }
  }

  lemma SplitParts(name: string)
    requires SplitSlash(name).Some?
    ensures var (database, id) := SplitSlash(name).value; name == database + "/" + id && '/' !in id
  {
    var i := IndexOf(name, '/');
    assert name == name[..i] + ['/'] + name[i + 1..];
    assert name[..i] + ['/'] + name[i + 1..] == name[..i] + "/" + name[i + 1..];
  }

  lemma HostOwns(s: Store, id: string, a: string)
    requires '/' !in id
    ensures OwnAddress(s, "dhcp/" + id, a) <==>
              "dhcp/" + id in s.foreign && a != "" && s.foreign["dhcp/" + id].ip == a
  {
    forall i | '/' !in i ensures "dhcp/" + id != "users/" + i {
      assert ("dhcp/" + id)[0] == 'd' && ("users/" + i)[0] == 'u';
    }
  }

  lemma UserOwns(s: Store, id: string, a: string)
    requires '/' !in id
    ensures OwnAddress(s, "users/" + id, a) <==>
              "users/" + id in s.foreign && a != "" && s.foreign["users/" + id].vpnIp == a
  {
    forall i | '/' !in i ensures "users/" + id != "dhcp/" + i {
      assert ("dhcp/" + i)[0] == 'd' && ("users/" + id)[0] == 'u';
    }
  }

  lemma NotNamed(name: string, database: string, i: string)
    requires '/' !in database && '/' !in i && SplitSlash(name).Some? && SplitSlash(name).value.0 != database
    ensures name != database + "/" + i
  {
    SplitNamed(database, i);
  }

  lemma NotHost(name: string, i: string)
    requires '/' !in i && SplitSlash(name).Some? && SplitSlash(name).value.0 != "dhcp"
    ensures name != "dhcp/" + i
  {
    NotNamed(name, "dhcp", i);
    assert "dhcp" + "/" == "dhcp/";
  }

  lemma NotUser(name: string, i: string)
    requires '/' !in i && SplitSlash(name).Some? && SplitSlash(name).value.0 != "users"
    ensures name != "users/" + i
  {
    NotNamed(name, "users", i);
    assert "users" + "/" == "users/";
  }

  /** An address of its own has a host or a user, nothing else. */
  lemma OnlyTheseOwn(s: Store, name: string, a: string)
    requires SplitSlash(name).Some? && SplitSlash(name).value.0 != "dhcp" && SplitSlash(name).value.0 != "users"
    ensures !OwnAddress(s, name, a)
  {
    forall i | '/' !in i ensures name != "dhcp/" + i && name != "users/" + i {
      NotHost(name, i);
      NotUser(name, i);
    }
  }

  /** A host and a user stand for the address they have, other databases for nothing. */
  lemma LeafTree(s: Store, name: string, a: string)
    requires Loopless(s) && Tree(s, name).Some? && name != "" && SplitSlash(name).value.0 != "objects"
    ensures a in Tree(s, name).value <==> OwnAddress(s, name, a)
  {
    var (database, id) := SplitSlash(name).value;
    SplitParts(name);
    if database == "dhcp" {
      assert name == "dhcp/" + id;
      HostOwns(s, id, a);
    } else if database == "users" {
      assert name == "users/" + id;
      UserOwns(s, id, a);
    } else {
      OnlyTheseOwn(s, name, a);
    }
  }

  lemma MissingSetTree(s: Store, id: string)
    requires Loopless(s) && '/' !in id && id !in s.objects
    ensures Tree(s, Ref(id)) == Some([])
  {
    SplitRef(id);
  }

  ghost predicate Adds(s: Store, m: string, a: string) {
    Gives(s, m, a) || exists b :: b in s.objects && m == Ref(b) && AddressBelow(s, b, a)
  }

  lemma AddsStep(s: Store, id: string, a: string)
    requires id in s.objects
    ensures (exists m :: m in s.objects[id].members && Adds(s, m, a)) <==> AddressBelow(s, id, a)
  {
    BelowStep(s, id, a);
    if b :| Edge(s, id, b) && AddressBelow(s, b, a) {
      assert Ref(b) in s.objects[id].members && Adds(s, Ref(b), a);
    }
    if HoldsAddress(s, id, a) {
      var m :| m in s.objects[id].members && Gives(s, m, a);
      assert Adds(s, m, a);
    }
    if m :| m in s.objects[id].members && Adds(s, m, a) {
      if !Gives(s, m, a) {
        var b :| b in s.objects && m == Ref(b) && AddressBelow(s, b, a);
        assert Edge(s, id, b);
      }
    }
  }

  /** What one member adds: an address, that of a host or a user, or those of a set. */
  lemma MemberTree(s: Store, id: string, m: string, a: string)
    requires Loopless(s) && id in s.objects && m in s.objects[id].members && TreeOfMember(s, id, m).Some?
    ensures a in TreeOfMember(s, id, m).value <==> Adds(s, m, a)
    decreases Below(s, Ref(id)), 0
  {
    BelowShrinks(s, id, m);
    if IsObjectId(m) {
      ObjectIdIff(m);
      if SplitSlash(m).value.0 == "objects" {
        var b := SplitSlash(m).value.1;
        SplitIsRef(m);
        OnlyTheseOwn(s, m, a);
        forall c | m == Ref(c) && c in s.objects ensures c == b {
          SplitRef(c);
        }
        if b in s.objects {
          SetTree(s, b, a);
        } else {
          MissingSetTree(s, b);
        }
      } else {
        LeafTree(s, m, a);
        forall c | c in s.objects ensures m != Ref(c) {
          SplitRef(c);
        }
      }
    } else {
      forall c | c in s.objects ensures m != Ref(c) {
        SplitRef(c);
      }
    }
  }

  lemma {:induction false} MembersTree(s: Store, id: string, members: seq<string>, a: string)
    requires Loopless(s) && id in s.objects && forall m :: m in members ==> m in s.objects[id].members
    requires TreeOfMembers(s, id, members).Some?
    ensures a in TreeOfMembers(s, id, members).value <==>
              exists m :: m in members && Adds(s, m, a)
    decreases Below(s, Ref(id)), 1, |members|
  {
    if members != [] {
      var init, last := members[..|members| - 1], members[|members| - 1];
      assert members == init + [last];
      MembersTree(s, id, init, a);
      MemberTree(s, id, last, a);
    }
  }

  lemma SetTree(s: Store, id: string, a: string)
    requires Loopless(s) && id in s.objects && Tree(s, Ref(id)).Some?
    ensures a in Tree(s, Ref(id)).value <==> AddressBelow(s, id, a)
    decreases Below(s, Ref(id)), 2
  {
    SplitRef(id);
    LookupRef(s, id);
    MembersTree(s, id, s.objects[id].members, a);
    AddsStep(s, id, a);
  }

  /**
   On any acyclic store the expansion of a set that does not raise is, without repetition, what the set or a
   set below it holds as an address, or as the name of a host or a user with that address.
   */
  lemma SetAddressesIff(s: Store, id: string, a: string)
    requires Loopless(s) && id in s.objects && Addresses(s, "objects/" + id).Some?
    ensures NoDup(Addresses(s, "objects/" + id).value)
    ensures a in Addresses(s, "objects/" + id).value <==> AddressBelow(s, id, a)
  {
    assert "objects/" + id == Ref(id);
    AddressesDistinct(s, Ref(id));
    SetTree(s, id, a);
  }

  lemma StartsNamed(database: string, id: string)
    ensures database == "objects" ==> StartsWith(database + "/" + id, "objects/")
  {
    if database == "objects" {
      assert (database + "/" + id)[..8] == "objects/";
    }
  }

  /** A host and a user stand for at most one address, their own. */
  lemma OwnAddressesIff(s: Store, name: string, a: string)
    requires Loopless(s) && Addresses(s, name).Some? && name != "" && !StartsWith(name, "objects/")
    ensures a in Addresses(s, name).value <==> OwnAddress(s, name, a)
  {
    var (database, id) := SplitSlash(name).value;
    SplitParts(name);
    StartsNamed(database, id);
    LeafTree(s, name, a);
  }
}
