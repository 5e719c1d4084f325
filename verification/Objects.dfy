/**
 Host sets and the other objects they refer to. A depth-bounded search guards edits against loops;
 the references between object sets never form one.
 */
module Objects {
  import opened Sequences
  import opened Wrappers

  // ----- names

  predicate StartsWith(s: string, prefix: string) {
    |prefix| <= |s| && s[..|prefix|] == prefix
  }

  predicate IsObjectId(s: string) {
    StartsWith(s, "objects/") || StartsWith(s, "dhcp/") || StartsWith(s, "users/")
  }

  /** The two parts of a name with exactly one slash. */
  function SplitSlash(s: string): Option<(string, string)> {
    var i := IndexOf(s, '/');
    if i == |s| || '/' in s[i + 1..] then None else Some((s[..i], s[i + 1..]))
  }

  const OBJECTS := "objects"

  function Ref(id: string): string {
    OBJECTS + "/" + id
  }

  lemma SplitRef(id: string)
    requires '/' !in id
    ensures SplitSlash(Ref(id)) == Some((OBJECTS, id))
    ensures IsObjectId(Ref(id)) && StartsWith(Ref(id), "objects/")
  {
    var r := Ref(id);
    IndexOfConcat(OBJECTS, '/', id);
    assert OBJECTS + ['/'] + id == r;
    assert r[..7] == OBJECTS && r[8..] == id;
    assert r[..8] == "objects/";
  }

  lemma SplitIsRef(s: string)
    requires SplitSlash(s).Some? && SplitSlash(s).value.0 == OBJECTS
    ensures s == Ref(SplitSlash(s).value.1) && '/' !in SplitSlash(s).value.1
  {
    var i := IndexOf(s, '/');
    assert s == s[..i] + [s[i]] + s[i + 1..];
  }

  // ----- the store

  datatype Object = Object(kind: string, name: string, family: string, members: seq<string>, ip: string, vpnIp: string)

  /**
   The object sets, the objects of other databases under their full name, and the names that rules
   of other configurations are bound to.
   */
  datatype Store = Store(objects: map<string, Object>, foreign: map<string, Object>, bindings: seq<string>)

  function Lookup(s: Store, name: string): Option<Object> {
    match SplitSlash(name)
    case None => None
    case Some((database, id)) =>
      if database == OBJECTS then (if id in s.objects then Some(s.objects[id]) else None)
      else if name in s.foreign then Some(s.foreign[name]) else None
  }

  lemma LookupRef(s: Store, id: string)
    requires '/' !in id
    ensures Lookup(s, Ref(id)) == if id in s.objects then Some(s.objects[id]) else None
  {
    SplitRef(id);
  }

  predicate IsHostSet(s: Store, name: string) {
    match SplitSlash(name)
    case None => false
    case Some((database, id)) => database == OBJECTS && id in s.objects && s.objects[id].kind == "host"
  }

  predicate IsDomainSet(s: Store, name: string) {
    match SplitSlash(name)
    case None => false
    case Some((database, id)) => database == OBJECTS && id in s.objects && s.objects[id].kind == "domain"
  }

  /** Three levels down the search gives up and reports a loop. */
  predicate HasLoop(s: Store, target: string, member: string, depth: nat)
    decreases 3 - depth
  {
    if depth > 2 then true
    else if !IsObjectId(member) then false
    else if member == target then true
    else
      match Lookup(s, member)
      case None => false
      case Some(o) => exists i :: 0 <= i < |o.members| && HasLoop(s, target, o.members[i], depth + 1)
  }

  /** Which texts are addresses, ranges or networks of a family, and which are letters and digits. */
  datatype Syntax = Syntax(isAddress: (string, string) -> bool, isAlphanumeric: string -> bool)

  predicate ValidMember(x: Syntax, s: Store, name: string, family: string, member: string) {
    if IsObjectId(member) then
      Lookup(s, member).Some? && !(name != "" && IsHostSet(s, name) && HasLoop(s, name, member, 0))
    else x.isAddress(family, member)
  }

  predicate ValidMembers(x: Syntax, s: Store, name: string, family: string, members: seq<string>) {
    forall i :: 0 <= i < |members| ==> ValidMember(x, s, name, family, members[i])
  }

  predicate Used(s: Store, name: string) {
    name in s.bindings || exists id :: id in s.objects && name in s.objects[id].members
  }

  function AddHostSet(x: Syntax, s: Store, id: string, name: string, family: string, members: seq<string>)
    : Option<Store>
  {
    if |name| > 16 || !x.isAlphanumeric(name) || !ValidMembers(x, s, "", family, members) then None
    else Some(s.(objects := s.objects[id := Object("host", name, family, members, "", "")]))
  }

  function EditHostSet(x: Syntax, s: Store, id: string, name: string, family: string, members: seq<string>)
    : Option<Store>
  {
    if id !in s.objects || |name| > 16 || !ValidMembers(x, s, Ref(id), family, members) then None
    else Some(s.(objects := s.objects[id := s.objects[id].(name := name, family := family, members := members)]))
  }

  /** Deletion of an object set; the domain sets' ipsets are part of the other configurations. */
  function DeleteSet(s: Store, id: string): Option<Store> {
    if id !in s.objects || Used(s, Ref(id)) then None else Some(s.(objects := s.objects - {id}))
  }

  // ----- the reference graph

  predicate Edge(s: Store, a: string, b: string) {
    a in s.objects && b in s.objects && Ref(b) in s.objects[a].members
  }

  ghost predicate IsPath(s: Store, p: seq<string>) {
    p != [] && forall i :: 0 <= i < |p| - 1 ==> Edge(s, p[i], p[i + 1])
  }

  ghost predicate Acyclic(s: Store) {
    forall p :: IsPath(s, p) && |p| >= 2 ==> p[0] != p[|p| - 1]
  }

  ghost predicate Resolves(s: Store) {
    forall id, m :: id in s.objects && m in s.objects[id].members && StartsWith(m, "objects/") ==> Lookup(s, m).Some?
  }

  /** Members that look like names split into a database and an id. */
  ghost predicate WellNamed(s: Store) {
    forall id, m :: id in s.objects && m in s.objects[id].members && IsObjectId(m) ==> SplitSlash(m).Some?
  }

  /** No id holds a slash and no set reaches itself; members may be missing or malformed. */
  ghost predicate Loopless(s: Store) {
    (forall id :: id in s.objects ==> '/' !in id) && Acyclic(s)
  }

  ghost predicate Good(s: Store) {
    Loopless(s) && Resolves(s) && WellNamed(s)
  }

  lemma PathTail(s: Store, p: seq<string>)
    requires IsPath(s, p) && |p| >= 2
    ensures IsPath(s, p[1..]) && Edge(s, p[0], p[1])
  {
    assert Edge(s, p[0], p[0 + 1]);
    forall i | 0 <= i < |p[1..]| - 1 ensures Edge(s, p[1..][i], p[1..][i + 1]) {
      assert Edge(s, p[i + 1], p[i + 1 + 1]);
    }
  }

  lemma PathJoin(s: Store, a: seq<string>, b: seq<string>)
    requires IsPath(s, a) && IsPath(s, b) && a[|a| - 1] == b[0]
    ensures IsPath(s, a + b[1..])
    ensures (a + b[1..])[0] == a[0] && (a + b[1..])[|a + b[1..]| - 1] == b[|b| - 1]
  {
    var p := a + b[1..];
    forall i | 0 <= i < |p| - 1 ensures Edge(s, p[i], p[i + 1]) {
      if i < |a| - 1 {
        assert Edge(s, a[i], a[i + 1]);
      } else {
        assert Edge(s, b[i - |a| + 1], b[i - |a| + 1 + 1]);
      }
    }
  }

  lemma PathSlice(s: Store, p: seq<string>, i: nat, j: nat)
    requires IsPath(s, p) && i < j <= |p|
    ensures IsPath(s, p[i..j])
  {
    forall k | 0 <= k < |p[i..j]| - 1 ensures Edge(s, p[i..j][k], p[i..j][k + 1]) {
      assert Edge(s, p[i + k], p[i + k + 1]);
    }
  }

  /** Hitting the bound rejects: whatever reaches the target is found, at any depth. */
  lemma {:induction false} LoopFound(s: Store, p: seq<string>, depth: nat)
    requires IsPath(s, p) && p[|p| - 1] in s.objects && forall id :: id in s.objects ==> '/' !in id
    requires p[0] in s.objects
    ensures HasLoop(s, Ref(p[|p| - 1]), Ref(p[0]), depth)
    decreases |p|
  {
    SplitRef(p[0]);
    if depth <= 2 && |p| >= 2 {
      PathTail(s, p);
      LoopFound(s, p[1..], depth + 1);
      LookupRef(s, p[0]);
      var members := s.objects[p[0]].members;
      var i :| 0 <= i < |members| && members[i] == Ref(p[1]);
      assert HasLoop(s, Ref(p[|p| - 1]), members[i], depth + 1);
    }
  }

  // ----- edits

  /** The two stores have the same sets, and all but one the same members. */
  ghost predicate EditOf(s: Store, t: Store, id: string) {
    && s.objects.Keys == t.objects.Keys
    && forall a :: a in s.objects && a != id ==> s.objects[a].members == t.objects[a].members
  }

  /** A path to the edited set, up to its first visit, was there before the edit. */
  lemma {:induction false} FirstVisit(s: Store, t: Store, id: string, p: seq<string>) returns (q: seq<string>)
    requires EditOf(s, t, id) && IsPath(t, p) && p[|p| - 1] == id
    ensures IsPath(s, q) && q[0] == p[0] && q[|q| - 1] == id
    decreases |p|
  {
    if p[0] == id {
      q := [id];
    } else {
      PathTail(t, p);
      var r := FirstVisit(s, t, id, p[1..]);
      assert Edge(s, p[0], p[1]);
      assert IsPath(s, [p[0], p[1]]);
      PathJoin(s, [p[0], p[1]], r);
      q := [p[0], p[1]] + r[1..];
    }
  }

  /** From a cycle through the edited set: a path back to it from one of its members. */
  lemma CycleThrough(s: Store, t: Store, id: string, p: seq<string>, i: nat) returns (q: seq<string>)
    requires EditOf(s, t, id) && IsPath(t, p) && i < |p| - 1 && p[i] == id && p[0] == p[|p| - 1]
    ensures IsPath(s, q) && q[|q| - 1] == id && Edge(t, id, q[0])
  {
    PathSlice(t, p, i + 1, |p|);
    PathSlice(t, p, 0, i + 1);
    assert Edge(t, p[i], p[i + 1]);
    PathJoin(t, p[i + 1..|p|], p[0..i + 1]);
    q := FirstVisit(s, t, id, p[i + 1..|p|] + p[0..i + 1][1..]);
  }

  /** A cycle that avoids the edited set was there before the edit. */
  lemma CycleAround(s: Store, t: Store, id: string, p: seq<string>)
    requires EditOf(s, t, id) && IsPath(t, p) && forall i :: 0 <= i < |p| - 1 ==> p[i] != id
    ensures IsPath(s, p)
  {
    forall i | 0 <= i < |p| - 1 ensures Edge(s, p[i], p[i + 1]) {
      assert Edge(t, p[i], p[i + 1]);
    }
  }

  /** An edit that closes a cycle adds a member from which the edited set is found. */
  lemma CycleFound(s: Store, t: Store, id: string, p: seq<string>)
    requires Good(s) && EditOf(s, t, id) && id in s.objects
    requires IsPath(t, p) && |p| >= 2 && p[0] == p[|p| - 1]
    ensures exists m :: m in t.objects[id].members && IsObjectId(m) && HasLoop(s, Ref(id), m, 0)
  {
    if i :| 0 <= i < |p| - 1 && p[i] == id {
      var q := CycleThrough(s, t, id, p, i);
      SplitRef(q[0]);
      LoopFound(s, q, 0);
    } else {
      CycleAround(s, t, id, p);
    }
  }

  /** No new member reaches the edited set: the graph stays acyclic. */
  lemma EditAcyclic(s: Store, t: Store, id: string)
    requires Good(s) && EditOf(s, t, id) && id in s.objects
    requires forall m :: m in t.objects[id].members && IsObjectId(m) ==> !HasLoop(s, Ref(id), m, 0)
    ensures Acyclic(t)
  {
    forall p | IsPath(t, p) && |p| >= 2 ensures p[0] != p[|p| - 1] {
      if p[0] == p[|p| - 1] {
        CycleFound(s, t, id, p);
      }
    }
  }

  // ----- runs

  datatype Op =
    | Add(id: string, name: string, family: string, members: seq<string>)
    | Edit(id: string, name: string, family: string, members: seq<string>)
    | Delete(id: string)
    /** Any change of the other configurations. */
    | Elsewhere(foreign: map<string, Object>, bindings: seq<string>)

  /** A refused operation changes nothing. */
  function Step(x: Syntax, s: Store, op: Op): Store {
    match op
    case Add(id, name, family, members) => AddHostSet(x, s, id, name, family, members).GetOr(s)
    case Edit(id, name, family, members) => EditHostSet(x, s, id, name, family, members).GetOr(s)
    case Delete(id) => DeleteSet(s, id).GetOr(s)
    case Elsewhere(foreign, bindings) => s.(foreign := foreign, bindings := bindings)
  }

  /** New ids are fresh and without a slash; edits are made to host sets. */
  predicate Proper(s: Store, op: Op) {
    match op
    case Add(id, _, _, _) => id !in s.objects && '/' !in id
    case Edit(id, _, _, _) => id in s.objects ==> s.objects[id].kind == "host"
    case _ => true
  }

  function Run(x: Syntax, s: Store, ops: seq<Op>): Store
    decreases ops
  {
    if ops == [] then s else Run(x, Step(x, s, ops[0]), ops[1..])
  }

  predicate ProperRun(x: Syntax, s: Store, ops: seq<Op>)
    decreases ops
  {
    ops != [] ==> Proper(s, ops[0]) && ProperRun(x, Step(x, s, ops[0]), ops[1..])
  }

  lemma ValidMemberIn(x: Syntax, s: Store, name: string, family: string, members: seq<string>, m: string)
    requires ValidMembers(x, s, name, family, members) && m in members
    ensures ValidMember(x, s, name, family, m)
  {
    var i :| 0 <= i < |members| && members[i] == m;
  }

  lemma EditKeepsGood(x: Syntax, s: Store, id: string, name: string, family: string, members: seq<string>)
    requires Good(s) && EditHostSet(x, s, id, name, family, members).Some? && s.objects[id].kind == "host"
    ensures Good(EditHostSet(x, s, id, name, family, members).value)
  {
    var t := EditHostSet(x, s, id, name, family, members).value;
    EditResolves(x, s, id, name, family, members);
    LookupRef(s, id);
    SplitRef(id);
    assert IsHostSet(s, Ref(id)) && Ref(id) != "";
    forall m | m in t.objects[id].members && IsObjectId(m) ensures !HasLoop(s, Ref(id), m, 0) {
      ValidMemberIn(x, s, Ref(id), family, members, m);
    }
    EditAcyclic(s, t, id);
  }

  lemma IsReference(m: string)
    requires StartsWith(m, "objects/")
    ensures IsObjectId(m)
  {
  }

  /** Existence of a set does not depend on its contents. */
  lemma SameNamesSameLookups(s: Store, t: Store, m: string)
    requires s.objects.Keys <= t.objects.Keys && s.foreign == t.foreign && Lookup(s, m).Some?
    ensures Lookup(t, m).Some?
  {
  }

  lemma EditResolves(x: Syntax, s: Store, id: string, name: string, family: string, members: seq<string>)
    requires Good(s) && EditHostSet(x, s, id, name, family, members).Some?
    ensures Resolves(EditHostSet(x, s, id, name, family, members).value)
    ensures WellNamed(EditHostSet(x, s, id, name, family, members).value)
  {
    var t := EditHostSet(x, s, id, name, family, members).value;
    forall a, m | a in t.objects && m in t.objects[a].members && IsObjectId(m) ensures SplitSlash(m).Some? {
      if a == id {
        ValidMemberIn(x, s, Ref(id), family, members, m);
      }
    }
    forall a, m | a in t.objects && m in t.objects[a].members && StartsWith(m, "objects/") ensures Lookup(t, m).Some? {
      if a == id {
        IsReference(m);
        ValidMemberIn(x, s, Ref(id), family, members, m);
      }
      SameNamesSameLookups(s, t, m);
    }
  }

  lemma AddResolves(x: Syntax, s: Store, id: string, name: string, family: string, members: seq<string>, a: string,
    m: string)
    requires Good(s) && id !in s.objects && '/' !in id && AddHostSet(x, s, id, name, family, members).Some?
    requires var t := AddHostSet(x, s, id, name, family, members).value;
             a in t.objects && m in t.objects[a].members && StartsWith(m, "objects/")
    ensures Lookup(AddHostSet(x, s, id, name, family, members).value, m).Some? && m != Ref(id)
  {
    if a == id {
      IsReference(m);
      ValidMemberIn(x, s, "", family, members, m);
    }
    LookupRef(s, id);
    SameNamesSameLookups(s, AddHostSet(x, s, id, name, family, members).value, m);
  }

  lemma AddWellNamed(x: Syntax, s: Store, id: string, name: string, family: string, members: seq<string>)
    requires Good(s) && AddHostSet(x, s, id, name, family, members).Some?
    ensures WellNamed(AddHostSet(x, s, id, name, family, members).value)
  {
    var t := AddHostSet(x, s, id, name, family, members).value;
    forall a, m | a in t.objects && m in t.objects[a].members && IsObjectId(m) ensures SplitSlash(m).Some? {
      if a == id {
        ValidMemberIn(x, s, "", family, members, m);
      }
    }
  }

  lemma AddKeepsResolving(x: Syntax, s: Store, id: string, name: string, family: string, members: seq<string>)
    requires Good(s) && id !in s.objects && '/' !in id && AddHostSet(x, s, id, name, family, members).Some?
    ensures Resolves(AddHostSet(x, s, id, name, family, members).value)
  {
    var t := AddHostSet(x, s, id, name, family, members).value;
    forall a, m | a in t.objects && m in t.objects[a].members && StartsWith(m, "objects/") ensures Lookup(t, m).Some? {
      AddResolves(x, s, id, name, family, members, a, m);
    }
  }

  lemma NewSetUnreferenced(x: Syntax, s: Store, id: string, name: string, family: string, members: seq<string>)
    requires Good(s) && id !in s.objects && '/' !in id && AddHostSet(x, s, id, name, family, members).Some?
    ensures forall a :: !Edge(AddHostSet(x, s, id, name, family, members).value, a, id)
  {
    var t := AddHostSet(x, s, id, name, family, members).value;
    forall a, m | a in t.objects && m in t.objects[a].members && StartsWith(m, "objects/") ensures m != Ref(id) {
      AddResolves(x, s, id, name, family, members, a, m);
    }
    NothingEnters(t, id);
  }

  lemma AddKeepsGood(x: Syntax, s: Store, id: string, name: string, family: string, members: seq<string>)
    requires Good(s) && id !in s.objects && '/' !in id && AddHostSet(x, s, id, name, family, members).Some?
    ensures Good(AddHostSet(x, s, id, name, family, members).value)
  {
    AddKeepsResolving(x, s, id, name, family, members);
    NewSetUnreferenced(x, s, id, name, family, members);
    AddWellNamed(x, s, id, name, family, members);
    AddAcyclic(s, AddHostSet(x, s, id, name, family, members).value, id);
  }

  lemma NothingEnters(t: Store, id: string)
    requires '/' !in id
    requires forall a, m :: a in t.objects && m in t.objects[a].members && StartsWith(m, "objects/") ==> m != Ref(id)
    ensures forall a :: !Edge(t, a, id)
  {
    SplitRef(id);
  }

  /** A set that nothing refers to lies on no cycle. */
  lemma AddAcyclic(s: Store, t: Store, id: string)
    requires Acyclic(s) && id !in s.objects && t.objects.Keys == s.objects.Keys + {id}
    requires forall a :: a in s.objects ==> t.objects[a] == s.objects[a]
    requires forall a :: !Edge(t, a, id)
    ensures Acyclic(t)
  {
    forall p | IsPath(t, p) && |p| >= 2 ensures p[0] != p[|p| - 1] {
      assert Edge(t, p[|p| - 2], p[|p| - 2 + 1]);
      if p[0] == p[|p| - 1] {
        forall i | 0 <= i < |p| - 1 ensures Edge(s, p[i], p[i + 1]) {
          assert Edge(t, p[i], p[i + 1]);
          assert i > 0 ==> Edge(t, p[i - 1], p[i - 1 + 1]);
        }
        assert IsPath(s, p);
      }
    }
  }

  lemma DeleteKeepsGood(s: Store, id: string)
    requires Good(s) && DeleteSet(s, id).Some?
    ensures Good(DeleteSet(s, id).value)
  {
    var t := DeleteSet(s, id).value;
    forall a, m | a in t.objects && m in t.objects[a].members && StartsWith(m, "objects/") ensures Lookup(t, m).Some? {
      assert Lookup(s, m).Some?;
      if SplitSlash(m).value.0 == OBJECTS {
        SplitIsRef(m);
      }
    }
    forall p | IsPath(t, p) && |p| >= 2 ensures p[0] != p[|p| - 1] {
      forall i | 0 <= i < |p| - 1 ensures Edge(s, p[i], p[i + 1]) {
        assert Edge(t, p[i], p[i + 1]);
      }
      assert IsPath(s, p);
    }
  }

  /** References to object sets do not look into the other databases. */
  lemma ElsewhereKeepsGood(s: Store, foreign: map<string, Object>, bindings: seq<string>)
    requires Good(s)
    ensures Good(s.(foreign := foreign, bindings := bindings))
  {
    var t := s.(foreign := foreign, bindings := bindings);
    forall a, m | a in t.objects && m in t.objects[a].members && StartsWith(m, "objects/") ensures Lookup(t, m).Some? {
      assert Lookup(s, m).Some?;
      OwnDatabase(m);
    }
    forall p | IsPath(t, p) && |p| >= 2 ensures p[0] != p[|p| - 1] {
      forall i | 0 <= i < |p| - 1 ensures Edge(s, p[i], p[i + 1]) {
        assert Edge(t, p[i], p[i + 1]);
      }
      assert IsPath(s, p);
    }
  }

  lemma OwnDatabase(m: string)
    requires StartsWith(m, "objects/") && SplitSlash(m).Some?
    ensures SplitSlash(m).value.0 == OBJECTS
  {
    assert m[..8] == OBJECTS + ['/'];
    assert m == OBJECTS + ['/'] + m[8..];
    IndexOfConcat(OBJECTS, '/', m[8..]);
  }

  lemma StepKeepsGood(x: Syntax, s: Store, op: Op)
    requires Good(s) && Proper(s, op)
    ensures Good(Step(x, s, op))
  {
    match op
    case Add(id, name, family, members) =>
      if AddHostSet(x, s, id, name, family, members).Some? {
        AddKeepsGood(x, s, id, name, family, members);
      }
    case Edit(id, name, family, members) =>
      if EditHostSet(x, s, id, name, family, members).Some? {
        EditKeepsGood(x, s, id, name, family, members);
      }
    case Delete(id) =>
      if DeleteSet(s, id).Some? {
        DeleteKeepsGood(s, id);
      }
    case Elsewhere(foreign, bindings) => ElsewhereKeepsGood(s, foreign, bindings);
  }

  /** Over every run the references stay acyclic and every reference to a set resolves. */
  lemma {:induction false} RunKeepsGood(x: Syntax, s: Store, ops: seq<Op>)
    requires Good(s) && ProperRun(x, s, ops)
    ensures Good(Run(x, s, ops))
    decreases ops
  {
    if ops != [] {
      StepKeepsGood(x, s, ops[0]);
      RunKeepsGood(x, Step(x, s, ops[0]), ops[1..]);
    }
  }

  // ----- sets that are not host sets

  /** A set of another type accepts itself as a member. */
  lemma SelfMember(x: Syntax, s: Store, id: string)
    requires Good(s) && id in s.objects && s.objects[id].kind != "host"
    ensures var t := EditHostSet(x, s, id, "", "ipv4", [Ref(id)]); t.Some? && !Acyclic(t.value)
  {
    SplitRef(id);
    LookupRef(s, id);
    assert !IsHostSet(s, Ref(id));
    var t := EditHostSet(x, s, id, "", "ipv4", [Ref(id)]).value;
    var p := [id, id];
    assert Edge(t, p[0], p[1]);
    assert IsPath(t, p);
  }

  /** All accepted edits of a set keep the graph acyclic exactly when it is a host set. */
  lemma EditsKeepAcyclicIff(x: Syntax, s: Store, id: string)
    requires Good(s) && id in s.objects
    ensures s.objects[id].kind == "host" <==>
              forall name, family, members :: EditHostSet(x, s, id, name, family, members).Some? ==>
                Acyclic(EditHostSet(x, s, id, name, family, members).value)
  {
    if s.objects[id].kind == "host" {
      forall name, family, members | EditHostSet(x, s, id, name, family, members).Some?
        ensures Acyclic(EditHostSet(x, s, id, name, family, members).value)
      {
        EditKeepsGood(x, s, id, name, family, members);
      }
    } else {
      SelfMember(x, s, id);
    }
  }
}
