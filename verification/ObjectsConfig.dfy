/** The operations on host sets as the program performs them on its configuration. */
module ObjectsConfig {
  import opened Objects
  import opened Wrappers

  class ObjectsConfig {
    var store: Store

    constructor (store: Store)
      ensures this.store == store
    {
      this.store := store;
    }

    method ValidateMembers(x: Syntax, name: string, family: string, members: seq<string>) returns (ok: bool)
      ensures ok <==> ValidMembers(x, store, name, family, members)
    {
      for i := 0 to |members|
        invariant forall j :: 0 <= j < i ==> ValidMember(x, store, name, family, members[j])
      {
        var m := members[i];
        if IsObjectId(m) {
          if Lookup(store, m).None? {
            return false;
          }
          if name != "" && IsHostSet(store, name) {
            if HasLoop(store, name, m, 0) {
              return false;
            }
          }
        } else if !x.isAddress(family, m) {
          return false;
        }
      }
      return true;
    }

    /** Refused operations leave the store as it was. */
    method AddHostSet(x: Syntax, id: string, name: string, family: string, members: seq<string>) returns (ok: bool)
      modifies this
      ensures ok <==> Objects.AddHostSet(x, old(store), id, name, family, members).Some?
      ensures store == Objects.AddHostSet(x, old(store), id, name, family, members).GetOr(old(store))
    {
      if |name| > 16 || !x.isAlphanumeric(name) {
        return false;
      }
      ok := ValidateMembers(x, "", family, members);
      if ok {
        store := store.(objects := store.objects[id := Object("host", name, family, members, "", "")]);
      }
    }

    method EditHostSet(x: Syntax, id: string, name: string, family: string, members: seq<string>) returns (ok: bool)
      modifies this
      ensures ok <==> Objects.EditHostSet(x, old(store), id, name, family, members).Some?
      ensures store == Objects.EditHostSet(x, old(store), id, name, family, members).GetOr(old(store))
    {
      if id !in store.objects || |name| > 16 {
        return false;
      }
      ok := ValidateMembers(x, Ref(id), family, members);
      if ok {
        var o := store.objects[id];
        store := store.(objects := store.objects[id := o.(name := name)]);
        store := store.(objects := store.objects[id := o.(name := name, family := family)]);
        store := store.(objects := store.objects[id := o.(name := name, family := family, members := members)]);
      }
    }

    /** Whether a rule is bound to the object or a set has it as a member. */
    method IsUsedObject(name: string) returns (used: bool)
      ensures used <==> Used(store, name)
    {
      used := false;
      for i := 0 to |store.bindings|
        invariant used <==> name in store.bindings[..i]
      {
        if store.bindings[i] == name {
          used := true;
        }
      }
      assert store.bindings[..|store.bindings|] == store.bindings;
      ghost var bound := used;
      var todo := store.objects.Keys;
      while todo != {}
        invariant todo <= store.objects.Keys
        invariant used <==>
            bound || exists id :: id in store.objects && id !in todo && name in store.objects[id].members
        decreases |todo|
      {
        var id :| id in todo;
        if name in store.objects[id].members {
          used := true;
        }
        todo := todo - {id};
      }
    }

    method DeleteSet(id: string) returns (ok: bool)
      modifies this
      ensures ok <==> Objects.DeleteSet(old(store), id).Some?
      ensures store == Objects.DeleteSet(old(store), id).GetOr(old(store))
    {
      if id !in store.objects {
        return false;
      }
      var used := IsUsedObject(Ref(id));
      if used {
        return false;
      }
      store := store.(objects := store.objects - {id});
      return true;
    }
  }
}
