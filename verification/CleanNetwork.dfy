/** The hook that runs before a commit and cleans up after interfaces that were removed. */
module CleanNetwork {
  import opened Multiwan
  import opened Sequences
  import opened Uci
  import opened Wrappers

  type Qosify = Config<bool>   // whether a section is an interface

  datatype State = State(mwan: Mwan, qosify: Qosify)

  /** One recorded change: an action and its arguments. */
  type Item = seq<string>

  predicate IsRemoval(item: Item) {
    item != [] && item[0] == "remove"
  }

  function IsInterface(): Entry -> bool {
    (e: Entry) => e.Interface?
  }

  function IsShaped(): bool -> bool {
    (shaped: bool) => shaped
  }

  function MwanInterfaces(st: State): seq<string> {
    st.mwan.Ids(IsInterface())
  }

  function QosifyInterfaces(st: State): seq<string> {
    st.qosify.Ids(IsShaped())
  }

  /** Reading a section that is gone raises, and so does reading a member's missing interface. */
  predicate Readable(entries: seq<string>, c: Mwan) {
    forall i :: 0 <= i < |entries| ==> entries[i] in c.secs && c.secs[entries[i]] != Member(None)
  }

  function RemoveItem(start: State, st: State, item: Item): Option<State> {
    if !IsRemoval(item) then Some(st)
    else if |item| < 2 then None
    else
      var x := item[1];
      if x in QosifyInterfaces(start) && x !in st.qosify.secs then None
      else
        var qosify := if x in QosifyInterfaces(start) then st.qosify.Delete(x) else st.qosify;
        if x !in MwanInterfaces(start) then Some(State(st.mwan, qosify))
        else if !Readable(start.mwan.order, st.mwan) then None
        else Some(State(Cascade(st.mwan, x), qosify))
  }

  /** All items in turn; None when one raises. */
  function CleanUp(start: State, items: seq<Item>): Option<State> {
    if items == [] then Some(start)
    else
      match CleanUp(start, items[..|items| - 1])
      case None => None
      case Some(st) => RemoveItem(start, st, items[|items| - 1])
  }

  /** The names among the given ones that the items remove, in order. */
  function Named(items: seq<Item>, ids: seq<string>): (r: seq<string>)
    ensures forall x :: x in r ==> x in ids
  {
    if items == [] then []
    else
      var item := items[|items| - 1];
      Named(items[..|items| - 1], ids) +
      if |item| >= 2 && item[0] == "remove" && item[1] in ids then [item[1]] else []
  }

  /**
   Every removal names something, at most one names a multi-WAN interface, none names a shaped
   interface twice, and members have an interface if it matters.
   */
  ghost predicate Completes(start: State, items: seq<Item>) {
    AllNamed(items) && OneCascade(start, items) && NoDup(Named(items, QosifyInterfaces(start)))
  }

  ghost predicate AllNamed(items: seq<Item>) {
    forall i :: 0 <= i < |items| && items[i] != [] && items[i][0] == "remove" ==> |items[i]| >= 2
  }

  ghost predicate OneCascade(start: State, items: seq<Item>) {
    var named := Named(items, MwanInterfaces(start));
    |named| <= 1 && (named != [] ==> Readable(start.mwan.order, start.mwan))
  }

  function ExpectedMwan(start: State, items: seq<Item>): Mwan {
    var named := Named(items, MwanInterfaces(start));
    if named == [] then start.mwan else Cascade(start.mwan, named[0])
  }

  ghost predicate Effect(start: State, items: seq<Item>, st: State) {
    && st.mwan == ExpectedMwan(start, items)
    && forall id :: id in st.qosify.secs <==> id in start.qosify.secs && id !in Named(items, QosifyInterfaces(start))
  }

  /** The hook gets through exactly in the described case, and then it has done one cascade at most. */
  lemma {:induction false} CompletesIff(start: State, items: seq<Item>)
    requires start.mwan.Valid() && start.qosify.Valid()
    ensures CleanUp(start, items).Some? <==> Completes(start, items)
    ensures CleanUp(start, items).Some? ==> Effect(start, items, CleanUp(start, items).value)
  {
    if items != [] {
      var init, item := items[..|items| - 1], items[|items| - 1];
      assert items == init + [item];
      CompletesIff(start, init);
      if Completes(start, init) {
        CompletesStep(start, init, item, CleanUp(start, init).value);
      } else if Completes(start, items) {
        CompletesPrefix(start, init, item);
      }
    }
  }

  /** The first cascade deletes the interface, so that reading the sections again raises. */
  lemma CascadeOnce(start: State, x: string)
    requires start.mwan.Valid() && x in MwanInterfaces(start)
    ensures !Readable(start.mwan.order, Cascade(start.mwan, x))
  {
    var i :| 0 <= i < |start.mwan.order| && start.mwan.order[i] == x;
    assert start.mwan.order[i] !in Cascade(start.mwan, x).secs;
  }

  lemma AppendShape(named: seq<string>, x: string)
    ensures |named + [x]| <= 1 <==> named == []
    ensures (named + [x])[0] == if named == [] then x else named[0]
  {
  }

  lemma AppendDistinct(named: seq<string>, x: string)
    requires NoDup(named)
    ensures NoDup(named + [x]) <==> x !in named
  {
    if x in named {
      var i :| 0 <= i < |named| && named[i] == x;
      assert (named + [x])[i] == (named + [x])[|named|];
    }
  }

  lemma MwanStep(start: State, init: seq<Item>, item: Item, st: State)
    requires start.mwan.Valid() && Completes(start, init) && st.mwan == ExpectedMwan(start, init)
    requires IsRemoval(item) && |item| >= 2 && item[1] in MwanInterfaces(start)
    ensures var named := Named(init, MwanInterfaces(start));
            Readable(start.mwan.order, st.mwan) <==> named == [] && Readable(start.mwan.order, start.mwan)
  {
    var named := Named(init, MwanInterfaces(start));
    if named != [] {
      assert named[0] in named;
      CascadeOnce(start, named[0]);
    }
  }

  lemma AllNamedAppend(init: seq<Item>, item: Item)
    requires AllNamed(init)
    ensures AllNamed(init + [item]) <==> (IsRemoval(item) ==> |item| >= 2)
  {
    var all := init + [item];
    assert all[|init|] == item;
    assert forall i :: 0 <= i < |init| ==> all[i] == init[i];
  }

  lemma OneCascadeAppend(start: State, init: seq<Item>, item: Item)
    requires OneCascade(start, init)
    ensures OneCascade(start, init + [item]) <==>
              (IsRemoval(item) && |item| >= 2 && item[1] in MwanInterfaces(start) ==>
                 Named(init, MwanInterfaces(start)) == [] && Readable(start.mwan.order, start.mwan))
  {
    var m := MwanInterfaces(start);
    NamedSnoc(init, item, m);
    if IsRemoval(item) && |item| >= 2 && item[1] in m {
      AppendShape(Named(init, m), item[1]);
    } else {
      assert Named(init, m) + [] == Named(init, m);
    }
  }

  lemma DistinctAppend(init: seq<Item>, item: Item, ids: seq<string>)
    requires NoDup(Named(init, ids))
    ensures NoDup(Named(init + [item], ids)) <==>
              (IsRemoval(item) && |item| >= 2 && item[1] in ids ==> item[1] !in Named(init, ids))
  {
    NamedSnoc(init, item, ids);
    if IsRemoval(item) && |item| >= 2 && item[1] in ids {
      AppendDistinct(Named(init, ids), item[1]);
    } else {
      assert Named(init, ids) + [] == Named(init, ids);
    }
  }

  /** What one more item has to be for the hook to get through still. */
  lemma CompletesAppend(start: State, init: seq<Item>, item: Item)
    requires Completes(start, init)
    ensures Completes(start, init + [item]) <==>
              (IsRemoval(item) ==>
                 && |item| >= 2
                 && (item[1] in MwanInterfaces(start) ==>
                       Named(init, MwanInterfaces(start)) == [] && Readable(start.mwan.order, start.mwan))
                 && (item[1] in QosifyInterfaces(start) ==> item[1] !in Named(init, QosifyInterfaces(start))))
  {
    AllNamedAppend(init, item);
    OneCascadeAppend(start, init, item);
    DistinctAppend(init, item, QosifyInterfaces(start));
  }

  lemma ExpectedAppend(start: State, init: seq<Item>, item: Item)
    requires Completes(start, init) && Completes(start, init + [item])
    ensures ExpectedMwan(start, init + [item]) ==
              if IsRemoval(item) && item[1] in MwanInterfaces(start) then Cascade(ExpectedMwan(start, init), item[1])
              else ExpectedMwan(start, init)
  {
    CompletesAppend(start, init, item);
    NamedSnoc(init, item, MwanInterfaces(start));
    var named := Named(init, MwanInterfaces(start));
    assert named + [] == named;
  }

  lemma CompletesStep(start: State, init: seq<Item>, item: Item, st: State)
    requires start.mwan.Valid() && start.qosify.Valid() && Completes(start, init) && Effect(start, init, st)
    ensures RemoveItem(start, st, item).Some? <==> Completes(start, init + [item])
    ensures RemoveItem(start, st, item).Some? ==> Effect(start, init + [item], RemoveItem(start, st, item).value)
  {
    CompletesAppend(start, init, item);
    if IsRemoval(item) && |item| >= 2 && item[1] in MwanInterfaces(start) {
      MwanStep(start, init, item, st);
    }
    if RemoveItem(start, st, item).Some? {
      EffectStep(start, init, item, st);
    }
  }

  lemma EffectStep(start: State, init: seq<Item>, item: Item, st: State)
    requires Completes(start, init) && Completes(start, init + [item]) && Effect(start, init, st)
    requires RemoveItem(start, st, item).Some?
    ensures Effect(start, init + [item], RemoveItem(start, st, item).value)
  {
    ExpectedAppend(start, init, item);
    NamedSnoc(init, item, QosifyInterfaces(start));
  }

  lemma NamedSnoc(items: seq<Item>, item: Item, ids: seq<string>)
    ensures Named(items + [item], ids) ==
              Named(items, ids) + if IsRemoval(item) && |item| >= 2 && item[1] in ids then [item[1]] else []
  {
    assert (items + [item])[..|items|] == items;
  }

  lemma CompletesPrefix(start: State, init: seq<Item>, item: Item)
    requires Completes(start, init + [item])
    ensures Completes(start, init)
  {
    NamedSnoc(init, item, MwanInterfaces(start));
    NamedSnoc(init, item, QosifyInterfaces(start));
    var all := init + [item];
    forall i | 0 <= i < |init| && IsRemoval(init[i]) ensures |init[i]| >= 2 {
      assert all[i] == init[i];
    }
    var a, b := Named(init, QosifyInterfaces(start)), Named(all, QosifyInterfaces(start));
    forall i, j | 0 <= i < j < |a| ensures a[i] != a[j] {
      assert b[i] == a[i] && b[j] == a[j];
    }
  }
}
