/**
 * The annealing search's cost. Classes are grouped by the slot they are
 * scheduled in; each slot holding two or more classes costs 1 if some
 * lecturer name repeats across (or within) its classes and 1 if some
 * course code repeats. Rooms play no part.
 *
 * `Cost` is the reference definition, stated on sets so that it does not
 * depend on the order in which slots or classes are visited;
 * `CalculateCost` follows the program's group-then-scan structure and is
 * proved equal to it.
 */
module SaCost {
  import opened Wrappers
  import opened Duplicates
  import opened SaCatalog

  /** A schedule: the slot of each class id. */
  type Schedule = map<int, Slot>

  /** What a clash is looked for in: lecturer names or course codes. */
  datatype Aspect = Lecturers | Codes

  /** The entries class `id` contributes: its lecturers or its one code, or nothing when no class has that id. */
  function Items(aspect: Aspect, classes: seq<ClassInfo>, id: int): seq<string>
  {
    match FindClass(classes, id)
    case None => []
    case Some(c) => if aspect == Lecturers then c.lecturers else [c.code]
  }

  /** The entries of a list of ids, concatenated in list order. */
  function Gather(aspect: Aspect, classes: seq<ClassInfo>, ids: seq<int>): seq<string>
  {
    if |ids| == 0 then []
    else
      var n := |ids| - 1;
      Gather(aspect, classes, ids[..n]) + Items(aspect, classes, ids[n])
  }

  /** The ids scheduled in slot `s`. */
  function Group(sch: Schedule, s: Slot): set<int>
  {
    set id | id in sch && sch[id] == s
  }

  /** Some class of the group lists an entry twice. */
  ghost predicate RepeatsWithin(aspect: Aspect, classes: seq<ClassInfo>, group: set<int>)
  {
    exists id :: id in group && HasDuplicates(Items(aspect, classes, id))
  }

  /** Two different classes of the group share an entry. */
  ghost predicate SharedBetween(aspect: Aspect, classes: seq<ClassInfo>, group: set<int>)
  {
    exists a, b, x :: a in group && b in group && a != b
      && x in Items(aspect, classes, a) && x in Items(aspect, classes, b)
  }

  /** An entry repeats somewhere in the group. */
  ghost predicate Clash(aspect: Aspect, classes: seq<ClassInfo>, group: set<int>)
  {
    RepeatsWithin(aspect, classes, group) || SharedBetween(aspect, classes, group)
  }

  /** The slots some class is scheduled in. */
  function Occupied(sch: Schedule): set<Slot>
  {
    set id | id in sch :: sch[id]
  }

  /** The occupied slots with at least two classes and a clash in `aspect`. */
  ghost function ClashSlots(aspect: Aspect, sch: Schedule, classes: seq<ClassInfo>): set<Slot>
  {
    set s | s in Occupied(sch) && |Group(sch, s)| > 1 && Clash(aspect, classes, Group(sch, s))
  }

  /** The reference cost: lecturer-clash slots plus code-clash slots. */
  ghost function Cost(sch: Schedule, classes: seq<ClassInfo>): nat
  {
    |ClashSlots(Lecturers, sch, classes)| + |ClashSlots(Codes, sch, classes)|
  }

  /** An entry of the gathered list belongs to one of the listed ids. */
  lemma {:induction false} GatherMembers(aspect: Aspect, classes: seq<ClassInfo>, ids: seq<int>, x: string)
    ensures x in Gather(aspect, classes, ids) <==>
      exists k :: 0 <= k < |ids| && x in Items(aspect, classes, ids[k])
    decreases |ids|
  {
    if |ids| > 0 {
      var n := |ids| - 1;
      GatherMembers(aspect, classes, ids[..n], x);
      assert forall k :: 0 <= k < n ==> ids[..n][k] == ids[k];
    }
  }

  /** Growing a group by one new id adds its own repeats to the within-class repeats. */
  lemma RepeatsWithinAdd(aspect: Aspect, classes: seq<ClassInfo>, group: set<int>, id: int)
    ensures RepeatsWithin(aspect, classes, group + {id}) <==>
      RepeatsWithin(aspect, classes, group) || HasDuplicates(Items(aspect, classes, id))
  {
  }

  /** Growing a group by one new id adds the entries it shares with the old members. */
  lemma SharedBetweenAdd(aspect: Aspect, classes: seq<ClassInfo>, group: set<int>, id: int)
    requires id !in group
    ensures SharedBetween(aspect, classes, group + {id}) <==>
      SharedBetween(aspect, classes, group)
      || exists a, x :: a in group && x in Items(aspect, classes, a) && x in Items(aspect, classes, id)
  {
    var g := group + {id};
    if SharedBetween(aspect, classes, g) {
      var a, b, x :| a in g && b in g && a != b
        && x in Items(aspect, classes, a) && x in Items(aspect, classes, b);
      if a == id {
        assert b in group && x in Items(aspect, classes, b) && x in Items(aspect, classes, id);
      } else if b == id {
        assert a in group && x in Items(aspect, classes, a) && x in Items(aspect, classes, id);
      } else {
        assert SharedBetween(aspect, classes, group);
      }
    }
    if exists a, x :: a in group && x in Items(aspect, classes, a) && x in Items(aspect, classes, id) {
      var a, x :| a in group && x in Items(aspect, classes, a) && x in Items(aspect, classes, id);
      assert a in g && id in g && a != id;
    }
  }

  /**
   * For a duplicate-free id list, a repeat in the gathered entries is
   * exactly a clash in the set of those ids: the program's test agrees
   * with the order-free definition.
   */
  lemma {:induction false} GatherClash(aspect: Aspect, classes: seq<ClassInfo>, ids: seq<int>)
    requires !HasDuplicates(ids)
    ensures HasDuplicates(Gather(aspect, classes, ids)) <==> Clash(aspect, classes, Elements(ids))
    decreases |ids|
  {
    if |ids| == 0 {
      assert Elements(ids) == {};
      assert !HasDuplicates(Gather(aspect, classes, ids));
    } else {
      var n := |ids| - 1;
      var prefix, last := ids[..n], ids[n];
      DistinctSplit(ids);
      GatherClash(aspect, classes, prefix);
      assert Elements(ids) == Elements(prefix) + {last} by {
        assert ids == prefix + [last];
      }
      var earlier, own := Gather(aspect, classes, prefix), Items(aspect, classes, last);
      DuplicatesOfConcat(earlier, own);
      RepeatsWithinAdd(aspect, classes, Elements(prefix), last);
      SharedBetweenAdd(aspect, classes, Elements(prefix), last);
      SharedWithPrefix(aspect, classes, prefix, last);
    }
  }

  lemma SharedWithPrefix(aspect: Aspect, classes: seq<ClassInfo>, prefix: seq<int>, last: int)
    ensures (exists x :: x in Gather(aspect, classes, prefix) && x in Items(aspect, classes, last)) <==>
      exists a, x :: a in Elements(prefix) && x in Items(aspect, classes, a) && x in Items(aspect, classes, last)
  {
    if exists x :: x in Gather(aspect, classes, prefix) && x in Items(aspect, classes, last) {
      var x :| x in Gather(aspect, classes, prefix) && x in Items(aspect, classes, last);
      GatherMembers(aspect, classes, prefix, x);
      var k :| 0 <= k < |prefix| && x in Items(aspect, classes, prefix[k]);
      assert prefix[k] in Elements(prefix);
    }
    if exists a, x :: a in Elements(prefix) && x in Items(aspect, classes, a) && x in Items(aspect, classes, last) {
      var a, x :| a in Elements(prefix) && x in Items(aspect, classes, a) && x in Items(aspect, classes, last);
      var k :| 0 <= k < |prefix| && prefix[k] == a;
      GatherMembers(aspect, classes, prefix, x);
    }
  }

  /** The ids among `done` scheduled in slot `s`. */
  function GroupWithin(sch: Schedule, done: set<int>, s: Slot): set<int>
    requires done <= sch.Keys
  {
    set id | id in done && sch[id] == s
  }

  /** The slots of the ids among `done`. */
  function SlotsOf(sch: Schedule, done: set<int>): set<Slot>
    requires done <= sch.Keys
  {
    set id | id in done :: sch[id]
  }

  /**
   * `order` lists every id of the schedule exactly once: the order in
   * which the schedule's keys are iterated.
   */
  predicate KeyOrder(sch: Schedule, order: seq<int>)
  {
    !HasDuplicates(order) && Elements(order) == sch.Keys
  }

  /** `groups` lists, for every slot of the ids in `done`, those ids once each. */
  predicate GroupsOf(sch: Schedule, done: set<int>, groups: map<Slot, seq<int>>)
  {
    && done <= sch.Keys
    && groups.Keys == SlotsOf(sch, done)
    && forall s :: s in groups ==>
         !HasDuplicates(groups[s]) && Elements(groups[s]) == GroupWithin(sch, done, s)
  }

  /**
   * The grouping pass: for every occupied slot, the list of ids scheduled
   * there, each listed once, in key order; `slots` lists the occupied
   * slots in the order they were first met.
   */
  method GroupBySlot(sch: Schedule, order: seq<int>) returns (groups: map<Slot, seq<int>>, slots: seq<Slot>)
    requires KeyOrder(sch, order)
    ensures groups.Keys == Occupied(sch)
    ensures forall s :: s in groups ==> !HasDuplicates(groups[s]) && Elements(groups[s]) == Group(sch, s)
    ensures !HasDuplicates(slots) && Elements(slots) == groups.Keys
  {
    groups, slots := map[], [];
    for k := 0 to |order|
      invariant GroupsOf(sch, Elements(order[..k]), groups)
      invariant !HasDuplicates(slots) && Elements(slots) == groups.Keys
    {
      var id := order[k];
      KeyOrderStep(sch, order, k);
      var s := sch[id];
      var ids := if s in groups then groups[s] else [];
      AddToGroup(sch, Elements(order[..k]), groups, id);
      if s !in groups {
        DistinctAppend(slots, s);
        slots := slots + [s];
      }
      groups := groups[s := ids + [id]];
    }
    assert order[..|order|] == order;
  }

  /** The grouping step keeps `GroupsOf` with one more id. */
  lemma AddToGroup(sch: Schedule, done: set<int>, groups: map<Slot, seq<int>>, id: int)
    requires GroupsOf(sch, done, groups) && id in sch && id !in done
    ensures var ids := if sch[id] in groups then groups[sch[id]] else [];
      GroupsOf(sch, done + {id}, groups[sch[id] := ids + [id]])
  {
    var s := sch[id];
    var ids := if s in groups then groups[s] else [];
    assert Elements(ids) == GroupWithin(sch, done, s) by {
      if s !in groups {
        forall x | x in done
          ensures sch[x] != s
        {
          assert sch[x] in SlotsOf(sch, done);
        }
      }
    }
    assert id !in GroupWithin(sch, done, s);
    assert id !in ids by {
      assert id !in Elements(ids);
    }
    DistinctAppend(ids, id);
    GroupStep(sch, done, id);
    var groups' := groups[s := ids + [id]];
    forall t | t in groups'
      ensures !HasDuplicates(groups'[t]) && Elements(groups'[t]) == GroupWithin(sch, done + {id}, t)
    {
      if t != s {
        assert groups'[t] == groups[t];
      }
    }
  }

  /** Visiting the next id of the key order adds a new id to the visited ones. */
  lemma KeyOrderStep(sch: Schedule, order: seq<int>, k: nat)
    requires KeyOrder(sch, order) && k < |order|
    ensures Elements(order[..k]) <= sch.Keys && order[k] in sch
    ensures order[k] !in Elements(order[..k])
    ensures Elements(order[..k + 1]) == Elements(order[..k]) + {order[k]}
  {
    assert order[..k + 1] == order[..k] + [order[k]];
    forall j | 0 <= j < k
      ensures order[j] != order[k]
    {
    }
  }

  /** Adding one id moves it into its slot's group and changes no other group. */
  lemma GroupStep(sch: Schedule, done: set<int>, id: int)
    requires done <= sch.Keys && id in sch && id !in done
    ensures SlotsOf(sch, done + {id}) == SlotsOf(sch, done) + {sch[id]}
    ensures GroupWithin(sch, done + {id}, sch[id]) == GroupWithin(sch, done, sch[id]) + {id}
    ensures forall s :: s != sch[id] ==> GroupWithin(sch, done + {id}, s) == GroupWithin(sch, done, s)
  {
  }

  /** The lecturers and codes of a list of ids, looked up class by class. */
  method CollectEntries(classes: seq<ClassInfo>, ids: seq<int>) returns (lecturers: seq<string>, codes: seq<string>)
    ensures lecturers == Gather(Lecturers, classes, ids)
    ensures codes == Gather(Codes, classes, ids)
  {
    lecturers, codes := [], [];
    for k := 0 to |ids|
      invariant lecturers == Gather(Lecturers, classes, ids[..k])
      invariant codes == Gather(Codes, classes, ids[..k])
    {
      assert ids[..k + 1][..k] == ids[..k];
      var found := FindClass(classes, ids[k]);
      if found.Some? {
        lecturers := lecturers + found.value.lecturers;
        codes := codes + [found.value.code];
      }
    }
    assert ids[..|ids|] == ids;
  }

  /** The program's per-slot test decides membership in the clash slots. */
  lemma ClashSlotTest(aspect: Aspect, sch: Schedule, classes: seq<ClassInfo>, s: Slot, ids: seq<int>)
    requires s in Occupied(sch)
    requires !HasDuplicates(ids) && Elements(ids) == Group(sch, s)
    ensures s in ClashSlots(aspect, sch, classes) <==>
      |ids| > 1 && |Elements(Gather(aspect, classes, ids))| != |Gather(aspect, classes, ids)|
  {
    DistinctIffFullCount(ids);
    DistinctIffFullCount(Gather(aspect, classes, ids));
    GatherClash(aspect, classes, ids);
  }

  /**
   * The program's test for one slot: 1 for a lecturer clash plus 1 for a
   * course-code clash, looked for only when the slot holds two or more
   * classes.
   */
  method SlotCost(sch: Schedule, classes: seq<ClassInfo>, s: Slot, ids: seq<int>) returns (c: nat)
    requires s in Occupied(sch)
    requires !HasDuplicates(ids) && Elements(ids) == Group(sch, s)
    ensures c == (if s in ClashSlots(Lecturers, sch, classes) then 1 else 0)
               + (if s in ClashSlots(Codes, sch, classes) then 1 else 0)
  {
    ClashSlotTest(Lecturers, sch, classes, s, ids);
    ClashSlotTest(Codes, sch, classes, s, ids);
    c := 0;
    if |ids| > 1 {
      var lecturers, codes := CollectEntries(classes, ids);
      if |Elements(lecturers)| != |lecturers| {
        c := c + 1;
      }
      if |Elements(codes)| != |codes| {
        c := c + 1;
      }
    }
  }

  /**
   * The program's cost computation: group the classes by slot, then add
   * up the per-slot tests. Equal to the reference `Cost`.
   */
  method CalculateCost(sch: Schedule, order: seq<int>, classes: seq<ClassInfo>) returns (cost: nat)
    requires KeyOrder(sch, order)
    ensures cost == Cost(sch, classes)
  {
    var groups, slots := GroupBySlot(sch, order);
    ghost var lecturerClashes := ClashSlots(Lecturers, sch, classes);
    ghost var codeClashes := ClashSlots(Codes, sch, classes);
    cost := 0;
    for k := 0 to |slots|
      invariant cost == CountIn(slots[..k], lecturerClashes) + CountIn(slots[..k], codeClashes)
    {
      var s := slots[k];
      assert s in Elements(slots);
      var c := SlotCost(sch, classes, s, groups[s]);
      assert slots[..k + 1][..k] == slots[..k];
      cost := cost + c;
    }
    assert slots[..|slots|] == slots;
    CountInDistinct(slots, lecturerClashes);
    CountInDistinct(slots, codeClashes);
    ClashSlotsOccupied(Lecturers, sch, classes, Elements(slots));
    ClashSlotsOccupied(Codes, sch, classes, Elements(slots));
  }

  /** Every clash slot is occupied, so visiting all occupied slots visits all of them. */
  lemma ClashSlotsOccupied(aspect: Aspect, sch: Schedule, classes: seq<ClassInfo>, seen: set<Slot>)
    requires seen == Occupied(sch)
    ensures ClashSlots(aspect, sch, classes) * seen == ClashSlots(aspect, sch, classes)
  {
  }

  /** Each occupied slot costs at most 2: one lecturer clash and one code clash. */
  lemma CostBound(sch: Schedule, classes: seq<ClassInfo>)
    ensures Cost(sch, classes) <= 2 * |Occupied(sch)|
  {
    SubsetCard(ClashSlots(Lecturers, sch, classes), Occupied(sch));
    SubsetCard(ClashSlots(Codes, sch, classes), Occupied(sch));
  }

  /** No two classes share a slot. */
  predicate SlotsDistinct(sch: Schedule)
  {
    forall a, b :: a in sch && b in sch && a != b ==> sch[a] != sch[b]
  }

  /** When no slot holds two classes, the schedule costs nothing. */
  lemma CostZeroWhenSlotsDistinct(sch: Schedule, classes: seq<ClassInfo>)
    requires SlotsDistinct(sch)
    ensures Cost(sch, classes) == 0
  {
    forall s | s in Occupied(sch)
      ensures |Group(sch, s)| <= 1
    {
      var id :| id in sch && sch[id] == s;
      forall x | x in Group(sch, s)
        ensures x in {id}
      {
        assert sch[x] == sch[id];
      }
      SubsetCard(Group(sch, s), {id});
    }
    assert ClashSlots(Lecturers, sch, classes) == {};
    assert ClashSlots(Codes, sch, classes) == {};
  }
}
