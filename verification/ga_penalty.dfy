/**
 * The genetic search's penalty: soft terms per course plus hard terms for
 * every (day, session, room) and (day, session, lecturer) key held more
 * than once. `Penalty` is the reference definition ("every entry that
 * repeats an earlier key costs the weight once"); `ComputePenalty` follows
 * the program's tally-then-sum structure and is proved equal to it.
 */
module GaPenalty {
  import opened Duplicates
  import opened GaCatalog

  /** A conflict key: day, session, and the room name or lecturer occupying it. */
  datatype Key = Key(day: string, session: int, holder: string)

  const RoomWeight: nat := 10
  const LecturerWeight: nat := 8

  /** Soft penalty for placing course `c` in timeslot `t`. */
  function SoftPenalty(c: Course, t: Timeslot): (r: nat)
    ensures r == 0 <==>
      t.session in c.allowedSessions && (c.sks == 2 ==> t.kind == 2) && (c.sks >= 3 ==> t.kind == 3)
    ensures Admissible(c, t) ==> r == 0
    ensures t.session !in c.allowedSessions ==> r >= 5
    ensures r <= 8
  {
    (if t.session in c.allowedSessions then 0 else 5)
    + (if c.sks == 2 && t.kind != 2 then 3 else 0)
    + (if c.sks >= 3 && t.kind != 3 then 3 else 0)
  }

  predicate SlotsInRange(ind: Chromosome, slotCount: nat)
  {
    forall i :: 0 <= i < |ind| ==> ind[i].slot < slotCount
  }

  /** What scoring a chromosome needs: a course for every gene and genes that index both tables. */
  predicate Scorable(ind: Chromosome, slots: seq<Timeslot>, rooms: seq<string>, courses: seq<Course>)
  {
    |ind| <= |courses| && GenesInRange(ind, |slots|, |rooms|)
  }

  function SoftTotal(ind: Chromosome, slots: seq<Timeslot>, courses: seq<Course>): nat
    requires |ind| <= |courses| && SlotsInRange(ind, |slots|)
  {
    if |ind| == 0 then 0
    else
      var n := |ind| - 1;
      SoftTotal(ind[..n], slots, courses) + SoftPenalty(courses[n], slots[ind[n].slot])
  }

  function RoomKey(g: Gene, slots: seq<Timeslot>, rooms: seq<string>): Key
    requires ValidGene(g, |slots|, |rooms|)
  {
    Key(slots[g.slot].day, slots[g.slot].session, rooms[g.room])
  }

  /** The room key of every gene, in chromosome order. */
  function RoomKeys(ind: Chromosome, slots: seq<Timeslot>, rooms: seq<string>): seq<Key>
    requires GenesInRange(ind, |slots|, |rooms|)
  {
    if |ind| == 0 then []
    else RoomKeys(ind[..|ind| - 1], slots, rooms) + [RoomKey(ind[|ind| - 1], slots, rooms)]
  }

  /** One key per listed lecturer of a course placed in timeslot `t`, repeats included. */
  function LecturerKeysOf(t: Timeslot, lecturers: seq<string>): seq<Key>
  {
    if |lecturers| == 0 then []
    else
      var n := |lecturers| - 1;
      LecturerKeysOf(t, lecturers[..n]) + [Key(t.day, t.session, lecturers[n])]
  }

  lemma {:induction false} LecturerKeysOfAt(t: Timeslot, lecturers: seq<string>, j: nat)
    requires j < |lecturers|
    ensures |LecturerKeysOf(t, lecturers)| == |lecturers|
    ensures LecturerKeysOf(t, lecturers)[j] == Key(t.day, t.session, lecturers[j])
    decreases |lecturers|
  {
    var n := |lecturers| - 1;
    if j < n {
      LecturerKeysOfAt(t, lecturers[..n], j);
    } else if n > 0 {
      LecturerKeysOfAt(t, lecturers[..n], n - 1);
    }
  }

  /** The lecturer keys of all genes, in chromosome order. */
  function LecturerKeys(ind: Chromosome, slots: seq<Timeslot>, courses: seq<Course>): seq<Key>
    requires |ind| <= |courses| && SlotsInRange(ind, |slots|)
  {
    if |ind| == 0 then []
    else
      var n := |ind| - 1;
      LecturerKeys(ind[..n], slots, courses) + LecturerKeysOf(slots[ind[n].slot], courses[n].lecturers)
  }

  /**
   * The reference penalty: the soft total, plus the room weight for every
   * room key that repeats an earlier one, plus the lecturer weight for every
   * lecturer key that repeats an earlier one.
   */
  function Penalty(ind: Chromosome, slots: seq<Timeslot>, rooms: seq<string>, courses: seq<Course>): nat
    requires Scorable(ind, slots, rooms, courses)
  {
    SoftTotal(ind, slots, courses)
    + RoomWeight * Excess(RoomKeys(ind, slots, rooms))
    + LecturerWeight * Excess(LecturerKeys(ind, slots, courses))
  }

  /** What one key held `n` times costs: `weight` for every holder after the first. */
  function ClashCost(weight: nat, n: nat): nat
  {
    if n > 1 then weight * (n - 1) else 0
  }

  /** Sum over the keys of a tally of `weight * (N - 1)` for every key held N > 1 times. */
  method ConflictPenalty(used: map<Key, nat>, weight: nat, ghost keys: seq<Key>) returns (total: nat)
    requires used == Tally(keys)
    ensures total == weight * Excess(keys)
  {
    total := 0;
    var rest := used.Keys;
    ghost var done: set<Key> := {};
    ghost var excess: nat := 0;
    CountInNothing(keys);
    while rest != {}
      invariant done <= used.Keys && rest == used.Keys - done
      invariant CountIn(keys, done) == excess + |done|
      invariant total == weight * excess
      decreases rest
    {
      var k :| k in rest;
      var n := used[k];
      TallyAt(keys, k);
      ConflictStep(keys, done, k, excess, weight);
      total := total + ClashCost(weight, n);
      excess := excess + (n - 1);
      rest := rest - {k};
      done := done + {k};
    }
    TallyKeys(keys);
    ConflictDone(keys, done, excess);
  }

  /** Once every distinct key has been visited, the accumulated excess is the whole sequence's. */
  lemma ConflictDone(keys: seq<Key>, done: set<Key>, excess: nat)
    requires done == Elements(keys)
    requires CountIn(keys, done) == excess + |done|
    ensures excess == Excess(keys)
  {
    CountInCovering(keys, done);
    ExcessIsLengthMinusDistinct(keys);
  }

  lemma ConflictStep(keys: seq<Key>, done: set<Key>, k: Key, excess: nat, weight: nat)
    requires k !in done && multiset(keys)[k] >= 1
    requires CountIn(keys, done) == excess + |done|
    ensures CountIn(keys, done + {k}) == (excess + multiset(keys)[k] - 1) + |done + {k}|
    ensures weight * excess + ClashCost(weight, multiset(keys)[k]) == weight * (excess + multiset(keys)[k] - 1)
  {
    CountInAdd(keys, done, k);
    Distribute(weight, excess, multiset(keys)[k] - 1);
  }

  lemma Distribute(w: nat, a: nat, b: nat)
    ensures w * a + w * b == w * (a + b)
  {
  }

  /** One more prefix of the chromosome: each reference quantity grows by the new gene's share. */
  lemma PrefixStep(ind: Chromosome, slots: seq<Timeslot>, rooms: seq<string>, courses: seq<Course>, i: nat)
    requires Scorable(ind, slots, rooms, courses) && i < |ind|
    ensures SoftTotal(ind[..i + 1], slots, courses)
         == SoftTotal(ind[..i], slots, courses) + SoftPenalty(courses[i], slots[ind[i].slot])
    ensures RoomKeys(ind[..i + 1], slots, rooms) == RoomKeys(ind[..i], slots, rooms) + [RoomKey(ind[i], slots, rooms)]
    ensures LecturerKeys(ind[..i + 1], slots, courses)
         == LecturerKeys(ind[..i], slots, courses) + LecturerKeysOf(slots[ind[i].slot], courses[i].lecturers)
  {
    assert ind[..i + 1][..i] == ind[..i];
  }

  lemma LecturerKeysOfStep(t: Timeslot, lecturers: seq<string>, j: nat)
    requires j < |lecturers|
    ensures LecturerKeysOf(t, lecturers[..j + 1])
         == LecturerKeysOf(t, lecturers[..j]) + [Key(t.day, t.session, lecturers[j])]
  {
    assert lecturers[..j + 1][..j] == lecturers[..j];
  }

  /** The inner tally loop: one lecturer key per listed lecturer of a course placed in `t`. */
  method TallyLecturers(used: map<Key, nat>, ghost before: seq<Key>, t: Timeslot, lecturers: seq<string>)
    returns (used': map<Key, nat>)
    requires used == Tally(before)
    ensures used' == Tally(before + LecturerKeysOf(t, lecturers))
  {
    used' := used;
    assert before + LecturerKeysOf(t, lecturers[..0]) == before;
    for j := 0 to |lecturers|
      invariant used' == Tally(before + LecturerKeysOf(t, lecturers[..j]))
    {
      var key := Key(t.day, t.session, lecturers[j]);
      TallyAppend(before + LecturerKeysOf(t, lecturers[..j]), key);
      used' := Bump(used', key);
      LecturerKeysOfStep(t, lecturers, j);
      assert before + LecturerKeysOf(t, lecturers[..j + 1])
          == (before + LecturerKeysOf(t, lecturers[..j])) + [key];
    }
    assert lecturers[..|lecturers|] == lecturers;
  }

  /** The body of the scoring loop for gene `i`: its soft terms, its room key and its lecturer keys. */
  method ScoreGene(ind: Chromosome, slots: seq<Timeslot>, rooms: seq<string>, courses: seq<Course>, i: nat,
                   soft: nat, usedRoom: map<Key, nat>, usedLecturer: map<Key, nat>)
    returns (soft': nat, usedRoom': map<Key, nat>, usedLecturer': map<Key, nat>)
    requires Scorable(ind, slots, rooms, courses) && i < |ind|
    requires soft == SoftTotal(ind[..i], slots, courses)
    requires usedRoom == Tally(RoomKeys(ind[..i], slots, rooms))
    requires usedLecturer == Tally(LecturerKeys(ind[..i], slots, courses))
    ensures soft' == SoftTotal(ind[..i + 1], slots, courses)
    ensures usedRoom' == Tally(RoomKeys(ind[..i + 1], slots, rooms))
    ensures usedLecturer' == Tally(LecturerKeys(ind[..i + 1], slots, courses))
  {
    var g := ind[i];
    var c := courses[i];
    var t := slots[g.slot];
    PrefixStep(ind, slots, rooms, courses, i);

    soft' := soft;
    if t.session !in c.allowedSessions {
      soft' := soft' + 5;
    }
    if c.sks == 2 && t.kind != 2 {
      soft' := soft' + 3;
    }
    if c.sks >= 3 && t.kind != 3 {
      soft' := soft' + 3;
    }

    var roomKey := Key(t.day, t.session, rooms[g.room]);
    TallyAppend(RoomKeys(ind[..i], slots, rooms), roomKey);
    usedRoom' := Bump(usedRoom, roomKey);

    usedLecturer' := TallyLecturers(usedLecturer, LecturerKeys(ind[..i], slots, courses), t, c.lecturers);
  }

  /** The program's scoring loop: soft terms, then the room and lecturer tallies. */
  method ComputePenalty(ind: Chromosome, slots: seq<Timeslot>, rooms: seq<string>, courses: seq<Course>)
    returns (penalty: nat)
    requires Scorable(ind, slots, rooms, courses)
    ensures penalty == Penalty(ind, slots, rooms, courses)
  {
    var soft := 0;
    var usedRoom: map<Key, nat> := map[];
    var usedLecturer: map<Key, nat> := map[];
    for i := 0 to |ind|
      invariant soft == SoftTotal(ind[..i], slots, courses)
      invariant usedRoom == Tally(RoomKeys(ind[..i], slots, rooms))
      invariant usedLecturer == Tally(LecturerKeys(ind[..i], slots, courses))
    {
      soft, usedRoom, usedLecturer := ScoreGene(ind, slots, rooms, courses, i, soft, usedRoom, usedLecturer);
    }
    assert ind[..|ind|] == ind;
    var roomConflicts := ConflictPenalty(usedRoom, RoomWeight, RoomKeys(ind, slots, rooms));
    var lecturerConflicts := ConflictPenalty(usedLecturer, LecturerWeight, LecturerKeys(ind, slots, courses));
    penalty := soft + roomConflicts + lecturerConflicts;
  }

  /** Fitness of a penalty: 1 / (1 + penalty), computed exactly. */
  function Fitness(penalty: nat): (r: real)
    ensures 0.0 < r <= 1.0
    ensures r == 1.0 <==> penalty == 0
  {
    1.0 / (1.0 + penalty as real)
  }

  /** The program's fitness evaluation: the pair (fitness, penalty). */
  method ComputeFitness(ind: Chromosome, slots: seq<Timeslot>, rooms: seq<string>, courses: seq<Course>)
    returns (fitness: real, penalty: nat)
    requires Scorable(ind, slots, rooms, courses)
    ensures penalty == Penalty(ind, slots, rooms, courses)
    ensures 0.0 < fitness <= 1.0
    ensures fitness == 1.0 <==> penalty == 0
    ensures fitness == Fitness(penalty)
  {
    penalty := ComputePenalty(ind, slots, rooms, courses);
    fitness := 1.0 / (1.0 + penalty as real);
  }

  /** Fitness orders chromosomes exactly opposite to penalty. */
  lemma FitnessOrder(p: nat, q: nat)
    ensures Fitness(p) < Fitness(q) <==> q < p
    ensures Fitness(p) == Fitness(q) <==> p == q
  {
    var a, b := 1.0 + p as real, 1.0 + q as real;
    if q < p {
      assert 1.0 / a < 1.0 / b by { DivideMonotone(b, a); }
    } else if p < q {
      assert 1.0 / b < 1.0 / a by { DivideMonotone(a, b); }
    }
  }

  lemma DivideMonotone(small: real, large: real)
    requires 0.0 < small < large
    ensures 1.0 / large < 1.0 / small
  {
    assert (1.0 / large) * large == 1.0;
    assert (1.0 / small) * small == 1.0;
  }

  /** Zero penalty means no soft violation and no shared room or lecturer key at all. */
  lemma PenaltyZeroIff(ind: Chromosome, slots: seq<Timeslot>, rooms: seq<string>, courses: seq<Course>)
    requires Scorable(ind, slots, rooms, courses)
    ensures Penalty(ind, slots, rooms, courses) == 0 <==>
      && SoftTotal(ind, slots, courses) == 0
      && !HasDuplicates(RoomKeys(ind, slots, rooms))
      && !HasDuplicates(LecturerKeys(ind, slots, courses))
  {
    ExcessPositiveIffDuplicates(RoomKeys(ind, slots, rooms));
    ExcessPositiveIffDuplicates(LecturerKeys(ind, slots, courses));
  }

  /** Genes whose timeslots are all admissible carry no soft penalty. */
  lemma {:induction false} SoftTotalOfAdmissible(ind: Chromosome, slots: seq<Timeslot>, courses: seq<Course>)
    requires |ind| <= |courses| && SlotsInRange(ind, |slots|)
    requires forall i :: 0 <= i < |ind| ==> Admissible(courses[i], slots[ind[i].slot])
    ensures SoftTotal(ind, slots, courses) == 0
    decreases |ind|
  {
    if |ind| > 0 {
      SoftTotalOfAdmissible(ind[..|ind| - 1], slots, courses);
    }
  }

  lemma {:induction false} RoomKeysAt(ind: Chromosome, slots: seq<Timeslot>, rooms: seq<string>)
    requires GenesInRange(ind, |slots|, |rooms|)
    ensures |RoomKeys(ind, slots, rooms)| == |ind|
    ensures forall i :: 0 <= i < |ind| ==> RoomKeys(ind, slots, rooms)[i] == RoomKey(ind[i], slots, rooms)
    decreases |ind|
  {
    if |ind| > 0 {
      RoomKeysAt(ind[..|ind| - 1], slots, rooms);
    }
  }

  /**
   * Courses sharing one (day, session, room) key: a set of N of them adds at
   * least 10 * (N - 1), so two add at least 10 and three at least 20.
   */
  lemma RoomClashCost(ind: Chromosome, slots: seq<Timeslot>, rooms: seq<string>, courses: seq<Course>,
                      sharing: set<int>, k: Key)
    requires Scorable(ind, slots, rooms, courses)
    requires forall i :: i in sharing ==> 0 <= i < |ind| && RoomKey(ind[i], slots, rooms) == k
    ensures Penalty(ind, slots, rooms, courses) >= RoomWeight * (|sharing| - 1)
  {
    var keys := RoomKeys(ind, slots, rooms);
    RoomKeysAt(ind, slots, rooms);
    var positions := Positions(keys, k);
    OccurrencesArePositions(keys, k);
    assert sharing <= positions;
    SubsetCard(sharing, positions);
    ExcessAtLeastOccurrences(keys, k);
    assert Excess(keys) >= |sharing| - 1;
  }

  function LecturerBlock(ind: Chromosome, slots: seq<Timeslot>, courses: seq<Course>, i: nat): seq<Key>
    requires |ind| <= |courses| && SlotsInRange(ind, |slots|) && i < |ind|
  {
    LecturerKeysOf(slots[ind[i].slot], courses[i].lecturers)
  }

  lemma LecturerKeysSplit(ind: Chromosome, slots: seq<Timeslot>, courses: seq<Course>, n: nat)
    requires |ind| <= |courses| && SlotsInRange(ind, |slots|) && n == |ind| - 1
    ensures multiset(LecturerKeys(ind, slots, courses))
         == multiset(LecturerKeys(ind[..n], slots, courses)) + multiset(LecturerBlock(ind, slots, courses, n))
  {
  }

  lemma {:induction false} BlockInLecturerKeys(ind: Chromosome, slots: seq<Timeslot>, courses: seq<Course>, i: nat)
    requires |ind| <= |courses| && SlotsInRange(ind, |slots|) && i < |ind|
    ensures multiset(LecturerBlock(ind, slots, courses, i)) <= multiset(LecturerKeys(ind, slots, courses))
    decreases |ind|
  {
    var n: nat := |ind| - 1;
    var p := ind[..n];
    LecturerKeysSplit(ind, slots, courses, n);
    var mi := multiset(LecturerBlock(ind, slots, courses, i));
    var rest := multiset(LecturerKeys(p, slots, courses));
    var last := multiset(LecturerBlock(ind, slots, courses, n));
    if i < n {
      BlockInLecturerKeys(p, slots, courses, i);
      assert LecturerBlock(p, slots, courses, i) == LecturerBlock(ind, slots, courses, i);
      assert mi <= rest;
      MultisetGrow(mi, rest, last);
    } else {
      assert i == n;
      MultisetInSum(rest, mi);
    }
  }

  lemma {:induction false} TwoBlocksInLecturerKeys(ind: Chromosome, slots: seq<Timeslot>, courses: seq<Course>, i: nat, j: nat)
    requires |ind| <= |courses| && SlotsInRange(ind, |slots|) && i < j < |ind|
    ensures multiset(LecturerBlock(ind, slots, courses, i)) + multiset(LecturerBlock(ind, slots, courses, j))
         <= multiset(LecturerKeys(ind, slots, courses))
    decreases |ind|
  {
    var n: nat := |ind| - 1;
    var p := ind[..n];
    LecturerKeysSplit(ind, slots, courses, n);
    var mi := multiset(LecturerBlock(ind, slots, courses, i));
    var mj := multiset(LecturerBlock(ind, slots, courses, j));
    var rest := multiset(LecturerKeys(p, slots, courses));
    assert LecturerBlock(p, slots, courses, i) == LecturerBlock(ind, slots, courses, i);
    if j < n {
      TwoBlocksInLecturerKeys(p, slots, courses, i, j);
      assert LecturerBlock(p, slots, courses, j) == LecturerBlock(ind, slots, courses, j);
      assert mi + mj <= rest;
      MultisetGrow(mi + mj, rest, multiset(LecturerBlock(ind, slots, courses, n)));
    } else {
      assert j == n;
      BlockInLecturerKeys(p, slots, courses, i);
      assert mi <= rest;
      MultisetAddMonotone(mi, rest, mj, mj);
      assert rest + mj == multiset(LecturerKeys(ind, slots, courses));
    }
  }

  lemma MultisetGrow<T>(a: multiset<T>, b: multiset<T>, c: multiset<T>)
    requires a <= b
    ensures a <= b + c
  {
  }

  lemma MultisetInSum<T>(a: multiset<T>, b: multiset<T>)
    ensures b <= a + b
  {
  }

  lemma MultisetAddMonotone<T>(a: multiset<T>, b: multiset<T>, c: multiset<T>, d: multiset<T>)
    requires a <= b && c <= d
    ensures a + c <= b + d
  {
  }

  /** Two courses taught by one lecturer in the same day and session add at least 8. */
  lemma LecturerClashCost(ind: Chromosome, slots: seq<Timeslot>, rooms: seq<string>, courses: seq<Course>,
                          i: nat, j: nat, lecturer: string)
    requires Scorable(ind, slots, rooms, courses)
    requires i < j < |ind|
    requires slots[ind[i].slot].day == slots[ind[j].slot].day
    requires slots[ind[i].slot].session == slots[ind[j].slot].session
    requires lecturer in courses[i].lecturers && lecturer in courses[j].lecturers
    ensures Penalty(ind, slots, rooms, courses) >= LecturerWeight
  {
    var t := slots[ind[i].slot];
    var k := Key(t.day, t.session, lecturer);
    var bi, bj := LecturerBlock(ind, slots, courses, i), LecturerBlock(ind, slots, courses, j);
    var a :| 0 <= a < |courses[i].lecturers| && courses[i].lecturers[a] == lecturer;
    var b :| 0 <= b < |courses[j].lecturers| && courses[j].lecturers[b] == lecturer;
    LecturerKeysOfAt(slots[ind[i].slot], courses[i].lecturers, a);
    LecturerKeysOfAt(slots[ind[j].slot], courses[j].lecturers, b);
    assert bi[a] == k && bj[b] == k;
    assert k in multiset(bi) && k in multiset(bj);
    TwoBlocksInLecturerKeys(ind, slots, courses, i, j);
    var keys := LecturerKeys(ind, slots, courses);
    assert multiset(keys)[k] >= 2;
    ExcessAtLeastOccurrences(keys, k);
  }

  /** A course listing the same lecturer twice clashes with itself and adds at least 8. */
  lemma RepeatedLecturerCost(ind: Chromosome, slots: seq<Timeslot>, rooms: seq<string>, courses: seq<Course>,
                             i: nat, a: nat, b: nat)
    requires Scorable(ind, slots, rooms, courses)
    requires i < |ind|
    requires a < b < |courses[i].lecturers| && courses[i].lecturers[a] == courses[i].lecturers[b]
    ensures Penalty(ind, slots, rooms, courses) >= LecturerWeight
  {
    var block := LecturerBlock(ind, slots, courses, i);
    LecturerKeysOfAt(slots[ind[i].slot], courses[i].lecturers, a);
    LecturerKeysOfAt(slots[ind[i].slot], courses[i].lecturers, b);
    TwoPositions(block, a, b);
    BlockInLecturerKeys(ind, slots, courses, i);
    var keys := LecturerKeys(ind, slots, courses);
    ExcessAtLeastOccurrences(keys, block[a]);
  }
}
