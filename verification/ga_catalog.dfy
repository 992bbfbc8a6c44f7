/**
 * The genetic search's view of the domain: the timeslot table, the course
 * list, and the chromosome of (timeslot index, room index) genes. A
 * timeslot's index is its position in the table.
 */
module GaCatalog {

  /** One row of the timeslot table; `kind` is the slot category, 2 (short) or 3 (long). */
  datatype Timeslot = Timeslot(day: string, session: int, kind: int)

  /** The fields of a course the search reads: allowed session labels, credit weight, lecturers. */
  datatype Course = Course(allowedSessions: seq<int>, sks: int, lecturers: seq<string>)

  /** One gene: the chosen timeslot index and room index for one course. */
  datatype Gene = Gene(slot: nat, room: nat)

  /** One candidate timetable, gene i belonging to course i. */
  type Chromosome = seq<Gene>

  /** The slot category a course asks for: short for two credits, long for every other weight. */
  function WantedKind(c: Course): int
  {
    if c.sks == 2 then 2 else 3
  }

  /** A timeslot passes the course's session filter and its slot-category filter. */
  predicate Admissible(c: Course, t: Timeslot)
  {
    t.session in c.allowedSessions && t.kind == WantedKind(c)
  }

  /** Indices from `i` on of the admissible timeslots, in table order. */
  function AdmissibleFrom(c: Course, slots: seq<Timeslot>, i: nat): (r: seq<nat>)
    requires i <= |slots|
    ensures forall j :: j in r <==> i <= j < |slots| && Admissible(c, slots[j])
    ensures forall a, b :: 0 <= a < b < |r| ==> r[a] < r[b]
    decreases |slots| - i
  {
    if i == |slots| then []
    else
      var rest := AdmissibleFrom(c, slots, i + 1);
      assert forall a :: 0 <= a < |rest| ==> rest[a] in rest;
      (if Admissible(c, slots[i]) then [i] else []) + rest
  }

  /** The admissible subset of the whole timeslot table. */
  function AdmissibleSlots(c: Course, slots: seq<Timeslot>): seq<nat>
  {
    AdmissibleFrom(c, slots, 0)
  }

  /**
   * The list a course's timeslot is drawn from: the admissible subset, or
   * the whole table when nothing is admissible.
   */
  function Candidates(c: Course, slots: seq<Timeslot>): (r: seq<nat>)
    ensures forall j :: j in r ==> j < |slots|
    ensures |r| > 0 <==> |slots| > 0
    ensures |AdmissibleSlots(c, slots)| > 0 ==>
      forall j :: j in r <==> 0 <= j < |slots| && Admissible(c, slots[j])
    ensures |AdmissibleSlots(c, slots)| == 0 ==>
      forall j: nat :: j < |slots| ==> j in r
  {
    var admissible := AdmissibleSlots(c, slots);
    if |admissible| > 0 then admissible
    else Indices(|slots|)
  }

  /** The indices 0 .. n - 1 in order. */
  function Indices(n: nat): (r: seq<nat>)
    ensures |r| == n
    ensures forall j :: 0 <= j < n ==> r[j] == j
    ensures forall j: nat :: j in r <==> j < n
  {
    if n == 0 then [] else Indices(n - 1) + [n - 1]
  }

  predicate ValidGene(g: Gene, slotCount: nat, roomCount: nat)
  {
    g.slot < slotCount && g.room < roomCount
  }

  /** Every gene indexes into both tables. */
  predicate GenesInRange(ind: Chromosome, slotCount: nat, roomCount: nat)
  {
    forall i :: 0 <= i < |ind| ==> ValidGene(ind[i], slotCount, roomCount)
  }

  /** The chromosome invariant: one gene per course, each indexing into both tables. */
  predicate ValidChromosome(ind: Chromosome, courses: seq<Course>, slotCount: nat, roomCount: nat)
  {
    |ind| == |courses| && GenesInRange(ind, slotCount, roomCount)
  }
}
