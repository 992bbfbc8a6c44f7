/**
 * The genetic operators: the mutation rate rule, random individuals,
 * tournament selection, one-point crossover and per-gene mutation. Every
 * random draw the program makes is an explicit parameter here: an index
 * into a candidate list, a sampled list of population indices, a cut
 * point, or a boolean standing for "random() fell below the rate".
 */
module GaOperators {
  import opened Wrappers
  import opened GaCatalog
  import opened GaPenalty

  /**
   * The per-gene mutation probability for a chromosome of `length` genes:
   * one over the length, never below 0.01 and never above 0.05.
   */
  function MutationRate(length: int): (r: real)
    ensures 0.01 <= r <= 0.05
    ensures 20 <= length <= 100 ==> r == 1.0 / length as real
    ensures length <= 20 ==> r == 0.05
    ensures length >= 100 ==> r == 0.01
  {
    var base := if length >= 1 then length else 1;
    var inverse := 1.0 / base as real;
    var floored := if inverse >= 0.01 then inverse else 0.01;
    if 0.05 <= floored then 0.05 else floored
  }

  /** A longer chromosome never gets a higher mutation rate. */
  lemma MutationRateAntitone(shorter: int, longer: int)
    requires shorter <= longer
    ensures MutationRate(longer) <= MutationRate(shorter)
  {
    if 1 <= shorter {
      InverseAntitone(shorter, longer);
    }
  }

  lemma InverseAntitone(a: int, b: int)
    requires 1 <= a <= b
    ensures 1.0 / b as real <= 1.0 / a as real
  {
    if a < b {
      DivideMonotone(a as real, b as real);
    }
  }

  /** The timeslot index a draw picks for course `c`: a position in its candidate list. */
  function PickSlot(c: Course, slots: seq<Timeslot>, pick: nat): (s: nat)
    requires pick < |Candidates(c, slots)|
    ensures s < |slots|
    ensures s in Candidates(c, slots)
    ensures |AdmissibleSlots(c, slots)| > 0 ==> Admissible(c, slots[s])
  {
    var candidates := Candidates(c, slots);
    assert candidates[pick] in candidates;
    candidates[pick]
  }

  /** The draws for one gene of a fresh individual: a candidate position and a room index. */
  datatype GeneDraw = GeneDraw(slotPick: nat, roomPick: nat)

  /** One draw per course, each within its candidate list and the room table. */
  predicate GeneDrawsFit(draws: seq<GeneDraw>, slots: seq<Timeslot>, rooms: seq<string>, courses: seq<Course>)
  {
    && |draws| == |courses|
    && forall i :: 0 <= i < |courses| ==>
         draws[i].slotPick < |Candidates(courses[i], slots)| && draws[i].roomPick < |rooms|
  }

  /** A course may always get an admissible slot: something in the table passes both of its filters. */
  predicate AlwaysAdmissible(slots: seq<Timeslot>, courses: seq<Course>)
  {
    forall i :: 0 <= i < |courses| ==> |AdmissibleSlots(courses[i], slots)| > 0
  }

  /**
   * Gene `g` is what draw `d` yields for course `c`: the candidate timeslot
   * the draw picks (an admissible one whenever the course has any) and the
   * drawn room.
   */
  predicate DrawnGene(g: Gene, c: Course, slots: seq<Timeslot>, d: GeneDraw)
  {
    && d.slotPick < |Candidates(c, slots)|
    && g.slot == PickSlot(c, slots, d.slotPick)
    && g.slot < |slots|
    && g.slot in Candidates(c, slots)
    && (|AdmissibleSlots(c, slots)| > 0 ==> Admissible(c, slots[g.slot]))
    && g.room == d.roomPick
  }

  /** Individual `ind` is what the gene draws `draws` yield: one drawn gene per course. */
  predicate DrawnIndividual(ind: Chromosome, slots: seq<Timeslot>, courses: seq<Course>, draws: seq<GeneDraw>)
  {
    && |ind| == |courses| && |draws| == |courses|
    && forall i :: 0 <= i < |courses| ==> DrawnGene(ind[i], courses[i], slots, draws[i])
  }

  /**
   * A random individual: course by course, a timeslot from the course's
   * candidate list and a room from the whole room table.
   */
  method CreateIndividual(slots: seq<Timeslot>, rooms: seq<string>, courses: seq<Course>, draws: seq<GeneDraw>)
    returns (ind: Chromosome)
    requires GeneDrawsFit(draws, slots, rooms, courses)
    ensures ValidChromosome(ind, courses, |slots|, |rooms|)
    ensures forall i :: 0 <= i < |ind| ==> DrawnGene(ind[i], courses[i], slots, draws[i])
    ensures DrawnIndividual(ind, slots, courses, draws)
    ensures AlwaysAdmissible(slots, courses) ==> SoftTotal(ind, slots, courses) == 0
  {
    ind := [];
    for i := 0 to |courses|
      invariant |ind| == i
      invariant forall j :: 0 <= j < i ==> DrawnGene(ind[j], courses[j], slots, draws[j])
    {
      var slot := PickSlot(courses[i], slots, draws[i].slotPick);
      ind := ind + [Gene(slot, draws[i].roomPick)];
    }
    assert GenesInRange(ind, |slots|, |rooms|) by {
      forall j | 0 <= j < |ind|
        ensures ValidGene(ind[j], |slots|, |rooms|)
      {
        assert DrawnGene(ind[j], courses[j], slots, draws[j]);
      }
    }
    if AlwaysAdmissible(slots, courses) {
      forall j | 0 <= j < |ind|
        ensures Admissible(courses[j], slots[ind[j].slot])
      {
        assert DrawnGene(ind[j], courses[j], slots, draws[j]);
      }
      SoftTotalOfAdmissible(ind, slots, courses);
    }
  }

  /** `popSize` random individuals, one list of gene draws each. */
  method InitializePopulation(popSize: nat, slots: seq<Timeslot>, rooms: seq<string>, courses: seq<Course>,
                              draws: seq<seq<GeneDraw>>)
    returns (population: seq<Chromosome>)
    requires |draws| == popSize
    requires forall k :: 0 <= k < popSize ==> GeneDrawsFit(draws[k], slots, rooms, courses)
    ensures |population| == popSize
    ensures forall k :: 0 <= k < popSize ==> ValidChromosome(population[k], courses, |slots|, |rooms|)
    ensures forall k :: 0 <= k < popSize ==> DrawnIndividual(population[k], slots, courses, draws[k])
  {
    population := [];
    for k := 0 to popSize
      invariant |population| == k
      invariant forall j :: 0 <= j < k ==> ValidChromosome(population[j], courses, |slots|, |rooms|)
      invariant AllDrawn(population, slots, courses, draws)
    {
      var ind := CreateIndividual(slots, rooms, courses, draws[k]);
      AllDrawnAppend(population, ind, slots, courses, draws);
      population := population + [ind];
    }
  }

  /** Every individual of `population` is what its own list of `draws` yields. */
  predicate AllDrawn(population: seq<Chromosome>, slots: seq<Timeslot>, courses: seq<Course>, draws: seq<seq<GeneDraw>>)
  {
    && |population| <= |draws|
    && forall k :: 0 <= k < |population| ==> DrawnIndividual(population[k], slots, courses, draws[k])
  }

  /** Appending the individual the next draws yield keeps `AllDrawn`. */
  lemma AllDrawnAppend(population: seq<Chromosome>, ind: Chromosome, slots: seq<Timeslot>, courses: seq<Course>,
                       draws: seq<seq<GeneDraw>>)
    requires AllDrawn(population, slots, courses, draws) && |population| < |draws|
    requires DrawnIndividual(ind, slots, courses, draws[|population|])
    ensures AllDrawn(population + [ind], slots, courses, draws)
  {
    var population' := population + [ind];
    forall k | 0 <= k < |population'|
      ensures DrawnIndividual(population'[k], slots, courses, draws[k])
    {
      if k < |population| {
        assert population'[k] == population[k];
      }
    }
  }

  /**
   * Position `w` of the `order` list holds the first maximum: no listed
   * index has higher fitness, and every index listed before it has strictly
   * lower fitness. Tournament selection scans its sample this way and the
   * elitist pick scans the whole population this way.
   */
  predicate IsFirstBest(fitnesses: seq<real>, order: seq<nat>, w: nat)
    requires forall p :: 0 <= p < |order| ==> order[p] < |fitnesses|
  {
    && w < |order|
    && (forall p :: 0 <= p < |order| ==> fitnesses[order[p]] <= fitnesses[order[w]])
    && (forall p :: 0 <= p < w ==> fitnesses[order[p]] < fitnesses[order[w]])
  }

  /** At most one position is the first maximum. */
  lemma FirstBestUnique(fitnesses: seq<real>, order: seq<nat>, v: nat, w: nat)
    requires forall p :: 0 <= p < |order| ==> order[p] < |fitnesses|
    requires IsFirstBest(fitnesses, order, v) && IsFirstBest(fitnesses, order, w)
    ensures v == w
  {
    if v <= w {
      FirstBestOrdered(fitnesses, order, v, w);
    } else {
      FirstBestOrdered(fitnesses, order, w, v);
    }
  }

  lemma FirstBestOrdered(fitnesses: seq<real>, order: seq<nat>, v: nat, w: nat)
    requires forall p :: 0 <= p < |order| ==> order[p] < |fitnesses|
    requires IsFirstBest(fitnesses, order, v) && IsFirstBest(fitnesses, order, w) && v <= w
    ensures v == w
  {
    assert fitnesses[order[w]] <= fitnesses[order[v]];
  }

  /** Scan `order`, replacing the incumbent only on strictly higher fitness. */
  method FirstBest(fitnesses: seq<real>, order: seq<nat>) returns (w: nat)
    requires |order| >= 1
    requires forall p :: 0 <= p < |order| ==> order[p] < |fitnesses|
    ensures IsFirstBest(fitnesses, order, w)
  {
    w := 0;
    var bestFit := fitnesses[order[0]];
    for p := 1 to |order|
      invariant w < p
      invariant bestFit == fitnesses[order[w]]
      invariant forall q :: 0 <= q < p ==> fitnesses[order[q]] <= bestFit
      invariant forall q :: 0 <= q < w ==> fitnesses[order[q]] < bestFit
    {
      if fitnesses[order[p]] > bestFit {
        w := p;
        bestFit := fitnesses[order[p]];
      }
    }
  }

  /**
   * Tournament selection over the sampled population indices: the first
   * sampled individual of highest fitness.
   */
  method TournamentSelection(population: seq<Chromosome>, fitnesses: seq<real>, sampled: seq<nat>)
    returns (winner: Chromosome, index: nat)
    requires |fitnesses| == |population|
    requires |sampled| >= 1
    requires forall p :: 0 <= p < |sampled| ==> sampled[p] < |population|
    ensures index in sampled && index < |population| && winner == population[index]
    ensures forall p :: 0 <= p < |sampled| ==> fitnesses[sampled[p]] <= fitnesses[index]
    ensures exists w: nat :: IsFirstBest(fitnesses, sampled, w) && sampled[w] == index
  {
    var w := FirstBest(fitnesses, sampled);
    index := sampled[w];
    winner := population[index];
  }

  /** Index `k` holds the first maximum of the whole fitness list. */
  predicate IsFirstMax(fitnesses: seq<real>, k: nat)
  {
    && k < |fitnesses|
    && (forall j :: 0 <= j < |fitnesses| ==> fitnesses[j] <= fitnesses[k])
    && (forall j :: 0 <= j < k ==> fitnesses[j] < fitnesses[k])
  }

  /** The elitist pick: the first population index of highest fitness. */
  method EliteIndex(fitnesses: seq<real>) returns (index: nat)
    requires |fitnesses| >= 1
    ensures IsFirstMax(fitnesses, index)
  {
    var order := Indices(|fitnesses|);
    var w := FirstBest(fitnesses, order);
    index := order[w];
    forall j | 0 <= j < |fitnesses|
      ensures fitnesses[j] <= fitnesses[index]
      ensures j < index ==> fitnesses[j] < fitnesses[index]
    {
      assert order[j] == j;
    }
  }

  /** Crossover fails when the parents' lengths differ, or when a cut is due and no cut point exists. */
  datatype CrossoverError = ParentLengthMismatch | EmptyCutRange

  /** The child taking genes before `point` from `a` and the rest from `b`. */
  function Splice(a: Chromosome, b: Chromosome, point: nat): (child: Chromosome)
    requires |a| == |b| && point <= |a|
    ensures |child| == |a|
    ensures forall i :: 0 <= i < point ==> child[i] == a[i]
    ensures forall i :: point <= i < |a| ==> child[i] == b[i]
  {
    a[..point] + b[point..]
  }

  /**
   * One-point crossover. `cross` stands for the crossover coin landing at
   * or under the crossover rate; `point` for the cut drawn from 1 .. length - 1.
   */
  function Crossover(p1: Chromosome, p2: Chromosome, cross: bool, point: nat)
    : (r: Result<(Chromosome, Chromosome), CrossoverError>)
    requires cross && |p1| == |p2| && |p1| >= 2 ==> 1 <= point < |p1|
    ensures r.Failure? <==> |p1| != |p2| || (cross && |p1| < 2)
    ensures r.Failure? ==> (r.error == ParentLengthMismatch <==> |p1| != |p2|)
    ensures r.Success? && !cross ==> r.value == (p1, p2)
    ensures r.Success? ==> |r.value.0| == |p1| && |r.value.1| == |p1|
    ensures r.Success? ==> forall i :: 0 <= i < |p1| ==>
      multiset{r.value.0[i], r.value.1[i]} == multiset{p1[i], p2[i]}
    ensures r.Success? && cross ==> forall i :: 0 <= i < point ==> r.value.0[i] == p1[i] && r.value.1[i] == p2[i]
    ensures r.Success? && cross ==> forall i :: point <= i < |p1| ==> r.value.0[i] == p2[i] && r.value.1[i] == p1[i]
    ensures r.Success? && cross ==> r.value.0[0] == p1[0] && r.value.1[0] == p2[0]
    ensures r.Success? && cross ==> r.value.0[|p1| - 1] == p2[|p1| - 1] && r.value.1[|p1| - 1] == p1[|p1| - 1]
  {
    if |p1| != |p2| then Failure(ParentLengthMismatch)
    else if !cross then Success((p1, p2))
    else if |p1| < 2 then Failure(EmptyCutRange)
    else Success((Splice(p1, p2, point), Splice(p2, p1, point)))
  }

  /** Crossing the two children again at the same point gives back the parents. */
  lemma CrossoverInvolution(p1: Chromosome, p2: Chromosome, cross: bool, point: nat)
    requires |p1| == |p2| && (cross ==> 1 <= point < |p1|)
    ensures Crossover(p1, p2, cross, point).Success?
    ensures var children := Crossover(p1, p2, cross, point).value;
      Crossover(children.0, children.1, cross, point) == Success((p1, p2))
  {
    if cross {
      var c1, c2 := Splice(p1, p2, point), Splice(p2, p1, point);
      assert Splice(c1, c2, point) == p1;
      assert Splice(c2, c1, point) == p2;
    }
  }

  /** The two children hold, between them, exactly the parents' genes. */
  lemma CrossoverKeepsGenePool(p1: Chromosome, p2: Chromosome, cross: bool, point: nat)
    requires |p1| == |p2| && (cross ==> 1 <= point < |p1|)
    ensures var children := Crossover(p1, p2, cross, point).value;
      multiset(children.0) + multiset(children.1) == multiset(p1) + multiset(p2)
  {
    if cross {
      assert p1 == p1[..point] + p1[point..];
      assert p2 == p2[..point] + p2[point..];
    }
  }

  /** Children of valid parents are valid. */
  lemma CrossoverKeepsValidity(p1: Chromosome, p2: Chromosome, cross: bool, point: nat,
                               courses: seq<Course>, slotCount: nat, roomCount: nat)
    requires ValidChromosome(p1, courses, slotCount, roomCount)
    requires ValidChromosome(p2, courses, slotCount, roomCount)
    requires cross && |p1| >= 2 ==> 1 <= point < |p1|
    ensures Crossover(p1, p2, cross, point).Success? <==> !cross || |courses| >= 2
    ensures Crossover(p1, p2, cross, point).Success? ==>
      var children := Crossover(p1, p2, cross, point).value;
      ValidChromosome(children.0, courses, slotCount, roomCount)
      && ValidChromosome(children.1, courses, slotCount, roomCount)
  {
    if |p1| >= 2 && cross {
      SpliceInRange(p1, p2, point, slotCount, roomCount);
      SpliceInRange(p2, p1, point, slotCount, roomCount);
    }
  }

  lemma SpliceInRange(a: Chromosome, b: Chromosome, point: nat, slotCount: nat, roomCount: nat)
    requires |a| == |b| && point <= |a|
    requires GenesInRange(a, slotCount, roomCount) && GenesInRange(b, slotCount, roomCount)
    ensures GenesInRange(Splice(a, b, point), slotCount, roomCount)
  {
    var child := Splice(a, b, point);
    forall i | 0 <= i < |child|
      ensures ValidGene(child[i], slotCount, roomCount)
    {
      if i < point {
        assert child[i] == a[i];
      } else {
        assert child[i] == b[i];
      }
    }
  }

  /** The draws for one gene's mutation: whether it fires, the new slot, and whether and where the room moves. */
  datatype MutationDraw = MutationDraw(fires: bool, slotPick: nat, rerollRoom: bool, roomPick: nat)

  /** One draw per gene; each firing draw has a course and picks within range. */
  predicate MutationDrawsFit(length: nat, draws: seq<MutationDraw>, slots: seq<Timeslot>, rooms: seq<string>,
                             courses: seq<Course>)
  {
    && |draws| == length
    && forall i :: 0 <= i < length && draws[i].fires ==>
         && i < |courses|
         && draws[i].slotPick < |Candidates(courses[i], slots)|
         && (draws[i].rerollRoom ==> draws[i].roomPick < |rooms|)
  }

  /**
   * Position by position, `mutant` is `ind` with every firing gene replaced:
   * its slot is the candidate the draw picks, and its room is the drawn one
   * when the room coin fires and the old one otherwise.
   */
  predicate MutatedFrom(mutant: Chromosome, ind: Chromosome, draws: seq<MutationDraw>,
                        slots: seq<Timeslot>, rooms: seq<string>, courses: seq<Course>)
    requires MutationDrawsFit(|ind|, draws, slots, rooms, courses)
  {
    |mutant| == |ind| && MutatedBelow(mutant, ind, draws, slots, rooms, courses, |ind|)
  }

  /** The first `n` positions of `mutant` are mutated from `ind` as `MutatedFrom` says. */
  predicate MutatedBelow(mutant: Chromosome, ind: Chromosome, draws: seq<MutationDraw>,
                         slots: seq<Timeslot>, rooms: seq<string>, courses: seq<Course>, n: nat)
    requires MutationDrawsFit(|ind|, draws, slots, rooms, courses)
    requires n <= |ind| && |mutant| == |ind|
  {
    forall i :: 0 <= i < n ==>
      mutant[i] == if draws[i].fires
                   then Gene(PickSlot(courses[i], slots, draws[i].slotPick),
                             if draws[i].rerollRoom then draws[i].roomPick else ind[i].room)
                   else ind[i]
  }

  /**
   * What a mutation keeps: a gene whose draw does not fire is unchanged,
   * and a firing gene gets a candidate slot of its course (an admissible
   * one when the course has any) and the room its coin decides, so a valid
   * chromosome stays valid.
   */
  lemma MutatedFromFacts(mutant: Chromosome, ind: Chromosome, draws: seq<MutationDraw>,
                         slots: seq<Timeslot>, rooms: seq<string>, courses: seq<Course>)
    requires MutationDrawsFit(|ind|, draws, slots, rooms, courses)
    requires MutatedFrom(mutant, ind, draws, slots, rooms, courses)
    ensures |mutant| == |ind|
    ensures forall i :: 0 <= i < |ind| && !draws[i].fires ==> mutant[i] == ind[i]
    ensures forall i :: 0 <= i < |ind| && draws[i].fires ==>
      && mutant[i].slot in Candidates(courses[i], slots)
      && mutant[i].room == (if draws[i].rerollRoom then draws[i].roomPick else ind[i].room)
    ensures forall i :: 0 <= i < |ind| && draws[i].fires && |AdmissibleSlots(courses[i], slots)| > 0 ==>
      Admissible(courses[i], slots[mutant[i].slot])
    ensures ValidChromosome(ind, courses, |slots|, |rooms|) ==> ValidChromosome(mutant, courses, |slots|, |rooms|)
  {
  }

  /**
   * Gene mutation: each firing gene gets a fresh slot from its course's
   * candidates, and its room is redrawn only when the room coin says so.
   */
  method Mutate(ind: Chromosome, slots: seq<Timeslot>, rooms: seq<string>, courses: seq<Course>,
                draws: seq<MutationDraw>)
    returns (mutant: Chromosome)
    requires MutationDrawsFit(|ind|, draws, slots, rooms, courses)
    ensures MutatedFrom(mutant, ind, draws, slots, rooms, courses)
    ensures |mutant| == |ind|
    ensures forall i :: 0 <= i < |ind| && !draws[i].fires ==> mutant[i] == ind[i]
    ensures forall i :: 0 <= i < |ind| && draws[i].fires ==>
      && mutant[i].slot in Candidates(courses[i], slots)
      && mutant[i].room == (if draws[i].rerollRoom then draws[i].roomPick else ind[i].room)
    ensures forall i :: 0 <= i < |ind| && draws[i].fires && |AdmissibleSlots(courses[i], slots)| > 0 ==>
      Admissible(courses[i], slots[mutant[i].slot])
    ensures ValidChromosome(ind, courses, |slots|, |rooms|) ==> ValidChromosome(mutant, courses, |slots|, |rooms|)
  {
    mutant := ind;
    for i := 0 to |ind|
      invariant |mutant| == |ind|
      invariant forall j :: i <= j < |ind| ==> mutant[j] == ind[j]
      invariant MutatedBelow(mutant, ind, draws, slots, rooms, courses, i)
    {
      if draws[i].fires {
        var room := mutant[i].room;
        var slot := PickSlot(courses[i], slots, draws[i].slotPick);
        if draws[i].rerollRoom {
          room := draws[i].roomPick;
        }
        mutant := mutant[i := Gene(slot, room)];
      }
    }
    MutatedFromFacts(mutant, ind, draws, slots, rooms, courses);
  }

}
