/**
 * The generational loop of the genetic search: evaluate every individual,
 * keep the best one seen so far, carry the current population's best over
 * unchanged (elitism), and fill the rest of the next population with
 * mutated children of tournament winners.
 */
module GaSearch {
  import opened Wrappers
  import opened GaCatalog
  import opened GaPenalty
  import opened GaOperators

  /** The best individual found so far, with its fitness and penalty. */
  datatype Champion = Champion(individual: Chromosome, fitness: real, penalty: nat)

  /** The fitness a new individual has to beat; before anything is evaluated it is -1. */
  function BestFitness(best: Option<Champion>): real
  {
    match best
    case None => -1.0
    case Some(c) => c.fitness
  }

  /** The champion's numbers are those of its own chromosome. */
  predicate ChampionSound(c: Champion, slots: seq<Timeslot>, rooms: seq<string>, courses: seq<Course>)
  {
    && ValidChromosome(c.individual, courses, |slots|, |rooms|)
    && c.penalty == Penalty(c.individual, slots, rooms, courses)
    && c.fitness == Fitness(c.penalty)
  }

  predicate AllValid(population: seq<Chromosome>, slots: seq<Timeslot>, rooms: seq<string>, courses: seq<Course>)
  {
    forall k :: 0 <= k < |population| ==> ValidChromosome(population[k], courses, |slots|, |rooms|)
  }

  /** The fitness of every individual, in population order. */
  function Fitnesses(population: seq<Chromosome>, slots: seq<Timeslot>, rooms: seq<string>, courses: seq<Course>)
    : seq<real>
    requires AllValid(population, slots, rooms, courses)
  {
    seq(|population|, k requires 0 <= k < |population| => Fitness(Penalty(population[k], slots, rooms, courses)))
  }

  /** Every individual's fitness and penalty are its own. */
  predicate Evaluated(population: seq<Chromosome>, fitnesses: seq<real>, penalties: seq<nat>,
                      slots: seq<Timeslot>, rooms: seq<string>, courses: seq<Course>)
    requires AllValid(population, slots, rooms, courses)
  {
    && |fitnesses| == |population| && |penalties| == |population|
    && forall k :: 0 <= k < |population| ==>
         penalties[k] == Penalty(population[k], slots, rooms, courses) && fitnesses[k] == Fitness(penalties[k])
  }

  /** Fitness and penalty of every individual, in population order. */
  method Evaluate(population: seq<Chromosome>, slots: seq<Timeslot>, rooms: seq<string>, courses: seq<Course>)
    returns (fitnesses: seq<real>, penalties: seq<nat>)
    requires AllValid(population, slots, rooms, courses)
    ensures Evaluated(population, fitnesses, penalties, slots, rooms, courses)
  {
    fitnesses, penalties := [], [];
    for k := 0 to |population|
      invariant |fitnesses| == k && |penalties| == k
      invariant forall j :: 0 <= j < k ==>
        penalties[j] == Penalty(population[j], slots, rooms, courses) && fitnesses[j] == Fitness(penalties[j])
    {
      var fit, pen := ComputeFitness(population[k], slots, rooms, courses);
      fitnesses, penalties := fitnesses + [fit], penalties + [pen];
    }
  }

  /** The champion made of individual `k` of an evaluated population. */
  function ChampionAt(population: seq<Chromosome>, fitnesses: seq<real>, penalties: seq<nat>, k: nat): Champion
    requires k < |population| && |fitnesses| == |population| && |penalties| == |population|
  {
    Champion(population[k], fitnesses[k], penalties[k])
  }

  /**
   * Scan the population in order and take over any individual strictly
   * fitter than the current best. The result is the old best when nobody
   * beats it, and otherwise the first individual of top fitness.
   */
  method UpdateBest(best: Option<Champion>, population: seq<Chromosome>, fitnesses: seq<real>, penalties: seq<nat>)
    returns (best': Option<Champion>)
    requires |fitnesses| == |population| && |penalties| == |population|
    ensures BestFitness(best) <= BestFitness(best')
    ensures forall k :: 0 <= k < |population| ==> fitnesses[k] <= BestFitness(best')
    ensures best' == best || exists k: nat ::
      && k < |population|
      && best' == Some(ChampionAt(population, fitnesses, penalties, k))
      && BestFitness(best) < fitnesses[k]
      && IsFirstMax(fitnesses, k)
  {
    best' := best;
    ghost var at: int := -1;
    for i := 0 to |population|
      invariant BestFitness(best) <= BestFitness(best')
      invariant forall j :: 0 <= j < i ==> fitnesses[j] <= BestFitness(best')
      invariant at == -1 ==> best' == best
      invariant at != -1 ==>
        && 0 <= at < i
        && best' == Some(ChampionAt(population, fitnesses, penalties, at))
        && BestFitness(best) < fitnesses[at]
        && forall j :: 0 <= j < at ==> fitnesses[j] < fitnesses[at]
    {
      if fitnesses[i] > BestFitness(best') {
        best' := Some(ChampionAt(population, fitnesses, penalties, i));
        at := i;
      }
    }
  }

  /** The draws for one round of breeding: two tournament samples, the crossover draws, two mutation draw lists. */
  datatype BreedDraw = BreedDraw(
    sample1: seq<nat>, sample2: seq<nat>, cross: bool, point: nat,
    mutation1: seq<MutationDraw>, mutation2: seq<MutationDraw>)

  predicate SampleFits(sample: seq<nat>, popCount: nat)
  {
    |sample| >= 1 && forall p :: 0 <= p < |sample| ==> sample[p] < popCount
  }

  /** A breeding draw usable on a population of `popCount` chromosomes of `|courses|` genes. */
  predicate BreedDrawFits(d: BreedDraw, popCount: nat, slots: seq<Timeslot>, rooms: seq<string>, courses: seq<Course>)
  {
    && SampleFits(d.sample1, popCount)
    && SampleFits(d.sample2, popCount)
    && (d.cross && |courses| >= 2 ==> 1 <= d.point < |courses|)
    && MutationDrawsFit(|courses|, d.mutation1, slots, rooms, courses)
    && MutationDrawsFit(|courses|, d.mutation2, slots, rooms, courses)
  }

  /** Rounds of breeding needed to fill `popSize` places after the elite: two children per round. */
  function BreedRounds(popSize: nat, elitism: bool): nat
  {
    var start := if elitism then 1 else 0;
    if popSize <= start then 0 else (popSize - start + 1) / 2
  }

  /**
   * `child1` and `child2` come from one round of breeding with draw `d`:
   * the first-best members of the two tournament samples are crossed, and
   * each child of the crossing is mutated with its own mutation draws.
   */
  ghost predicate BredFrom(population: seq<Chromosome>, fitnesses: seq<real>, d: BreedDraw,
                           slots: seq<Timeslot>, rooms: seq<string>, courses: seq<Course>,
                           child1: Chromosome, child2: Chromosome)
    requires |fitnesses| == |population|
    requires AllValid(population, slots, rooms, courses)
    requires BreedDrawFits(d, |population|, slots, rooms, courses)
  {
    exists w1: nat, w2: nat ::
      && IsFirstBest(fitnesses, d.sample1, w1)
      && IsFirstBest(fitnesses, d.sample2, w2)
      && Crossed(population[d.sample1[w1]], population[d.sample2[w2]], d, slots, rooms, courses, child1, child2)
  }

  /** `child1` and `child2` are the mutated children of crossing `parent1` with `parent2` under draw `d`. */
  predicate Crossed(parent1: Chromosome, parent2: Chromosome, d: BreedDraw,
                    slots: seq<Timeslot>, rooms: seq<string>, courses: seq<Course>,
                    child1: Chromosome, child2: Chromosome)
    requires |parent1| == |courses| && |parent2| == |courses|
    requires d.cross && |courses| >= 2 ==> 1 <= d.point < |courses|
    requires MutationDrawsFit(|courses|, d.mutation1, slots, rooms, courses)
    requires MutationDrawsFit(|courses|, d.mutation2, slots, rooms, courses)
  {
    var crossed := Crossover(parent1, parent2, d.cross, d.point);
    && crossed.Success?
    && MutatedFrom(child1, crossed.value.0, d.mutation1, slots, rooms, courses)
    && MutatedFrom(child2, crossed.value.1, d.mutation2, slots, rooms, courses)
  }

  /**
   * One round of breeding: two tournament winners, crossed and then each
   * mutated. It fails exactly when a cut is due on chromosomes too short to cut.
   */
  method BreedRound(population: seq<Chromosome>, fitnesses: seq<real>,
                    slots: seq<Timeslot>, rooms: seq<string>, courses: seq<Course>, d: BreedDraw)
    returns (r: Result<(Chromosome, Chromosome), CrossoverError>)
    requires |fitnesses| == |population|
    requires AllValid(population, slots, rooms, courses)
    requires BreedDrawFits(d, |population|, slots, rooms, courses)
    ensures r.Failure? <==> d.cross && |courses| < 2
    ensures r.Failure? ==> r.error == EmptyCutRange
    ensures r.Success? ==> BredFrom(population, fitnesses, d, slots, rooms, courses, r.value.0, r.value.1)
    ensures r.Success? ==>
      && ValidChromosome(r.value.0, courses, |slots|, |rooms|)
      && ValidChromosome(r.value.1, courses, |slots|, |rooms|)
  {
    var parent1, i1 := TournamentSelection(population, fitnesses, d.sample1);
    var parent2, i2 := TournamentSelection(population, fitnesses, d.sample2);
    ghost var w1: nat :| IsFirstBest(fitnesses, d.sample1, w1) && d.sample1[w1] == i1;
    ghost var w2: nat :| IsFirstBest(fitnesses, d.sample2, w2) && d.sample2[w2] == i2;
    CrossoverKeepsValidity(parent1, parent2, d.cross, d.point, courses, |slots|, |rooms|);
    var crossed := Crossover(parent1, parent2, d.cross, d.point);
    if crossed.Failure? {
      return Failure(crossed.error);
    }
    var child1 := Mutate(crossed.value.0, slots, rooms, courses, d.mutation1);
    var child2 := Mutate(crossed.value.1, slots, rooms, courses, d.mutation2);
    assert Crossed(population[d.sample1[w1]], population[d.sample2[w2]], d, slots, rooms, courses, child1, child2);
    r := Success((child1, child2));
  }

  /**
   * One generation's breeding. With elitism the first place goes to a copy
   * of the current first-best individual; then each round appends its
   * first child and, if a place is left, its second. A crossover error ends
   * the run.
   */
  method NextGeneration(population: seq<Chromosome>, fitnesses: seq<real>, popSize: nat, elitism: bool,
                        slots: seq<Timeslot>, rooms: seq<string>, courses: seq<Course>, draws: seq<BreedDraw>)
    returns (r: Result<seq<Chromosome>, CrossoverError>, ghost offspring: seq<(Chromosome, Chromosome)>)
    requires |population| >= 1 && |fitnesses| == |population|
    requires AllValid(population, slots, rooms, courses)
    requires |draws| >= BreedRounds(popSize, elitism)
    requires forall t :: 0 <= t < |draws| ==> BreedDrawFits(draws[t], |population|, slots, rooms, courses)
    ensures r.Success? <==> |courses| >= 2 || forall t :: 0 <= t < BreedRounds(popSize, elitism) ==> !draws[t].cross
    ensures r.Failure? ==> r.error == EmptyCutRange
    ensures r.Success? ==> |r.value| == (if elitism && popSize == 0 then 1 else popSize)
    ensures r.Success? ==> AllValid(r.value, slots, rooms, courses)
    ensures r.Success? && elitism ==> exists e: nat :: IsFirstMax(fitnesses, e) && r.value[0] == population[e]
    ensures r.Success? ==> |offspring| == BreedRounds(popSize, elitism)
    ensures r.Success? ==> AllBred(population, fitnesses, draws, slots, rooms, courses, offspring)
    ensures r.Success? ==> Placed(r.value, if elitism then 1 else 0, offspring)
  {
    var next: seq<Chromosome> := [];
    ghost var elite: nat := 0;
    if elitism {
      var e := EliteIndex(fitnesses);
      next := [population[e]];
      elite := e;
    }
    offspring := [];
    var t := 0;
    while |next| < popSize
      invariant Breeding(population, fitnesses, draws, popSize, elitism, elite, slots, rooms, courses, next, t, offspring)
      decreases popSize - |next|
    {
      BreedingRoom(population, fitnesses, draws, popSize, elitism, elite, slots, rooms, courses, next, t, offspring);
      var children := BreedRound(population, fitnesses, slots, rooms, courses, draws[t]);
      if children.Failure? {
        return Failure(children.error), offspring;
      }
      var both := |next| + 1 < popSize;
      BreedingStep(population, fitnesses, draws, popSize, elitism, elite, slots, rooms, courses, next, t, offspring, children.value, both);
      next := next + [children.value.0] + (if both then [children.value.1] else []);
      offspring := offspring + [children.value];
      t := t + 1;
    }
    BreedingDone(population, fitnesses, draws, popSize, elitism, elite, slots, rooms, courses, next, t, offspring);
    r := Success(next);
  }

  /**
   * The state of `NextGeneration` after `t` rounds: `next` holds the elite
   * copy (with elitism) and then the children of each round in order, every
   * round so far succeeded, and every pair of children was bred with its
   * round's draw.
   */
  ghost predicate Breeding(population: seq<Chromosome>, fitnesses: seq<real>, draws: seq<BreedDraw>,
                           popSize: nat, elitism: bool, elite: nat,
                           slots: seq<Timeslot>, rooms: seq<string>, courses: seq<Course>,
                           next: seq<Chromosome>, t: nat, offspring: seq<(Chromosome, Chromosome)>)
    requires |fitnesses| == |population| && AllValid(population, slots, rooms, courses)
    requires forall t :: 0 <= t < |draws| ==> BreedDrawFits(draws[t], |population|, slots, rooms, courses)
  {
    var start := if elitism then 1 else 0;
    && Filling(|next|, start, t, popSize)
    && AllValid(next, slots, rooms, courses)
    && (elitism ==> IsFirstMax(fitnesses, elite) && next[0] == population[elite])
    && (forall u :: 0 <= u < t && u < |draws| ==> |courses| >= 2 || !draws[u].cross)
    && |offspring| == t
    && AllBred(population, fitnesses, draws, slots, rooms, courses, offspring)
    && Placed(next, start, offspring)
  }

  /** While places are left, another draw is planned and every earlier round filled two places. */
  lemma BreedingRoom(population: seq<Chromosome>, fitnesses: seq<real>, draws: seq<BreedDraw>,
                     popSize: nat, elitism: bool, elite: nat,
                     slots: seq<Timeslot>, rooms: seq<string>, courses: seq<Course>,
                     next: seq<Chromosome>, t: nat, offspring: seq<(Chromosome, Chromosome)>)
    requires |fitnesses| == |population| && AllValid(population, slots, rooms, courses)
    requires forall t :: 0 <= t < |draws| ==> BreedDrawFits(draws[t], |population|, slots, rooms, courses)
    requires |draws| >= BreedRounds(popSize, elitism)
    requires Breeding(population, fitnesses, draws, popSize, elitism, elite, slots, rooms, courses, next, t, offspring)
    requires |next| < popSize
    ensures t < BreedRounds(popSize, elitism) && t < |draws|
  {
    FillingStep(|next|, if elitism then 1 else 0, t, popSize);
  }

  /** Appending a successful round's children keeps `Breeding`. */
  lemma BreedingStep(population: seq<Chromosome>, fitnesses: seq<real>, draws: seq<BreedDraw>,
                     popSize: nat, elitism: bool, elite: nat,
                     slots: seq<Timeslot>, rooms: seq<string>, courses: seq<Course>,
                     next: seq<Chromosome>, t: nat, offspring: seq<(Chromosome, Chromosome)>,
                     children: (Chromosome, Chromosome), both: bool)
    requires |fitnesses| == |population| && AllValid(population, slots, rooms, courses)
    requires forall t :: 0 <= t < |draws| ==> BreedDrawFits(draws[t], |population|, slots, rooms, courses)
    requires |draws| >= BreedRounds(popSize, elitism)
    requires Breeding(population, fitnesses, draws, popSize, elitism, elite, slots, rooms, courses, next, t, offspring)
    requires |next| < popSize && t < |draws| && both == (|next| + 1 < popSize)
    requires |courses| >= 2 || !draws[t].cross
    requires BredFrom(population, fitnesses, draws[t], slots, rooms, courses, children.0, children.1)
    requires ValidChromosome(children.0, courses, |slots|, |rooms|)
    requires ValidChromosome(children.1, courses, |slots|, |rooms|)
    ensures Breeding(population, fitnesses, draws, popSize, elitism, elite, slots, rooms, courses,
                     next + [children.0] + (if both then [children.1] else []), t + 1, offspring + [children])
  {
    var start := if elitism then 1 else 0;
    var next' := next + [children.0] + (if both then [children.1] else []);
    FillingStep(|next|, start, t, popSize);
    AllBredAppend(population, fitnesses, draws, slots, rooms, courses, offspring, children);
    AllValidAppend(next, children, both, slots, rooms, courses);
    PlacedAppend(next, start, offspring, children, both);
    if elitism {
      assert next'[0] == next[0];
    }
  }

  /** When the population is full, `Breeding` gives `NextGeneration`'s promises. */
  lemma BreedingDone(population: seq<Chromosome>, fitnesses: seq<real>, draws: seq<BreedDraw>,
                     popSize: nat, elitism: bool, elite: nat,
                     slots: seq<Timeslot>, rooms: seq<string>, courses: seq<Course>,
                     next: seq<Chromosome>, t: nat, offspring: seq<(Chromosome, Chromosome)>)
    requires |fitnesses| == |population| && AllValid(population, slots, rooms, courses)
    requires forall t :: 0 <= t < |draws| ==> BreedDrawFits(draws[t], |population|, slots, rooms, courses)
    requires Breeding(population, fitnesses, draws, popSize, elitism, elite, slots, rooms, courses, next, t, offspring)
    requires |next| >= popSize
    ensures |courses| >= 2 || forall u :: 0 <= u < BreedRounds(popSize, elitism) ==> !draws[u].cross
    ensures |next| == (if elitism && popSize == 0 then 1 else popSize)
    ensures AllValid(next, slots, rooms, courses)
    ensures elitism ==> exists e: nat :: IsFirstMax(fitnesses, e) && next[0] == population[e]
    ensures |offspring| == BreedRounds(popSize, elitism)
    ensures AllBred(population, fitnesses, draws, slots, rooms, courses, offspring)
    ensures Placed(next, if elitism then 1 else 0, offspring)
  {
    FillingDone(|next|, if elitism then 1 else 0, t, popSize);
  }

  /** Appending valid children to a valid population keeps it valid. */
  lemma AllValidAppend(next: seq<Chromosome>, children: (Chromosome, Chromosome), both: bool,
                       slots: seq<Timeslot>, rooms: seq<string>, courses: seq<Course>)
    requires AllValid(next, slots, rooms, courses)
    requires ValidChromosome(children.0, courses, |slots|, |rooms|)
    requires ValidChromosome(children.1, courses, |slots|, |rooms|)
    ensures AllValid(next + [children.0] + (if both then [children.1] else []), slots, rooms, courses)
  {
  }

  /**
   * Breeding progress: `size` places are filled after `t` rounds that
   * follow `start` elite places, two per round until the population is full.
   */
  predicate Filling(size: nat, start: nat, t: nat, popSize: nat)
  {
    && start <= 1 && start <= size
    && (size >= popSize || size == start + 2 * t)
    && size <= start + 2 * t
    && size <= (if popSize < start then start else popSize)
    && t <= BreedRounds(popSize, start == 1)
  }

  /** A round taken while places are left adds one or two places and keeps `Filling`. */
  lemma FillingStep(size: nat, start: nat, t: nat, popSize: nat)
    requires Filling(size, start, t, popSize) && size < popSize
    ensures size == start + 2 * t && t < BreedRounds(popSize, start == 1)
    ensures Filling(if size + 1 < popSize then size + 2 else size + 1, start, t + 1, popSize)
  {
  }

  /** A full population has taken exactly the planned number of rounds. */
  lemma FillingDone(size: nat, start: nat, t: nat, popSize: nat)
    requires Filling(size, start, t, popSize) && size >= popSize
    ensures t == BreedRounds(popSize, start == 1)
    ensures size == (if start == 1 && popSize == 0 then 1 else popSize)
  {
  }

  /** Each round's pair of children was bred with that round's draw. */
  ghost predicate AllBred(population: seq<Chromosome>, fitnesses: seq<real>, draws: seq<BreedDraw>,
                          slots: seq<Timeslot>, rooms: seq<string>, courses: seq<Course>,
                          offspring: seq<(Chromosome, Chromosome)>)
    requires |fitnesses| == |population| && AllValid(population, slots, rooms, courses)
    requires forall t :: 0 <= t < |draws| ==> BreedDrawFits(draws[t], |population|, slots, rooms, courses)
  {
    && |offspring| <= |draws|
    && forall t :: 0 <= t < |offspring| ==>
         BredFrom(population, fitnesses, draws[t], slots, rooms, courses, offspring[t].0, offspring[t].1)
  }

  /** Recording the next round's children, bred with the next draw, keeps `AllBred`. */
  lemma AllBredAppend(population: seq<Chromosome>, fitnesses: seq<real>, draws: seq<BreedDraw>,
                      slots: seq<Timeslot>, rooms: seq<string>, courses: seq<Course>,
                      offspring: seq<(Chromosome, Chromosome)>, children: (Chromosome, Chromosome))
    requires |fitnesses| == |population| && AllValid(population, slots, rooms, courses)
    requires forall t :: 0 <= t < |draws| ==> BreedDrawFits(draws[t], |population|, slots, rooms, courses)
    requires AllBred(population, fitnesses, draws, slots, rooms, courses, offspring) && |offspring| < |draws|
    requires BredFrom(population, fitnesses, draws[|offspring|], slots, rooms, courses, children.0, children.1)
    ensures AllBred(population, fitnesses, draws, slots, rooms, courses, offspring + [children])
  {
    var offspring' := offspring + [children];
    forall t | 0 <= t < |offspring'|
      ensures BredFrom(population, fitnesses, draws[t], slots, rooms, courses, offspring'[t].0, offspring'[t].1)
    {
      if t < |offspring| {
        assert offspring'[t] == offspring[t];
      }
    }
  }

  /**
   * After the first `start` places, round `t`'s first child sits at place
   * `start + 2t` and its second child right after it, unless the population
   * was full before it.
   */
  predicate Placed(next: seq<Chromosome>, start: nat, offspring: seq<(Chromosome, Chromosome)>)
  {
    forall t :: 0 <= t < |offspring| ==>
      && start + 2 * t < |next| && next[start + 2 * t] == offspring[t].0
      && (start + 2 * t + 1 < |next| ==> next[start + 2 * t + 1] == offspring[t].1)
  }

  /** Appending a round's first child, and its second when `both`, places that round. */
  lemma PlacedAppend(next: seq<Chromosome>, start: nat, offspring: seq<(Chromosome, Chromosome)>,
                     children: (Chromosome, Chromosome), both: bool)
    requires Placed(next, start, offspring) && |next| == start + 2 * |offspring|
    ensures Placed(next + [children.0] + (if both then [children.1] else []), start, offspring + [children])
  {
    var next' := next + [children.0] + (if both then [children.1] else []);
    var offspring' := offspring + [children];
    forall t | 0 <= t < |offspring'|
      ensures start + 2 * t < |next'| && next'[start + 2 * t] == offspring'[t].0
      ensures start + 2 * t + 1 < |next'| ==> next'[start + 2 * t + 1] == offspring'[t].1
    {
      if t < |offspring| {
        assert offspring'[t] == offspring[t];
        assert next'[start + 2 * t] == next[start + 2 * t];
        if start + 2 * t + 1 < |next| {
          assert next'[start + 2 * t + 1] == next[start + 2 * t + 1];
        }
      }
    }
  }

  /** No individual of `population` is fitter than `bar`. */
  predicate Dominated(population: seq<Chromosome>, bar: real, slots: seq<Timeslot>, rooms: seq<string>, courses: seq<Course>)
    requires AllValid(population, slots, rooms, courses)
  {
    forall k :: 0 <= k < |population| ==> Fitness(Penalty(population[k], slots, rooms, courses)) <= bar
  }

  /** A sound champion no individual beats on fitness has the least penalty among them. */
  lemma DominatedMeansLeastPenalty(population: seq<Chromosome>, c: Champion,
                                   slots: seq<Timeslot>, rooms: seq<string>, courses: seq<Course>)
    requires AllValid(population, slots, rooms, courses)
    requires ChampionSound(c, slots, rooms, courses)
    requires Dominated(population, c.fitness, slots, rooms, courses)
    ensures forall k :: 0 <= k < |population| ==> c.penalty <= Penalty(population[k], slots, rooms, courses)
  {
    forall k | 0 <= k < |population|
      ensures c.penalty <= Penalty(population[k], slots, rooms, courses)
    {
      FitnessOrder(c.penalty, Penalty(population[k], slots, rooms, courses));
    }
  }

  /** Evaluate a generation and fold it into the best seen so far. */
  method ScoreGeneration(population: seq<Chromosome>, best: Option<Champion>,
                         slots: seq<Timeslot>, rooms: seq<string>, courses: seq<Course>)
    returns (fitnesses: seq<real>, best': Option<Champion>)
    requires |population| >= 1 && AllValid(population, slots, rooms, courses)
    requires best.Some? ==> ChampionSound(best.value, slots, rooms, courses)
    ensures fitnesses == Fitnesses(population, slots, rooms, courses)
    ensures best'.Some? && ChampionSound(best'.value, slots, rooms, courses)
    ensures BestFitness(best) <= BestFitness(best')
    ensures Dominated(population, BestFitness(best'), slots, rooms, courses)
    ensures best' == best || exists k: nat ::
      && k < |population|
      && best' == Some(Champion(population[k], fitnesses[k], Penalty(population[k], slots, rooms, courses)))
      && BestFitness(best) < fitnesses[k]
      && IsFirstMax(fitnesses, k)
  {
    var penalties;
    fitnesses, penalties := Evaluate(population, slots, rooms, courses);
    assert fitnesses == Fitnesses(population, slots, rooms, courses);
    best' := UpdateBest(best, population, fitnesses, penalties);
    assert best'.Some? by {
      assert fitnesses[0] == Fitness(penalties[0]);
    }
    if best' != best {
      var k: nat :| && k < |population|
                    && best' == Some(ChampionAt(population, fitnesses, penalties, k))
                    && BestFitness(best) < fitnesses[k]
                    && IsFirstMax(fitnesses, k);
      assert penalties[k] == Penalty(population[k], slots, rooms, courses);
      assert ChampionSound(best'.value, slots, rooms, courses);
    }
  }

  /** Every recorded generation has `popSize` valid members, none fitter than `bar`. */
  predicate HistoryDominated(history: seq<seq<Chromosome>>, popSize: nat, bar: real,
                             slots: seq<Timeslot>, rooms: seq<string>, courses: seq<Course>)
  {
    forall h :: 0 <= h < |history| ==>
      |history[h]| == popSize && AllValid(history[h], slots, rooms, courses)
      && Dominated(history[h], bar, slots, rooms, courses)
  }

  /** A sound champion that dominates every recorded generation has the least penalty in all of them. */
  lemma HistoryLeastPenalty(history: seq<seq<Chromosome>>, popSize: nat, c: Champion,
                            slots: seq<Timeslot>, rooms: seq<string>, courses: seq<Course>)
    requires HistoryDominated(history, popSize, c.fitness, slots, rooms, courses)
    requires ChampionSound(c, slots, rooms, courses)
    ensures forall g :: 0 <= g < |history| ==>
      forall k :: 0 <= k < popSize ==> c.penalty <= Penalty(history[g][k], slots, rooms, courses)
  {
    forall g | 0 <= g < |history|
      ensures forall k :: 0 <= k < popSize ==> c.penalty <= Penalty(history[g][k], slots, rooms, courses)
    {
      DominatedMeansLeastPenalty(history[g], c, slots, rooms, courses);
    }
  }

  /** Recording a dominated generation while the bar only rises keeps the whole history dominated. */
  lemma HistoryExtend(history: seq<seq<Chromosome>>, population: seq<Chromosome>, popSize: nat,
                      bar: real, bar': real, slots: seq<Timeslot>, rooms: seq<string>, courses: seq<Course>)
    requires HistoryDominated(history, popSize, bar, slots, rooms, courses)
    requires bar <= bar'
    requires |population| == popSize && AllValid(population, slots, rooms, courses)
    requires Dominated(population, bar', slots, rooms, courses)
    ensures HistoryDominated(history + [population], popSize, bar', slots, rooms, courses)
  {
    var history' := history + [population];
    forall h | 0 <= h < |history'|
      ensures |history'[h]| == popSize && AllValid(history'[h], slots, rooms, courses)
        && Dominated(history'[h], bar', slots, rooms, courses)
    {
      if h < |history| {
        assert history'[h] == history[h];
      }
    }
  }

  /** `next` opens with a copy of the first fittest member of `prev`. */
  ghost predicate OpensWithElite(prev: seq<Chromosome>, next: seq<Chromosome>,
                                 slots: seq<Timeslot>, rooms: seq<string>, courses: seq<Course>)
    requires AllValid(prev, slots, rooms, courses)
  {
    && |next| >= 1
    && exists e: nat :: IsFirstMax(Fitnesses(prev, slots, rooms, courses), e) && next[0] == prev[e]
  }

  /** With elitism, every generation after the first opens with the elite of the generation before it. */
  ghost predicate ElitistHistory(history: seq<seq<Chromosome>>, slots: seq<Timeslot>, rooms: seq<string>, courses: seq<Course>)
  {
    forall g :: 0 <= g < |history| - 1 ==>
      AllValid(history[g], slots, rooms, courses) && OpensWithElite(history[g], history[g + 1], slots, rooms, courses)
  }

  /** Recording a generation that opens with the previous one's elite keeps `ElitistHistory`. */
  lemma ElitistExtend(history: seq<seq<Chromosome>>, population: seq<Chromosome>,
                      slots: seq<Timeslot>, rooms: seq<string>, courses: seq<Course>)
    requires ElitistHistory(history, slots, rooms, courses)
    requires |history| >= 1 ==>
      AllValid(history[|history| - 1], slots, rooms, courses)
      && OpensWithElite(history[|history| - 1], population, slots, rooms, courses)
    ensures ElitistHistory(history + [population], slots, rooms, courses)
  {
    var history' := history + [population];
    forall g | 0 <= g < |history'| - 1
      ensures AllValid(history'[g], slots, rooms, courses)
      ensures OpensWithElite(history'[g], history'[g + 1], slots, rooms, courses)
    {
      assert history'[g] == history[g];
      if g + 1 < |history| {
        assert history'[g + 1] == history[g + 1];
      }
    }
  }

  /** The first fittest member of a population is at least as fit as each member, so no more penalised. */
  lemma FirstMaxLeastPenalty(population: seq<Chromosome>, e: nat, k: nat,
                             slots: seq<Timeslot>, rooms: seq<string>, courses: seq<Course>)
    requires AllValid(population, slots, rooms, courses)
    requires IsFirstMax(Fitnesses(population, slots, rooms, courses), e) && k < |population|
    ensures Fitness(Penalty(population[k], slots, rooms, courses)) <= Fitness(Penalty(population[e], slots, rooms, courses))
    ensures Penalty(population[e], slots, rooms, courses) <= Penalty(population[k], slots, rooms, courses)
  {
    var fits := Fitnesses(population, slots, rooms, courses);
    var p, q := Penalty(population[e], slots, rooms, courses), Penalty(population[k], slots, rooms, courses);
    assert fits[k] <= fits[e];
    FitnessOrder(p, q);
  }

  /**
   * Under elitism the fitness never falls from one generation to the next:
   * the first member of each later generation is at least as fit as every
   * member of the generation before, so it has no higher penalty.
   */
  lemma ElitistNeverWorse(history: seq<seq<Chromosome>>, g: nat,
                          slots: seq<Timeslot>, rooms: seq<string>, courses: seq<Course>)
    requires ElitistHistory(history, slots, rooms, courses)
    requires g + 1 < |history|
    ensures |history[g + 1]| >= 1
    ensures forall k :: 0 <= k < |history[g]| ==>
      && Fitness(Penalty(history[g][k], slots, rooms, courses)) <= Fitness(Penalty(history[g + 1][0], slots, rooms, courses))
      && Penalty(history[g + 1][0], slots, rooms, courses) <= Penalty(history[g][k], slots, rooms, courses)
  {
    var prev, elite := history[g], history[g + 1][0];
    assert OpensWithElite(prev, history[g + 1], slots, rooms, courses);
    var e: nat :| IsFirstMax(Fitnesses(prev, slots, rooms, courses), e) && elite == prev[e];
    forall k | 0 <= k < |prev|
      ensures Fitness(Penalty(prev[k], slots, rooms, courses)) <= Fitness(Penalty(elite, slots, rooms, courses))
      ensures Penalty(elite, slots, rooms, courses) <= Penalty(prev[k], slots, rooms, courses)
    {
      FirstMaxLeastPenalty(prev, e, k, slots, rooms, courses);
    }
  }

  /** Every recorded generation consists of valid chromosomes. */
  predicate HistoryValid(history: seq<seq<Chromosome>>, slots: seq<Timeslot>, rooms: seq<string>, courses: seq<Course>)
  {
    forall h :: 0 <= h < |history| ==> AllValid(history[h], slots, rooms, courses)
  }

  /**
   * Member `k` of generation `g` is the first individual of greatest
   * fitness in evaluation order: every member of an earlier generation, and
   * every earlier member of its own generation, is strictly less fit.
   */
  ghost predicate FirstFittest(history: seq<seq<Chromosome>>, g: nat, k: nat,
                               slots: seq<Timeslot>, rooms: seq<string>, courses: seq<Course>)
  {
    && HistoryValid(history, slots, rooms, courses)
    && g < |history| && k < |history[g]|
    && (forall h, j :: 0 <= h < g && 0 <= j < |history[h]| ==>
          Fitness(Penalty(history[h][j], slots, rooms, courses)) < Fitness(Penalty(history[g][k], slots, rooms, courses)))
    && (forall j :: 0 <= j < k ==>
          Fitness(Penalty(history[g][j], slots, rooms, courses)) < Fitness(Penalty(history[g][k], slots, rooms, courses)))
  }

  /** Recording a later generation leaves an earlier first fittest member in place. */
  lemma FirstFittestKept(history: seq<seq<Chromosome>>, population: seq<Chromosome>, g: nat, k: nat,
                         slots: seq<Timeslot>, rooms: seq<string>, courses: seq<Course>)
    requires FirstFittest(history, g, k, slots, rooms, courses)
    requires AllValid(population, slots, rooms, courses)
    ensures FirstFittest(history + [population], g, k, slots, rooms, courses)
    ensures (history + [population])[g][k] == history[g][k]
  {
    var history' := history + [population];
    assert history'[g] == history[g];
    forall h | 0 <= h < |history'|
      ensures AllValid(history'[h], slots, rooms, courses)
    {
      if h < |history| {
        assert history'[h] == history[h];
      }
    }
    forall h, j | 0 <= h < g && 0 <= j < |history'[h]|
      ensures Fitness(Penalty(history'[h][j], slots, rooms, courses)) < Fitness(Penalty(history'[g][k], slots, rooms, courses))
    {
      assert history'[h] == history[h];
    }
  }

  /**
   * When the first maximum `k` of a new generation beats a bar no recorded
   * member exceeds, member `k` of the new generation is the first fittest.
   */
  lemma FirstFittestNew(history: seq<seq<Chromosome>>, population: seq<Chromosome>, k: nat, popSize: nat, bar: real,
                        slots: seq<Timeslot>, rooms: seq<string>, courses: seq<Course>)
    requires HistoryDominated(history, popSize, bar, slots, rooms, courses)
    requires AllValid(population, slots, rooms, courses)
    requires IsFirstMax(Fitnesses(population, slots, rooms, courses), k)
    requires bar < Fitnesses(population, slots, rooms, courses)[k]
    ensures FirstFittest(history + [population], |history|, k, slots, rooms, courses)
    ensures (history + [population])[|history|][k] == population[k]
  {
    var history' := history + [population];
    var fits := Fitnesses(population, slots, rooms, courses);
    assert history'[|history|] == population;
    forall h | 0 <= h < |history'|
      ensures AllValid(history'[h], slots, rooms, courses)
    {
      if h < |history| {
        assert history'[h] == history[h];
      }
    }
    forall h, j | 0 <= h < |history| && 0 <= j < |history'[h]|
      ensures Fitness(Penalty(history'[h][j], slots, rooms, courses)) < Fitness(Penalty(population[k], slots, rooms, courses))
    {
      assert history'[h] == history[h];
      assert Dominated(history[h], bar, slots, rooms, courses);
    }
    forall j | 0 <= j < k
      ensures Fitness(Penalty(population[j], slots, rooms, courses)) < Fitness(Penalty(population[k], slots, rooms, courses))
    {
      assert fits[j] < fits[k];
    }
  }

  /**
   * Generation `next` was bred from `prev` with the round draws `draws`, as
   * `NextGeneration` states it: the elite copy first under elitism, then
   * each round's children in place, each pair bred from its round's draw.
   */
  ghost predicate BredGeneration(prev: seq<Chromosome>, next: seq<Chromosome>, offspring: seq<(Chromosome, Chromosome)>,
                                 draws: seq<BreedDraw>, popSize: nat, elitism: bool,
                                 slots: seq<Timeslot>, rooms: seq<string>, courses: seq<Course>)
  {
    && |prev| >= 1 && AllValid(prev, slots, rooms, courses)
    && (forall t :: 0 <= t < |draws| ==> BreedDrawFits(draws[t], |prev|, slots, rooms, courses))
    && |offspring| == BreedRounds(popSize, elitism)
    && AllBred(prev, Fitnesses(prev, slots, rooms, courses), draws, slots, rooms, courses, offspring)
    && Placed(next, if elitism then 1 else 0, offspring)
    && (elitism ==> OpensWithElite(prev, next, slots, rooms, courses))
  }

  /** What `NextGeneration` promises on success amounts to `BredGeneration`. */
  lemma BredByNextGeneration(prev: seq<Chromosome>, next: seq<Chromosome>, offspring: seq<(Chromosome, Chromosome)>,
                             draws: seq<BreedDraw>, popSize: nat, elitism: bool,
                             slots: seq<Timeslot>, rooms: seq<string>, courses: seq<Course>)
    requires |prev| >= 1 && AllValid(prev, slots, rooms, courses)
    requires forall t :: 0 <= t < |draws| ==> BreedDrawFits(draws[t], |prev|, slots, rooms, courses)
    requires |offspring| == BreedRounds(popSize, elitism)
    requires AllBred(prev, Fitnesses(prev, slots, rooms, courses), draws, slots, rooms, courses, offspring)
    requires Placed(next, if elitism then 1 else 0, offspring)
    requires elitism ==> |next| >= 1 && exists e: nat :: IsFirstMax(Fitnesses(prev, slots, rooms, courses), e) && next[0] == prev[e]
    ensures BredGeneration(prev, next, offspring, draws, popSize, elitism, slots, rooms, courses)
  {
  }

  /** Each recorded generation after the first was bred from the one before it with that generation's draws. */
  ghost predicate Lineage(history: seq<seq<Chromosome>>, breeding: seq<seq<(Chromosome, Chromosome)>>,
                          genDraws: seq<seq<BreedDraw>>, popSize: nat, elitism: bool,
                          slots: seq<Timeslot>, rooms: seq<string>, courses: seq<Course>)
  {
    forall g {:trigger history[g]} :: 0 <= g < |history| - 1 ==>
      && AllValid(history[g], slots, rooms, courses)
      && g < |breeding| && g < |genDraws|
      && BredGeneration(history[g], history[g + 1], breeding[g], genDraws[g], popSize, elitism, slots, rooms, courses)
  }

  /**
   * Recording the generation bred from the last recorded one, and then the
   * offspring of the next breeding, keeps the lineage.
   */
  lemma LineageStep(history: seq<seq<Chromosome>>, breeding: seq<seq<(Chromosome, Chromosome)>>,
                    genDraws: seq<seq<BreedDraw>>, popSize: nat, elitism: bool,
                    slots: seq<Timeslot>, rooms: seq<string>, courses: seq<Course>,
                    population: seq<Chromosome>, offspring: seq<(Chromosome, Chromosome)>)
    requires Lineage(history, breeding, genDraws, popSize, elitism, slots, rooms, courses)
    requires |breeding| == |history| && |history| <= |genDraws|
    requires |history| >= 1 ==>
      BredGeneration(history[|history| - 1], population, breeding[|history| - 1], genDraws[|history| - 1],
                     popSize, elitism, slots, rooms, courses)
    ensures Lineage(history + [population], breeding + [offspring], genDraws, popSize, elitism, slots, rooms, courses)
  {
    var history', breeding' := history + [population], breeding + [offspring];
    forall g {:trigger history'[g]} | 0 <= g < |history'| - 1
      ensures AllValid(history'[g], slots, rooms, courses) && g < |breeding'| && g < |genDraws|
      ensures BredGeneration(history'[g], history'[g + 1], breeding'[g], genDraws[g], popSize, elitism, slots, rooms, courses)
    {
      assert history'[g] == history[g] && breeding'[g] == breeding[g];
      if g + 1 < |history| {
        assert history'[g + 1] == history[g + 1];
      }
    }
  }

  /** The first generation: member `k` is the individual the draws `initDraws[k]` yield. */
  predicate Seeded(first: seq<Chromosome>, slots: seq<Timeslot>, courses: seq<Course>, initDraws: seq<seq<GeneDraw>>)
  {
    |first| == |initDraws| && forall k :: 0 <= k < |first| ==> DrawnIndividual(first[k], slots, courses, initDraws[k])
  }

  /**
   * What the search has recorded so far: every generation is valid, the
   * current champion is the first fittest individual at `(atGen, atIndex)`,
   * the first generation is the seeded one, and each later generation was bred
   * from the one before it.
   */
  ghost predicate Traced(history: seq<seq<Chromosome>>, breeding: seq<seq<(Chromosome, Chromosome)>>,
                         best: Option<Champion>, atGen: nat, atIndex: nat, first: seq<Chromosome>,
                         popSize: nat, elitism: bool, initDraws: seq<seq<GeneDraw>>, genDraws: seq<seq<BreedDraw>>,
                         slots: seq<Timeslot>, rooms: seq<string>, courses: seq<Course>)
  {
    && HistoryValid(history, slots, rooms, courses)
    && (best.Some? ==>
          FirstFittest(history, atGen, atIndex, slots, rooms, courses) && best.value.individual == history[atGen][atIndex])
    && Seeded(first, slots, courses, initDraws)
    && (|history| >= 1 ==> history[0] == first)
    && |breeding| == |history|
    && Lineage(history, breeding, genDraws, popSize, elitism, slots, rooms, courses)
  }

  /**
   * Scoring `population` and recording it, together with the offspring bred
   * from it, keeps the record; the champion's position moves only when a
   * strictly fitter individual takes over.
   */
  lemma TracedStep(history: seq<seq<Chromosome>>, breeding: seq<seq<(Chromosome, Chromosome)>>,
                   best: Option<Champion>, atGen: nat, atIndex: nat, first: seq<Chromosome>,
                   popSize: nat, elitism: bool, initDraws: seq<seq<GeneDraw>>, genDraws: seq<seq<BreedDraw>>,
                   slots: seq<Timeslot>, rooms: seq<string>, courses: seq<Course>,
                   population: seq<Chromosome>, fitnesses: seq<real>, best': Option<Champion>,
                   offspring: seq<(Chromosome, Chromosome)>)
    returns (atGen': nat, atIndex': nat)
    requires Traced(history, breeding, best, atGen, atIndex, first, popSize, elitism, initDraws, genDraws, slots, rooms, courses)
    requires |history| < |genDraws|
    requires |history| == 0 ==> population == first
    requires |history| >= 1 ==>
      BredGeneration(history[|history| - 1], population, breeding[|history| - 1], genDraws[|history| - 1],
                     popSize, elitism, slots, rooms, courses)
    requires AllValid(population, slots, rooms, courses)
    requires HistoryDominated(history, popSize, BestFitness(best), slots, rooms, courses)
    requires fitnesses == Fitnesses(population, slots, rooms, courses)
    requires best' == best || exists k: nat ::
      && k < |population|
      && best' == Some(Champion(population[k], fitnesses[k], Penalty(population[k], slots, rooms, courses)))
      && BestFitness(best) < fitnesses[k]
      && IsFirstMax(fitnesses, k)
    ensures Traced(history + [population], breeding + [offspring], best', atGen', atIndex', first,
                   popSize, elitism, initDraws, genDraws, slots, rooms, courses)
  {
    var history' := history + [population];
    if best' == best {
      atGen', atIndex' := atGen, atIndex;
      if best.Some? {
        FirstFittestKept(history, population, atGen, atIndex, slots, rooms, courses);
      }
    } else {
      var k: nat :| && k < |population|
                    && best' == Some(Champion(population[k], fitnesses[k], Penalty(population[k], slots, rooms, courses)))
                    && BestFitness(best) < fitnesses[k]
                    && IsFirstMax(fitnesses, k);
      FirstFittestNew(history, population, k, popSize, BestFitness(best), slots, rooms, courses);
      atGen', atIndex' := |history|, k;
    }
    assert history'[0] == first;
    LineageStep(history, breeding, genDraws, popSize, elitism, slots, rooms, courses, population, offspring);
  }

  /**
   * The whole search: a random initial population, then for each
   * generation evaluation, best-tracking and breeding. `history` lists the
   * population evaluated in each generation. On success the champion is
   * sound, and no evaluated individual had a higher fitness or, equally, a
   * lower penalty.
   */
  method RunGa(slots: seq<Timeslot>, rooms: seq<string>, courses: seq<Course>,
               popSize: nat, generations: nat, elitism: bool,
               initDraws: seq<seq<GeneDraw>>, genDraws: seq<seq<BreedDraw>>)
    returns (r: Result<Option<Champion>, CrossoverError>, ghost history: seq<seq<Chromosome>>,
             ghost breeding: seq<seq<(Chromosome, Chromosome)>>)
    requires popSize >= 1
    requires |initDraws| == popSize
    requires forall k :: 0 <= k < popSize ==> GeneDrawsFit(initDraws[k], slots, rooms, courses)
    requires |genDraws| == generations
    requires forall g :: 0 <= g < generations ==> |genDraws[g]| >= BreedRounds(popSize, elitism)
    requires forall g, t :: 0 <= g < generations && 0 <= t < |genDraws[g]| ==>
      BreedDrawFits(genDraws[g][t], popSize, slots, rooms, courses)
    ensures |courses| >= 2 ==> r.Success?
    ensures r.Success? ==> (r.value.Some? <==> generations > 0)
    ensures r.Success? && r.value.Some? ==> ChampionSound(r.value.value, slots, rooms, courses)
    ensures r.Success? ==> |history| == generations
    ensures forall g :: 0 <= g < |history| ==> |history[g]| == popSize && AllValid(history[g], slots, rooms, courses)
    ensures r.Success? && r.value.Some? ==> forall g :: 0 <= g < |history| ==>
      && Dominated(history[g], r.value.value.fitness, slots, rooms, courses)
      && forall k :: 0 <= k < popSize ==> r.value.value.penalty <= Penalty(history[g][k], slots, rooms, courses)
    ensures elitism ==> ElitistHistory(history, slots, rooms, courses)
    ensures r.Success? && r.value.Some? ==> exists g: nat, k: nat ::
      FirstFittest(history, g, k, slots, rooms, courses) && r.value.value.individual == history[g][k]
    ensures generations > 0 ==> |history| >= 1 && Seeded(history[0], slots, courses, initDraws)
    ensures Lineage(history, breeding, genDraws, popSize, elitism, slots, rooms, courses)
  {
    var population := InitializePopulation(popSize, slots, rooms, courses, initDraws);
    var best: Option<Champion> := None;
    history, breeding := [], [];
    ghost var first := population;
    ghost var atGen: nat, atIndex: nat := 0, 0;
    ghost var parent: seq<Chromosome>, bred: seq<(Chromosome, Chromosome)> := [], [];
    for g := 0 to generations
      invariant |population| == popSize && AllValid(population, slots, rooms, courses)
      invariant |history| == g
      invariant best.Some? <==> g > 0
      invariant best.Some? ==> ChampionSound(best.value, slots, rooms, courses)
      invariant HistoryDominated(history, popSize, BestFitness(best), slots, rooms, courses)
      invariant elitism ==> ElitistHistory(history, slots, rooms, courses)
      invariant Traced(history, breeding, best, atGen, atIndex, first, popSize, elitism, initDraws, genDraws, slots, rooms, courses)
      invariant g == 0 ==> population == first
      invariant g >= 1 ==> history[g - 1] == parent && breeding[g - 1] == bred
      invariant g >= 1 ==> BredGeneration(parent, population, bred, genDraws[g - 1], popSize, elitism, slots, rooms, courses)
    {
      var fitnesses, best' := ScoreGeneration(population, best, slots, rooms, courses);
      HistoryExtend(history, population, popSize, BestFitness(best), BestFitness(best'), slots, rooms, courses);
      if elitism {
        ElitistExtend(history, population, slots, rooms, courses);
      }
      var next, offspring := NextGeneration(population, fitnesses, popSize, elitism, slots, rooms, courses, genDraws[g]);
      atGen, atIndex := TracedStep(history, breeding, best, atGen, atIndex, first, popSize, elitism, initDraws, genDraws,
                                   slots, rooms, courses, population, fitnesses, best', offspring);
      history, breeding := history + [population], breeding + [offspring];
      best := best';
      if next.Failure? {
        return Failure(next.error), history, breeding;
      }
      BredByNextGeneration(population, next.value, offspring, genDraws[g], popSize, elitism, slots, rooms, courses);
      parent, bred, population := population, offspring, next.value;
    }
    r := Success(best);
    if best.Some? {
      HistoryLeastPenalty(history, popSize, best.value, slots, rooms, courses);
    }
  }
}
