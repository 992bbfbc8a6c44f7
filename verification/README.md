# Course timetabling: a genetic algorithm and a simulated annealer, modelled in Dafny

The repository schedules university classes into weekly (day, session) slots
with two independent searches.

- `GA.py` is a genetic algorithm. A chromosome holds one gene per course: a
  timeslot index and a room index. `compute_penalty` scores a chromosome as
  follows:
  - soft terms: +5 for a disallowed session and +3 for a slot type that does
    not fit the credit weight (sks);
  - hard terms: 10·(N−1) for every (day, session, room) key and 8·(N−1) for
    every (day, session, lecturer) key held N > 1 times.

  Fitness is `1/(1+penalty)`. Each generation:
  - evaluates the population and keeps a best-ever champion, replaced only on
    strict improvement;
  - copies the fittest member first when elitism is on;
  - fills the rest by tournament selection, one-point crossover and per-gene
    mutation.
- `SA.py` is simulated annealing over a map from class id to a (day, session)
  slot. Before the search, the class list is filtered and missing
  allowed-session lists are filled from the session table. The cost counts,
  for every slot holding two or more classes:
  - 1 if a lecturer repeats within the slot;
  - 1 if a course code repeats.

  The loop proposes one-class moves, accepts them by the Metropolis rule and
  tracks the best schedule. A final pass numbers the rooms R1, R2, … inside
  each slot.

The model keeps every random draw of the source as an explicit parameter:
- the picks into candidate lists;
- the sampled tournament indices;
- the crossover coin and cut point;
- the mutation coins;
- the Metropolis outcome.

Everything else is deterministic, so the contracts can state exactly what each
step produces.

Modules:
- `Wrappers` (`wrappers.dfy`): `Option` and `Result`.
- `Duplicates` (`duplicates.dfy`): multiplicity facts about sequences that both
  cost functions rest on. `Excess` counts the entries that repeat an earlier
  entry; `HasDuplicates` says whether any entry repeats; `Tally` is the
  key-to-count map.
- `GaCatalog` (`ga_catalog.dfy`): courses, timeslots, genes, and the
  admissible-timeslot filter with its fall-back to the whole table.
- `GaPenalty` (`ga_penalty.dfy`):
  - the reference penalty `Penalty`;
  - the loop-and-dictionary computation `ComputePenalty`, as the source writes
    it, proved equal to `Penalty`;
  - fitness and its order.
- `GaOperators` (`ga_operators.dfy`): mutation rate, random individuals,
  tournament selection, elitist pick, crossover and mutation.
- `GaSearch` (`ga_search.dfy`): evaluation, best-ever tracking, one generation
  and the whole run.
- `SaCatalog` (`sa_catalog.dfy`): the session table, class validation and the
  class filter, and the first-match class lookup.
- `SaCost` (`sa_cost.dfy`): the cost and how it is computed.
  - The reference cost `Cost` counts the slots whose group clashes on
    lecturers, plus those whose group clashes on codes.
  - `CalculateCost` groups by slot and scans the groups as the source does,
    and is proved equal to `Cost`.
- `SaSearch` (`sa_search.dfy`): slot draws, the initial schedule, the
  neighbour move, acceptance, cooling, the annealing loop and room labelling.

## Model

| member | source | states |
|---|---|---|
| GaOperators.MutationRate | GA.py:26-31 | The rate lies in [0.01, 0.05]. It is 1/L for chromosome lengths 20..100, 0.05 for shorter chromosomes and 0.01 for longer ones. |
| GaOperators.MutationRateAntitone | GA.py:26-31 | A longer chromosome never gets a higher mutation rate. |
| GaCatalog.AdmissibleFrom | GA.py:71-76 | It lists exactly the timeslot positions whose session is allowed and whose type fits the sks (type 2 for sks 2, type 3 otherwise), in ascending order. |
| GaCatalog.Candidates | GA.py:71-79 | The draw list is the admissible positions when there are any, and every timeslot otherwise. It is empty only when the timeslot table is empty. |
| GaOperators.PickSlot | GA.py:81 | A drawn slot is a valid candidate index. It is admissible whenever some slot is. |
| GaOperators.CreateIndividual | GA.py:65-87 | There is one gene per course. Each gene's slot is the candidate its slot draw picks and its room is the drawn room, both in range. When every course has an admissible slot, the individual's soft penalty is 0. |
| GaOperators.InitializePopulation | GA.py:90-91 | There are exactly `pop_size` individuals, each a valid chromosome. Individual k is built from its own draw list `draws[k]`, gene by gene, exactly as `CreateIndividual` builds one: the slot its slot draw picks among the course's candidates and the room its room draw picks. |
| GaPenalty.SoftPenalty | GA.py:113-121 | A gene's soft cost is 0 exactly when its session is allowed and its slot type fits the sks. It is at least 5 for a disallowed session and never above 8. |
| GaPenalty.SoftTotalOfAdmissible | GA.py:113-121 | Genes drawn from the admissible filter add no soft penalty, because the filter and the soft checks agree, including for sks below 2. |
| GaPenalty.ConflictPenalty | GA.py:130-140 | Adding w·(N−1) over the tallied keys gives w times the number of repeated entries. |
| GaPenalty.ComputePenalty | GA.py:97-142 | The loop-and-dictionary computation gives the soft total, plus 10 per repeated (day, session, room) entry, plus 8 per repeated (day, session, lecturer) entry. |
| GaPenalty.PenaltyZeroIff | GA.py:97-142 | The penalty is 0 exactly when all soft terms are 0, no room key repeats and no lecturer key repeats. |
| GaPenalty.RoomClashCost | GA.py:130-134 | When a set of courses shares one (day, session, room) key, the penalty is at least 10·(size−1). |
| GaPenalty.LecturerClashCost | GA.py:136-140 | Two courses in the same day and session with a common lecturer cost at least 8. |
| GaPenalty.RepeatedLecturerCost | GA.py:126-128 | A course that lists the same lecturer twice counts against itself: at least 8. |
| Duplicates.ExcessIsLengthMinusDistinct | GA.py:131-140 | Summing N−1 over keys equals the number of entries minus the number of distinct keys. |
| Duplicates.ExcessPositiveIffDuplicates | GA.py:132 | Some key holds more than one entry exactly when the key sequence repeats an element. |
| GaPenalty.Fitness | GA.py:147 | Fitness lies in (0, 1] and equals 1 exactly when the penalty is 0. |
| GaPenalty.FitnessOrder | GA.py:147 | Fitness is strictly decreasing in the penalty, and two fitnesses are equal only when the penalties are. |
| GaPenalty.ComputeFitness | GA.py:145-147 | The returned penalty is the chromosome's penalty and the fitness is 1/(1+penalty). |
| GaOperators.FirstBest | GA.py:156-162 | The scan stops at the first sampled position of greatest fitness. |
| GaOperators.FirstBestUnique | GA.py:156-162 | The first position of greatest fitness is unique, so "first-wins" picks one winner. |
| GaOperators.TournamentSelection | GA.py:153-164 | The winner is a sampled member that no other sampled member beats. On a tie, it is the earliest sampled. |
| GaOperators.EliteIndex | GA.py:354 | The elite index is the first population index of maximum fitness. |
| GaOperators.Crossover | GA.py:170-181 | Parents of unequal length are an error. A cut on chromosomes shorter than 2 is an error. Without a cut the children copy the parents. With a cut at p, each child takes the genes before p from its own parent and the rest from the other parent, so at every position the two child genes are the two parent genes. |
| GaOperators.CrossoverInvolution | GA.py:178-180 | Crossing the children again at the same point gives back the parents. |
| GaOperators.CrossoverKeepsGenePool | GA.py:178-180 | The two children together hold exactly the parents' genes, as a multiset. |
| GaOperators.CrossoverKeepsValidity | GA.py:170-181 | Valid parents give valid children. Crossover succeeds exactly when no cut is due or there are at least two courses. |
| GaOperators.Mutate | GA.py:187-213 | Length is kept and genes whose coin did not fire are unchanged. A fired gene gets a candidate slot, admissible when one exists, and keeps its room unless the room coin fires. Validity is preserved. |
| GaSearch.Evaluate | GA.py:327-333 | Each member's fitness and penalty are those of its chromosome. |
| GaSearch.UpdateBest | GA.py:336-340 | The best fitness never decreases and ends at least every member's fitness. The champion changes only to the first member of maximum fitness, and only when that member strictly beats the old best. |
| GaSearch.ScoreGeneration | GA.py:327-340 | The fitness list holds, in population order, the fitness of each member's own penalty. After scoring, the champion is sound, its fitness has not decreased, and no member of the generation beats it. The champion either stays as it was or becomes member k, with k's own fitness and penalty, where k is the first member of maximum fitness and strictly beats the old best fitness. |
| GaSearch.DominatedMeansLeastPenalty | GA.py:336-340 | A sound champion that no member beats on fitness has the least penalty among them. |
| GaSearch.BreedRound | GA.py:358-364 | On success the two children are the round's mutations of the two crossover children of two tournament winners, each winner the first fittest of its sample. Both children are valid. The round fails exactly when a cut is due on chromosomes of fewer than 2 genes. |
| GaSearch.NextGeneration | GA.py:350-370 | The next generation has exactly the population size, all valid. With elitism, its first member is a copy of the current first maximum-fitness member. After that place, round t's first child sits at place start+2t and its second child right after it unless the population is already full. Each round's pair is bred from that round's draws as in `BreedRound`. It fails only when a cut is due and there are fewer than 2 courses. |
| GaSearch.RunGa | GA.py:320-370 | With two or more courses the run succeeds. Every generation has the population size and is valid. The final champion is sound, and no individual of any generation beats it: none has a higher fitness or a lower penalty. With elitism, every generation after the first opens with a copy of the first fittest member of the generation before it. The champion is an evaluated individual: the first one of greatest fitness, counting earlier generations first and then earlier members of the same generation. Generation 0 is the population built from the initial draws, individual by individual. Every later generation is bred from the one before it under that generation's draws, as `NextGeneration` states: the elite copy, then each round's pair of children in place. |
| GaSearch.ElitistNeverWorse | GA.py:352-355 | Under elitism, the first member of each later generation is at least as fit as every member of the generation before, and has no higher penalty. So the best fitness of a generation never falls below that of the previous one. |
| SaCatalog.SessionKindsLastWins | SA.py:20-22 | Each (day, session) of the session table maps to the type of the last row that lists it. |
| SaCatalog.SessionKindsKeys | SA.py:20-22 | The session-type map holds only pairs listed in the table. |
| SaCatalog.SortUnique | SA.py:41 | The result is strictly increasing and holds exactly the input's labels. |
| SaCatalog.LabelsOfKindAreSessionsOfKind | SA.py:38-41 | The collected labels are exactly the sessions of slots whose type equals the class's sks. |
| SaCatalog.Validate | SA.py:32-44 | A kept class always has a non-empty allowed-session list. |
| SaCatalog.ValidateSpec | SA.py:31-46 | A record is kept exactly when all six required fields are present and it has, or is given, a non-empty session list. Kept fields are copied unchanged. A missing or empty list is filled with the sorted, duplicate-free labels of the matching slot type. |
| SaCatalog.FilterClasses | SA.py:30-48 | No more classes come out than went in, and every class kept has allowed sessions. |
| SaCatalog.FilterConcat | SA.py:30-48 | Filtering distributes over concatenation, so the input order is preserved. |
| SaCatalog.FilterMembers | SA.py:30-48 | A class is in the output exactly when some input record validates to it. |
| SaCatalog.FindClass | SA.py:81 | The lookup finds nothing exactly when no class has the id. Otherwise it returns the first class with that id. |
| SaCost.GroupBySlot | SA.py:68-74 | The groups are keyed by exactly the occupied slots. Each group lists, without repeats, exactly the ids scheduled in its slot. |
| SaCost.CollectEntries | SA.py:78-84 | It gathers the lecturers and codes of the listed ids, each looked up by first match, and skips ids with no class. |
| SaCost.GatherClash | SA.py:86-90 | The gathered entries repeat exactly when the group clashes: one class repeats an entry, or two classes of the group share one. |
| SaCost.SlotCost | SA.py:77-90 | A slot adds 1 for a lecturer clash and 1 for a code clash, and only when it holds two or more classes. |
| SaCost.CalculateCost | SA.py:66-92 | The computed cost equals the number of lecturer-clash slots plus the number of code-clash slots, whatever the key order. |
| SaCost.CostBound | SA.py:76-92 | The cost is at most twice the number of occupied slots. |
| SaCost.CostZeroWhenSlotsDistinct | SA.py:76-77 | When no two classes share a slot, the cost is 0. |
| SaSearch.RandomSlot | SA.py:54-57 | The slot's day is one of the five days and its session is one of the class's allowed sessions, namely the drawn ones. |
| SaSearch.InitialSchedule | SA.py:59-64 | The initial schedule's keys are exactly the class ids. |
| SaSearch.InitialScheduleLast | SA.py:61-63 | A class id repeated in the list gets the slot drawn for its last occurrence. |
| SaSearch.InitialSlotsAllowed | SA.py:59-64 | Every id of the initial schedule holds the slot drawn for the last class carrying that id, and that slot is allowed for that class. |
| SaSearch.IdOrder | SA.py:70 | The schedule's iteration order lists every class id once. |
| SaSearch.Neighbor | SA.py:94-100 | The neighbour's keys are the schedule's keys plus the picked class's id, so a schedule keyed by all class ids keeps its key set. It differs from the schedule only at the picked class, whose new slot is one of its allowed ones. |
| SaSearch.Accepts | SA.py:125 | Improvements are always accepted, and so are equal-cost moves when the temperature is non-zero. A worsening move is accepted at positive temperature exactly when the Metropolis draw succeeds. |
| SaSearch.TemperatureDecreasing | SA.py:108-132 | With a positive initial temperature and a cooling rate strictly between 0 and 1, as the defaults 25000.0 and 0.9998 are, the temperature stays positive, never exceeds the start, and strictly falls with each cooling. |
| SaSearch.TemperatureNonzero | SA.py:108-132 | A non-zero initial temperature and cooling rate never give a zero temperature. |
| SaSearch.AnnealStep | SA.py:121-130 | The step fails exactly when the neighbour is no cheaper and the temperature is 0, where the source divides by zero. Otherwise the neighbour becomes current, with its cost, when it is strictly cheaper or the acceptance rule takes it. It also becomes best when strictly cheaper than the best. If the neighbour is not taken, the state is unchanged. Costs stay equal to the schedules' costs, and the best cost never rises. |
| SaSearch.Anneal | SA.py:102-134 | A trace of states replays the run. It starts with the initial schedule as both current and best. Each later state is the step's outcome, as `AnnealStep` states it, from the state before, under that iteration's draws and the temperature after that many coolings. Steps are taken only while the best cost is positive. The loop runs at most `max_iter` iterations and fails only at a step with zero temperature and no cheaper neighbour, which needs a zero initial temperature or rate. On success:<br>- the result is the last state's best schedule and cost;<br>- the best schedule is keyed by the class ids;<br>- its reported cost is its cost;<br>- the best cost never rises and never exceeds the initial cost;<br>- stopping early means it reached 0. |
| SaSearch.AssignRooms | SA.py:154-170 | The rows follow the scheduled classes in list order, each in its own slot. Each room number is 1 plus the count of earlier rows in the same slot. |
| SaSearch.RoomsDistinctInSlot | SA.py:165-170 | Two classes in the same slot never get the same room number; the later one gets a higher number. |

## Left out

- Data loading (GA.py:36-59, SA.py:14-27) reads JSON files. The tables are parameters instead, and a timeslot's `index` is its position in the table.
- Printing, the schedule table, CSV export and sorting of the output rows (GA.py `print_schedule` and `export_to_csv`; SA.py:112-117, 148-151, 171-214) are output formatting only.
- Everything `random` produces is a parameter:
  - `random.choice`, `randrange` and `randint` become index draws with the range preconditions the calls imply;
  - `random.random() < rate` becomes a boolean coin;
  - `random.sample` becomes a non-empty list of in-range indices.
- GaOperators.TournamentSelection: the sample is not required to have exactly `TOURNAMENT_SIZE` distinct entries. `random.sample` raising on a population smaller than the sample is not modelled.
- GaOperators.Mutate: the link between the mutation rate and how often a coin fires is probabilistic, so it is not modelled.
- GaPenalty.Fitness: fitness is the exact real 1/(1+penalty), while the source computes a float. Float rounding is monotone, and for penalties below 2^50 it keeps distinct penalties at distinct fitnesses. So every comparison the search makes (tournament, elitist pick, best-ever update) has the same outcome as in the model. Every penalty is far below that bound for timetables of any real size.
- GaOperators.MutationRate: the rate is an exact real rather than a float. It is only compared with the mutation coin, which is a parameter, so rounding does not matter.
- SaSearch.Accepts: `random.random() < math.exp(-delta / temp)` is a boolean parameter. A worsening move at positive temperature is accepted exactly when that parameter holds. At negative temperature the exponent is positive and the source always accepts, and so does the model.
- SaSearch.Accepts: at negative temperature a large `-delta / temp` makes `math.exp` raise `OverflowError`; the model accepts the move instead.
- SaSearch.Anneal: temperatures are exact reals. A float temperature could underflow to 0.0 after millions of iterations, far beyond the source's 1000; the model has no underflow. A zero temperature at a non-improving move is the source's `ZeroDivisionError`, modelled as the `ZeroTemperature` failure.
- SaSearch.Anneal: the progress fitness printed every 100 iterations is not modelled.
- The trailing `random.seed(42)` (SA.py:216) runs after the search and has no effect.
- The process exit on an empty class list (SA.py:140-142) is not modelled. `Anneal` accepts an empty list and returns the empty schedule at cost 0.
- SaCost.CalculateCost: the slot key `f"{day}-{session}"` is a (day, session) pair. The string would merge two slots only for day names containing '-', which the five weekday names do not.
- SaCost.CalculateCost: Python's dict iteration order is an explicit key-order parameter. The cost is proved not to depend on it.
- SaCatalog.Validate: a field is either present with a value or missing. The source's presence test (SA.py:32) also accepts a field present with value `null`, and what happens to such a record downstream is not modelled.
- SaSearch.AssignRooms: a row holds the room number, not the string "R" + number. The time-range lookup `session_time_map.get(key, "N/A")` (SA.py:162) is display data and is left out.
- Console progress of the GA (GA.py:342-347) is left out. So is the surrounding `run_ga` setup outside lines 320-370 that only reads the data.
