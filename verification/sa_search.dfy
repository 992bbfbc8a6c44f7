/**
 * The annealing search around the cost: random slots, the initial
 * schedule, the one-class neighbour move, the acceptance rule, the loop
 * that tracks the best schedule, and the pass that numbers the rooms of
 * each slot. Every random choice is an explicit draw.
 */
module SaSearch {
  import opened Wrappers
  import opened Duplicates
  import opened SaCatalog
  import opened SaCost

  /** The two choices of a random slot: an index into `Days` and one into the allowed sessions. */
  datatype SlotDraw = SlotDraw(dayPick: nat, sessionPick: nat)

  /** The draw picks an existing day and an existing allowed session of `c`. */
  predicate SlotDrawFits(c: ClassInfo, d: SlotDraw)
  {
    d.dayPick < |Days| && d.sessionPick < |c.allowedSessions|
  }

  /** A slot class `c` may be placed in: a working day and one of its sessions. */
  predicate SlotFor(c: ClassInfo, s: Slot)
  {
    s.day in Days && s.session in c.allowedSessions
  }

  /** A random slot for class `c`. */
  function RandomSlot(c: ClassInfo, d: SlotDraw): (s: Slot)
    requires SlotDrawFits(c, d)
    ensures SlotFor(c, s)
    ensures s.day == Days[d.dayPick] && s.session == c.allowedSessions[d.sessionPick]
  {
    Slot(Days[d.dayPick], c.allowedSessions[d.sessionPick])
  }

  /** One fitting slot draw per class. */
  predicate InitialDrawsFit(classes: seq<ClassInfo>, draws: seq<SlotDraw>)
  {
    |draws| == |classes| && forall i :: 0 <= i < |classes| ==> SlotDrawFits(classes[i], draws[i])
  }

  /** No later class carries the id of class `i`. */
  predicate LastOfId(classes: seq<ClassInfo>, i: nat)
    requires i < |classes|
  {
    forall j :: i < j < |classes| ==> classes[j].id != classes[i].id
  }

  /**
   * The initial schedule: every class in turn gets a random slot under its
   * id, so when two classes share an id the later one's slot stays.
   */
  function InitialSchedule(classes: seq<ClassInfo>, draws: seq<SlotDraw>): (sch: Schedule)
    requires InitialDrawsFit(classes, draws)
    ensures sch.Keys == Ids(classes)
    decreases |classes|
  {
    if |classes| == 0 then map[]
    else
      var n := |classes| - 1;
      assert InitialDrawsFit(classes[..n], draws[..n]);
      var earlier := InitialSchedule(classes[..n], draws[..n]);
      assert Ids(classes) == Ids(classes[..n]) + {classes[n].id} by {
        assert classes == classes[..n] + [classes[n]];
      }
      earlier[classes[n].id := RandomSlot(classes[n], draws[n])]
  }

  /** The slot an id ends up with is the one drawn for the last class carrying it. */
  lemma {:induction false} InitialScheduleLast(classes: seq<ClassInfo>, draws: seq<SlotDraw>, i: nat)
    requires InitialDrawsFit(classes, draws)
    requires i < |classes| && LastOfId(classes, i)
    ensures InitialSchedule(classes, draws)[classes[i].id] == RandomSlot(classes[i], draws[i])
    decreases |classes|
  {
    var n := |classes| - 1;
    assert InitialDrawsFit(classes[..n], draws[..n]);
    var earlier := InitialSchedule(classes[..n], draws[..n]);
    assert InitialSchedule(classes, draws) == earlier[classes[n].id := RandomSlot(classes[n], draws[n])];
    if i < n {
      assert LastOfId(classes[..n], i);
      InitialScheduleLast(classes[..n], draws[..n], i);
      assert classes[n].id != classes[i].id;
    }
  }

  /** Every id has a last class carrying it. */
  lemma {:induction false} LastOfIdExists(classes: seq<ClassInfo>, id: int)
    requires id in Ids(classes)
    ensures exists i :: 0 <= i < |classes| && classes[i].id == id && LastOfId(classes, i)
    decreases |classes|
  {
    var n := |classes| - 1;
    if classes[n].id != id {
      assert id in Ids(classes[..n]) by {
        var c :| c in classes && c.id == id;
        var k :| 0 <= k < |classes| && classes[k] == c;
        assert classes[..n][k] == c;
      }
      LastOfIdExists(classes[..n], id);
      var i :| 0 <= i < n && classes[..n][i].id == id && LastOfId(classes[..n], i);
      assert LastOfId(classes, i);
    } else {
      assert LastOfId(classes, n);
    }
  }

  /**
   * Every class id of the initial schedule sits in the slot drawn for the
   * last class carrying that id, which is a slot allowed for that class.
   */
  lemma {:induction false} InitialSlotsAllowed(classes: seq<ClassInfo>, draws: seq<SlotDraw>, id: int)
    requires InitialDrawsFit(classes, draws)
    requires id in InitialSchedule(classes, draws)
    ensures exists i :: (0 <= i < |classes| && classes[i].id == id && LastOfId(classes, i)
                         && InitialSchedule(classes, draws)[id] == RandomSlot(classes[i], draws[i])
                         && SlotFor(classes[i], InitialSchedule(classes, draws)[id]))
  {
    LastOfIdExists(classes, id);
    var i :| 0 <= i < |classes| && classes[i].id == id && LastOfId(classes, i);
    InitialScheduleLast(classes, draws, i);
  }

  /** The class ids in the order they were first inserted: the schedule's key order. */
  function IdOrder(classes: seq<ClassInfo>): (order: seq<int>)
    ensures !HasDuplicates(order) && Elements(order) == Ids(classes)
    decreases |classes|
  {
    if |classes| == 0 then []
    else
      var n := |classes| - 1;
      var earlier := IdOrder(classes[..n]);
      assert Ids(classes) == Ids(classes[..n]) + {classes[n].id} by {
        assert classes == classes[..n] + [classes[n]];
      }
      if classes[n].id in earlier then earlier
      else
        DistinctAppend(earlier, classes[n].id);
        earlier + [classes[n].id]
  }

  /** The choices of a neighbour move: which class moves, and to which random slot. */
  datatype NeighborDraw = NeighborDraw(classPick: nat, slot: SlotDraw)

  /** The draw picks an existing class and a fitting slot for it. */
  predicate NeighborDrawFits(classes: seq<ClassInfo>, d: NeighborDraw)
  {
    d.classPick < |classes| && SlotDrawFits(classes[d.classPick], d.slot)
  }

  /**
   * The neighbour move: a copy of the schedule with one randomly chosen
   * class moved to a random slot. The input schedule is a value and is not
   * changed.
   */
  function Neighbor(sch: Schedule, classes: seq<ClassInfo>, d: NeighborDraw): (r: Schedule)
    requires NeighborDrawFits(classes, d)
    ensures r.Keys == sch.Keys + {classes[d.classPick].id}
    ensures forall id :: id in sch && id != classes[d.classPick].id ==> r[id] == sch[id]
    ensures SlotFor(classes[d.classPick], r[classes[d.classPick].id])
  {
    var c := classes[d.classPick];
    sch[c.id := RandomSlot(c, d.slot)]
  }

  /** A move on a schedule of all class ids keeps its key set, and so its key order. */
  lemma NeighborKeepsKeys(sch: Schedule, classes: seq<ClassInfo>, d: NeighborDraw)
    requires NeighborDrawFits(classes, d) && sch.Keys == Ids(classes)
    ensures Neighbor(sch, classes, d).Keys == sch.Keys
    ensures forall order :: KeyOrder(sch, order) ==> KeyOrder(Neighbor(sch, classes, d), order)
  {
    assert classes[d.classPick] in classes;
  }

  /**
   * The acceptance rule. A better neighbour is always taken. Otherwise the
   * rule compares a uniform draw in [0, 1) with exp(-delta / temp), and
   * `metropolis` is the outcome of that comparison. With delta = 0 the
   * exponential is 1 and with temp < 0 it exceeds 1, so the comparison
   * always succeeds there; only a worse neighbour at positive temperature
   * depends on the draw.
   */
  function Accepts(delta: int, temp: real, metropolis: bool): (a: bool)
    requires temp != 0.0
    ensures delta < 0 ==> a
    ensures delta == 0 ==> a
    ensures delta > 0 && temp > 0.0 ==> (a <==> metropolis)
    ensures delta > 0 && temp < 0.0 ==> a
  {
    delta <= 0 || temp < 0.0 || metropolis
  }

  /** The temperature after `n` coolings: `initial` multiplied `n` times by `rate`. */
  function Temperature(initial: real, rate: real, n: nat): real
  {
    if n == 0 then initial else Temperature(initial, rate, n - 1) * rate
  }

  /**
   * With a positive start and a rate strictly between 0 and 1, as the
   * program's defaults are, every cooling leaves the temperature positive
   * and strictly lower, never above the start.
   */
  lemma {:induction false} TemperatureDecreasing(initial: real, rate: real, n: nat)
    requires initial > 0.0 && 0.0 < rate < 1.0
    ensures 0.0 < Temperature(initial, rate, n + 1) < Temperature(initial, rate, n) <= initial
  {
    var t := Temperature(initial, rate, n);
    if n > 0 {
      TemperatureDecreasing(initial, rate, n - 1);
    }
    ScaleDown(t, rate, Temperature(initial, rate, n + 1));
  }

  /** Scaling a positive value by a rate strictly between 0 and 1 keeps it positive and makes it smaller. */
  lemma ScaleDown(t: real, rate: real, scaled: real)
    requires t > 0.0 && 0.0 < rate < 1.0 && scaled == t * rate
    ensures 0.0 < scaled < t
  {
    var rest := 1.0 - rate;
    var kept := t * rest;
    assert kept > 0.0 && scaled > 0.0;
    assert t == scaled + kept;
  }

  /** Multiplying the temperature after `n` coolings by the rate gives the one after `n + 1`. */
  lemma CoolOnce(initial: real, rate: real, n: nat, t: real)
    requires t == Temperature(initial, rate, n)
    ensures t * rate == Temperature(initial, rate, n + 1)
  {
  }

  /** A nonzero start and a nonzero rate never cool to exactly zero. */
  lemma {:induction false} TemperatureNonzero(initial: real, rate: real, n: nat)
    requires initial != 0.0 && rate != 0.0
    ensures Temperature(initial, rate, n) != 0.0
  {
    if n > 0 {
      TemperatureNonzero(initial, rate, n - 1);
    }
  }

  /** The draws of one annealing step: the neighbour move and the outcome of the Metropolis comparison. */
  datatype Step = Step(move: NeighborDraw, metropolis: bool)

  /** The search fails only by dividing by a zero temperature. */
  datatype AnnealError = ZeroTemperature

  /** The outcome of a search: the best schedule met and its cost. */
  datatype Outcome = Outcome(best: Schedule, cost: nat)

  /** The search's working state: the current schedule and the best met so far, with their costs. */
  datatype Search = Search(current: Schedule, currentCost: nat, best: Schedule, bestCost: nat)

  /**
   * The state holds schedules of all class ids, iterated in `order`, with
   * their true costs, and the best is no worse than the current.
   */
  ghost predicate Tracking(classes: seq<ClassInfo>, order: seq<int>, st: Search)
  {
    && st.current.Keys == Ids(classes) && st.best.Keys == Ids(classes)
    && KeyOrder(st.current, order)
    && st.currentCost == Cost(st.current, classes)
    && st.bestCost == Cost(st.best, classes)
    && st.bestCost <= st.currentCost
  }

  /** Every step's move fits the class list. */
  predicate StepsFit(classes: seq<ClassInfo>, steps: seq<Step>)
  {
    forall i :: 0 <= i < |steps| ==> NeighborDrawFits(classes, steps[i].move)
  }

  /** Best costs before each performed step and after the last, never increasing and positive before every step. */
  ghost predicate BestHistory(history: seq<nat>, iterations: nat, initial: nat)
  {
    && |history| == iterations + 1
    && history[0] == initial
    && (forall a, b :: 0 <= a <= b < |history| ==> history[b] <= history[a])
    && (forall j :: 0 <= j < iterations ==> history[j] > 0)
  }

  /** Recording a best cost no higher than the last, after a step taken with a positive best. */
  lemma HistoryStep(history: seq<nat>, iterations: nat, initial: nat, b: nat)
    requires BestHistory(history, iterations, initial)
    requires history[iterations] > 0 && b <= history[iterations]
    ensures BestHistory(history + [b], iterations + 1, initial)
  {
  }

  /**
   * The step the program takes from `st` with draws `step` at temperature
   * `temp`, when it does not fail: a strictly cheaper neighbour, or one the
   * acceptance rule takes, becomes the current schedule, and the best too
   * when it is strictly cheaper than the best; otherwise nothing changes.
   */
  ghost predicate Transition(classes: seq<ClassInfo>, st: Search, step: Step, temp: real, next: Search)
    requires NeighborDrawFits(classes, step.move)
  {
    var n := Neighbor(st.current, classes, step.move);
    var c := Cost(n, classes);
    if c < st.currentCost || (temp != 0.0 && Accepts(c - st.currentCost, temp, step.metropolis)) then
      && next.current == n && next.currentCost == c
      && if c < st.bestCost then next.best == n && next.bestCost == c
         else next.best == st.best && next.bestCost == st.bestCost
    else
      next == st
  }

  /** The step divides by a zero temperature: its neighbour is no cheaper and the temperature is 0. */
  ghost predicate Stalls(classes: seq<ClassInfo>, st: Search, step: Step, temp: real)
    requires NeighborDrawFits(classes, step.move)
  {
    temp == 0.0 && Cost(Neighbor(st.current, classes, step.move), classes) >= st.currentCost
  }

  /**
   * One iteration after the stop test: propose a neighbour, compute its
   * cost, accept it or not, and record it when strictly better than the
   * best. Dividing by a zero temperature fails, as the acceptance test does
   * whenever the neighbour is not strictly better.
   */
  method AnnealStep(classes: seq<ClassInfo>, order: seq<int>, st: Search, step: Step, temp: real)
    returns (r: Result<Search, AnnealError>)
    requires Tracking(classes, order, st) && NeighborDrawFits(classes, step.move)
    ensures r.Failure? <==> Stalls(classes, st, step, temp)
    ensures r.Success? ==> Transition(classes, st, step, temp, r.value)
    ensures r.Success? ==> Tracking(classes, order, r.value)
    ensures r.Success? ==> r.value.bestCost <= st.bestCost
    ensures r.Success? ==> r.value.bestCost < st.bestCost || r.value.best == st.best
  {
    NeighborKeepsKeys(st.current, classes, step.move);
    var neighbor := Neighbor(st.current, classes, step.move);
    var neighborCost := CalculateCost(neighbor, order, classes);
    var delta := neighborCost - st.currentCost;
    if delta >= 0 && temp == 0.0 {
      return Failure(ZeroTemperature);
    }
    var next := st;
    if delta < 0 || Accepts(delta, temp, step.metropolis) {
      next := next.(current := neighbor, currentCost := neighborCost);
      if neighborCost < st.bestCost {
        next := next.(best := neighbor, bestCost := neighborCost);
      }
    }
    return Success(next);
  }

  /** The starting state: the initial schedule as both current and best. */
  ghost function Start(classes: seq<ClassInfo>, initialDraws: seq<SlotDraw>): Search
    requires InitialDrawsFit(classes, initialDraws)
  {
    var start := InitialSchedule(classes, initialDraws);
    Search(start, Cost(start, classes), start, Cost(start, classes))
  }

  /**
   * `trace` is the sequence of states of a run: each state after the first
   * is the `Transition` of the one before under that iteration's draws and
   * temperature, and every step was taken with a positive best cost.
   */
  ghost predicate Replays(classes: seq<ClassInfo>, steps: seq<Step>, initialTemp: real, coolingRate: real,
                          trace: seq<Search>)
  {
    && 1 <= |trace| <= |steps| + 1
    && forall j :: 0 <= j < |trace| - 1 ==>
         && NeighborDrawFits(classes, steps[j].move)
         && trace[j].bestCost > 0
         && Transition(classes, trace[j], steps[j], Temperature(initialTemp, coolingRate, j), trace[j + 1])
  }

  /** Recording the next iteration's transition extends the replay. */
  lemma ReplaysStep(classes: seq<ClassInfo>, steps: seq<Step>, initialTemp: real, coolingRate: real,
                    trace: seq<Search>, next: Search)
    requires Replays(classes, steps, initialTemp, coolingRate, trace) && |trace| <= |steps|
    requires NeighborDrawFits(classes, steps[|trace| - 1].move)
    requires trace[|trace| - 1].bestCost > 0
    requires Transition(classes, trace[|trace| - 1], steps[|trace| - 1],
                        Temperature(initialTemp, coolingRate, |trace| - 1), next)
    ensures Replays(classes, steps, initialTemp, coolingRate, trace + [next])
  {
    var trace' := trace + [next];
    forall j | 0 <= j < |trace'| - 1
      ensures NeighborDrawFits(classes, steps[j].move) && trace'[j].bestCost > 0
      ensures Transition(classes, trace'[j], steps[j], Temperature(initialTemp, coolingRate, j), trace'[j + 1])
    {
      assert trace'[j] == trace[j];
      if j + 1 < |trace| {
        assert trace'[j + 1] == trace[j + 1];
      }
    }
  }

  /**
   * Simulated annealing with at most `|steps|` iterations. Each iteration
   * first stops when the best cost is 0, then takes one step and cools the
   * temperature by `coolingRate`.
   */
  method Anneal(classes: seq<ClassInfo>, initialDraws: seq<SlotDraw>, steps: seq<Step>,
                initialTemp: real, coolingRate: real)
    returns (r: Result<Outcome, AnnealError>, iterations: nat, ghost trace: seq<Search>,
             ghost history: seq<nat>, ghost temp: real)
    requires InitialDrawsFit(classes, initialDraws)
    requires classes != [] ==> StepsFit(classes, steps)
    ensures iterations <= |steps|
    ensures initialTemp != 0.0 && coolingRate != 0.0 ==> r.Success?
    ensures r.Failure? ==> initialTemp == 0.0 || coolingRate == 0.0
    ensures r.Success? ==> r.value.best.Keys == Ids(classes)
    ensures r.Success? ==> r.value.cost == Cost(r.value.best, classes)
    ensures r.Success? ==> r.value.cost <= Cost(InitialSchedule(classes, initialDraws), classes)
    ensures r.Success? ==> iterations < |steps| ==> r.value.cost == 0
    ensures r.Success? ==> BestHistory(history, iterations, Cost(InitialSchedule(classes, initialDraws), classes))
    ensures r.Success? ==> history[iterations] == r.value.cost
    ensures r.Success? ==> temp == Temperature(initialTemp, coolingRate, iterations)
    ensures Replays(classes, steps, initialTemp, coolingRate, trace)
    ensures trace[0] == Start(classes, initialDraws) && |trace| == iterations + 1
    ensures r.Success? ==> r.value == Outcome(trace[iterations].best, trace[iterations].bestCost)
    ensures r.Failure? ==>
      && iterations < |steps| && classes != [] && trace[iterations].bestCost > 0
      && Stalls(classes, trace[iterations], steps[iterations], Temperature(initialTemp, coolingRate, iterations))
  {
    var start := InitialSchedule(classes, initialDraws);
    var order := IdOrder(classes);
    var startCost := CalculateCost(start, order, classes);
    var st := Search(start, startCost, start, startCost);
    var t := initialTemp;
    trace := [st];
    history := [startCost];
    iterations := 0;
    while iterations < |steps|
      invariant Annealing(classes, order, initialDraws, steps, initialTemp, coolingRate, iterations, st, t, trace, history)
    {
      if st.bestCost == 0 {
        break;
      }
      if classes == [] {
        EmptyScheduleCostsNothing(st.best, classes);
        assert false;
      }
      var next := AnnealStep(classes, order, st, steps[iterations], t);
      if next.Failure? {
        if initialTemp != 0.0 && coolingRate != 0.0 {
          TemperatureNonzero(initialTemp, coolingRate, iterations);
        }
        r, temp := Failure(ZeroTemperature), t;
        return;
      }
      AnnealingStep(classes, order, initialDraws, steps, initialTemp, coolingRate, iterations, st, t, trace, history, next.value);
      st := next.value;
      trace := trace + [st];
      history := history + [st.bestCost];
      t := t * coolingRate;
      iterations := iterations + 1;
    }
    r, temp := Success(Outcome(st.best, st.bestCost)), t;
  }

  /**
   * The state of `Anneal` after `iterations` steps: `st` is the last state
   * of the replayed `trace`, `history` its best costs, and `t` the
   * temperature after as many coolings.
   */
  ghost predicate Annealing(classes: seq<ClassInfo>, order: seq<int>, initialDraws: seq<SlotDraw>, steps: seq<Step>,
                            initialTemp: real, coolingRate: real, iterations: nat,
                            st: Search, t: real, trace: seq<Search>, history: seq<nat>)
    requires InitialDrawsFit(classes, initialDraws)
  {
    && iterations <= |steps|
    && Tracking(classes, order, st)
    && BestHistory(history, iterations, Start(classes, initialDraws).bestCost)
    && history[iterations] == st.bestCost
    && t == Temperature(initialTemp, coolingRate, iterations)
    && Replays(classes, steps, initialTemp, coolingRate, trace)
    && trace[0] == Start(classes, initialDraws) && |trace| == iterations + 1 && trace[iterations] == st
  }

  /** A successful step taken with a positive best cost, followed by a cooling, keeps `Annealing`. */
  lemma AnnealingStep(classes: seq<ClassInfo>, order: seq<int>, initialDraws: seq<SlotDraw>, steps: seq<Step>,
                      initialTemp: real, coolingRate: real, iterations: nat,
                      st: Search, t: real, trace: seq<Search>, history: seq<nat>, next: Search)
    requires InitialDrawsFit(classes, initialDraws)
    requires Annealing(classes, order, initialDraws, steps, initialTemp, coolingRate, iterations, st, t, trace, history)
    requires iterations < |steps| && st.bestCost > 0 && NeighborDrawFits(classes, steps[iterations].move)
    requires Transition(classes, st, steps[iterations], t, next)
    requires Tracking(classes, order, next) && next.bestCost <= st.bestCost
    ensures Annealing(classes, order, initialDraws, steps, initialTemp, coolingRate, iterations + 1,
                      next, t * coolingRate, trace + [next], history + [next.bestCost])
  {
    HistoryStep(history, iterations, Start(classes, initialDraws).bestCost, next.bestCost);
    ReplaysStep(classes, steps, initialTemp, coolingRate, trace, next);
    CoolOnce(initialTemp, coolingRate, iterations, t);
    assert (trace + [next])[0] == trace[0];
  }

  /** A schedule with no ids costs nothing. */
  lemma EmptyScheduleCostsNothing(sch: Schedule, classes: seq<ClassInfo>)
    requires sch.Keys == Ids(classes) && classes == []
    ensures Cost(sch, classes) == 0
  {
    assert Occupied(sch) == {};
    CostBound(sch, classes);
  }

  /** One row of the final timetable: a class, its slot and its room number within that slot. */
  datatype Placement = Placement(info: ClassInfo, slot: Slot, room: nat)

  /** The classes whose id the schedule holds, in class-list order. */
  function Scheduled(classes: seq<ClassInfo>, sch: Schedule): (r: seq<ClassInfo>)
    ensures forall k :: 0 <= k < |r| ==> r[k].id in sch
    decreases |classes|
  {
    if |classes| == 0 then []
    else
      var n := |classes| - 1;
      Scheduled(classes[..n], sch) + (if classes[n].id in sch then [classes[n]] else [])
  }

  /** Scanning one more class appends it when the schedule holds its id. */
  lemma ScheduledStep(classes: seq<ClassInfo>, sch: Schedule, n: nat)
    requires n < |classes|
    ensures Scheduled(classes[..n + 1], sch)
      == Scheduled(classes[..n], sch) + (if classes[n].id in sch then [classes[n]] else [])
  {
    assert classes[..n + 1][..n] == classes[..n];
  }

  /** Number of rows placed in slot `s`. */
  function InSlot(rows: seq<Placement>, s: Slot): nat
  {
    if |rows| == 0 then 0
    else InSlot(rows[..|rows| - 1], s) + (if rows[|rows| - 1].slot == s then 1 else 0)
  }

  /** Every row's room is one more than the number of earlier rows in its slot. */
  predicate Numbered(rows: seq<Placement>)
  {
    forall k :: 0 <= k < |rows| ==> rows[k].room == 1 + InSlot(rows[..k], rows[k].slot)
  }

  /** `used` holds, for every slot with rows, how many rows it has. */
  ghost predicate Counts(rows: seq<Placement>, used: map<Slot, nat>)
  {
    forall s :: InSlot(rows, s) == (if s in used then used[s] else 0)
  }

  /** Appending a row numbered after the rows of its slot keeps the numbering and the counts. */
  lemma NumberedAppend(rows: seq<Placement>, p: Placement, used: map<Slot, nat>)
    requires Numbered(rows) && Counts(rows, used)
    requires p.room == 1 + InSlot(rows, p.slot)
    ensures Numbered(rows + [p])
    ensures Counts(rows + [p], used[p.slot := p.room])
  {
    var rows' := rows + [p];
    assert rows'[..|rows|] == rows;
    forall k | 0 <= k < |rows'|
      ensures rows'[k].room == 1 + InSlot(rows'[..k], rows'[k].slot)
    {
      if k < |rows| {
        assert rows'[..k] == rows[..k];
      }
    }
  }

  /** Row `k` places the `k`-th class of `placed` in the slot the schedule gives its id. */
  predicate RowsFollow(rows: seq<Placement>, placed: seq<ClassInfo>, sch: Schedule)
  {
    && |rows| == |placed|
    && forall k :: 0 <= k < |rows| ==>
         rows[k].info == placed[k] && placed[k].id in sch && rows[k].slot == sch[placed[k].id]
  }

  /** Placing one more scheduled class in its slot keeps `RowsFollow`. */
  lemma FollowAppend(rows: seq<Placement>, placed: seq<ClassInfo>, sch: Schedule, p: Placement)
    requires RowsFollow(rows, placed, sch) && p.info.id in sch && p.slot == sch[p.info.id]
    ensures RowsFollow(rows + [p], placed + [p.info], sch)
  {
  }

  /**
   * The room-numbering pass: walk the classes in order, skip those the
   * schedule does not hold, and give each the next room number of its
   * slot, starting at 1.
   */
  method AssignRooms(classes: seq<ClassInfo>, sch: Schedule) returns (rows: seq<Placement>)
    ensures RowsFollow(rows, Scheduled(classes, sch), sch)
    ensures Numbered(rows)
  {
    rows := [];
    var used: map<Slot, nat> := map[];
    for n := 0 to |classes|
      invariant RowsFollow(rows, Scheduled(classes[..n], sch), sch)
      invariant Numbered(rows)
      invariant Counts(rows, used)
    {
      ScheduledStep(classes, sch, n);
      var c := classes[n];
      if c.id in sch {
        var s := sch[c.id];
        var room := if s in used then used[s] + 1 else 1;
        var p := Placement(c, s, room);
        NumberedAppend(rows, p, used);
        FollowAppend(rows, Scheduled(classes[..n], sch), sch, p);
        used := used[s := room];
        rows := rows + [p];
      }
    }
    assert classes[..|classes|] == classes;
  }

  /** Counting the rows of a slot over a longer prefix never gives less. */
  lemma {:induction false} InSlotPrefix(rows: seq<Placement>, i: nat, j: nat, s: Slot)
    requires i <= j <= |rows|
    ensures InSlot(rows[..i], s) <= InSlot(rows[..j], s)
    decreases j - i
  {
    if i < j {
      InSlotPrefix(rows, i, j - 1, s);
      assert rows[..j][..j - 1] == rows[..j - 1];
    }
  }

  /** Two rows in one slot get different rooms: the later one a higher number. */
  lemma RoomsDistinctInSlot(rows: seq<Placement>, a: nat, b: nat)
    requires Numbered(rows) && a < b < |rows| && rows[a].slot == rows[b].slot
    ensures rows[a].room < rows[b].room
  {
    InSlotPrefix(rows, a + 1, b, rows[a].slot);
    assert rows[..a + 1][..a] == rows[..a];
  }
}
