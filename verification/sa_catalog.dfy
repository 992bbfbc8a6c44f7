/**
 * The annealing search's view of the domain: the session table reduced to
 * a (day, session) -> slot-type map, class records as they arrive (any
 * field may be missing), the validation filter that keeps complete records
 * and fills in missing allowed sessions, and class lookup by id.
 */
module SaCatalog {
  import opened Wrappers
  import opened Duplicates

  /** The five teaching days, in week order. */
  const Days: seq<string> := ["Senin", "Selasa", "Rabu", "Kamis", "Jumat"]

  /** One row of the session table; `kind` is the slot type (the credit weight it suits). */
  datatype SessionRec = SessionRec(day: string, session: int, kind: int)

  /** A (day, session) pair: the slot a class is scheduled in. */
  datatype Slot = Slot(day: string, session: int)

  /** A class record as read: `None` is a missing field. */
  datatype RawClass = RawClass(
    id: Option<int>, code: Option<string>, name: Option<string>, parallel: Option<string>,
    sks: Option<int>, lecturers: Option<seq<string>>, allowedSessions: Option<seq<int>>)

  /** A class that passed validation, with a non-empty allowed-session list. */
  datatype ClassInfo = ClassInfo(
    id: int, code: string, name: string, parallel: string,
    sks: int, lecturers: seq<string>, allowedSessions: seq<int>)

  /**
   * The slot type of every (day, session) in the table. A pair listed more
   * than once takes the type of its last row.
   */
  function SessionKinds(sessions: seq<SessionRec>): map<Slot, int>
  {
    if |sessions| == 0 then map[]
    else
      var n := |sessions| - 1;
      SessionKinds(sessions[..n])[Slot(sessions[n].day, sessions[n].session) := sessions[n].kind]
  }

  /** The map holds every listed pair, with the type of the last row listing it. */
  lemma {:induction false} SessionKindsLastWins(sessions: seq<SessionRec>, i: nat)
    requires i < |sessions|
    requires forall j :: i < j < |sessions| ==>
      Slot(sessions[j].day, sessions[j].session) != Slot(sessions[i].day, sessions[i].session)
    ensures Slot(sessions[i].day, sessions[i].session) in SessionKinds(sessions)
    ensures SessionKinds(sessions)[Slot(sessions[i].day, sessions[i].session)] == sessions[i].kind
    decreases |sessions|
  {
    var n := |sessions| - 1;
    if i < n {
      SessionKindsLastWins(sessions[..n], i);
    }
  }

  /** Nothing but listed pairs is in the map. */
  lemma {:induction false} SessionKindsKeys(sessions: seq<SessionRec>)
    ensures forall s :: s in SessionKinds(sessions) ==>
      exists j :: 0 <= j < |sessions| && s == Slot(sessions[j].day, sessions[j].session)
    decreases |sessions|
  {
    if |sessions| > 0 {
      var n := |sessions| - 1;
      SessionKindsKeys(sessions[..n]);
      forall s | s in SessionKinds(sessions)
        ensures exists j :: 0 <= j < |sessions| && s == Slot(sessions[j].day, sessions[j].session)
      {
        if s != Slot(sessions[n].day, sessions[n].session) {
          assert s in SessionKinds(sessions[..n]);
          var j :| 0 <= j < n && s == Slot(sessions[..n][j].day, sessions[..n][j].session);
          assert sessions[j] == sessions[..n][j];
        }
      }
    }
  }

  predicate StrictlyIncreasing(xs: seq<int>)
  {
    forall a, b :: 0 <= a < b < |xs| ==> xs[a] < xs[b]
  }

  /** `v` placed into a strictly increasing list, unless already there. */
  function Insert(sorted: seq<int>, v: int): (r: seq<int>)
    requires StrictlyIncreasing(sorted)
    ensures StrictlyIncreasing(r)
    ensures Elements(r) == Elements(sorted) + {v}
  {
    if |sorted| == 0 then [v]
    else if v < sorted[0] then
      BelowIncreasing(v, sorted);
      ElementsCons(v, sorted);
      [v] + sorted
    else if v == sorted[0] then sorted
    else
      var tail := sorted[1..];
      TailIncreasing(sorted);
      var rest := Insert(tail, v);
      BelowIncreasing(sorted[0], rest);
      ElementsCons(sorted[0], rest);
      ElementsCons(sorted[0], tail);
      [sorted[0]] + rest
  }

  /** The tail of a strictly increasing list is strictly increasing and lies above its head. */
  lemma TailIncreasing(xs: seq<int>)
    requires StrictlyIncreasing(xs) && |xs| > 0
    ensures StrictlyIncreasing(xs[1..])
    ensures forall y :: y in Elements(xs[1..]) ==> xs[0] < y
    ensures xs == [xs[0]] + xs[1..]
  {
    var tail := xs[1..];
    forall y | y in Elements(tail)
      ensures xs[0] < y
    {
      var a :| 0 <= a < |tail| && tail[a] == y;
      assert xs[a + 1] == y;
    }
  }

  lemma ElementsCons(x: int, ys: seq<int>)
    ensures Elements([x] + ys) == {x} + Elements(ys)
  {
    assert forall a :: 0 <= a < |ys| ==> ([x] + ys)[a + 1] == ys[a];
  }

  /** A value below every member of a strictly increasing list can go in front of it. */
  lemma BelowIncreasing(v: int, xs: seq<int>)
    requires StrictlyIncreasing(xs)
    requires forall y :: y in Elements(xs) ==> v < y
    ensures StrictlyIncreasing([v] + xs)
  {
    assert forall a :: 0 <= a < |xs| ==> xs[a] in Elements(xs);
  }

  /** The values of `xs` in increasing order, each once, as `sorted(set(xs))` gives them. */
  function SortUnique(xs: seq<int>): (r: seq<int>)
    ensures StrictlyIncreasing(r)
    ensures Elements(r) == Elements(xs)
  {
    if |xs| == 0 then []
    else
      var n := |xs| - 1;
      assert Elements(xs) == Elements(xs[..n]) + {xs[n]};
      Insert(SortUnique(xs[..n]), xs[n])
  }

  /** A strictly increasing list has no repeats, so its length is its number of distinct values. */
  lemma IncreasingIsDistinct(xs: seq<int>)
    requires StrictlyIncreasing(xs)
    ensures |Elements(xs)| == |xs|
  {
    DistinctIffFullCount(xs);
  }

  /** The session label of each row whose (day, session) has type `sks` in `kinds`, in row order. */
  function LabelsOfKind(rows: seq<SessionRec>, kinds: map<Slot, int>, sks: int): seq<int>
  {
    if |rows| == 0 then []
    else
      var n := |rows| - 1;
      var slot := Slot(rows[n].day, rows[n].session);
      LabelsOfKind(rows[..n], kinds, sks) + (if slot in kinds && kinds[slot] == sks then [rows[n].session] else [])
  }

  /** The session labels of every (day, session) whose slot type equals `sks`. */
  function SessionsOfKind(kinds: map<Slot, int>, sks: int): set<int>
  {
    set s | s in kinds && kinds[s] == sks :: s.session
  }

  /** Walking the rows finds exactly the labels the type map assigns to `sks`. */
  lemma {:induction false} LabelsOfKindAreSessionsOfKind(sessions: seq<SessionRec>, sks: int)
    ensures Elements(LabelsOfKind(sessions, SessionKinds(sessions), sks)) == SessionsOfKind(SessionKinds(sessions), sks)
  {
    var kinds := SessionKinds(sessions);
    var labels := LabelsOfKind(sessions, kinds, sks);
    SessionKindsKeys(sessions);
    LabelsOfKindMembers(sessions, kinds, sks);
    forall v | v in SessionsOfKind(kinds, sks)
      ensures v in Elements(labels)
    {
      var s :| s in kinds && kinds[s] == sks && s.session == v;
      var j :| 0 <= j < |sessions| && s == Slot(sessions[j].day, sessions[j].session);
      assert v in labels;
    }
    forall v | v in Elements(labels)
      ensures v in SessionsOfKind(kinds, sks)
    {
      assert v in labels;
      var j :| 0 <= j < |sessions| && Slot(sessions[j].day, sessions[j].session) in kinds
        && kinds[Slot(sessions[j].day, sessions[j].session)] == sks && sessions[j].session == v;
      var s := Slot(sessions[j].day, sessions[j].session);
      assert s in kinds && kinds[s] == sks && s.session == v;
    }
  }

  /** Every row's (day, session) is a key of the type map. */
  lemma {:induction false} RowsInKinds(sessions: seq<SessionRec>)
    ensures forall j :: 0 <= j < |sessions| ==> Slot(sessions[j].day, sessions[j].session) in SessionKinds(sessions)
    decreases |sessions|
  {
    if |sessions| > 0 {
      var n := |sessions| - 1;
      RowsInKinds(sessions[..n]);
      assert forall j :: 0 <= j < n ==> sessions[..n][j] == sessions[j];
    }
  }

  lemma {:induction false} LabelsOfKindMembers(rows: seq<SessionRec>, kinds: map<Slot, int>, sks: int)
    ensures forall v :: v in LabelsOfKind(rows, kinds, sks) <==>
      exists j :: 0 <= j < |rows| && Slot(rows[j].day, rows[j].session) in kinds
        && kinds[Slot(rows[j].day, rows[j].session)] == sks && rows[j].session == v
    decreases |rows|
  {
    if |rows| > 0 {
      var n := |rows| - 1;
      LabelsOfKindMembers(rows[..n], kinds, sks);
      assert forall j :: 0 <= j < n ==> rows[..n][j] == rows[j];
    }
  }

  /** The record has every field the search needs. */
  predicate Complete(raw: RawClass)
  {
    raw.id.Some? && raw.code.Some? && raw.name.Some? && raw.parallel.Some? && raw.sks.Some? && raw.lecturers.Some?
  }

  /** The record brings its own non-empty allowed-session list. */
  predicate HasOwnSessions(raw: RawClass)
  {
    raw.allowedSessions.Some? && |raw.allowedSessions.value| > 0
  }

  /**
   * Validation of one record against the session table: drop an incomplete
   * record; fill a missing or empty allowed-session list with the sorted,
   * duplicate-free session labels whose slot type equals the record's
   * credit weight; drop the record if the list is still empty.
   */
  function Validate(raw: RawClass, sessions: seq<SessionRec>): (r: Option<ClassInfo>)
    ensures r.Some? ==> |r.value.allowedSessions| > 0
  {
    if !Complete(raw) then None
    else
      var allowed :=
        if HasOwnSessions(raw) then raw.allowedSessions.value
        else SortUnique(LabelsOfKind(sessions, SessionKinds(sessions), raw.sks.value));
      if |allowed| == 0 then None
      else Some(ClassInfo(raw.id.value, raw.code.value, raw.name.value, raw.parallel.value,
                          raw.sks.value, raw.lecturers.value, allowed))
  }

  /**
   * A record is kept exactly when it is complete and either brings its own
   * sessions or some slot type matches its credit weight; a kept record
   * keeps its fields, and a filled-in list is sorted, duplicate-free and
   * lists exactly the matching session labels.
   */
  lemma ValidateSpec(raw: RawClass, sessions: seq<SessionRec>)
    ensures var r := Validate(raw, sessions);
      r.Some? <==> Complete(raw) && (HasOwnSessions(raw) || SessionsOfKind(SessionKinds(sessions), raw.sks.value) != {})
    ensures var r := Validate(raw, sessions);
      r.Some? ==>
      && r.value.id == raw.id.value && r.value.code == raw.code.value && r.value.name == raw.name.value
      && r.value.parallel == raw.parallel.value && r.value.sks == raw.sks.value
      && r.value.lecturers == raw.lecturers.value
    ensures var r := Validate(raw, sessions);
      r.Some? && HasOwnSessions(raw) ==> r.value.allowedSessions == raw.allowedSessions.value
    ensures var r := Validate(raw, sessions);
      r.Some? && !HasOwnSessions(raw) ==>
      && Elements(r.value.allowedSessions) == SessionsOfKind(SessionKinds(sessions), raw.sks.value)
      && StrictlyIncreasing(r.value.allowedSessions)
      && |r.value.allowedSessions| == |SessionsOfKind(SessionKinds(sessions), raw.sks.value)|
  {
    if Complete(raw) {
      var filled := SortUnique(LabelsOfKind(sessions, SessionKinds(sessions), raw.sks.value));
      LabelsOfKindAreSessionsOfKind(sessions, raw.sks.value);
      IncreasingIsDistinct(filled);
    }
  }

  /** The validated records, in input order. */
  function FilterClasses(raws: seq<RawClass>, sessions: seq<SessionRec>): (r: seq<ClassInfo>)
    ensures |r| <= |raws|
    ensures forall c :: c in r ==> |c.allowedSessions| > 0
  {
    if |raws| == 0 then []
    else
      var n := |raws| - 1;
      FilterClasses(raws[..n], sessions) + Kept(raws[n], sessions)
  }

  /** What one record contributes to the filtered list: its validated class, or nothing. */
  function Kept(raw: RawClass, sessions: seq<SessionRec>): (r: seq<ClassInfo>)
    ensures |r| <= 1
    ensures forall c :: c in r <==> Validate(raw, sessions) == Some(c)
  {
    match Validate(raw, sessions)
    case None => []
    case Some(c) => [c]
  }

  /** Filtering distributes over concatenation, so the kept records stay in input order. */
  lemma {:induction false} FilterConcat(a: seq<RawClass>, b: seq<RawClass>, sessions: seq<SessionRec>)
    ensures FilterClasses(a + b, sessions) == FilterClasses(a, sessions) + FilterClasses(b, sessions)
    decreases |b|
  {
    if |b| > 0 {
      var n := |b| - 1;
      assert (a + b)[..|a| + n] == a + b[..n];
      FilterConcat(a, b[..n], sessions);
    } else {
      assert a + b == a;
    }
  }

  /** A class is kept exactly when some record validates to it. */
  lemma {:induction false} FilterMembers(raws: seq<RawClass>, sessions: seq<SessionRec>, c: ClassInfo)
    ensures c in FilterClasses(raws, sessions) <==>
      exists i :: 0 <= i < |raws| && Validate(raws[i], sessions) == Some(c)
    decreases |raws|
  {
    if |raws| > 0 {
      var n := |raws| - 1;
      var prefix := raws[..n];
      FilterMembers(prefix, sessions, c);
      assert c in FilterClasses(raws, sessions) <==>
        c in FilterClasses(prefix, sessions) || c in Kept(raws[n], sessions);
      if c in FilterClasses(prefix, sessions) {
        var i :| 0 <= i < n && Validate(prefix[i], sessions) == Some(c);
        assert raws[i] == prefix[i];
      } else if Validate(raws[n], sessions) != Some(c) {
        forall i | 0 <= i < |raws|
          ensures Validate(raws[i], sessions) != Some(c)
        {
          if i < n {
            assert raws[i] == prefix[i];
            assert Validate(prefix[i], sessions) != Some(c);
          } else {
            assert i == n;
          }
        }
      }
    }
  }

  /** Position `i` is the first in `classes` whose id is `id`. */
  predicate FirstWithId(classes: seq<ClassInfo>, id: int, i: nat)
  {
    i < |classes| && classes[i].id == id && forall j :: 0 <= j < i ==> classes[j].id != id
  }

  /** The first class carrying `id`, if any. */
  function FindClass(classes: seq<ClassInfo>, id: int): (r: Option<ClassInfo>)
    ensures r.None? <==> forall i :: 0 <= i < |classes| ==> classes[i].id != id
    ensures r.Some? ==> r.value.id == id
    ensures r.Some? ==> exists i :: 0 <= i < |classes| && classes[i] == r.value && FirstWithId(classes, id, i)
  {
    if |classes| == 0 then None
    else if classes[0].id == id then Some(classes[0])
    else
      var r := FindClass(classes[1..], id);
      assert forall i :: 1 <= i < |classes| ==> classes[i] == classes[1..][i - 1];
      r
  }

  /** The ids of the classes, as a set. */
  function Ids(classes: seq<ClassInfo>): set<int>
  {
    set c | c in classes :: c.id
  }
}
