/**
 * The canonical timetable of apps/api/prisma/seed.ts: the greedy allocation of teachers to periods
 * and the independent conflict check made on its result.
 */
module Timetable {
  import opened Foundations

  type TeacherId = nat

  /** A subject, with the key of the teacher pool its name falls into. */
  datatype Subject = Subject(id: nat, poolKey: string)

  /** A class section in the order the seed visits them; `offset` is 0 for section A, else 1. */
  datatype Section = Section(id: nat, roomId: nat, grade: nat, offset: nat, subjects: seq<Subject>,
                             classTeacher: Option<TeacherId>)

  type Pools = map<string, seq<TeacherId>>

  datatype Job = Job(section: Section, day: nat, period: nat)

  datatype Slot = Slot(sectionId: nat, roomId: nat, teacher: TeacherId, subject: Subject, day: nat, period: nat)

  datatype Failure =
    | MissingClassTeacher
    | MissingPeriod
    | MissingPool
    | NoAvailableTeacher
    | TeacherConflict
    | RoomConflict

  datatype Result<+T> = Ok(value: T) | Err(failure: Failure)

  const SCHOOL_DAYS := 5
  const PERIODS := 8

  // ---- The allocation of one period ----

  function Rotation(period: nat, day: nat, grade: nat, n: nat): nat
    requires n > 0
  {
    (period + day + grade) % n
  }

  predicate WellFormed(job: Job) {
    job.period < |job.section.subjects|
  }

  function SubjectOf(job: Job): Subject
    requires WellFormed(job)
  {
    job.section.subjects[Rotation(job.period, job.day, job.section.grade, |job.section.subjects|)]
  }

  type Busy = set<(nat, nat, nat)>

  function Around(pool: seq<TeacherId>, start: nat, offset: nat): TeacherId
    requires pool != []
  {
    pool[(start + offset) % |pool|]
  }

  /** The first free teacher of the pool, scanning from its `start` position around. */
  function FirstFree(pool: seq<TeacherId>, start: nat, offset: nat, busy: Busy, day: nat,
                     period: nat): Option<TeacherId>
    requires offset <= |pool|
    decreases |pool| - offset
  {
    if offset == |pool| then None
    else
      var teacher := Around(pool, start, offset);
      if (teacher, day, period) !in busy then Some(teacher) else FirstFree(pool, start, offset + 1, busy, day, period)
  }

  function TeacherFor(pools: Pools, busy: Busy, job: Job): Result<TeacherId>
    requires WellFormed(job)
  {
    if job.period >= PERIODS then Err(MissingPeriod)
    else if job.period == 0 then
      if job.section.classTeacher.None? then Err(MissingClassTeacher) else Ok(job.section.classTeacher.value)
    else
      var key := SubjectOf(job).poolKey;
      if key !in pools || pools[key] == [] then Err(MissingPool)
      else
        var found := FirstFree(pools[key], job.section.grade + job.section.offset, 0, busy, job.day, job.period);
        if found.Some? then Ok(found.value) else Err(NoAvailableTeacher)
  }

  function TeachersBusy(slots: seq<Slot>): Busy {
    set s | s in slots :: (s.teacher, s.day, s.period)
  }

  function RoomsBusy(slots: seq<Slot>): Busy {
    set s | s in slots :: (s.roomId, s.day, s.period)
  }

  function Allocate(pools: Pools, slots: seq<Slot>, job: Job): Result<Slot>
    requires WellFormed(job)
  {
    var teacher := TeacherFor(pools, TeachersBusy(slots), job);
    if teacher.Err? then Err(teacher.failure)
    else if (teacher.value, job.day, job.period) in TeachersBusy(slots) then Err(TeacherConflict)
    else if (job.section.roomId, job.day, job.period) in RoomsBusy(slots) then Err(RoomConflict)
    else Ok(Slot(job.section.id, job.section.roomId, teacher.value, SubjectOf(job), job.day, job.period))
  }

  ghost predicate AllWellFormed(jobs: seq<Job>) {
    forall i :: 0 <= i < |jobs| ==> WellFormed(jobs[i])
  }

  /** The jobs allocated one after the other, until one fails. */
  function Schedule(pools: Pools, jobs: seq<Job>): Result<seq<Slot>>
    requires AllWellFormed(jobs)
  {
    if jobs == [] then Ok([])
    else
      var earlier := Schedule(pools, jobs[..|jobs| - 1]);
      if earlier.Err? then earlier
      else
        var slot := Allocate(pools, earlier.value, jobs[|jobs| - 1]);
        if slot.Err? then Err(slot.failure) else Ok(earlier.value + [slot.value])
  }

  // ---- The visiting order ----

  function PeriodJobs(section: Section, day: nat, periods: nat): seq<Job> {
    seq(periods, p requires 0 <= p < periods => Job(section, day, p))
  }

  function DayJobs(section: Section, days: nat): seq<Job> {
    if days == 0 then [] else DayJobs(section, days - 1) + PeriodJobs(section, days, |section.subjects|)
  }

  function Jobs(plan: seq<Section>): seq<Job> {
    if plan == [] then [] else Jobs(plan[..|plan| - 1]) + DayJobs(plan[|plan| - 1], SCHOOL_DAYS)
  }

  lemma {:induction false} DayJobsAreExactly(section: Section, days: nat)
    ensures AllWellFormed(DayJobs(section, days))
    ensures forall j :: j in DayJobs(section, days) <==> j.section == section && 1 <= j.day <= days && WellFormed(j)
    ensures forall i, k :: 0 <= i < k < |DayJobs(section, days)| ==>
      DayJobs(section, days)[i] != DayJobs(section, days)[k]
  {
    if days > 0 {
      DayJobsAreExactly(section, days - 1);
      var today := PeriodJobs(section, days, |section.subjects|);
      forall j ensures j in today <==> j.section == section && j.day == days && WellFormed(j) {
        if j.section == section && j.day == days && WellFormed(j) { assert today[j.period] == j; }
      }
    }
  }

  lemma {:induction false} JobsAreExactly(plan: seq<Section>)
    ensures AllWellFormed(Jobs(plan))
    ensures forall j :: j in Jobs(plan) <==> j.section in plan && 1 <= j.day <= 5 && WellFormed(j)
  {
    if plan != [] {
      JobsAreExactly(plan[..|plan| - 1]);
      DayJobsAreExactly(plan[|plan| - 1], SCHOOL_DAYS);
      assert plan == plan[..|plan| - 1] + [plan[|plan| - 1]];
    }
  }

  predicate DistinctSections(plan: seq<Section>) {
    forall i, k :: 0 <= i < k < |plan| ==> plan[i].id != plan[k].id
  }

  /** No two jobs are for the same section, day and period. */
  lemma {:induction false} JobsAreDistinct(plan: seq<Section>)
    requires DistinctSections(plan)
    ensures forall i, k :: 0 <= i < k < |Jobs(plan)| ==>
      (Jobs(plan)[i].section.id, Jobs(plan)[i].day, Jobs(plan)[i].period)
      != (Jobs(plan)[k].section.id, Jobs(plan)[k].day, Jobs(plan)[k].period)
  {
    if plan != [] {
      var front, last := plan[..|plan| - 1], plan[|plan| - 1];
      JobsAreDistinct(front);
      JobsAreExactly(front);
      DayJobsAreExactly(last, SCHOOL_DAYS);
      var before, added := Jobs(front), DayJobs(last, SCHOOL_DAYS);
      forall i, k | 0 <= i < k < |Jobs(plan)|
        ensures (Jobs(plan)[i].section.id, Jobs(plan)[i].day, Jobs(plan)[i].period)
             != (Jobs(plan)[k].section.id, Jobs(plan)[k].day, Jobs(plan)[k].period)
      {
        if i < |before| <= k {
          assert before[i] in before && added[k - |before|] in added;
        } else if |before| <= i {
          assert added[i - |before|] in added && added[k - |before|] in added;
        }
      }
    }
  }

  // ---- Safety: what a finished schedule looks like ----

  /** Slot i is the answer to job i. */
  predicate Answers(slot: Slot, job: Job)
    requires WellFormed(job)
  {
    && slot.sectionId == job.section.id && slot.roomId == job.section.roomId
    && slot.day == job.day && slot.period == job.period && slot.subject == SubjectOf(job)
  }

  /** No teacher and no room is booked twice. */
  ghost predicate NoDoubleBooking(slots: seq<Slot>) {
    forall i, k :: 0 <= i < k < |slots| && slots[i].day == slots[k].day && slots[i].period == slots[k].period ==>
      slots[i].teacher != slots[k].teacher && slots[i].roomId != slots[k].roomId
  }

  lemma BookedIsBusy(slots: seq<Slot>)
    ensures forall i :: 0 <= i < |slots| ==> (slots[i].teacher, slots[i].day, slots[i].period) in TeachersBusy(slots)
    ensures forall i :: 0 <= i < |slots| ==> (slots[i].roomId, slots[i].day, slots[i].period) in RoomsBusy(slots)
  {
  }

  lemma AllocationIsSafe(pools: Pools, earlier: seq<Slot>, job: Job)
    requires WellFormed(job) && NoDoubleBooking(earlier) && Allocate(pools, earlier, job).Ok?
    ensures Answers(Allocate(pools, earlier, job).value, job)
    ensures NoDoubleBooking(earlier + [Allocate(pools, earlier, job).value])
  {
    hide TeacherFor, SubjectOf, TeachersBusy, RoomsBusy;
    BookedIsBusy(earlier);
  }

  lemma {:induction false} ScheduleIsSafe(pools: Pools, jobs: seq<Job>)
    requires AllWellFormed(jobs) && Schedule(pools, jobs).Ok?
    ensures |Schedule(pools, jobs).value| == |jobs|
    ensures forall i :: 0 <= i < |jobs| ==> Answers(Schedule(pools, jobs).value[i], jobs[i])
    ensures NoDoubleBooking(Schedule(pools, jobs).value)
  {
    if jobs == [] {
      assert NoDoubleBooking([]);
    } else {
      hide Allocate, NoDoubleBooking, Answers;
      var earlier := Schedule(pools, jobs[..|jobs| - 1]).value;
      ScheduleIsSafe(pools, jobs[..|jobs| - 1]);
      AllocationIsSafe(pools, earlier, jobs[|jobs| - 1]);
    }
  }

  // ---- The independent validator ----

  datatype Key =
    | TeacherKey(id: nat, day: nat, period: nat)
    | RoomKey(id: nat, day: nat, period: nat)
    | SectionKey(id: nat, day: nat, period: nat)

  function KeysOf(s: Slot): set<Key> {
    {TeacherKey(s.teacher, s.day, s.period), RoomKey(s.roomId, s.day, s.period),
     SectionKey(s.sectionId, s.day, s.period)}
  }

  /** No two stored slots share a teacher, room or section at one time. */
  ghost predicate ConflictFree(slots: seq<Slot>) {
    forall i, k :: 0 <= i < k < |slots| ==> KeysOf(slots[i]) !! KeysOf(slots[k])
  }

  /** `seen` maps each key of the slots checked so far to the slot that has it. */
  ghost predicate Seen(seen: map<Key, nat>, slots: seq<Slot>, count: nat)
    requires count <= |slots|
  {
    && (forall k :: k in seen ==> seen[k] < count && k in KeysOf(slots[seen[k]]))
    && (forall i, k :: 0 <= i < count && k in KeysOf(slots[i]) ==> k in seen)
  }

  /** Slots are identified by their position; the check passes exactly on conflict-free timetables. */
  method ValidateNoConflicts(slots: seq<Slot>) returns (accepted: bool)
    ensures accepted <==> ConflictFree(slots)
  {
    var seen: map<Key, nat> := map[];
    for i := 0 to |slots|
      invariant Seen(seen, slots, i)
      invariant forall j, k :: 0 <= j < k < i ==> KeysOf(slots[j]) !! KeysOf(slots[k])
    {
      var s := slots[i];
      var teacher, room := TeacherKey(s.teacher, s.day, s.period), RoomKey(s.roomId, s.day, s.period);
      var section := SectionKey(s.sectionId, s.day, s.period);
      ghost var before := seen;
      if teacher in seen && seen[teacher] != i {
        return false;
      }
      seen := seen[teacher := i];
      if room in seen && seen[room] != i {
        return false;
      }
      seen := seen[room := i];
      if section in seen && seen[section] != i {
        return false;
      }
      seen := seen[section := i];
      assert KeysOf(s) !! before.Keys;
      assert seen.Keys == before.Keys + KeysOf(s);
    }
    accepted := true;
  }

  /** A finished run of the allocator is accepted by the validator, when section ids are distinct. */
  lemma ScheduleIsAccepted(pools: Pools, plan: seq<Section>)
    requires AllWellFormed(Jobs(plan)) && DistinctSections(plan)
    requires Schedule(pools, Jobs(plan)).Ok?
    ensures ConflictFree(Schedule(pools, Jobs(plan)).value)
  {
    var jobs := Jobs(plan);
    ScheduleIsSafe(pools, jobs);
    JobsAreDistinct(plan);
    var slots := Schedule(pools, jobs).value;
    forall i, k | 0 <= i < k < |slots| ensures KeysOf(slots[i]) !! KeysOf(slots[k]) {
      assert Answers(slots[i], jobs[i]) && Answers(slots[k], jobs[k]);
    }
  }

  // ---- Each subject once a day ----

  lemma RotationIsInjective(p: nat, q: nat, day: nat, grade: nat, n: nat)
    requires p < n && q < n && Rotation(p, day, grade, n) == Rotation(q, day, grade, n)
    ensures p == q
  {
    var a, c := p + day + grade, q + day + grade;
    assert a == n * (a / n) + a % n && c == n * (c / n) + c % n;
    assert a - c == n * (a / n - c / n);
    if p != q {
      MultipleOutOfRange(n, a / n - c / n, a - c);
    }
  }

  lemma MultipleOutOfRange(n: nat, k: int, d: int)
    requires d == n * k && d != 0
    ensures d >= n || d + n <= 0
  {
    if k >= 1 { assert n * k >= n; } else if k <= -1 { assert n * k + n <= 0; }
  }

  /** The period at which subject number `index` falls. */
  lemma RotationIsSurjective(index: nat, day: nat, grade: nat, n: nat) returns (p: nat)
    requires index < n
    ensures p < n && Rotation(p, day, grade, n) == index
  {
    var shift := (day + grade) % n;
    p := if index >= shift then index - shift else index + n - shift;
    var a := p + day + grade;
    var whole := (day + grade) / n;
    assert day + grade == n * whole + shift;
    var turns := if index >= shift then whole else whole + 1;
    assert a == n * turns + index by {
      assert n * (whole + 1) == n * whole + n;
    }
    RemainderIs(a, n, turns, index);
  }

  lemma RemainderIs(a: nat, n: nat, q: nat, r: nat)
    requires r < n && a == n * q + r
    ensures a % n == r
  {
    assert a == n * (a / n) + a % n;
    assert r - a % n == n * (a / n - q) by {
      assert n * (a / n - q) == n * (a / n) - n * q;
    }
    if r != a % n { MultipleOutOfRange(n, a / n - q, r - a % n); }
  }

  /** In a finished run every section has each of its subjects at exactly one period of every school day. */
  lemma EachSubjectOncePerDay(pools: Pools, plan: seq<Section>, section: Section, day: nat, index: nat)
    returns (at: nat)
    requires AllWellFormed(Jobs(plan)) && DistinctSections(plan) && Schedule(pools, Jobs(plan)).Ok?
    requires section in plan && 1 <= day <= SCHOOL_DAYS && index < |section.subjects|
    ensures var slots := Schedule(pools, Jobs(plan)).value;
      && at < |slots|
      && slots[at].sectionId == section.id && slots[at].day == day && slots[at].subject == section.subjects[index]
      && Rotation(slots[at].period, day, section.grade, |section.subjects|) == index
      && (forall k :: 0 <= k < |slots| && slots[k].sectionId == section.id && slots[k].day == day && k != at ==>
            slots[k].period < |section.subjects| &&
              Rotation(slots[k].period, day, section.grade, |section.subjects|) != index)
  {
    var jobs := Jobs(plan);
    JobsAreExactly(plan);
    ScheduleIsSafe(pools, jobs);
    JobsAreDistinct(plan);
    var slots := Schedule(pools, jobs).value;
    var period := RotationIsSurjective(index, day, section.grade, |section.subjects|);
    var job := Job(section, day, period);
    at :| 0 <= at < |jobs| && jobs[at] == job;
    forall k | 0 <= k < |slots| && slots[k].sectionId == section.id && slots[k].day == day && k != at
      ensures slots[k].period < |section.subjects| &&
        Rotation(slots[k].period, day, section.grade, |section.subjects|) != index
    {
      assert Answers(slots[k], jobs[k]) && jobs[k] in jobs;
      assert jobs[k].section == section;
      if Rotation(slots[k].period, day, section.grade, |section.subjects|) == index {
        RotationIsInjective(slots[k].period, period, day, section.grade, |section.subjects|);
      }
    }
  }

  /** The same period on the next day gets the next subject, and so does the next period on the same day. */
  lemma RotationMovesOn(period: nat, day: nat, grade: nat, n: nat)
    requires n > 0
    ensures Rotation(period, day + 1, grade, n) == (Rotation(period, day, grade, n) + 1) % n
    ensures Rotation(period + 1, day, grade, n) == (Rotation(period, day, grade, n) + 1) % n
  {
    var a := period + day + grade;
    assert a == n * (a / n) + a % n;
    if a % n + 1 < n {
      RemainderIs(a + 1, n, a / n, a % n + 1);
      RemainderIs(a % n + 1, n, 0, a % n + 1);
    } else {
      assert a + 1 == n * (a / n + 1) + 0;
      RemainderIs(a + 1, n, a / n + 1, 0);
      RemainderIs(a % n + 1, n, 1, 0);
    }
  }

  /** In a finished run every section's subject of a period is followed, on the next day, by the next subject. */
  lemma NextDayNextSubject(pools: Pools, plan: seq<Section>, section: Section, day: nat, period: nat)
    returns (today: nat, tomorrow: nat, index: nat)
    requires AllWellFormed(Jobs(plan)) && Schedule(pools, Jobs(plan)).Ok?
    requires section in plan && 1 <= day < SCHOOL_DAYS && period < |section.subjects|
    ensures var slots := Schedule(pools, Jobs(plan)).value;
      && today < |slots| && tomorrow < |slots| && index < |section.subjects|
      && slots[today].sectionId == slots[tomorrow].sectionId == section.id
      && slots[today].period == slots[tomorrow].period == period
      && slots[today].day == day && slots[tomorrow].day == day + 1
      && slots[today].subject == section.subjects[index]
      && slots[tomorrow].subject == section.subjects[(index + 1) % |section.subjects|]
  {
    var jobs := Jobs(plan);
    hide Schedule, Jobs, Rotation, SubjectOf;
    JobsAreExactly(plan);
    ScheduleIsSafe(pools, jobs);
    assert Job(section, day, period) in jobs && Job(section, day + 1, period) in jobs;
    today :| 0 <= today < |jobs| && jobs[today] == Job(section, day, period);
    tomorrow :| 0 <= tomorrow < |jobs| && jobs[tomorrow] == Job(section, day + 1, period);
    index := Rotation(period, day, section.grade, |section.subjects|);
    SubjectMovesOn(section, day, period);
    var slots := Schedule(pools, jobs).value;
    assert Answers(slots[today], jobs[today]) && Answers(slots[tomorrow], jobs[tomorrow]);
  }

  lemma SubjectMovesOn(section: Section, day: nat, period: nat)
    requires period < |section.subjects|
    ensures var index := Rotation(period, day, section.grade, |section.subjects|);
      && index < |section.subjects| && SubjectOf(Job(section, day, period)) == section.subjects[index]
      && SubjectOf(Job(section, day + 1, period)) == section.subjects[(index + 1) % |section.subjects|]
  {
    RotationMovesOn(period, day, section.grade, |section.subjects|);
  }

  // ---- Completeness: exactly when the greedy run goes through ----

  predicate SameTime(a: Job, c: Job) {
    a.day == c.day && a.period == c.period
  }

  /** The jobs among the first `count` that ask for a teacher of pool `key` at the time of `job`. */
  function Demand(jobs: seq<Job>, count: nat, job: Job, key: string): set<nat>
    requires AllWellFormed(jobs) && count <= |jobs|
  {
    set i | 0 <= i < count && SameTime(jobs[i], job) && jobs[i].period != 0 && SubjectOf(jobs[i]).poolKey == key
  }

  function Members(pool: seq<TeacherId>): set<TeacherId> {
    set t | t in pool
  }

  /** No teacher is in two pools. */
  ghost predicate DisjointPools(pools: Pools) {
    forall k1, k2 :: k1 in pools && k2 in pools && k1 != k2 ==> Members(pools[k1]) !! Members(pools[k2])
  }

  /** What one job needs, independently of any order of allocation. */
  ghost predicate JobFeasible(pools: Pools, jobs: seq<Job>, n: nat)
    requires AllWellFormed(jobs) && n < |jobs|
  {
    var job := jobs[n];
    && job.period < 8
    && (forall i :: 0 <= i < n && SameTime(jobs[i], job) ==> jobs[i].section.roomId != job.section.roomId)
    && (job.period == 0 ==>
          && job.section.classTeacher.Some?
          && forall i :: 0 <= i < n && SameTime(jobs[i], job) ==>
            jobs[i].section.classTeacher != job.section.classTeacher)
    && (job.period != 0 ==>
          var key := SubjectOf(job).poolKey;
          key in pools && pools[key] != [] && |Demand(jobs, |jobs|, job, key)| <= |Members(pools[key])|)
  }

  /**
   * A plan is feasible when rooms and class teachers do not clash, every pool exists, and at no time do
   * more sections ask for a pool than it has teachers.
   */
  ghost predicate Feasible(pools: Pools, jobs: seq<Job>)
    requires AllWellFormed(jobs)
  {
    forall n :: 0 <= n < |jobs| ==> JobFeasible(pools, jobs, n)
  }

  /** The scan covers the whole pool: it fails only when every member is busy. */
  lemma {:induction false} ScanCoversPool(pool: seq<TeacherId>, start: nat, offset: nat, busy: Busy, day: nat,
                                          period: nat)
    requires offset <= |pool| && pool != []
    ensures var found := FirstFree(pool, start, offset, busy, day, period);
      if found.Some? then found.value in pool && (found.value, day, period) !in busy
      else forall i :: offset <= i < |pool| ==> (Around(pool, start, i), day, period) in busy
    decreases |pool| - offset
  {
    if offset < |pool| {
      ScanCoversPool(pool, start, offset + 1, busy, day, period);
    }
  }

  /** Position i of the pool, counting around from `start`, holds the teacher, and all before it are busy. */
  predicate IsFirstFree(pool: seq<TeacherId>, start: nat, i: nat, teacher: TeacherId, busy: Busy, day: nat, period: nat)
    requires i < |pool|
  {
    && pool[(start + i) % |pool|] == teacher && (teacher, day, period) !in busy
    && forall k :: 0 <= k < i ==> (Around(pool, start, k), day, period) in busy
  }

  lemma {:induction false} ScanFindsFirst(pool: seq<TeacherId>, start: nat, offset: nat, busy: Busy, day: nat,
                                          period: nat)
    returns (i: nat)
    requires offset <= |pool| && FirstFree(pool, start, offset, busy, day, period).Some?
    requires forall k :: 0 <= k < offset ==> (Around(pool, start, k), day, period) in busy
    ensures offset <= i < |pool|
    ensures IsFirstFree(pool, start, i, FirstFree(pool, start, offset, busy, day, period).value, busy, day, period)
    decreases |pool| - offset
  {
    if (Around(pool, start, offset), day, period) in busy {
      i := ScanFindsFirst(pool, start, offset + 1, busy, day, period);
    } else {
      i := offset;
    }
  }

  lemma {:induction false} PrefixOfSchedule(pools: Pools, jobs: seq<Job>, n: nat)
    requires AllWellFormed(jobs) && Schedule(pools, jobs).Ok? && n <= |jobs|
    ensures |Schedule(pools, jobs).value| == |jobs|
    ensures Schedule(pools, jobs[..n]) == Ok(Schedule(pools, jobs).value[..n])
    decreases |jobs|
  {
    ScheduleIsSafe(pools, jobs);
    var slots := Schedule(pools, jobs).value;
    if n == |jobs| {
      assert jobs[..n] == jobs && slots[..n] == slots;
    } else {
      var shorter := jobs[..|jobs| - 1];
      PrefixOfSchedule(pools, shorter, n);
      assert shorter[..n] == jobs[..n] && slots[..|shorter|][..n] == slots[..n];
    }
  }

  lemma SlotIsAllocated(pools: Pools, jobs: seq<Job>, n: nat)
    requires AllWellFormed(jobs) && Schedule(pools, jobs).Ok? && n < |jobs|
    ensures |Schedule(pools, jobs).value| == |jobs|
    ensures var slots := Schedule(pools, jobs).value; Allocate(pools, slots[..n], jobs[n]) == Ok(slots[n])
  {
    PrefixOfSchedule(pools, jobs, n);
    PrefixOfSchedule(pools, jobs, n + 1);
    var slots := Schedule(pools, jobs).value;
    assert jobs[..n + 1][..n] == jobs[..n];
    assert slots[..n + 1] == slots[..n] + [slots[n]];
    hide Allocate;
  }

  lemma AllocatedTeacher(pools: Pools, earlier: seq<Slot>, job: Job)
    requires WellFormed(job) && Allocate(pools, earlier, job).Ok?
    ensures TeacherFor(pools, TeachersBusy(earlier), job) == Ok(Allocate(pools, earlier, job).value.teacher)
  {
    hide TeacherFor, TeachersBusy, RoomsBusy, SubjectOf;
  }

  /**
   * Who teaches in a finished run: the class teacher in the first period, and in every other one the first
   * teacher of the subject's pool, counting around from position grade plus section offset, who is not
   * already booked at that time by an earlier section.
   */
  lemma TeacherIsFirstFree(pools: Pools, jobs: seq<Job>, n: nat) returns (i: nat)
    requires AllWellFormed(jobs) && Schedule(pools, jobs).Ok? && n < |jobs|
    ensures |Schedule(pools, jobs).value| == |jobs|
    ensures var slots := Schedule(pools, jobs).value;
      var job := jobs[n];
      if job.period == 0 then Some(slots[n].teacher) == job.section.classTeacher
      else
        var key := SubjectOf(job).poolKey;
        && key in pools && i < |pools[key]|
        && IsFirstFree(pools[key], job.section.grade + job.section.offset, i, slots[n].teacher,
                       TeachersBusy(slots[..n]), job.day, job.period)
  {
    hide Schedule, TeachersBusy, SubjectOf, IsFirstFree, FirstFree, Allocate;
    i := 0;
    var slots, job := Schedule(pools, jobs).value, jobs[n];
    SlotIsAllocated(pools, jobs, n);
    AllocatedTeacher(pools, slots[..n], job);
    if job.period != 0 {
      i := ScanFindsFirst(pools[SubjectOf(job).poolKey], job.section.grade + job.section.offset, 0,
        TeachersBusy(slots[..n]), job.day, job.period);
    }
  }

  lemma FailedScanMeansAllBusy(pool: seq<TeacherId>, start: nat, busy: Busy, day: nat, period: nat)
    requires pool != [] && FirstFree(pool, start, 0, busy, day, period).None?
    ensures forall t :: t in Members(pool) ==> (t, day, period) in busy
  {
    ScanCoversPool(pool, start, 0, busy, day, period);
    forall t | t in Members(pool) ensures (t, day, period) in busy {
      var index :| 0 <= index < |pool| && pool[index] == t;
      var i := RotationIsSurjective(index, start, 0, |pool|);
      assert i + start + 0 == start + i && Around(pool, start, i) == t;
    }
  }

  /** What allocation guarantees of a slot's teacher: the class teacher first, then a pool member. */
  predicate TeacherFits(pools: Pools, slot: Slot, job: Job)
    requires WellFormed(job)
  {
    if job.period == 0 then Some(slot.teacher) == job.section.classTeacher
    else SubjectOf(job).poolKey in pools && slot.teacher in pools[SubjectOf(job).poolKey]
  }

  lemma {:induction false} ScheduledTeachersFit(pools: Pools, jobs: seq<Job>)
    requires AllWellFormed(jobs) && Schedule(pools, jobs).Ok?
    ensures |Schedule(pools, jobs).value| == |jobs|
    ensures forall i :: 0 <= i < |jobs| ==>
      jobs[i].period < PERIODS && TeacherFits(pools, Schedule(pools, jobs).value[i], jobs[i])
  {
    if jobs != [] {
      var last := jobs[|jobs| - 1];
      ScheduledTeachersFit(pools, jobs[..|jobs| - 1]);
      var earlier := Schedule(pools, jobs[..|jobs| - 1]).value;
      if last.period != 0 {
        var pool := pools[SubjectOf(last).poolKey];
        ScanCoversPool(pool, last.section.grade + last.section.offset, 0, TeachersBusy(earlier), last.day, last.period);
      }
      hide SubjectOf, FirstFree;
    }
  }

  lemma {:induction false} CoveredByAsMany(indices: set<nat>, slots: seq<Slot>, members: set<TeacherId>)
    requires forall i :: i in indices ==> i < |slots|
    requires forall t :: t in members ==> exists i :: i in indices && slots[i].teacher == t
    ensures |members| <= |indices|
  {
    if members != {} {
      var t :| t in members;
      var i :| i in indices && slots[i].teacher == t;
      forall u | u in members - {t} ensures exists k :: k in indices - {i} && slots[k].teacher == u {
        var k :| k in indices && slots[k].teacher == u;
        assert k in indices - {i};
      }
      CoveredByAsMany(indices - {i}, slots, members - {t});
    }
  }

  lemma {:induction false} DistinctAtMost(indices: set<nat>, slots: seq<Slot>, members: set<TeacherId>)
    requires forall i :: i in indices ==> i < |slots| && slots[i].teacher in members
    requires forall i, k :: i in indices && k in indices && i != k ==> slots[i].teacher != slots[k].teacher
    ensures |indices| <= |members|
  {
    if indices != {} {
      var i :| i in indices;
      DistinctAtMost(indices - {i}, slots, members - {slots[i].teacher});
    }
  }

  /** If every member of a pool is busy, that many earlier jobs asked for this very pool. */
  lemma BusyPoolMeansDemand(pools: Pools, jobs: seq<Job>, n: nat, key: string)
    requires AllWellFormed(jobs) && DisjointPools(pools) && n < |jobs|
    requires Schedule(pools, jobs[..n]).Ok? && jobs[n].period != 0 && key in pools
    requires forall t :: t in Members(pools[key]) ==>
      (t, jobs[n].day, jobs[n].period) in TeachersBusy(Schedule(pools, jobs[..n]).value)
    ensures |Members(pools[key])| <= |Demand(jobs, n, jobs[n], key)|
  {
    var slots := Schedule(pools, jobs[..n]).value;
    ScheduledTeachersFit(pools, jobs[..n]);
    ScheduleIsSafe(pools, jobs[..n]);
    forall t | t in Members(pools[key])
      ensures exists i :: i in Demand(jobs, n, jobs[n], key) && slots[i].teacher == t
    {
      assert (t, jobs[n].day, jobs[n].period) in TeachersBusy(slots);
      var s :| s in slots && (s.teacher, s.day, s.period) == (t, jobs[n].day, jobs[n].period);
      var i :| 0 <= i < |slots| && slots[i] == s;
      BusyJobIsDemand(pools, jobs, n, key, i, s);
    }
    CoveredByAsMany(Demand(jobs, n, jobs[n], key), slots, Members(pools[key]));
  }

  lemma BusyJobIsDemand(pools: Pools, jobs: seq<Job>, n: nat, key: string, i: nat, slot: Slot)
    requires AllWellFormed(jobs) && DisjointPools(pools) && i < n < |jobs|
    requires jobs[n].period != 0 && key in pools && slot.teacher in Members(pools[key])
    requires Answers(slot, jobs[i]) && TeacherFits(pools, slot, jobs[i])
    requires slot.day == jobs[n].day && slot.period == jobs[n].period
    ensures i in Demand(jobs, n, jobs[n], key)
  {
    hide SubjectOf;
    var other := SubjectOf(jobs[i]).poolKey;
    assert slot.teacher in Members(pools[other]);
  }

  lemma EarlierDemandIsSmaller(pools: Pools, jobs: seq<Job>, n: nat)
    requires AllWellFormed(jobs) && n < |jobs| && jobs[n].period != 0
    ensures var key := SubjectOf(jobs[n]).poolKey;
      |Demand(jobs, n, jobs[n], key)| < |Demand(jobs, |jobs|, jobs[n], key)|
  {
    hide SubjectOf;
    var key := SubjectOf(jobs[n]).poolKey;
    SubsetCardinality(Demand(jobs, n, jobs[n], key) + {n}, Demand(jobs, |jobs|, jobs[n], key));
  }

  lemma FeasiblePoolHasFreeTeacher(pools: Pools, jobs: seq<Job>, n: nat)
    requires AllWellFormed(jobs) && DisjointPools(pools) && n < |jobs| && JobFeasible(pools, jobs, n)
    requires Schedule(pools, jobs[..n]).Ok? && jobs[n].period != 0
    ensures var busy := TeachersBusy(Schedule(pools, jobs[..n]).value);
      var teacher := TeacherFor(pools, busy, jobs[n]);
      teacher.Ok? && (teacher.value, jobs[n].day, jobs[n].period) !in busy
  {
    hide Schedule, SubjectOf, Demand, Members, TeachersBusy, DisjointPools;
    var job, busy := jobs[n], TeachersBusy(Schedule(pools, jobs[..n]).value);
    var key, start := SubjectOf(job).poolKey, job.section.grade + job.section.offset;
    ScanCoversPool(pools[key], start, 0, busy, job.day, job.period);
    if FirstFree(pools[key], start, 0, busy, job.day, job.period).None? {
      FailedScanMeansAllBusy(pools[key], start, busy, job.day, job.period);
      BusyPoolMeansDemand(pools, jobs, n, key);
      EarlierDemandIsSmaller(pools, jobs, n);
    }
  }

  lemma FeasibleJobIsAllocated(pools: Pools, jobs: seq<Job>, n: nat)
    requires AllWellFormed(jobs) && DisjointPools(pools) && n < |jobs| && JobFeasible(pools, jobs, n)
    requires Schedule(pools, jobs[..n]).Ok?
    ensures Allocate(pools, Schedule(pools, jobs[..n]).value, jobs[n]).Ok?
  {
    hide Schedule, SubjectOf, Demand, Members, DisjointPools, FirstFree;
    var job, slots := jobs[n], Schedule(pools, jobs[..n]).value;
    ScheduledTeachersFit(pools, jobs[..n]);
    ScheduleIsSafe(pools, jobs[..n]);
    if job.period != 0 {
      FeasiblePoolHasFreeTeacher(pools, jobs, n);
    }
    forall i | 0 <= i < n && SameTime(jobs[i], job) ensures slots[i].roomId != job.section.roomId
      && (job.period == 0 ==> Some(slots[i].teacher) != job.section.classTeacher)
    {
      assert Answers(slots[i], jobs[i]) && TeacherFits(pools, slots[i], jobs[i]);
    }
    NothingBusyUnlessSlot(slots, job);
    hide TeachersBusy, RoomsBusy;
  }

  lemma NothingBusyUnlessSlot(slots: seq<Slot>, job: Job)
    ensures forall t :: (t, job.day, job.period) in TeachersBusy(slots) ==>
      exists i :: 0 <= i < |slots| && slots[i].teacher == t && slots[i].day == job.day && slots[i].period == job.period
    ensures forall r :: (r, job.day, job.period) in RoomsBusy(slots) ==>
      exists i :: 0 <= i < |slots| && slots[i].roomId == r && slots[i].day == job.day && slots[i].period == job.period
  {
  }

  lemma {:induction false} FeasiblePrefixSucceeds(pools: Pools, jobs: seq<Job>, n: nat)
    requires AllWellFormed(jobs) && DisjointPools(pools) && n <= |jobs| && Feasible(pools, jobs)
    ensures Schedule(pools, jobs[..n]).Ok?
  {
    if n > 0 {
      FeasiblePrefixSucceeds(pools, jobs, n - 1);
      FeasibleJobIsAllocated(pools, jobs, n - 1);
      assert jobs[..n][..n - 1] == jobs[..n - 1];
      hide Allocate;
    }
  }

  lemma SuccessMeansFeasible(pools: Pools, jobs: seq<Job>, n: nat)
    requires AllWellFormed(jobs) && Schedule(pools, jobs).Ok? && n < |jobs|
    ensures JobFeasible(pools, jobs, n)
  {
    var job, slots := jobs[n], Schedule(pools, jobs).value;
    ScheduledTeachersFit(pools, jobs);
    ScheduleIsSafe(pools, jobs);
    hide Schedule;
    assert Answers(slots[n], jobs[n]) && TeacherFits(pools, slots[n], jobs[n]);
    forall i | 0 <= i < n && SameTime(jobs[i], job)
      ensures jobs[i].section.roomId != job.section.roomId
      ensures job.period == 0 ==> jobs[i].section.classTeacher != job.section.classTeacher
    {
      assert Answers(slots[i], jobs[i]) && TeacherFits(pools, slots[i], jobs[i]);
    }
    if job.period != 0 {
      SuccessBoundsDemand(pools, jobs, n, slots);
    }
  }

  lemma SuccessBoundsDemand(pools: Pools, jobs: seq<Job>, n: nat, slots: seq<Slot>)
    requires AllWellFormed(jobs) && n < |jobs| == |slots| && jobs[n].period != 0
    requires NoDoubleBooking(slots)
    requires forall i :: 0 <= i < |jobs| ==> Answers(slots[i], jobs[i]) && TeacherFits(pools, slots[i], jobs[i])
    ensures var key := SubjectOf(jobs[n]).poolKey;
      key in pools && |Demand(jobs, |jobs|, jobs[n], key)| <= |Members(pools[key])|
  {
    hide SubjectOf;
    var key := SubjectOf(jobs[n]).poolKey;
    var asking := Demand(jobs, |jobs|, jobs[n], key);
    assert Answers(slots[n], jobs[n]) && TeacherFits(pools, slots[n], jobs[n]);
    forall i | i in asking ensures i < |slots| && slots[i].teacher in Members(pools[key]) {
      assert Answers(slots[i], jobs[i]) && TeacherFits(pools, slots[i], jobs[i]);
    }
    forall i, k | i in asking && k in asking && i != k ensures slots[i].teacher != slots[k].teacher {
      assert Answers(slots[i], jobs[i]) && Answers(slots[k], jobs[k]);
    }
    DistinctAtMost(asking, slots, Members(pools[key]));
  }

  /**
   * With disjoint pools the greedy run goes through exactly when the plan is feasible: no order of
   * allocation could do better.
   */
  lemma GreedySucceedsIffFeasible(pools: Pools, jobs: seq<Job>)
    requires AllWellFormed(jobs) && DisjointPools(pools)
    ensures Schedule(pools, jobs).Ok? <==> Feasible(pools, jobs)
  {
    if Schedule(pools, jobs).Ok? {
      forall n | 0 <= n < |jobs| ensures JobFeasible(pools, jobs, n) {
        SuccessMeansFeasible(pools, jobs, n);
      }
    }
    if Feasible(pools, jobs) {
      FeasiblePrefixSucceeds(pools, jobs, |jobs|);
      assert jobs[..|jobs|] == jobs;
    }
  }

  // ---- The imperative run ----

  method PickAvailableSubjectTeacher(pools: Pools, job: Job, teacherBusy: Busy) returns (result: Result<TeacherId>)
    requires WellFormed(job) && 0 < job.period < PERIODS
    ensures result == TeacherFor(pools, teacherBusy, job)
  {
    var key := SubjectOf(job).poolKey;
    if key !in pools || pools[key] == [] {
      return Err(MissingPool);
    }
    var pool, start := pools[key], job.section.grade + job.section.offset;
    for offset := 0 to |pool|
      invariant FirstFree(pool, start, 0, teacherBusy, job.day, job.period)
             == FirstFree(pool, start, offset, teacherBusy, job.day, job.period)
    {
      var teacher := Around(pool, start, offset);
      if (teacher, job.day, job.period) !in teacherBusy {
        return Ok(teacher);
      }
    }
    return Err(NoAvailableTeacher);
  }

  /** One round of the innermost loop, on the busy sets. */
  method AllocatePeriod(pools: Pools, job: Job, teacherBusy: Busy, roomBusy: Busy, ghost slots: seq<Slot>)
    returns (result: Result<Slot>)
    requires WellFormed(job) && teacherBusy == TeachersBusy(slots) && roomBusy == RoomsBusy(slots)
    ensures result == Allocate(pools, slots, job)
    ensures result.Ok? ==> Answers(result.value, job)
  {
    var subject := SubjectOf(job);
    var teacher: Result<TeacherId>;
    if job.period >= PERIODS {
      teacher := Err(MissingPeriod);
    } else if job.period == 0 {
      teacher := if job.section.classTeacher.None?
        then Err(MissingClassTeacher) else Ok(job.section.classTeacher.value);
    } else {
      teacher := PickAvailableSubjectTeacher(pools, job, teacherBusy);
    }
    if teacher.Err? {
      return Err(teacher.failure);
    }
    if (teacher.value, job.day, job.period) in teacherBusy {
      return Err(TeacherConflict);
    }
    if (job.section.roomId, job.day, job.period) in roomBusy {
      return Err(RoomConflict);
    }
    return Ok(Slot(job.section.id, job.section.roomId, teacher.value, subject, job.day, job.period));
  }

  /** The nested loops over sections, days and periods carry out the schedule. */
  method SeedCanonicalTimetable(pools: Pools, plan: seq<Section>) returns (result: Result<seq<Slot>>)
    ensures AllWellFormed(Jobs(plan)) && result == Schedule(pools, Jobs(plan))
  {
    hide Schedule, Allocate, Jobs, DayJobs, TeachersBusy, RoomsBusy;
    JobsAreExactly(plan);
    NothingIsBusy();
    var teacherBusy: Busy, roomBusy: Busy := {}, {};
    var slots: seq<Slot> := [];
    ghost var done: nat := 0;
    ScheduleOfNothing(pools);
    for i := 0 to |plan|
      invariant done == |Jobs(plan[..i])|
      invariant Progress(pools, plan, done, slots) && teacherBusy == TeachersBusy(slots) && roomBusy == RoomsBusy(slots)
    {
      var section := plan[i];
      for day := 1 to SCHOOL_DAYS + 1
        invariant done == |Jobs(plan[..i])| + |DayJobs(section, day - 1)|
        invariant Progress(pools, plan, done, slots) && teacherBusy == TeachersBusy(slots) &&
          roomBusy == RoomsBusy(slots)
      {
        for period := 0 to |section.subjects|
          invariant done == |Jobs(plan[..i])| + |DayJobs(section, day - 1)| + period
          invariant Progress(pools, plan, done, slots) && teacherBusy == TeachersBusy(slots) &&
            roomBusy == RoomsBusy(slots)
        {
          var job := Job(section, day, period);
          JobAt(plan, i, day, period);
          var slot := AllocatePeriod(pools, job, teacherBusy, roomBusy, slots);
          ScheduleStep(pools, Jobs(plan), done, slots);
          if slot.Err? {
            return Err(slot.failure);
          }
          BusyGrows(slots, slot.value);
          slots := slots + [slot.value];
          teacherBusy := teacherBusy + {(slot.value.teacher, day, period)};
          roomBusy := roomBusy + {(section.roomId, day, period)};
          done := done + 1;
        }
        DayJobsGrow(section, day);
      }
      JobsGrow(plan, i);
    }
    assert plan[..|plan|] == plan && Jobs(plan)[..done] == Jobs(plan);
    return Ok(slots);
  }

  ghost predicate Progress(pools: Pools, plan: seq<Section>, done: nat, slots: seq<Slot>) {
    && AllWellFormed(Jobs(plan)) && done <= |Jobs(plan)|
    && Schedule(pools, Jobs(plan)[..done]) == Ok(slots)
  }

  lemma ScheduleOfNothing(pools: Pools)
    ensures Schedule(pools, []) == Ok([]) && Jobs([]) == []
    ensures forall section :: DayJobs(section, 0) == []
  {
  }

  lemma {:induction false} FailureIsFinal(pools: Pools, jobs: seq<Job>, n: nat)
    requires AllWellFormed(jobs) && n <= |jobs| && Schedule(pools, jobs[..n]).Err?
    ensures Schedule(pools, jobs) == Schedule(pools, jobs[..n])
    decreases |jobs|
  {
    if n == |jobs| {
      assert jobs[..n] == jobs;
    } else {
      var shorter := jobs[..|jobs| - 1];
      assert shorter[..n] == jobs[..n];
      FailureIsFinal(pools, shorter, n);
    }
  }

  lemma ScheduleStep(pools: Pools, jobs: seq<Job>, done: nat, slots: seq<Slot>)
    requires AllWellFormed(jobs) && done < |jobs| && Schedule(pools, jobs[..done]) == Ok(slots)
    ensures var slot := Allocate(pools, slots, jobs[done]);
      if slot.Ok? then Schedule(pools, jobs[..done + 1]) == Ok(slots + [slot.value])
      else Schedule(pools, jobs) == Err(slot.failure)
  {
    hide Allocate;
    assert jobs[..done + 1][..done] == jobs[..done];
    if Allocate(pools, slots, jobs[done]).Err? { FailureIsFinal(pools, jobs, done + 1); }
  }

  lemma NothingIsBusy()
    ensures TeachersBusy([]) == {} && RoomsBusy([]) == {}
  {
  }

  lemma BusyGrows(slots: seq<Slot>, s: Slot)
    ensures TeachersBusy(slots + [s]) == TeachersBusy(slots) + {(s.teacher, s.day, s.period)}
    ensures RoomsBusy(slots + [s]) == RoomsBusy(slots) + {(s.roomId, s.day, s.period)}
  {
  }

  lemma {:induction false} DayJobsPrefix(section: Section, day: nat, days: nat, period: nat)
    requires 1 <= day <= days && period < |section.subjects|
    ensures |DayJobs(section, day - 1)| + period < |DayJobs(section, days)|
    ensures DayJobs(section, days)[|DayJobs(section, day - 1)| + period] == Job(section, day, period)
    decreases days
  {
    if day < days { DayJobsPrefix(section, day, days - 1, period); }
  }

  lemma {:induction false} JobsPrefix(plan: seq<Section>, i: nat)
    requires i <= |plan|
    ensures Jobs(plan[..i]) <= Jobs(plan)
    decreases |plan|
  {
    if i == |plan| {
      assert plan[..i] == plan;
    } else {
      assert plan[..|plan| - 1][..i] == plan[..i];
      JobsPrefix(plan[..|plan| - 1], i);
    }
  }

  lemma JobAt(plan: seq<Section>, i: nat, day: nat, period: nat)
    requires i < |plan| && 1 <= day <= SCHOOL_DAYS && period < |plan[i].subjects|
    ensures var at := |Jobs(plan[..i])| + |DayJobs(plan[i], day - 1)| + period;
      at < |Jobs(plan)| && Jobs(plan)[at] == Job(plan[i], day, period)
  {
    hide Jobs, DayJobs;
    DayJobsPrefix(plan[i], day, SCHOOL_DAYS, period);
    JobsPrefix(plan, i + 1);
    JobsGrow(plan, i);
    var before, today, at := Jobs(plan[..i]), DayJobs(plan[i], SCHOOL_DAYS), |DayJobs(plan[i], day - 1)| + period;
    assert (before + today)[|before| + at] == today[at];
  }

  lemma JobsGrow(plan: seq<Section>, i: nat)
    requires i < |plan|
    ensures Jobs(plan[..i + 1]) == Jobs(plan[..i]) + DayJobs(plan[i], SCHOOL_DAYS)
  {
    assert plan[..i + 1][..i] == plan[..i];
  }

  lemma DayJobsGrow(section: Section, day: nat)
    requires day >= 1
    ensures |DayJobs(section, day)| == |DayJobs(section, day - 1)| + |section.subjects|
  {
  }
}
