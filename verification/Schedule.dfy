/**
 * Schedules and the jobs they materialise: `nextScheduleAt` and `materializeSchedules` of packages/daemon/src/index.ts,
 * `enqueueJob` and `materializeSchedule` of packages/state/src/index.ts.
 */
module Schedule {
  import opened Strings

  const MINUTE := 60_000
  const HOUR := 3_600_000
  const DAY := 86_400_000

  // ------------------------------------------------------------------ when a schedule runs next

  datatype TimeUnit = Minutes | Hours | Days {
    function Milliseconds(): nat {
      match this
      case Minutes => MINUTE
      case Hours => HOUR
      case Days => DAY
    }
  }

  /** A parsed schedule: `n` units from the last time, or a fixed minute and hour of the UTC day. */
  datatype Rule = Once | Interval(n: nat, unit: TimeUnit) | Cron(minute: int, hour: int) | Unsupported

  /** `nextScheduleAt`; nothing where it throws. For `once` the caller ignores the value. */
  function Next(rule: Rule, from: int): Option<int> {
    match rule
    case Once => Some(from)
    case Interval(n, unit) => Some(from + n * unit.Milliseconds())
    case Cron(minute, hour) =>
      if !(0 <= minute <= 59 && 0 <= hour <= 23) then None
      else
        var sameDay := from - from % DAY + hour * HOUR + minute * MINUTE;
        Some(if sameDay <= from then sameDay + DAY else sameDay)
    case Unsupported => None
  }

  /** The rules that run again and again, at ever later times. */
  predicate Recurs(rule: Rule) {
    match rule
    case Interval(n, unit) => n > 0
    case Cron(minute, hour) => 0 <= minute <= 59 && 0 <= hour <= 23
    case _ => false
  }

  /** For fixed fields the next time is the least one after `from` at that minute and hour of a UTC day. */
  lemma CronIsLeast(minute: int, hour: int, from: int)
    requires 0 <= minute <= 59 && 0 <= hour <= 23
    ensures var t := Next(Cron(minute, hour), from).value;
            && from < t && t % DAY == hour * HOUR + minute * MINUTE
            && t % 60_000 == 0 && (t / 60_000) % 60 == minute && (t / 3_600_000) % 24 == hour
            && forall u: int | from < u && u % DAY == hour * HOUR + minute * MINUTE :: t <= u
  {
    var time := hour * HOUR + minute * MINUTE;
    var t := Next(Cron(minute, hour), from).value;
    var today := from / DAY;
    assert t == today * DAY + time || t == (today + 1) * DAY + time;
    OnDay(today, time);
    OnDay(today + 1, time);
    ClockShows(t / DAY, hour, minute);
    forall u: int | from < u && u % DAY == time
      ensures t <= u
    {
      NotBefore(from, u, time);
    }
  }

  /** The UTC clock at that time of a day. */
  lemma ClockShows(day: int, hour: int, minute: int)
    requires 0 <= minute <= 59 && 0 <= hour <= 23
    ensures var t := day * DAY + (hour * HOUR + minute * MINUTE);
            t % 60_000 == 0 && (t / 60_000) % 60 == minute && (t / 3_600_000) % 24 == hour
  {
    var hours := day * 24 + hour;
    var minutes := hours * 60 + minute;
    assert day * DAY + (hour * HOUR + minute * MINUTE) == minutes * 60_000 + 0;
    assert minutes * 60_000 + 0 == hours * 3_600_000 + minute * 60_000;
    WholeMinutes(minutes);
    WholeHours(hours, minute * 60_000);
    MinuteOfHour(hours, minute);
    HourOfDay(day, hour);
  }

  lemma WholeMinutes(minutes: int)
    ensures (minutes * 60_000 + 0) % 60_000 == 0 && (minutes * 60_000 + 0) / 60_000 == minutes
  {}

  lemma WholeHours(hours: int, rest: int)
    requires 0 <= rest < 3_600_000
    ensures (hours * 3_600_000 + rest) / 3_600_000 == hours
  {}

  lemma MinuteOfHour(hours: int, minute: int)
    requires 0 <= minute <= 59
    ensures (hours * 60 + minute) % 60 == minute
  {}

  lemma HourOfDay(day: int, hour: int)
    requires 0 <= hour <= 23
    ensures (day * 24 + hour) % 24 == hour
  {}

  lemma OnDay(day: int, time: int)
    requires 0 <= time < DAY
    ensures (day * DAY + time) % DAY == time
  {}

  /** A later time at that time of the day is today's, or tomorrow's at the earliest. */
  lemma NotBefore(from: int, u: int, time: int)
    requires from < u && u % DAY == time
    ensures u >= from / DAY * DAY + time
    ensures from / DAY * DAY + time <= from ==> u >= (from / DAY + 1) * DAY + time
  {
    assert u == u / DAY * DAY + time && u / DAY >= from / DAY;
  }

  lemma NextIsLater(rule: Rule, from: int)
    requires Recurs(rule)
    ensures Next(rule, from).Some? && Next(rule, from).value > from
  {
    match rule {
      case Interval(n, unit) => Positive(n, unit);
      case Cron(minute, hour) => CronIsLeast(minute, hour, from);
    }
  }

  lemma Positive(n: nat, unit: TimeUnit)
    requires n > 0
    ensures n * unit.Milliseconds() > 0
  {}

  /** The `k`-th time of a schedule whose first is `first`. */
  function TimeOf(rule: Rule, first: int, k: nat): int {
    if k == 0 then first
    else
      match Next(rule, TimeOf(rule, first, k - 1))
      case Some(t) => t
      case None => TimeOf(rule, first, k - 1)
  }

  /** Interval schedules run at first, first + p, first + 2p, and so on. */
  lemma {:induction false} IntervalTimes(n: nat, unit: TimeUnit, first: int, k: nat)
    ensures TimeOf(Interval(n, unit), first, k) == first + k * (n * unit.Milliseconds())
    ensures unit.Milliseconds() == match unit case Minutes => 60 * 1000 case Hours => 60 * 60 * 1000 case Days => 24 * 60 * 60 * 1000
  {
    if k > 0 {
      IntervalTimes(n, unit, first, k - 1);
      var p := n * unit.Milliseconds();
      assert (k - 1) * p + p == k * p;
    }
  }

  /** After the first run, cron schedules run once a day. */
  lemma {:induction false} CronTimes(minute: int, hour: int, first: int, k: nat)
    requires 0 <= minute <= 59 && 0 <= hour <= 23 && k > 0
    ensures TimeOf(Cron(minute, hour), first, k) == Next(Cron(minute, hour), first).value + (k - 1) * DAY
  {
    var rule := Cron(minute, hour);
    assert TimeOf(rule, first, 0) == first;
    if k > 1 {
      CronTimes(minute, hour, first, k - 1);
      var before := TimeOf(rule, first, k - 1);
      CronIsLeast(minute, hour, first);
      var base := Next(rule, first).value;
      assert before == base + (k - 2) * DAY;
      assert before % DAY == base % DAY by { DayShift(base, k - 2); }
    }
  }

  lemma DayShift(t: int, k: nat)
    ensures (t + k * DAY) % DAY == t % DAY
  {}

  lemma {:induction false} TimesIncrease(rule: Rule, first: int, i: nat, j: nat)
    requires Recurs(rule) && i < j
    ensures TimeOf(rule, first, i) < TimeOf(rule, first, j)
    decreases j
  {
    NextIsLater(rule, TimeOf(rule, first, j - 1));
    if i < j - 1 { TimesIncrease(rule, first, i, j - 1); }
  }

  // ------------------------------------------------------------------ idempotency keys

  type Id = Str

  /** "schedule:" */
  const KEY_PREFIX: Str := [0x73, 0x63, 0x68, 0x65, 0x64, 0x75, 0x6c, 0x65, 0x3a]

  /** `String(n)`, with its sign. */
  function Signed(n: int): (s: Str)
    ensures COLON !in s
  {
    assert forall m: nat, u | u in Decimal(m) :: IsDigit(u);
    if n < 0 then [0x2d] + Decimal(-n) else Decimal(n)
  }

  function KeyOf(id: Id, intended: int): Str {
    KEY_PREFIX + id + [COLON] + Signed(intended)
  }

  lemma SignedIsInjective(n: int, m: int)
    requires Signed(n) == Signed(m)
    ensures n == m
  {
    assert forall k: nat :: Decimal(k)[0] in Decimal(k) && IsDigit(Decimal(k)[0]);
    if n < 0 && m < 0 {
      assert Signed(n)[1..] == Decimal(-n) && Signed(m)[1..] == Decimal(-m);
    }
    assert n >= 0 ==> DecimalValue(Decimal(n)) == n;
    assert m >= 0 ==> DecimalValue(Decimal(m)) == m;
  }

  /** Different occurrences have different keys, whatever characters the schedule ids hold. */
  lemma KeysAreInjective(id: Id, intended: int, id2: Id, intended2: int)
    requires KeyOf(id, intended) == KeyOf(id2, intended2)
    ensures id == id2 && intended == intended2
  {
    hide Signed;
    var key, s, s2 := KeyOf(id, intended), Signed(intended), Signed(intended2);
    LastColon(KEY_PREFIX + id, s, KEY_PREFIX + id2, s2);
    assert (KEY_PREFIX + id)[|KEY_PREFIX|..] == id && (KEY_PREFIX + id2)[|KEY_PREFIX|..] == id2;
    SignedIsInjective(intended, intended2);
  }

  lemma LastColon(a: Str, s: Str, b: Str, t: Str)
    requires COLON !in s && COLON !in t && a + [COLON] + s == b + [COLON] + t
    ensures a == b && s == t
  {
    var x, y := a + [COLON] + s, b + [COLON] + t;
    assert x[|a|] == COLON && y[|b|] == COLON;
    forall i | |a| < i < |x|
      ensures x[i] != COLON
    {
      assert x[i] == s[i - |a| - 1] && s[i - |a| - 1] in s;
    }
    forall i | |b| < i < |y|
      ensures y[i] != COLON
    {
      assert y[i] == t[i - |b| - 1] && t[i - |b| - 1] in t;
    }
    assert x[..|a|] == a && y[..|b|] == b && x[|a| + 1..] == s && y[|b| + 1..] == t;
  }

  // ------------------------------------------------------------------ the tables

  datatype Row = Row(rule: Rule, enabled: bool, nextRunAt: Option<int>, lastRunAt: Option<int>)

  type JobId = nat

  datatype Occurrence = Occurrence(schedule: Id, intended: int)

  /** `jobs` holds each job's idempotency key, `byKey` the unique index over them; fresh job ids are counted up. */
  datatype Store = Store(
    rows: map<Id, Row>, jobs: map<JobId, Option<Str>>, byKey: map<Str, JobId>, occurrences: map<Occurrence, JobId>,
    issued: JobId)

  /** A job with a known key is not inserted again. */
  function Enqueue(s: Store, key: Option<Str>): (r: (Store, JobId)) {
    if key.Some? && key.value in s.byKey then (s, s.byKey[key.value])
    else
      (s.(jobs := s.jobs[s.issued := key], issued := s.issued + 1,
          byKey := if key.Some? then s.byKey[key.value := s.issued] else s.byKey),
       s.issued)
  }

  /** One transaction: nothing happens unless the schedule still waits for `intended`, or if that occurrence has its job. */
  function Materialize(s: Store, id: Id, intended: int): Store {
    if id !in s.rows || !s.rows[id].enabled || s.rows[id].nextRunAt != Some(intended) then s
    else if Occurrence(id, intended) in s.occurrences then s
    else
      var (t, job) := Enqueue(s, Some(KeyOf(id, intended)));
      t.(occurrences := t.occurrences[Occurrence(id, intended) := job])
  }

  /** The second write of a poll, from the row as it was read: move on to the next time, or switch the schedule off. */
  function Advance(s: Store, id: Id, read: Row): Store
    requires read.nextRunAt.Some?
  {
    if id !in s.rows then s
    else
      var row := s.rows[id];
      var moved :=
        match Next(read.rule, read.nextRunAt.value)
        case None => row.(enabled := false)
        case Some(next) =>
          row.(lastRunAt := read.nextRunAt, nextRunAt := if read.rule.Once? then row.nextRunAt else Some(next),
               enabled := !read.rule.Once?);
      s.(rows := s.rows[id := moved])
  }

  /** A next time of zero counts as none. */
  predicate IsDue(row: Row, now: int) {
    row.enabled && row.nextRunAt.Some? && row.nextRunAt.value != 0 && row.nextRunAt.value <= now
  }

  // ------------------------------------------------------------------ every occurrence has one job

  ghost predicate JobsSound(s: Store) {
    && (forall k | k in s.byKey :: s.byKey[k] in s.jobs && s.jobs[s.byKey[k]] == Some(k))
    && (forall j | j in s.jobs :: j < s.issued && (s.jobs[j].Some? ==> s.jobs[j].value in s.byKey && s.byKey[s.jobs[j].value] == j))
    && (forall o | o in s.occurrences :: s.occurrences[o] in s.jobs && s.jobs[s.occurrences[o]] == Some(KeyOf(o.schedule, o.intended)))
  }

  lemma EnqueueKeepsJobs(s: Store, key: Option<Str>)
    requires JobsSound(s)
    ensures var (t, job) := Enqueue(s, key);
            && JobsSound(t) && t.rows == s.rows && t.occurrences == s.occurrences
            && job in t.jobs && (key.Some? ==> t.jobs[job] == key)
            && forall j | j in s.jobs :: j in t.jobs && t.jobs[j] == s.jobs[j]
  {
    hide KeyOf;
  }

  lemma MaterializeKeepsJobs(s: Store, id: Id, intended: int)
    requires JobsSound(s)
    ensures JobsSound(Materialize(s, id, intended))
  {
    hide KeyOf, Enqueue;
    EnqueueKeepsJobs(s, Some(KeyOf(id, intended)));
  }

  /** No two occurrences share a job, and no second job ever carries an occurrence's key. */
  lemma OneJobPerOccurrence(s: Store, o: Occurrence, p: Occurrence, job: JobId)
    requires JobsSound(s) && o in s.occurrences && p in s.occurrences && job in s.jobs
    ensures s.occurrences[o] == s.occurrences[p] <==> o == p
    ensures s.jobs[job] == Some(KeyOf(o.schedule, o.intended)) <==> job == s.occurrences[o]
  {
    hide KeyOf;
    if s.occurrences[o] == s.occurrences[p] {
      KeysAreInjective(o.schedule, o.intended, p.schedule, p.intended);
    }
  }

  // ------------------------------------------------------------------ runs

  /** Where a daemon is within its poll of one schedule: it read the row, and perhaps materialised it. */
  datatype Activity = Idle | Due(id: Id, row: Row) | Ran(id: Id, row: Row)

  datatype System = System(store: Store, daemons: map<nat, Activity>) {
    function At(d: nat): Activity { if d in daemons then daemons[d] else Idle }
  }

  datatype Step = Read(d: nat, id: Id, now: int) | RunIt(d: nat) | Move(d: nat) | Crash(d: nat) | Submit(key: Option<Str>)

  function Apply(sys: System, e: Step): System {
    match e
    case Read(d, id, now) =>
      if sys.At(d) == Idle && id in sys.store.rows && IsDue(sys.store.rows[id], now)
      then sys.(daemons := sys.daemons[d := Due(id, sys.store.rows[id])]) else sys
    case RunIt(d) =>
      (match sys.At(d)
       case Due(id, row) =>
         if row.nextRunAt == None then sys
         else System(Materialize(sys.store, id, row.nextRunAt.value), sys.daemons[d := Ran(id, row)])
       case _ => sys)
    case Move(d) =>
      (match sys.At(d)
       case Ran(id, row) =>
         if row.nextRunAt == None then sys
         else System(Advance(sys.store, id, row), sys.daemons[d := Idle])
       case _ => sys)
    case Crash(d) => sys.(daemons := sys.daemons[d := Idle])
    case Submit(key) => sys.(store := Enqueue(sys.store, key).0)
  }

  function Run(sys: System, es: seq<Step>): System
    decreases |es|
  {
    if es == [] then sys else Run(Apply(sys, es[0]), es[1..])
  }

  lemma StepKeepsJobs(sys: System, e: Step)
    requires JobsSound(sys.store)
    ensures JobsSound(Apply(sys, e).store)
    ensures forall o | o in sys.store.occurrences ::
              o in Apply(sys, e).store.occurrences && Apply(sys, e).store.occurrences[o] == sys.store.occurrences[o]
  {
    hide KeyOf, Enqueue, Next;
    match e {
      case Read(d, id, now) =>
      case RunIt(d) =>
        if sys.At(d).Due? && sys.At(d).row.nextRunAt.Some? {
          MaterializeKeepsJobs(sys.store, sys.At(d).id, sys.At(d).row.nextRunAt.value);
          MaterializeKeepsOccurrences(sys.store, sys.At(d).id, sys.At(d).row.nextRunAt.value);
        }
      case Move(d) =>
      case Crash(d) =>
      case Submit(key) => EnqueueKeepsJobs(sys.store, key);
    }
  }

  lemma MaterializeKeepsOccurrences(s: Store, id: Id, intended: int)
    requires JobsSound(s)
    ensures var t := Materialize(s, id, intended);
            forall o | o in s.occurrences :: o in t.occurrences && t.occurrences[o] == s.occurrences[o]
  {
    hide KeyOf, Enqueue;
    EnqueueKeepsJobs(s, Some(KeyOf(id, intended)));
  }

  /** However daemons interleave and crash, an occurrence once materialised keeps its one job for ever. */
  lemma {:induction false} NeverDoubled(sys: System, es: seq<Step>)
    requires JobsSound(sys.store)
    ensures JobsSound(Run(sys, es).store)
    ensures forall o | o in sys.store.occurrences ::
              o in Run(sys, es).store.occurrences && Run(sys, es).store.occurrences[o] == sys.store.occurrences[o]
    decreases |es|
  {
    hide JobsSound, Apply;
    if es != [] {
      StepKeepsJobs(sys, es[0]);
      NeverDoubled(Apply(sys, es[0]), es[1..]);
    }
  }

  // ------------------------------------------------------------------ never before its time

  /** At the k-th step some daemon read the schedule enabled and waiting for `t`, at a clock not before `t`. */
  predicate ReadDue(sys: System, es: seq<Step>, k: nat, id: Id, t: int) {
    && k < |es| && es[k].Read? && es[k].id == id && t <= es[k].now
    && var rows := Run(sys, es[..k]).store.rows;
       id in rows && rows[id].enabled && rows[id].nextRunAt == Some(t)
  }

  ghost predicate WasReadDue(sys: System, es: seq<Step>, id: Id, t: int) {
    exists k :: 0 <= k < |es| && ReadDue(sys, es, k, id, t)
  }

  /** Every occurrence that is new since the start, and every time a daemon is working on, was read as due. */
  ghost predicate AllReadDue(sys: System, es: seq<Step>) {
    && (forall o | o in Run(sys, es).store.occurrences && o !in sys.store.occurrences ::
          WasReadDue(sys, es, o.schedule, o.intended))
    && forall d: nat | Run(sys, es).At(d) != Idle ::
         var a := Run(sys, es).At(d);
         a.row.nextRunAt.Some? && WasReadDue(sys, es, a.id, a.row.nextRunAt.value)
  }

  lemma {:induction false} RunLast(sys: System, es: seq<Step>)
    requires es != []
    ensures Run(sys, es) == Apply(Run(sys, es[..|es| - 1]), es[|es| - 1])
    decreases |es|
  {
    hide Apply;
    if |es| == 1 {
      var none: seq<Step> := [];
      assert es[1..] == none && es[..0] == none;
    } else {
      assert es[..|es| - 1][1..] == es[1..][..|es| - 2];
      RunLast(Apply(sys, es[0]), es[1..]);
    }
  }

  lemma ReadDueStays(sys: System, es: seq<Step>, k: nat, id: Id, t: int)
    requires es != [] && ReadDue(sys, es[..|es| - 1], k, id, t)
    ensures ReadDue(sys, es, k, id, t)
  {
    hide Run;
    assert es[..|es| - 1][..k] == es[..k];
  }

  /** What a step can add: a time that a daemon was working on, or work on the time a schedule awaits. */
  lemma StepAdds(sys: System, e: Step)
    requires forall d: nat | sys.At(d) != Idle :: sys.At(d).row.nextRunAt.Some?
    ensures forall o | o in Apply(sys, e).store.occurrences && o !in sys.store.occurrences ::
              exists d: nat :: sys.At(d) != Idle && o == Occurrence(sys.At(d).id, sys.At(d).row.nextRunAt.value)
    ensures forall d: nat | Apply(sys, e).At(d) != Idle ::
              var b := Apply(sys, e).At(d);
              || (sys.At(d) != Idle && sys.At(d).id == b.id && sys.At(d).row == b.row)
              || (e.Read? && e.id == b.id && b.id in sys.store.rows && b.row == sys.store.rows[b.id] && b.row.enabled
                  && b.row.nextRunAt.Some? && b.row.nextRunAt.value <= e.now)
  {
    hide Materialize, Enqueue, Advance;
    if e.RunIt? && sys.At(e.d).Due? {
      MaterializeExactly(sys.store, sys.At(e.d).id, sys.At(e.d).row.nextRunAt.value);
    } else if e.Submit? {
      EnqueueKeepsTables(sys.store, e.key);
    }
    assert e.Move? ==> Apply(sys, e).store.occurrences == sys.store.occurrences by { MoveKeepsOccurrences(sys, e); }
  }

  lemma MoveKeepsOccurrences(sys: System, e: Step)
    ensures e.Move? ==> Apply(sys, e).store.occurrences == sys.store.occurrences
  {}

  /** However daemons interleave and crash, no occurrence is materialised before its time. */
  lemma {:induction false} NeverEarly(sys: System, es: seq<Step>)
    requires forall d: nat :: sys.At(d) == Idle
    ensures AllReadDue(sys, es)
    decreases |es|
  {
    hide Run, Apply, ReadDue;
    if es == [] {
      assert Run(sys, es) == sys by { RunNothing(sys); }
    } else {
      var n := |es| - 1;
      NeverEarly(sys, es[..n]);
      RunLast(sys, es);
      StepReadsDue(sys, es);
    }
  }

  lemma RunNothing(sys: System)
    ensures Run(sys, []) == sys
  {}

  lemma StepReadsDue(sys: System, es: seq<Step>)
    requires es != [] && AllReadDue(sys, es[..|es| - 1])
    requires Run(sys, es) == Apply(Run(sys, es[..|es| - 1]), es[|es| - 1])
    ensures AllReadDue(sys, es)
  {
    hide Run, Apply;
    var n := |es| - 1;
    var before, after, e := Run(sys, es[..n]), Run(sys, es), es[n];
    StepAdds(before, e);
    forall id, t | WasReadDue(sys, es[..n], id, t)
      ensures WasReadDue(sys, es, id, t)
    {
      var k :| 0 <= k < n && ReadDue(sys, es[..n], k, id, t);
      ReadDueStays(sys, es, k, id, t);
    }
    forall d: nat | after.At(d) != Idle
      ensures var a := after.At(d);
              a.row.nextRunAt.Some? && WasReadDue(sys, es, a.id, a.row.nextRunAt.value)
    {
      var a := after.At(d);
      if !(before.At(d) != Idle && before.At(d).id == a.id && before.At(d).row == a.row) {
        assert ReadDue(sys, es, n, a.id, a.row.nextRunAt.value);
      }
    }
  }

  // ------------------------------------------------------------------ one daemon at a time

  predicate ByOrNobody(e: Step, d: nat) {
    match e
    case Read(x, _, _) => x == d
    case RunIt(x) => x == d
    case Move(x) => x == d
    case Crash(x) => x == d
    case Submit(_) => true
  }

  /** `t` is one of the first `m` times of the schedule. */
  ghost predicate AmongFirst(rule: Rule, first: int, m: nat, t: int) {
    exists k: nat :: k < m && t == TimeOf(rule, first, k)
  }

  /** The schedule waits for its `n`-th time, and exactly its first `m` times have been materialised. */
  ghost predicate Exact(sys: System, d: nat, id: Id, rule: Rule, first: int, n: nat, m: nat) {
    && (m == n || m == n + 1)
    && id in sys.store.rows
    && sys.store.rows[id].rule == rule && sys.store.rows[id].enabled
    && sys.store.rows[id].nextRunAt == Some(TimeOf(rule, first, n))
    && (forall t: int :: Occurrence(id, t) in sys.store.occurrences <==> AmongFirst(rule, first, m, t))
    && var a := sys.At(d);
       && (a.Due? ==> a.row.nextRunAt.Some?) && (a.Ran? ==> a.row.nextRunAt.Some?)
       && (a != Idle && a.id == id ==> a.row.rule == rule && a.row.nextRunAt == Some(TimeOf(rule, first, n)))
       && (a.Ran? && a.id == id ==> m == n + 1)
  }

  lemma AmongFirstGrows(rule: Rule, first: int, m: nat)
    requires Recurs(rule)
    ensures !AmongFirst(rule, first, m, TimeOf(rule, first, m))
    ensures forall t: int :: AmongFirst(rule, first, m + 1, t) <==> AmongFirst(rule, first, m, t) || t == TimeOf(rule, first, m)
  {
    hide TimeOf;
    forall k: nat | k < m
      ensures TimeOf(rule, first, k) != TimeOf(rule, first, m)
    {
      TimesIncrease(rule, first, k, m);
    }
    forall t: int
      ensures AmongFirst(rule, first, m + 1, t) <==> AmongFirst(rule, first, m, t) || t == TimeOf(rule, first, m)
    {
      if AmongFirst(rule, first, m + 1, t) {
        var k: nat :| k < m + 1 && t == TimeOf(rule, first, k);
        if k < m { assert k < m && t == TimeOf(rule, first, k); }
      }
      if AmongFirst(rule, first, m, t) {
        var k: nat :| k < m && t == TimeOf(rule, first, k);
        assert k < m + 1 && t == TimeOf(rule, first, k);
      }
      assert t == TimeOf(rule, first, m) ==> m < m + 1 && t == TimeOf(rule, first, m);
    }
  }

  lemma EnqueueKeepsTables(s: Store, key: Option<Str>)
    ensures Enqueue(s, key).0.rows == s.rows && Enqueue(s, key).0.occurrences == s.occurrences
  {}

  lemma MaterializeExactly(s: Store, id: Id, intended: int)
    ensures var t := Materialize(s, id, intended);
            && t.rows == s.rows
            && forall o :: o in t.occurrences <==>
                 o in s.occurrences ||
                 (o == Occurrence(id, intended) && id in s.rows && s.rows[id].enabled && s.rows[id].nextRunAt == Some(intended))
  {
    hide Enqueue, KeyOf;
    EnqueueKeepsTables(s, Some(KeyOf(id, intended)));
  }

  lemma RunItKeepsExact(sys: System, d: nat, id: Id, rule: Rule, first: int, n: nat, m: nat)
    requires Recurs(rule) && Exact(sys, d, id, rule, first, n, m) && sys.At(d).Due?
    ensures Exact(Apply(sys, RunIt(d)), d, id, rule, first, n, if sys.At(d).id == id then n + 1 else m)
  {
    hide TimeOf, Materialize, AmongFirst, Recurs;
    var a := sys.At(d);
    MaterializeExactly(sys.store, a.id, a.row.nextRunAt.value);
    AmongFirstGrows(rule, first, n);
    assert Apply(sys, RunIt(d)).At(d) == Ran(a.id, a.row);
  }

  lemma MoveKeepsExact(sys: System, d: nat, id: Id, rule: Rule, first: int, n: nat, m: nat)
    requires Recurs(rule) && Exact(sys, d, id, rule, first, n, m) && sys.At(d).Ran?
    ensures Exact(Apply(sys, Move(d)), d, id, rule, first, if sys.At(d).id == id then n + 1 else n, m)
  {
    hide AmongFirst, Next;
    var a := sys.At(d);
    NextIsLater(rule, TimeOf(rule, first, n));
    assert TimeOf(rule, first, n + 1) == Next(rule, TimeOf(rule, first, n)).value;
    assert Apply(sys, Move(d)).At(d) == Idle;
  }

  lemma StepKeepsExact(sys: System, d: nat, id: Id, rule: Rule, first: int, n: nat, m: nat, e: Step) returns (n2: nat, m2: nat)
    requires Recurs(rule) && Exact(sys, d, id, rule, first, n, m) && ByOrNobody(e, d)
    ensures Exact(Apply(sys, e), d, id, rule, first, n2, m2) && n <= n2 && m <= m2
  {
    hide TimeOf, AmongFirst, Materialize, Advance, Enqueue, Recurs;
    n2, m2 := n, m;
    if e == RunIt(d) && sys.At(d).Due? {
      RunItKeepsExact(sys, d, id, rule, first, n, m);
      m2 := if sys.At(d).id == id then n + 1 else m;
    } else if e == Move(d) && sys.At(d).Ran? {
      MoveKeepsExact(sys, d, id, rule, first, n, m);
      n2 := if sys.At(d).id == id then n + 1 else n;
    } else if e.Submit? {
      EnqueueKeepsTables(sys.store, e.key);
    } else if e.Crash? {
      assert Apply(sys, e).At(d) == Idle;
    } else if e.Read? && Apply(sys, e) != sys {
      assert Apply(sys, e).At(d) == Due(e.id, sys.store.rows[e.id]);
    }
  }

  /**
   * One daemon, crashing anywhere and any number of times, next to any other traffic in the job table: after every run
   * the occurrences of an unedited recurring schedule are exactly its first times, none skipped.
   */
  lemma {:induction false} ExactlyOnce(sys: System, d: nat, id: Id, rule: Rule, first: int, n: nat, m: nat, es: seq<Step>)
    returns (n2: nat, m2: nat)
    requires Recurs(rule) && Exact(sys, d, id, rule, first, n, m) && forall e | e in es :: ByOrNobody(e, d)
    ensures Exact(Run(sys, es), d, id, rule, first, n2, m2) && n <= n2 && m <= m2
    decreases |es|
  {
    hide Exact, Apply, Recurs, ByOrNobody;
    n2, m2 := n, m;
    if es != [] {
      assert es[0] in es && forall e | e in es[1..] :: e in es;
      n2, m2 := StepKeepsExact(sys, d, id, rule, first, n, m, es[0]);
      n2, m2 := ExactlyOnce(Apply(sys, es[0]), d, id, rule, first, n2, m2, es[1..]);
    }
  }

  /** A newly created schedule is where `ExactlyOnce` begins. */
  lemma CreatedIsExact(sys: System, d: nat, id: Id, rule: Rule, first: int, last: Option<int>)
    requires id in sys.store.rows && sys.store.rows[id] == Row(rule, true, Some(first), last)
    requires sys.At(d) == Idle && forall t: int :: Occurrence(id, t) !in sys.store.occurrences
    ensures Exact(sys, d, id, rule, first, 0, 0)
  {}

  /** For intervals the materialised times are first, first + p, first + 2p, ..., each once. */
  lemma IntervalOccurrences(sys: System, d: nat, id: Id, count: nat, unit: TimeUnit, first: int, n: nat, m: nat, t: int)
    requires count > 0 && Exact(sys, d, id, Interval(count, unit), first, n, m)
    ensures Occurrence(id, t) in sys.store.occurrences <==>
            exists k: nat :: k < m && t == NthRun(first, count * unit.Milliseconds(), k)
  {
    hide Next, TimeOf;
    forall k: nat
      ensures TimeOf(Interval(count, unit), first, k) == NthRun(first, count * unit.Milliseconds(), k)
    {
      IntervalTimes(count, unit, first, k);
    }
  }

  function NthRun(first: int, period: int, k: nat): int {
    first + k * period
  }

  /** An undisturbed poll of a due schedule materialises the time it waits for and moves on, unless that time is zero:
      then the schedule stalls. */
  lemma PollAdvancesUnlessZero(sys: System, d: nat, id: Id, rule: Rule, first: int, n: nat, m: nat, now: int)
    requires Recurs(rule) && Exact(sys, d, id, rule, first, n, m) && sys.At(d) == Idle
    requires TimeOf(rule, first, n) <= now
    ensures var after := Apply(Apply(Apply(sys, Read(d, id, now)), RunIt(d)), Move(d));
            if TimeOf(rule, first, n) != 0 then Exact(after, d, id, rule, first, n + 1, n + 1) && after.At(d) == Idle
            else after == sys
  {
    hide TimeOf, AmongFirst, Materialize, Advance, Recurs;
    var s1 := Apply(sys, Read(d, id, now));
    if TimeOf(rule, first, n) != 0 {
      assert s1.At(d) == Due(id, sys.store.rows[id]);
      RunItKeepsExact(s1, d, id, rule, first, n, m);
      var s2 := Apply(s1, RunIt(d));
      assert s2.At(d) == Ran(id, sys.store.rows[id]);
      MoveKeepsExact(s2, d, id, rule, first, n, n + 1);
    }
  }

  // ------------------------------------------------------------------ schedules that run once

  /** A schedule that runs once, at `first`: nobody knows of another time. */
  ghost predicate AwaitsOnce(sys: System, id: Id, first: int) {
    && id in sys.store.rows && sys.store.rows[id].rule == Once && sys.store.rows[id].nextRunAt == Some(first)
    && (forall t: int | Occurrence(id, t) in sys.store.occurrences :: t == first)
    && forall d: nat | sys.At(d) != Idle && sys.At(d).id == id :: sys.At(d).row.rule == Once && sys.At(d).row.nextRunAt == Some(first)
  }

  lemma StepAwaitsOnce(sys: System, e: Step, id: Id, first: int)
    requires AwaitsOnce(sys, id, first)
    ensures AwaitsOnce(Apply(sys, e), id, first)
    ensures !sys.store.rows[id].enabled ==>
              !Apply(sys, e).store.rows[id].enabled
              && forall t: int :: Occurrence(id, t) in Apply(sys, e).store.occurrences <==> Occurrence(id, t) in sys.store.occurrences
  {
    hide Materialize, Enqueue;
    if e.RunIt? && sys.At(e.d).Due? && sys.At(e.d).row.nextRunAt.Some? {
      MaterializeExactly(sys.store, sys.At(e.d).id, sys.At(e.d).row.nextRunAt.value);
    } else if e.Submit? {
      EnqueueKeepsTables(sys.store, e.key);
    }
    forall d: nat ensures var a, b := sys.At(d), Apply(sys, e).At(d);
                          || a == b || b == Idle || (b.Ran? && a.Due? && a.id == b.id && a.row == b.row)
                          || (b.Due? && b.id in sys.store.rows && b.row == sys.store.rows[b.id])
    {
      ActivitiesCome(sys, e, d);
    }
  }

  /** However daemons interleave and crash: a schedule for once has no occurrence but its one, and once it is switched off
      none at all is added. */
  lemma {:induction false} OnceRunsOnce(sys: System, es: seq<Step>, id: Id, first: int)
    requires AwaitsOnce(sys, id, first)
    ensures AwaitsOnce(Run(sys, es), id, first)
    ensures !sys.store.rows[id].enabled ==>
              !Run(sys, es).store.rows[id].enabled
              && forall t: int :: Occurrence(id, t) in Run(sys, es).store.occurrences <==> Occurrence(id, t) in sys.store.occurrences
    decreases |es|
  {
    hide AwaitsOnce, Apply;
    if es != [] {
      StepAwaitsOnce(sys, es[0], id, first);
      AwaitsOnceHasRow(sys, id, first);
      AwaitsOnceHasRow(Apply(sys, es[0]), id, first);
      OnceRunsOnce(Apply(sys, es[0]), es[1..], id, first);
    }
    AwaitsOnceHasRow(Run(sys, es), id, first);
  }

  lemma AwaitsOnceHasRow(sys: System, id: Id, first: int)
    requires AwaitsOnce(sys, id, first)
    ensures id in sys.store.rows
  {}

  /** What a poll of a due schedule leaves behind: its occurrence, and the row moved on, or switched off after its one run or
      where no next time exists. */
  lemma PolledRow(s: Store, id: Id, now: int)
    requires id in s.rows && IsDue(s.rows[id], now)
    ensures var row, u := s.rows[id], PollOne(s, id, s.rows[id], now);
            var t := row.nextRunAt.value;
            && id in u.rows && Occurrence(id, t) in u.occurrences
            && (forall x | x in s.rows && x != id :: x in u.rows && u.rows[x] == s.rows[x])
            && match row.rule
               case Once => u.rows[id] == row.(lastRunAt := Some(t), enabled := false)
               case Unsupported => u.rows[id] == row.(enabled := false)
               case Interval(n, unit) => u.rows[id] == row.(lastRunAt := Some(t), nextRunAt := Some(t + n * unit.Milliseconds()))
               case Cron(minute, hour) =>
                 if 0 <= minute <= 59 && 0 <= hour <= 23 then
                   && u.rows[id] == row.(lastRunAt := Some(t), nextRunAt := u.rows[id].nextRunAt) && u.rows[id].nextRunAt.Some?
                   && var next := u.rows[id].nextRunAt.value;
                      && t < next && next % DAY == hour * HOUR + minute * MINUTE
                      && forall x: int | t < x && x % DAY == hour * HOUR + minute * MINUTE :: next <= x
                 else u.rows[id] == row.(enabled := false)
  {
    hide Materialize;
    var row := s.rows[id];
    MaterializeExactly(s, id, row.nextRunAt.value);
    if row.rule.Cron? && 0 <= row.rule.minute <= 59 && 0 <= row.rule.hour <= 23 {
      CronIsLeast(row.rule.minute, row.rule.hour, row.nextRunAt.value);
    }
  }

  // ------------------------------------------------------------------ several daemons

  ghost predicate Materialized(s: Store, id: Id, t: int) {
    Occurrence(id, t) in s.occurrences
  }

  /** `t` is a time of the schedule, and every earlier one has been materialised. */
  ghost predicate Gapless(s: Store, id: Id, rule: Rule, first: int, t: int) {
    exists j: nat :: t == TimeOf(rule, first, j) && EarlierAre(s, id, rule, first, j)
  }

  ghost predicate EarlierAre(s: Store, id: Id, rule: Rule, first: int, j: nat) {
    forall k: nat | k < j :: Materialized(s, id, TimeOf(rule, first, k))
  }

  ghost predicate RowGapless(s: Store, id: Id, rule: Rule, first: int, row: Row) {
    row.rule == rule && row.nextRunAt.Some? && Gapless(s, id, rule, first, row.nextRunAt.value)
  }

  /** Nothing before the awaited time is missing, nor before any time a daemon has read. */
  ghost predicate NoGap(sys: System, id: Id, rule: Rule, first: int) {
    && id in sys.store.rows && RowGapless(sys.store, id, rule, first, sys.store.rows[id])
    && forall d: nat | sys.At(d) != Idle && sys.At(d).id == id :: RowGapless(sys.store, id, rule, first, sys.At(d).row)
  }

  /** A daemon moves the schedule past a time that has no job: the transaction answered nothing, and it goes on. */
  predicate Skips(sys: System, e: Step, id: Id) {
    && e.Move? && sys.At(e.d).Ran? && sys.At(e.d).id == id && sys.At(e.d).row.nextRunAt.Some?
    && Occurrence(id, sys.At(e.d).row.nextRunAt.value) !in sys.store.occurrences
  }

  lemma GaplessGrows(s: Store, t: Store, id: Id, rule: Rule, first: int, time: int)
    requires Gapless(s, id, rule, first, time) && forall o | o in s.occurrences :: o in t.occurrences
    ensures Gapless(t, id, rule, first, time)
  {
    hide TimeOf;
    var j: nat :| time == TimeOf(rule, first, j) && EarlierAre(s, id, rule, first, j);
    assert EarlierAre(t, id, rule, first, j);
  }

  /** The time after a gapless one is gapless exactly when the gapless one was materialised. */
  lemma NextIsGaplessExactlyWhen(s: Store, id: Id, rule: Rule, first: int, time: int)
    requires Recurs(rule) && Gapless(s, id, rule, first, time)
    ensures Next(rule, time).Some?
    ensures Gapless(s, id, rule, first, Next(rule, time).value) <==> Occurrence(id, time) in s.occurrences
  {
    hide Next, Recurs;
    NextIsLater(rule, time);
    var j: nat :| time == TimeOf(rule, first, j) && EarlierAre(s, id, rule, first, j);
    var next := Next(rule, time).value;
    assert next == TimeOf(rule, first, j + 1);
    if Occurrence(id, time) in s.occurrences {
      assert EarlierAre(s, id, rule, first, j + 1);
    }
    if Gapless(s, id, rule, first, next) {
      var i: nat :| next == TimeOf(rule, first, i) && EarlierAre(s, id, rule, first, i);
      if i < j + 1 { TimesIncrease(rule, first, i, j + 1); }
      if j + 1 < i { TimesIncrease(rule, first, j + 1, i); }
      assert i == j + 1 && Materialized(s, id, TimeOf(rule, first, j));
    }
  }

  lemma OccurrencesStay(sys: System, e: Step)
    ensures forall o | o in sys.store.occurrences :: o in Apply(sys, e).store.occurrences
    ensures !e.Move? ==> Apply(sys, e).store.rows == sys.store.rows
  {
    hide Materialize, Enqueue;
    if e.RunIt? && sys.At(e.d).Due? && sys.At(e.d).row.nextRunAt.Some? {
      MaterializeExactly(sys.store, sys.At(e.d).id, sys.At(e.d).row.nextRunAt.value);
    } else if e.Submit? {
      EnqueueKeepsTables(sys.store, e.key);
    }
  }

  lemma ActivitiesCome(sys: System, e: Step, d: nat)
    ensures var a, b := sys.At(d), Apply(sys, e).At(d);
            || a == b || b == Idle || (b.Ran? && a.Due? && a.id == b.id && a.row == b.row)
            || (b.Due? && b.id in sys.store.rows && b.row == sys.store.rows[b.id])
  {
    hide Materialize, Enqueue, Advance, IsDue;
  }

  /** What a step does to the awaited time. */
  lemma RowsMove(sys: System, e: Step, id: Id)
    requires id in sys.store.rows
    ensures id in Apply(sys, e).store.rows
    ensures var a := if e.Move? then sys.At(e.d) else Idle;
            Apply(sys, e).store.rows[id] ==
            if a.Ran? && a.id == id && a.row.nextRunAt.Some? then Advance(sys.store, id, a.row).rows[id] else sys.store.rows[id]
  {
    hide Materialize, Enqueue, Next;
    OccurrencesStay(sys, e);
  }

  /** Whatever daemon takes whatever step: a gap opens exactly when the step moves past a time that has no job. */
  lemma StepOpensNoGapExactlyWhen(sys: System, id: Id, rule: Rule, first: int, e: Step)
    requires Recurs(rule) && NoGap(sys, id, rule, first)
    ensures NoGap(Apply(sys, e), id, rule, first) <==> !Skips(sys, e, id)
  {
    hide Apply, Advance, Gapless, Recurs;
    var after := Apply(sys, e);
    OccurrencesStay(sys, e);
    RowsMove(sys, e, id);
    forall d: nat | after.At(d) != Idle && after.At(d).id == id
      ensures RowGapless(after.store, id, rule, first, after.At(d).row)
    {
      ActivitiesCome(sys, e, d);
      GaplessGrows(sys.store, after.store, id, rule, first, after.At(d).row.nextRunAt.value);
    }
    if e.Move? && sys.At(e.d).Ran? && sys.At(e.d).id == id {
      MoveGaplessExactlyWhen(sys, id, rule, first, e.d);
    } else {
      GaplessGrows(sys.store, after.store, id, rule, first, sys.store.rows[id].nextRunAt.value);
    }
  }

  lemma MoveGaplessExactlyWhen(sys: System, id: Id, rule: Rule, first: int, d: nat)
    requires Recurs(rule) && NoGap(sys, id, rule, first) && sys.At(d).Ran? && sys.At(d).id == id
    ensures id in Apply(sys, Move(d)).store.rows
    ensures var after := Apply(sys, Move(d)).store;
            RowGapless(after, id, rule, first, after.rows[id]) <==> !Skips(sys, Move(d), id)
  {
    hide Gapless, Next, Recurs;
    var row := sys.At(d).row;
    assert RowGapless(sys.store, id, rule, first, row);
    var after := Apply(sys, Move(d)).store;
    NextIsGaplessExactlyWhen(sys.store, id, rule, first, row.nextRunAt.value);
    assert !rule.Once? by { RecursIsNotOnce(rule); }
    assert after.occurrences == sys.store.occurrences;
    SameGaps(sys.store, after, id, rule, first, Next(rule, row.nextRunAt.value).value);
  }

  lemma RecursIsNotOnce(rule: Rule)
    requires Recurs(rule)
    ensures !rule.Once?
  {}

  lemma SameGaps(s: Store, t: Store, id: Id, rule: Rule, first: int, time: int)
    requires s.occurrences == t.occurrences
    ensures Gapless(s, id, rule, first, time) <==> Gapless(t, id, rule, first, time)
  {
    hide Gapless;
    if Gapless(s, id, rule, first, time) { GaplessGrows(s, t, id, rule, first, time); }
    if Gapless(t, id, rule, first, time) { GaplessGrows(t, s, id, rule, first, time); }
  }

  predicate NeverSkips(sys: System, es: seq<Step>, id: Id)
    decreases |es|
  {
    es == [] || (!Skips(sys, es[0], id) && NeverSkips(Apply(sys, es[0]), es[1..], id))
  }

  /** No state of the run has a gap. */
  ghost predicate StaysGapless(sys: System, es: seq<Step>, id: Id, rule: Rule, first: int)
    decreases |es|
  {
    NoGap(sys, id, rule, first) && (es == [] || StaysGapless(Apply(sys, es[0]), es[1..], id, rule, first))
  }

  /** However many daemons interleave, crash and wake up late: no time of a recurring schedule is ever skipped exactly when
      no daemon moves past a time that has no job. */
  lemma {:induction false} NoneSkippedExactlyWhen(sys: System, es: seq<Step>, id: Id, rule: Rule, first: int)
    requires Recurs(rule) && NoGap(sys, id, rule, first)
    ensures StaysGapless(sys, es, id, rule, first) <==> NeverSkips(sys, es, id)
    decreases |es|
  {
    hide NoGap, Apply, Skips, Recurs;
    if es != [] {
      StepOpensNoGapExactlyWhen(sys, id, rule, first, es[0]);
      if !Skips(sys, es[0], id) {
        NoneSkippedExactlyWhen(Apply(sys, es[0]), es[1..], id, rule, first);
      }
    }
  }

  /** A newly created schedule has no gap, whatever daemons are about to do with other schedules. */
  lemma CreatedHasNoGap(sys: System, id: Id, rule: Rule, first: int, last: Option<int>)
    requires id in sys.store.rows && sys.store.rows[id] == Row(rule, true, Some(first), last)
    requires forall d: nat | sys.At(d) != Idle :: sys.At(d).id != id
    ensures NoGap(sys, id, rule, first)
  {
    assert TimeOf(rule, first, 0) == first && EarlierAre(sys.store, id, rule, first, 0);
  }

  // ------------------------------------------------------------------ two daemons

  /** A store with one schedule that runs every minute, first at 60000. */
  function MinuteStore(id: Id): Store {
    Store(map[id := Row(Interval(1, Minutes), true, Some(MINUTE), None)], map[], map[], map[], 0)
  }

  /** Daemon 0 is suspended after reading the schedule, and daemon 1 takes over; */
  function Takeover(id: Id): seq<Step> {
    [Read(0, id, MINUTE), Read(1, id, MINUTE), RunIt(1), Move(1)]
  }

  /** it polls once more and begins a third poll; */
  function ThirdPoll(id: Id): seq<Step> {
    [Read(1, id, 2 * MINUTE), RunIt(1), Move(1), Read(1, id, 3 * MINUTE)]
  }

  /** then daemon 0 wakes up and finishes its poll, before daemon 1 finishes its own. */
  function LateFinish(): seq<Step> {
    [RunIt(0), Move(0), RunIt(1), Move(1)]
  }

  /** Where a daemon is in its poll of the minute schedule, and the time it read. */
  datatype Phase = Resting | HasRead(t: int) | HasRun(t: int)

  ghost predicate InPhase(a: Activity, id: Id, ph: Phase) {
    match ph
    case Resting => a == Idle
    case HasRead(t) => a.Due? && a.id == id && a.row.rule == Interval(1, Minutes) && a.row.nextRunAt == Some(t)
    case HasRun(t) => a.Ran? && a.id == id && a.row.rule == Interval(1, Minutes) && a.row.nextRunAt == Some(t)
  }

  /** The schedule waits for `next`, the times in `done` are materialised, and the daemons 0 and 1 are in these phases. */
  ghost predicate Stage(sys: System, id: Id, next: int, done: set<int>, zero: Phase, one: Phase) {
    && id in sys.store.rows && sys.store.rows[id].rule == Interval(1, Minutes) && sys.store.rows[id].enabled
    && sys.store.rows[id].nextRunAt == Some(next)
    && (forall t: int :: Occurrence(id, t) in sys.store.occurrences <==> t in done)
    && InPhase(sys.At(0), id, zero) && InPhase(sys.At(1), id, one)
  }

  /** What one step of daemon 0 or 1 does to a stage. */
  lemma StageStep(sys: System, id: Id, next: int, done: set<int>, zero: Phase, one: Phase, e: Step)
    requires Stage(sys, id, next, done, zero, one) && next > 0
    requires e.Read? || e.RunIt? || e.Move?
    requires e.d == 0 || e.d == 1
    requires e.Read? ==> e.id == id && e.now == next
    requires var ph := if e.d == 0 then zero else one;
             if e.Read? then ph.Resting? else if e.RunIt? then ph.HasRead? else ph.HasRun?
    ensures var ph := if e.d == 0 then zero else one;
            var later := if e.Read? then HasRead(next) else if e.RunIt? then HasRun(ph.t) else Resting;
            Stage(Apply(sys, e), id, if e.Move? then ph.t + MINUTE else next,
                  if e.RunIt? && ph.t == next then done + {next} else done,
                  if e.d == 0 then later else zero, if e.d == 1 then later else one)
  {
    hide Materialize;
    var after := Apply(sys, e);
    if e.RunIt? {
      MaterializeExactly(sys.store, id, sys.At(e.d).row.nextRunAt.value);
    }
    assert after.At(1 - e.d) == sys.At(1 - e.d);
  }

  lemma {:induction false} RunConcat(sys: System, a: seq<Step>, b: seq<Step>)
    ensures Run(sys, a + b) == Run(Run(sys, a), b)
    decreases |a|
  {
    hide Apply;
    if a == [] {
      assert a + b == b;
    } else {
      assert (a + b)[1..] == a[1..] + b;
      RunConcat(Apply(sys, a[0]), a[1..], b);
    }
  }

  lemma RunFour(sys: System, a: Step, b: Step, c: Step, d: Step)
    ensures Run(sys, [a, b, c, d]) == Apply(Apply(Apply(Apply(sys, a), b), c), d)
  {
    hide Apply, Run;
    RunHead(sys, a, [b, c, d]);
    RunHead(Apply(sys, a), b, [c, d]);
    RunHead(Apply(Apply(sys, a), b), c, [d]);
    RunHead(Apply(Apply(Apply(sys, a), b), c), d, []);
    RunNothing(Apply(Apply(Apply(Apply(sys, a), b), c), d));
    assert [a, b, c, d] == [a] + [b, c, d] && [b, c, d] == [b] + [c, d] && [c, d] == [c] + [d] && [d] == [d] + [];
  }

  lemma RunHead(sys: System, e: Step, es: seq<Step>)
    ensures Run(sys, [e] + es) == Run(Apply(sys, e), es)
  {
    hide Apply;
    assert ([e] + es)[1..] == es;
  }

  lemma TakeoverStage(sys: System, id: Id)
    requires Stage(sys, id, MINUTE, {}, Resting, Resting)
    ensures Stage(Run(sys, Takeover(id)), id, 2 * MINUTE, {} + {MINUTE}, HasRead(MINUTE), Resting)
  {
    hide Stage, Apply, Run;
    var es, none := Takeover(id), {};
    RunFour(sys, es[0], es[1], es[2], es[3]);
    StageStep(sys, id, MINUTE, none, Resting, Resting, es[0]);
    var s1 := Apply(sys, es[0]);
    StageStep(s1, id, MINUTE, none, HasRead(MINUTE), Resting, es[1]);
    var s2 := Apply(s1, es[1]);
    StageStep(s2, id, MINUTE, none, HasRead(MINUTE), HasRead(MINUTE), es[2]);
    StageStep(Apply(s2, es[2]), id, MINUTE, none + {MINUTE}, HasRead(MINUTE), HasRun(MINUTE), es[3]);
  }

  lemma ThirdPollStage(sys: System, id: Id, done: set<int>)
    requires Stage(sys, id, 2 * MINUTE, done, HasRead(MINUTE), Resting)
    ensures Stage(Run(sys, ThirdPoll(id)), id, 3 * MINUTE, done + {2 * MINUTE}, HasRead(MINUTE), HasRead(3 * MINUTE))
  {
    hide Stage, Apply, Run;
    var es := ThirdPoll(id);
    RunFour(sys, es[0], es[1], es[2], es[3]);
    StageStep(sys, id, 2 * MINUTE, done, HasRead(MINUTE), Resting, es[0]);
    var s1 := Apply(sys, es[0]);
    StageStep(s1, id, 2 * MINUTE, done, HasRead(MINUTE), HasRead(2 * MINUTE), es[1]);
    var s2 := Apply(s1, es[1]);
    StageStep(s2, id, 2 * MINUTE, done + {2 * MINUTE}, HasRead(MINUTE), HasRun(2 * MINUTE), es[2]);
    StageStep(Apply(s2, es[2]), id, 3 * MINUTE, done + {2 * MINUTE}, HasRead(MINUTE), Resting, es[3]);
  }

  lemma LateFinishStage(sys: System, id: Id, done: set<int>)
    requires Stage(sys, id, 3 * MINUTE, done, HasRead(MINUTE), HasRead(3 * MINUTE))
    ensures Stage(Run(sys, LateFinish()), id, 4 * MINUTE, done, Resting, Resting)
  {
    hide Stage, Apply, Run;
    var es := LateFinish();
    RunFour(sys, es[0], es[1], es[2], es[3]);
    StageStep(sys, id, 3 * MINUTE, done, HasRead(MINUTE), HasRead(3 * MINUTE), es[0]);
    var s1 := Apply(sys, es[0]);
    StageStep(s1, id, 3 * MINUTE, done, HasRun(MINUTE), HasRead(3 * MINUTE), es[1]);
    var s2 := Apply(s1, es[1]);
    StageStep(s2, id, 2 * MINUTE, done, Resting, HasRead(3 * MINUTE), es[2]);
    StageStep(Apply(s2, es[2]), id, 2 * MINUTE, done, Resting, HasRun(3 * MINUTE), es[3]);
  }

  /** With two daemons an occurrence can be skipped: after this takeover the third minute was never materialised, and
      the schedule waits for the fourth. */
  lemma TakeoverMaySkip(id: Id)
    ensures var after := Run(System(MinuteStore(id), map[]), Takeover(id) + ThirdPoll(id) + LateFinish()).store;
            && id in after.rows && after.rows[id].nextRunAt == Some(4 * MINUTE)
            && forall t: int :: Occurrence(id, t) in after.occurrences <==> t == MINUTE || t == 2 * MINUTE
  {
    hide Stage, Apply, Run, Takeover, ThirdPoll, LateFinish;
    var start := System(MinuteStore(id), map[]);
    StageStart(id);
    TakeoverStage(start, id);
    ThirdPollStage(Run(start, Takeover(id)), id, {} + {MINUTE});
    RunConcat(start, Takeover(id), ThirdPoll(id));
    var mid := Run(start, Takeover(id) + ThirdPoll(id));
    LateFinishStage(mid, id, {} + {MINUTE} + {2 * MINUTE});
    RunConcat(start, Takeover(id) + ThirdPoll(id), LateFinish());
    StageEnds(Run(mid, LateFinish()), id, 4 * MINUTE, {} + {MINUTE} + {2 * MINUTE});
  }

  lemma StageStart(id: Id)
    ensures Stage(System(MinuteStore(id), map[]), id, MINUTE, {}, Resting, Resting)
  {}

  lemma StageEnds(sys: System, id: Id, next: int, done: set<int>)
    requires Stage(sys, id, next, done, Resting, Resting)
    ensures id in sys.store.rows && sys.store.rows[id].nextRunAt == Some(next)
    ensures forall t: int :: Occurrence(id, t) in sys.store.occurrences <==> t in done
  {}

  // ------------------------------------------------------------------ the daemon's poll

  /** One schedule of a poll, from the row as it was listed. */
  function PollOne(s: Store, id: Id, read: Row, now: int): Store {
    if !IsDue(read, now) then s else Advance(Materialize(s, id, read.nextRunAt.value), id, read)
  }

  function PollAll(s: Store, listed: seq<(Id, Row)>, now: int): Store
    decreases |listed|
  {
    if listed == [] then s else PollAll(PollOne(s, listed[0].0, listed[0].1, now), listed[1..], now)
  }

  /** An undisturbed poll of a schedule is the three steps of the run. */
  lemma PollIsThreeSteps(sys: System, d: nat, id: Id, now: int)
    requires id in sys.store.rows && sys.At(d) == Idle
    ensures Apply(Apply(Apply(sys, Read(d, id, now)), RunIt(d)), Move(d)).store == PollOne(sys.store, id, sys.store.rows[id], now)
  {
    hide Materialize, Advance;
    var row := sys.store.rows[id];
    if IsDue(row, now) {
      var s1 := Apply(sys, Read(d, id, now));
      assert s1.At(d) == Due(id, row);
      var s2 := Apply(s1, RunIt(d));
      assert s2.At(d) == Ran(id, row);
    }
  }

  lemma PollOneNeverEarly(s: Store, id: Id, read: Row, now: int)
    ensures forall o | o in PollOne(s, id, read, now).occurrences && o !in s.occurrences ::
              o.schedule == id && read.enabled && read.nextRunAt == Some(o.intended) && o.intended <= now
  {
    hide Enqueue, KeyOf, Next;
    if IsDue(read, now) { MaterializeExactly(s, id, read.nextRunAt.value); }
  }

  /** A poll materialises only times that were listed as due. */
  lemma {:induction false} PollNeverEarly(s: Store, listed: seq<(Id, Row)>, now: int)
    ensures forall o | o in PollAll(s, listed, now).occurrences && o !in s.occurrences ::
              o.intended <= now && exists i :: 0 <= i < |listed| && listed[i].0 == o.schedule && listed[i].1.enabled
                                               && listed[i].1.nextRunAt == Some(o.intended)
    decreases |listed|
  {
    hide PollOne;
    if listed != [] {
      PollOneNeverEarly(s, listed[0].0, listed[0].1, now);
      PollNeverEarly(PollOne(s, listed[0].0, listed[0].1, now), listed[1..], now);
      assert forall i | 0 <= i < |listed[1..]| :: listed[1..][i] == listed[i + 1];
    }
  }

  class ScheduleStore {
    var rows: map<Id, Row>
    var jobs: map<JobId, Option<Str>>
    var byKey: map<Str, JobId>
    var occurrences: map<Occurrence, JobId>
    var issued: JobId

    function View(): Store
      reads this
    {
      Store(rows, jobs, byKey, occurrences, issued)
    }

    constructor ()
      ensures View() == Store(map[], map[], map[], map[], 0)
    {
      rows, jobs, byKey, occurrences, issued := map[], map[], map[], map[], 0;
    }

    method EnqueueJob(key: Option<Str>) returns (job: JobId)
      modifies this
      ensures (View(), job) == Enqueue(old(View()), key)
    {
      if key.Some? && key.value in byKey {
        return byKey[key.value];
      }
      job := issued;
      jobs := jobs[job := key];
      issued := issued + 1;
      if key.Some? {
        byKey := byKey[key.value := job];
      }
    }

    method MaterializeSchedule(id: Id, intended: int) returns (job: Option<JobId>)
      modifies this
      ensures View() == Materialize(old(View()), id, intended)
      ensures job == if old(id in rows && rows[id].enabled && rows[id].nextRunAt == Some(intended))
                     then Some(occurrences[Occurrence(id, intended)]) else None
    {
      hide KeyOf;
      if id !in rows || !rows[id].enabled || rows[id].nextRunAt != Some(intended) {
        return None;
      }
      var occurrence := Occurrence(id, intended);
      if occurrence in occurrences {
        return Some(occurrences[occurrence]);
      }
      var enqueued := EnqueueJob(Some(KeyOf(id, intended)));
      occurrences := occurrences[occurrence := enqueued];
      job := Some(enqueued);
    }

    method UpdateAfterRun(id: Id, read: Row)
      requires read.nextRunAt.Some?
      modifies this`rows
      ensures View() == Advance(old(View()), id, read)
    {
      hide Next;
      if id !in rows {
        return;
      }
      var row := rows[id];
      match Next(read.rule, read.nextRunAt.value) {
        case None =>
          rows := rows[id := row.(enabled := false)];
        case Some(next) =>
          if read.rule.Once? {
            rows := rows[id := row.(lastRunAt := read.nextRunAt, enabled := false)];
          } else {
            rows := rows[id := row.(lastRunAt := read.nextRunAt, nextRunAt := Some(next), enabled := true)];
          }
      }
    }

    method MaterializeSchedules(listed: seq<(Id, Row)>, now: int)
      modifies this
      ensures View() == PollAll(old(View()), listed, now)
      ensures forall o | o in occurrences && o !in old(occurrences) ::
                o.intended <= now && exists i :: 0 <= i < |listed| && listed[i].0 == o.schedule && listed[i].1.enabled
                                                 && listed[i].1.nextRunAt == Some(o.intended)
    {
      hide Materialize, Advance;
      PollNeverEarly(View(), listed, now);
      var i := 0;
      while i < |listed|
        invariant 0 <= i <= |listed|
        invariant PollAll(View(), listed[i..], now) == PollAll(old(View()), listed, now)
      {
        var (id, read) := listed[i];
        assert listed[i..][1..] == listed[i + 1..];
        if IsDue(read, now) {
          var _ := MaterializeSchedule(id, read.nextRunAt.value);
          UpdateAfterRun(id, read);
        }
        i := i + 1;
      }
      assert listed[i..] == [];
    }
  }
}
