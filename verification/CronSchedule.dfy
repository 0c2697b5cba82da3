/** Scheduled functions: matching a whole expression, and claiming a minute before firing. */
module CronSchedule {
  import opened Exceptions
  import opened Strings
  import opened CronFields

  // ----- expressions -----

  /** A UTC minute on the calendar; Sunday is day 0 of the week. */
  datatype Clock = Clock(minute: int, hour: int, day: int, month: int, weekday: int)

  predicate OnCalendar(t: Clock) {
    0 <= t.minute <= 59 && 0 <= t.hour <= 23 && 1 <= t.day <= 31 && 1 <= t.month <= 12 && 0 <= t.weekday <= 6
  }

  function Lo(i: nat): int {
    if i == 2 || i == 3 then 1 else 0
  }

  function Hi(i: nat): int {
    if i == 0 then 59 else if i == 1 then 23 else if i == 2 then 31 else if i == 3 then 12 else 6
  }

  function Value(t: Clock, i: nat): int {
    if i == 0 then t.minute else if i == 1 then t.hour else if i == 2 then t.day else if i == 3 then t.month else t.weekday
  }

  predicate Field(f: seq<string>, i: nat, t: Clock)
    requires i < |f|
  {
    FieldMatches(Split(f[i], ','), Value(t, i), Lo(i), Hi(i))
  }

  predicate Matches(expr: string, t: Clock) {
    var f := Fields(expr);
    |f| == 5 && Field(f, 0, t) && Field(f, 1, t) && Field(f, 3, t)
    && (if f[2] != "*" && f[4] != "*" then Field(f, 2, t) || Field(f, 4, t) else Field(f, 2, t) && Field(f, 4, t))
  }

  predicate ExprValid(expr: string) {
    var f := Fields(expr);
    |f| == 5 && forall i :: 0 <= i < 5 ==> ValidParts(Split(f[i], ','), Lo(i), Hi(i))
  }

  predicate StepsPositive(expr: string) {
    var f := Fields(expr);
    forall i :: 0 <= i < |f| ==> PositiveSteps(Split(f[i], ','))
  }

  /** The value is in one of the parts of the field. */
  ghost predicate InUnion(field: string, val: int, lo: int, hi: int) {
    exists p :: p in Split(field, ',') && PartHas(p, val, lo, hi)
  }

  /** Which expressions may be saved: five fields, each valid within its own bounds. */
  lemma ExprValidMeans(expr: string)
    ensures var f := Fields(expr);
      ExprValid(expr) <==>
        && |f| == 5
        && ValidParts(Split(f[0], ','), 0, 59) && ValidParts(Split(f[1], ','), 0, 23) && ValidParts(Split(f[2], ','), 1, 31)
        && ValidParts(Split(f[3], ','), 1, 12) && ValidParts(Split(f[4], ','), 0, 6)
  {
    hide Fields, Split, ValidParts;
  }

  lemma StarHasAll(val: int, lo: int, hi: int)
    requires lo <= val <= hi
    ensures FieldMatches(Split("*", ','), val, lo, hi)
  {
    var star := "*";
    assert Index(star, ',') == 1 && Index(star, '/') == 1;
    assert Split(star, ',') == [star] && star[..1] == star;
  }

  /** What an expression means that may be saved and has only positive steps: minute, hour and month must
      each be in their field's union, and of the two day fields, a `*` leaves the decision to the other,
      while two restricted ones combine with or. */
  lemma ExpressionMeans(expr: string, t: Clock)
    requires OnCalendar(t) && ExprValid(expr) && StepsPositive(expr)
    ensures var f := Fields(expr);
      Matches(expr, t) <==>
        && InUnion(f[0], t.minute, 0, 59) && InUnion(f[1], t.hour, 0, 23) && InUnion(f[3], t.month, 1, 12)
        && ((f[2] == "*" && f[4] == "*")
            || (f[2] != "*" && InUnion(f[2], t.day, 1, 31)) || (f[4] != "*" && InUnion(f[4], t.weekday, 0, 6)))
  {
    var f := Fields(expr);
    ExprValidMeans(expr);
    MatchesByField(expr, t);
    FiveFields(expr);
    hide *;
    FieldUnion(f[0], t.minute, 0, 59);
    FieldUnion(f[1], t.hour, 0, 23);
    FieldUnion(f[2], t.day, 1, 31);
    FieldUnion(f[3], t.month, 1, 12);
    FieldUnion(f[4], t.weekday, 0, 6);
  }

  lemma FieldUnion(field: string, val: int, lo: int, hi: int)
    requires ValidParts(Split(field, ','), lo, hi) && PositiveSteps(Split(field, ','))
    ensures FieldMatches(Split(field, ','), val, lo, hi) <==> InUnion(field, val, lo, hi)
  {
    hide Split, FieldMatches, ValidParts, PositiveSteps, PartHas;
    MatchesUnion(Split(field, ','), val, lo, hi);
  }

  lemma FiveFields(expr: string)
    requires ExprValid(expr) && StepsPositive(expr)
    ensures |Fields(expr)| == 5 && forall i :: 0 <= i < 5 ==> PositiveSteps(Split(Fields(expr)[i], ','))
  {
    hide Fields, Split, PositiveSteps, ValidParts;
  }

  lemma MatchesByField(expr: string, t: Clock)
    requires OnCalendar(t) && |Fields(expr)| == 5
    ensures var f := Fields(expr);
      var day, week := FieldMatches(Split(f[2], ','), t.day, 1, 31), FieldMatches(Split(f[4], ','), t.weekday, 0, 6);
      Matches(expr, t) <==>
        && FieldMatches(Split(f[0], ','), t.minute, 0, 59) && FieldMatches(Split(f[1], ','), t.hour, 0, 23)
        && FieldMatches(Split(f[3], ','), t.month, 1, 12)
        && ((f[2] == "*" && f[4] == "*") || (f[2] != "*" && day) || (f[4] != "*" && week))
  {
    hide Fields, Split, FieldMatches;
    StarHasAll(t.day, 1, 31);
    StarHasAll(t.weekday, 0, 6);
  }

  method CronMatch(expr: string, t: Clock) returns (matched: bool)
    ensures matched == Matches(expr, t)
  {
    hide Fields, Split, FieldMatches;
    var f := Fields(expr);
    if |f| != 5 {
      return false;
    }
    var min := FieldMatch(f[0], t.minute, 0, 59);
    var hr := FieldMatch(f[1], t.hour, 0, 23);
    var dom := FieldMatch(f[2], t.day, 1, 31);
    var mon := FieldMatch(f[3], t.month, 1, 12);
    var dow := FieldMatch(f[4], t.weekday, 0, 6);
    var day := dom && dow;
    if f[2] != "*" && f[4] != "*" {
      day := dom || dow;
    }
    return min && hr && day && mon;
  }

  method FieldValid(field: string, lo: int, hi: int) returns (valid: bool)
    ensures valid == ValidParts(Split(field, ','), lo, hi)
  {
    hide Split, Atoi, Index;
    var parts := Split(field, ',');
    var n := 0;
    while n < |parts|
      invariant 0 <= n <= |parts| && forall i :: 0 <= i < n ==> ValidPart(parts[i], lo, hi)
    {
      var p := parts[n];
      n := n + 1;
      var j := Index(p, '/');
      if j < |p| && Atoi(p[j + 1..]).None? {
        return false;
      }
      p := p[..j];
      if p == "*" || p == "" {
        continue;
      }
      if '-' in p {
        var r := Range(p);
        if r.None? || r.value.0 < lo || r.value.1 > hi || r.value.0 > r.value.1 {
          return false;
        }
      } else {
        var v := Atoi(p);
        if v.None? || v.value < lo || v.value > hi {
          return false;
        }
      }
    }
    return true;
  }

  method CronExprValid(expr: string) returns (valid: bool)
    ensures valid == ExprValid(expr)
  {
    hide Fields, Split, ValidParts;
    var f := Fields(expr);
    if |f| != 5 {
      return false;
    }
    var i := 0;
    while i < 5
      invariant 0 <= i <= 5 && forall k :: 0 <= k < i ==> ValidParts(Split(f[k], ','), Lo(k), Hi(k))
    {
      valid := FieldValid(f[i], Lo(i), Hi(i));
      if !valid {
        return false;
      }
      i := i + 1;
    }
    return true;
  }

  // ----- claiming minutes -----

  type FnId = string

  /** A function's row. `life` counts how often a row of any function was created, so that a function
      deleted and saved again is told from its predecessor. */
  datatype FnRow = FnRow(schedule: string, lastCron: Option<int>, life: nat)

  datatype Fired = Fired(fn: FnId, life: nat, minute: int)

  /** The functions, and the firings so far. */
  datatype Functions = Functions(rows: map<FnId, FnRow>, lives: nat, log: seq<Fired>)

  predicate Eligible(row: FnRow, minute: int) {
    row.lastCron.None? || row.lastCron.value < minute
  }

  /** Saving leaves `last_cron` alone; a new row has none. */
  function Save(s: Functions, fn: FnId, schedule: string): Functions {
    if fn in s.rows then s.(rows := s.rows[fn := s.rows[fn].(schedule := schedule)])
    else s.(rows := s.rows[fn := FnRow(schedule, None, s.lives)], lives := s.lives + 1)
  }

  /** The conditional update; the function fires if it changed a row. */
  function Claim(s: Functions, fn: FnId, minute: int): Functions {
    if fn in s.rows && Eligible(s.rows[fn], minute) then
      s.(rows := s.rows[fn := s.rows[fn].(lastCron := Some(minute))], log := s.log + [Fired(fn, s.rows[fn].life, minute)])
    else s
  }

  datatype Job = Job(fn: FnId, schedule: string)

  /** A pass between its query and its last claim. */
  datatype Pass = Pass(minute: int, jobs: seq<Job>)

  datatype Event =
    | Saved(fn: FnId, schedule: string)
    | Deleted(fn: FnId)
    | Began(id: nat, minute: int, jobs: seq<Job>)
    | Tried(id: nat, updates: bool)

  datatype System = System(fns: Functions, passes: map<nat, Pass>)

  /** Scheduled, not yet fired for this minute or a later one, and its schedule matches. */
  predicate Due(rows: map<FnId, FnRow>, fn: FnId, minute: int, t: Clock) {
    fn in rows && rows[fn].schedule != "" && Eligible(rows[fn], minute) && Matches(rows[fn].schedule, t)
  }

  /** What the query returns: the scheduled functions whose last minute is earlier, in any order. */
  ghost predicate Selects(jobs: seq<Job>, rows: map<FnId, FnRow>, minute: int) {
    && (forall i :: 0 <= i < |jobs| ==> Listed(rows, jobs[i], minute))
    && (forall fn :: fn in rows && Listed(rows, Job(fn, rows[fn].schedule), minute) ==> Job(fn, rows[fn].schedule) in jobs)
  }

  predicate Listed(rows: map<FnId, FnRow>, j: Job, minute: int) {
    j.fn in rows && rows[j.fn].schedule == j.schedule != "" && Eligible(rows[j.fn], minute)
  }

  /** One statement of some pass or request. `due` tells whether a schedule matches a minute. */
  ghost function Step(s: System, e: Event, due: (string, int) -> bool): System {
    match e
    case Saved(fn, schedule) => s.(fns := Save(s.fns, fn, schedule))
    case Deleted(fn) => s.(fns := s.fns.(rows := s.fns.rows - {fn}))
    case Began(id, minute, jobs) =>
      if Selects(jobs, s.fns.rows, minute) then s.(passes := s.passes[id := Pass(minute, jobs)]) else s
    case Tried(id, updates) =>
      if id in s.passes && s.passes[id].jobs != [] then
        var p := s.passes[id];
        var j := p.jobs[0];
        System(if updates && due(j.schedule, p.minute) then Claim(s.fns, j.fn, p.minute) else s.fns,
          s.passes[id := p.(jobs := p.jobs[1..])])
      else s
  }

  /** `last_cron` is at least every minute the function fired for in this life, and firings come in the
      order of lives and minutes. */
  ghost predicate FunctionsOk(s: Functions) {
    && (forall fn :: fn in s.rows ==> s.rows[fn].life < s.lives)
    && (forall i :: 0 <= i < |s.log| ==> s.log[i].life < s.lives && Behind(s.rows, s.log[i]))
    && (forall i, j :: 0 <= i < j < |s.log| ==> Later(s.log[i], s.log[j]))
  }

  /** Of two firings of one function the second belongs to a later life or is for a later minute. */
  predicate Later(a: Fired, b: Fired) {
    a.fn == b.fn ==> a.life < b.life || (a.life == b.life && a.minute < b.minute)
  }

  predicate Behind(rows: map<FnId, FnRow>, f: Fired) {
    f.fn in rows ==>
      f.life <= rows[f.fn].life &&
      (f.life == rows[f.fn].life ==> rows[f.fn].lastCron.Some? && f.minute <= rows[f.fn].lastCron.value)
  }

  lemma ClaimKeepsOk(s: Functions, fn: FnId, minute: int)
    requires FunctionsOk(s)
    ensures FunctionsOk(Claim(s, fn, minute))
  {
    var t := Claim(s, fn, minute);
    if fn in s.rows && Eligible(s.rows[fn], minute) {
      forall i | 0 <= i < |t.log| ensures t.log[i].life < t.lives && Behind(t.rows, t.log[i]) {
        if i < |s.log| { assert Behind(s.rows, s.log[i]); }
      }
      forall i, j | 0 <= i < j < |t.log| ensures Later(t.log[i], t.log[j]) {
        if j == |s.log| {
          assert Behind(s.rows, s.log[i]);
        } else {
          assert Later(s.log[i], s.log[j]);
        }
      }
    }
  }

  lemma SaveKeepsOk(s: Functions, fn: FnId, schedule: string)
    requires FunctionsOk(s)
    ensures FunctionsOk(Save(s, fn, schedule))
  {
    var t := Save(s, fn, schedule);
    forall i | 0 <= i < |t.log| ensures t.log[i].life < t.lives && Behind(t.rows, t.log[i]) {
      assert Behind(s.rows, s.log[i]);
    }
  }

  lemma DeleteKeepsOk(s: Functions, fn: FnId)
    requires FunctionsOk(s)
    ensures FunctionsOk(s.(rows := s.rows - {fn}))
  {
    forall i | 0 <= i < |s.log| ensures Behind(s.rows - {fn}, s.log[i]) {
      assert Behind(s.rows, s.log[i]);
    }
  }

  ghost function Run(events: seq<Event>, due: (string, int) -> bool): (s: System)
    ensures FunctionsOk(s.fns)
  {
    hide FunctionsOk, Claim, Save;
    if events == [] then
      NoneFired();
      System(Functions(map[], 0, []), map[])
    else
      var s := Run(events[..|events| - 1], due);
      var e := events[|events| - 1];
      StepKeepsOk(s, e, due);
      Step(s, e, due)
  }

  lemma NoneFired()
    ensures FunctionsOk(Functions(map[], 0, []))
  {
  }

  lemma StepKeepsOk(s: System, e: Event, due: (string, int) -> bool)
    requires FunctionsOk(s.fns)
    ensures FunctionsOk(Step(s, e, due).fns)
  {
    hide FunctionsOk, Claim, Save, Selects;
    match e
    case Saved(fn, schedule) => SaveKeepsOk(s.fns, fn, schedule);
    case Deleted(fn) => DeleteKeepsOk(s.fns, fn);
    case Began(_, _, _) =>
    case Tried(id, updates) =>
      if id in s.passes && s.passes[id].jobs != [] {
        ClaimKeepsOk(s.fns, s.passes[id].jobs[0].fn, s.passes[id].minute);
      }
  }

  /** However passes overlap, and even if the clock steps back between them: of two firings of a function
      the second is for a later minute, or the function was created anew in between. */
  lemma FiringsAdvance(events: seq<Event>, due: (string, int) -> bool, i: nat, j: nat)
    requires i < j < |Run(events, due).fns.log|
    ensures var log := Run(events, due).fns.log; Later(log[i], log[j])
  {
    hide Run, Behind, Later;
  }

  ghost predicate SameLife(s: Functions, fn: FnId) {
    forall i :: 0 <= i < |s.log| && s.log[i].fn == fn ==> fn in s.rows && s.log[i].life == s.rows[fn].life
  }

  lemma StepKeepsLife(s: System, e: Event, due: (string, int) -> bool, fn: FnId)
    requires e != Deleted(fn) && SameLife(s.fns, fn)
    ensures SameLife(Step(s, e, due).fns, fn)
  {
    hide Selects;
  }

  /** As long as a function is not deleted it has one life. */
  lemma {:induction false} OneLife(events: seq<Event>, due: (string, int) -> bool, fn: FnId)
    requires Deleted(fn) !in events
    ensures SameLife(Run(events, due).fns, fn)
  {
    hide FunctionsOk, Selects;
    if events != [] {
      var n := |events| - 1;
      assert events[n] in events && forall e :: e in events[..n] ==> e in events;
      OneLife(events[..n], due, fn);
      StepKeepsLife(Run(events[..n], due), events[n], due, fn);
    }
  }

  /** So a function that is not deleted never fires twice for one minute: its minutes strictly increase. */
  lemma NeverTwice(events: seq<Event>, due: (string, int) -> bool, i: nat, j: nat)
    requires var log := Run(events, due).fns.log; i < j < |log| && log[i].fn == log[j].fn && Deleted(log[i].fn) !in events
    ensures var log := Run(events, due).fns.log; log[i].minute < log[j].minute
  {
    hide Run, FunctionsOk;
    OneLife(events, due, Run(events, due).fns.log[i].fn);
    FiringsAdvance(events, due, i, j);
  }

  /** Saving a function and one pass over it. */
  function SavedAndRun(fn: FnId, schedule: string, minute: int): seq<Event> {
    [Saved(fn, schedule), Began(0, minute, [Job(fn, schedule)]), Tried(0, true)]
  }

  lemma RunSnoc(events: seq<Event>, e: Event, due: (string, int) -> bool)
    ensures Run(events + [e], due) == Step(Run(events, due), e, due)
  {
    hide Step, FunctionsOk;
    assert (events + [e])[..|events|] == events;
  }

  lemma FreshFires(before: seq<Event>, due: (string, int) -> bool, fn: FnId, schedule: string, minute: int)
    requires Run(before, due).fns.rows == map[] && schedule != "" && due(schedule, minute)
    ensures var s := Run(before, due).fns;
      Run(before + SavedAndRun(fn, schedule, minute), due).fns
        == Functions(map[fn := FnRow(schedule, Some(minute), s.lives)], s.lives + 1, s.log + [Fired(fn, s.lives, minute)])
  {
    hide Run, FunctionsOk;
    var job := Job(fn, schedule);
    var e1, e2, e3 := Saved(fn, schedule), Began(0, minute, [job]), Tried(0, true);
    RunSnoc(before, e1, due);
    RunSnoc(before + [e1], e2, due);
    RunSnoc(before + [e1] + [e2], e3, due);
    assert before + SavedAndRun(fn, schedule, minute) == before + [e1] + [e2] + [e3];
    var rows := Run(before + [e1], due).fns.rows;
    assert [job][0] == job && Listed(rows, job, minute);
    assert [job][1..] == [];
  }

  /** A function deleted and saved again has forgotten its last minute: it fires for it once more. */
  lemma RecreatedFiresAgain(due: (string, int) -> bool, fn: FnId, schedule: string, minute: int)
    requires schedule != "" && due(schedule, minute)
    ensures var once := SavedAndRun(fn, schedule, minute);
      Run(once + [Deleted(fn)] + once, due).fns.log == [Fired(fn, 0, minute), Fired(fn, 1, minute)]
  {
    hide FunctionsOk, SavedAndRun;
    var once := SavedAndRun(fn, schedule, minute);
    FreshFires([], due, fn, schedule, minute);
    assert [] + once == once;
    RunSnoc(once, Deleted(fn), due);
    assert Run(once + [Deleted(fn)], due).fns.rows == map[];
    FreshFires(once + [Deleted(fn)], due, fn, schedule, minute);
  }

  /** No step ever moves `last_cron` back, and a firing moves it strictly forward, to the minute fired. */
  lemma LastCronIncreases(events: seq<Event>, e: Event, due: (string, int) -> bool, fn: FnId)
    requires var s := Run(events, due); var t := Step(s, e, due);
      fn in s.fns.rows && fn in t.fns.rows && s.fns.rows[fn].lastCron.Some?
    ensures var s := Run(events, due); var t := Step(s, e, due);
      && t.fns.rows[fn].lastCron.Some? && s.fns.rows[fn].lastCron.value <= t.fns.rows[fn].lastCron.value
      && (|t.fns.log| > |s.fns.log| && t.fns.log[|s.fns.log|].fn == fn ==>
            s.fns.rows[fn].lastCron.value < t.fns.rows[fn].lastCron.value == t.fns.log[|s.fns.log|].minute)
  {
    hide Run, Selects;
  }

  // ----- one pass -----

  class EdgeFunctions {
    var rows: map<FnId, FnRow>
    ghost var lives: nat
    ghost var log: seq<Fired>

    ghost function State(): Functions
      reads this
    {
      Functions(rows, lives, log)
    }

    constructor ()
      ensures State() == Functions(map[], 0, [])
    {
      rows, lives, log := map[], 0, [];
    }

    /** The conditional update, and whether it changed a row. */
    method ClaimMinute(fn: FnId, minute: int) returns (won: bool)
      modifies this`rows, this`log
      ensures State() == Claim(old(State()), fn, minute)
      ensures won <==> |log| == |old(log)| + 1
    {
      if fn !in rows || !Eligible(rows[fn], minute) {
        return false;
      }
      log := log + [Fired(fn, rows[fn].life, minute)];
      rows := rows[fn := rows[fn].(lastCron := Some(minute))];
      return true;
    }

    /** The query at the start of a pass. */
    method SelectJobs(minute: int) returns (jobs: seq<Job>)
      ensures Selects(jobs, rows, minute)
      ensures forall i, j :: 0 <= i < j < |jobs| ==> jobs[i].fn != jobs[j].fn
    {
      jobs := [];
      var todo := rows.Keys;
      while todo != {}
        invariant todo <= rows.Keys
        invariant forall i :: 0 <= i < |jobs| ==> Listed(rows, jobs[i], minute) && jobs[i].fn !in todo
        invariant forall fn :: fn in rows && fn !in todo && Listed(rows, Job(fn, rows[fn].schedule), minute) ==>
          Job(fn, rows[fn].schedule) in jobs
        invariant forall i, j :: 0 <= i < j < |jobs| ==> jobs[i].fn != jobs[j].fn
        decreases |todo|
      {
        var fn :| fn in todo;
        todo := todo - {fn};
        var row := rows[fn];
        if row.schedule != "" && Eligible(row, minute) {
          jobs := jobs + [Job(fn, row.schedule)];
        }
      }
    }

    /** One job of a pass: match, claim, fire. */
    method TryJob(j: Job, minute: int, t: Clock) returns (won: bool)
      requires j.fn in rows && Eligible(rows[j.fn], minute)
      modifies this`rows, this`log
      ensures won == Matches(j.schedule, t)
      ensures rows == if won then old(rows)[j.fn := old(rows)[j.fn].(lastCron := Some(minute))] else old(rows)
    {
      var matched := CronMatch(j.schedule, t);
      if !matched {
        return false;
      }
      won := ClaimMinute(j.fn, minute);
    }

    /** A pass nothing else interleaves with, and whose updates succeed. It fires, each once, exactly the
        scheduled functions that are due and whose last minute is earlier. */
    method RunEdgeCronPass(minute: int, calendar: int -> Clock) returns (fired: seq<FnId>)
      modifies this`rows, this`log
      ensures forall fn :: fn in fired <==> fn in old(rows) && var row := old(rows)[fn];
        row.schedule != "" && (row.lastCron.Some? ==> row.lastCron.value < minute) && Matches(row.schedule, calendar(minute))
      ensures forall i, j :: 0 <= i < j < |fired| ==> fired[i] != fired[j]
      ensures rows.Keys == old(rows).Keys
      ensures forall fn :: fn in rows ==> rows[fn] == if fn in fired then old(rows)[fn].(lastCron := Some(minute)) else old(rows)[fn]
    {
      hide Matches, Selects, Due, Listed, Eligible;
      var jobs := SelectJobs(minute);
      ghost var was := rows;
      JobsAreListed(jobs, was, minute, calendar(minute));
      fired := [];
      var n := 0;
      while n < |jobs|
        invariant 0 <= n <= |jobs| && rows.Keys == was.Keys
        invariant forall fn :: fn in rows ==> rows[fn] == if fn in fired then was[fn].(lastCron := Some(minute)) else was[fn]
        invariant forall i, j :: 0 <= i < j < |fired| ==> fired[i] != fired[j]
        invariant forall i :: 0 <= i < |fired| ==> Due(was, fired[i], minute, calendar(minute))
        invariant forall i, k :: 0 <= i < |fired| && n <= k < |jobs| ==> fired[i] != jobs[k].fn
        invariant forall k :: 0 <= k < n && Matches(jobs[k].schedule, calendar(minute)) ==> jobs[k].fn in fired
      {
        var j := jobs[n];
        n := n + 1;
        var won := TryJob(j, minute, calendar(minute));
        if won {
          fired := fired + [j.fn];
        }
      }
      DueMeans(was, minute, calendar(minute));
    }
  }

  /** Every selected job is eligible, is due if its schedule matches, and no due function is left out. */
  lemma JobsAreListed(jobs: seq<Job>, rows: map<FnId, FnRow>, minute: int, t: Clock)
    requires Selects(jobs, rows, minute)
    ensures forall i :: 0 <= i < |jobs| ==> jobs[i].fn in rows && Eligible(rows[jobs[i].fn], minute)
    ensures forall i :: 0 <= i < |jobs| ==> (Matches(jobs[i].schedule, t) <==> Due(rows, jobs[i].fn, minute, t))
    ensures forall fn :: Due(rows, fn, minute, t) ==> exists i :: 0 <= i < |jobs| && jobs[i].fn == fn
  {
    hide Matches, Eligible;
    forall i | 0 <= i < |jobs|
      ensures jobs[i].fn in rows && Eligible(rows[jobs[i].fn], minute)
      ensures Matches(jobs[i].schedule, t) <==> Due(rows, jobs[i].fn, minute, t)
    {
      assert Listed(rows, jobs[i], minute);
    }
    forall fn | Due(rows, fn, minute, t) ensures exists i :: 0 <= i < |jobs| && jobs[i].fn == fn {
      var j := Job(fn, rows[fn].schedule);
      assert Listed(rows, j, minute);
      var i :| 0 <= i < |jobs| && jobs[i] == j;
    }
  }

  lemma DueMeans(rows: map<FnId, FnRow>, minute: int, t: Clock)
    ensures forall fn :: Due(rows, fn, minute, t) <==> fn in rows && var row := rows[fn];
      row.schedule != "" && (row.lastCron.Some? ==> row.lastCron.value < minute) && Matches(row.schedule, t)
  {
    hide Matches;
  }
}
