/** The status table of mrbig.c: what one status call decides, and what every run of calls keeps. */
module Status {
  import opened CStrings

  datatype Key = Key(machine: string, test: string)

  /** What the table remembers of a test: the colour last shown, when, and the grace deadline (0: none). */
  datatype Entry = Entry(color: string, last: int, grace: int)

  /** Results 0, 1 and 2 of insert_status: say nothing, send green instead, send the real colour. */
  datatype Verdict = Silent | SendGreen | SendReal

  /** One call of insert_status with what it reads from its surroundings: the clock, the test's grace
      time and the report interval. */
  datatype Call = Call(key: Key, color: string, now: int, grace: int, mrsleep: int)

  datatype Decision = Decision(entry: Entry, verdict: Verdict)

  /** The whole effect of one call on the entry of its key. */
  function Decide(prior: Option<Entry>, c: Call): Decision {
    match prior
    case None => Decision(Entry(c.color, c.now, 0), SendReal)
    case Some(e) =>
      if c.color == e.color then
        if c.now < e.last || c.now - e.last >= c.mrsleep
        then Decision(Entry(e.color, c.now, 0), SendReal)
        else Decision(e, Silent)
      else if c.color == "green" || e.color != "green" then
        Decision(Entry(c.color, c.now, 0), SendReal)
      else
        var deadline := if e.grace == 0 then c.now + c.grace else e.grace;
        if c.now >= deadline
        then Decision(Entry(c.color, c.now, deadline), SendReal)
        else Decision(Entry("green", c.now, deadline), SendGreen)
  }

  function Get(table: map<Key, Entry>, k: Key): Option<Entry> {
    if k in table then Some(table[k]) else None
  }

  /** The table a run of calls leaves, starting from the empty one. */
  function Table(calls: seq<Call>): map<Key, Entry> {
    if calls == [] then map[]
    else
      var c, before := Last(calls), Table(calls[..|calls| - 1]);
      before[c.key := Decide(Get(before, c.key), c).entry]
  }

  /** The verdict of call i of a run. */
  function VerdictOf(calls: seq<Call>, i: nat): Verdict
    requires i < |calls|
  {
    Decide(Get(Table(calls[..i]), calls[i].key), calls[i]).verdict
  }

  // ---------- what the display shows

  predicate IsFor(calls: seq<Call>, k: Key, i: int) {
    0 <= i < |calls| && calls[i].key == k
  }

  /** Call i is a call for k that sent something, and no later call for k in the run did. */
  ghost predicate IsLastReport(calls: seq<Call>, k: Key, i: nat) {
    && IsFor(calls, k, i) && VerdictOf(calls, i) != Silent
    && forall j | i < j && IsFor(calls, k, j) :: VerdictOf(calls, j) == Silent
  }

  function ColorSent(calls: seq<Call>, i: nat): string
    requires i < |calls|
  {
    if VerdictOf(calls, i) == SendGreen then "green" else calls[i].color
  }

  lemma VerdictOfPrefix(calls: seq<Call>, n: nat, i: nat)
    requires i < n <= |calls|
    ensures VerdictOf(calls[..n], i) == VerdictOf(calls, i)
  {
    assert calls[..n][..i] == calls[..i];
  }

  /** The entry of a key holds exactly the colour and the time of the last report sent for it. */
  lemma {:induction false} EntryIsLastReport(calls: seq<Call>, k: Key) returns (i: nat)
    requires k in Table(calls)
    ensures IsLastReport(calls, k, i)
    ensures Table(calls)[k].color == ColorSent(calls, i)
    ensures Table(calls)[k].last == calls[i].now
  {
    var n := |calls| - 1;
    var before := calls[..n];
    assert calls[..n] == before;
    if calls[n].key == k && VerdictOf(calls, n) != Silent {
      i := n;
    } else {
      i := EntryIsLastReport(before, k);
      VerdictOfPrefix(calls, n, i);
      forall j | i < j && IsFor(calls, k, j) ensures VerdictOf(calls, j) == Silent {
        if j < n { assert IsFor(before, k, j); VerdictOfPrefix(calls, n, j); }
      }
    }
  }

  /** Silence is safe: what the display shows is the current colour, and less than mrsleep old. */
  lemma SilenceIsFresh(calls: seq<Call>, n: nat) returns (i: nat)
    requires n < |calls| && VerdictOf(calls, n) == Silent
    ensures i < n && IsLastReport(calls[..n], calls[n].key, i)
    ensures ColorSent(calls, i) == calls[n].color
    ensures 0 <= calls[n].now - calls[i].now < calls[n].mrsleep
  {
    i := EntryIsLastReport(calls[..n], calls[n].key);
    VerdictOfPrefix(calls, n, i);
  }

  // ---------- the grace deadline

  /** No deadline falls on the value 0, which stands for none in the table. */
  ghost predicate SaneClock(calls: seq<Call>) {
    forall i | 0 <= i < |calls| :: calls[i].now + calls[i].grace != 0
  }

  predicate Bad(calls: seq<Call>, k: Key, i: int) {
    IsFor(calls, k, i) && calls[i].color != "green"
  }

  /** Call i is the last call for k whose real colour was reported. */
  ghost predicate IsLastReal(calls: seq<Call>, k: Key, i: nat) {
    && IsFor(calls, k, i) && VerdictOf(calls, i) == SendReal
    && forall j | i < j && IsFor(calls, k, j) :: VerdictOf(calls, j) != SendReal
  }

  /** Call f is the first non-green one for k after call i; f == |calls| when there is none. */
  ghost predicate IsFirstBadAfter(calls: seq<Call>, k: Key, i: nat, f: nat) {
    && i < f <= |calls| && (f < |calls| ==> Bad(calls, k, f))
    && forall j | i < j < f :: !Bad(calls, k, j)
  }

  function Deadline(calls: seq<Call>, f: nat): int {
    if f < |calls| then calls[f].now + calls[f].grace else 0
  }

  /** A call that does not report its real colour leaves the last real report for k where it was. */
  lemma LastRealKept(calls: seq<Call>, n: nat, k: Key, i: nat)
    requires |calls| == n + 1 && IsLastReal(calls[..n], k, i)
    requires IsFor(calls, k, n) ==> VerdictOf(calls, n) != SendReal
    ensures IsLastReal(calls, k, i)
  {
    hide VerdictOf;
    VerdictOfPrefix(calls, n, i);
    forall j | i < j && IsFor(calls, k, j) ensures VerdictOf(calls, j) != SendReal {
      if j < n { assert IsFor(calls[..n], k, j); VerdictOfPrefix(calls, n, j); }
    }
  }

  /** The first non-green call since then is the one before, or the new call, or there is still none. */
  lemma FirstBadNext(calls: seq<Call>, n: nat, k: Key, i: nat, was: nat) returns (f: nat)
    requires |calls| == n + 1 && IsFirstBadAfter(calls[..n], k, i, was)
    ensures IsFirstBadAfter(calls, k, i, f)
    ensures f == if was == n && !Bad(calls, k, n) then n + 1 else was
  {
    f := if was == n && !Bad(calls, k, n) then n + 1 else was;
    forall j | i < j < f ensures !Bad(calls, k, j) {
      if j < n { assert !Bad(calls[..n], k, j); }
    }
  }

  /** Every non-green call for k from f on was sent as green, before the deadline that call f set. */
  ghost predicate GreenUntil(calls: seq<Call>, k: Key, f: nat) {
    forall j | f <= j && Bad(calls, k, j) ::
      VerdictOf(calls, j) == SendGreen && calls[j].now < Deadline(calls, f)
  }

  lemma GreenUntilNext(calls: seq<Call>, n: nat, k: Key, f: nat)
    requires |calls| == n + 1 && (f < n ==> GreenUntil(calls[..n], k, f))
    requires f <= n && Bad(calls, k, n) ==> VerdictOf(calls, n) == SendGreen && calls[n].now < Deadline(calls, f)
    ensures GreenUntil(calls, k, f)
  {
    hide VerdictOf;
    forall j | f <= j && Bad(calls, k, j)
      ensures VerdictOf(calls, j) == SendGreen && calls[j].now < Deadline(calls, f)
    {
      if j < n { assert Bad(calls[..n], k, j); VerdictOfPrefix(calls, n, j); }
    }
  }

  /** What the last call does to an entry that stays green without a real report. */
  lemma GreenStep(calls: seq<Call>, n: nat, k: Key)
    requires |calls| == n + 1 && k in Table(calls) && Table(calls)[k].color == "green"
    requires IsFor(calls, k, n) ==> VerdictOf(calls, n) != SendReal
    ensures k in Table(calls[..n]) && Table(calls[..n])[k].color == "green"
    ensures var e := Table(calls[..n])[k];
            if Bad(calls, k, n)
            then var deadline := if e.grace == 0 then calls[n].now + calls[n].grace else e.grace;
                 && Table(calls)[k].grace == deadline
                 && VerdictOf(calls, n) == SendGreen && calls[n].now < deadline
            else Table(calls)[k].grace == e.grace
  {
  }

  /** A real report in green, the last call of the run, leaves no deadline. */
  lemma RealStep(calls: seq<Call>, n: nat, k: Key)
    requires |calls| == n + 1 && IsFor(calls, k, n) && VerdictOf(calls, n) == SendReal
    requires Table(calls)[k].color == "green"
    ensures Table(calls)[k].grace == 0
  {
  }

  /** While the stored colour is green, the stored deadline is that of the first non-green call since
      the last real report: neither later non-greens nor suppressed greens in between restart it, and
      it is 0 exactly when there was no such call. All those non-green calls came before it. */
  lemma {:induction false} GraceDeadline(calls: seq<Call>, k: Key) returns (i: nat, f: nat)
    requires SaneClock(calls) && k in Table(calls) && Table(calls)[k].color == "green"
    ensures IsLastReal(calls, k, i) && IsFirstBadAfter(calls, k, i, f)
    ensures Table(calls)[k].grace == Deadline(calls, f)
    ensures Table(calls)[k].grace == 0 <==> f == |calls|
    ensures GreenUntil(calls, k, f)
  {
    var n := |calls| - 1;
    if IsFor(calls, k, n) && VerdictOf(calls, n) == SendReal {
      i, f := n, n + 1;
      RealStep(calls, n, k);
    } else {
      GreenStep(calls, n, k);
      hide Table, VerdictOf;
      i, f := GraceDeadline(calls[..n], k);
      LastRealKept(calls, n, k, i);
      f := FirstBadNext(calls, n, k, i, f);
      GreenUntilNext(calls, n, k, f);
    }
  }

  /** A non-green call on a green entry is reported exactly when its time has reached the deadline set
      by the first non-green call since the last real report (itself, if it is the first). */
  lemma AlarmExactlyAtDeadline(calls: seq<Call>, n: nat) returns (i: nat, f: nat)
    requires n < |calls| && SaneClock(calls) && calls[n].color != "green"
    requires calls[n].key in Table(calls[..n]) && Table(calls[..n])[calls[n].key].color == "green"
    ensures IsLastReal(calls[..n], calls[n].key, i)
    ensures f <= n && IsFirstBadAfter(calls[..n + 1], calls[n].key, i, f)
    ensures VerdictOf(calls, n) == SendReal <==> calls[n].now >= Deadline(calls, f)
    ensures VerdictOf(calls, n) == SendGreen <==> calls[n].now < Deadline(calls, f)
    ensures forall j | f <= j < n && Bad(calls, calls[n].key, j) :: calls[j].now < Deadline(calls, f)
  {
    var k := calls[n].key;
    i, f := GraceDeadline(calls[..n], k);
    var here := calls[..n + 1];
    assert Bad(here, k, f);
    forall j | i < j < f ensures !Bad(here, k, j) {
      assert !Bad(calls[..n], k, j);
    }
    forall j | f <= j < n && Bad(calls, k, j) ensures calls[j].now < Deadline(calls, f) {
      assert Bad(calls[..n], k, j);
    }
  }

  // ---------- how far apart reports are

  /** Calls for k come with a clock that never goes back, at most d apart, under one report interval. */
  ghost predicate Regular(calls: seq<Call>, k: Key, d: int, mrsleep: int) {
    && (forall i | IsFor(calls, k, i) :: calls[i].mrsleep == mrsleep)
    && (forall i, j | i < j && Adjacent(calls, k, i, j) :: 0 <= calls[j].now - calls[i].now <= d)
  }

  ghost predicate Adjacent(calls: seq<Call>, k: Key, i: int, j: int) {
    && IsFor(calls, k, i) && IsFor(calls, k, j)
    && forall m | i < m < j :: !IsFor(calls, k, m)
  }

  /** Calls i and j are two consecutive reports for k. */
  ghost predicate ConsecutiveReports(calls: seq<Call>, k: Key, i: nat, j: nat) {
    && i < j && IsFor(calls, k, i) && IsFor(calls, k, j)
    && VerdictOf(calls, i) != Silent && VerdictOf(calls, j) != Silent
    && forall m | i < m < j && IsFor(calls, k, m) :: VerdictOf(calls, m) == Silent
  }

  lemma LastReportUnique(calls: seq<Call>, k: Key, i: nat, j: nat)
    requires IsLastReport(calls, k, i) && IsLastReport(calls, k, j)
    ensures i == j
  {
  }

  lemma PreviousFor(calls: seq<Call>, k: Key, i: nat, j: nat) returns (p: nat)
    requires i < j && IsFor(calls, k, i) && IsFor(calls, k, j)
    ensures i <= p < j && Adjacent(calls, k, p, j)
  {
    p := j - 1;
    while calls[p].key != k
      invariant i <= p < j
      invariant forall m | p < m < j :: !IsFor(calls, k, m)
      decreases p
    {
      p := p - 1;
    }
  }

  /** Two consecutive reports are at most d apart, plus what one silent interval can add. */
  lemma ReportGap(calls: seq<Call>, k: Key, d: int, mrsleep: int, i: nat, j: nat)
    requires Regular(calls, k, d, mrsleep) && ConsecutiveReports(calls, k, i, j)
    ensures calls[j].now - calls[i].now <= d + (if mrsleep >= 1 then mrsleep - 1 else 0)
  {
    var p := PreviousFor(calls, k, i, j);
    if p != i {
      var q := SilenceIsFresh(calls, p);
      assert IsFor(calls[..p], k, i);
      VerdictOfPrefix(calls, p, i);
      forall m | i < m && IsFor(calls[..p], k, m) ensures VerdictOf(calls[..p], m) == Silent {
        assert IsFor(calls, k, m);
        VerdictOfPrefix(calls, p, m);
      }
      LastReportUnique(calls[..p], k, i, q);
    }
  }

  /** The bound promised for reports: less than mrsleep + d between any two consecutive ones. */
  ghost predicate GapBelow(d: int, mrsleep: int) {
    forall calls: seq<Call>, k: Key, i: nat, j: nat
      | Regular(calls, k, d, mrsleep) && ConsecutiveReports(calls, k, i, j) ::
      calls[j].now - calls[i].now < mrsleep + d
  }

  /** It holds of every run exactly when the report interval is positive: with mrsleep <= 0 every call
      reports, so two reports can be d apart. */
  lemma GapBoundExact(d: nat, mrsleep: int)
    ensures GapBelow(d, mrsleep) <==> mrsleep >= 1
  {
    if mrsleep >= 1 {
      forall calls: seq<Call>, k: Key, i: nat, j: nat
        | Regular(calls, k, d, mrsleep) && ConsecutiveReports(calls, k, i, j)
        ensures calls[j].now - calls[i].now < mrsleep + d
      {
        ReportGap(calls, k, d, mrsleep, i, j);
      }
    } else {
      var k := Key("host", "cpu");
      var calls := [Call(k, "green", 1, 0, mrsleep), Call(k, "green", 1 + d, 0, mrsleep)];
      assert calls[..1] == [calls[0]] && calls[..0] == [];
      assert Table(calls[..1]) == map[k := Entry("green", 1, 0)];
      assert ConsecutiveReports(calls, k, 0, 1);
      assert Regular(calls, k, d, mrsleep);
    }
  }

  // ---------- the main loop

  const SLEEP_MIN := 10

  /** The clamp at the end of readcfg: the loop runs at least every mrsleep seconds. */
  function LoopTime(mrloop: int, mrsleep: int): (t: int)
    ensures t <= mrloop && t <= mrsleep && (t == mrloop || t == mrsleep)
  {
    if mrloop > mrsleep then mrsleep else mrloop
  }

  /** Seconds slept after a round that started at lastrun and ended at t. */
  function SleepTime(mrloop: int, lastrun: int, t: int): int {
    var wanted := if t < lastrun then mrloop else mrloop - (t - lastrun);
    if wanted < SLEEP_MIN then SLEEP_MIN else wanted
  }

  /** One round of the main loop: when it started, how long its tests took by the clock (less than 0 when it was
      set back), and when in the round the call for one particular test was made. */
  datatype Round = Round(start: int, run: int, offset: nat)

  /** Rounds follow each other as the main loop makes them. */
  ghost predicate InSequence(rounds: seq<Round>, mrloop: int) {
    forall i | 0 < i < |rounds| ::
      var p := rounds[i - 1];
      rounds[i].start == p.start + p.run + SleepTime(mrloop, p.start, p.start + p.run)
  }

  /** Start to start, a round takes the loop time, or the run time plus the minimum sleep. When the clock was set
      back, the loop time is slept, or the minimum. */
  lemma LoopPeriod(rounds: seq<Round>, mrloop: int, i: nat)
    requires InSequence(rounds, mrloop) && 0 < i < |rounds|
    ensures var p := rounds[i - 1];
            if p.run >= 0
            then rounds[i].start - p.start == if mrloop >= p.run + SLEEP_MIN then mrloop else p.run + SLEEP_MIN
            else rounds[i].start - (p.start + p.run) == if mrloop >= SLEEP_MIN then mrloop else SLEEP_MIN
  {
  }

  /** Rounds of the main loop, none longer than `longest`, when no one sets the clock back. */
  ghost predicate Schedule(rounds: seq<Round>, mrloop: int, longest: nat) {
    && (forall i | 0 <= i < |rounds| :: rounds[i].offset <= rounds[i].run <= longest)
    && InSequence(rounds, mrloop)
  }

  /** The calls of a run fall into rounds, in order, with those of other tests among them. Every round but the
      last, which may not be over, makes one call for k, at its offset. */
  ghost predicate CallsOf(calls: seq<Call>, roundOf: seq<nat>, rounds: seq<Round>, k: Key, mrsleep: int) {
    && |roundOf| == |calls| && (forall i | 0 <= i < |calls| :: roundOf[i] < |rounds|)
    && (forall i, j | 0 <= i < j < |calls| :: roundOf[i] <= roundOf[j])
    && (forall i | IsFor(calls, k, i) ::
          calls[i].mrsleep == mrsleep && calls[i].now == rounds[roundOf[i]].start + rounds[roundOf[i]].offset)
    && (forall i, j | IsFor(calls, k, i) && IsFor(calls, k, j) && roundOf[i] == roundOf[j] :: i == j)
    && (forall r: nat | r + 1 < |rounds| :: CalledIn(calls, roundOf, k, r))
  }

  ghost predicate CalledIn(calls: seq<Call>, roundOf: seq<nat>, k: Key, r: nat)
    requires |roundOf| == |calls|
  {
    exists i :: IsFor(calls, k, i) && roundOf[i] == r
  }

  /** Two calls for k with none between them were made in consecutive rounds. */
  lemma NextRound(calls: seq<Call>, roundOf: seq<nat>, rounds: seq<Round>, k: Key, mrsleep: int, a: nat, b: nat)
    requires CallsOf(calls, roundOf, rounds, k, mrsleep) && a < b && Adjacent(calls, k, a, b)
    ensures roundOf[b] == roundOf[a] + 1
  {
    var r := roundOf[a] + 1;
    if r < roundOf[b] { CallBetween(calls, roundOf, rounds, k, mrsleep, a, b, r); }
  }

  lemma CallBetween(calls: seq<Call>, roundOf: seq<nat>, rounds: seq<Round>, k: Key, mrsleep: int, a: nat, b: nat,
                    r: nat)
    requires CallsOf(calls, roundOf, rounds, k, mrsleep) && IsFor(calls, k, a) && IsFor(calls, k, b)
    requires roundOf[a] < r < roundOf[b]
    ensures !Adjacent(calls, k, a, b)
  {
    assert CalledIn(calls, roundOf, k, r);
    var i :| IsFor(calls, k, i) && roundOf[i] == r;
    assert a < i < b;
  }

  /** From the configuration to the display: with mrloop clamped by readcfg and no round longer than
      `longest`, two consecutive reports of a test are less than two report intervals apart, plus the
      slack that long rounds add. */
  lemma LoopKeepsDisplayFresh(calls: seq<Call>, roundOf: seq<nat>, rounds: seq<Round>, k: Key,
                              mrloop: int, mrsleep: int, longest: nat, i: nat, j: nat)
    requires mrsleep >= 1
    requires Schedule(rounds, LoopTime(mrloop, mrsleep), longest) && CallsOf(calls, roundOf, rounds, k, mrsleep)
    requires ConsecutiveReports(calls, k, i, j)
    ensures calls[j].now - calls[i].now
            < mrsleep + longest + (if mrsleep >= longest + SLEEP_MIN then mrsleep else longest + SLEEP_MIN)
  {
    var d := longest + (if mrsleep >= longest + SLEEP_MIN then mrsleep else longest + SLEEP_MIN);
    forall a, b | a < b && Adjacent(calls, k, a, b) ensures 0 <= calls[b].now - calls[a].now <= d {
      NextRound(calls, roundOf, rounds, k, mrsleep, a, b);
      LoopPeriod(rounds, LoopTime(mrloop, mrsleep), roundOf[b]);
    }
    ReportGap(calls, k, d, mrsleep, i, j);
  }
}
