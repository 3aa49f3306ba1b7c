/** The status table as mrbig.c keeps it, a linked list updated in place, and mrsend on top of it. */
module Reporter {
  import opened CStrings
  import opened Status

  class TestStatus {
    const key: Key
    var color: string
    var last: int
    var grace: int
    var next: TestStatus?

    constructor (key: Key, color: string, last: int, next: TestStatus?)
      ensures this.key == key && this.color == color
      ensures this.last == last && this.grace == 0 && this.next == next
    {
      this.key, this.color := key, color;
      this.last, this.grace, this.next := last, 0, next;
    }

    function TheEntry(): Entry
      reads this
    {
      Entry(color, last, grace)
    }

    /** A call for a test already in the table: changes this node in place. */
    method Observe(color: string, now: int, grace: int, mrsleep: int) returns (v: Verdict)
      modifies `color, `last, `grace
      ensures var d := Decide(Some(old(TheEntry())), Call(key, color, now, grace, mrsleep));
              TheEntry() == d.entry && v == d.verdict
    {
      if color == this.color {
        if now < last {
          last, this.grace := now, 0;
          v := SendReal;
        } else if now - last >= mrsleep {
          last, this.grace := now, 0;
          v := SendReal;
        } else {
          v := Silent;
        }
      } else if color == "green" {
        this.color, last, this.grace := color, now, 0;
        v := SendReal;
      } else if this.color != "green" {
        this.color, last, this.grace := color, now, 0;
        v := SendReal;
      } else {
        if this.grace == 0 {
          this.grace := now + grace;
        }
        if now >= this.grace {
          this.color, last := color, now;
          v := SendReal;
        } else {
          last := now;
          v := SendGreen;
        }
      }
    }
  }

  /** A report handed to delivery: for which test, in which colour, when, and its text. */
  datatype Report = Report(key: Key, color: string, time: int, text: string)

  /** The last report about a key in a log of reports. */
  function Shown(log: seq<Report>, k: Key): Option<Report> {
    if log == [] then None
    else if Last(log).key == k then Some(Last(log))
    else Shown(log[..|log| - 1], k)
  }

  /** The grace time the configuration gives a test: the newest entry for it wins, 0 without one. */
  function LookupGrace(graces: seq<(string, int)>, test: string): int {
    if graces == [] then 0
    else if graces[0].0 == test then graces[0].1
    else LookupGrace(graces[1..], test)
  }

  /** What it is: the grace time of the first entry for the test in the list, which was put in front last. */
  lemma {:induction false} LookupGraceIs(graces: seq<(string, int)>, test: string, i: nat)
    requires i <= |graces| && forall j | 0 <= j < i :: graces[j].0 != test
    ensures i < |graces| && graces[i].0 == test ==> LookupGrace(graces, test) == graces[i].1
    ensures i == |graces| ==> LookupGrace(graces, test) == 0
  {
    if i > 0 {
      assert graces[0].0 != test;
      LookupGraceIs(graces[1..], test, i - 1);
    }
  }

  /** The table and the verdict after one call. */
  function After(table: map<Key, Entry>, c: Call): map<Key, Entry> {
    table[c.key := Decide(Get(table, c.key), c).entry]
  }

  function VerdictIn(table: map<Key, Entry>, c: Call): Verdict {
    Decide(Get(table, c.key), c).verdict
  }

  class StatusTable {
    var teststatus: TestStatus?
    ghost var spine: seq<TestStatus>
    ghost var table: map<Key, Entry>
    ghost var calls: seq<Call>

    /** The table is what the run of calls so far leaves, so everything Status proves of runs holds of it. */
    ghost predicate Valid()
      reads this, spine
    {
      WellFormed() && table == Table(calls)
    }

    /** The list is acyclic, has one node for every key of `table`, and holds its entry. */
    ghost predicate WellFormed()
      reads this, spine
    {
      Linked(teststatus, spine) && OnePerKey(spine, table) && Holds(spine, table)
    }

    constructor ()
      ensures Valid() && spine == [] && calls == []
    {
      teststatus, spine, table, calls := null, [], map[], [];
    }

    static ghost predicate Linked(head: TestStatus?, spine: seq<TestStatus>)
      reads spine`next
    {
      && (head == if spine == [] then null else spine[0])
      && (spine != [] ==> spine[|spine| - 1].next == null)
      && (forall i, j | 0 <= i && j == i + 1 && j < |spine| :: spine[i].next == spine[j])
    }

    static ghost predicate OnePerKey(spine: seq<TestStatus>, table: map<Key, Entry>) {
      && (forall i, j | 0 <= i < j < |spine| :: spine[i].key != spine[j].key)
      && (forall k | k in table :: exists i :: 0 <= i < |spine| && spine[i].key == k)
    }

    static lemma OnePerKeyCons(s: TestStatus, spine: seq<TestStatus>, table: map<Key, Entry>, e: Entry)
      requires OnePerKey(spine, table) && s.key !in table
      requires forall i | 0 <= i < |spine| :: spine[i].key in table
      ensures OnePerKey([s] + spine, table[s.key := e])
    {
      var longer := [s] + spine;
      var after := table[s.key := e];
      forall k | k in after ensures exists i :: 0 <= i < |longer| && longer[i].key == k {
        if k == s.key {
          assert longer[0].key == k;
        } else {
          var i :| 0 <= i < |spine| && spine[i].key == k;
          assert longer[i + 1].key == k;
        }
      }
    }

    static ghost predicate Holds(spine: seq<TestStatus>, table: map<Key, Entry>)
      reads spine
    {
      forall i | 0 <= i < |spine| :: spine[i].key in table && table[spine[i].key] == spine[i].TheEntry()
    }

    static lemma LinkedCons(s: TestStatus, spine: seq<TestStatus>)
      requires Linked(s.next, spine)
      ensures Linked(s, [s] + spine)
    {
    }

    static lemma HoldsCons(s: TestStatus, spine: seq<TestStatus>, table: map<Key, Entry>)
      requires Holds(spine, table) && s.key !in table
      ensures Holds([s] + spine, table[s.key := s.TheEntry()])
    {
      forall i | 0 <= i < |[s] + spine|
        ensures var n := ([s] + spine)[i];
                n.key in table[s.key := s.TheEntry()] && table[s.key := s.TheEntry()][n.key] == n.TheEntry()
      {
        if i > 0 { assert ([s] + spine)[i] == spine[i - 1]; }
      }
    }

    static lemma EntryOf(spine: seq<TestStatus>, table: map<Key, Entry>, at: nat)
      requires at < |spine| && Holds(spine, table)
      ensures Get(table, spine[at].key) == Some(spine[at].TheEntry())
    {
    }

    static lemma HoldsUpdated(spine: seq<TestStatus>, table: map<Key, Entry>, at: nat)
      requires at < |spine| && OnePerKey(spine, table) && spine[at].key in table
      requires forall i | 0 <= i < |spine| && i != at :: Get(table, spine[i].key) == Some(spine[i].TheEntry())
      ensures var after := table[spine[at].key := spine[at].TheEntry()];
              OnePerKey(spine, after) && Holds(spine, after)
    {
    }

    method FindNode(machine: string, test: string) returns (s: TestStatus?, ghost at: nat)
      requires WellFormed()
      ensures s == null ==> Key(machine, test) !in table
      ensures s != null ==> s.key == Key(machine, test) && at < |spine| && s == spine[at]
    {
      s, at := teststatus, 0;
      while s != null
        invariant at <= |spine| && s == if at < |spine| then spine[at] else null
        invariant forall j | 0 <= j < at :: spine[j].key != Key(machine, test)
        decreases |spine| - at
      {
        if machine == s.key.machine && test == s.key.test { break; }
        s, at := s.next, at + 1;
      }
    }

    /** One call updates the entry of its own key, as Decide says, and no other. */
    method InsertStatus(machine: string, test: string, color: string, now: int, grace: int, mrsleep: int)
      returns (v: Verdict)
      requires Valid()
      modifies this, spine
      ensures Valid()
      ensures var c := Call(Key(machine, test), color, now, grace, mrsleep);
              && v == VerdictIn(old(table), c) && table == After(old(table), c)
              && calls == old(calls) + [c] && v == VerdictOf(calls, |calls| - 1)
      ensures if Key(machine, test) in old(table) then spine == old(spine)
              else |spine| > 0 && fresh(spine[0]) && spine[1..] == old(spine)
    {
      hide Linked, Holds, OnePerKey;
      ghost var c := Call(Key(machine, test), color, now, grace, mrsleep);
      var s, at := FindNode(machine, test);
      if s == null {
        ghost var _ := AddNode(Key(machine, test), color, now, c);
        v := SendReal;
      } else {
        EntryOf(spine, table, at);
        v := Update(s, at, color, now, grace, mrsleep);
      }
      assert calls[..|calls| - 1] == old(calls);
    }

    /** A node in front of the list, for a test the table does not know. */
    static method Cons(key: Key, color: string, now: int, head: TestStatus?, ghost spine: seq<TestStatus>,
                       ghost table: map<Key, Entry>)
      returns (s: TestStatus)
      requires Linked(head, spine) && OnePerKey(spine, table) && Holds(spine, table) && key !in table
      ensures fresh(s)
      ensures var after := table[key := Entry(color, now, 0)];
              Linked(s, [s] + spine) && OnePerKey([s] + spine, after) && Holds([s] + spine, after)
    {
      s := new TestStatus(key, color, now, head);
      LinkedCons(s, spine);
      OnePerKeyCons(s, spine, table, Entry(color, now, 0));
      HoldsCons(s, spine, table);
    }

    /** Links a node for a test never seen before in front of the list. */
    method AddNode(key: Key, color: string, now: int, ghost c: Call)
      returns (ghost s: TestStatus)
      requires WellFormed() && key !in table
      modifies this
      ensures WellFormed() && table == old(table)[key := Entry(color, now, 0)] && calls == old(calls) + [c]
      ensures fresh(s) && spine == [s] + old(spine)
    {
      hide Linked, Holds, OnePerKey;
      var node := Cons(key, color, now, teststatus, spine, table);
      s := node;
      teststatus, spine := node, [s] + spine;
      table, calls := table[key := Entry(color, now, 0)], calls + [c];
    }

    /** One node observes a call: the others, the links and the keys stay as they are. */
    static method ObserveAt(s: TestStatus, ghost at: nat, head: TestStatus?, ghost spine: seq<TestStatus>,
                            ghost table: map<Key, Entry>, color: string, now: int, grace: int, mrsleep: int)
      returns (v: Verdict, ghost after: map<Key, Entry>)
      requires at < |spine| && s == spine[at]
      requires Linked(head, spine) && OnePerKey(spine, table) && Holds(spine, table)
      modifies s`color, s`last, s`grace
      ensures Linked(head, spine) && OnePerKey(spine, after) && Holds(spine, after)
      ensures var c := Call(s.key, color, now, grace, mrsleep);
              v == VerdictIn(table, c) && after == After(table, c)
    {
      hide Decide;
      EntryOf(spine, table, at);
      v := s.Observe(color, now, grace, mrsleep);
      HoldsUpdated(spine, table, at);
      after := table[s.key := s.TheEntry()];
    }

    method Update(s: TestStatus, ghost at: nat, color: string, now: int, grace: int, mrsleep: int)
      returns (v: Verdict)
      requires WellFormed() && at < |spine| && s == spine[at]
      modifies s`color, s`last, s`grace, this`table, this`calls
      ensures WellFormed()
      ensures var c := Call(s.key, color, now, grace, mrsleep);
              v == VerdictIn(old(table), c) && table == After(old(table), c) && calls == old(calls) + [c]
    {
      hide Linked, Holds, OnePerKey, VerdictIn, After;
      ghost var after;
      v, after := ObserveAt(s, at, teststatus, spine, table, color, now, grace, mrsleep);
      table, calls := after, calls + [Call(s.key, color, now, grace, mrsleep)];
    }
  }

  ghost predicate Agree(table: map<Key, Entry>, log: seq<Report>) {
    forall k: Key ::
      match Shown(log, k)
      case None => k !in table
      case Some(r) => k in table && table[k].color == r.color && table[k].last == r.time
  }

  /** The display shows the colour of call c already, from a report less than mrsleep before it. */
  ghost predicate ShowsFresh(log: seq<Report>, c: Call) {
    match Shown(log, c.key)
    case None => false
    case Some(r) => r.color == c.color && 0 <= c.now - r.time < c.mrsleep
  }

  function ColorShown(c: Call, v: Verdict): string {
    if v == SendGreen then "green" else c.color
  }

  /** A silent call changes nothing, and is right to be silent. */
  lemma SilenceAgrees(table: map<Key, Entry>, log: seq<Report>, c: Call)
    requires Agree(table, log) && VerdictIn(table, c) == Silent
    ensures After(table, c) == table && ShowsFresh(log, c)
  {
    var _ := Shown(log, c.key);
  }

  /** A report keeps the table in agreement with the log. */
  lemma ReportAgrees(table: map<Key, Entry>, log: seq<Report>, c: Call, text: string)
    requires Agree(table, log) && VerdictIn(table, c) != Silent
    ensures Agree(After(table, c), log + [Report(c.key, ColorShown(c, VerdictIn(table, c)), c.now, text)])
  {
    var r := Report(c.key, ColorShown(c, VerdictIn(table, c)), c.now, text);
    assert (log + [r])[..|log|] == log;
    forall k: Key ensures Shown(log + [r], k) == if r.key == k then Some(r) else Shown(log, k) {
    }
  }

  /** The line a display reads, as much of it as report_size allows. */
  function ReportText(machine: string, test: string, color: string, message: string, report_size: nat): string
    requires report_size > 0
  {
    Take("status " + machine + "." + test + " " + color + " " + message, report_size - 1)
  }

  /** A report that is not cut reads back: the machine up to the dot, the test and the colour up to a blank, and
      the message. */
  lemma ReportReads(machine: string, test: string, color: string, message: string, report_size: nat)
    requires '.' !in machine && ' ' !in test && ' ' !in color
    requires |machine| + |test| + |color| + |message| + 10 < report_size
    ensures var text := ReportText(machine, test, color, message, report_size);
            && "status " <= text
            && var whole := text[7..];
               var behind := RestOf(whole, '.');
               && FieldOf(whole, '.') == machine && FieldOf(behind, ' ') == test
               && FieldOf(RestOf(behind, ' '), ' ') == color && RestOf(RestOf(behind, ' '), ' ') == message
  {
    hide FieldOf, RestOf;
    var third := color + " " + message;
    var second := test + " " + third;
    var text := "status " + machine + "." + test + " " + color + " " + message;
    assert text == "status " + (machine + "." + second);
    assert text[7..] == machine + "." + second;
    FieldReads(machine, '.', second);
    FieldReads(test, ' ', third);
    FieldReads(color, ' ', message);
  }

  /** A shorter report is the beginning of a longer one. */
  lemma ReportCut(machine: string, test: string, color: string, message: string, size: nat, larger: nat)
    requires 0 < size <= larger
    ensures ReportText(machine, test, color, message, size)
            == Take(ReportText(machine, test, color, message, larger), size - 1)
  {
  }

  /** The report text, in a fresh buffer of report_size + 1 characters. */
  method FormatReport(machine: string, test: string, color: string, message: string, report_size: nat)
    returns (text: string)
    requires NoNul(machine) && NoNul(test) && NoNul(color) && NoNul(message) && report_size > 0
    ensures text == ReportText(machine, test, color, message, report_size)
  {
    var p := new char[report_size + 1](_ => NUL);
    CStrIs(p[..], "");
    var line := "status " + machine + "." + test + " " + color + " " + message;
    var _ := Snprcat(p, report_size, line);
    text := CStr(p[..]);
    assert "" + line == line;
  }

  class Reporter {
    const statuses: StatusTable
    var gracetime: seq<(string, int)>
    var mrsleep: int
    var report_size: nat
    ghost var sent: seq<Report>

    /** What the table says of a key is what the last report about it said, and every key it knows has
        been reported. */
    ghost predicate Valid()
      reads this, statuses, statuses.spine
    {
      report_size > 0 && statuses.Valid() && Agree(statuses.table, sent)
    }

    constructor (graces: seq<(string, int)>, mrsleep: int, report_size: nat)
      requires report_size > 0
      ensures Valid() && statuses.calls == [] && sent == [] && fresh(statuses) && statuses.spine == []
      ensures gracetime == graces && this.mrsleep == mrsleep && this.report_size == report_size
    {
      statuses := new StatusTable();
      gracetime, this.mrsleep, this.report_size, sent := graces, mrsleep, report_size, [];
    }

    /** Puts the grace time of a test in front of the list. */
    method InsertGrace(test: string, grace: int)
      modifies `gracetime
      ensures LookupGrace(gracetime, test) == grace
      ensures forall other | other != test :: LookupGrace(gracetime, other) == LookupGrace(old(gracetime), other)
    {
      gracetime := [(test, grace)] + gracetime;
    }

    method FindGrace(test: string) returns (grace: int)
      ensures grace == LookupGrace(gracetime, test)
    {
      var i := 0;
      while i < |gracetime|
        invariant i <= |gracetime| && forall j | 0 <= j < i :: gracetime[j].0 != test
      {
        LookupGraceIs(gracetime, test, i);
        if test == gracetime[i].0 { return gracetime[i].1; }
        i := i + 1;
      }
      LookupGraceIs(gracetime, test, i);
      grace := 0;
    }

    /** Decides, and builds the report that is to be delivered. After every call the table agrees with
        the reports, and silence means the last one still shows this colour and is fresh. */
    method MrSend(machine: string, test: string, color: string, message: string, now: int)
      returns (report: Option<string>)
      requires Valid()
      requires NoNul(machine) && NoNul(test) && NoNul(color) && NoNul(message)
      modifies statuses, statuses.spine, this`sent
      ensures Valid()
      ensures var c := Call(Key(machine, test), color, now, LookupGrace(gracetime, test), mrsleep);
              var v := VerdictIn(old(statuses.table), c);
              && statuses.calls == old(statuses.calls) + [c]
              && match report
                 case None =>
                   v == Silent && sent == old(sent) && ShowsFresh(sent, c)
                 case Some(text) =>
                   && v != Silent
                   && text == ReportText(machine, test, ColorShown(c, v), message, report_size)
                   && sent == old(sent) + [Report(c.key, ColorShown(c, v), now, text)]
    {
      hide Decide, Agree, Shown, ShowsFresh, VerdictIn, After, LookupGrace, ReportText, StatusTable.WellFormed;
      var grace := FindGrace(test);
      var c := Call(Key(machine, test), color, now, grace, mrsleep);
      var v := statuses.InsertStatus(machine, test, color, now, grace, mrsleep);
      if v == Silent {
        SilenceAgrees(old(statuses.table), sent, c);
        return None;
      }
      report := Emit(c, v, message, old(statuses.table));
    }

    /** The reporting half of mrsend: formats what was decided and hands it to delivery. */
    method Emit(c: Call, v: Verdict, message: string, ghost before: map<Key, Entry>)
      returns (report: Option<string>)
      requires report_size > 0 && statuses.Valid() && Agree(before, sent)
      requires v == VerdictIn(before, c) != Silent && statuses.table == After(before, c)
      requires NoNul(c.key.machine) && NoNul(c.key.test) && NoNul(c.color) && NoNul(message)
      modifies this`sent
      ensures Valid()
      ensures report == Some(ReportText(c.key.machine, c.key.test, ColorShown(c, v), message, report_size))
      ensures sent == old(sent) + [Report(c.key, ColorShown(c, v), c.now, report.value)]
    {
      hide Decide, Agree, Shown, After, StatusTable.Valid, ReportText;
      var text;
      if v == SendGreen {
        text := FormatReport(c.key.machine, c.key.test, "green", message, report_size);
      } else {
        text := FormatReport(c.key.machine, c.key.test, c.color, message, report_size);
      }
      ReportAgrees(before, sent, c, text);
      sent := sent + [Report(c.key, ColorShown(c, v), c.now, text)];
      report := Some(text);
    }
  }
}
