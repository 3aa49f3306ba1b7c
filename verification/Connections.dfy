/** The connection table of clientlog/winports.c: runs of rows with the same local address and process
    are cut after twenty rows and summarised, with two records that trade places on every row. */
module Connections {
  import opened CStrings

  const MAX_PORT_ENTRIES := 5000
  const SIMILAR_ENTRIES_MAX_NUM := 20

  datatype Protocol = TCP | UDP

  datatype Row = Row(local: string, localPort: int, remote: string, remotePort: int, state: int, pid: int)

  /** What is written: a row, the summary of a run (how many were left out, and a port), or how many
      entries the table had beyond the limit. */
  datatype Item =
    | Line(proto: Protocol, local: string, localPort: int, remote: string, remotePort: int, state: int, pid: int)
    | Summary(local: string, pid: int, more: int, port: int)
    | Overflow(more: int)

  function LineOf(proto: Protocol, r: Row): Item {
    match proto
    case TCP => Line(TCP, r.local, r.localPort, r.remote, r.remotePort, r.state, r.pid)
    case UDP => Line(UDP, r.local, r.localPort, "*:*", 0, 0, r.pid)
  }

  // ---------- runs, on values

  predicate Same(a: Row, b: Row) {
    a.pid == b.pid && a.local == b.local
  }

  /** Row i belongs to the same run as the row before it. */
  predicate Continues(rows: seq<Row>, i: nat)
    requires i < |rows|
  {
    i > 0 && Same(rows[i - 1], rows[i])
  }

  /** Row i is the last of its run. */
  predicate RunEnds(rows: seq<Row>, i: nat)
    requires i < |rows|
  {
    i + 1 == |rows| || !Continues(rows, i + 1)
  }

  /** The first row looks like the zeroed record the code starts from. */
  predicate StartsBlank(rows: seq<Row>) {
    rows != [] && rows[0].pid == 0 && rows[0].local == ""
  }

  /** How many rows of its run come before row i, as the code counts. */
  function Place(rows: seq<Row>, i: nat): nat
    requires i < |rows|
  {
    if Continues(rows, i) then 1 + Place(rows, i - 1)
    else if i == 0 && StartsBlank(rows) then 1
    else 0
  }

  function LineAt(proto: Protocol, rows: seq<Row>, i: nat): seq<Item>
    requires i < |rows|
  {
    if Place(rows, i) < SIMILAR_ENTRIES_MAX_NUM then [LineOf(proto, rows[i])] else []
  }

  /** The port in the summary of the run that ends with row i: that of the row, or of the one before it
      when the table ends there. */
  function SummaryPort(rows: seq<Row>, i: nat): int
    requires i < |rows|
  {
    if i + 1 == |rows| && i > 0 then rows[i - 1].localPort else rows[i].localPort
  }

  function SummaryAfter(rows: seq<Row>, i: nat): seq<Item>
    requires i < |rows|
  {
    if RunEnds(rows, i) && Place(rows, i) + 1 > SIMILAR_ENTRIES_MAX_NUM
    then [Summary(rows[i].local, rows[i].pid, Place(rows, i) + 1 - SIMILAR_ENTRIES_MAX_NUM, SummaryPort(rows, i))]
    else []
  }

  /** Everything written for the first k rows of a table. */
  function Output(proto: Protocol, rows: seq<Row>, k: nat): seq<Item>
    requires k <= |rows|
  {
    if k == 0 then [] else Output(proto, rows, k - 1) + LineAt(proto, rows, k - 1) + SummaryAfter(rows, k - 1)
  }

  /** Everything written for a table. */
  function Report(proto: Protocol, table: seq<Row>): seq<Item> {
    var rows := Take(table, MAX_PORT_ENTRIES);
    Output(proto, rows, |rows|) +
    (if |table| > MAX_PORT_ENTRIES then [Overflow(|table| - MAX_PORT_ENTRIES)] else [])
  }

  // ---------- conservation

  function Entries(item: Item): int {
    match item
    case Line(_, _, _, _, _, _, _) => 1
    case Summary(_, _, more, _) => more
    case Overflow(more) => more
  }

  /** The number of table entries a list of items accounts for. */
  function Accounted(items: seq<Item>): int {
    AccountedTo(items, |items|)
  }

  function AccountedTo(items: seq<Item>, k: nat): int
    requires k <= |items|
  {
    if k == 0 then 0 else AccountedTo(items, k - 1) + Entries(items[k - 1])
  }

  lemma {:induction false} AccountedPrefix(a: seq<Item>, b: seq<Item>, k: nat)
    requires k <= |a|
    ensures AccountedTo(a + b, k) == AccountedTo(a, k)
  {
    if k > 0 {
      AccountedPrefix(a, b, k - 1);
    }
  }

  lemma {:induction false} AccountedSuffix(a: seq<Item>, b: seq<Item>, k: nat)
    requires k <= |b|
    ensures AccountedTo(a + b, |a| + k) == Accounted(a) + AccountedTo(b, k)
  {
    if k == 0 {
      AccountedPrefix(a, b, |a|);
    } else {
      AccountedSuffix(a, b, k - 1);
    }
  }

  lemma AccountedConcat(a: seq<Item>, b: seq<Item>)
    ensures Accounted(a + b) == Accounted(a) + Accounted(b)
  {
    AccountedSuffix(a, b, |b|);
  }

  lemma AccountedOne(item: Item)
    ensures Accounted([item]) == Entries(item)
  {
    assert AccountedTo([item], 0) == 0;
  }

  /** Rows of the run in progress that have been skipped and not yet summarised. */
  function Skipped(rows: seq<Row>, k: nat): int
    requires k <= |rows|
  {
    if k == 0 || RunEnds(rows, k - 1) || Place(rows, k - 1) < SIMILAR_ENTRIES_MAX_NUM then 0
    else Place(rows, k - 1) + 1 - SIMILAR_ENTRIES_MAX_NUM
  }

  /** What the first k rows account for, row by row. */
  function Total(proto: Protocol, rows: seq<Row>, k: nat): int
    requires k <= |rows|
  {
    if k == 0 then 0
    else Total(proto, rows, k - 1) + Accounted(LineAt(proto, rows, k - 1)) + Accounted(SummaryAfter(rows, k - 1))
  }

  lemma {:induction false} TotalIsAccounted(proto: Protocol, rows: seq<Row>, k: nat)
    requires k <= |rows|
    ensures Accounted(Output(proto, rows, k)) == Total(proto, rows, k)
  {
    if k > 0 {
      TotalIsAccounted(proto, rows, k - 1);
      AccountedConcat(Output(proto, rows, k - 1) + LineAt(proto, rows, k - 1), SummaryAfter(rows, k - 1));
      AccountedConcat(Output(proto, rows, k - 1), LineAt(proto, rows, k - 1));
    }
  }

  /** One row adds one to what is accounted for, or to what is skipped, and a summary moves everything
      that was skipped over. */
  lemma RowAccounts(proto: Protocol, rows: seq<Row>, i: nat)
    requires i < |rows|
    ensures Accounted(LineAt(proto, rows, i)) + Accounted(SummaryAfter(rows, i)) + Skipped(rows, i + 1)
            == 1 + Skipped(rows, i)
  {
    AccountedOne(LineOf(proto, rows[i]));
    var more := Place(rows, i) + 1 - SIMILAR_ENTRIES_MAX_NUM;
    AccountedOne(Summary(rows[i].local, rows[i].pid, more, SummaryPort(rows, i)));
    assert i > 0 ==> (RunEnds(rows, i - 1) <==> !Continues(rows, i));
  }

  lemma {:induction false} TotalIsAll(proto: Protocol, rows: seq<Row>, k: nat)
    requires k <= |rows|
    ensures Total(proto, rows, k) + Skipped(rows, k) == k
  {
    if k > 0 {
      TotalIsAll(proto, rows, k - 1);
      RowAccounts(proto, rows, k - 1);
    }
  }

  /** No entry is lost or counted twice: rows shown, rows summarised and the overflow add up to the size
      of the table, for every table. */
  lemma Conservation(proto: Protocol, table: seq<Row>)
    ensures Accounted(Report(proto, table)) == |table|
  {
    var rows := Take(table, MAX_PORT_ENTRIES);
    TotalIsAccounted(proto, rows, |rows|);
    TotalIsAll(proto, rows, |rows|);
    if |table| > MAX_PORT_ENTRIES {
      AccountedOne(Overflow(|table| - MAX_PORT_ENTRIES));
      AccountedConcat(Output(proto, rows, |rows|), [Overflow(|table| - MAX_PORT_ENTRIES)]);
    } else {
      assert Report(proto, table) == Output(proto, rows, |rows|);
    }
  }

  // ---------- what a run looks like

  /** Rows b to e are a maximal run. */
  ghost predicate IsRun(rows: seq<Row>, b: nat, e: nat) {
    && b < e <= |rows| && !Continues(rows, b) && RunEnds(rows, e - 1)
    && forall i | b < i < e :: Continues(rows, i)
  }

  function Lines(proto: Protocol, rows: seq<Row>): seq<Item> {
    seq(|rows|, i requires 0 <= i < |rows| => LineOf(proto, rows[i]))
  }

  /** It is a run exactly when all its rows have one address and one PID, and those around it do not. */
  lemma IsRunExact(rows: seq<Row>, b: nat, e: nat)
    requires b < e <= |rows|
    ensures IsRun(rows, b, e)
            <==> (forall i | b <= i < e :: rows[i].pid == rows[b].pid && rows[i].local == rows[b].local)
                 && (b > 0 ==> rows[b - 1].pid != rows[b].pid || rows[b - 1].local != rows[b].local)
                 && (e < |rows| ==> rows[e].pid != rows[b].pid || rows[e].local != rows[b].local)
  {
    if forall i | b < i < e :: Continues(rows, i) {
      ChainIsSame(rows, b, e);
    } else {
      var i :| b < i < e && !Continues(rows, i);
      assert !Same(rows[i - 1], rows[i]);
    }
  }

  lemma {:induction false} ChainIsSame(rows: seq<Row>, b: nat, e: nat)
    requires b < e <= |rows| && forall i | b < i < e :: Continues(rows, i)
    ensures forall i | b <= i < e :: Same(rows[b], rows[i])
    decreases e
  {
    if e > b + 1 {
      ChainIsSame(rows, b, e - 1);
      assert Continues(rows, e - 1);
    }
  }

  lemma {:induction false} PlaceInRun(rows: seq<Row>, b: nat, e: nat, i: nat)
    requires IsRun(rows, b, e) && b <= i < e
    ensures Place(rows, i) == i - b + (if b == 0 && StartsBlank(rows) then 1 else 0)
  {
    if i > b {
      PlaceInRun(rows, b, e, i - 1);
    }
  }

  /** How many rows of the run that starts at b are shown: one less when it looks like the zeroed record. */
  function Quota(rows: seq<Row>, b: nat): nat {
    if b == 0 && StartsBlank(rows) then SIMILAR_ENTRIES_MAX_NUM - 1 else SIMILAR_ENTRIES_MAX_NUM
  }

  /** The lines of the first `quota` rows from b on, looking no further than k. */
  function Head(proto: Protocol, rows: seq<Row>, b: nat, k: nat, quota: nat): (items: seq<Item>)
    requires b <= k <= |rows|
  {
    Lines(proto, Take(rows[b..k], quota))
  }

  /** Every line shows its own row: the addresses, ports, state and PID of a TCP row, and of a UDP row, which has
      no other end, the address, the port and the PID. */
  lemma HeadShows(proto: Protocol, rows: seq<Row>, b: nat, e: nat, quota: nat, i: nat)
    requires b + i < e <= |rows| && i < quota
    ensures i < |Head(proto, rows, b, e, quota)|
    ensures match Head(proto, rows, b, e, quota)[i]
            case Line(p, local, localPort, remote, remotePort, state, pid) =>
              var r := rows[b + i];
              && p == proto && local == r.local && localPort == r.localPort && pid == r.pid
              && if proto == TCP then remote == r.remote && remotePort == r.remotePort && state == r.state
                 else remote == "*:*"
            case _ => false
  {
    assert Take(rows[b..e], quota)[i] == rows[b + i];
  }

  lemma HeadGrows(proto: Protocol, rows: seq<Row>, b: nat, k: nat, quota: nat)
    requires b <= k < |rows|
    ensures Head(proto, rows, b, k + 1, quota)
            == Head(proto, rows, b, k, quota) + (if k - b < quota then [LineOf(proto, rows[k])] else [])
  {
    var l, m := rows[b..k], rows[b..k + 1];
    assert m == l + [rows[k]];
    assert Take(m, quota) == Take(l, quota) + (if k - b < quota then [rows[k]] else []);
  }

  /** Within a run only lines are written, and only for its first rows. */
  lemma {:induction false} RunSoFar(proto: Protocol, rows: seq<Row>, b: nat, e: nat, k: nat)
    requires IsRun(rows, b, e) && b <= k < e
    ensures Output(proto, rows, k) + LineAt(proto, rows, k)
            == Output(proto, rows, b) + Head(proto, rows, b, k + 1, Quota(rows, b))
    ensures k > b ==> SummaryAfter(rows, k - 1) == []
  {
    hide Output, Place, LineOf, Same, StartsBlank;
    HeadGrows(proto, rows, b, k, Quota(rows, b));
    PlaceInRun(rows, b, e, k);
    if k == b {
      assert rows[b..b] == [] && Head(proto, rows, b, b, Quota(rows, b)) == [];
    } else {
      RunSoFar(proto, rows, b, e, k - 1);
      assert Continues(rows, k);
      OutputNext(proto, rows, k, Output(proto, rows, b), Head(proto, rows, b, k, Quota(rows, b)));
    }
  }

  lemma OutputNext(proto: Protocol, rows: seq<Row>, k: nat, start: seq<Item>, head: seq<Item>)
    requires 0 < k < |rows| && SummaryAfter(rows, k - 1) == []
    requires Output(proto, rows, k - 1) + LineAt(proto, rows, k - 1) == start + head
    ensures Output(proto, rows, k) + LineAt(proto, rows, k) == start + (head + LineAt(proto, rows, k))
  {
    assert Output(proto, rows, k) == start + head;
  }

  /** A maximal run is written as its first twenty rows, and one summary of the rest exactly when it is
      longer; a first run that looks like the zeroed record gets nineteen rows. */
  lemma RunIsCut(proto: Protocol, rows: seq<Row>, b: nat, e: nat)
    requires IsRun(rows, b, e)
    ensures Output(proto, rows, e) == Output(proto, rows, b) + Head(proto, rows, b, e, Quota(rows, b)) +
              (if e - b > Quota(rows, b)
               then [Summary(rows[b].local, rows[b].pid, e - b - Quota(rows, b), SummaryPort(rows, e - 1))]
               else [])
  {
    hide Output, Head, LineAt, SummaryAfter;
    RunSoFar(proto, rows, b, e, e - 1);
    RunSummary(rows, b, e);
    OutputLast(proto, rows, e);
  }

  lemma OutputLast(proto: Protocol, rows: seq<Row>, e: nat)
    requires 0 < e <= |rows|
    ensures Output(proto, rows, e)
            == Output(proto, rows, e - 1) + LineAt(proto, rows, e - 1) + SummaryAfter(rows, e - 1)
  {
  }

  lemma RunSummary(rows: seq<Row>, b: nat, e: nat)
    requires IsRun(rows, b, e)
    ensures SummaryAfter(rows, e - 1)
            == if e - b > Quota(rows, b)
               then [Summary(rows[b].local, rows[b].pid, e - b - Quota(rows, b), SummaryPort(rows, e - 1))]
               else []
  {
    PlaceInRun(rows, b, e, e - 1);
    ChainIsSame(rows, b, e);
  }

  /** The promise of twenty rows holds of a table's first run exactly when that run does not look like
      the zeroed record, or is too short to be cut. */
  lemma TwentyRowsExact(proto: Protocol, rows: seq<Row>, e: nat)
    requires IsRun(rows, 0, e)
    ensures Lines(proto, Take(rows[..e], SIMILAR_ENTRIES_MAX_NUM)) <= Output(proto, rows, e)
            <==> !StartsBlank(rows) || e < SIMILAR_ENTRIES_MAX_NUM
  {
    hide SummaryPort, StartsBlank, Continues;
    RunIsCut(proto, rows, 0, e);
    var twenty := Lines(proto, Take(rows[..e], SIMILAR_ENTRIES_MAX_NUM));
    assert rows[0..e] == rows[..e];
    if StartsBlank(rows) && e >= SIMILAR_ENTRIES_MAX_NUM {
      assert twenty[19].Line?;
      assert Output(proto, rows, e)[19].Summary?;
    } else {
      assert Output(proto, rows, e)[..|twenty|] == twenty;
    }
  }

  /** The highest local port of rows b to e. */
  function HighestPort(rows: seq<Row>, b: nat, e: nat): (p: int)
    requires b < e <= |rows|
    ensures forall i | b <= i < e :: rows[i].localPort <= p
    ensures exists i :: b <= i < e && rows[i].localPort == p
    decreases e
  {
    if e == b + 1 then rows[b].localPort
    else
      var p := HighestPort(rows, b, e - 1);
      if rows[e - 1].localPort > p then rows[e - 1].localPort else p
  }

  /** The row whose port the summary of a run shows: its last row, or the one before when the table ends. */
  function ShownRow(rows: seq<Row>, e: nat): int {
    if e < |rows| then e - 1 else e - 2
  }

  ghost predicate NonePortAbove(rows: seq<Row>, b: nat, e: nat, port: int)
    requires b <= e <= |rows|
  {
    forall i | b <= i < e :: rows[i].localPort <= port
  }

  /** The summary of a run that is cut promises its highest local port. It shows that port exactly when no row
      of the run has a higher one than the row it takes it from. */
  lemma SummaryPortExact(proto: Protocol, rows: seq<Row>, b: nat, e: nat)
    requires IsRun(rows, b, e) && e - b > Quota(rows, b)
    ensures Output(proto, rows, e) != [] && Output(proto, rows, e)[|Output(proto, rows, e)| - 1].Summary?
    ensures b <= ShownRow(rows, e) < e
    ensures Output(proto, rows, e)[|Output(proto, rows, e)| - 1].port == HighestPort(rows, b, e)
            <==> NonePortAbove(rows, b, e, rows[ShownRow(rows, e)].localPort)
  {
    hide Head, Output, HighestPort;
    RunIsCut(proto, rows, b, e);
    HighestIs(rows, b, e, ShownRow(rows, e));
  }

  lemma HighestIs(rows: seq<Row>, b: nat, e: nat, i: nat)
    requires b <= i < e <= |rows|
    ensures rows[i].localPort == HighestPort(rows, b, e) <==> NonePortAbove(rows, b, e, rows[i].localPort)
  {
    hide HighestPort;
  }

  /** Ports in a run do not go down. */
  ghost predicate PortsAscend(rows: seq<Row>, b: nat, e: nat)
    requires b <= e <= |rows|
  {
    forall i, j | b <= i < j < e :: rows[i].localPort <= rows[j].localPort
  }

  /** In a run in order of its ports the promise holds exactly when another run follows, or the last two rows
      have the same port. */
  lemma SortedPortExact(proto: Protocol, rows: seq<Row>, b: nat, e: nat)
    requires IsRun(rows, b, e) && e - b > Quota(rows, b) && PortsAscend(rows, b, e)
    ensures Output(proto, rows, e) != [] && Output(proto, rows, e)[|Output(proto, rows, e)| - 1].Summary?
    ensures Output(proto, rows, e)[|Output(proto, rows, e)| - 1].port == HighestPort(rows, b, e)
            <==> e < |rows| || rows[e - 2].localPort == rows[e - 1].localPort
  {
    hide Output, HighestPort, Same;
    SummaryPortExact(proto, rows, b, e);
    assert rows[e - 2].localPort <= rows[e - 1].localPort;
  }

  /** Twenty-one sockets of one process, on ports 1 to 21, are summarised with "highest local port 20". */
  lemma SummaryPortExample(rows: seq<Row>)
    requires |rows| == 21
    requires forall i | 0 <= i < 21 :: rows[i] == Row("127.0.0.1", i + 1, "0.0.0.0", 0, 2, 4)
    ensures IsRun(rows, 0, 21) && HighestPort(rows, 0, 21) == 21
    ensures Output(TCP, rows, 21) == Lines(TCP, rows[..20]) + [Summary("127.0.0.1", 4, 1, 20)]
  {
    hide Head, Output, HighestPort, Place, Lines;
    assert IsRun(rows, 0, 21);
    RunIsCut(TCP, rows, 0, 21);
    TwentyShown(TCP, rows);
    assert rows[20].localPort == 21;
  }

  lemma TwentyShown(proto: Protocol, rows: seq<Row>)
    requires |rows| >= 21
    ensures Head(proto, rows, 0, 21, 20) == Lines(proto, rows[..20]) && Output(proto, rows, 0) == []
  {
    assert Take(rows[0..21], 20) == rows[..20];
  }

  /** The UDP table is not asked for in order: twenty-one sockets on ports 21 down to 1, with another process
      after them, are summarised with "highest local port 1". */
  lemma UnsortedPortExample(rows: seq<Row>)
    requires |rows| == 22 && rows[21].pid == 8
    requires forall i | 0 <= i < 21 :: rows[i] == Row("0.0.0.0", 21 - i, "*:*", 0, 99, 4)
    ensures IsRun(rows, 0, 21) && HighestPort(rows, 0, 21) == 21
    ensures Output(UDP, rows, 21) == Lines(UDP, rows[..20]) + [Summary("0.0.0.0", 4, 1, 1)]
  {
    hide Head, Output, HighestPort, Place, Lines;
    assert IsRun(rows, 0, 21);
    RunIsCut(UDP, rows, 0, 21);
    TwentyShown(UDP, rows);
    assert rows[0].localPort == 21;
  }

  // ---------- the code

  /** A record that was filled from a table row, which in a UDP table has no other end. */
  predicate Fetched(r: Row, from: Row, proto: Protocol) {
    && r.local == from.local && r.localPort == from.localPort && r.pid == from.pid
    && if proto == TCP then r == from else r.remote == "*:*"
  }

  class Record {
    var row: Row

    constructor ()
      ensures row == Row("", 0, "", 0, 0, 0)
    {
      row := Row("", 0, "", 0, 0, 0);
    }

    /** Fills the record from a table row. A UDP row has no remote port: the old one stays. */
    method GetRow(from: Row, proto: Protocol)
      modifies this
      ensures Fetched(row, from, proto)
    {
      if proto == TCP {
        row := from;
      } else {
        row := row.(local := from.local, localPort := from.localPort, remote := "*:*", state := 99, pid := from.pid);
      }
    }
  }

  lemma XorCancels(x: bv64, y: bv64, mixed: bv64)
    requires mixed == x ^ y
    ensures mixed ^ y == x && mixed ^ x == y
  {
  }

  /** The XOR swap of two pointers, on their bits. */
  method PtrSwap(x: bv64, y: bv64) returns (a: bv64, b: bv64)
    ensures a == y && b == x
  {
    a, b := x, y;
    a := a ^ b;
    XorCancels(x, y, a);
    b := a ^ b;
    a := a ^ b;
  }

  /** Two records at different addresses. */
  class Pair {
    const first: Record
    const second: Record
    const address1: bv64
    const address2: bv64

    constructor (address1: bv64, address2: bv64)
      requires address1 != address2
      ensures Apart() && this.address1 == address1 && this.address2 == address2
      ensures fresh(first) && fresh(second)
      ensures first.row == second.row == Row("", 0, "", 0, 0, 0)
    {
      first := new Record();
      second := new Record();
      this.address1, this.address2 := address1, address2;
    }

    predicate Apart() {
      first != second && address1 != address2
    }

    function At(p: bv64): Record {
      if p == address1 then first else second
    }

    /** The two pointers point at the two records. */
    predicate Holds(r: bv64, rPrev: bv64) {
      Apart() && ((r == address1 && rPrev == address2) || (r == address2 && rPrev == address1))
    }

    /** Makes the current record the previous one, and fills the other from a table row. */
    method Load(r: bv64, rPrev: bv64, from: Row, proto: Protocol) returns (r': bv64, rPrev': bv64)
      requires Holds(r, rPrev)
      modifies first, second
      ensures Holds(r', rPrev') && At(rPrev').row == old(At(r).row)
      ensures Fetched(At(r').row, from, proto)
    {
      r', rPrev' := PtrSwap(r, rPrev);
      At(r').GetRow(from, proto);
    }
  }

  /** What the two records and the counters hold after i rows. */
  ghost predicate InStep(rows: seq<Row>, i: nat, r: Row, rPrev: Row, range: int, skipping: bool)
    requires i <= |rows|
  {
    && (skipping <==> range > SIMILAR_ENTRIES_MAX_NUM)
    && (if i == 0 then range == 1 && r == Row("", 0, "", 0, 0, 0)
        else range == Place(rows, i - 1) + 1 && Same(r, rows[i - 1]) && r.localPort == rows[i - 1].localPort)
    && (i > 1 ==> Same(rPrev, rows[i - 2]) && rPrev.localPort == rows[i - 2].localPort)
  }

  /** Items already written for the first i rows: all but the summary of a run that has just ended, which
      is written when the next row is seen. */
  ghost predicate Written(proto: Protocol, rows: seq<Row>, i: nat, out: seq<Item>)
    requires i <= |rows|
  {
    Output(proto, rows, i) == out + (if i == 0 then [] else SummaryAfter(rows, i - 1))
  }

  /** Writes a table, for any two addresses its two records may have. */
  method AppendConnections(table: seq<Row>, proto: Protocol, address1: bv64, address2: bv64)
    returns (out: seq<Item>)
    requires address1 != address2
    ensures out == Report(proto, table)
  {
    var numEntries := if |table| < MAX_PORT_ENTRIES then |table| else MAX_PORT_ENTRIES;
    out := AppendRows(Take(table, MAX_PORT_ENTRIES), numEntries, proto, address1, address2);
    if |table| > MAX_PORT_ENTRIES {
      out := out + [Overflow(|table| - MAX_PORT_ENTRIES)];
    }
  }

  method AppendRows(rows: seq<Row>, numEntries: nat, proto: Protocol, address1: bv64, address2: bv64)
    returns (out: seq<Item>)
    requires address1 != address2 && numEntries == |rows|
    ensures out == Output(proto, rows, |rows|)
  {
    hide Place, LineAt, SummaryAfter, Same;
    var pair := new Pair(address1, address2);
    var r, rPrev := address1, address2;
    out := [];
    var skipping, range := false, 1;
    for i := 0 to numEntries
      invariant pair.Holds(r, rPrev)
      invariant InStep(rows, i, pair.At(r).row, pair.At(rPrev).row, range, skipping)
      invariant Written(proto, rows, i, out)
    {
      r, rPrev := pair.Load(r, rPrev, rows[i], proto);
      out, range, skipping := Step(rows, i, pair.At(r).row, pair.At(rPrev).row, range, skipping, proto, out);
    }
    var last := pair.At(rPrev).row;
    if skipping {
      out := out + [Summary(last.local, last.pid, range - SIMILAR_ENTRIES_MAX_NUM, last.localPort)];
    }
    AllWritten(proto, rows, pair.At(r).row, last, range, skipping);
  }

  /** What is left to write when the rows run out. */
  lemma AllWritten(proto: Protocol, rows: seq<Row>, r: Row, rPrev: Row, range: int, skipping: bool)
    requires InStep(rows, |rows|, r, rPrev, range, skipping)
    ensures (if rows == [] then [] else SummaryAfter(rows, |rows| - 1))
            == if skipping then [Summary(rPrev.local, rPrev.pid, range - SIMILAR_ENTRIES_MAX_NUM, rPrev.localPort)]
               else []
  {
    if skipping {
      assert |rows| > 1 && Continues(rows, |rows| - 1);
    }
  }

  /** The body of the loop, once the row is in r and the one before it in rPrev. */
  method Step(ghost rows: seq<Row>, ghost i: nat, r: Row, rPrev: Row, range0: int, skipping0: bool, proto: Protocol,
              before: seq<Item>) returns (out: seq<Item>, range: int, skipping: bool)
    requires i < |rows| && Fetched(r, rows[i], proto)
    requires exists older: Row :: InStep(rows, i, rPrev, older, range0, skipping0)
    requires Written(proto, rows, i, before)
    ensures InStep(rows, i + 1, r, rPrev, range, skipping)
    ensures Written(proto, rows, i + 1, out)
  {
    out, range, skipping := before, range0, skipping0;
    if r.pid == rPrev.pid && r.local == rPrev.local {
      range := range + 1;
      if range > SIMILAR_ENTRIES_MAX_NUM {
        skipping := true;
      }
      if skipping { return; }
    } else {
      if skipping {
        out := out + [Summary(rPrev.local, rPrev.pid, range - SIMILAR_ENTRIES_MAX_NUM, rPrev.localPort)];
      }
      skipping, range := false, 1;
    }
    if proto == TCP {
      out := out + [Line(TCP, r.local, r.localPort, r.remote, r.remotePort, r.state, r.pid)];
    } else {
      out := out + [Line(UDP, r.local, r.localPort, r.remote, 0, 0, r.pid)];
    }
  }
}
