/** The process tables of clientlog/processes.c: three chained comparators, an in-place merge sort, and
    the printer that shows the first rows but skips idle ones. */
module Processes {
  import opened CStrings
  import opened MergeSort
  import opened MergeTies

  datatype Row = Row(name: string, pid: int, user: string, cpu: real, memory: int)

  /** Which of the three comparators is in use. */
  datatype Order = ByName | ByCpu | ByMemory

  const NUM_TOPPROCESSES := 20

  // ---------- the comparators

  function Lower(c: char): char {
    if 'A' <= c <= 'Z' then (c as int + 32) as char else c
  }

  /** _stricmp as a three-way comparison. */
  function Stricmp(a: string, b: string): (r: int)
    ensures -1 <= r <= 1
  {
    if a == [] then (if b == [] then 0 else -1)
    else if b == [] then 1
    else if Lower(a[0]) < Lower(b[0]) then -1
    else if Lower(a[0]) > Lower(b[0]) then 1
    else Stricmp(a[1..], b[1..])
  }

  function CompareName(a: Row, b: Row): int {
    var res := -Stricmp(a.name, b.name);
    if res == 0 then (if a.pid > b.pid then 1 else -1) else res
  }

  function CompareCPU(a: Row, b: Row): int {
    if a.cpu > b.cpu then 1 else if a.cpu < b.cpu then -1 else CompareName(a, b)
  }

  function CompareMemory(a: Row, b: Row): int {
    if a.memory > b.memory then 1 else if a.memory < b.memory then -1 else CompareName(a, b)
  }

  function Compare(o: Order, a: Row, b: Row): int {
    match o
    case ByName => CompareName(a, b)
    case ByCpu => CompareCPU(a, b)
    case ByMemory => CompareMemory(a, b)
  }

  // ---------- what they mean

  /** a is to be shown above b: more CPU or memory first, then names in alphabetical order, then the
      higher PID. */
  predicate RanksAbove(o: Order, a: Row, b: Row) {
    if o == ByCpu && a.cpu != b.cpu then a.cpu > b.cpu
    else if o == ByMemory && a.memory != b.memory then a.memory > b.memory
    else if Stricmp(a.name, b.name) != 0 then Stricmp(a.name, b.name) < 0
    else a.pid > b.pid
  }

  /** Rows no comparator can tell apart by name and PID. */
  predicate SameKey(a: Row, b: Row) {
    Stricmp(a.name, b.name) == 0 && a.pid == b.pid
  }

  lemma {:induction false} StricmpSwap(a: string, b: string)
    ensures Stricmp(a, b) == -Stricmp(b, a)
  {
    if a != [] && b != [] {
      StricmpSwap(a[1..], b[1..]);
    }
  }

  lemma {:induction false} StricmpTransitive(a: string, b: string, c: string)
    requires Stricmp(a, b) <= 0 && Stricmp(b, c) <= 0
    ensures Stricmp(a, c) <= 0
    ensures Stricmp(a, c) == 0 ==> Stricmp(a, b) == 0 && Stricmp(b, c) == 0
  {
    if a != [] && b != [] && c != [] && Lower(a[0]) == Lower(b[0]) == Lower(c[0]) {
      StricmpTransitive(a[1..], b[1..], c[1..]);
    }
  }

  function Lowered(s: string): (t: string)
    ensures |t| == |s|
  {
    seq(|s|, i requires 0 <= i < |s| => Lower(s[i]))
  }

  /** Names compare as equal exactly when they differ in case only. */
  lemma {:induction false} StricmpZero(a: string, b: string)
    ensures Stricmp(a, b) == 0 <==> Lowered(a) == Lowered(b)
  {
    if a != [] && b != [] {
      assert Lowered(a) == [Lower(a[0])] + Lowered(a[1..]);
      assert Lowered(b) == [Lower(b[0])] + Lowered(b[1..]);
      StricmpZero(a[1..], b[1..]);
      assert Lowered(a)[1..] == Lowered(a[1..]) && Lowered(b)[1..] == Lowered(b[1..]);
    } else {
      assert |Lowered(a)| == |a| && |Lowered(b)| == |b|;
    }
  }

  const CAPITALS := "ABCDEFGHIJKLMNOPQRSTUVWXYZ"
  const SMALL := "abcdefghijklmnopqrstuvwxyz"

  lemma LetterAt(i: nat)
    requires i < 26
    ensures CAPITALS[i] as int == 'A' as int + i && SMALL[i] as int == 'a' as int + i
  {
  }

  /** A letter in either case is lowered to the small one. */
  lemma LowerLetters(i: nat)
    requires i < 26
    ensures Lower(CAPITALS[i]) == Lower(SMALL[i]) == SMALL[i]
  {
    LetterAt(i);
  }

  /** Anything that is no capital letter stays as it is. */
  lemma LowerOthers(c: char)
    ensures c in CAPITALS || Lower(c) == c
  {
    if 'A' <= c <= 'Z' {
      LetterAt(c as int - 'A' as int);
      assert CAPITALS[c as int - 'A' as int] == c;
    }
  }

  lemma LoweredCons(s: string)
    requires s != ""
    ensures Lowered(s) == [Lower(s[0])] + Lowered(s[1..])
  {
  }

  /** A name is less than another exactly when, in small letters, it comes before it in a dictionary. */
  lemma {:induction false} StricmpAlphabetical(a: string, b: string)
    ensures Stricmp(a, b) < 0 <==> Earlier(Lowered(a), Lowered(b))
  {
    hide Lower, Lowered, Earlier;
    if a == "" || b == "" {
      EarlierEmpty(Lowered(a), Lowered(b));
    } else {
      StricmpAlphabetical(a[1..], b[1..]);
      LoweredCons(a);
      LoweredCons(b);
      EarlierCons(Lower(a[0]), Lowered(a[1..]), Lower(b[0]), Lowered(b[1..]));
    }
  }

  /** The comparators never say "equal", and say "above" exactly when the ranking does. */
  lemma CompareMeansRank(o: Order, a: Row, b: Row)
    ensures Compare(o, a, b) != 0
    ensures Compare(o, a, b) > 0 <==> RanksAbove(o, a, b)
  {
  }

  /** The ranking is a strict order, total up to rows that agree on everything it looks at. */
  lemma RankIsOrder(o: Order, a: Row, b: Row, c: Row)
    ensures !RanksAbove(o, a, a)
    ensures RanksAbove(o, a, b) && RanksAbove(o, b, c) ==> RanksAbove(o, a, c)
    ensures !RanksAbove(o, a, b) && !RanksAbove(o, b, c) ==> !RanksAbove(o, a, c)
    ensures RanksAbove(o, a, b) || RanksAbove(o, b, a) || SameKey(a, b)
  {
    StricmpSwap(a.name, a.name);
    StricmpSwap(a.name, b.name);
    StricmpSwap(b.name, c.name);
    StricmpSwap(a.name, c.name);
    if Stricmp(a.name, b.name) <= 0 && Stricmp(b.name, c.name) <= 0 {
      StricmpTransitive(a.name, b.name, c.name);
    }
    if Stricmp(c.name, b.name) <= 0 && Stricmp(b.name, a.name) <= 0 {
      StricmpTransitive(c.name, b.name, a.name);
    }
  }

  /** The comparison function of an order, as it is handed to the sort. */
  function By(o: Order): (Row, Row) -> int {
    (a, b) => Compare(o, a, b)
  }

  lemma ByIsRank(o: Order)
    ensures IsRanking(By(o))
    ensures forall a, b :: Above(By(o), a, b) <==> RanksAbove(o, a, b)
  {
    forall a, b, c
      ensures Above(By(o), a, b) <==> RanksAbove(o, a, b)
      ensures !Above(By(o), a, a)
      ensures Above(By(o), a, b) && Above(By(o), b, c) ==> Above(By(o), a, c)
      ensures !Above(By(o), a, b) && !Above(By(o), b, c) ==> !Above(By(o), a, c)
    {
      CompareMeansRank(o, a, b);
      CompareMeansRank(o, b, c);
      CompareMeansRank(o, a, c);
      CompareMeansRank(o, a, a);
      RankIsOrder(o, a, b, c);
    }
  }

  ghost predicate Ranked(o: Order, s: seq<Row>) {
    forall i, j | 0 <= i < j < |s| :: !RanksAbove(o, s[j], s[i])
  }

  /** By name: in alphabetical order, whatever the case, and of one name the higher PID first. */
  ghost predicate NameOrder(a: Row, b: Row) {
    if Lowered(a.name) == Lowered(b.name) then a.pid >= b.pid else Earlier(Lowered(a.name), Lowered(b.name))
  }

  /** What a reader of a table expects of a row and one below it: more CPU or memory first, where that is the
      order, and otherwise by name. */
  ghost predicate MayPrecede(o: Order, a: Row, b: Row) {
    match o
    case ByName => NameOrder(a, b)
    case ByCpu => a.cpu > b.cpu || (a.cpu == b.cpu && NameOrder(a, b))
    case ByMemory => a.memory > b.memory || (a.memory == b.memory && NameOrder(a, b))
  }

  ghost predicate InTableOrder(o: Order, s: seq<Row>) {
    forall i, j | 0 <= i < j < |s| :: MayPrecede(o, s[i], s[j])
  }

  lemma RanksInOrder(o: Order, a: Row, b: Row)
    ensures !RanksAbove(o, b, a) <==> MayPrecede(o, a, b)
  {
    hide Stricmp, Earlier, Lowered;
    StricmpZero(a.name, b.name);
    StricmpZero(b.name, a.name);
    StricmpAlphabetical(a.name, b.name);
    StricmpSwap(a.name, b.name);
  }

  /** Rows are ranked exactly when the table is in the order a reader expects. */
  lemma RankedInOrder(o: Order, s: seq<Row>)
    ensures Ranked(o, s) <==> InTableOrder(o, s)
  {
    hide RanksAbove, MayPrecede;
    forall i, j | 0 <= i < j < |s| ensures !RanksAbove(o, s[j], s[i]) <==> MayPrecede(o, s[i], s[j]) {
      RanksInOrder(o, s[i], s[j]);
    }
  }

  ghost predicate DistinctKeys(s: seq<Row>) {
    forall i, j | 0 <= i < j < |s| :: !SameKey(s[i], s[j])
  }

  /** Rows with distinct names and PIDs have one table per order, whatever order they came in. */
  lemma TableCanonical(o: Order, rows: seq<Row>, others: seq<Row>)
    requires multiset(rows) == multiset(others) && DistinctKeys(rows)
    ensures Sort(By(o), rows) == Sort(By(o), others)
  {
    ByIsRank(o);
    forall i, j | 0 <= i < j < |rows| ensures Above(By(o), rows[i], rows[j]) || Above(By(o), rows[j], rows[i]) {
      RankIsOrder(o, rows[i], rows[j], rows[i]);
    }
    SortCanonical(By(o), rows, others);
  }

  /** Any two different rows are ranked one way or the other. */
  ghost predicate AllRanked(o: Order, rows: seq<Row>) {
    forall a, b | a in rows && b in rows && a != b :: RanksAbove(o, a, b) || RanksAbove(o, b, a)
  }

  /** The table is the same whatever order the rows came in, exactly when any two different ones are ranked. */
  lemma TableCanonicalExact(o: Order, rows: seq<Row>)
    ensures Canonical(By(o), rows) <==> AllRanked(o, rows)
  {
    ByIsRank(o);
    CanonicalExact(By(o), rows);
  }

  /** Rows that no comparator ranks keep their order in a sort exactly when their class reads the same
      backwards: every sort turns it round. */
  lemma TiesKeptExact(o: Order, rows: seq<Row>)
    ensures KeepsTies(By(o), rows)
            <==> forall x | x in rows :: Reversed(TiesOf(By(o), x, rows)) == TiesOf(By(o), x, rows)
    ensures forall x :: TiesOf(By(o), x, Sort(By(o), rows)) == Reversed(TiesOf(By(o), x, rows))
  {
    ByIsRank(o);
    KeepsTiesExact(By(o), rows);
    forall x ensures TiesOf(By(o), x, Sort(By(o), rows)) == Reversed(TiesOf(By(o), x, rows)) {
      SortReversesTies(By(o), x, rows);
    }
  }

  /** Sorting ranks the rows and keeps every one of them. */
  lemma SortRanks(o: Order, rows: seq<Row>)
    ensures Ranked(o, Sort(By(o), rows))
    ensures multiset(Sort(By(o), rows)) == multiset(rows)
  {
    ByIsRank(o);
    SortSorts(By(o), rows);
    SortPermutes(By(o), rows);
    var s := Sort(By(o), rows);
    forall i, j | 0 <= i < j < |s| ensures !RanksAbove(o, s[j], s[i]) {
      assert !Above(By(o), s[j], s[i]);
    }
  }

  /** Copies the rows over in the order the sort puts their pointers in. */
  method SortBy(rows: seq<Row>, o: Order) returns (sorted: seq<Row>)
    ensures sorted == Sort(By(o), rows)
    ensures Ranked(o, sorted) && InTableOrder(o, sorted) && multiset(sorted) == multiset(rows)
  {
    hide InTableOrder, Ranked, Sort;
    var res := new Row[|rows|];
    for i := 0 to |rows|
      invariant res[..i] == rows[..i]
    {
      res[i] := rows[i];
    }
    HelperSortBy(res, By(o), 0, |rows|);
    SortRangeAll(By(o), rows);
    sorted := res[..];
    SortRanks(o, rows);
    RankedInOrder(o, sorted);
  }

  // ---------- the printer

  /** The rows that are shown at all: those of real processes. */
  function NonIdle(s: seq<Row>): seq<Row> {
    if s == [] then []
    else if s[|s| - 1].pid == 0 then NonIdle(s[..|s| - 1])
    else NonIdle(s[..|s| - 1]) + [s[|s| - 1]]
  }

  lemma {:induction false} NonIdleAppend(s: seq<Row>, t: seq<Row>)
    ensures NonIdle(s + t) == NonIdle(s) + NonIdle(t)
  {
    if t == [] {
      assert s + t == s;
    } else {
      assert (s + t)[..|s + t| - 1] == s + t[..|t| - 1];
      NonIdleAppend(s, t[..|t| - 1]);
    }
  }

  /** Shows the first maxNumRows non-idle rows, or all of them when there are fewer: each idle row it
      meets raises its own bound by one. */
  method AppendTable(rows: seq<Row>, maxNumRows: nat) returns (out: seq<Row>)
    ensures out == Take(NonIdle(rows), maxNumRows)
  {
    out := [];
    var bound, i := maxNumRows, 0;
    while i < |rows| && i < bound
      invariant 0 <= i <= |rows| && i <= bound
      invariant out == NonIdle(rows[..i]) && bound - i == maxNumRows - |out|
    {
      assert rows[..i + 1][..i] == rows[..i];
      if rows[i].pid == 0 {
        bound := bound + 1;
      } else {
        out := out + [rows[i]];
      }
      i := i + 1;
    }
    assert rows == rows[..i] + rows[i..];
    NonIdleAppend(rows[..i], rows[i..]);
    if i == |rows| { assert rows[i..] == []; }
  }

  lemma {:induction false} NonIdleKeepsOrder(o: Order, s: seq<Row>)
    requires Ranked(o, s)
    ensures Ranked(o, NonIdle(s))
    ensures forall x | x in NonIdle(s) :: x in s && x.pid != 0
    ensures forall x :: multiset(NonIdle(s))[x] == if x.pid == 0 then 0 else multiset(s)[x]
  {
    if s != [] {
      var front := s[..|s| - 1];
      assert s == front + [s[|s| - 1]];
      NonIdleKeepsOrder(o, front);
      forall i, j | 0 <= i < j < |NonIdle(s)| ensures !RanksAbove(o, NonIdle(s)[j], NonIdle(s)[i]) {
        if j == |NonIdle(front)| {
          assert NonIdle(front)[i] in front;
          var k :| 0 <= k < |front| && front[k] == NonIdle(front)[i];
          assert s[k] == front[k];
        }
      }
    }
  }

  /** After a sort, the n rows shown are the top n: every real process that is left out ranks above none
      of them, and shown and left out together are all the real processes. */
  lemma ShownAreTheTop(o: Order, rows: seq<Row>, n: nat) returns (shown: seq<Row>, left: seq<Row>)
    ensures shown == Take(NonIdle(Sort(By(o), rows)), n)
    ensures forall x :: multiset(shown)[x] + multiset(left)[x] == if x.pid == 0 then 0 else multiset(rows)[x]
    ensures forall i, j | 0 <= i < |shown| && 0 <= j < |left| :: !RanksAbove(o, left[j], shown[i])
    ensures left != [] ==> |shown| == n
    ensures InTableOrder(o, shown)
  {
    hide InTableOrder, NonIdle, Sort, Ranked, RanksAbove, By;
    var s := NonIdle(Sort(By(o), rows));
    SortRanks(o, rows);
    NonIdleKeepsOrder(o, Sort(By(o), rows));
    shown := Take(s, n);
    left := s[|shown|..];
    assert s == shown + left;
    TopAboveRest(o, s, |shown|);
    RankedInOrder(o, shown);
  }

  lemma TopAboveRest(o: Order, s: seq<Row>, n: nat)
    requires Ranked(o, s) && n <= |s|
    ensures Ranked(o, s[..n])
    ensures forall i, j | 0 <= i < n && 0 <= j < |s| - n :: !RanksAbove(o, s[n..][j], s[..n][i])
  {
    var shown, left := s[..n], s[n..];
    forall i, j | 0 <= i < |shown| && 0 <= j < |left| ensures !RanksAbove(o, left[j], shown[i]) {
      assert s[i] == shown[i] && s[n + j] == left[j];
    }
  }

  /** The three tables of one report: each sort starts from the order the one before it left. */
  method EndAppendQuery(rows: seq<Row>) returns (all: seq<Row>, topCpu: seq<Row>, topMemory: seq<Row>)
    ensures DistinctKeys(rows) ==>
              && all == NonIdle(Sort(By(ByName), rows))
              && topCpu == Take(NonIdle(Sort(By(ByCpu), rows)), NUM_TOPPROCESSES)
              && topMemory == Take(NonIdle(Sort(By(ByMemory), rows)), NUM_TOPPROCESSES)
    ensures all == Take(NonIdle(Sort(By(ByName), rows)), |rows|)
    ensures topCpu == Take(NonIdle(Sort(By(ByCpu), Sort(By(ByName), rows))), NUM_TOPPROCESSES)
    ensures topMemory == Take(NonIdle(Sort(By(ByMemory), Sort(By(ByCpu), Sort(By(ByName), rows)))), NUM_TOPPROCESSES)
    ensures InTableOrder(ByName, all) && InTableOrder(ByCpu, topCpu) && InTableOrder(ByMemory, topMemory)
  {
    hide NonIdle, Sort, By, Ranked, InTableOrder, DistinctKeys;
    var table := SortBy(rows, ByName);
    all := AppendTable(table, |table|);
    NonIdleShorter(table);
    assert |table| == |multiset(table)| == |multiset(rows)| == |rows|;
    var byCpu := SortBy(table, ByCpu);
    topCpu := AppendTable(byCpu, NUM_TOPPROCESSES);
    var byMemory := SortBy(byCpu, ByMemory);
    topMemory := AppendTable(byMemory, NUM_TOPPROCESSES);
    var _, _ := ShownAreTheTop(ByName, rows, |rows|);
    var _, _ := ShownAreTheTop(ByCpu, table, NUM_TOPPROCESSES);
    var _, _ := ShownAreTheTop(ByMemory, byCpu, NUM_TOPPROCESSES);
    if DistinctKeys(rows) {
      TableCanonical(ByCpu, rows, table);
      TableCanonical(ByMemory, rows, byCpu);
    }
  }

  lemma NonIdleShorter(s: seq<Row>)
    ensures |NonIdle(s)| <= |s|
  {
  }
}
