/** Which verdicts insert_status of mrbig.c gives, said of the calls and of what the display shows, without
    the table: one rule for each of the three results, which together leave no choice. */
module Verdicts {
  import opened CStrings
  import opened Status

  // ---------- the rules

  /** Before call n, report i is the last one made for k. */
  ghost predicate Shows(calls: seq<Call>, vs: seq<Verdict>, k: Key, n: nat, i: nat)
    requires n <= |calls| == |vs|
  {
    && i < n && calls[i].key == k && vs[i] != Silent
    && forall j | i < j < n && calls[j].key == k :: vs[j] == Silent
  }

  function ShownColor(calls: seq<Call>, vs: seq<Verdict>, i: nat): string
    requires i < |calls| == |vs|
  {
    if vs[i] == SendGreen then "green" else calls[i].color
  }

  /** The display shows this colour already, since less than mrsleep. */
  ghost predicate AlreadyShown(calls: seq<Call>, vs: seq<Verdict>, n: nat)
    requires n < |calls| == |vs|
  {
    exists i: nat | i < n ::
      Shows(calls, vs, calls[n].key, n, i) && ShownColor(calls, vs, i) == calls[n].color
      && 0 <= calls[n].now - calls[i].now < calls[n].mrsleep
  }

  /** Before call n, call r is the last one for k whose real colour was reported. */
  ghost predicate LastReal(calls: seq<Call>, vs: seq<Verdict>, k: Key, n: nat, r: nat)
    requires n <= |calls| == |vs|
  {
    && r < n && calls[r].key == k && vs[r] == SendReal
    && forall j | r < j < n && calls[j].key == k :: vs[j] != SendReal
  }

  /** Call f is the first non-green one for k after call r. */
  ghost predicate FirstBad(calls: seq<Call>, k: Key, r: nat, f: nat) {
    && r < f < |calls| && calls[f].key == k && calls[f].color != "green"
    && forall j | r < j < f && calls[j].key == k :: calls[j].color == "green"
  }

  /** The display shows green, the call is not green, and the grace time that began with the first non-green
      call since the last real report is not over. */
  ghost predicate InGraceTime(calls: seq<Call>, vs: seq<Verdict>, n: nat)
    requires n < |calls| == |vs|
  {
    && calls[n].color != "green"
    && (exists i: nat | i < n :: Shows(calls, vs, calls[n].key, n, i) && ShownColor(calls, vs, i) == "green")
    && exists r: nat, f: nat | LastReal(calls, vs, calls[n].key, n, r) && FirstBad(calls, calls[n].key, r, f) ::
         f <= n && calls[n].now < calls[f].now + calls[f].grace
  }

  /** Silent when the display shows this already, green while the grace time runs, and the real colour in every
      other case. */
  ghost predicate Explains(calls: seq<Call>, vs: seq<Verdict>) {
    |vs| == |calls| && forall n | 0 <= n < |calls| :: ExplainsAt(calls, vs, n)
  }

  ghost predicate ExplainsAt(calls: seq<Call>, vs: seq<Verdict>, n: nat)
    requires n < |calls| == |vs|
  {
    vs[n] == if AlreadyShown(calls, vs, n) then Silent else if InGraceTime(calls, vs, n) then SendGreen else SendReal
  }

  function VerdictsOf(calls: seq<Call>): seq<Verdict> {
    seq(|calls|, i requires 0 <= i < |calls| => VerdictOf(calls, i))
  }

  // ---------- what the table remembers is what the rules look at

  lemma ShowsIsLastReport(calls: seq<Call>, k: Key, n: nat, i: nat)
    requires n <= |calls|
    ensures Shows(calls, VerdictsOf(calls), k, n, i) <==> IsLastReport(calls[..n], k, i)
  {
    hide VerdictOf;
    var before, vs := calls[..n], VerdictsOf(calls);
    forall j: nat | j < n ensures before[j] == calls[j] && VerdictOf(before, j) == vs[j] {
      VerdictOfPrefix(calls, n, j);
    }
    if Shows(calls, vs, k, n, i) {
      forall j | i < j && IsFor(before, k, j) ensures VerdictOf(before, j) == Silent {
      }
    }
    if IsLastReport(before, k, i) {
      forall j | i < j < n && calls[j].key == k ensures vs[j] == Silent {
        assert IsFor(before, k, j);
      }
    }
  }

  lemma RealIsLastReal(calls: seq<Call>, k: Key, n: nat, r: nat)
    requires n <= |calls|
    ensures LastReal(calls, VerdictsOf(calls), k, n, r) <==> IsLastReal(calls[..n], k, r)
  {
    hide VerdictOf;
    var before, vs := calls[..n], VerdictsOf(calls);
    forall j: nat | j < n ensures before[j] == calls[j] && VerdictOf(before, j) == vs[j] {
      VerdictOfPrefix(calls, n, j);
    }
    if LastReal(calls, vs, k, n, r) {
      forall j | r < j && IsFor(before, k, j) ensures VerdictOf(before, j) != SendReal {
      }
    }
    if IsLastReal(before, k, r) {
      forall j | r < j < n && calls[j].key == k ensures vs[j] != SendReal {
        assert IsFor(before, k, j);
      }
    }
  }

  /** A call is silent exactly when the last report for its key showed its colour, less than mrsleep before. */
  lemma SilentExact(calls: seq<Call>, n: nat, i: nat)
    requires n < |calls| && IsLastReport(calls[..n], calls[n].key, i)
    ensures VerdictOf(calls, n) == Silent
            <==> ColorSent(calls, i) == calls[n].color && 0 <= calls[n].now - calls[i].now < calls[n].mrsleep
  {
    var before, k := calls[..n], calls[n].key;
    ReportedIsKnown(before, k, i);
    var j := EntryIsLastReport(before, k);
    LastReportUnique(before, k, i, j);
    VerdictOfPrefix(calls, n, i);
  }

  lemma {:induction false} ReportedIsKnown(calls: seq<Call>, k: Key, i: nat)
    requires IsFor(calls, k, i)
    ensures k in Table(calls)
  {
    var n := |calls| - 1;
    if i < n {
      assert IsFor(calls[..n], k, i);
      ReportedIsKnown(calls[..n], k, i);
    }
  }

  lemma AlreadyShownExact(calls: seq<Call>, n: nat)
    requires n < |calls|
    ensures AlreadyShown(calls, VerdictsOf(calls), n) <==> VerdictOf(calls, n) == Silent
  {
    hide Table, VerdictOf;
    var vs, k := VerdictsOf(calls), calls[n].key;
    if AlreadyShown(calls, vs, n) {
      var i: nat :| i < n && Shows(calls, vs, k, n, i) && ShownColor(calls, vs, i) == calls[n].color
               && 0 <= calls[n].now - calls[i].now < calls[n].mrsleep;
      ShowsIsLastReport(calls, k, n, i);
      SilentExact(calls, n, i);
    }
    if VerdictOf(calls, n) == Silent {
      var i := SilenceIsFresh(calls, n);
      ShowsIsLastReport(calls, k, n, i);
    }
  }

  /** What a green entry and a non-green call come to. */
  lemma OnGreen(calls: seq<Call>, n: nat) returns (r: nat, f: nat)
    requires n < |calls| && SaneClock(calls) && calls[n].color != "green"
    requires calls[n].key in Table(calls[..n]) && Table(calls[..n])[calls[n].key].color == "green"
    ensures LastReal(calls, VerdictsOf(calls), calls[n].key, n, r) && FirstBad(calls, calls[n].key, r, f) && f <= n
    ensures VerdictOf(calls, n) == if calls[n].now < calls[f].now + calls[f].grace then SendGreen else SendReal
  {
    hide Table, VerdictOf;
    var k, here := calls[n].key, calls[..n + 1];
    r, f := AlarmExactlyAtDeadline(calls, n);
    RealIsLastReal(calls, k, n, r);
    assert Bad(here, k, f);
    forall j | r < j < f && calls[j].key == k ensures calls[j].color == "green" {
      assert !Bad(here, k, j);
    }
  }

  /** What the other entries and calls come to: never to green instead of the real colour. */
  lemma OnOther(calls: seq<Call>, n: nat)
    requires n < |calls|
    requires calls[n].color == "green" || calls[n].key !in Table(calls[..n])
             || Table(calls[..n])[calls[n].key].color != "green"
    ensures VerdictOf(calls, n) != SendGreen
  {
  }

  /** The display shows green exactly when the table says green. */
  lemma ShowsGreen(calls: seq<Call>, k: Key, n: nat)
    requires n <= |calls|
    ensures (exists i: nat | i < n ::
               Shows(calls, VerdictsOf(calls), k, n, i) && ShownColor(calls, VerdictsOf(calls), i) == "green")
            <==> k in Table(calls[..n]) && Table(calls[..n])[k].color == "green"
  {
    hide Table, VerdictOf;
    var before, vs := calls[..n], VerdictsOf(calls);
    if k in Table(before) {
      var j := EntryIsLastReport(before, k);
      VerdictOfPrefix(calls, n, j);
      ShowsIsLastReport(calls, k, n, j);
      forall i: nat | Shows(calls, vs, k, n, i) ensures i == j {
        ShowsIsLastReport(calls, k, n, i);
        LastReportUnique(before, k, i, j);
      }
    } else {
      forall i: nat | Shows(calls, vs, k, n, i) ensures false {
        assert IsFor(before, k, i);
        ReportedIsKnown(before, k, i);
      }
    }
  }

  lemma InGraceTimeExact(calls: seq<Call>, n: nat)
    requires n < |calls| && SaneClock(calls)
    ensures InGraceTime(calls, VerdictsOf(calls), n) <==> VerdictOf(calls, n) == SendGreen
  {
    hide Table, VerdictOf, Shows, ShownColor;
    var vs, k := VerdictsOf(calls), calls[n].key;
    ShowsGreen(calls, k, n);
    if calls[n].color != "green" && k in Table(calls[..n]) && Table(calls[..n])[k].color == "green" {
      var r, f := OnGreen(calls, n);
      forall r': nat, f': nat | LastReal(calls, vs, k, n, r') && FirstBad(calls, k, r', f') ensures r' == r && f' == f {
      }
    } else {
      OnOther(calls, n);
    }
  }

  /** The verdicts of a run obey the rules, and no others do. */
  lemma VerdictsExact(calls: seq<Call>, vs: seq<Verdict>)
    requires SaneClock(calls)
    ensures Explains(calls, vs) <==> vs == VerdictsOf(calls)
  {
    hide Table, VerdictOf, AlreadyShown, InGraceTime;
    forall n: nat | n < |calls| ensures ExplainsAt(calls, VerdictsOf(calls), n) {
      AlreadyShownExact(calls, n);
      InGraceTimeExact(calls, n);
    }
    if Explains(calls, vs) { OneExplanation(calls, vs, VerdictsOf(calls), |calls|); }
  }

  /** The rules leave no choice: each verdict follows from those before it. */
  lemma {:induction false} OneExplanation(calls: seq<Call>, vs: seq<Verdict>, ws: seq<Verdict>, n: nat)
    requires Explains(calls, vs) && Explains(calls, ws) && n <= |calls|
    ensures vs[..n] == ws[..n]
  {
    hide AlreadyShown, InGraceTime;
    if n > 0 {
      OneExplanation(calls, vs, ws, n - 1);
      SameRules(calls, vs, ws, n - 1);
      assert ExplainsAt(calls, vs, n - 1) && ExplainsAt(calls, ws, n - 1);
      assert vs[..n] == vs[..n - 1] + [vs[n - 1]] && ws[..n] == ws[..n - 1] + [ws[n - 1]];
    }
  }

  lemma SameRules(calls: seq<Call>, vs: seq<Verdict>, ws: seq<Verdict>, n: nat)
    requires n < |calls| == |vs| == |ws| && vs[..n] == ws[..n]
    ensures AlreadyShown(calls, vs, n) <==> AlreadyShown(calls, ws, n)
    ensures InGraceTime(calls, vs, n) <==> InGraceTime(calls, ws, n)
  {
    var k := calls[n].key;
    forall j | 0 <= j < n ensures vs[j] == ws[j] {
      assert vs[j] == vs[..n][j] && ws[j] == ws[..n][j];
    }
    forall i: nat ensures Shows(calls, vs, k, n, i) <==> Shows(calls, ws, k, n, i) {
    }
    forall r: nat ensures LastReal(calls, vs, k, n, r) <==> LastReal(calls, ws, k, n, r) {
    }
  }

  // ---------- silent calls leave no trace

  /** A call whose colour is shown already, since less than mrsleep, changes nothing: not the deadline of a grace
      time either, when it is a green one between non-greens. */
  lemma RepeatLeavesNoTrace(calls: seq<Call>, n: nat, i: nat)
    requires n < |calls| && IsLastReport(calls[..n], calls[n].key, i) && ColorSent(calls, i) == calls[n].color
    requires 0 <= calls[n].now - calls[i].now < calls[n].mrsleep
    ensures Table(calls[..n + 1]) == Table(calls[..n])
    ensures Table(calls) == Table(calls[..n] + calls[n + 1..])
  {
    hide Table, VerdictOf, IsLastReport;
    SilentExact(calls, n, i);
    SilentChangesNothing(calls, n);
    SameFrom(calls[..n + 1], calls[..n], calls[n + 1..]);
    assert calls[..n + 1] + calls[n + 1..] == calls;
  }

  lemma SilentChangesNothing(calls: seq<Call>, n: nat)
    requires n < |calls| && VerdictOf(calls, n) == Silent
    ensures Table(calls[..n + 1]) == Table(calls[..n])
  {
    TableNext(calls, n);
  }

  lemma {:induction false} SameFrom(s: seq<Call>, t: seq<Call>, more: seq<Call>)
    requires Table(s) == Table(t)
    ensures Table(s + more) == Table(t + more)
    decreases |more|
  {
    if more == [] {
      assert s + more == s && t + more == t;
    } else {
      var front := more[..|more| - 1];
      SameFrom(s, t, front);
      assert (s + more)[..|s + more| - 1] == s + front && (t + more)[..|t + more| - 1] == t + front;
    }
  }

  /** Grace time 300, report interval 300: green, red ten seconds later, green again, and red. The green call in
      between is not reported, and the alarm comes 300 seconds after the first red. */
  lemma FlapExample(k: Key)
    ensures var calls := [Call(k, "green", 90, 300, 300), Call(k, "red", 100, 300, 300),
                          Call(k, "green", 110, 300, 300), Call(k, "red", 120, 300, 300),
                          Call(k, "red", 400, 300, 300)];
            VerdictsOf(calls) == [SendReal, SendGreen, Silent, SendGreen, SendReal]
  {
    var calls := [Call(k, "green", 90, 300, 300), Call(k, "red", 100, 300, 300),
                  Call(k, "green", 110, 300, 300), Call(k, "red", 120, 300, 300),
                  Call(k, "red", 400, 300, 300)];
    TableNext(calls, 0);
    TableNext(calls, 1);
    TableNext(calls, 2);
    TableNext(calls, 3);
    assert Table(calls[..4]) == map[k := Entry("green", 120, 400)];
  }

  lemma TableNext(calls: seq<Call>, n: nat)
    requires n < |calls|
    ensures var before, c := Table(calls[..n]), calls[n];
            Table(calls[..n + 1]) == before[c.key := Decide(Get(before, c.key), c).entry]
    ensures n == 0 ==> Table(calls[..n]) == map[]
  {
    assert calls[..n + 1][..n] == calls[..n];
  }
}
