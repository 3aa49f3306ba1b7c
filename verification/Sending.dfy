/** One call of mrsend in mrbig.c from end to end: the decision, the report, and its delivery to every display. */
module Sending {
  import opened CStrings
  import opened Status
  import opened Reporter
  import opened Delivery

  /** Every display that can be set up is given a prefix of the report, in green while the grace time runs, if the
      decision is to report; and no display anything if it is to be silent. */
  method MrSend(r: Reporter, displays: seq<Display>, machine: string, test: string, color: string, message: string,
                now: int, setup: seq<bool>, start: int, rounds: seq<Delivery.Round>)
    returns (exit: Exit, k: nat, ghost v: Verdict)
    requires r.Valid() && Distinct(displays) && |setup| == |displays|
    requires NoNul(machine) && NoNul(test) && NoNul(color) && NoNul(message)
    modifies r.statuses, r.statuses.spine, r`sent, displays
    ensures r.Valid() && k <= |rounds|
    ensures var c := Call(Key(machine, test), color, now, LookupGrace(r.gracetime, test), r.mrsleep);
            var text := ReportText(machine, test, ColorShown(c, v), message, r.report_size);
            && v == VerdictIn(old(r.statuses.table), c)
            && (v == Silent ==> ShowsFresh(r.sent, c))
            && (v != Silent ==> Ends(|text|, setup, rounds, start, k, exit))
            && forall i | 0 <= i < |displays| ::
                 displays[i].wire == old(displays[i].wire) +
                   if v == Silent then "" else text[..Position(|text|, setup[i], rounds, i, k)]
  {
    hide VerdictIn, Agree, LookupGrace, ReportText, Ends, Position, ShowsFresh, Table, StatusTable.Valid, ColorShown,
      Reporter.Valid;
    v := VerdictIn(r.statuses.table, Call(Key(machine, test), color, now, LookupGrace(r.gracetime, test), r.mrsleep));
    exit, k := NotYet, 0;
    var report := r.MrSend(machine, test, color, message, now);
    if report.Some? {
      exit, k := SendUpdate(displays, report.value, true, setup, start, rounds);
    }
  }
}
