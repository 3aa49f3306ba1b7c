/** send_update of mrbig.c: one message to every display at once, over non-blocking sockets that may
    fail, accept only part of what they are offered, or never get ready. */
module Delivery {
  import opened CStrings

  /** What the surroundings do in one round of the send loop: the two readings of the clock, and for each
      display what its send call does (an error, or how many bytes the socket has room for). */
  datatype Round = Round(first: int, second: int, sends: seq<Option<nat>>)

  /** How the send loop ends. NotYet: it is still going after the rounds that were looked at. */
  datatype Exit = AllSent | TimedOut(now: int) | ClockBack(now: int) | NotYet

  const TIMEOUT := 10

  class Display {
    var s: int
    var pdata: nat
    var remaining: nat
    /** Every byte this display's socket has accepted, in order. */
    ghost var wire: string

    constructor ()
      ensures s == -1 && wire == ""
    {
      s, pdata, remaining, wire := -1, 0, 0, "";
    }
  }

  // ---------- what happens, on values

  function SendOf(r: Round, i: nat): Option<nat> {
    if i < |r.sends| then r.sends[i] else None
  }

  /** How much of an n-byte message display i has been given after k rounds, if it was set up (live). */
  function Position(n: nat, live: bool, rounds: seq<Round>, i: nat, k: nat): (pos: nat)
    requires k <= |rounds|
    ensures pos <= n
  {
    if !live || k == 0 then 0
    else
      var before := Position(n, live, rounds, i, k - 1);
      match SendOf(rounds[k - 1], i)
      case None => before
      case Some(room) => if before + room <= n then before + room else n
  }

  ghost predicate Complete(n: nat, live: seq<bool>, rounds: seq<Round>, k: nat)
    requires k <= |rounds|
  {
    forall i | 0 <= i < |live| && live[i] :: Position(n, true, rounds, i, k) == n
  }

  predicate Late(start: int, r: Round) {
    r.first > start + TIMEOUT || r.second < start
  }

  /** Round j finds bytes left to send and the clock in range. */
  ghost predicate GoesOn(n: nat, live: seq<bool>, rounds: seq<Round>, start: int, j: nat)
    requires j < |rounds|
  {
    !Complete(n, live, rounds, j) && !Late(start, rounds[j])
  }

  /** So do all of the first k rounds. */
  ghost predicate GoesOnFor(n: nat, live: seq<bool>, rounds: seq<Round>, start: int, k: nat)
    requires k <= |rounds|
  {
    forall j | 0 <= j < k :: GoesOn(n, live, rounds, start, j)
  }

  lemma GoesOnForMore(n: nat, live: seq<bool>, rounds: seq<Round>, start: int, k: nat)
    requires k < |rounds| && GoesOnFor(n, live, rounds, start, k) && GoesOn(n, live, rounds, start, k)
    ensures GoesOnFor(n, live, rounds, start, k + 1)
  {
  }

  /** The loop makes exactly k rounds and ends this way: every round it made had bytes to send and the
      clock in range, and then all was sent, or the deadline had passed, or the clock was set back. */
  ghost predicate Ends(n: nat, live: seq<bool>, rounds: seq<Round>, start: int, k: nat, exit: Exit) {
    k <= |rounds| && GoesOnFor(n, live, rounds, start, k) && EndsAt(n, live, rounds, start, k, exit)
  }

  ghost predicate EndsAt(n: nat, live: seq<bool>, rounds: seq<Round>, start: int, k: nat, exit: Exit) {
    && k <= |rounds|
    && (exit == AllSent <==> Complete(n, live, rounds, k))
    && match exit
       case AllSent => true
       case TimedOut(now) => k < |rounds| && now == rounds[k].first > start + TIMEOUT
       case ClockBack(now) => k < |rounds| && rounds[k].first <= start + TIMEOUT && now == rounds[k].second < start
       case NotYet => k == |rounds|
  }

  /** What the surroundings do decides how many rounds there are and how it ends. */
  lemma EndsOneWay(n: nat, live: seq<bool>, rounds: seq<Round>, start: int, k: nat, exit: Exit, k': nat, exit': Exit)
    requires Ends(n, live, rounds, start, k, exit) && Ends(n, live, rounds, start, k', exit')
    ensures k == k' && exit == exit'
  {
    var m := if k <= k' then k else k';
    assert k != k' ==> GoesOn(n, live, rounds, start, m);
  }

  /** Nothing is ever taken back. A display whose socket accepts a byte in every round has everything
      after n rounds, whatever the others do. */
  lemma {:induction false} Progress(n: nat, live: bool, rounds: seq<Round>, i: nat, k: nat)
    requires k <= |rounds|
    ensures k > 0 ==> Position(n, live, rounds, i, k - 1) <= Position(n, live, rounds, i, k)
    ensures live && (forall j | 0 <= j < k :: SendOf(rounds[j], i).Some? && SendOf(rounds[j], i).value > 0) ==>
              Position(n, live, rounds, i, k) >= (if k <= n then k else n)
  {
    if k > 0 {
      Progress(n, live, rounds, i, k - 1);
    }
  }

  /** How many bytes the socket of display i has room for in the first k rounds. */
  function RoomTo(rounds: seq<Round>, i: nat, k: nat): nat
    requires k <= |rounds|
  {
    if k == 0 then 0
    else RoomTo(rounds, i, k - 1) + match SendOf(rounds[k - 1], i) case None => 0 case Some(room) => room
  }

  /** A live display has been given as much as its socket had room for in all, up to the whole message, and any
      other nothing. */
  lemma {:induction false} PositionIsRoom(n: nat, live: bool, rounds: seq<Round>, i: nat, k: nat)
    requires k <= |rounds|
    ensures Position(n, live, rounds, i, k)
            == if !live then 0 else if RoomTo(rounds, i, k) < n then RoomTo(rounds, i, k) else n
  {
    if k > 0 {
      PositionIsRoom(n, live, rounds, i, k - 1);
    }
  }

  // ---------- the code

  ghost predicate Distinct(displays: seq<Display>) {
    forall i, j | 0 <= i < j < |displays| :: displays[i] != displays[j]
  }

  /** The display stands at this position in the message, and has been given exactly what is before it. */
  ghost predicate At(d: Display, p: string, live: bool, pos: nat, wire: string)
    reads d
  {
    && pos <= |p| && d.wire == wire + p[..pos]
    && (d.s != -1 <==> live)
    && (live ==> d.pdata == pos && d.remaining == |p| - pos)
  }

  /** The displays up to m have been through k + 1 rounds, the others through k. */
  ghost predicate Stand(displays: seq<Display>, p: string, live: seq<bool>, rounds: seq<Round>, k: nat, m: nat,
                        wires: seq<string>)
    requires k <= |rounds| && (m > 0 ==> k < |rounds|)
    reads displays
  {
    && |displays| == |live| == |wires|
    && forall i | 0 <= i < |displays| ::
         At(displays[i], p, live[i], Position(|p|, live[i], rounds, i, if i < m then k + 1 else k), wires[i])
  }

  ghost function Wires(displays: seq<Display>): (w: seq<string>)
    reads displays
    ensures |w| == |displays|
    ensures forall i | 0 <= i < |w| :: w[i] == displays[i].wire
  {
    seq(|displays|, i requires 0 <= i < |displays| reads displays => displays[i].wire)
  }

  /** Opens every display's socket; one that cannot be set up is left out of the send. */
  method SetUp(displays: seq<Display>, p: string, setup: seq<bool>, ghost rounds: seq<Round>)
    requires Distinct(displays) && |setup| == |displays|
    modifies displays
    ensures Stand(displays, p, setup, rounds, 0, 0, old(Wires(displays)))
  {
    ghost var wires := Wires(displays);
    for m := 0 to |displays|
      invariant forall i | 0 <= i < m :: At(displays[i], p, setup[i], 0, wires[i])
      invariant forall i | m <= i < |displays| :: displays[i].wire == wires[i]
    {
      var mp := displays[m];
      if !setup[m] {
        mp.s := -1;
      } else {
        mp.s, mp.pdata, mp.remaining := m, 0, |p|;
      }
    }
  }

  /** The bytes still to be sent to live displays. */
  method TotalRemaining(displays: seq<Display>, ghost p: string, ghost live: seq<bool>, ghost rounds: seq<Round>,
                        ghost k: nat, ghost wires: seq<string>) returns (tot: nat)
    requires k <= |rounds| && Stand(displays, p, live, rounds, k, 0, wires)
    ensures tot == 0 <==> Complete(|p|, live, rounds, k)
  {
    tot := 0;
    for m := 0 to |displays|
      invariant tot == 0 <==> forall i | 0 <= i < m && live[i] :: Position(|p|, true, rounds, i, k) == |p|
    {
      var mp := displays[m];
      assert At(mp, p, live[m], Position(|p|, live[m], rounds, m, k), wires[m]);
      if mp.s != -1 {
        if mp.remaining > 0 {
          tot := tot + mp.remaining;
        }
      }
    }
  }

  /** The send to one display. A socket that has room for more than is left takes what is left. */
  method SendOne(mp: Display, p: string, send: Option<nat>, ghost live: bool, ghost pos: nat, ghost wire: string)
    requires At(mp, p, live, pos, wire)
    modifies mp
    ensures At(mp, p, live,
               if !live || send.None? then pos else if pos + send.value <= |p| then pos + send.value else |p|, wire)
  {
    if mp.s != -1 {
      if mp.remaining > 0 {
        if send.Some? {
          var len := if send.value <= mp.remaining then send.value else mp.remaining;
          mp.wire := mp.wire + p[mp.pdata..mp.pdata + len];
          mp.pdata := mp.pdata + len;
          mp.remaining := mp.remaining - len;
          assert p[..pos] + p[pos..pos + len] == p[..pos + len];
        }
      }
    }
  }

  lemma PositionNext(n: nat, live: bool, rounds: seq<Round>, i: nat, k: nat)
    requires k < |rounds|
    ensures var before, send := Position(n, live, rounds, i, k), SendOf(rounds[k], i);
            Position(n, live, rounds, i, k + 1)
            == if !live || send.None? then before else if before + send.value <= n then before + send.value else n
  {
  }

  /** One pass over the displays: each live one with bytes left is offered all of them. */
  method SendAll(displays: seq<Display>, p: string, r: Round, ghost live: seq<bool>, ghost rounds: seq<Round>,
                 ghost k: nat, ghost wires: seq<string>)
    requires Distinct(displays) && k < |rounds| && rounds[k] == r
    requires Stand(displays, p, live, rounds, k, 0, wires)
    modifies displays
    ensures Stand(displays, p, live, rounds, k + 1, 0, wires)
  {
    hide Position;
    for m := 0 to |displays|
      invariant Stand(displays, p, live, rounds, k, m, wires)
    {
      PositionNext(|p|, live[m], rounds, m, k);
      SendOne(displays[m], p, SendOf(r, m), live[m], Position(|p|, live[m], rounds, m, k), wires[m]);
    }
  }

  function CheckClock(start: int, r: Round): (e: Exit)
    ensures e == NotYet <==> !Late(start, r)
  {
    if r.first > start + TIMEOUT then TimedOut(r.first)
    else if r.second < start then ClockBack(r.second)
    else NotYet
  }

  /** One turn of the loop: either it ends here, or it makes round k. */
  method Turn(displays: seq<Display>, p: string, ghost live: seq<bool>, start: int, rounds: seq<Round>, k: nat,
              ghost wires: seq<string>) returns (end: Option<Exit>)
    requires Distinct(displays) && k <= |rounds| && Stand(displays, p, live, rounds, k, 0, wires)
    modifies displays
    ensures match end
            case None => k < |rounds| && GoesOn(|p|, live, rounds, start, k)
                         && Stand(displays, p, live, rounds, k + 1, 0, wires)
            case Some(exit) => EndsAt(|p|, live, rounds, start, k, exit)
                               && Stand(displays, p, live, rounds, k, 0, wires)
  {
    var tot := TotalRemaining(displays, p, live, rounds, k, wires);
    if tot == 0 { return Some(AllSent); }
    if k == |rounds| { return Some(NotYet); }
    var stop := CheckClock(start, rounds[k]);
    if stop != NotYet { return Some(stop); }
    SendAll(displays, p, rounds[k], live, rounds, k, wires);
    end := None;
  }

  method SendLoop(displays: seq<Display>, p: string, ghost live: seq<bool>, start: int, rounds: seq<Round>,
                  ghost wires: seq<string>) returns (exit: Exit, k: nat)
    requires Distinct(displays) && Stand(displays, p, live, rounds, 0, 0, wires)
    modifies displays
    ensures Ends(|p|, live, rounds, start, k, exit) && Stand(displays, p, live, rounds, k, 0, wires)
  {
    k := 0;
    var end := Turn(displays, p, live, start, rounds, k, wires);
    while end.None?
      invariant k <= |rounds| && (end.None? ==> k < |rounds| && GoesOn(|p|, live, rounds, start, k))
      invariant Stand(displays, p, live, rounds, if end.None? then k + 1 else k, 0, wires)
      invariant end.Some? ==> EndsAt(|p|, live, rounds, start, k, end.value)
      invariant GoesOnFor(|p|, live, rounds, start, k)
      decreases end.None?, |rounds| - k
    {
      GoesOnForMore(|p|, live, rounds, start, k);
      k := k + 1;
      end := Turn(displays, p, live, start, rounds, k, wires);
    }
    exit := end.value;
  }

  method CloseAll(displays: seq<Display>)
    modifies displays`s
    ensures forall i | 0 <= i < |displays| :: displays[i].s == -1
  {
    for m := 0 to |displays|
      invariant forall i | 0 <= i < m :: displays[i].s == -1
    {
      if displays[m].s != -1 {
        displays[m].s := -1;
      }
    }
  }

  /** The whole delivery. Every display that could be set up has been given a prefix of the message,
      byte for byte and in order, and how long a prefix is what the sockets' behaviour says; the others
      have been given nothing. All sockets are closed at the end. */
  method SendUpdate(displays: seq<Display>, p: string, winsock: bool, setup: seq<bool>, start: int,
                    rounds: seq<Round>) returns (exit: Exit, k: nat)
    requires Distinct(displays) && |setup| == |displays|
    modifies displays
    ensures winsock ==> Ends(|p|, setup, rounds, start, k, exit)
    ensures winsock ==> forall i | 0 <= i < |displays| ::
              && displays[i].wire == old(displays[i].wire) + p[..Position(|p|, setup[i], rounds, i, k)]
              && displays[i].s == -1
    ensures !winsock ==> forall i | 0 <= i < |displays| :: displays[i].wire == old(displays[i].wire)
  {
    exit, k := NotYet, 0;
    if winsock {
      ghost var wires := Wires(displays);
      SetUp(displays, p, setup, rounds);
      exit, k := SendLoop(displays, p, setup, start, rounds, wires);
      assert forall i | 0 <= i < |displays| ::
          displays[i].wire == wires[i] + p[..Position(|p|, setup[i], rounds, i, k)];
      CloseAll(displays);
    }
  }
}
