/** Late-bound calls through a dotted path of objects (disphelper.c): who holds which reference, and which
    strings are allocated, at every step and on every path of success or failure. */
module Invoker {
  import opened CStrings
  import opened MemberText

  type Id = nat

  datatype VarType = Nothing | DispatchPtr | OtherType(vt: nat)

  /** A result: its type, and the object or string it owns, if any. */
  datatype Variant = Variant(vt: VarType, resource: Option<Id>)

  function Held(v: Variant): multiset<Id> {
    match v.resource case None => multiset{} case Some(id) => multiset{id}
  }

  /** A call that was made: on which object, with what, and what it gave after conversion (None: failed). */
  datatype Call = Call(on: Id, name: string, args: seq<Arg>, got: Option<Variant>)

  function LastGot(log: seq<Call>, got: Option<Variant>): seq<Call> {
    if log == [] then [] else log[|log| - 1 := log[|log| - 1].(got := got)]
  }

  /** The COM runtime as the code sees it. Whether an allocation, conversion or call succeeds is up to it. */
  class World {
    /** References and results that somebody on this side has to give back. */
    var owned: multiset<Id>
    /** Strings allocated for arguments and not cleared yet. */
    var live: multiset<Id>
    /** How often an allocation or conversion of an argument was refused. */
    var refusals: nat
    var log: seq<Call>

    constructor ()
      ensures owned == multiset{} && live == multiset{} && refusals == 0 && log == []
    {
      owned, live, refusals, log := multiset{}, multiset{}, 0, [];
    }

    method AddRef(obj: Id)
      requires obj in owned
      modifies this`owned
      ensures owned == old(owned) + multiset{obj}
    {
      owned := owned + multiset{obj};
    }

    method Release(obj: Id)
      requires obj in owned
      modifies this`owned
      ensures owned == old(owned) - multiset{obj}
    {
      owned := owned - multiset{obj};
    }

    /** A null text needs no string. */
    method AllocString(text: Option<string>) returns (ok: bool, id: Option<Id>)
      modifies this`live, this`refusals
      ensures ok ==> live == old(live) + OwnerOf(id) && refusals == old(refusals) && (id.Some? <==> text.Some?)
      ensures !ok ==> live == old(live) && refusals == old(refusals) + 1 && id == None
      ensures id.Some? ==> id.value !in old(live)
    {
      ok, id := true, None;
      if text.Some? {
        ok := *;
        if ok {
          var at: Id := *;
          if at in live { ok := false; } else { id, live := Some(at), live + multiset{at}; }
        }
        if !ok { refusals := refusals + 1; }
      }
    }

    method ClearString(id: Id)
      requires id in live
      modifies this`live
      ensures live == old(live) - multiset{id}
    {
      live := live - multiset{id};
    }

    method ConvertDate() returns (ok: bool)
      modifies this`refusals
      ensures refusals == old(refusals) + if ok then 0 else 1
    {
      ok := *;
      if !ok { refusals := refusals + 1; }
    }

    /** Calls a member of an object somebody holds a reference to. */
    method Invoke(obj: Id, name: string, args: seq<Arg>, wantsResult: bool) returns (ok: bool, result: Variant)
      requires obj in owned
      modifies this`owned, this`log
      ensures log == old(log) + [Call(obj, name, args, if ok then Some(result) else None)]
      ensures owned == old(owned) + Held(result)
      ensures !ok || !wantsResult ==> result == Variant(Nothing, None)
    {
      ok := *;
      result := Variant(Nothing, None);
      if ok && wantsResult { result := *; }
      owned := owned + Held(result);
      log := log + [Call(obj, name, args, if ok then Some(result) else None)];
    }

    /** Converts a result in place, giving back what it owned before. */
    method ChangeType(v: Variant, want: VarType) returns (ok: bool, v': Variant)
      requires Held(v) <= owned && log != []
      modifies this`owned, this`log
      ensures log == LastGot(old(log), if ok then Some(v') else None)
      ensures owned == if ok then old(owned) - Held(v) + Held(v') else old(owned)
      ensures if ok then v'.vt == want else v' == v
    {
      ok := *;
      v' := v;
      if ok {
        var resource: Option<Id> := *;
        v' := Variant(want, resource);
        owned := owned - Held(v) + Held(v');
      }
      log := LastGot(log, if ok then Some(v') else None);
    }

    /** Gives back what a result owns. */
    method ClearResult(v: Variant)
      requires Held(v) <= owned
      modifies this`owned
      ensures owned == old(owned) - Held(v)
    {
      owned := owned - Held(v);
    }
  }

  function OwnerOf(id: Option<Id>): multiset<Id> {
    match id case None => multiset{} case Some(i) => multiset{i}
  }

  // ---------- arguments

  /** One VARIANT of the argument array: what it says, and the string allocated for it. */
  datatype Slot = Slot(content: Arg, owner: Option<Id>)

  function Contents(slots: seq<Slot>): (r: seq<Arg>)
    ensures |r| == |slots|
  {
    seq(|slots|, i requires 0 <= i < |slots| => slots[i].content)
  }

  /** The strings that the slots from i on have to clear. */
  function Owners(slots: seq<Slot>, free: seq<bool>, i: nat): multiset<Id>
    requires |slots| == |free|
    decreases |slots| - i
  {
    if i >= |slots| then multiset{}
    else (if free[i] then OwnerOf(slots[i].owner) else multiset{}) + Owners(slots, free, i + 1)
  }

  lemma {:induction false} OwnersSame(slots: seq<Slot>, free: seq<bool>, slots': seq<Slot>, free': seq<bool>, i: nat)
    requires |slots| == |free| == |slots'| == |free'|
    requires forall k | i <= k < |slots| :: slots[k] == slots'[k] && free[k] == free'[k]
    ensures Owners(slots, free, i) == Owners(slots', free', i)
    decreases |slots| - i
  {
    if i < |slots| {
      OwnersSame(slots, free, slots', free', i + 1);
    }
  }

  /** Reads one argument from the list. Only a slot whose string was allocated is marked for clearing. */
  method ExtractArgument(w: World, id: char, values: nat -> Value, pos: nat)
    returns (ok: bool, slot: Slot, free: bool, pos': nat)
    modifies w`live, w`refusals
    ensures ok <==> KnownId(id) && w.refusals == old(w.refusals)
    ensures w.refusals >= old(w.refusals)
    ensures ok ==> pos' == pos + Uses(id) && slot.content == ArgOf(id, values(pos))
    ensures w.live == old(w.live) + if ok && free then OwnerOf(slot.owner) else multiset{}
  {
    ok, free, pos' := true, false, pos + 1;
    slot := Slot(Plain(id, values(pos)), None);
    match id {
      case 'd' | 'u' | 'e' | 'b' | 'v' | 'B' | 'o' | 'O' | 'D' | 'p' =>
      case 'm' =>
        slot, pos' := Slot(Omitted, None), pos;
      case 'S' | 's' | 'T' =>
        var text, owner := TextOf(values(pos)), None;
        ok, owner := w.AllocString(text);
        slot, free := Slot(String(text), owner), true;
      case 't' | 'W' | 'f' =>
        ok := w.ConvertDate();
      case _ =>
        ok := false;
    }
  }

  /** After the identifiers in `done`, the slots from iArg on hold their arguments, the last one read in
      front, and `live` is what it was and the strings of these slots. */
  ghost predicate Gathered(slots: seq<Slot>, free: seq<bool>, iArg: int, done: seq<char>, values: nat -> Value,
                           start: nat, pos: nat, was: multiset<Id>, live: multiset<Id>) {
    && |slots| == |free| == DH_MAX_ARGS && 0 <= iArg <= DH_MAX_ARGS && |done| == DH_MAX_ARGS - iArg
    && Acceptable(done) && pos == start + Used(done)
    && Contents(slots[iArg..]) == Reversed(ArgsOf(done, values, start))
    && live == was + Owners(slots, free, iArg)
  }

  lemma GatheredNext(slots: seq<Slot>, free: seq<bool>, iArg: int, done: seq<char>, values: nat -> Value,
                     start: nat, pos: nat, was: multiset<Id>, live: multiset<Id>,
                     id: char, slot: Slot, isFree: bool, live': multiset<Id>)
    requires Gathered(slots, free, iArg, done, values, start, pos, was, live) && iArg > 0
    requires KnownId(id) && slot.content == ArgOf(id, values(pos))
    requires live' == live + if isFree then OwnerOf(slot.owner) else multiset{}
    ensures Gathered(slots[iArg - 1 := slot], free[iArg - 1 := isFree], iArg - 1, done + [id], values, start,
                     pos + Uses(id), was, live')
  {
    hide Reversed, ArgsOf, Contents, OwnerOf, KnownId;
    OneMoreArg(done, id, values, start);
    ReversedAppend(ArgsOf(done, values, start), ArgOf(id, values(pos)));
    var slots', free' := slots[iArg - 1 := slot], free[iArg - 1 := isFree];
    assert slots'[iArg - 1..] == [slot] + slots[iArg..];
    ContentsCons(slot, slots[iArg..]);
    OwnersSame(slots, free, slots', free', iArg);
  }

  lemma ContentsCons(slot: Slot, rest: seq<Slot>)
    ensures Contents([slot] + rest) == [slot.content] + Contents(rest)
  {
  }

  /** Clears the strings of the slots from `from` on. */
  method ClearFrom(w: World, args: array<Slot>, free: array<bool>, from: nat, ghost rest: multiset<Id>)
    requires args.Length == free.Length && w.live == rest + Owners(args[..], free[..], from)
    modifies w`live
    ensures w.live == rest
  {
    hide Owners, OwnerOf;
    var i := from;
    OwnersFrom(args[..], free[..], i);
    while i < args.Length
      invariant w.live == rest + Owners(args[..], free[..], i)
    {
      OwnersFrom(args[..], free[..], i);
      if free[i] { ClearSlot(w, args[i], rest, Owners(args[..], free[..], i + 1)); }
      i := i + 1;
    }
    OwnersFrom(args[..], free[..], i);
  }

  /** VariantClear on one argument. */
  method ClearSlot(w: World, slot: Slot, ghost rest: multiset<Id>, ghost after: multiset<Id>)
    requires w.live == rest + (OwnerOf(slot.owner) + after)
    modifies w`live
    ensures w.live == rest + after
  {
    if slot.owner.Some? { w.ClearString(slot.owner.value); }
  }

  /** The strings from slot i on are that of slot i and those after it. */
  lemma OwnersFrom(slots: seq<Slot>, free: seq<bool>, i: nat)
    requires |slots| == |free|
    ensures Owners(slots, free, i) ==
            if i >= |slots| then multiset{}
            else (if free[i] then OwnerOf(slots[i].owner) else multiset{}) + Owners(slots, free, i + 1)
  {
  }

  // ---------- the member string in its buffer

  /** A part of the member string, while it is being scanned up to j: what is to come is untouched, and the
      name ends with a NUL as soon as its end has been passed. */
  ghost predicate Scanning(t: seq<char>, part: string, j: nat, inArguments: bool) {
    && j <= |part| == |t| - 1 && t[j..] == part[j..] + [NUL] && NoNul(part)
    && if inArguments then var e := NameEnd(part, 0); e < j && t[..e] == part[..e] && t[e] == NUL
       else t[..j] == part[..j] && NameEnd(part, 0) == NameEnd(part, j)
  }

  ghost predicate Holds(t: seq<char>, s: string) {
    |s| < |t| && t[..|s|] == s && t[|s|] == NUL && NoNul(s)
  }

  /** The same, of the part that begins at `at` in the buffer. */
  ghost predicate ScanningIn(b: seq<char>, at: nat, part: string, j: nat, inArguments: bool) {
    at + |part| < |b| && Scanning(b[at..at + |part| + 1], part, j, inArguments)
  }

  ghost predicate HoldsIn(b: seq<char>, at: nat, s: string) {
    at + |s| < |b| && Holds(b[at..at + |s| + 1], s)
  }

  /** Only the n characters from `at` on may differ. */
  ghost predicate Outside(b: seq<char>, b': seq<char>, at: nat, n: nat) {
    |b| == |b'| && forall k | 0 <= k < |b| && !(at <= k < at + n) :: b[k] == b'[k]
  }

  lemma ScanStarts(b: seq<char>, at: nat, part: string)
    requires HoldsIn(b, at, part)
    ensures ScanningIn(b, at, part, 0, false)
  {
  }

  lemma ScanEnds(b: seq<char>, at: nat, part: string, j: nat, inArguments: bool)
    requires ScanningIn(b, at, part, j, inArguments) && b[at + j] == NUL
    ensures j == |part| && HoldsIn(b, at, NameOf(part))
  {
    var t := b[at..at + |part| + 1];
    assert t[j] == t[j..][0];
    assert forall c | c in NameOf(part) :: c in part;
    assert forall k | 0 <= k < |part| :: part[k] in part;
    if !inArguments { assert t[|part|..] == [NUL]; }
    assert b[at..at + |NameOf(part)| + 1] == t[..|NameOf(part)| + 1];
  }

  lemma ScanNext(t: seq<char>, part: string, j: nat, inArguments: bool)
    requires Scanning(t, part, j, inArguments) && t[j] != NUL
    ensures j < |part| && t[j] == part[j]
    ensures inArguments || !EndsName(t[j]) ==> Scanning(t, part, j + 1, inArguments)
    ensures !inArguments && EndsName(t[j]) ==> Scanning(t[j := NUL], part, j + 1, true)
    ensures t[j] != '%' ==> IdsFrom(part, j) == IdsFrom(part, j + 1)
  {
    assert t[j] == t[j..][0] && part[|part|..] == [];
    assert t[j + 1..] == t[j..][1..];
    assert t[j := NUL][j + 1..] == t[j + 1..] && t[j := NUL][..j] == t[..j];
    if !inArguments && !EndsName(t[j]) {
      assert t[..j + 1] == t[..j] + [t[j]] && part[..j + 1] == part[..j] + [part[j]];
    }
  }

  lemma ScanNextIn(b: seq<char>, at: nat, part: string, j: nat, inArguments: bool)
    requires ScanningIn(b, at, part, j, inArguments) && b[at + j] != NUL
    ensures j < |part| && b[at + j] == part[j]
    ensures inArguments || !EndsName(part[j]) ==> ScanningIn(b, at, part, j + 1, inArguments)
    ensures !inArguments && EndsName(part[j]) ==> ScanningIn(b[at + j := NUL], at, part, j + 1, true)
    ensures part[j] != '%' ==> IdsFrom(part, j) == IdsFrom(part, j + 1)
  {
    var t := b[at..at + |part| + 1];
    assert b[at + j] == t[j];
    ScanNext(t, part, j, inArguments);
    assert b[at + j := NUL][at..at + |part| + 1] == t[j := NUL];
  }

  lemma ScanAhead(b: seq<char>, at: nat, part: string, j: nat)
    requires ScanningIn(b, at, part, j, true)
    ensures b[at + j] == if j < |part| then part[j] else NUL
    ensures j < |part| ==> ScanningIn(b, at, part, j + 1, true)
  {
    var t := b[at..at + |part| + 1];
    assert b[at + j] == t[j] == t[j..][0];
    if j < |part| {
      assert part[j] in part;
      ScanNext(t, part, j, true);
    }
  }

  method StoreArgument(w: World, id: char, args: array<Slot>, free: array<bool>, iArg: nat, values: nat -> Value,
                       pos: nat, ghost done: seq<char>, ghost start: nat, ghost was: multiset<Id>)
    returns (ok: bool, pos': nat)
    requires Gathered(args[..], free[..], iArg + 1, done, values, start, pos, was, w.live)
    modifies w`live, w`refusals, args, free
    ensures ok <==> KnownId(id) && w.refusals == old(w.refusals)
    ensures w.refusals >= old(w.refusals)
    ensures ok ==> Gathered(args[..], free[..], iArg, done + [id], values, start, pos', was, w.live)
    ensures !ok ==> args.Length == free.Length && w.live == was + Owners(args[..], free[..], iArg + 1)
  {
    ghost var slots, isFree, live := args[..], free[..], w.live;
    var slot, f;
    ok, slot, f, pos' := ExtractArgument(w, id, values, pos);
    args[iArg], free[iArg] := slot, f;
    assert args[..] == slots[iArg := slot] && free[..] == isFree[iArg := f];
    OwnersSame(slots, isFree, args[..], free[..], iArg + 1);
    if ok {
      GatheredNext(slots, isFree, iArg + 1, done, values, start, pos, was, live, id, slot, f, w.live);
    }
  }

  /** The argument at j, where a '%' stands, and what follows it. */
  lemma NextId(part: string, j: nat, done: seq<char>)
    requires j < |part| && part[j] == '%' && Ids(part) == done + IdsFrom(part, j)
    ensures j + 1 < |part| ==> Ids(part) == done + [part[j + 1]] + IdsFrom(part, j + 2)
    ensures j + 1 == |part| || !KnownId(part[j + 1]) || |done| >= DH_MAX_ARGS ==> !Acceptable(Ids(part))
  {
    assert |Ids(part)| > |done|;
    assert Ids(part)[|done|] == if j + 1 == |part| then NUL else part[j + 1];
  }

  /** The state of the scan: j characters of the part are behind it, with the identifiers in `done`. */
  ghost predicate Creating(b: seq<char>, at: nat, part: string, j: nat, inArguments: bool,
                           slots: seq<Slot>, free: seq<bool>, iArg: int, done: seq<char>, values: nat -> Value,
                           start: nat, pos: nat, was: multiset<Id>, live: multiset<Id>) {
    && ScanningIn(b, at, part, j, inArguments) && Ids(part) == done + IdsFrom(part, j)
    && Gathered(slots, free, iArg, done, values, start, pos, was, live)
  }

  lemma CreatingStarts(b: seq<char>, at: nat, part: string, slots: seq<Slot>, free: seq<bool>, values: nat -> Value,
                       start: nat, live: multiset<Id>)
    requires HoldsIn(b, at, part) && |slots| == |free| == DH_MAX_ARGS
    ensures Creating(b, at, part, 0, false, slots, free, DH_MAX_ARGS, [], values, start, start, live, live)
  {
    ScanStarts(b, at, part);
  }

  /** The scan has met an argument it cannot take; the slots after it hold strings to be cleared. */
  ghost predicate GivenUp(part: string, slots: seq<Slot>, free: seq<bool>, iArg: int, refused: bool,
                          was: multiset<Id>, live: multiset<Id>) {
    && |slots| == |free| == DH_MAX_ARGS && -1 <= iArg < DH_MAX_ARGS
    && live == was + Owners(slots, free, iArg + 1)
    && (refused || !Acceptable(Ids(part)))
  }

  /** With all slots taken, one more argument is too many. */
  lemma TooMany(part: string, j: nat, done: seq<char>, slots: seq<Slot>, free: seq<bool>,
                values: nat -> Value, start: nat, pos: nat, was: multiset<Id>, live: multiset<Id>)
    requires j < |part| && part[j] == '%' && Ids(part) == done + IdsFrom(part, j)
    requires Gathered(slots, free, 0, done, values, start, pos, was, live)
    ensures GivenUp(part, slots, free, -1, false, was, live)
  {
    NextId(part, j, done);
  }

  /** The character after the '%' at j tells whether the argument can be taken. */
  lemma IdAhead(b: seq<char>, at: nat, part: string, j: nat, done: seq<char>)
    requires j < |part| && part[j] == '%' && Ids(part) == done + IdsFrom(part, j)
    requires ScanningIn(b, at, part, j + 1, true)
    ensures var id := b[at + j + 1];
            if KnownId(id)
            then j + 1 < |part| && ScanningIn(b, at, part, j + 2, true)
                 && Ids(part) == done + [id] + IdsFrom(part, j + 2)
            else !Acceptable(Ids(part))
  {
    NextId(part, j, done);
    ScanAhead(b, at, part, j + 1);
  }

  /** Reads the argument whose '%' is at j. */
  method Placeholder(w: World, buf: array<char>, at: nat, ghost part: string, args: array<Slot>, free: array<bool>,
                     values: nat -> Value, j: nat, iArg: int, pos: nat,
                     ghost done: seq<char>, ghost start: nat, ghost was: multiset<Id>)
    returns (ok: bool, j': nat, iArg': int, pos': nat, ghost done': seq<char>)
    requires j < |part| && part[j] == '%' && ScanningIn(buf[..], at, part, j + 1, true)
    requires Ids(part) == done + IdsFrom(part, j)
    requires Gathered(args[..], free[..], iArg, done, values, start, pos, was, w.live)
    modifies w`live, w`refusals, args, free
    ensures buf[..] == old(buf[..]) && w.refusals >= old(w.refusals)
    ensures ok ==> j < j' && w.refusals == old(w.refusals) &&
                   Creating(buf[..], at, part, j', true, args[..], free[..], iArg', done', values, start, pos',
                            was, w.live)
    ensures !ok ==> GivenUp(part, args[..], free[..], iArg', w.refusals > old(w.refusals), was, w.live)
  {
    hide ArgsOf, Used, Owners, IdsFrom, NameEnd, Reversed, Scanning;
    ghost var b := buf[..];
    ok, j', iArg', pos', done' := false, j + 1, iArg - 1, pos, done;
    if iArg' == -1 {
      TooMany(part, j, done, args[..], free[..], values, start, pos, was, w.live);
      return;
    }
    IdAhead(b, at, part, j, done);
    var id := buf[at + j'];
    ok, pos' := StoreArgument(w, id, args, free, iArg', values, pos, done, start, was);
    assert buf[..] == b;
    if ok {
      done' := done + [id];
      j' := j' + 1;
      assert Creating(b, at, part, j', true, args[..], free[..], iArg', done', values, start, pos', was, w.live);
    } else {
      assert GivenUp(part, args[..], free[..], iArg', w.refusals > old(w.refusals), was, w.live);
    }
  }

  /** Ends the name at position j. */
  method MarkEnd(buf: array<char>, at: nat, ghost part: string, j: nat)
    requires ScanningIn(buf[..], at, part, j, false) && j < |part| && EndsName(part[j])
    modifies buf
    ensures ScanningIn(buf[..], at, part, j + 1, true) && Outside(old(buf[..]), buf[..], at, |part|)
  {
    ghost var b := buf[..];
    ghost var t := b[at..at + |part| + 1];
    assert t[j] == t[j..][0];
    assert part[j] in part;
    ScanNextIn(b, at, part, j, false);
    buf[at + j] := NUL;
    assert buf[..] == b[at + j := NUL];
  }

  /** One turn of the loop over the characters of a part. */
  method ScanOne(w: World, buf: array<char>, at: nat, ghost part: string, args: array<Slot>, free: array<bool>,
                 values: nat -> Value, j: nat, inArguments: bool, iArg: int, pos: nat,
                 ghost done: seq<char>, ghost start: nat, ghost was: multiset<Id>)
    returns (ok: bool, j': nat, inArguments': bool, iArg': int, pos': nat, ghost done': seq<char>)
    requires Creating(buf[..], at, part, j, inArguments, args[..], free[..], iArg, done, values, start, pos,
                      was, w.live)
    requires j < |part|
    modifies w`live, w`refusals, buf, args, free
    ensures Outside(old(buf[..]), buf[..], at, |part|) && w.refusals >= old(w.refusals)
    ensures ok ==> j < j' && w.refusals == old(w.refusals) &&
                   Creating(buf[..], at, part, j', inArguments', args[..], free[..], iArg', done', values, start, pos',
                            was, w.live)
    ensures !ok ==> GivenUp(part, args[..], free[..], iArg', w.refusals > old(w.refusals), was, w.live)
  {
    ok, j', inArguments', iArg', pos', done' := true, j + 1, inArguments, iArg, pos, done;
    ScanNextIn(buf[..], at, part, j, inArguments);
    var c := buf[at + j];
    if !inArguments && EndsName(c) {
      inArguments' := true;
      MarkEnd(buf, at, part, j);
    }
    if c == '%' {
      ok, j', iArg', pos', done' := Placeholder(w, buf, at, part, args, free, values, j, iArg, pos, done, start, was);
    }
  }

  /** Splits the name off a part of the member string, and reads its arguments from the list. When that
      fails, no string stays allocated. */
  method CreateArgumentArray(w: World, buf: array<char>, at: nat, ghost part: string, args: array<Slot>,
                             free: array<bool>, values: nat -> Value, pos: nat)
    returns (ok: bool, cArgs: int, pos': nat)
    requires HoldsIn(buf[..], at, part) && args.Length == free.Length == DH_MAX_ARGS
    modifies w`live, w`refusals, buf, args, free
    ensures Outside(old(buf[..]), buf[..], at, |part|)
    ensures ok <==> Acceptable(Ids(part)) && w.refusals == old(w.refusals)
    ensures w.refusals >= old(w.refusals)
    ensures ok ==> HoldsIn(buf[..], at, NameOf(part)) && cArgs == |Ids(part)|
    ensures ok ==> Gathered(args[..], free[..], DH_MAX_ARGS - cArgs, Ids(part), values, pos, pos', old(w.live), w.live)
    ensures !ok ==> w.live == old(w.live)
  {
    hide HoldsIn, NameOf, Acceptable, Contents, Owners, Used, ArgsOf;
    var j, inArguments, iArg: int := 0, false, DH_MAX_ARGS;
    ghost var done, was, b := [], w.live, buf[..];
    ok, pos' := true, pos;
    CreatingStarts(b, at, part, args[..], free[..], values, pos, was);
    while ok && buf[at + j] != NUL
      invariant Outside(b, buf[..], at, |part|) && at + |part| < buf.Length
      invariant ok ==> w.refusals == old(w.refusals) && j <= |part| &&
                       Creating(buf[..], at, part, j, inArguments, args[..], free[..], iArg, done, values, pos, pos',
                                was, w.live)
      invariant !ok ==> GivenUp(part, args[..], free[..], iArg, w.refusals > old(w.refusals), was, w.live)
      invariant w.refusals >= old(w.refusals)
      decreases ok, |part| - j
    {
      ScanNextIn(buf[..], at, part, j, inArguments);
      ok, j, inArguments, iArg, pos', done :=
        ScanOne(w, buf, at, part, args, free, values, j, inArguments, iArg, pos', done, pos, was);
    }
    cArgs := DH_MAX_ARGS - iArg;
    if ok {
      ScanEnds(buf[..], at, part, j, inArguments);
      assert done + IdsFrom(part, j) == done;
    } else {
      ClearFrom(w, args, free, iArg + 1, was);
    }
  }
}
