/** Late-bound calls through a dotted path (disphelper.c): each part is called on the object the part before
    it returned. On every path, references balance and no argument string stays allocated. */
module InvokePath {
  import opened CStrings
  import opened MemberText
  import opened Invoker

  // ---------- what is called

  /** The object the next call is made on: the starting one, or what the last call returned. */
  function NextOn(calls: seq<Call>, start: Id): Option<Id> {
    if calls == [] then Some(start)
    else
      match calls[|calls| - 1].got
      case Some(Variant(DispatchPtr, resource)) => resource
      case _ => None
  }

  /** The call is that of part k: its name, with its arguments as read from the list. */
  predicate CallsPart(c: Call, parts: seq<string>, values: nat -> Value, pos: nat, k: nat)
    requires k < |parts|
  {
    c.name == NameOf(parts[k]) && c.args == CallArgs(parts, values, pos, k)
  }

  /** The calls are those of the first parts, in order, each on the object the one before it returned. */
  ghost predicate IsPath(calls: seq<Call>, start: Id, parts: seq<string>, values: nat -> Value, pos: nat) {
    && |calls| <= |parts|
    && forall k | 0 <= k < |calls| ::
         CallsPart(calls[k], parts, values, pos, k) && NextOn(calls[..k], start) == Some(calls[k].on)
  }

  lemma PathNext(calls: seq<Call>, start: Id, parts: seq<string>, values: nat -> Value, pos: nat, c: Call)
    requires IsPath(calls, start, parts, values, pos) && |calls| < |parts|
    requires CallsPart(c, parts, values, pos, |calls|) && NextOn(calls, start) == Some(c.on)
    ensures IsPath(calls + [c], start, parts, values, pos)
  {
    var longer := calls + [c];
    forall k | 0 <= k < |longer|
      ensures CallsPart(longer[k], parts, values, pos, k) && NextOn(longer[..k], start) == Some(longer[k].on)
    {
      assert longer[..k] == calls[..k];
      if k == |calls| { assert calls[..k] == calls; }
    }
  }

  // ---------- one call

  lemma NameInBuffer(b: seq<char>, at: nat, name: string)
    requires HoldsIn(b, at, name)
    ensures CStr(b[at..]) == name
  {
    assert b[at..][..|name|] == b[at..at + |name| + 1][..|name|];
    CStrIs(b[at..], name);
  }

  lemma NothingHeld()
    ensures Held(Variant(Nothing, None)) == multiset{}
  {
  }

  /** Converts the result of the last call, c, to the wanted type; one that cannot be converted is given
      back. */
  method ConvertResult(w: World, done: bool, v: Variant, want: VarType, wantsResult: bool, ghost before: seq<Call>,
                       ghost c: Call)
    returns (ok: bool, result: Variant)
    requires w.log == before + [c.(got := if done then Some(v) else None)] && Held(v) <= w.owned
    requires !done || !wantsResult ==> v == Variant(Nothing, None)
    modifies w`owned, w`log
    ensures ok ==> done
    ensures w.owned == old(w.owned) - Held(v) + if ok then Held(result) else multiset{}
    ensures w.log == before + [c.(got := if ok then Some(result) else None)]
    ensures ok && wantsResult && want != Nothing ==> result.vt == want
    ensures ok && !wantsResult ==> result == v
  {
    hide Held;
    NothingHeld();
    ok, result := done, v;
    if ok && wantsResult && result.vt != want && want != Nothing {
      ok, result := w.ChangeType(result, want);
      if !ok { w.ClearResult(result); }
    }
  }

  /** Reads the arguments of one part, makes the call, clears the arguments, and converts the result. */
  method InternalInvokeV(w: World, on: Id, want: VarType, wantsResult: bool, buf: array<char>, at: nat,
                         ghost part: string, values: nat -> Value, pos: nat)
    returns (ok: bool, result: Variant, pos': nat, ghost called: seq<Call>)
    requires HoldsIn(buf[..], at, part) && on in w.owned
    modifies w, buf
    ensures Outside(old(buf[..]), buf[..], at, |part|) && w.live == old(w.live)
    ensures w.owned == old(w.owned) + if ok then Held(result) else multiset{}
    ensures w.log == old(w.log) + called
    ensures called == [] <==> !(Acceptable(Ids(part)) && w.refusals == old(w.refusals))
    ensures called == [] ==> !ok
    ensures w.refusals >= old(w.refusals)
    ensures called != [] ==> called == [PartCall(on, part, values, pos, if ok then Some(result) else None)]
    ensures ok ==> pos' == pos + Used(Ids(part))
    ensures ok && wantsResult && want != Nothing ==> result.vt == want
    ensures ok && !wantsResult ==> result.resource == None
  {
    var vtArgs := new Slot[DH_MAX_ARGS](_ => Slot(Omitted, None));
    var freeList := new bool[DH_MAX_ARGS];
    called, result := [], Variant(Nothing, None);
    var cArgs;
    ok, cArgs, pos' := CreateArgumentArray(w, buf, at, part, vtArgs, freeList, values, pos);
    if !ok { return; }
    ok, result := CallAndClear(w, on, want, wantsResult, buf, at, part, vtArgs, freeList, cArgs,
                               values, pos, pos', old(w.live));
    called := [PartCall(on, part, values, pos, if ok then Some(result) else None)];
  }

  ghost function PartCall(on: Id, part: string, values: nat -> Value, pos: nat, got: Option<Variant>): Call {
    Call(on, NameOf(part), Reversed(ArgsOf(Ids(part), values, pos)), got)
  }

  method CallAndClear(w: World, on: Id, want: VarType, wantsResult: bool, buf: array<char>, at: nat,
                      ghost part: string, vtArgs: array<Slot>, freeList: array<bool>, cArgs: int,
                      ghost values: nat -> Value, ghost pos: nat, ghost pos': nat, ghost was: multiset<Id>)
    returns (ok: bool, result: Variant)
    requires HoldsIn(buf[..], at, NameOf(part)) && on in w.owned && 0 <= cArgs <= DH_MAX_ARGS
    requires Gathered(vtArgs[..], freeList[..], DH_MAX_ARGS - cArgs, Ids(part), values, pos, pos', was, w.live)
    modifies w`live, w`owned, w`log
    ensures w.live == was
    ensures w.owned == old(w.owned) + if ok then Held(result) else multiset{}
    ensures w.log == old(w.log) + [PartCall(on, part, values, pos, if ok then Some(result) else None)]
    ensures ok && wantsResult && want != Nothing ==> result.vt == want
    ensures ok && !wantsResult ==> result.resource == None
  {
    hide ArgsOf, Used, Owners, IdsFrom, NameEnd, IndexFrom;
    NameInBuffer(buf[..], at, NameOf(part));
    assert vtArgs[..][DH_MAX_ARGS - cArgs..] == vtArgs[DH_MAX_ARGS - cArgs..];
    ok, result := w.Invoke(on, CStr(buf[at..]), Contents(vtArgs[DH_MAX_ARGS - cArgs..]), wantsResult);
    ClearFrom(w, vtArgs, freeList, DH_MAX_ARGS - cArgs, was);
    ok, result := ConvertResult(w, ok, result, want, wantsResult, old(w.log),
                                PartCall(on, part, values, pos, if ok then Some(result) else None));
  }

  // ---------- the path in its buffer

  lemma HoldsTail(b: seq<char>, b': seq<char>, at: nat, n: nat, at': nat, s: string)
    requires HoldsIn(b, at', s) && Outside(b, b', at, n) && at + n <= at'
    ensures HoldsIn(b', at', s)
  {
    assert b'[at'..at' + |s| + 1] == b[at'..at' + |s| + 1];
  }

  lemma CutHolds(b: seq<char>, at: nat, s: string, d: nat)
    requires HoldsIn(b, at, s) && d < |s|
    ensures HoldsIn(b[at + d := NUL], at, s[..d]) && HoldsIn(b[at + d := NUL], at + d + 1, s[d + 1..])
  {
    var b' := b[at + d := NUL];
    var t := b[at..at + |s| + 1];
    assert forall k | 0 <= k < |t| :: t[k] == b[at + k];
    assert forall k | 0 <= k < |s| :: s[k] == b[at + k];
    assert b'[at..at + d + 1] == s[..d] + [NUL];
    assert b'[at + d + 1..at + |s| + 1] == s[d + 1..] + [NUL];
  }

  lemma TailHolds(b: seq<char>, at: nat, s: string, d: nat)
    requires HoldsIn(b, at, s) && d <= |s|
    ensures HoldsIn(b, at + d, s[d..])
  {
    var t := b[at..at + |s| + 1];
    assert forall k | 0 <= k < |t| :: t[k] == b[at + k];
    assert b[at + d..at + |s| + 1] == s[d..] + [NUL];
  }

  /** The position of the first c in the string at `at`, or of its end. */
  method Wcschr(buf: array<char>, at: nat, c: char, ghost s: string) returns (found: bool, k: nat)
    requires HoldsIn(buf[..], at, s) && c != NUL
    ensures k == at + IndexOf(s, c) && (found <==> IndexOf(s, c) < |s|)
  {
    ghost var t := buf[..][at..at + |s| + 1];
    assert forall i | 0 <= i < |t| :: t[i] == buf[at + i];
    k := at;
    while buf[k] != NUL && buf[k] != c
      invariant at <= k <= at + |s| && c !in s[..k - at]
      decreases at + |s| - k
    {
      k := k + 1;
    }
    found := buf[k] == c;
    assert k < at + |s| ==> s[k - at] == buf[k];
    IndexOfIs(s, c, k - at);
  }

  /** What is left of the path begins at `at`: the parts from number k on. */
  ghost predicate Remaining(b: seq<char>, at: nat, rest: string, parts: seq<string>, k: nat) {
    HoldsIn(b, at, rest) && k < |parts| && Split(rest) == parts[k..]
  }

  lemma SplitNext(rest: string, parts: seq<string>, k: nat)
    requires k < |parts| && Split(rest) == parts[k..]
    ensures var d := IndexOf(rest, '.');
            if d == |rest| then k == |parts| - 1 && parts[k] == rest
            else k + 1 < |parts| && parts[k] == rest[..d] && Split(rest[d + 1..]) == parts[k + 1..]
  {
    var d := IndexOf(rest, '.');
    assert parts[k..][0] == parts[k];
    if d < |rest| {
      assert Split(rest)[1..] == Split(rest[d + 1..]);
      assert parts[k..][1..] == parts[k + 1..];
    } else {
      assert rest[..d] == rest;
    }
  }

  /** Ends the part at sep, and calls it for an object. */
  method CallObject(w: World, disp: Id, buf: array<char>, at: nat, sep: nat, ghost rest: string,
                    values: nat -> Value, pos: nat)
    returns (ok: bool, result: Variant, pos': nat, ghost called: seq<Call>)
    requires HoldsIn(buf[..], at, rest) && sep == at + IndexOf(rest, '.') < at + |rest| && disp in w.owned
    modifies w, buf
    ensures HoldsIn(buf[..], sep + 1, rest[sep + 1 - at..])
    ensures w.live == old(w.live) && w.log == old(w.log) + called && w.refusals >= old(w.refusals)
    ensures w.owned == old(w.owned) + if ok then Held(result) else multiset{}
    ensures var part := rest[..sep - at];
            && (called == [] <==> !(Acceptable(Ids(part)) && w.refusals == old(w.refusals)))
            && (called == [] ==> !ok)
            && (called != [] ==> called == [PartCall(disp, part, values, pos, if ok then Some(result) else None)])
            && (ok ==> result.vt == DispatchPtr && pos' == pos + Used(Ids(part)))
  {
    ghost var d := sep - at;
    CutHolds(buf[..], at, rest, d);
    ghost var b := buf[..];
    buf[sep] := NUL;
    assert buf[..] == b[at + d := NUL];
    b := buf[..];
    ok, result, pos', called := InternalInvokeV(w, disp, DispatchPtr, true, buf, at, rest[..d], values, pos);
    HoldsTail(b, buf[..], at, d, sep + 1, rest[d + 1..]);
  }

  /** A call of one part was made, or refused; it counts as a step when it returned an object. */
  ghost predicate Stepped(called: seq<Call>, on: Id, part: string, values: nat -> Value, pos: nat, ok: bool, next: Id,
                          pos': nat, refused: bool) {
    && (called == [] || called == [PartCall(on, part, values, pos, called[0].got)])
    && (called == [] ==> refused || !Acceptable(Ids(part)))
    && (ok <==> called != [] && NextOn(called, on).Some?)
    && (ok ==> NextOn(called, on) == Some(next) && pos' == pos + Used(Ids(part)))
  }

  /** Makes the call of one part, and exchanges the reference to its object for one to the object it returns. */
  method Step(w: World, disp: Id, buf: array<char>, at: nat, sep: nat, ghost rest: string, values: nat -> Value,
              pos: nat, ghost held: multiset<Id>)
    returns (ok: bool, disp': Id, pos': nat, ghost called: seq<Call>)
    requires HoldsIn(buf[..], at, rest) && sep == at + IndexOf(rest, '.') < at + |rest|
    requires w.owned == held + multiset{disp}
    modifies w, buf
    ensures HoldsIn(buf[..], sep + 1, rest[sep + 1 - at..])
    ensures w.live == old(w.live) && w.log == old(w.log) + called && w.refusals >= old(w.refusals)
    ensures w.owned == held + if ok then multiset{disp'} else multiset{}
    ensures Stepped(called, disp, rest[..sep - at], values, pos, ok, disp', pos', w.refusals > old(w.refusals))
  {
    hide IdsFrom, ArgsOf, Used, NameEnd, IndexFrom, Acceptable, HoldsIn, Ids, NameOf, Reversed;
    var result;
    ok, result, pos', called := CallObject(w, disp, buf, at, sep, rest, values, pos);
    if ok && result.resource == None { ok := false; }
    w.Release(disp);
    disp' := if ok then result.resource.value else disp;
  }

  // ---------- the whole path

  /** After k parts: `disp` is what the next one is to be called on. */
  ghost predicate Traversed(calls: seq<Call>, start: Id, parts: seq<string>, values: nat -> Value, pos: nat,
                            k: nat, disp: Id, pos': nat) {
    && k < |parts| && |calls| == k && IsPath(calls, start, parts, values, pos)
    && NextOn(calls, start) == Some(disp) && pos' == PosAt(parts, pos, k)
  }

  /** The path ended at a part whose arguments could not be read, or that returned no object. */
  ghost predicate Stuck(calls: seq<Call>, start: Id, parts: seq<string>, values: nat -> Value, pos: nat,
                        refused: bool) {
    && IsPath(calls, start, parts, values, pos) && |calls| < |parts|
    && (NextOn(calls, start) == None || refused || !Acceptable(Ids(parts[|calls|])))
  }

  lemma StepCalls(calls: seq<Call>, start: Id, parts: seq<string>, values: nat -> Value, pos: nat, k: nat, disp: Id,
                  pos': nat, c: Call)
    requires Traversed(calls, start, parts, values, pos, k, disp, pos')
    requires c == PartCall(disp, parts[k], values, pos', c.got)
    ensures IsPath(calls + [c], start, parts, values, pos)
    ensures NextOn(calls + [c], start) == NextOn([c], disp)
  {
    PathNext(calls, start, parts, values, pos, c);
    assert (calls + [c])[|calls + [c]| - 1] == c;
  }

  lemma StepTraverses(calls: seq<Call>, start: Id, parts: seq<string>, values: nat -> Value, pos: nat, k: nat, disp: Id,
                      pos': nat, called: seq<Call>, ok: bool, disp': Id, pos'': nat, refused: bool)
    requires Traversed(calls, start, parts, values, pos, k, disp, pos') && k + 1 < |parts|
    requires Stepped(called, disp, parts[k], values, pos', ok, disp', pos'', refused)
    ensures ok ==> Traversed(calls + called, start, parts, values, pos, k + 1, disp', pos'')
    ensures !ok ==> Stuck(calls + called, start, parts, values, pos, refused)
  {
    if called == [] {
      assert calls + called == calls;
    } else {
      StepCalls(calls, start, parts, values, pos, k, disp, pos', called[0]);
    }
  }

  /** On the way: what is left of the path is in the buffer, and the parts before it have been called. */
  ghost predicate OnTheWay(b: seq<char>, at: nat, rest: string, calls: seq<Call>, start: Id, parts: seq<string>,
                           values: nat -> Value, pos: nat, k: nat, disp: Id, pos': nat) {
    Remaining(b, at, rest, parts, k) && Traversed(calls, start, parts, values, pos, k, disp, pos')
  }

  /** The next dot of what is left has been looked for. */
  predicate Sought(at: nat, rest: string, found: bool, sep: nat) {
    sep == at + IndexOf(rest, '.') && (found <==> IndexOf(rest, '.') < |rest|)
  }

  /** Calls part k, which ends at sep. */
  method CallPart(w: World, ghost start: Id, buf: array<char>, at: nat, sep: nat, ghost rest: string,
                  ghost parts: seq<string>, ghost k: nat, disp: Id, values: nat -> Value, ghost pos: nat, pos': nat,
                  ghost calls: seq<Call>, ghost held: multiset<Id>)
    returns (ok: bool, disp': Id, pos'': nat, ghost called: seq<Call>)
    requires OnTheWay(buf[..], at, rest, calls, start, parts, values, pos, k, disp, pos')
    requires Sought(at, rest, true, sep) && w.owned == held + multiset{disp}
    modifies w, buf
    ensures w.live == old(w.live) && w.log == old(w.log) + called && w.refusals >= old(w.refusals)
    ensures w.owned == held + if ok then multiset{disp'} else multiset{}
    ensures ok ==> k + 1 < |parts| &&
                   OnTheWay(buf[..], sep + 1, rest[sep + 1 - at..], calls + called, start, parts, values, pos, k + 1,
                            disp', pos'')
    ensures !ok ==> Stuck(calls + called, start, parts, values, pos, w.refusals > old(w.refusals))
  {
    SplitNext(rest, parts, k);
    ok, disp', pos'', called := Step(w, disp, buf, at, sep, rest, values, pos', held);
    StepTraverses(calls, start, parts, values, pos, k, disp, pos', called, ok, disp', pos'',
                  w.refusals > old(w.refusals));
  }

  /** One turn of the loop along the path. */
  method Follow(w: World, ghost start: Id, buf: array<char>, at: nat, sep: nat, ghost rest: string,
                ghost parts: seq<string>, ghost k: nat, disp: Id, values: nat -> Value, ghost pos: nat, pos': nat,
                ghost calls: seq<Call>, ghost held: multiset<Id>)
    returns (ok: bool, disp': Id, pos'': nat, found: bool, sep': nat, ghost rest': string, ghost called: seq<Call>)
    requires OnTheWay(buf[..], at, rest, calls, start, parts, values, pos, k, disp, pos')
    requires Sought(at, rest, true, sep) && w.owned == held + multiset{disp}
    modifies w, buf
    ensures w.live == old(w.live) && w.log == old(w.log) + called && w.refusals >= old(w.refusals)
    ensures w.owned == held + if ok then multiset{disp'} else multiset{}
    ensures ok ==> k + 1 < |parts| && Sought(sep + 1, rest', found, sep')
    ensures ok ==> OnTheWay(buf[..], sep + 1, rest', calls + called, start, parts, values, pos, k + 1, disp', pos'')
    ensures !ok ==> Stuck(calls + called, start, parts, values, pos, w.refusals > old(w.refusals))
  {
    hide IsPath, IdsFrom, ArgsOf, Used, Acceptable, PosAt, Traversed, Stuck, Holds, NameEnd;
    ok, disp', pos'', called := CallPart(w, start, buf, at, sep, rest, parts, k, disp, values, pos, pos', calls, held);
    rest', found, sep' := rest[sep + 1 - at..], false, sep;
    if ok { found, sep' := Wcschr(buf, sep + 1, '.', rest'); }
  }

  lemma Arrived(b: seq<char>, at: nat, sep: nat, rest: string, calls: seq<Call>, start: Id,
                parts: seq<string>, values: nat -> Value, pos: nat, k: nat, disp: Id, pos': nat)
    requires OnTheWay(b, at, rest, calls, start, parts, values, pos, k, disp, pos') && Sought(at, rest, false, sep)
    ensures Reached(b, at, calls, start, parts, values, pos, disp, pos')
  {
    SplitNext(rest, parts, k);
  }

  /** All parts but the last have been called, and the last is in the buffer. */
  ghost predicate Reached(b: seq<char>, at: nat, calls: seq<Call>, start: Id, parts: seq<string>,
                          values: nat -> Value, pos: nat, disp: Id, pos': nat) {
    && Traversed(calls, start, parts, values, pos, |calls|, disp, pos') && |calls| == |parts| - 1
    && HoldsIn(b, at, parts[|calls|])
  }

  /** Follows the path up to its last part. Every reference taken on the way is given back, but that to
      the object reached. */
  method TraverseSubObjects(w: World, pDisp: Id, buf: array<char>, ghost member: string, values: nat -> Value, pos: nat)
    returns (ok: bool, disp: Id, at: nat, pos': nat, ghost calls: seq<Call>)
    requires HoldsIn(buf[..], 0, member) && pDisp in w.owned
    modifies w, buf
    ensures w.live == old(w.live) && w.log == old(w.log) + calls && w.refusals >= old(w.refusals)
    ensures w.owned == old(w.owned) + if ok then multiset{disp} else multiset{}
    ensures ok ==> Reached(buf[..], at, calls, pDisp, Parts(member), values, pos, disp, pos')
    ensures !ok ==> Stuck(calls, pDisp, Parts(member), values, pos, w.refusals > old(w.refusals))
  {
    hide *;
    ghost var parts, held, logged, was := Parts(member), w.owned, w.log, w.refusals;
    ghost var rest;
    var found, sep;
    at, found, sep, rest := Begin(w, pDisp, buf, member, values, pos);
    ok, disp, pos', calls := true, pDisp, pos, [];
    ghost var k := 0;
    while ok && found
      invariant w.live == old(w.live) && w.log == logged + calls && w.refusals >= was
      invariant w.owned == held + if ok then multiset{disp} else multiset{}
      invariant ok ==> OnTheWay(buf[..], at, rest, calls, pDisp, parts, values, pos, k, disp, pos')
      invariant ok ==> Sought(at, rest, found, sep)
      invariant !ok ==> Stuck(calls, pDisp, parts, values, pos, w.refusals > was)
      decreases ok, |parts| - k
    {
      var here := sep;
      ghost var called, before := [], w.refusals;
      ok, disp, pos', found, sep, rest, called :=
        Follow(w, pDisp, buf, at, sep, rest, parts, k, disp, values, pos, pos', calls, held);
      at, k, calls := here + 1, k + 1, calls + called;
      if !ok { StuckStays(calls, pDisp, parts, values, pos, w.refusals > before, w.refusals > was); }
    }
    if ok { Arrived(buf[..], at, sep, rest, calls, pDisp, parts, values, pos, k, disp, pos'); }
  }

  lemma StuckStays(calls: seq<Call>, start: Id, parts: seq<string>, values: nat -> Value, pos: nat,
                   refused: bool, refused': bool)
    requires Stuck(calls, start, parts, values, pos, refused) && (refused ==> refused')
    ensures Stuck(calls, start, parts, values, pos, refused')
  {
  }

  /** Skips one dot in front of the path, takes a reference to the starting object, and looks for the first
      dot. */
  method Begin(w: World, pDisp: Id, buf: array<char>, ghost member: string, ghost values: nat -> Value, ghost pos: nat)
    returns (at: nat, found: bool, sep: nat, ghost rest: string)
    requires HoldsIn(buf[..], 0, member) && pDisp in w.owned
    modifies w`owned
    ensures w.owned == old(w.owned) + multiset{pDisp}
    ensures OnTheWay(buf[..], at, rest, [], pDisp, Parts(member), values, pos, 0, pDisp, pos)
    ensures Sought(at, rest, found, sep)
  {
    assert buf[0] == buf[..][0..|member| + 1][0];
    at, rest := 0, member;
    if buf[0] == '.' {
      at, rest := 1, member[1..];
      TailHolds(buf[..], 0, member, 1);
    }
    assert Parts(member)[0..] == Parts(member);
    w.AddRef(pDisp);
    found, sep := Wcschr(buf, at, '.', rest);
  }

  /** Copies a member string into a new buffer. */
  method CopyMember(member: string) returns (ok: bool, buf: array<char>)
    requires NoNul(member)
    ensures fresh(buf) && (ok <==> |member| < DH_MAX_MEMBER)
    ensures ok ==> HoldsIn(buf[..], 0, member)
  {
    buf := new char[DH_MAX_MEMBER];
    var i := 0;
    while i < |member| && i < DH_MAX_MEMBER
      invariant i <= |member| && i <= DH_MAX_MEMBER && buf[..i] == member[..i]
    {
      buf[i] := member[i];
      i := i + 1;
    }
    if i == DH_MAX_MEMBER { return false, buf; }
    buf[i] := NUL;
    ok := true;
    assert buf[..][0..|member| + 1] == member + [NUL];
  }

  /** A call was made for every part and each succeeded: an object for all but the last, and for the last
      a result. */
  ghost predicate Completed(calls: seq<Call>, start: Id, parts: seq<string>, values: nat -> Value, pos: nat,
                            result: Variant) {
    IsPath(calls, start, parts, values, pos) && 0 < |calls| == |parts| && calls[|calls| - 1].got == Some(result)
  }

  /** Some part's arguments could not be read, or its call failed, or it returned no object where one was
      needed. */
  ghost predicate Broken(calls: seq<Call>, start: Id, parts: seq<string>, values: nat -> Value, pos: nat,
                        refused: bool) {
    || Stuck(calls, start, parts, values, pos, refused)
    || (IsPath(calls, start, parts, values, pos) && 0 < |calls| == |parts| && calls[|calls| - 1].got == None)
  }

  /** A member is invoked at the end of a path. Whatever fails, the caller's references are as before, no
      reference to an object on the way is kept, and no argument string stays allocated; a result is the
      caller's. */
  method InvokeV(w: World, want: VarType, wantsResult: bool, pDisp: Option<Id>, szMember: Option<string>,
                 values: nat -> Value, pos: nat)
    returns (ok: bool, result: Variant, ghost calls: seq<Call>)
    requires szMember.Some? ==> NoNul(szMember.value)
    requires pDisp.Some? ==> pDisp.value in w.owned
    modifies w
    ensures w.live == old(w.live) && w.log == old(w.log) + calls
    ensures w.owned == old(w.owned) + if ok then Held(result) else multiset{}
    ensures pDisp == None || szMember == None || |szMember.value| >= DH_MAX_MEMBER ==> !ok && calls == []
    ensures pDisp.Some? && szMember.Some? && |szMember.value| < DH_MAX_MEMBER ==>
              var start, parts := pDisp.value, Parts(szMember.value);
              && (ok ==> Completed(calls, start, parts, values, pos, result))
              && (!ok ==> Broken(calls, start, parts, values, pos, w.refusals > old(w.refusals)))
    ensures ok && wantsResult && want != Nothing ==> result.vt == want
    ensures ok && !wantsResult ==> result.resource == None
  {
    ok, result, calls := false, Variant(Nothing, None), [];
    if pDisp == None || szMember == None { return; }
    var buf;
    ok, buf := CopyMember(szMember.value);
    if !ok { return; }
    ok, result, calls := InvokeCopied(w, want, wantsResult, pDisp.value, buf, szMember.value, values, pos);
  }

  method InvokeCopied(w: World, want: VarType, wantsResult: bool, pDisp: Id, buf: array<char>, ghost member: string,
                      values: nat -> Value, pos: nat)
    returns (ok: bool, result: Variant, ghost calls: seq<Call>)
    requires HoldsIn(buf[..], 0, member) && pDisp in w.owned
    modifies w, buf
    ensures w.live == old(w.live) && w.log == old(w.log) + calls
    ensures w.owned == old(w.owned) + if ok then Held(result) else multiset{}
    ensures ok ==> Completed(calls, pDisp, Parts(member), values, pos, result)
    ensures !ok ==> Broken(calls, pDisp, Parts(member), values, pos, w.refusals > old(w.refusals))
    ensures ok && wantsResult && want != Nothing ==> result.vt == want
    ensures ok && !wantsResult ==> result.resource == None
  {
    hide IsPath, IdsFrom, ArgsOf, Used, Split, Acceptable, PosAt, NameEnd, Completed, Holds, NameOf;
    var disp, szTemp, pos';
    result := Variant(Nothing, None);
    ok, disp, szTemp, pos', calls := TraverseSubObjects(w, pDisp, buf, member, values, pos);
    if ok {
      ghost var called, before := [], w.refusals;
      ghost var parts, path, at := Parts(member), calls, pos';
      ok, result, pos', called := InternalInvokeV(w, disp, want, wantsResult, buf, szTemp, parts[|path|], values, pos');
      w.Release(disp);
      LastCall(path, pDisp, parts, values, pos, disp, at, called, ok, result, w.refusals > before);
      calls := path + called;
    }
  }

  lemma LastCall(path: seq<Call>, start: Id, parts: seq<string>, values: nat -> Value, pos: nat, disp: Id, pos': nat,
                 called: seq<Call>, ok: bool, result: Variant, refused: bool)
    requires Traversed(path, start, parts, values, pos, |path|, disp, pos') && |path| == |parts| - 1
    requires if called == [] then !ok && (refused || !Acceptable(Ids(parts[|path|])))
             else called == [PartCall(disp, parts[|path|], values, pos', if ok then Some(result) else None)]
    ensures ok ==> Completed(path + called, start, parts, values, pos, result)
    ensures !ok ==> Broken(path + called, start, parts, values, pos, refused)
  {
    if called == [] {
      assert path + called == path;
    } else {
      StepCalls(path, start, parts, values, pos, |path|, disp, pos', called[0]);
    }
  }
}
