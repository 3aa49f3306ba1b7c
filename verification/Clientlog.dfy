/** A whole run of clientlog/clientlog.c: the sections allocate, write to what they have allocated, append, call
    each other with copies of the arena and register handles, until they are done or one of them throws. */
module Clientlog {
  import opened CStrings
  import opened Alignment
  import opened Arena
  import opened Defer
  import opened Script

  // ---------- where the run stands

  /** The arena is what the first k operations of the script make of a new one whose memory held `was`. */
  ghost predicate Follows(arena: ArenaState, was: seq<char>, script: seq<Op>, k: nat)
    reads arena, arena.mem
  {
    && k <= |script| && arena.Valid()
    && SpaceAt(arena.base, |was|, script, k) == Space(arena.currentStart, arena.frames, arena.live)
    && BytesAt(arena.base, was, script, k) == arena.mem[..]
    && PiecesAt(arena.base, |was|, script, k) == arena.pieces
  }

  /** The output is what it was after the first k operations; the rest of the memory may have changed. */
  ghost predicate Kept(arena: ArenaState, was: seq<char>, script: seq<Op>, k: nat)
    reads arena, arena.mem
  {
    && k <= |script| && arena.Valid() && arena.mem.Length == |was|
    && arena.currentStart == SpaceAt(arena.base, |was|, script, k).currentStart
    && arena.pieces == PiecesAt(arena.base, |was|, script, k)
  }

  ghost predicate StackFollows(handles: DeferStack, script: seq<Op>, k: nat)
    reads handles, handles.handleStack
  {
    && k <= |script| && handles.Valid() && handles.registered == Registered(script, k)
    && Stack(handles.contents, handles.released, handles.ignored) == StackAt(script, k)
  }

  // ---------- one operation

  /** Performs an operation on memory. It throws code 1 exactly when the arena has no place for an allocation
      or a text is longer than the room. */
  method StepArena(arena: ArenaState, script: seq<Op>, k: nat, ghost was: seq<char>, ghost held: nat)
    returns (code: nat)
    requires k < |script| && Follows(arena, was, script, k)
    requires Legal(SpaceAt(arena.base, |was|, script, k), held, script[k])
    modifies arena, arena.mem
    ensures code == Throws(SpaceAt(arena.base, |was|, script, k), 0, script[k])
    ensures if code == 0 then Follows(arena, was, script, k + 1) else Kept(arena, was, script, k)
  {
    hide ArenaState.Valid, PlaceOf, IsAlignment, Filled;
    code := 0;
    match script[k] {
      case DoCall => arena.Call();
      case DoReturn => arena.Return();
      case DoAlloc(_, _, _) => code := StepAlloc(arena, script, k, was);
      case DoPoke(_, _) => StepPoke(arena, script, k, was);
      case DoAppend(_) => code := StepAppend(arena, script, k, was);
      case _ =>
    }
  }

  method StepAlloc(arena: ArenaState, script: seq<Op>, k: nat, ghost was: seq<char>) returns (code: nat)
    requires k < |script| && script[k].DoAlloc? && IsAlignment(script[k].align) && Follows(arena, was, script, k)
    modifies arena, arena.mem
    ensures code == Throws(SpaceAt(arena.base, |was|, script, k), 0, script[k])
    ensures if code == 0 then Follows(arena, was, script, k + 1) else Kept(arena, was, script, k)
  {
    var op := script[k];
    ghost var s, bytes := SpaceAt(arena.base, |was|, script, k), arena.mem[..];
    var block := arena.Allocate(op.size, op.align, op.count);
    AllocatedAsPlaced(s, op, block, arena.base, bytes, arena.mem[..]);
    code := if block == None then 1 else 0;
  }

  /** The class and the values agree on where an allocation goes. */
  lemma AllocatedAsPlaced(s: Space, op: Op, block: Option<Block>, base: nat, bytes: seq<char>, mem: seq<char>)
    requires op.DoAlloc? && IsAlignment(op.align) && s.frames != [] && s.currentStart <= Last(s.frames)
    requires Placed(if block == None then None else Some(block.value.addr), Last(s.frames), s.currentStart,
                    op.count * op.size, op.align)
    requires block.Some? ==> base <= block.value.addr &&
                             Zeroed(mem, bytes, block.value.addr - base, op.count * op.size)
    ensures PlaceFor(s, op) == if block == None then None else Some(block.value.addr)
    ensures block.Some? ==> mem == BytesAfter(bytes, base, s, op)
  {
    var n := op.count * op.size;
    PlaceOfIsPlaced(Last(s.frames), s.currentStart, n, op.align);
    PlacedOneWay(PlaceFor(s, op), if block == None then None else Some(block.value.addr), Last(s.frames),
                 s.currentStart, n, op.align);
    if block.Some? { ZeroedIsFilled(mem, bytes, block.value.addr - base, n); }
  }

  method StepPoke(arena: ArenaState, script: seq<Op>, k: nat, ghost was: seq<char>)
    requires k < |script| && script[k].DoPoke? && Follows(arena, was, script, k)
    requires Legal(SpaceAt(arena.base, |was|, script, k), 0, script[k])
    modifies arena, arena.mem
    ensures Follows(arena, was, script, k + 1)
  {
    var op := script[k];
    ghost var bytes := arena.mem[..];
    ghost var b :| b in arena.live && b.addr <= op.addr < b.addr + b.size;
    arena.Poke(op.addr, op.c, b);
    assert arena.mem[..] == Filled(bytes, op.addr - arena.base, [op.c]);
  }

  lemma StaysAhead(arena: ArenaState)
    requires arena.Valid()
    ensures arena.frames != [] && arena.base <= arena.currentStart <= Last(arena.frames)
  {
  }

  method StepAppend(arena: ArenaState, script: seq<Op>, k: nat, ghost was: seq<char>) returns (code: nat)
    requires k < |script| && script[k].DoAppend? && Follows(arena, was, script, k)
    modifies arena, arena.mem
    ensures code == Throws(SpaceAt(arena.base, |was|, script, k), 0, script[k])
    ensures if code == 0 then Follows(arena, was, script, k + 1) else Kept(arena, was, script, k)
  {
    hide Printed, Filled, Terminated, Stored, ArenaState.Valid, InPlace, StoredPiece;
    StaysAhead(arena);
    ghost var bytes, from := arena.mem[..], arena.currentStart - arena.base;
    var ok, room := arena.Append(script[k].text);
    PrintedIsFilled(arena.mem[..], bytes, from, script[k].text, room);
    code := if ok then 0 else 1;
  }

  /** Performs an operation on handles. It throws code 2 exactly when a ninth one is registered. */
  method StepHandles(handles: DeferStack, script: seq<Op>, k: nat) returns (code: nat)
    requires k < |script| && StackFollows(handles, script, k)
    requires script[k].DoPop? ==> StackAt(script, k).held != []
    modifies handles, handles.handleStack
    ensures code == if script[k].DoDefer? && |StackAt(script, k).held| >= ARENA_MAXNUM_HANDLES then 2 else 0
    ensures StackFollows(handles, script, if code == 0 then k + 1 else k)
  {
    hide Reversed, DeferStack.Valid;
    HeldAreCounted(handles);
    code := 0;
    match script[k] {
      case DoDefer(handle, kind, fn) =>
        var ok := handles.Defer(handle, kind, fn);
        code := if ok then 0 else 2;
      case DoIgnore => handles.IgnorePopDefer();
      case DoPop => var _ := handles.PopDefer();
      case DoPopAll => handles.PopDeferAll();
      case _ =>
    }
  }

  lemma HeldAreCounted(handles: DeferStack)
    requires handles.Valid()
    ensures handles.numHandles == |handles.contents|
  {
  }

  // ---------- the run

  ghost predicate Going(arena: ArenaState, handles: DeferStack, was: seq<char>, script: seq<Op>, k: nat)
    reads arena, arena.mem, handles, handles.handleStack
  {
    Follows(arena, was, script, k) && StackFollows(handles, script, k)
  }

  ghost predicate Stopped(arena: ArenaState, handles: DeferStack, was: seq<char>, script: seq<Op>, k: nat)
    reads arena, arena.mem, handles, handles.handleStack
  {
    Kept(arena, was, script, k) && StackFollows(handles, script, k)
  }

  method OneOp(arena: ArenaState, handles: DeferStack, script: seq<Op>, k: nat, ghost was: seq<char>)
    returns (code: nat)
    requires k < |script| && Going(arena, handles, was, script, k)
    requires Legal(SpaceAt(arena.base, |was|, script, k), |StackAt(script, k).held|, script[k])
    modifies arena, arena.mem, handles, handles.handleStack
    ensures code == CodeAt(arena.base, |was|, script, k)
    ensures if code == 0 then Going(arena, handles, was, script, k + 1) else Stopped(arena, handles, was, script, k)
  {
    hide ArenaState.Valid, DeferStack.Valid, PlaceFor, BytesAfter;
    code := StepArena(arena, script, k, was, |StackAt(script, k).held|);
    if code == 0 {
      code := StepHandles(handles, script, k);
    }
  }

  /** Runs the script until its end or the first operation that throws. */
  method Run(arena: ArenaState, handles: DeferStack, script: seq<Op>, ghost was: seq<char>)
    returns (code: nat, k: nat)
    requires Going(arena, handles, was, script, 0) && Sane(arena.base, |was|, script)
    modifies arena, arena.mem, handles, handles.handleStack
    ensures k == FirstThrow(arena.base, |was|, script, 0) && code == FinalCode(arena.base, |was|, script)
    ensures if code == 0 then k == |script| && Going(arena, handles, was, script, k)
            else Stopped(arena, handles, was, script, k)
  {
    hide Follows, Kept, StackFollows, Legal, CodeAt, FirstThrow, SpaceAt, StackAt;
    code, k := 0, 0;
    ghost var end := FirstThrow(arena.base, |was|, script, 0);
    while k < |script| && code == 0
      invariant k <= end
      invariant code == 0 ==> Going(arena, handles, was, script, k)
      invariant code != 0 ==>
                  k == end < |script| && code == CodeAt(arena.base, |was|, script, k) &&
                  Stopped(arena, handles, was, script, k)
      decreases |script| - k, code == 0
    {
      code := OneOp(arena, handles, script, k, was);
      if code == 0 {
        k := k + 1;
      }
    }
  }

  // ---------- the message

  /** What is sent at the end of a run that does not throw. */
  method SendOutput(arena: ArenaState, ghost was: seq<char>, ghost script: seq<Op>, ghost k: nat)
    returns (sent: Option<string>)
    requires Follows(arena, was, script, k)
    ensures sent == Message(BytesAt(arena.base, was, script, k))
  {
    sent := if NUL in arena.mem[..] then Some(CStr(arena.mem[..])) else None;
  }

  /** The end of the error report: its text overwrites the end of the output, and is terminated there. */
  method PutErrorText(arena: ArenaState, code: nat) returns (ok: bool)
    requires arena.Valid() && code < 10
    modifies arena.mem
    ensures ok <==> arena.currentStart - arena.base > |ERROR_FORMAT|
    ensures ok ==> var at := arena.currentStart - arena.base - 1 - |ERROR_FORMAT|;
                   arena.mem[..] == Overwritten(old(arena.mem[..]), at, ErrorText(code) + [NUL])
  {
    var text := ErrorText(code);
    ok := arena.currentStart - arena.base > |ERROR_FORMAT|;
    if ok {
      arena.Print(arena.currentStart - arena.base - 1 - |ERROR_FORMAT|, text, |text| + 1);
      assert text[..|text|] == text;
    }
  }

  /** Up to the NUL of the error text, memory is the output but its end, and the error text. */
  lemma ErrorInMemory(mem: seq<char>, was: seq<char>, output: string, code: nat)
    requires code < 10 && output <= was && |output| > |ERROR_FORMAT|
    requires mem == Overwritten(was, |output| - 1 - |ERROR_FORMAT|, ErrorText(code) + [NUL])
    ensures ErrorMessage(output, code) == Some(CStr(mem))
  {
    var at := |output| - 1 - |ERROR_FORMAT|;
    var front := output[..at] + ErrorText(code) + [NUL];
    assert was[..at] == output[..at];
    assert front <= mem;
    assert front[|front| - 1] == NUL;
    StopsAt(front, |front| - 1);
    SameUpToNul(front, mem);
  }

  lemma SameUpToNul(front: seq<char>, mem: seq<char>)
    requires front <= mem && |CStr(front)| < |front|
    ensures CStr(mem) == CStr(front)
  {
    CStrIs(mem, CStr(front));
  }

  method SendError(arena: ArenaState, ghost was: seq<char>, ghost script: seq<Op>, ghost k: nat, code: nat)
    returns (sent: Option<string>)
    requires code < 10 && Kept(arena, was, script, k)
    modifies arena.mem
    ensures sent == ErrorMessage(Stored(PiecesAt(arena.base, |was|, script, k)), code)
  {
    hide Overwritten, ErrorText, Stored, InPlace, IndexFrom, PiecesAt, SpaceAt;
    ghost var before, output := arena.mem[..], arena.Output();
    sent := None;
    var ok := PutErrorText(arena, code);
    if ok {
      sent := Some(CStr(arena.mem[..]));
      ErrorInMemory(arena.mem[..], before, output, code);
    }
  }

  /** What is sent, and exactly when it is what the sections appended: at the end of the script, when each text
      met more room than it needed and the output is still followed by a NUL; after a throw, with the error text
      in place of the end, when this holds of each text that ends in what is kept. */
  ghost predicate Sent(sent: Option<string>, base: nat, was: seq<char>, script: seq<Op>, k: nat, code: nat)
    requires k <= |script| && code < 10
  {
    var pieces, texts := PiecesAt(base, |was|, script, k), Texts(script, k);
    if code == 0 then
      && sent == Message(BytesAt(base, was, script, k))
      && (sent == Some(texts) <==> AllFit(pieces) && EndsInNul(base, was, script, k))
    else
      var kept := |texts| - 1 - |ERROR_FORMAT|;
      && sent == ErrorMessage(Stored(pieces), code)
      && (sent == None <==> kept < 0)
      && (kept >= 0 ==> (sent == Some(texts[..kept] + ErrorText(code)) <==> FitUpTo(pieces, kept)))
  }

  /** Every text that was appended is a C string. */
  lemma {:induction false} PiecesNoNul(base: nat, capacity: nat, script: seq<Op>, k: nat)
    requires Sane(base, capacity, script) && k <= FirstThrow(base, capacity, script, 0)
    ensures forall p | p in PiecesAt(base, capacity, script, k) :: NoNul(p.text)
  {
    hide SpaceAt, StackAt, Throws, FirstThrow;
    if k > 0 {
      PiecesNoNul(base, capacity, script, k - 1);
      assert Legal(SpaceAt(base, capacity, script, k - 1), |StackAt(script, k - 1).held|, script[k - 1]);
    }
  }

  lemma SentAtEnd(arena: ArenaState, was: seq<char>, script: seq<Op>, k: nat)
    requires Follows(arena, was, script, k) && Sane(arena.base, |was|, script)
    requires k <= FirstThrow(arena.base, |was|, script, 0)
    ensures Sent(Message(BytesAt(arena.base, was, script, k)), arena.base, was, script, k, 0)
  {
    hide SpaceAt, BytesAt, PiecesAt, Stored, Concat, Sane, CStr;
    PiecesNoNul(arena.base, |was|, script, k);
    PiecesAreTexts(arena.base, |was|, script, k);
    MessageExact(arena.mem[..], arena.currentStart - arena.base, arena.pieces);
  }

  lemma SentAfterThrow(base: nat, was: seq<char>, script: seq<Op>, k: nat, code: nat)
    requires Sane(base, |was|, script) && k <= FirstThrow(base, |was|, script, 0) && 0 < code < 10
    ensures Sent(ErrorMessage(Stored(PiecesAt(base, |was|, script, k)), code), base, was, script, k, code)
  {
    hide SpaceAt, BytesAt, PiecesAt, Stored, Concat, Sane, CStr, FitUpTo;
    PiecesNoNul(base, |was|, script, k);
    PiecesAreTexts(base, |was|, script, k);
    ErrorMessageExact(PiecesAt(base, |was|, script, k), code);
  }

  lemma Starts(arena: ArenaState, stack: DeferStack, was: seq<char>, script: seq<Op>)
    requires arena.Valid() && stack.Valid() && was == arena.mem[..]
    requires arena.frames == [arena.base + |was|] && arena.currentStart == arena.base
    requires arena.live == {} && arena.pieces == []
    requires stack.contents == stack.registered == stack.released == stack.ignored == []
    ensures Going(arena, stack, was, script, 0)
  {
  }

  /** A run of clientlog: it ends at the first operation that throws, or after the last; and each handle
      registered until then is closed once, in the order the stack gives, unless it was ignored. */
  method Clientlog(base: nat, capacity: nat, script: seq<Op>)
    returns (sent: Option<string>, code: nat, k: nat, ghost was: seq<char>, ghost handles: DeferStack)
    requires base + capacity < ADDRESSES && Sane(base, capacity, script)
    ensures k == FirstThrow(base, capacity, script, 0) && code == FinalCode(base, capacity, script) < 10
    ensures |was| == capacity && Sent(sent, base, was, script, k, code)
    ensures handles.contents == [] && handles.registered == Registered(script, k)
    ensures handles.released == StackAt(script, k).released + Reversed(StackAt(script, k).held)
    ensures handles.ignored == StackAt(script, k).ignored
    ensures multiset(handles.registered) == multiset(handles.released) + multiset(handles.ignored)
  {
    hide ArenaState.Valid, Reversed, ArenaState.Output, Sent, Sane, Stored, Message, Follows, Kept, SpaceAt, StackAt,
         BytesAt, PiecesAt, FirstThrow, FinalCode, Registered;
    var arena := new ArenaState(base, capacity);
    var stack := new DeferStack();
    was, handles := arena.mem[..], stack;
    Starts(arena, stack, was, script);
    code, k := Run(arena, stack, script, was);
    if code == 0 {
      sent := SendOutput(arena, was, script, k);
      SentAtEnd(arena, was, script, k);
    } else {
      sent := SendError(arena, was, script, k, code);
      SentAfterThrow(base, was, script, k, code);
    }
    stack.PopDeferAll();
  }

  // ---------- runs that do not send what was appended

  /** A throw before there is output enough, here by the very first allocation, leaves no message to send. */
  lemma ThrowBeforeOutput(base: nat, was: seq<char>, script: seq<Op>, sent: Option<string>)
    requires script == [DoAlloc(1, 1, |was| + 1)]
    ensures Sane(base, |was|, script) && FirstThrow(base, |was|, script, 0) == 0 && FinalCode(base, |was|, script) == 1
    ensures Sent(sent, base, was, script, 0, 1) ==> sent == None
  {
    assert Pow2(0) == 1;
    assert SpaceAt(base, |was|, script, 0) == Space(base, [base + |was|], {});
    assert Texts(script, 0) == "";
  }

  /** A block may begin right after the output. When its owner writes to it, what was appended is sent with
      what was written behind it. */
  lemma OverwrittenEnd(base: nat, was: seq<char>, script: seq<Op>)
    requires |was| == 3 && script == [DoAppend("a"), DoAlloc(2, 1, 1), DoPoke(base + 1, 'x')]
    ensures Sane(base, 3, script) && FinalCode(base, 3, script) == 0 && Texts(script, 3) == "a"
    ensures AllFit(PiecesAt(base, 3, script, 3)) && Message(BytesAt(base, was, script, 3)) == Some("ax")
  {
    hide BytesAfter, Message;
    assert Pow2(0) == 1;
    var s0, s1 := SpaceAt(base, 3, script, 0), SpaceAt(base, 3, script, 1);
    assert s0 == Space(base, [base + 3], {}) && s1 == Space(base + 1, [base + 3], {});
    assert PlaceFor(s1, script[1]) == Some(base + 1);
    var b := Block(base + 1, 2, 1, 0);
    assert SpaceAt(base, 3, script, 2) == Space(base + 1, [base + 1], {b});
    assert Texts(script, 0) == "" && Texts(script, 1) == Texts(script, 2) == "a";
    assert PiecesAt(base, 3, script, 0) == [] && PiecesAt(base, 3, script, 1) == [Piece("a", 3)];
    assert b in SpaceAt(base, 3, script, 2).live;
    assert BytesAt(base, was, script, 0) == was;
    assert BytesAt(base, was, script, 1) == BytesAfter(was, base, s0, script[0]);
    BytesOverwritten(base, was, s0, s1, SpaceAt(base, 3, script, 2));
  }

  lemma BytesOverwritten(base: nat, was: seq<char>, s0: Space, s1: Space, s2: Space)
    requires |was| == 3 && s0.currentStart == base && s0.frames == [base + 3]
    requires s1.frames == [base + 3] && PlaceFor(s1, DoAlloc(2, 1, 1)) == Some(base + 1) && s2.frames != []
    ensures var b1 := BytesAfter(was, base, s0, DoAppend("a"));
            var b2 := BytesAfter(b1, base, s1, DoAlloc(2, 1, 1));
            Message(BytesAfter(b2, base, s2, DoPoke(base + 1, 'x'))) == Some("ax")
  {
    var b1 := BytesAfter(was, base, s0, DoAppend("a"));
    var b2 := BytesAfter(b1, base, s1, DoAlloc(2, 1, 1));
    var b3 := BytesAfter(b2, base, s2, DoPoke(base + 1, 'x'));
    assert b1[0] == 'a' && b2[0] == 'a' && b2[2] == NUL;
    assert b3 == ['a', 'x', NUL];
    CStrIs(b3, "ax");
  }

  /** A text that takes all the free space there is does not throw, and is sent without its last character. */
  lemma ExactFill(base: nat, was: seq<char>, text: string, script: seq<Op>)
    requires text != "" && NoNul(text) && |was| == |text| && script == [DoAppend(text)]
    ensures Sane(base, |was|, script) && FinalCode(base, |was|, script) == 0 && Texts(script, 1) == text
    ensures Message(BytesAt(base, was, script, 1)) == Some(text[..|text| - 1])
  {
    assert SpaceAt(base, |was|, script, 0) == Space(base, [base + |was|], {});
    var bytes := BytesAt(base, was, script, 1);
    assert bytes == text[..|text| - 1] + [NUL];
    CStrIs(bytes, text[..|text| - 1]);
  }
}
