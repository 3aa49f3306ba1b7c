/** A run of the client log on values: what each operation of the sections does to the arena, to its bytes
    and to the handle stack, and which operation is the first to throw. */
module Script {
  import opened CStrings
  import opened Alignment
  import opened Arena
  import opened Defer

  /** What a section does to the arena and the handle stack. DoPoke writes to a block it has allocated. */
  datatype Op =
    | DoCall
    | DoReturn
    | DoAlloc(size: nat, align: nat, count: nat)
    | DoPoke(addr: nat, c: char)
    | DoAppend(text: string)
    | DoDefer(handle: int, kind: Kind, fn: int)
    | DoIgnore
    | DoPop
    | DoPopAll

  /** Where output and allocations are: the end of the output, the end of every copy of the arena, and the
      live blocks. */
  datatype Space = Space(currentStart: nat, frames: seq<nat>, live: set<Block>)

  datatype Stack = Stack(held: seq<Entry>, released: seq<Entry>, ignored: seq<Entry>)

  // ---------- one operation

  /** The highest multiple of the alignment with room for n bytes below `end`, unless it is below
      `currentStart`. */
  function PlaceOf(end: nat, currentStart: nat, n: nat, align: nat): Option<nat>
    requires align > 0
  {
    if n > end || (end - n) - (end - n) % align < currentStart then None
    else Some((end - n) - (end - n) % align)
  }

  lemma PlaceOfIsPlaced(end: nat, currentStart: nat, n: nat, align: nat)
    requires align > 0 && currentStart <= end
    ensures Placed(PlaceOf(end, currentStart, n, align), end, currentStart, n, align)
  {
    if n <= end {
      var x := end - n;
      assert x - x % align == Times(x / align, align);
      assert IsRoundedDown(x - x % align, x, align);
      if x - x % align < currentStart { NoPlace(x - x % align, end, currentStart, n, align); }
    }
  }

  /** The place an allocation gets, if it gets one. */
  function PlaceFor(s: Space, op: Op): Option<nat>
    requires s.frames != [] && op.DoAlloc?
  {
    if op.align == 0 then None else PlaceOf(Last(s.frames), s.currentStart, op.count * op.size, op.align)
  }

  /** The code an operation throws, 0 if it does not: 1 when the arena has no place for an allocation or a
      text is longer than the room, 2 when the stack of handles is full. */
  function Throws(s: Space, held: nat, op: Op): nat
    requires s.frames != []
  {
    match op
    case DoAlloc(_, _, _) => if PlaceFor(s, op) == None then 1 else 0
    case DoAppend(text) => if s.currentStart + |text| > Last(s.frames) then 1 else 0
    case DoDefer(_, _, _) => if held >= ARENA_MAXNUM_HANDLES then 2 else 0
    case _ => 0
  }

  /** Code 1 is for memory and code 2 for handles: no place for an allocation, a text longer than the room, or a
      ninth handle; and nothing else throws. */
  lemma ThrowsExact(s: Space, held: nat, op: Op)
    requires s.frames != []
    ensures Throws(s, held, op) == 1
            <==> (op.DoAlloc? && PlaceFor(s, op) == None)
                 || (op.DoAppend? && |op.text| > Last(s.frames) - s.currentStart)
    ensures Throws(s, held, op) == 2 <==> op.DoDefer? && held >= ARENA_MAXNUM_HANDLES
    ensures 0 <= Throws(s, held, op) <= 2
  {
  }

  ghost function SpaceAfter(s: Space, op: Op): (t: Space)
    requires s.frames != []
    ensures t.frames != []
  {
    match op
    case DoCall => s.(frames := s.frames + [Last(s.frames)])
    case DoReturn =>
      if |s.frames| == 1 then s
      else Space(s.currentStart, Front(s.frames), set b | b in s.live && b.depth < |s.frames| - 1)
    case DoAlloc(size, align, count) =>
      (match PlaceFor(s, op)
       case None => s
       case Some(at) =>
         Space(s.currentStart, Front(s.frames) + [at], s.live + {Block(at, count * size, align, |s.frames| - 1)}))
    case DoAppend(text) => if Throws(s, 0, op) != 0 then s else s.(currentStart := s.currentStart + |text|)
    case _ => s
  }

  /** The bytes of the arena's memory, which begins at `base`. */
  function BytesAfter(bytes: seq<char>, base: nat, s: Space, op: Op): (r: seq<char>)
    requires s.frames != []
    ensures |r| == |bytes|
  {
    match op
    case DoAlloc(size, _, count) =>
      (match PlaceFor(s, op)
       case None => bytes
       case Some(at) => Filled(bytes, at - base, Blank(count * size)))
    case DoPoke(addr, c) => Filled(bytes, addr - base, [c])
    case DoAppend(text) =>
      if Throws(s, 0, op) != 0 then bytes
      else Filled(bytes, s.currentStart - base, Terminated(text, Last(s.frames) - s.currentStart))
    case _ => bytes
  }

  /** What printing a text into the room writes. */
  function Terminated(text: string, room: int): string {
    if room <= 0 then "" else Take(text, room - 1) + [NUL]
  }

  function Blank(n: nat): string {
    seq(n, _ => NUL)
  }

  /** Bytes with a text written over them from one place on. */
  function Filled(bytes: seq<char>, from: int, text: string): (r: seq<char>)
    ensures |r| == |bytes|
  {
    seq(|bytes|, i requires 0 <= i < |bytes| => if from <= i < from + |text| then text[i - from] else bytes[i])
  }

  function PiecesAfter(pieces: seq<Piece>, s: Space, op: Op): seq<Piece>
    requires s.frames != []
  {
    if op.DoAppend? && Throws(s, 0, op) == 0
    then pieces + [Piece(op.text, Last(s.frames) - s.currentStart)]
    else pieces
  }

  function StackAfter(st: Stack, op: Op): Stack {
    match op
    case DoDefer(handle, kind, fn) =>
      if |st.held| >= ARENA_MAXNUM_HANDLES then st else st.(held := st.held + [Entry(handle, kind, fn)])
    case DoIgnore =>
      if st.held == [] then st else Stack(Front(st.held), st.released, st.ignored + [Last(st.held)])
    case DoPop =>
      if st.held == [] then st else Stack(Front(st.held), st.released + [Last(st.held)], st.ignored)
    case DoPopAll => Stack([], st.released + Reversed(st.held), st.ignored)
    case _ => st
  }

  /** What the source demands: a return matches a call, nothing is popped from an empty stack, alignments are
      alignments, texts are C strings, and only live blocks are written to. */
  ghost predicate Legal(s: Space, held: nat, op: Op) {
    match op
    case DoReturn => |s.frames| > 1
    case DoAlloc(_, align, _) => IsAlignment(align)
    case DoPoke(addr, _) => exists b | b in s.live :: b.addr <= addr < b.addr + b.size
    case DoAppend(text) => NoNul(text)
    case DoPop => held > 0
    case _ => true
  }

  // ---------- the first k operations

  ghost function SpaceAt(base: nat, capacity: nat, script: seq<Op>, k: nat): (s: Space)
    requires k <= |script|
    ensures s.frames != []
  {
    if k == 0 then Space(base, [base + capacity], {})
    else SpaceAfter(SpaceAt(base, capacity, script, k - 1), script[k - 1])
  }

  ghost function BytesAt(base: nat, was: seq<char>, script: seq<Op>, k: nat): (r: seq<char>)
    requires k <= |script|
    ensures |r| == |was|
  {
    if k == 0 then was
    else BytesAfter(BytesAt(base, was, script, k - 1), base, SpaceAt(base, |was|, script, k - 1), script[k - 1])
  }

  ghost function PiecesAt(base: nat, capacity: nat, script: seq<Op>, k: nat): seq<Piece>
    requires k <= |script|
  {
    if k == 0 then []
    else PiecesAfter(PiecesAt(base, capacity, script, k - 1), SpaceAt(base, capacity, script, k - 1), script[k - 1])
  }

  function StackAt(script: seq<Op>, k: nat): Stack
    requires k <= |script|
  {
    if k == 0 then Stack([], [], []) else StackAfter(StackAt(script, k - 1), script[k - 1])
  }

  ghost function CodeAt(base: nat, capacity: nat, script: seq<Op>, i: nat): nat
    requires i < |script|
  {
    Throws(SpaceAt(base, capacity, script, i), |StackAt(script, i).held|, script[i])
  }

  /** The first operation from i on that throws, or |script|. */
  ghost function FirstThrow(base: nat, capacity: nat, script: seq<Op>, i: nat): (k: nat)
    requires i <= |script|
    ensures i <= k <= |script| && forall j | i <= j < k :: CodeAt(base, capacity, script, j) == 0
    ensures k < |script| ==> CodeAt(base, capacity, script, k) != 0
    decreases |script| - i
  {
    if i == |script| || CodeAt(base, capacity, script, i) != 0 then i
    else FirstThrow(base, capacity, script, i + 1)
  }

  /** The code the run ends with. */
  ghost function FinalCode(base: nat, capacity: nat, script: seq<Op>): (code: nat)
    ensures code <= 2
  {
    var k := FirstThrow(base, capacity, script, 0);
    if k == |script| then 0 else CodeAt(base, capacity, script, k)
  }

  /** Every operation up to the first throw is legal. What comes after it does not matter. */
  ghost predicate Sane(base: nat, capacity: nat, script: seq<Op>) {
    forall i | 0 <= i < |script| && i <= FirstThrow(base, capacity, script, 0) ::
      Legal(SpaceAt(base, capacity, script, i), |StackAt(script, i).held|, script[i])
  }

  /** The texts appended by the first k operations. */
  function Texts(script: seq<Op>, k: nat): string
    requires k <= |script|
  {
    if k == 0 then ""
    else Texts(script, k - 1) + (if script[k - 1].DoAppend? then script[k - 1].text else "")
  }

  /** The handles registered by the first k operations. */
  function Registered(script: seq<Op>, k: nat): seq<Entry>
    requires k <= |script|
  {
    if k == 0 then []
    else
      var op := script[k - 1];
      Registered(script, k - 1) + (if op.DoDefer? then [Entry(op.handle, op.kind, op.fn)] else [])
  }

  /** None of the first k operations throws. */
  ghost predicate Runs(base: nat, capacity: nat, script: seq<Op>, k: nat) {
    k <= |script| && forall i | 0 <= i < k :: CodeAt(base, capacity, script, i) == 0
  }

  // ---------- properties

  lemma {:induction false} PiecesAreTexts(base: nat, capacity: nat, script: seq<Op>, k: nat)
    requires Runs(base, capacity, script, k)
    ensures Concat(PiecesAt(base, capacity, script, k)) == Texts(script, k)
  {
    if k > 0 {
      PiecesAreTexts(base, capacity, script, k - 1);
      assert CodeAt(base, capacity, script, k - 1) == 0;
      var before, after := PiecesAt(base, capacity, script, k - 1), PiecesAt(base, capacity, script, k);
      if script[k - 1].DoAppend? { assert after[..|after| - 1] == before; }
    }
  }

  /** Every handle registered is held, has been closed, or was ignored: once. */
  lemma {:induction false} HandlesAccounted(base: nat, capacity: nat, script: seq<Op>, k: nat)
    requires Runs(base, capacity, script, k)
    ensures var st := StackAt(script, k);
            multiset(Registered(script, k)) == multiset(st.held) + multiset(st.released) + multiset(st.ignored)
  {
    hide StackAfter, SpaceAt;
    if k > 0 {
      HandlesAccounted(base, capacity, script, k - 1);
      assert CodeAt(base, capacity, script, k - 1) == 0;
      StackStep(StackAt(script, k - 1), script[k - 1]);
    }
  }

  /** All the handles a stack has ever taken. */
  function Total(st: Stack): multiset<Entry> {
    multiset(st.held) + multiset(st.released) + multiset(st.ignored)
  }

  lemma StackStep(st: Stack, op: Op)
    requires op.DoDefer? ==> |st.held| < ARENA_MAXNUM_HANDLES
    ensures Total(StackAfter(st, op))
            == Total(st) + if op.DoDefer? then multiset{Entry(op.handle, op.kind, op.fn)} else multiset{}
  {
    hide Total, Reversed, Front, Last;
    match op
    case DoDefer(handle, kind, fn) => PushStep(st, Entry(handle, kind, fn));
    case DoIgnore => if st.held != [] { PopStep(st); }
    case DoPop => if st.held != [] { PopStep(st); }
    case DoPopAll => PopAllStep(st);
    case _ =>
  }

  lemma PushStep(st: Stack, e: Entry)
    ensures Total(st.(held := st.held + [e])) == Total(st) + multiset{e}
  {
  }

  lemma PopAllStep(st: Stack)
    ensures Total(Stack([], st.released + Reversed(st.held), st.ignored)) == Total(st)
  {
    hide Reversed;
    ReversedPermutes(st.held);
  }

  lemma PopStep(st: Stack)
    requires st.held != []
    ensures Total(Stack(Front(st.held), st.released, st.ignored + [Last(st.held)])) == Total(st)
    ensures Total(Stack(Front(st.held), st.released + [Last(st.held)], st.ignored)) == Total(st)
  {
    assert st.held == Front(st.held) + [Last(st.held)];
  }

  lemma {:induction false} ReversedPermutes(s: seq<Entry>)
    ensures multiset(Reversed(s)) == multiset(s)
  {
    if s != [] {
      assert s == Front(s) + [Last(s)];
      ReversedAppend(Front(s), Last(s));
      ReversedPermutes(Front(s));
    }
  }

  lemma ZeroedIsFilled(mem: seq<char>, was: seq<char>, from: nat, n: nat)
    requires Zeroed(mem, was, from, n)
    ensures mem == Filled(was, from, Blank(n))
  {
  }

  lemma PrintedIsFilled(mem: seq<char>, was: seq<char>, from: nat, text: string, room: nat)
    requires Printed(mem, was, from, text, room)
    ensures mem == Filled(was, from, Terminated(text, room))
  {
    if room > 0 {
      var t := Terminated(text, room);
      assert Overwritten(was, from, t) == Filled(was, from, t);
    }
  }

  // ---------- the place after the output

  /** The end of the output lies before every end, and every end within the memory. */
  ghost predicate Ordered(s: Space, base: nat, capacity: nat) {
    && s.frames != [] && base <= s.currentStart <= Last(s.frames) && s.frames[0] <= base + capacity
    && forall i, j | 0 <= i < j < |s.frames| :: s.frames[j] <= s.frames[i]
  }

  lemma {:induction false} SpaceIsOrdered(base: nat, capacity: nat, script: seq<Op>, k: nat)
    requires k <= |script|
    ensures Ordered(SpaceAt(base, capacity, script, k), base, capacity)
  {
    if k > 0 {
      SpaceIsOrdered(base, capacity, script, k - 1);
      StaysOrdered(SpaceAt(base, capacity, script, k - 1), base, capacity, script[k - 1]);
    }
  }

  lemma StaysOrdered(s: Space, base: nat, capacity: nat, op: Op)
    requires Ordered(s, base, capacity)
    ensures Ordered(SpaceAfter(s, op), base, capacity)
  {
    if op.DoAlloc? && PlaceFor(s, op).Some? {
      assert s.currentStart <= PlaceFor(s, op).value <= Last(s.frames);
    }
  }

  /** What an operation writes to an address, if anything: an allocation clears its block, and an append puts its
      text and a NUL at the end of the output. */
  function WriteTo(s: Space, op: Op, addr: nat): Option<char>
    requires s.frames != []
  {
    match op
    case DoAlloc(size, _, count) =>
      (match PlaceFor(s, op)
       case Some(at) => if at <= addr < at + count * size then Some(NUL) else None
       case None => None)
    case DoPoke(at, c) => if at == addr then Some(c) else None
    case DoAppend(text) =>
      var room := Last(s.frames) - s.currentStart;
      var n := if |text| < room then |text| else room - 1;
      if |text| > room || room <= 0 then None
      else if s.currentStart <= addr < s.currentStart + n then Some(text[addr - s.currentStart])
      else if addr == s.currentStart + n then Some(NUL)
      else None
    case _ => None
  }

  /** What the first k operations wrote last to an address, or what was there to begin with. */
  ghost function LastWrite(base: nat, was: seq<char>, script: seq<Op>, addr: nat, k: nat): char
    requires k <= |script| && base <= addr < base + |was|
  {
    if k == 0 then was[addr - base]
    else
      match WriteTo(SpaceAt(base, |was|, script, k - 1), script[k - 1], addr)
      case Some(c) => c
      case None => LastWrite(base, was, script, addr, k - 1)
  }

  lemma ByteAfter(bytes: seq<char>, base: nat, s: Space, op: Op, addr: nat)
    requires s.frames != [] && base <= addr < base + |bytes|
    ensures BytesAfter(bytes, base, s, op)[addr - base] ==
            match WriteTo(s, op, addr) case Some(c) => c case None => bytes[addr - base]
  {
    hide PlaceFor, Filled, Terminated;
    match op {
      case DoAlloc(size, _, count) =>
        if PlaceFor(s, op).Some? { FilledAt(bytes, PlaceFor(s, op).value - base, Blank(count * size), addr - base); }
      case DoPoke(at, c) => FilledAt(bytes, at - base, [c], addr - base);
      case DoAppend(text) =>
        var room := Last(s.frames) - s.currentStart;
        FilledAt(bytes, s.currentStart - base, Terminated(text, room), addr - base);
        TerminatedIs(text, room);
      case _ =>
    }
  }

  lemma FilledAt(bytes: seq<char>, from: int, text: string, i: nat)
    requires i < |bytes|
    ensures Filled(bytes, from, text)[i] == if from <= i < from + |text| then text[i - from] else bytes[i]
  {
  }

  lemma TerminatedIs(text: string, room: int)
    ensures var t, n := Terminated(text, room), if |text| < room then |text| else room - 1;
            if room <= 0 then t == ""
            else |t| == n + 1 && t[n] == NUL && forall i | 0 <= i < n :: t[i] == text[i]
  {
  }

  lemma {:induction false} ByteIsLastWrite(base: nat, was: seq<char>, script: seq<Op>, addr: nat, k: nat)
    requires k <= |script| && base <= addr < base + |was|
    ensures BytesAt(base, was, script, k)[addr - base] == LastWrite(base, was, script, addr, k)
  {
    hide WriteTo, SpaceAt, BytesAfter;
    if k > 0 {
      ByteIsLastWrite(base, was, script, addr, k - 1);
      ByteAfter(BytesAt(base, was, script, k - 1), base, SpaceAt(base, |was|, script, k - 1), script[k - 1], addr);
    }
  }

  /** The place right after the output holds a NUL. */
  ghost predicate EndsInNul(base: nat, was: seq<char>, script: seq<Op>, k: nat)
    requires k <= |script|
  {
    var end := SpaceAt(base, |was|, script, k).currentStart - base;
    0 <= end < |was| && BytesAt(base, was, script, k)[end] == NUL
  }

  /** In terms of what the run does, for every run: exactly when there is a byte after the output, and the last
      write to it, by an append or by the owner of a block that begins there, put a NUL. */
  lemma EndsInNulExact(base: nat, was: seq<char>, script: seq<Op>, k: nat)
    requires k <= |script|
    ensures var end := SpaceAt(base, |was|, script, k).currentStart;
            base <= end && (EndsInNul(base, was, script, k)
                            <==> end < base + |was| && LastWrite(base, was, script, end, k) == NUL)
  {
    hide SpaceAt, BytesAt, LastWrite;
    SpaceIsOrdered(base, |was|, script, k);
    var end := SpaceAt(base, |was|, script, k).currentStart;
    if end < base + |was| { ByteIsLastWrite(base, was, script, end, k); }
  }

  // ---------- the message

  const ERROR_START := "\n(Clientlog ran into a problem, error code "
  const ERROR_FORMAT := ERROR_START + "%d)"

  /** The format with the code in place of its "%d". */
  function ErrorText(code: nat): (text: string)
    requires code < 10
    ensures |text| == |ERROR_FORMAT| - 1 && ERROR_START <= text
    ensures text[|ERROR_START|] as int == '0' as int + code
  {
    ERROR_START + ["0123456789"[code]] + ")"
  }

  /** What is sent of a memory: up to its first NUL. Without one, the source reads past the memory (None). */
  function Message(bytes: seq<char>): Option<string> {
    if NUL in bytes then Some(CStr(bytes)) else None
  }

  ghost predicate AllFit(pieces: seq<Piece>) {
    forall p | p in pieces :: Fits(p)
  }

  /** With the output in front of the memory, what is sent is the appended texts exactly when each was
      shorter than the room it met, and the output is still followed by a NUL. */
  lemma MessageExact(bytes: seq<char>, n: nat, pieces: seq<Piece>)
    requires n <= |bytes| && bytes[..n] == Stored(pieces) && forall p | p in pieces :: NoNul(p.text)
    ensures Message(bytes) == Some(Concat(pieces)) <==> AllFit(pieces) && n < |bytes| && bytes[n] == NUL
  {
    StoredLength(pieces);
    OutputIsConcat(pieces);
    var texts := Concat(pieces);
    if AllFit(pieces) && n < |bytes| && bytes[n] == NUL {
      CStrIs(bytes, texts);
    }
    if Message(bytes) == Some(texts) {
      assert CStr(bytes) == bytes[..n];
      assert n < |bytes| by { assert bytes[..|bytes|] == bytes; }
    }
  }

  /** What is sent after a throw: all the output but its last characters, and the error text. With too little
      output, the source would write the error text before the memory (None). */
  function ErrorMessage(output: string, code: nat): Option<string>
    requires code < 10
  {
    if |output| <= |ERROR_FORMAT| then None
    else Some(CStr(output[..|output| - 1 - |ERROR_FORMAT|] + ErrorText(code) + [NUL]))
  }

  lemma ErrorTextNoNul(code: nat)
    requires code < 10
    ensures NoNul(ErrorText(code))
  {
    assert NoNul(ERROR_START) && "0123456789"[code] != NUL;
  }

  /** How much text there is up to the end of piece i. */
  function EndOf(pieces: seq<Piece>, i: nat): nat
    requires i < |pieces|
  {
    |Concat(pieces[..i + 1])|
  }

  /** Every text that ends within the first n characters met more room than it needed. */
  ghost predicate FitUpTo(pieces: seq<Piece>, n: nat) {
    forall i | 0 <= i < |pieces| && EndOf(pieces, i) <= n :: Fits(pieces[i])
  }

  lemma {:induction false} StoredUpTo(pieces: seq<Piece>, n: nat)
    requires (forall p | p in pieces :: NoNul(p.text)) && n <= |Concat(pieces)|
    ensures |Stored(pieces)| == |Concat(pieces)|
    ensures NoNul(Stored(pieces)[..n]) <==> FitUpTo(pieces, n)
    ensures FitUpTo(pieces, n) ==> Stored(pieces)[..n] == Concat(pieces)[..n]
  {
    hide FitUpTo, StoredPiece;
    StoredLength(pieces);
    if pieces == [] {
      NothingToFit(n);
    } else {
      var front, last := pieces[..|pieces| - 1], pieces[|pieces| - 1];
      StoredLength(front);
      FitFront(pieces, n);
      var s := Stored(front);
      StoredUpTo(front, if n <= |s| then n else |s|);
      if n <= |s| {
        assert Stored(pieces)[..n] == s[..n] && Concat(pieces)[..n] == Concat(front)[..n];
      } else {
        CutAfter(s, StoredPiece(last), n);
        CutAfter(Concat(front), last.text, n);
        PieceUpTo(last, n - |s|);
        FitWhole(front, n);
      }
    }
  }

  lemma NothingToFit(n: nat)
    ensures FitUpTo([], n)
  {
  }

  lemma CutAfter(a: string, b: string, n: nat)
    requires |a| < n <= |a| + |b|
    ensures (a + b)[..n] == a + b[..n - |a|] && a[..|a|] == a
    ensures NoNul((a + b)[..n]) <==> NoNul(a) && NoNul(b[..n - |a|])
  {
  }

  /** Looking beyond the end is looking at everything. */
  lemma FitWhole(pieces: seq<Piece>, n: nat)
    requires n >= |Concat(pieces)|
    ensures FitUpTo(pieces, n) <==> FitUpTo(pieces, |Concat(pieces)|)
  {
    forall i | 0 <= i < |pieces| ensures EndOf(pieces, i) <= |Concat(pieces)| {
      ConcatGrows(pieces, i + 1);
    }
  }

  lemma {:induction false} ConcatGrows(pieces: seq<Piece>, i: nat)
    requires i <= |pieces|
    ensures |Concat(pieces[..i])| <= |Concat(pieces)|
    decreases |pieces|
  {
    if i < |pieces| {
      assert pieces[..|pieces| - 1][..i] == pieces[..i];
      ConcatGrows(pieces[..|pieces| - 1], i);
    } else {
      assert pieces[..i] == pieces;
    }
  }

  lemma PieceUpTo(p: Piece, m: nat)
    requires NoNul(p.text) && 0 < m <= |p.text|
    ensures NoNul(StoredPiece(p)[..m]) <==> m < |p.text| || Fits(p)
    ensures m < |p.text| || Fits(p) ==> StoredPiece(p)[..m] == p.text[..m]
  {
    if m == |p.text| && !Fits(p) {
      assert StoredPiece(p)[..m][m - 1] == NUL;
    } else {
      assert StoredPiece(p)[..m] == p.text[..m];
      assert forall c | c in p.text[..m] :: c in p.text;
    }
  }

  lemma FitFront(pieces: seq<Piece>, n: nat)
    requires pieces != [] && n <= |Concat(pieces)|
    ensures var front := pieces[..|pieces| - 1];
            && (n < |Concat(pieces)| ==> (FitUpTo(pieces, n) <==> FitUpTo(front, n)))
            && (n == |Concat(pieces)| ==> (FitUpTo(pieces, n) <==> FitUpTo(front, n) && Fits(pieces[|pieces| - 1])))
  {
    var front := pieces[..|pieces| - 1];
    forall i | 0 <= i < |front| ensures EndOf(front, i) == EndOf(pieces, i) {
      assert front[..i + 1] == pieces[..i + 1];
    }
    assert pieces[..|pieces|] == pieces;
  }

  /** After a throw, what is sent is the appended texts but their end, and the error text, exactly when every
      text that ends in what is kept was shorter than the room it met. */
  lemma ErrorMessageExact(pieces: seq<Piece>, code: nat)
    requires code < 10 && (forall p | p in pieces :: NoNul(p.text))
    ensures |Stored(pieces)| == |Concat(pieces)|
    ensures var texts := Concat(pieces);
            && (ErrorMessage(Stored(pieces), code) == None <==> |texts| <= |ERROR_FORMAT|)
            && (|texts| > |ERROR_FORMAT| ==>
                  var kept := |texts| - 1 - |ERROR_FORMAT|;
                  (ErrorMessage(Stored(pieces), code) == Some(texts[..kept] + ErrorText(code))
                   <==> FitUpTo(pieces, kept)))
  {
    hide FitUpTo, Stored, Concat, ErrorText, CStr;
    StoredLength(pieces);
    var texts := Concat(pieces);
    if |texts| > |ERROR_FORMAT| {
      var kept := |texts| - 1 - |ERROR_FORMAT|;
      StoredUpTo(pieces, kept);
      ErrorTextNoNul(code);
      ConcatNoNul(pieces);
      assert forall c | c in texts[..kept] :: c in texts;
      SentIs(Stored(pieces)[..kept], texts[..kept], ErrorText(code));
    }
  }

  lemma StopsAt(s: string, i: nat)
    requires i < |s| && s[i] == NUL
    ensures |CStr(s)| <= i
  {
  }

  lemma SentIs(out: string, text: string, error: string)
    requires NoNul(error) && |out| == |text| && (NoNul(out) ==> out == text) && NoNul(text)
    ensures CStr(out + error + [NUL]) == text + error <==> NoNul(out)
  {
    var sent := out + error + [NUL];
    if NoNul(out) {
      CStrIs(sent, out + error);
    } else {
      var i :| 0 <= i < |out| && out[i] == NUL;
      assert sent[i] == NUL && (text + error)[i] == text[i];
      StopsAt(sent, i);
    }
  }

  lemma {:induction false} ConcatNoNul(pieces: seq<Piece>)
    requires forall p | p in pieces :: NoNul(p.text)
    ensures NoNul(Concat(pieces))
  {
    if pieces != [] {
      ConcatNoNul(pieces[..|pieces| - 1]);
    }
  }
}
