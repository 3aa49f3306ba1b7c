/** The two-ended arena of clientlog/arena.c: output grows from the left through shared state, transient
    allocations grow from the right through an end pointer that every called function gets by value. */
module Arena {
  import opened CStrings
  import opened Alignment

  /** A live allocation: where it is, how big, how aligned, and which copy of the arena made it. */
  datatype Block = Block(addr: nat, size: nat, align: nat, depth: nat)

  /** Text that was appended, and the free space there was for it. */
  datatype Piece = Piece(text: string, room: nat)

  // ---------- the text

  /** What an append that does not throw leaves in the output: a text that takes all the free space loses
      its last character to the terminating NUL. */
  function StoredPiece(p: Piece): string {
    if |p.text| < p.room || p.text == "" then p.text else p.text[..|p.text| - 1] + [NUL]
  }

  function Stored(pieces: seq<Piece>): string {
    if pieces == [] then "" else Stored(pieces[..|pieces| - 1]) + StoredPiece(pieces[|pieces| - 1])
  }

  /** The texts one after the other. */
  function Concat(pieces: seq<Piece>): string {
    if pieces == [] then "" else Concat(pieces[..|pieces| - 1]) + pieces[|pieces| - 1].text
  }

  ghost predicate Fits(p: Piece) {
    |p.text| < p.room || p.text == ""
  }

  lemma {:induction false} StoredLength(pieces: seq<Piece>)
    ensures |Stored(pieces)| == |Concat(pieces)|
  {
    if pieces != [] {
      StoredLength(pieces[..|pieces| - 1]);
    }
  }

  /** The output is the appended texts exactly when each was shorter than the free space it met. */
  lemma {:induction false} OutputIsConcat(pieces: seq<Piece>)
    requires forall p | p in pieces :: NoNul(p.text)
    ensures Stored(pieces) == Concat(pieces) <==> forall p | p in pieces :: Fits(p)
    ensures Stored(pieces) == Concat(pieces) ==> NoNul(Stored(pieces))
  {
    if pieces != [] {
      var front, last := pieces[..|pieces| - 1], pieces[|pieces| - 1];
      assert pieces == front + [last];
      OutputIsConcat(front);
      StoredLength(front);
      var s, c := Stored(front), Concat(front);
      assert (s + StoredPiece(last))[..|s|] == s && (c + last.text)[..|c|] == c;
      assert (s + StoredPiece(last))[|s|..] == StoredPiece(last) && (c + last.text)[|c|..] == last.text;
      if !Fits(last) {
        assert last.text[|last.text| - 1] in last.text;
        assert StoredPiece(last)[|last.text| - 1] == NUL;
      }
    }
  }

  // ---------- the layout

  ghost predicate Layout(base: nat, limit: nat, currentStart: nat, frames: seq<nat>) {
    && frames != [] && base <= currentStart <= frames[|frames| - 1]
    && (forall i, j | 0 <= i < j < |frames| :: frames[j] <= frames[i])
    && frames[0] <= limit < ADDRESSES
  }

  /** Every block lies between the end of the copy that made it and the end of the memory. */
  ghost predicate InPlace(limit: nat, frames: seq<nat>, live: set<Block>) {
    forall b | b in live ::
      && b.depth < |frames| && frames[b.depth] <= b.addr && b.addr + b.size <= limit
      && IsMultiple(b.addr, b.align)
  }

  ghost predicate Apart(live: set<Block>) {
    forall b, c | b in live && c in live && b != c :: b.addr + b.size <= c.addr || c.addr + c.size <= b.addr
  }

  /** A new block below the end of the innermost copy keeps clear of all others. */
  lemma AddBlock(limit: nat, frames: seq<nat>, live: set<Block>, b: Block)
    requires frames != [] && InPlace(limit, frames, live) && Apart(live)
    requires forall i, j | 0 <= i < j < |frames| :: frames[j] <= frames[i]
    requires b.depth == |frames| - 1 && b.addr + b.size <= frames[b.depth] <= limit && IsMultiple(b.addr, b.align)
    ensures InPlace(limit, frames[..b.depth] + [b.addr], live + {b}) && Apart(live + {b})
  {
    forall c | c in live ensures b.addr + b.size <= c.addr {
      assert frames[b.depth] <= frames[c.depth];
    }
  }

  /** Dropping the innermost copy drops its blocks. */
  lemma DropFrame(limit: nat, frames: seq<nat>, live: set<Block>, left: set<Block>)
    requires |frames| > 1 && InPlace(limit, frames, live) && Apart(live)
    requires left == set b | b in live && b.depth < |frames| - 1
    ensures InPlace(limit, frames[..|frames| - 1], left) && Apart(left)
  {
  }

  /** Where a new block of n bytes goes, below `end` and not below `currentStart`: the highest aligned
      place with room for it, or nowhere when there is none. */
  ghost predicate Placed(place: Option<nat>, end: nat, currentStart: nat, n: nat, align: nat) {
    match place
    case None => forall at: nat | IsMultiple(at, align) && at >= currentStart :: at + n > end
    case Some(at) => IsMultiple(at, align) && currentStart <= at && at + n <= end < at + n + align
  }

  lemma PlacedOneWay(p: Option<nat>, q: Option<nat>, end: nat, currentStart: nat, n: nat, align: nat)
    requires Placed(p, end, currentStart, n, align) && Placed(q, end, currentStart, n, align)
    ensures p == q
  {
    if p.Some? && q.Some? {
      RoundedDownIsHighest(p.value, end - n, align, q.value);
      RoundedDownIsHighest(q.value, end - n, align, p.value);
    }
  }

  lemma NoPlace(actualEnd: nat, end: nat, currentStart: nat, n: nat, align: nat)
    requires n <= end && IsRoundedDown(actualEnd, end - n, align) && actualEnd < currentStart
    ensures Placed(None, end, currentStart, n, align)
  {
    forall at: nat | IsMultiple(at, align) && at >= currentStart ensures at + n > end {
      if at + n <= end {
        RoundedDownIsHighest(actualEnd, end - n, align, at);
      }
    }
  }

  ghost predicate Zeroed(mem: seq<char>, was: seq<char>, from: nat, n: nat) {
    && from + n <= |mem| == |was|
    && forall k | 0 <= k < |mem| :: mem[k] == if from <= k < from + n then NUL else was[k]
  }

  /** Memory after printing a text into `room` bytes from `from` on. */
  ghost predicate Printed(mem: seq<char>, was: seq<char>, from: nat, text: string, room: nat) {
    && from + room <= |mem| == |was|
    && if room == 0 then mem == was
       else
         var n := if |text| < room then |text| else room - 1;
         mem == Overwritten(was, from, text[..n] + [NUL])
  }

  /** Memory with new contents from one place on. */
  ghost function Overwritten(was: seq<char>, from: nat, text: string): seq<char>
    requires from + |text| <= |was|
  {
    was[..from] + text + was[from + |text|..]
  }

  lemma OverwriteNext(was: seq<char>, from: nat, text: string, c: char)
    requires from + |text| < |was|
    ensures Overwritten(was, from, text)[from + |text| := c] == Overwritten(was, from, text + [c])
  {
  }

  /** Printing into the free space changes nothing beyond it, where the live blocks are, and nothing
      before it; what it puts there is what the output gains, and a NUL follows unless the space is full. */
  lemma PrintedPrefix(mem: seq<char>, was: seq<char>, from: nat, text: string, room: nat)
    requires Printed(mem, was, from, text, room)
    ensures mem[from + room..] == was[from + room..] && mem[..from] == was[..from]
    ensures |text| <= room ==> mem[..from + |text|] == was[..from] + StoredPiece(Piece(text, room))
    ensures |text| < room ==> mem[from + |text|] == NUL
  {
    if 0 < |text| == room {
      assert mem[..from + room] == was[..from] + text[..room - 1] + [NUL];
    }
  }

  // ---------- the code

  class ArenaState {
    const base: nat
    const mem: array<char>
    var currentStart: nat
    /** The End of every copy of the arena in use, the innermost last. */
    var frames: seq<nat>
    ghost var live: set<Block>
    ghost var pieces: seq<Piece>

    ghost predicate Valid()
      reads this, mem
    {
      WellPlaced() && Output() == Stored(pieces)
    }

    ghost predicate WellPlaced()
      reads this
    {
      && Layout(base, base + mem.Length, currentStart, frames)
      && InPlace(base + mem.Length, frames, live) && Apart(live)
    }

    /** The bytes from Start to CurrentStart. */
    ghost function Output(): string
      requires Layout(base, base + mem.Length, currentStart, frames)
      reads this, mem
    {
      mem[..][..currentStart - base]
    }

    /** The output is followed by a NUL. */
    ghost predicate NulEnded()
      reads this, mem
    {
      base <= currentStart < base + mem.Length && mem[currentStart - base] == NUL
    }

    constructor (base: nat, capacity: nat)
      requires base + capacity < ADDRESSES
      ensures Valid() && fresh(mem) && this.base == base && mem.Length == capacity
      ensures frames == [base + capacity] && currentStart == base && live == {} && pieces == []
    {
      this.base := base;
      mem := new char[capacity];
      currentStart, frames, live, pieces := base, [base + capacity], {}, [];
    }

    /** A function is called with a copy of the arena. */
    method Call()
      requires Valid()
      modifies this`frames
      ensures Valid() && frames == old(frames) + [old(frames)[|old(frames)| - 1]]
    {
      frames := frames + [frames[|frames| - 1]];
    }

    /** The function returns, and with its copy go its allocations; what it appended stays. */
    method Return()
      requires Valid() && |frames| > 1
      modifies this`frames, this`live
      ensures Valid() && frames == old(frames)[..|old(frames)| - 1]
      ensures live == set b | b in old(live) && b.depth < |frames|
    {
      hide Stored, InPlace, Apart;
      live := set b | b in live && b.depth < |frames| - 1;
      DropFrame(base + mem.Length, frames, old(live), live);
      frames := frames[..|frames| - 1];
    }

    /** The end of the innermost copy. */
    function Top(): nat
      requires frames != []
      reads this
    {
      frames[|frames| - 1]
    }

    /** The ends of the other copies. */
    ghost function Outer(): seq<nat>
      requires frames != []
      reads this
    {
      frames[..|frames| - 1]
    }

    /** Allocates from the innermost copy, or throws (None) when there is no room. */
    method Allocate(size: nat, align: nat, count: nat) returns (block: Option<Block>)
      requires Valid() && IsAlignment(align)
      modifies this`frames, this`live, mem
      ensures Valid() && (old(NulEnded()) ==> NulEnded())
      ensures Allocated(block, old(Top()), count * size, align, old(Outer()), old(live), old(mem[..]))
    {
      block := AllocateBytes(count * size, align);
    }

    method AllocateBytes(amountToAllocate: nat, align: nat) returns (block: Option<Block>)
      requires Valid() && IsAlignment(align)
      modifies this`frames, this`live, mem
      ensures Valid() && (old(NulEnded()) ==> NulEnded())
      ensures Allocated(block, old(Top()), amountToAllocate, align, old(Outer()), old(live), old(mem[..]))
    {
      hide InPlace, Apart, Stored, IsMultiple;
      var end := frames[|frames| - 1];
      if amountToAllocate > end - currentStart { return None; }
      var naiveEnd := end - amountToAllocate;
      var actualEnd := MaskDown(naiveEnd, align);
      if actualEnd < currentStart {
        NoPlace(actualEnd, end, currentStart, amountToAllocate, align);
        return None;
      }
      var b := MoveEnd(actualEnd, amountToAllocate, align);
      ClearBlock(b);
      block := Some(b);
    }

    /** The state after an attempt to allocate n bytes: all as before if there is no place for them, else
        only the end of the innermost copy has moved, to a new zeroed block. */
    ghost predicate Allocated(block: Option<Block>, end: nat, n: nat, align: nat, outer: seq<nat>,
                              before: set<Block>, was: seq<char>)
      reads this, mem
    {
      match block
      case None =>
        && Placed(None, end, currentStart, n, align)
        && frames == outer + [end] && live == before && mem[..] == was
      case Some(b) =>
        && Placed(Some(b.addr), end, currentStart, n, align)
        && b == Block(b.addr, n, align, |outer|) && frames == outer + [b.addr] && live == before + {b}
        && b.addr >= base && Zeroed(mem[..], was, b.addr - base, n)
    }

    /** memset on a block that has just been placed. */
    method ClearBlock(b: Block)
      requires Valid() && b in live && currentStart <= b.addr
      modifies mem
      ensures Valid() && (old(NulEnded()) ==> NulEnded())
      ensures Zeroed(mem[..], old(mem[..]), b.addr - base, b.size)
    {
      Zero(b.addr - base, b.size);
      assert mem[..][..currentStart - base] == old(mem[..])[..currentStart - base];
    }

    /** Moves the end of the innermost copy down to a new block. */
    method MoveEnd(at: nat, n: nat, align: nat) returns (b: Block)
      requires Valid() && currentStart <= at && at + n <= Top() && IsMultiple(at, align)
      modifies this`frames, this`live
      ensures Valid() && b == Block(at, n, align, |old(Outer())|)
      ensures frames == old(Outer()) + [at] && live == old(live) + {b}
    {
      b := Block(at, n, align, |frames| - 1);
      AddBlock(base + mem.Length, frames, live, b);
      frames := frames[..|frames| - 1] + [at];
      live := live + {b};
    }

    method Zero(from: nat, n: nat)
      requires from + n <= mem.Length
      modifies mem
      ensures Zeroed(mem[..], old(mem[..]), from, n)
    {
      for i := 0 to n
        invariant Zeroed(mem[..], old(mem[..]), from, i)
      {
        mem[from + i] := NUL;
      }
    }

    /** Appends text to the output, or throws (false) when it is longer than the free space (room). Nothing
        at or beyond the end of the innermost copy changes, so no live allocation does. */
    method Append(text: string) returns (ok: bool, ghost room: nat)
      requires Valid()
      modifies this`currentStart, this`pieces, mem
      ensures Valid() && room == Top() - old(currentStart)
      ensures mem[..][Top() - base..] == old(mem[..])[Top() - base..]
      ensures ok <==> |text| <= room
      ensures if ok then pieces == old(pieces) + [Piece(text, room)] else pieces == old(pieces)
      ensures currentStart == old(currentStart) + (if ok then |text| else 0)
      ensures |text| < room ==> NulEnded()
      ensures Printed(mem[..], old(mem[..]), old(currentStart) - base, text, room)
    {
      hide InPlace, Apart, Printed, Overwritten, Stored, StoredPiece;
      var aStart := currentStart;
      var freeBytes := frames[|frames| - 1] - aStart;
      room := freeBytes;
      ghost var was := mem[..];
      Print(aStart - base, text, freeBytes);
      PrintedPrefix(mem[..], was, aStart - base, text, freeBytes);
      ok := |text| <= freeBytes;
      if ok {
        Advance(text, freeBytes);
      }
    }

    /** Makes what has just been printed part of the output. */
    method Advance(text: string, ghost room: nat)
      requires WellPlaced() && currentStart + |text| <= Top()
      requires mem[..][..currentStart - base + |text|] == Stored(pieces) + StoredPiece(Piece(text, room))
      modifies this`currentStart, this`pieces
      ensures Valid() && currentStart == old(currentStart) + |text| && pieces == old(pieces) + [Piece(text, room)]
    {
      currentStart := currentStart + |text|;
      pieces := pieces + [Piece(text, room)];
      assert pieces[..|pieces| - 1] == old(pieces);
    }

    /** vsnprintf into `room` bytes: as much of the text as fits before a NUL. */
    method Print(from: nat, text: string, room: nat)
      requires from + room <= mem.Length
      modifies mem
      ensures Printed(mem[..], old(mem[..]), from, text, room)
    {
      ghost var was := mem[..];
      if room > 0 {
        var n := if |text| < room then |text| else room - 1;
        for i := 0 to n
          invariant mem[..] == Overwritten(was, from, text[..i])
        {
          OverwriteNext(was, from, text[..i], text[i]);
          assert text[..i] + [text[i]] == text[..i + 1];
          mem[from + i] := text[i];
        }
        OverwriteNext(was, from, text[..n], NUL);
        mem[from + n] := NUL;
      }
    }

    /** The owner of a live block writes to it. The output does not change; but a block may begin right
        after it, and then the write decides whether the output is still followed by a NUL. */
    method Poke(addr: nat, c: char, ghost b: Block)
      requires Valid() && b in live && b.addr <= addr < b.addr + b.size
      modifies mem
      ensures Valid() && base <= addr < base + mem.Length && mem[..] == old(mem[..])[addr - base := c]
      ensures NulEnded() <==> if addr == currentStart then c == NUL else old(NulEnded())
    {
      assert frames[|frames| - 1] <= frames[b.depth];
      ghost var out := Output();
      mem[addr - base] := c;
      assert Output() == out;
    }
  }
}
