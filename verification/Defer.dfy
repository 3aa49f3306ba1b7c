/** The stack of handles to close in clientlog/arena.c: eight slots, each with the function that closes its
    handle in a union of three function pointers. */
module Defer {
  import opened CStrings

  const ARENA_MAXNUM_HANDLES := 8

  /** What the closing function returns, and so through which pointer type it is called. */
  datatype Kind = RetInt | RetLong | RetVoid

  /** A handle and how it was asked to be closed. Functions and handles are known by number. */
  datatype Entry = Entry(handle: int, kind: Kind, fn: int)

  /** A slot of the stack, with the three function pointers one by one. */
  datatype Slot = Slot(handle: int, kind: Kind, asInt: int, asLong: int, asVoid: int)
  {
    /** The pointer that is called for a slot of this kind. */
    function Member(k: Kind): int {
      match k
      case RetInt => asInt
      case RetLong => asLong
      case RetVoid => asVoid
    }

    /** Assigns one pointer of the union: they share their storage, so all of them change. */
    function Assign(k: Kind, fn: int): Slot {
      this.(asInt := fn, asLong := fn, asVoid := fn)
    }

    /** Assigns one pointer if they did not share their storage. */
    function AssignApart(k: Kind, fn: int): Slot {
      match k
      case RetInt => this.(asInt := fn)
      case RetLong => this.(asLong := fn)
      case RetVoid => this.(asVoid := fn)
    }
  }

  /** clog_Defer picks the pointer to assign by the kind the slot had before. That a later pop calls the
      right function rests on the union: were the pointers apart, it would do so exactly when the kind
      stays the same, or the slot happened to hold that function already. */
  lemma RestsOnTheUnion(was: Slot, k: Kind, fn: int)
    ensures was.Assign(was.kind, fn).(kind := k).Member(k) == fn
    ensures was.AssignApart(was.kind, fn).(kind := k).Member(k) == fn <==> was.kind == k || was.Member(k) == fn
  {
  }

  class DeferStack {
    const handleStack: array<Slot>
    var numHandles: nat
    /** The handles on the stack, and everything that ever happened to handles, in order. */
    ghost var contents: seq<Entry>
    ghost var registered: seq<Entry>
    ghost var released: seq<Entry>
    ghost var ignored: seq<Entry>

    /** Every slot in use closes its handle as it was registered, and every handle ever registered is on
        the stack, has been released, or has been ignored: once. */
    ghost predicate Valid()
      reads this, handleStack
    {
      && handleStack.Length == ARENA_MAXNUM_HANDLES
      && numHandles == |contents| <= ARENA_MAXNUM_HANDLES
      && (forall i | 0 <= i < numHandles :: Holds(handleStack[i], contents[i]))
      && multiset(registered) == multiset(contents) + multiset(released) + multiset(ignored)
    }

    static predicate Holds(s: Slot, e: Entry) {
      s.handle == e.handle && s.kind == e.kind && s.Member(s.kind) == e.fn
    }

    constructor ()
      ensures Valid() && fresh(handleStack) && contents == registered == released == ignored == []
    {
      handleStack := new Slot[ARENA_MAXNUM_HANDLES](_ => Slot(0, RetInt, 0, 0, 0));
      numHandles := 0;
      contents, registered, released, ignored := [], [], [], [];
    }

    /** Registers a handle, or throws (false) when the stack is full. */
    method Defer(handle: int, kind: Kind, fn: int) returns (ok: bool)
      requires Valid()
      modifies this, handleStack
      ensures Valid() && released == old(released) && ignored == old(ignored)
      ensures ok <==> old(numHandles) < ARENA_MAXNUM_HANDLES
      ensures numHandles == old(numHandles) + (if ok then 1 else 0)
      ensures var e := [Entry(handle, kind, fn)];
              if ok then contents == old(contents) + e && registered == old(registered) + e
              else contents == old(contents) && registered == old(registered)
    {
      if numHandles >= ARENA_MAXNUM_HANDLES { return false; }
      var wrapper := handleStack[numHandles].(handle := handle);
      wrapper := wrapper.Assign(wrapper.kind, fn);
      wrapper := wrapper.(kind := kind);
      handleStack[numHandles] := wrapper;
      numHandles := numHandles + 1;
      contents := contents + [Entry(handle, kind, fn)];
      registered := registered + [Entry(handle, kind, fn)];
      ok := true;
    }

    /** Forgets the newest handle, if there is one. */
    method IgnorePopDefer()
      requires Valid()
      modifies this
      ensures Valid() && released == old(released) && registered == old(registered)
      ensures numHandles == if old(numHandles) == 0 then 0 else old(numHandles) - 1
      ensures if old(contents) == [] then contents == [] && ignored == old(ignored)
              else ignored == old(ignored) + [old(contents)[|old(contents)| - 1]]
                   && contents == old(contents)[..|old(contents)| - 1]
    {
      if numHandles > 0 {
        numHandles := numHandles - 1;
        ghost var e := contents[numHandles];
        assert contents == contents[..numHandles] + [e];
        contents, ignored := contents[..numHandles], ignored + [e];
      }
    }

    /** Closes the newest handle, with the function and kind it was registered with. */
    method PopDefer() returns (e: Entry)
      requires Valid() && numHandles > 0
      modifies this
      ensures numHandles == old(numHandles) - 1
      ensures Valid() && ignored == old(ignored) && registered == old(registered)
      ensures old(contents) == contents + [e] && released == old(released) + [e]
    {
      hide Reversed;
      numHandles := numHandles - 1;
      var wrapper := handleStack[numHandles];
      match wrapper.kind {
        case RetInt => e := Entry(wrapper.handle, RetInt, wrapper.asInt);
        case RetLong => e := Entry(wrapper.handle, RetLong, wrapper.asLong);
        case RetVoid => e := Entry(wrapper.handle, RetVoid, wrapper.asVoid);
      }
      assert Holds(wrapper, contents[numHandles]);
      assert contents == contents[..numHandles] + [e];
      contents, released := contents[..numHandles], released + [e];
    }

    /** Closes everything, newest first. */
    method PopDeferAll()
      requires Valid()
      modifies this
      ensures Valid() && numHandles == 0 && contents == [] && ignored == old(ignored) && registered == old(registered)
      ensures released == old(released) + Reversed(old(contents))
    {
      assert released == released + Reversed([]);
      while numHandles > 0
        invariant Valid() && ignored == old(ignored) && registered == old(registered)
        invariant released + Reversed(contents) == old(released) + Reversed(old(contents))
        decreases numHandles
      {
        ghost var was := contents;
        var e := PopDefer();
        ReversedAppend(contents, e);
        assert was == contents + [e];
      }
    }
  }
}
