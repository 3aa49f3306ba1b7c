/** Members as the callers of disphelper.c write them: what is really called for a path of names with their
    arguments in parentheses, and the query that wmi.c makes this way. */
module Query {
  import opened CStrings
  import opened MemberText
  import opened Invoker
  import opened InvokePath

  /** One step of a path: a name, and the identifiers of its arguments. */
  datatype Step = Step(name: string, ids: seq<char>)

  predicate Plain(s: Step) {
    (forall c | c in s.name :: c !in ".( =%") && forall id | id in s.ids :: KnownId(id)
  }

  function PartsOf(steps: seq<Step>): (parts: seq<string>)
    ensures |parts| == |steps|
  {
    seq(|steps|, i requires 0 <= i < |steps| => Written(steps[i].name, steps[i].ids))
  }

  /** The member string, with a dot in front. */
  function MemberOf(steps: seq<Step>): string
    requires steps != []
  {
    "." + Joined(PartsOf(steps))
  }

  lemma StepReads(s: Step)
    requires Plain(s)
    ensures var part := Written(s.name, s.ids); NameOf(part) == s.name && Ids(part) == s.ids && '.' !in part
  {
    hide NameOf, Ids, Marks;
    MarksNoDot(s.ids);
    WrittenReadsBack(s.name, s.ids);
  }

  lemma MemberReads(steps: seq<Step>)
    requires steps != [] && forall i | 0 <= i < |steps| :: Plain(steps[i])
    ensures Parts(MemberOf(steps)) == PartsOf(steps)
  {
    hide Parts, Joined, Split, Written, Plain;
    forall i | 0 <= i < |steps| ensures '.' !in PartsOf(steps)[i] {
      StepReads(steps[i]);
    }
    JoinedReads(PartsOf(steps));
  }

  /** Whatever succeeds or fails, the k-th call is that of the k-th name, with its arguments from the list: those
      marked with its identifiers, the last one first. */
  lemma CallsAreNamed(steps: seq<Step>, calls: seq<Call>, start: Id, values: nat -> Value, pos: nat, k: nat)
    requires steps != [] && forall i | 0 <= i < |steps| :: Plain(steps[i])
    requires IsPath(calls, start, Parts(MemberOf(steps)), values, pos) && k < |calls|
    ensures k < |steps| && calls[k].name == steps[k].name
    ensures calls[k].args == Reversed(ArgsOf(steps[k].ids, values, PosAt(PartsOf(steps), pos, k)))
  {
    hide Parts, Written, Plain, ArgsOf, PosAt, MemberOf, NameOf, Ids;
    MemberReads(steps);
    assert CallsPart(calls[k], PartsOf(steps), values, pos, k);
    StepReads(steps[k]);
  }

  /** With one step, at most one call is made, on the object itself; none only when an argument was refused or
      there are too many. */
  lemma OnlyCall(s: Step, calls: seq<Call>, start: Id, values: nat -> Value, pos: nat, result: Variant, refused: bool)
    requires Plain(s)
    requires Completed(calls, start, Parts(MemberOf([s])), values, pos, result)
             || Broken(calls, start, Parts(MemberOf([s])), values, pos, refused)
    ensures |calls| <= 1 && forall c | c in calls ::
              c.on == start && c.name == s.name && c.args == Reversed(ArgsOf(s.ids, values, pos))
    ensures calls == [] ==> refused || |s.ids| > DH_MAX_ARGS
  {
    hide Parts, Written, Plain, ArgsOf, MemberOf, NameOf, Ids, KnownId;
    MemberReads([s]);
    StepReads(s);
    PlainIsAcceptable(s);
    if calls != [] {
      CallsAreNamed([s], calls, start, values, pos, 0);
      assert NextOn(calls[..0], start) == Some(calls[0].on) && calls[..0] == [];
    }
  }

  lemma PlainIsAcceptable(s: Step)
    requires Plain(s)
    ensures Acceptable(s.ids) <==> |s.ids| <= DH_MAX_ARGS
  {
    assert forall i | 0 <= i < |s.ids| :: s.ids[i] in s.ids;
  }

  /** The query of wmi.c: the service is asked with one call of its ExecQuery, with the text of the query. */
  method ExecQuery(w: World, wmiSvc: Id, query: string) returns (ok: bool, colWmiTest: Variant, ghost calls: seq<Call>)
    requires wmiSvc in w.owned
    modifies w
    ensures w.live == old(w.live) && w.log == old(w.log) + calls
    ensures w.owned == old(w.owned) + if ok then Held(colWmiTest) else multiset{}
    ensures |calls| <= 1 && forall c | c in calls ::
              c.on == wmiSvc && c.name == "ExecQuery" && c.args == [String(Some(query))]
    ensures if ok then |calls| == 1 && colWmiTest.vt == DispatchPtr else calls == [] ==> w.refusals > old(w.refusals)
  {
    hide Parts, ArgsOf, IsPath, Stuck, Broken, NameOf, Ids;
    ghost var s := Step("ExecQuery", "S");
    var values: nat -> Value := _ => Text(Some(query));
    QueryMember(s, query, values);
    ok, colWmiTest, calls := InvokeV(w, DispatchPtr, true, Some(wmiSvc), Some(".ExecQuery(%S)"), values, 0);
    OnlyCall(s, calls, wmiSvc, values, 0, colWmiTest, w.refusals > old(w.refusals));
  }

  lemma QueryMember(s: Step, query: string, values: nat -> Value)
    requires s == Step("ExecQuery", "S") && values(0) == Text(Some(query))
    ensures MemberOf([s]) == ".ExecQuery(%S)" && Plain(s)
    ensures Reversed(ArgsOf(s.ids, values, 0)) == [String(Some(query))]
  {
    hide Written, ArgsOf, Plain;
    QueryIsPlain(s);
    QueryText();
    QueryArgument(query, values);
    assert PartsOf([s]) == [Written("ExecQuery", "S")];
  }

  lemma QueryIsPlain(s: Step)
    requires s == Step("ExecQuery", "S")
    ensures Plain(s)
  {
    hide KnownId;
    forall c | c in s.name ensures c !in ".( =%" {
      var i :| 0 <= i < |s.name| && s.name[i] == c;
      QueryLetter(i);
      LettersArePlain(c);
    }
    QueryId();
  }

  lemma QueryLetter(i: nat)
    requires i < |"ExecQuery"|
    ensures 'A' <= "ExecQuery"[i]
  {
  }

  lemma LettersArePlain(c: char)
    requires 'A' <= c
    ensures c !in ".( =%"
  {
  }

  lemma QueryId()
    ensures forall id | id in "S" :: KnownId(id)
  {
    assert "S"[0] == 'S' && KnownId('S');
  }

  lemma QueryText()
    ensures Written("ExecQuery", "S") == "ExecQuery(%S)"
  {
    assert "S"[1..] == "" && Marks("") == "";
    assert Marks("S") == "%" + ['S'] + "" == "%S";
    assert "ExecQuery" + "(" + "%S" + ")" == "ExecQuery(%S)";
  }

  lemma QueryArgument(query: string, values: nat -> Value)
    requires values(0) == Text(Some(query))
    ensures Reversed(ArgsOf("S", values, 0)) == [String(Some(query))]
  {
    OneMoreArg("", 'S', values, 0);
    assert "" + ['S'] == "S" && ArgsOf("", values, 0) == [];
  }
}
