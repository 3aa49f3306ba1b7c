/** The member strings of disphelper.c, on values: a dotted path, where each part may be followed by
    arguments marked with '%'. */
module MemberText {
  import opened CStrings

  const DH_MAX_ARGS := 25
  const DH_MAX_MEMBER := 512

  /** What the variable argument list holds: a word of some kind, or a pointer to text that may be null. */
  datatype Value = Word(n: int) | Text(text: Option<string>)

  /** An argument as the invoked object sees it. */
  datatype Arg = Plain(id: char, value: Value) | Omitted | String(text: Option<string>)

  function TextOf(v: Value): Option<string> {
    if v.Text? then v.text else None
  }

  /** Identifiers of arguments that a string is allocated for. */
  predicate Allocates(id: char) {
    id in "STs"
  }

  /** Identifiers of dates that have to be converted. */
  predicate Converts(id: char) {
    id in "tWf"
  }

  predicate KnownId(id: char) {
    Allocates(id) || Converts(id) || id in "duebvmBoODp"
  }

  /** How many values of the list an identifier takes. */
  function Uses(id: char): nat {
    if id == 'm' then 0 else 1
  }

  function ArgOf(id: char, v: Value): Arg {
    if id == 'm' then Omitted else if Allocates(id) then String(TextOf(v)) else Plain(id, v)
  }

  /** Seventeen identifiers are known. Three of them stand for text, which the object gets as a string; 'm' stands
      for an omitted argument and takes nothing from the list; any other passes its value on. */
  lemma KnownIds(id: char, v: Value, text: Option<string>)
    ensures KnownId(id) <==> id in "duebvmBSsToODtWfp"
    ensures id in "sST" ==> ArgOf(id, Text(text)) == String(text) && Uses(id) == 1
    ensures ArgOf('m', v) == Omitted && Uses('m') == 0
    ensures id in "duebvBoODtWfp" ==> ArgOf(id, v) == Plain(id, v) && Uses(id) == 1
  {
  }

  predicate EndsName(c: char) {
    c in "( =%"
  }

  function NameEnd(s: string, j: nat): (k: nat)
    requires j <= |s|
    ensures j <= k <= |s| && (k < |s| ==> EndsName(s[k]))
    ensures forall i | j <= i < k :: !EndsName(s[i])
    decreases |s| - j
  {
    if j == |s| || EndsName(s[j]) then j else NameEnd(s, j + 1)
  }

  /** The name in front of the arguments. */
  function NameOf(part: string): string {
    part[..NameEnd(part, 0)]
  }

  /** It ends at the first bracket, blank, equals sign or percent mark. */
  lemma NameReads(name: string, c: char, rest: string)
    requires c in "( =%" && forall d | d in name :: d !in "( =%"
    ensures NameOf(name) == name && NameOf(name + [c] + rest) == name
  {
    var s := name + [c] + rest;
    assert s[..|name|] == name && s[|name|] == c && name[..|name|] == name;
    assert forall i | 0 <= i < |name| :: s[i] == name[i] && name[i] in name && !EndsName(s[i]);
  }

  /** The identifiers of the arguments from position j on; NUL where the text ends after a '%'. */
  function IdsFrom(s: string, j: nat): seq<char>
    decreases |s| - j
  {
    if j >= |s| then []
    else if s[j] != '%' then IdsFrom(s, j + 1)
    else if j + 1 == |s| then [NUL]
    else [s[j + 1]] + IdsFrom(s, j + 2)
  }

  function Ids(part: string): seq<char> {
    IdsFrom(part, 0)
  }

  function Used(ids: seq<char>): nat {
    if ids == [] then 0 else Used(ids[..|ids| - 1]) + Uses(ids[|ids| - 1])
  }

  /** The arguments in the order they are read from the list. */
  function ArgsOf(ids: seq<char>, values: nat -> Value, pos: nat): (args: seq<Arg>)
    ensures |args| == |ids|
  {
    if ids == [] then []
    else
      var front := ids[..|ids| - 1];
      ArgsOf(front, values, pos) + [ArgOf(ids[|ids| - 1], values(pos + Used(front)))]
  }

  lemma OneMoreArg(ids: seq<char>, id: char, values: nat -> Value, pos: nat)
    ensures ArgsOf(ids + [id], values, pos) == ArgsOf(ids, values, pos) + [ArgOf(id, values(pos + Used(ids)))]
    ensures Used(ids + [id]) == Used(ids) + Uses(id)
  {
    assert (ids + [id])[..|ids|] == ids;
  }

  lemma {:induction false} AllButOmitted(ids: seq<char>)
    ensures Used(ids) + multiset(ids)['m'] == |ids|
  {
    if ids != [] {
      assert ids == ids[..|ids| - 1] + [ids[|ids| - 1]];
      AllButOmitted(ids[..|ids| - 1]);
    }
  }

  /** The object gets the argument marked k-th as the k-th from the end. Its value is taken from the list after
      those of the arguments marked before it, of which an omitted one takes none. */
  lemma {:induction false} ArgumentAt(ids: seq<char>, values: nat -> Value, pos: nat, k: nat)
    requires k < |ids|
    ensures Reversed(ArgsOf(ids, values, pos))[|ids| - 1 - k] == ArgOf(ids[k], values(pos + Used(ids[..k])))
    ensures Used(ids[..k]) == k - multiset(ids[..k])['m']
    decreases |ids|
  {
    AllButOmitted(ids[..k]);
    var front := ids[..|ids| - 1];
    assert ids == front + [ids[|ids| - 1]];
    if k < |front| {
      ArgumentAt(front, values, pos, k);
      assert front[..k] == ids[..k];
    } else {
      assert ids[..k] == front;
    }
  }

  /** A member written in the usual way, with its arguments marked in parentheses. */
  function Written(name: string, ids: seq<char>): string {
    name + "(" + Marks(ids) + ")"
  }

  function Marks(ids: seq<char>): string {
    if ids == [] then "" else "%" + [ids[0]] + Marks(ids[1..])
  }

  /** Its name and its identifiers are read back. */
  lemma WrittenReadsBack(name: string, ids: seq<char>)
    requires forall c | c in name :: !EndsName(c)
    ensures NameOf(Written(name, ids)) == name && Ids(Written(name, ids)) == ids
  {
    hide NameOf;
    var s := Written(name, ids);
    NameReads(name, '(', Marks(ids) + ")");
    assert s == name + ['('] + (Marks(ids) + ")");
    assert forall i | 0 <= i < |name| :: s[i] == name[i] && s[i] in name;
    PlainSkipped(s, 0, |name| + 1);
    assert s[|name| + 1..] == Marks(ids) + ")";
    MarksRead(s, |name| + 1, ids);
  }

  /** No identifiers where there is no '%'. */
  lemma {:induction false} PlainSkipped(s: string, j: nat, k: nat)
    requires j <= k <= |s| && forall i | j <= i < k :: s[i] != '%'
    ensures IdsFrom(s, j) == IdsFrom(s, k)
    decreases k - j
  {
    if j < k {
      PlainSkipped(s, j + 1, k);
    }
  }

  lemma {:induction false} MarksRead(s: string, j: nat, ids: seq<char>)
    requires j <= |s| && s[j..] == Marks(ids) + ")"
    ensures IdsFrom(s, j) == ids
    decreases |ids|
  {
    if ids == [] {
      assert s[j] == s[j..][0] == ')' && |s| == j + 1;
    } else {
      var rest := Marks(ids[1..]) + ")";
      assert Marks(ids) + ")" == "%" + [ids[0]] + rest;
      assert s[j] == s[j..][0] && s[j + 1] == s[j..][1];
      assert s[j + 2..] == s[j..][2..] == rest;
      MarksRead(s, j + 2, ids[1..]);
      assert ids == [ids[0]] + ids[1..];
    }
  }

  predicate Acceptable(ids: seq<char>) {
    |ids| <= DH_MAX_ARGS && forall i | 0 <= i < |ids| :: KnownId(ids[i])
  }

  // ---------- the path

  /** The parts of a text between dots. */
  function Split(s: string): (parts: seq<string>)
    ensures parts != []
    decreases |s|
  {
    var k := IndexOf(s, '.');
    if k == |s| then [s] else [s[..k]] + Split(s[k + 1..])
  }

  /** One dot in front of the path is skipped. */
  function Parts(member: string): (parts: seq<string>)
    ensures parts != []
  {
    Split(if member != "" && member[0] == '.' then member[1..] else member)
  }

  function Joined(parts: seq<string>): string
    requires parts != []
  {
    if |parts| == 1 then parts[0] else parts[0] + "." + Joined(parts[1..])
  }

  /** Splitting loses nothing, and no part contains a dot. */
  lemma {:induction false} SplitJoins(s: string)
    ensures Joined(Split(s)) == s
    ensures forall i | 0 <= i < |Split(s)| :: '.' !in Split(s)[i]
    decreases |s|
  {
    var k := IndexOf(s, '.');
    if k < |s| {
      SplitJoins(s[k + 1..]);
      var rest := Split(s[k + 1..]);
      assert Split(s) == [s[..k]] + rest && Split(s)[1..] == rest;
      assert forall i | 0 < i < |Split(s)| :: Split(s)[i] == rest[i - 1];
      assert s == s[..k] + "." + s[k + 1..];
    } else {
      assert s[..k] == s;
    }
  }

  /** The parts of a member, joined again, are the member without the one dot it may begin with. */
  lemma PartsJoin(m: string)
    ensures Joined(Parts("." + m)) == m
    ensures m == "" || m[0] != '.' ==> Joined(Parts(m)) == m
    ensures forall i | 0 <= i < |Parts(m)| :: '.' !in Parts(m)[i]
  {
    SkipsDot(m);
    SplitJoins(m);
    if m != "" { SplitJoins(m[1..]); }
  }

  /** A path that was put together from parts without dots is taken apart into these. */
  lemma {:induction false} JoinedReads(parts: seq<string>)
    requires parts != [] && forall i | 0 <= i < |parts| :: '.' !in parts[i]
    ensures Split(Joined(parts)) == parts && Parts("." + Joined(parts)) == parts
  {
    hide Split, Parts;
    SkipsDot(Joined(parts));
    if |parts| == 1 {
      SplitPlain(parts[0]);
    } else {
      JoinedReads(parts[1..]);
      SplitFirst(parts[0], Joined(parts[1..]));
    }
  }

  lemma SkipsDot(m: string)
    ensures Parts("." + m) == Split(m)
  {
    assert ("." + m)[0] == '.' && ("." + m)[1..] == m;
  }

  lemma SplitPlain(s: string)
    requires '.' !in s
    ensures Split(s) == [s]
  {
    assert s[..|s|] == s;
    IndexOfIs(s, '.', |s|);
  }

  lemma SplitFirst(first: string, rest: string)
    requires '.' !in first
    ensures Split(first + "." + rest) == [first] + Split(rest)
  {
    var m := first + "." + rest;
    assert m[..|first|] == first && m[|first| + 1..] == rest;
    IndexOfIs(m, '.', |first|);
  }

  lemma MarksNoDot(ids: seq<char>)
    requires forall id | id in ids :: KnownId(id)
    ensures '.' !in Marks(ids)
  {
    if ids != [] {
      assert ids[0] in ids && forall id | id in ids[1..] :: id in ids;
      MarksNoDot(ids[1..]);
    }
  }

  /** Where in the list the arguments of part k begin. */
  function PosAt(parts: seq<string>, pos: nat, k: nat): nat
    requires k <= |parts|
  {
    if k == 0 then pos else PosAt(parts, pos, k - 1) + Used(Ids(parts[k - 1]))
  }

  function AllIds(parts: seq<string>): seq<char> {
    if parts == [] then [] else AllIds(parts[..|parts| - 1]) + Ids(parts[|parts| - 1])
  }

  /** That is behind one value for each argument of the parts before it that is not an omitted one. */
  lemma {:induction false} PosAtCounts(parts: seq<string>, pos: nat, k: nat)
    requires k <= |parts|
    ensures var before := AllIds(parts[..k]); PosAt(parts, pos, k) == pos + |before| - multiset(before)['m']
  {
    if k > 0 {
      PosAtCounts(parts, pos, k - 1);
      AllButOmitted(Ids(parts[k - 1]));
      assert parts[..k][..k - 1] == parts[..k - 1];
    }
  }

  /** The arguments of part k, in the order the invoked object gets them: the last one read comes first. */
  function CallArgs(parts: seq<string>, values: nat -> Value, pos: nat, k: nat): seq<Arg>
    requires k < |parts|
  {
    Reversed(ArgsOf(Ids(parts[k]), values, PosAt(parts, pos, k)))
  }
}
