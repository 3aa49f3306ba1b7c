/** The IPv6 printer of clientlog/winports.c, against an independent reader of the text form given in
    section 2.2 of RFC 4291. */
module IPv6 {
  import opened CStrings
  import opened LittleEndian

  lemma TwoBytes(b: seq<byte>, at: nat)
    requires at + 2 <= |b|
    ensures Num(b, at, 2) == b[at + 1] as int * 256 + b[at] as int
  {
    var s := b[at..at + 2];
    assert LE(s[1..]) == s[1] + 256 * LE(s[1..][1..]);
  }

  /** The eight groups, as the printer takes them out of the sixteen bytes. */
  function GroupOf(b: seq<byte>, i: nat): (g: nat)
    requires |b| == 16 && i < 8
    ensures g < 65536 && g == Num(b, 14 - 2 * i, 2)
  {
    TwoBytes(b, 14 - 2 * i);
    b[15 - 2 * i] as int * 256 + b[14 - 2 * i] as int
  }

  function Groups(b: seq<byte>): (g: seq<nat>)
    requires |b| == 16
    ensures |g| == 8 && forall i | 0 <= i < 8 :: g[i] == GroupOf(b, i)
  {
    seq(8, i requires 0 <= i < 8 => GroupOf(b, i))
  }

  lemma GroupsInjective(b: seq<byte>, c: seq<byte>)
    requires |b| == |c| == 16 && Groups(b) == Groups(c)
    ensures b == c
  {
    forall k: nat | k < 16 ensures b[k] == c[k] {
      var i := 7 - k / 2;
      assert Groups(b)[i] == GroupOf(b, i) && Groups(c)[i] == GroupOf(c, i);
      assert k == 15 - 2 * i || k == 14 - 2 * i;
    }
  }

  // ---------- printing

  function HexDigit(d: nat): char
    requires d < 16
  {
    if d < 10 then ('0' as int + d) as char else ('a' as int + (d - 10)) as char
  }

  /** "%x". */
  function Hex(n: nat): (s: string)
    ensures s != []
  {
    if n < 16 then [HexDigit(n)] else Hex(n / 16) + [HexDigit(n % 16)]
  }

  /** Groups in hexadecimal with a colon between any two. */
  function Join(gs: seq<nat>): string {
    if gs == [] then ""
    else if |gs| == 1 then Hex(gs[0])
    else Hex(gs[0]) + ":" + Join(gs[1..])
  }

  lemma {:induction false} JoinAppend(gs: seq<nat>, g: nat)
    ensures Join(gs + [g]) == if gs == [] then Hex(g) else Join(gs) + ":" + Hex(g)
  {
    hide Hex;
    if gs != [] {
      var tail := gs[1..];
      JoinAppend(tail, g);
      assert (gs + [g])[1..] == tail + [g];
      if tail != [] {
        calc {
          Join(gs + [g]);
          Hex(gs[0]) + ":" + Join(tail + [g]);
          Hex(gs[0]) + ":" + (Join(tail) + ":" + Hex(g));
          (Hex(gs[0]) + ":" + Join(tail)) + ":" + Hex(g);
          Join(gs) + ":" + Hex(g);
        }
      }
    }
  }

  ghost predicate ZeroRun(g: seq<nat>, ix: nat, len: nat) {
    ix + len <= |g| && forall k | ix <= k < ix + len :: g[k] == 0
  }

  /** No run of zeros that starts before `upto` beats the one at ix: none is longer, and none of the same
      length is further left. */
  ghost predicate Unbeaten(g: seq<nat>, upto: nat, ix: nat, len: nat) {
    forall a: nat, m: nat | a < upto && m > 0 && ZeroRun(g, a, m) :: m <= len && (m == len ==> ix <= a)
  }

  ghost predicate LeftmostLongest(g: seq<nat>, ix: nat, len: nat) {
    && Unbeaten(g, |g|, ix, len)
    && (if len == 0 then ix == |g| else ZeroRun(g, ix, len))
  }

  lemma LeftmostLongestUnique(g: seq<nat>, ix: nat, len: nat, ix': nat, len': nat)
    requires LeftmostLongest(g, ix, len) && LeftmostLongest(g, ix', len')
    ensures ix == ix' && len == len'
  {
  }

  /** The text with the zeros from ix to ix + len written as "::". */
  function Text(g: seq<nat>, ix: nat, len: nat): string
    requires ix + len <= |g|
  {
    "[" + Body(g, ix, len) + "]"
  }

  function Body(g: seq<nat>, ix: nat, len: nat): string
    requires ix + len <= |g|
  {
    Join(g[..ix]) + (if len > 0 then "::" else "") + Join(g[ix + len..])
  }

  method FindLargestZeroCluster(group: array<nat>) returns (ix: nat, len: nat)
    requires group.Length == 8
    ensures LeftmostLongest(group[..], ix, len) && ix + len <= 8
  {
    ghost var g := group[..];
    ix, len := 0, 0;
    var i := 0;
    while i < 8
      invariant 0 <= i <= 9 && (0 < i <= 8 ==> g[i - 1] != 0)
      invariant Unbeaten(g, i, ix, len)
      invariant ix + len <= 8 && ix <= i && (len > 0 ==> ix < i && ZeroRun(g, ix, len))
    {
      if group[i] == 0 {
        var curr, run := i, 1;
        i := i + 1;
        while i < 8 && group[i] == 0
          invariant i == curr + run <= 8 && ZeroRun(g, curr, run)
        {
          run := run + 1;
          i := i + 1;
        }
        RunEnds(g, curr, run, ix, len);
        if run > len {
          ix, len := curr, run;
        }
      } else {
        NothingHere(g, i, ix, len);
      }
      i := i + 1;
    }
    assert Unbeaten(g, 8, ix, len);
    if len == 0 {
      ix := 8;
    }
  }

  /** A run of zeros that has just ended is compared with the best so far. */
  lemma RunEnds(g: seq<nat>, curr: nat, run: nat, ix: nat, len: nat)
    requires run > 0 && ZeroRun(g, curr, run) && (curr + run < |g| ==> g[curr + run] != 0)
    requires Unbeaten(g, curr, ix, len) && ix <= curr
    ensures Unbeaten(g, curr + run + 1, if run > len then curr else ix, if run > len then run else len)
  {
    forall a: nat, m: nat | a < curr + run + 1 && m > 0 && ZeroRun(g, a, m)
      ensures var best := if run > len then run else len;
              m <= best && (m == best ==> (if run > len then curr else ix) <= a)
    {
      if a >= curr {
        assert a + m <= curr + run;
      } else {
        assert m <= len;
      }
    }
  }

  lemma NothingHere(g: seq<nat>, i: nat, ix: nat, len: nat)
    requires i < |g| && g[i] != 0 && Unbeaten(g, i, ix, len)
    ensures Unbeaten(g, i + 1, ix, len)
  {
    assert forall m: nat | m > 0 :: !ZeroRun(g, i, m);
  }

  /** The groups printed so far, with a colon behind when there are more to come. */
  function Begun(groups: seq<nat>, last: bool): string {
    if groups == [] then "" else Join(groups) + if last then "" else ":"
  }

  lemma BegunNext(groups: seq<nat>, g: nat, last: bool)
    ensures Begun(groups + [g], last) == Begun(groups, false) + Hex(g) + if last then "" else ":"
  {
    hide Hex;
    JoinAppend(groups, g);
  }

  lemma BegunEnds(groups: seq<nat>)
    ensures Begun(groups, true) == Join(groups) && Begun([], false) == ""
  {
  }

  /** Prints groups from `from` to `to`, with a colon after each but the last. */
  method PrintGroups(group: array<nat>, from: nat, to: nat, before: string) returns (out: string)
    requires from <= to <= group.Length
    ensures out == before + Join(group[from..to])
  {
    hide Begun;
    BegunEnds([]);
    out := before;
    assert group[from..from] == [];
    for i := from to to
      invariant out == before + Begun(group[from..i], i == to)
    {
      assert group[from..i + 1] == group[from..i] + [group[i]];
      BegunNext(group[from..i], group[i], i + 1 == to);
      out := out + Hex(group[i]);
      if i != to - 1 {
        out := out + ":";
      }
    }
    BegunEnds(group[from..to]);
  }

  method TakeGroups(b: seq<byte>) returns (group: array<nat>)
    requires |b| == 16
    ensures fresh(group) && group[..] == Groups(b)
  {
    group := new nat[8];
    for i := 0 to 8
      invariant forall k | 0 <= k < i :: group[k] == GroupOf(b, k)
    {
      group[i] := b[15 - 2 * i] as int * 256 + b[14 - 2 * i] as int;
    }
  }

  method Render(group: array<nat>, ix: nat, len: nat) returns (out: string)
    requires group.Length == 8 && ix + len <= 8
    ensures out == Text(group[..], ix, len)
  {
    hide Join;
    out := PrintGroups(group, 0, ix, "[");
    if len > 0 {
      out := out + "::";
    }
    out := PrintGroups(group, ix + len, 8, out);
    out := out + "]";
    assert group[0..ix] == group[..][..ix] && group[ix + len..8] == group[..][ix + len..];
  }

  /** The text of an address: groups in hexadecimal, the leftmost longest run of zero groups as "::". */
  method PrettyIPv6(b: seq<byte>) returns (out: string, ghost ix: nat, ghost len: nat)
    requires |b| == 16
    ensures LeftmostLongest(Groups(b), ix, len) && ix + len <= 8
    ensures out == Text(Groups(b), ix, len) && |out| <= 41
  {
    var group := TakeGroups(b);
    var largestIx, largestLen := FindLargestZeroCluster(group);
    ix, len := largestIx, largestLen;
    out := Render(group, largestIx, largestLen);
    TextFits(Groups(b), ix, len);
  }

  // ---------- an independent reader

  /** The value of a hexadecimal digit of either case. */
  function DigitValue(c: char): Option<nat> {
    if '0' <= c <= '9' then Some(c as int - '0' as int)
    else if 'a' <= c <= 'f' then Some(c as int - 'a' as int + 10)
    else if 'A' <= c <= 'F' then Some(c as int - 'A' as int + 10)
    else None
  }

  function DigitsValue(s: string): Option<nat> {
    if s == [] then Some(0)
    else
      match (DigitsValue(s[..|s| - 1]), DigitValue(s[|s| - 1]))
      case (Some(high), Some(low)) => Some(16 * high + low)
      case _ => None
  }

  /** One group: one to four hexadecimal digits. */
  function ReadGroup(s: string): Option<nat> {
    if 1 <= |s| <= 4 then DigitsValue(s) else None
  }

  /** One or more groups with single colons between them. */
  function ReadGroups(s: string): Option<seq<nat>>
    decreases |s|
  {
    var k := IndexOf(s, ':');
    match ReadGroup(s[..k])
    case None => None
    case Some(g) =>
      if k == |s| then Some([g])
      else
        match ReadGroups(s[k + 1..])
        case None => None
        case Some(rest) => Some([g] + rest)
  }

  /** Position of the first "::", or |s|. */
  function DoubleColon(s: string): (k: nat)
    ensures k <= |s| && (k < |s| ==> k + 1 < |s|)
  {
    if |s| < 2 then |s|
    else if s[0] == ':' && s[1] == ':' then 0
    else 1 + DoubleColon(s[1..])
  }

  function ReadSide(s: string): Option<seq<nat>> {
    if s == "" then Some([]) else ReadGroups(s)
  }

  function EightOnly(g: Option<seq<nat>>): Option<seq<nat>> {
    if g.Some? && |g.value| == 8 then g else None
  }

  function FillZeros(l: Option<seq<nat>>, r: Option<seq<nat>>): Option<seq<nat>> {
    if l.Some? && r.Some? && |l.value| + |r.value| <= 7
    then Some(l.value + seq(8 - |l.value| - |r.value|, _ => 0) + r.value)
    else None
  }

  /** Eight groups; one "::" may stand for one or more zero groups. */
  function Read(s: string): Option<seq<nat>> {
    var k := DoubleColon(s);
    if k == |s| then EightOnly(ReadGroups(s)) else FillZeros(ReadSide(s[..k]), ReadSide(s[k + 2..]))
  }

  function ReadBracketed(s: string): Option<seq<nat>> {
    if |s| >= 2 && s[0] == '[' && s[|s| - 1] == ']' then Read(s[1..|s| - 1]) else None
  }

  // ---------- reading back what was printed

  ghost predicate AllGroups(gs: seq<nat>) {
    forall i | 0 <= i < |gs| :: gs[i] < 65536
  }

  lemma {:induction false} HexReadsBack(n: nat, digits: nat)
    requires digits > 0 && n < Pow16(digits)
    ensures |Hex(n)| <= digits && DigitsValue(Hex(n)) == Some(n) && ':' !in Hex(n)
    decreases digits
  {
    if n < 16 {
      assert Hex(n)[..0] == "";
    } else {
      assert digits > 1;
      HexReadsBack(n / 16, digits - 1);
      var s := Hex(n);
      assert s[..|s| - 1] == Hex(n / 16) && s[|s| - 1] == HexDigit(n % 16);
    }
  }

  function Pow16(k: nat): nat {
    if k == 0 then 1 else 16 * Pow16(k - 1)
  }

  lemma GroupReadsBack(g: nat)
    requires g < 65536
    ensures ReadGroup(Hex(g)) == Some(g) && ':' !in Hex(g) && |Hex(g)| <= 4
  {
    assert Pow16(4) == 16 * (16 * (16 * (16 * Pow16(0))));
    HexReadsBack(g, 4);
  }

  lemma {:induction false} JoinReadsBack(gs: seq<nat>)
    requires gs != [] && AllGroups(gs)
    ensures ReadGroups(Join(gs)) == Some(gs)
  {
    var h := Hex(gs[0]);
    GroupReadsBack(gs[0]);
    if |gs| == 1 {
      ReadOneGroup(h, gs[0]);
      assert [gs[0]] == gs;
    } else {
      JoinReadsBack(gs[1..]);
      ReadMoreGroups(h, gs[0], Join(gs[1..]), gs[1..]);
      assert [gs[0]] + gs[1..] == gs;
    }
  }

  lemma ReadOneGroup(h: string, g: nat)
    requires ReadGroup(h) == Some(g) && ':' !in h
    ensures ReadGroups(h) == Some([g])
  {
    IndexOfIs(h, ':', |h|);
    assert h[..|h|] == h;
  }

  lemma ReadMoreGroups(h: string, g: nat, t: string, rest: seq<nat>)
    requires ReadGroup(h) == Some(g) && ':' !in h && ReadGroups(t) == Some(rest)
    ensures ReadGroups(h + ":" + t) == Some([g] + rest)
  {
    var s := h + ":" + t;
    assert s[..|h|] == h && s[|h| + 1..] == t && s[|h|] == ':';
    IndexOfIs(s, ':', |h|);
  }

  /** Text that starts with a group has no "::" there. */
  lemma SkipColon(h: string, t: string)
    requires ':' !in h && t != "" && t[0] != ':'
    ensures DoubleColon(h + ":" + t) == |h| + 1 + DoubleColon(t)
  {
    SkipPlain(h, ":" + t);
    assert h + ":" + t == h + (":" + t);
    assert (":" + t)[1..] == t;
  }

  /** Text without colons is skipped. */
  lemma {:induction false} SkipPlain(h: string, rest: string)
    requires ':' !in h
    ensures DoubleColon(h + rest) == |h| + DoubleColon(rest)
  {
    if h == "" {
      assert h + rest == rest;
    } else {
      assert h[0] in h;
      assert (h + rest)[1..] == h[1..] + rest;
      SkipPlain(h[1..], rest);
    }
  }

  lemma JoinStarts(gs: seq<nat>)
    requires AllGroups(gs) && gs != []
    ensures Join(gs) != "" && Join(gs)[0] != ':'
  {
    GroupReadsBack(gs[0]);
    assert Hex(gs[0])[0] in Hex(gs[0]);
  }

  /** Joined groups have no two colons together, whatever follows. */
  lemma {:induction false} JoinHasNoDouble(gs: seq<nat>, rest: string)
    requires AllGroups(gs) && DoubleColon(rest) == 0
    ensures DoubleColon(Join(gs) + rest) == |Join(gs)|
    decreases |gs|
  {
    if gs == [] {
      assert "" + rest == rest;
    } else {
      var h := Hex(gs[0]);
      GroupReadsBack(gs[0]);
      if |gs| == 1 {
        SkipPlain(h, rest);
      } else {
        var t := Join(gs[1..]) + rest;
        JoinStarts(gs[1..]);
        JoinHasNoDouble(gs[1..], rest);
        assert Join(gs) + rest == h + ":" + t;
        SkipColon(h, t);
      }
    }
  }

  lemma SideReadsBack(gs: seq<nat>)
    requires AllGroups(gs)
    ensures ReadSide(Join(gs)) == Some(gs)
  {
    if gs != [] {
      JoinStarts(gs);
      JoinReadsBack(gs);
    }
  }

  lemma PlainReadsBack(g: seq<nat>)
    requires |g| == 8 && AllGroups(g)
    ensures Read(Join(g)) == Some(g)
  {
    JoinHasNoDouble(g, "");
    JoinReadsBack(g);
    assert Join(g) + "" == Join(g);
  }

  lemma ReadAtDouble(s: string, k: nat)
    requires DoubleColon(s) == k < |s|
    ensures Read(s) == FillZeros(ReadSide(s[..k]), ReadSide(s[k + 2..]))
  {
  }

  lemma SplitAtDouble(s: string, l: seq<nat>, r: seq<nat>)
    requires AllGroups(l) && AllGroups(r) && s == Join(l) + ("::" + Join(r))
    ensures Read(s) == FillZeros(Some(l), Some(r))
  {
    hide Join;
    JoinHasNoDouble(l, "::" + Join(r));
    SideReadsBack(l);
    SideReadsBack(r);
    assert s[..|Join(l)|] == Join(l) && s[|Join(l)| + 2..] == Join(r);
    ReadAtDouble(s, |Join(l)|);
  }

  /** Reading a text back gives the groups it was made from, wherever its zeros were. */
  lemma ReadsBack(g: seq<nat>, ix: nat, len: nat)
    requires |g| == 8 && AllGroups(g) && ix + len <= 8
    requires if len == 0 then ix == 8 else ZeroRun(g, ix, len)
    ensures ReadBracketed(Text(g, ix, len)) == Some(g)
  {
    StripBrackets(Body(g, ix, len));
    if len == 0 {
      assert g[..ix] == g && g[ix + len..] == [];
      assert Body(g, ix, len) == Join(g);
      PlainReadsBack(g);
    } else {
      ZerosReadBack(g, ix, len);
    }
  }

  lemma StripBrackets(body: string)
    ensures ReadBracketed("[" + body + "]") == Read(body)
  {
    assert ("[" + body + "]")[1..|body| + 1] == body;
  }

  lemma ZerosReadBack(g: seq<nat>, ix: nat, len: nat)
    requires |g| == 8 && AllGroups(g) && len > 0 && ZeroRun(g, ix, len)
    ensures Read(Body(g, ix, len)) == Some(g)
  {
    var l, r := g[..ix], g[ix + len..];
    SplitAtDouble(Body(g, ix, len), l, r);
    assert g == l + seq(8 - |l| - |r|, _ => 0) + r;
  }

  lemma {:induction false} JoinFits(gs: seq<nat>)
    requires AllGroups(gs)
    ensures |Join(gs)| <= if gs == [] then 0 else 5 * |gs| - 1
  {
    if gs != [] {
      GroupReadsBack(gs[0]);
      JoinFits(gs[1..]);
    }
  }

  lemma TextFits(g: seq<nat>, ix: nat, len: nat)
    requires |g| == 8 && AllGroups(g) && ix + len <= 8 && (len == 0 ==> ix == 8)
    ensures |Text(g, ix, len)| <= 41
  {
    JoinFits(g[..ix]);
    JoinFits(g[ix + len..]);
  }

  /** The printer loses nothing: the text determines the groups, and the groups the address. */
  lemma PrettyInjective(b: seq<byte>, c: seq<byte>, ix: nat, len: nat, ix': nat, len': nat)
    requires |b| == |c| == 16 && ix + len <= 8 && ix' + len' <= 8
    requires LeftmostLongest(Groups(b), ix, len) && LeftmostLongest(Groups(c), ix', len')
    requires Text(Groups(b), ix, len) == Text(Groups(c), ix', len')
    ensures b == c && ReadBracketed(Text(Groups(b), ix, len)) == Some(Groups(b))
  {
    ReadsBack(Groups(b), ix, len);
    ReadsBack(Groups(c), ix', len');
    GroupsInjective(b, c);
  }
}
