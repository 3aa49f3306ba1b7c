/** What the texts of the IPv6 printer look like as a whole, and where they differ from what section 4.2 of
    RFC 5952 asks for. */
module IPv6Forms {
  import opened CStrings
  import opened LittleEndian
  import opened IPv6

  // ---------- groups

  const DIGITS := "0123456789abcdef"

  /** Digits are small, as section 4.3 of RFC 5952 asks for. */
  lemma DigitIs(d: nat)
    requires d < 16
    ensures HexDigit(d) == DIGITS[d]
  {
  }

  /** A group has no leading zero, as section 4.1 asks for. */
  lemma {:induction false} NoLeadingZero(n: nat)
    ensures n > 0 ==> Hex(n)[0] != '0'
    ensures Hex(0) == "0"
  {
    if n >= 16 {
      NoLeadingZero(n / 16);
      assert Hex(n)[0] == Hex(n / 16)[0];
    }
  }

  // ---------- one "::" at most

  predicate DoubleAt(s: string, i: nat) {
    i + 1 < |s| && s[i] == ':' && s[i + 1] == ':'
  }

  predicate ColonFreeEnds(s: string) {
    s != "" ==> s[0] != ':' && s[|s| - 1] != ':'
  }

  lemma {:induction false} JoinNoDoubleAt(gs: seq<nat>)
    requires AllGroups(gs)
    ensures ColonFreeEnds(Join(gs)) && forall i: nat :: !DoubleAt(Join(gs), i)
  {
    hide Hex, ReadGroup;
    if gs != [] {
      var h := Hex(gs[0]);
      GroupReadsBack(gs[0]);
      if |gs| == 1 {
        PlainNoDouble(h);
      } else {
        JoinNoDoubleAt(gs[1..]);
        JoinStarts(gs[1..]);
        ConsNoDouble(h, Join(gs[1..]));
      }
    }
  }

  lemma PlainNoDouble(h: string)
    requires ':' !in h
    ensures ColonFreeEnds(h) && forall i: nat :: !DoubleAt(h, i)
  {
  }

  lemma ConsNoDouble(h: string, t: string)
    requires ':' !in h && h != "" && t != "" && ColonFreeEnds(t) && forall i: nat :: !DoubleAt(t, i)
    ensures ColonFreeEnds(h + ":" + t) && forall i: nat :: !DoubleAt(h + ":" + t, i)
  {
    var s := h + ":" + t;
    assert h[0] in h;
    forall i: nat ensures !DoubleAt(s, i) {
      if i < |h| {
        assert s[i] in h;
      } else if |h| < i < |s| {
        assert !DoubleAt(t, i - |h| - 1);
      }
    }
  }

  /** The text contains "::" once, in place of the zero groups, and never when there are none. */
  lemma OneDouble(g: seq<nat>, ix: nat, len: nat)
    requires AllGroups(g) && ix + len <= |g| && (len == 0 ==> ix == |g|)
    ensures forall i: nat :: DoubleAt(Text(g, ix, len), i) <==> len > 0 && i == 1 + |Join(g[..ix])|
  {
    hide Join;
    JoinNoDoubleAt(g[..ix]);
    JoinNoDoubleAt(g[ix + len..]);
    if len > 0 {
      DoubleBetween(Join(g[..ix]), Join(g[ix + len..]));
    } else {
      JoinEmpty();
      NoDoubleInside(Join(g[..ix]));
      assert g[ix + len..] == [];
    }
  }

  lemma JoinEmpty()
    ensures Join([]) == ""
  {
  }

  lemma DoubleBetween(l: string, r: string)
    requires ColonFreeEnds(l) && ColonFreeEnds(r)
    requires forall i: nat :: !DoubleAt(l, i) && !DoubleAt(r, i)
    ensures forall i: nat :: DoubleAt("[" + (l + "::" + r) + "]", i) <==> i == 1 + |l|
  {
    var s := "[" + (l + "::" + r) + "]";
    forall i: nat ensures DoubleAt(s, i) <==> i == 1 + |l| {
      if 0 < i <= |l| {
        assert !DoubleAt(l, i - 1);
      } else if i > |l| + 2 {
        assert !DoubleAt(r, i - |l| - 3);
      }
    }
  }

  lemma NoDoubleInside(l: string)
    requires ColonFreeEnds(l) && forall i: nat :: !DoubleAt(l, i)
    ensures forall i: nat :: !DoubleAt("[" + (l + "" + "") + "]", i)
  {
    var s := "[" + (l + "" + "") + "]";
    forall i: nat ensures !DoubleAt(s, i) {
      if i > 0 { assert !DoubleAt(l, i - 1); }
    }
  }

  // ---------- a single zero group

  /** The text tells which groups are left out. */
  lemma TextUnique(g: seq<nat>, ix: nat, len: nat, ix': nat, len': nat)
    requires AllGroups(g) && ix + len <= |g| && ix' + len' <= |g|
    requires (len == 0 ==> ix == |g|) && (len' == 0 ==> ix' == |g|) && Text(g, ix, len) == Text(g, ix', len')
    ensures ix == ix' && len == len'
  {
    hide Join, Text, ReadSide;
    OneDouble(g, ix, len);
    OneDouble(g, ix', len');
    var text := Text(g, ix, len);
    assert DoubleAt(text, 1 + |Join(g[..ix])|) <==> len > 0;
    assert DoubleAt(text, 1 + |Join(g[..ix'])|) <==> len' > 0;
    if len > 0 {
      TextParts(g, ix, len);
      TextParts(g, ix', len');
      SideReadsBack(g[..ix]);
      SideReadsBack(g[..ix']);
      assert |g[..ix]| == |g[..ix']|;
      SideReadsBack(g[ix + len..]);
      SideReadsBack(g[ix' + len'..]);
      assert |g[ix + len..]| == |g[ix' + len'..]|;
    }
  }

  lemma TextParts(g: seq<nat>, ix: nat, len: nat)
    requires ix + len <= |g| && len > 0
    ensures var text, n := Text(g, ix, len), |Join(g[..ix])|;
            n + 4 <= |text| && text[1..n + 1] == Join(g[..ix]) && text[n + 3..|text| - 1] == Join(g[ix + len..])
  {
    hide Join;
  }

  ghost predicate SomeZero(g: seq<nat>) {
    exists i :: 0 <= i < |g| && g[i] == 0
  }

  ghost predicate NeighbourZeros(g: seq<nat>) {
    exists i, j :: 0 <= i && j == i + 1 && j < |g| && g[i] == 0 && g[j] == 0
  }

  lemma SingleRun(g: seq<nat>, ix: nat, len: nat)
    requires LeftmostLongest(g, ix, len)
    ensures len == 1 <==> SomeZero(g) && !NeighbourZeros(g)
  {
    if SomeZero(g) {
      var i: nat :| i < |g| && g[i] == 0;
      assert ZeroRun(g, i, 1);
    }
    if NeighbourZeros(g) {
      var i: nat, j: nat :| j == i + 1 && j < |g| && g[i] == 0 && g[j] == 0;
      assert ZeroRun(g, i, 2);
    }
    if len >= 2 { assert g[ix] == 0 && g[ix + 1] == 0; }
    if len == 1 { assert g[ix] == 0; }
  }

  /** One group alone is written as "::". */
  ghost predicate ShortensOne(g: seq<nat>, text: string) {
    exists i :: 0 <= i < |g| && text == Text(g, i, 1)
  }

  /** Section 4.2.2 of RFC 5952 forbids to shorten a single group. The printer does it exactly for the addresses
      that have a zero group, but no two neighbouring ones. */
  lemma ShortensOneExact(b: seq<byte>, ix: nat, len: nat)
    requires |b| == 16 && ix + len <= 8 && LeftmostLongest(Groups(b), ix, len)
    ensures ShortensOne(Groups(b), Text(Groups(b), ix, len)) <==> SomeZero(Groups(b)) && !NeighbourZeros(Groups(b))
  {
    hide Text;
    var g := Groups(b);
    SingleRun(g, ix, len);
    if ShortensOne(g, Text(g, ix, len)) {
      var i :| 0 <= i < |g| && Text(g, ix, len) == Text(g, i, 1);
      TextUnique(g, ix, len, i, 1);
    }
  }

  /** The example of that section: 2001:db8:0:1:1:1:1:1 should be printed in full. */
  method ShortenedExample() returns (out: string)
    ensures out == "[2001:db8::1:1:1:1:1]"
  {
    hide Text;
    var b: seq<byte> := [1, 0, 1, 0, 1, 0, 1, 0, 1, 0, 0, 0, 0xb8, 0x0d, 1, 0x20];
    var g := [0x2001, 0xdb8, 0, 1, 1, 1, 1, 1];
    ghost var ix, len;
    out, ix, len := PrettyIPv6(b);
    ExampleGroups(b, g);
    ExampleRun(g);
    LeftmostLongestUnique(g, ix, len, 2, 1);
    ExampleText(g);
  }

  lemma ExampleGroups(b: seq<byte>, g: seq<nat>)
    requires b == [1, 0, 1, 0, 1, 0, 1, 0, 1, 0, 0, 0, 0xb8, 0x0d, 1, 0x20]
    requires g == [0x2001, 0xdb8, 0, 1, 1, 1, 1, 1]
    ensures Groups(b) == g
  {
    hide Num;
    forall i | 0 <= i < 8 ensures GroupOf(b, i) == g[i] {
      assert g[i] == b[15 - 2 * i] as int * 256 + b[14 - 2 * i] as int;
    }
  }

  lemma ExampleRun(g: seq<nat>)
    requires g == [0x2001, 0xdb8, 0, 1, 1, 1, 1, 1]
    ensures LeftmostLongest(g, 2, 1)
  {
    forall a: nat, m: nat | a < 8 && m > 0 && ZeroRun(g, a, m) ensures m <= 1 && a == 2 {
      assert g[a] == 0;
      assert g[3] != 0;
    }
  }

  lemma ExampleText(g: seq<nat>)
    requires g == [0x2001, 0xdb8, 0, 1, 1, 1, 1, 1]
    ensures Text(g, 2, 1) == "[2001:db8::1:1:1:1:1]"
  {
    hide Join;
    JoinOnes();
    JoinTwo();
    assert g[..2] == [0x2001, 0xdb8] && g[3..] == [1, 1, 1, 1, 1];
  }

  lemma JoinTwo()
    ensures Join([0x2001, 0xdb8]) == "2001:db8"
  {
    hide Hex;
    HexFour(0x2001);
    HexThree(0xdb8);
    assert [0x2001, 0xdb8][1..] == [0xdb8];
    assert Join([0xdb8]) == "db8";
  }

  lemma HexThree(n: nat)
    requires 256 <= n < 4096
    ensures Hex(n) == [HexDigit(n / 256), HexDigit(n / 16 % 16), HexDigit(n % 16)]
  {
    assert Hex(n / 16 / 16) == [HexDigit(n / 256)];
    assert Hex(n / 16) == Hex(n / 16 / 16) + [HexDigit(n / 16 % 16)];
  }

  lemma HexFour(n: nat)
    requires 4096 <= n < 65536
    ensures Hex(n) == [HexDigit(n / 4096), HexDigit(n / 256 % 16), HexDigit(n / 16 % 16), HexDigit(n % 16)]
  {
    HexThree(n / 16);
    assert n / 16 / 256 == n / 4096 && n / 16 / 16 == n / 256;
    assert Hex(n) == Hex(n / 16) + [HexDigit(n % 16)];
  }

  lemma JoinOnes()
    ensures Join([1, 1, 1, 1, 1]) == "1:1:1:1:1"
  {
    assert Hex(1) == "1" && Join([1]) == "1";
    JoinAppend([1], 1);
    JoinAppend([1, 1], 1);
    JoinAppend([1, 1, 1], 1);
    JoinAppend([1, 1, 1, 1], 1);
    assert [1] + [1] == [1, 1] && [1, 1] + [1] == [1, 1, 1] && [1, 1, 1] + [1] == [1, 1, 1, 1];
    assert [1, 1, 1, 1] + [1] == [1, 1, 1, 1, 1];
  }
}
