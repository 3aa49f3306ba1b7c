/** How cfg.c packs configuration lines into one bounded buffer per key, on values: what is stored, and
    which lines can be read back. */
module ConfigText {
  import opened CStrings

  const CFG_MAX := 32000

  /** What a buffer of CFG_MAX characters holds after one more line has been appended. */
  function Packed(stored: string, line: string): string {
    Take(stored + (line + "\n"), CFG_MAX - 1)
  }

  function Stored(table: map<string, string>, key: string): string {
    if key in table then table[key] else ""
  }

  /** A line to be stored under a category. */
  datatype Setting = Setting(category: string, line: string)

  function Add(table: map<string, string>, s: Setting): map<string, string> {
    table[s.category := Packed(Stored(table, s.category), s.line)]
  }

  function AddAll(table: map<string, string>, settings: seq<Setting>): map<string, string> {
    if settings == [] then table
    else Add(AddAll(table, settings[..|settings| - 1]), settings[|settings| - 1])
  }

  /** The lines of one category, in order. */
  function LinesOf(settings: seq<Setting>, key: string): seq<string> {
    if settings == [] then []
    else
      var s := settings[|settings| - 1];
      LinesOf(settings[..|settings| - 1], key) + (if s.category == key then [s.line] else [])
  }

  /** Lines, each with its newline. */
  function Text(lines: seq<string>): string {
    if lines == [] then "" else Text(lines[..|lines| - 1]) + (lines[|lines| - 1] + "\n")
  }

  lemma TakeTwice(a: string, b: string, n: nat)
    ensures Take(Take(a, n) + b, n) == Take(a + b, n)
  {
  }

  lemma {:induction false} AddAllConcat(table: map<string, string>, s: seq<Setting>, t: seq<Setting>)
    ensures AddAll(table, s + t) == AddAll(AddAll(table, s), t)
  {
    if t == [] {
      assert s + t == s;
    } else {
      assert (s + t)[..|s + t| - 1] == s + t[..|t| - 1];
      AddAllConcat(table, s, t[..|t| - 1]);
    }
  }

  /** Keys do not interfere: a buffer holds as much as fits of its own lines, whatever else was added. */
  lemma {:induction false} BufferIsOwnText(settings: seq<Setting>, key: string)
    ensures Stored(AddAll(map[], settings), key) == Take(Text(LinesOf(settings, key)), CFG_MAX - 1)
    ensures key in AddAll(map[], settings) <==> LinesOf(settings, key) != []
  {
    if settings != [] {
      var front, s := settings[..|settings| - 1], settings[|settings| - 1];
      BufferIsOwnText(front, key);
      if s.category == key {
        var lines := LinesOf(front, key);
        assert (lines + [s.line])[..|lines|] == lines;
        TakeTwice(Text(lines), s.line + "\n", CFG_MAX - 1);
      } else {
        assert LinesOf(settings, key) == LinesOf(front, key);
      }
    }
  }

  // ---------- reading lines back

  /** The newline-terminated lines of a text; what comes after the last newline is not one. */
  function Lines(text: string): seq<string>
    decreases |text|
  {
    var k := IndexOf(text, '\n');
    if k == |text| then [] else [text[..k]] + Lines(text[k + 1..])
  }

  ghost predicate NewlineFree(lines: seq<string>) {
    forall i | 0 <= i < |lines| :: '\n' !in lines[i]
  }

  lemma {:induction false} TextAppend(a: seq<string>, b: seq<string>)
    ensures Text(a + b) == Text(a) + Text(b)
  {
    if b == [] {
      assert a + b == a;
    } else {
      var c := a + b;
      assert c[..|c| - 1] == a + b[..|b| - 1] && c[|c| - 1] == b[|b| - 1];
      TextAppend(a, b[..|b| - 1]);
    }
  }

  /** Newline-free lines, and a tail without newline, read back as the lines alone. */
  lemma {:induction false} LinesReadBack(lines: seq<string>, tail: string)
    requires NewlineFree(lines) && '\n' !in tail
    ensures Lines(Text(lines) + tail) == lines
    decreases |lines|
  {
    if lines == [] {
      assert Text(lines) + tail == tail;
      IndexOfIs(tail, '\n', |tail|);
    } else {
      var first, rest := lines[0], lines[1..];
      assert lines == [first] + rest;
      TextAppend([first], rest);
      TextOne(first);
      var s := Text(lines) + tail;
      assert s == first + "\n" + (Text(rest) + tail);
      FirstLine(first, Text(rest) + tail);
      LinesReadBack(rest, tail);
    }
  }

  lemma TextOne(line: string)
    ensures Text([line]) == line + "\n"
  {
    assert [line][..0] == [] && Text([]) == "";
  }

  lemma FirstLine(first: string, rest: string)
    requires '\n' !in first
    ensures Lines(first + "\n" + rest) == [first] + Lines(rest)
  {
    var s := first + "\n" + rest;
    assert s[..|first|] == first && s[|first|] == '\n' && s[|first| + 1..] == rest;
    IndexOfIs(s, '\n', |first|);
  }

  /** The first m lines are the longest prefix whose text fits in `limit` characters. */
  ghost predicate LongestFit(lines: seq<string>, limit: nat, m: nat) {
    && m <= |lines| && |Text(lines[..m])| <= limit
    && (m < |lines| ==> |Text(lines[..m + 1])| > limit)
  }

  /** A text cut at the limit reads back as exactly the longest prefix of its lines that fits: no line cut
      in the middle, and none after it. */
  lemma CutReadsBackPrefix(lines: seq<string>, limit: nat, m: nat)
    requires NewlineFree(lines) && LongestFit(lines, limit, m)
    ensures Lines(Take(Text(lines), limit)) == lines[..m]
  {
    hide Text, Lines;
    var head := lines[..m];
    if m == |lines| {
      assert head == lines && Take(Text(lines), limit) == Text(head) + "";
      LinesReadBack(head, "");
    } else {
      CutInLine(lines, limit, m);
      LinesReadBack(head, lines[m][..limit - |Text(head)|]);
    }
  }

  /** A cut within line m leaves the lines before it and a newline-free piece of it. */
  lemma CutInLine(lines: seq<string>, limit: nat, m: nat)
    requires NewlineFree(lines) && LongestFit(lines, limit, m) && m < |lines|
    ensures var room := limit - |Text(lines[..m])|;
            && 0 <= room <= |lines[m]| && '\n' !in lines[m][..room]
            && Take(Text(lines), limit) == Text(lines[..m]) + lines[m][..room]
  {
    hide Text, Take;
    var head, next, rest := lines[..m], lines[m], lines[m + 1..];
    assert lines[..m + 1] == head + [next] && lines == (head + [next]) + rest;
    TextAppend(head + [next], rest);
    TextAppend(head, [next]);
    TextOne(next);
    assert Text(lines) == Text(head) + (next + "\n" + Text(rest));
    CutInside(Text(head), next, Text(rest), limit);
  }

  lemma CutInside(head: string, next: string, more: string, limit: nat)
    requires |head| <= limit < |head| + |next| + 1 && '\n' !in next
    ensures Take(head + (next + "\n" + more), limit) == head + next[..limit - |head|]
    ensures '\n' !in next[..limit - |head|]
  {
    assert forall c | c in next[..limit - |head|] :: c in next;
  }

  lemma {:induction false} LongestFitExists(lines: seq<string>, limit: nat) returns (m: nat)
    ensures LongestFit(lines, limit, m)
  {
    if |Text(lines)| <= limit {
      m := |lines|;
      assert lines[..m] == lines;
    } else {
      assert lines != [];
      var front := lines[..|lines| - 1];
      m := LongestFitExists(front, limit);
      assert forall k | 0 <= k <= |front| :: front[..k] == lines[..k];
      assert lines[..|lines|] == lines;
    }
  }

  /** What can be read of a key after any sequence of additions: the longest prefix of the lines added to
      it whose newline-terminated total fits in 31999 characters. */
  lemma ReadableLines(settings: seq<Setting>, key: string) returns (m: nat)
    requires forall i | 0 <= i < |settings| :: '\n' !in settings[i].line
    ensures LongestFit(LinesOf(settings, key), CFG_MAX - 1, m)
    ensures Lines(Stored(AddAll(map[], settings), key)) == LinesOf(settings, key)[..m]
  {
    BufferIsOwnText(settings, key);
    LinesOfNewlineFree(settings, key);
    m := LongestFitExists(LinesOf(settings, key), CFG_MAX - 1);
    CutReadsBackPrefix(LinesOf(settings, key), CFG_MAX - 1, m);
  }

  lemma {:induction false} LinesOfNewlineFree(settings: seq<Setting>, key: string)
    requires forall i | 0 <= i < |settings| :: '\n' !in settings[i].line
    ensures NewlineFree(LinesOf(settings, key))
  {
    if settings != [] {
      LinesOfNewlineFree(settings[..|settings| - 1], key);
    }
  }
}
