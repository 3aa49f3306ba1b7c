/** read_cfg of cfg.c: sections, includes and plain lines, read through a bounded line buffer. */
module ConfigReader {
  import opened CStrings
  import opened ConfigText
  import opened ConfigStore

  // ---------- lines of a file

  const LINE_BUFFER := 1000
  const CATEGORY_BUFFER := 100

  /** The piece fgets reads from what is left of a file: up to a newline, or `size` characters. */
  function FirstPiece(content: string, size: nat): string {
    Take(Take(content, IndexOf(content, '\n') + 1), size)
  }

  /** The pieces fgets reads with a buffer of size + 1 characters: up to a newline, or `size` characters. */
  function Chunks(content: string, size: nat): (chunks: seq<string>)
    requires size > 0
    decreases |content|
  {
    if content == "" then []
    else
      var chunk := FirstPiece(content, size);
      [chunk] + Chunks(content[|chunk|..], size)
  }

  /** The lines of a file, each with its newline (which the last may lack). */
  function FileLines(content: string): seq<string>
    decreases |content|
  {
    if content == "" then []
    else
      var k := Take(content, IndexOf(content, '\n') + 1);
      [k] + FileLines(content[|k|..])
  }

  /** What fgets reads are the lines of the file exactly when each fits in the buffer. */
  lemma {:induction false} ChunksAreLines(content: string, size: nat)
    requires size > 0
    ensures Chunks(content, size) == FileLines(content)
            <==> forall i | 0 <= i < |FileLines(content)| :: |FileLines(content)[i]| <= size
    decreases |content|
  {
    if content != "" {
      var k := Take(content, IndexOf(content, '\n') + 1);
      var lines := FileLines(content);
      assert lines[0] == k && lines[1..] == FileLines(content[|k|..]);
      assert Chunks(content, size)[0] == Take(k, size);
      if |k| <= size {
        ChunksAreLines(content[|k|..], size);
        assert Chunks(content, size)[1..] == Chunks(content[|k|..], size);
        assert forall i | 0 < i < |lines| :: lines[i] == lines[1..][i - 1];
        assert forall i | 0 <= i < |lines[1..]| :: lines[1..][i] == lines[i + 1];
      }
    }
  }

  function Concat(pieces: seq<string>): string {
    if pieces == [] then "" else pieces[0] + Concat(pieces[1..])
  }

  /** A longer line is not cut off but comes in pieces: nothing of the file is lost, no piece is too long, and a
      piece ends with its newline, or is as long as can be, or is the last. */
  lemma {:induction false} ChunksLoseNothing(content: string, size: nat)
    requires size > 0
    ensures Concat(Chunks(content, size)) == content
    ensures forall i | 0 <= i < |Chunks(content, size)| :: IsChunk(Chunks(content, size), size, i)
    decreases |content|
  {
    hide Chunks, IsChunk, FirstPiece;
    NoChunks(size);
    if content != "" {
      var chunk := FirstPiece(content, size);
      ChunksNext(content, size);
      FirstPieceIs(content, size);
      var rest := content[|chunk|..];
      ChunksLoseNothing(rest, size);
      ChunksAre(chunk, Chunks(rest, size), rest, size);
      assert content == chunk + rest;
    }
  }

  predicate IsChunk(chunks: seq<string>, size: nat, i: nat)
    requires i < |chunks|
  {
    var c := chunks[i];
    && 0 < |c| <= size && '\n' !in c[..|c| - 1]
    && (i + 1 < |chunks| ==> c[|c| - 1] == '\n' || |c| == size)
  }

  lemma NoChunks(size: nat)
    requires size > 0
    ensures Chunks("", size) == []
  {
  }

  lemma ChunksNext(content: string, size: nat)
    requires size > 0 && content != ""
    ensures var chunk := FirstPiece(content, size);
            0 < |chunk| <= |content| && Chunks(content, size) == [chunk] + Chunks(content[|chunk|..], size)
  {
  }

  lemma FirstPieceIs(content: string, size: nat)
    requires size > 0 && content != ""
    ensures var chunk := FirstPiece(content, size);
            && chunk <= content && 0 < |chunk| <= size && '\n' !in chunk[..|chunk| - 1]
            && (|chunk| < |content| ==> chunk[|chunk| - 1] == '\n' || |chunk| == size)
  {
    hide IndexOf;
    var k, chunk := IndexOf(content, '\n'), FirstPiece(content, size);
    var m := |chunk|;
    assert chunk == content[..m] && m <= k + 1;
    forall j | 0 <= j < m - 1 ensures chunk[j] != '\n' {
      assert content[..k][j] == content[j];
    }
  }

  lemma ChunksAre(chunk: string, more: seq<string>, rest: string, size: nat)
    requires 0 < |chunk| <= size && '\n' !in chunk[..|chunk| - 1]
    requires rest != "" ==> chunk[|chunk| - 1] == '\n' || |chunk| == size
    requires Concat(more) == rest && forall i | 0 <= i < |more| :: IsChunk(more, size, i)
    ensures Concat([chunk] + more) == chunk + rest
    ensures forall i | 0 <= i < |[chunk] + more| :: IsChunk([chunk] + more, size, i)
  {
    var all := [chunk] + more;
    assert all[1..] == more;
    if more != [] { assert IsChunk(more, size, 0) && Concat(more) == more[0] + Concat(more[1..]); }
    forall i | 0 <= i < |all| ensures IsChunk(all, size, i) {
      if i > 0 { assert IsChunk(more, size, i - 1); }
    }
  }

  function CutAt(s: string, c: char): (r: string)
    ensures c !in r && r <= s
  {
    s[..IndexOf(s, c)]
  }

  /** Removes the line ending. */
  function Chomp(s: string): string {
    CutAt(CutAt(s, '\n'), '\r')
  }

  /** Nothing else: a line comes out as it is, whichever way it ends. */
  lemma ChompKeepsLine(line: string)
    requires '\n' !in line && '\r' !in line
    ensures Chomp(line) == Chomp(line + "\n") == Chomp(line + "\r\n") == line
  {
    assert line[..|line|] == line && (line + "\n")[..|line|] == line;
    assert (line + "\r\n")[..|line| + 1] == line + "\r" && (line + "\r")[..|line|] == line;
    IndexOfIs(line, '\n', |line|);
    IndexOfIs(line, '\r', |line|);
    IndexOfIs(line + "\n", '\n', |line|);
    IndexOfIs(line + "\r\n", '\n', |line| + 1);
    IndexOfIs(line + "\r", '\r', |line|);
  }

  // ---------- what a line says

  datatype Directive = Section(name: string) | Bind | Fetch | Include(file: string) | Entry | Nothing

  /** isFetch says of a .config line whether host and port could be read from it. */
  function Parse(b: string, isFetch: string -> bool): Directive {
    if b != "" && b[0] == '[' then Section(CutAt(Take(b[1..], CATEGORY_BUFFER - 1), ']'))
    else if ".bind " <= b then Bind
    else if ".config " <= b then (if isFetch(b) then Fetch else Nothing)
    else if ".include " <= b then Include(b[9..])
    else if b != "" && b[0] != '#' then Entry
    else Nothing
  }

  /** Every form a line may take is recognised for what it is: a section up to its bracket, in as far as its
      name fits in the buffer; an include with the file's name as it stands; comments and empty lines; and
      everything else that does not begin like one of these. */
  lemma ParseForms(isFetch: string -> bool, name: string, rest: string, line: string)
    ensures |name| < CATEGORY_BUFFER && ']' !in name ==> Parse("[" + name + "]" + rest, isFetch) == Section(name)
    ensures Parse(".include " + name, isFetch) == Include(name)
    ensures Parse(".bind " + name, isFetch) == Bind
    ensures Parse(".config " + name, isFetch) == if isFetch(".config " + name) then Fetch else Nothing
    ensures Parse("", isFetch) == Parse("#" + name, isFetch) == Nothing
    ensures line != "" && line[0] !in "[.#" ==> Parse(line, isFetch) == Entry
  {
    var inc, config, bind := ".include ", ".config ", ".bind ";
    assert (inc + name)[1] == 'i' && (config + name)[1] == 'c' && bind[1] == 'b';
    assert (inc + name)[9..] == name;
    if |name| < CATEGORY_BUFFER && ']' !in name {
      var b := "[" + name + "]" + rest;
      assert b[1..] == name + "]" + rest;
      SectionName(name, rest);
    }
  }

  lemma SectionName(name: string, rest: string)
    requires |name| < CATEGORY_BUFFER && ']' !in name
    ensures CutAt(Take(name + "]" + rest, CATEGORY_BUFFER - 1), ']') == name
  {
    var s := Take(name + "]" + rest, CATEGORY_BUFFER - 1);
    assert s[..|name|] == name;
    IndexOfIs(s, ']', |name|);
  }

  /** The file a line makes read_cfg read in its turn. */
  function Target(d: Directive): Option<string> {
    match d
    case Fetch => Some("cfg.cache")
    case Include(file) => Some(file)
    case _ => None
  }

  // ---------- the settings a file amounts to

  type Files = map<string, string>

  function BufferedLines(files: Files, file: string): seq<string>
    requires file in files
  {
    Chunks(files[file], LINE_BUFFER - 1)
  }

  /** No chain of includes leads back to where it started: every included file ranks below the includer. */
  ghost predicate Acyclic(files: Files, isFetch: string -> bool, rank: map<string, nat>) {
    && rank.Keys == files.Keys
    && forall file, i | file in files && 0 <= i < |BufferedLines(files, file)| ::
         var t := Target(Parse(Chomp(BufferedLines(files, file)[i]), isFetch));
         t.Some? && t.value in files ==> rank[t.value] < rank[file]
  }

  /** The category in force before line k: the last section opened by an earlier line of the same file, or
      the one the file was read with. */
  function CategoryAt(lines: seq<string>, category: string, isFetch: string -> bool, k: nat): string
    requires k <= |lines|
  {
    if k == 0 then category
    else
      match Parse(Chomp(lines[k - 1]), isFetch)
      case Section(name) => name
      case _ => CategoryAt(lines, category, isFetch, k - 1)
  }

  /** The settings of the first k lines of a file, with those of included files in their place. */
  ghost function SettingsTo(files: Files, isFetch: string -> bool, rank: map<string, nat>, category: string,
                            file: string, k: nat): seq<Setting>
    requires Acyclic(files, isFetch, rank) && file in files && k <= |BufferedLines(files, file)|
    decreases rank[file], k
  {
    if k == 0 then []
    else
      var lines := BufferedLines(files, file);
      var line := Chomp(lines[k - 1]);
      var here := CategoryAt(lines, category, isFetch, k - 1);
      var d := Parse(line, isFetch);
      SettingsTo(files, isFetch, rank, category, file, k - 1) +
      (if d == Entry then [Setting(here, line)]
       else if Target(d).Some? && Target(d).value in files
       then Settings(files, isFetch, rank, Take(here, CATEGORY_BUFFER - 1), Target(d).value)
       else [])
  }

  ghost function Settings(files: Files, isFetch: string -> bool, rank: map<string, nat>, category: string,
                          file: string): seq<Setting>
    requires Acyclic(files, isFetch, rank) && file in files
    decreases rank[file] + 1, 0
  {
    SettingsTo(files, isFetch, rank, category, file, |BufferedLines(files, file)|)
  }

  /** The ranks only show that there is no cycle: any other ranks give the same settings. */
  lemma {:induction false} RanksDoNotMatter(files: Files, isFetch: string -> bool, rank: map<string, nat>,
                                            other: map<string, nat>, category: string, file: string, k: nat)
    requires Acyclic(files, isFetch, rank) && Acyclic(files, isFetch, other)
    requires file in files && k <= |BufferedLines(files, file)|
    ensures SettingsTo(files, isFetch, rank, category, file, k)
            == SettingsTo(files, isFetch, other, category, file, k)
    decreases rank[file], k
  {
    if k > 0 {
      RanksDoNotMatter(files, isFetch, rank, other, category, file, k - 1);
      var lines := BufferedLines(files, file);
      var t := Target(Parse(Chomp(lines[k - 1]), isFetch));
      if t.Some? && t.value in files {
        var here := CategoryAt(lines, category, isFetch, k - 1);
        RanksDoNotMatter(files, isFetch, rank, other, Take(here, CATEGORY_BUFFER - 1), t.value,
                         |BufferedLines(files, t.value)|);
      }
    }
  }

  /** What an included file opens does not leak back: the settings made by lines of the file itself are in
      the category its own lines put them in, whatever the other files contain. */
  lemma OwnLinesKeepCategory(files: Files, isFetch: string -> bool, rank: map<string, nat>, category: string,
                             file: string, i: nat, k: nat)
    requires Acyclic(files, isFetch, rank) && file in files && i < k <= |BufferedLines(files, file)|
    requires Parse(Chomp(BufferedLines(files, file)[i]), isFetch) == Entry
    ensures var lines := BufferedLines(files, file);
            SettingsTo(files, isFetch, rank, category, file, i) +
              [Setting(CategoryAt(lines, category, isFetch, i), Chomp(lines[i]))]
            <= SettingsTo(files, isFetch, rank, category, file, k)
    decreases k
  {
    hide Chunks, Parse, CutAt, Chomp, CategoryAt, Acyclic, BufferedLines;
    if i + 1 < k {
      OwnLinesKeepCategory(files, isFetch, rank, category, file, i, k - 1);
    }
  }

  ghost predicate NoNewlines(settings: seq<Setting>) {
    forall i | 0 <= i < |settings| :: '\n' !in settings[i].line
  }

  /** No setting contains a newline. */
  lemma {:induction false} SettingsHaveNoNewline(files: Files, isFetch: string -> bool, rank: map<string, nat>,
                                                 category: string, file: string, k: nat)
    requires Acyclic(files, isFetch, rank) && file in files && k <= |BufferedLines(files, file)|
    ensures NoNewlines(SettingsTo(files, isFetch, rank, category, file, k))
    decreases rank[file], k
  {
    hide Chunks, CategoryAt, Parse, CutAt, Chomp;
    if k > 0 {
      SettingsHaveNoNewline(files, isFetch, rank, category, file, k - 1);
      var lines := BufferedLines(files, file);
      ChompHasNoNewline(lines[k - 1]);
      var t := Target(Parse(Chomp(lines[k - 1]), isFetch));
      var here := CategoryAt(lines, category, isFetch, k - 1);
      if t.Some? && t.value in files {
        SettingsHaveNoNewline(files, isFetch, rank, Take(here, CATEGORY_BUFFER - 1), t.value,
                              |BufferedLines(files, t.value)|);
      }
      SettingsNext(files, isFetch, rank, category, file, k - 1);
      assert NoNewlines(LineSettings(files, isFetch, rank, here, Chomp(lines[k - 1])));
    }
  }

  lemma ChompHasNoNewline(s: string)
    ensures '\n' !in Chomp(s)
  {
    assert forall c | c in Chomp(s) :: c in CutAt(s, '\n');
  }

  // ---------- the code

  ghost predicate TextFiles(files: Files) {
    forall file | file in files :: NoNul(files[file])
  }

  /** The settings of a file that may not exist, read with a category of any length. */
  ghost function SettingsOf(files: Files, isFetch: string -> bool, rank: map<string, nat>, cat: string,
                            filename: Option<string>): seq<Setting>
    requires Acyclic(files, isFetch, rank)
  {
    if filename.Some? && filename.value in files
    then Settings(files, isFetch, rank, Take(cat, CATEGORY_BUFFER - 1), filename.value)
    else []
  }

  ghost function RankOf(rank: map<string, nat>, filename: Option<string>): nat {
    if filename.Some? && filename.value in rank then rank[filename.value] + 1 else 0
  }

  /** Adds the settings of a file, in order, to the store. */
  method ReadCfg(store: Store, cat: string, filename: Option<string>, files: Files, isFetch: string -> bool,
                 ghost rank: map<string, nat>)
    requires store.Valid() && Acyclic(files, isFetch, rank) && TextFiles(files)
    modifies store, store.buffers
    ensures store.Valid() && fresh(store.buffers - old(store.buffers))
    ensures store.table == AddAll(old(store.table), SettingsOf(files, isFetch, rank, cat, filename))
    decreases RankOf(rank, filename), 0
  {
    if filename == None { return; }
    var file := filename.value;
    if file !in files { return; }
    var category := Take(cat, CATEGORY_BUFFER - 1);
    ReadLines(store, category, file, files, isFetch, rank);
  }

  /** After k lines: what is left of the file, the category in force, and all their settings added. */
  ghost predicate Reading(store: Store, was: map<string, string>, files: Files, isFetch: string -> bool,
                          rank: map<string, nat>, start: string, file: string, category: string, rest: string, k: nat)
    reads store, store.buffers
  {
    && store.Valid() && Acyclic(files, isFetch, rank) && TextFiles(files) && file in files
    && k <= |BufferedLines(files, file)| && NoNul(rest)
    && Chunks(rest, LINE_BUFFER - 1) == BufferedLines(files, file)[k..]
    && category == CategoryAt(BufferedLines(files, file), start, isFetch, k)
    && store.table == AddAll(was, SettingsTo(files, isFetch, rank, start, file, k))
  }

  /** The loop over the lines of a file. */
  method ReadLines(store: Store, start: string, file: string, files: Files, isFetch: string -> bool,
                   ghost rank: map<string, nat>)
    requires store.Valid() && Acyclic(files, isFetch, rank) && TextFiles(files) && file in files
    modifies store, store.buffers
    ensures store.Valid() && fresh(store.buffers - old(store.buffers))
    ensures store.table == AddAll(old(store.table), Settings(files, isFetch, rank, start, file))
    decreases rank[file], 3
  {
    ghost var was := store.table;
    var category, rest := start, files[file];
    ghost var k := 0;
    while rest != ""
      invariant Reading(store, was, files, isFetch, rank, start, file, category, rest, k)
      invariant fresh(store.buffers - old(store.buffers))
      decreases |rest|
    {
      category, rest := ReadNext(store, was, start, file, files, isFetch, rank, category, rest, k);
      k := k + 1;
    }
  }

  /** The body of the loop: reads one line and acts on it. */
  method ReadNext(store: Store, ghost was: map<string, string>, ghost start: string, ghost file: string, files: Files,
                  isFetch: string -> bool, ghost rank: map<string, nat>, category: string, rest: string, ghost k: nat)
    returns (category': string, rest': string)
    requires Reading(store, was, files, isFetch, rank, start, file, category, rest, k) && rest != ""
    modifies store, store.buffers
    ensures fresh(store.buffers - old(store.buffers)) && |rest'| < |rest|
    ensures Reading(store, was, files, isFetch, rank, start, file, category', rest', k + 1)
    decreases rank[file], 2
  {
    ghost var lines := BufferedLines(files, file);
    var b := FirstPiece(rest, LINE_BUFFER - 1);
    NextChunk(lines, k, rest);
    SettingsNext(files, isFetch, rank, start, file, k);
    AddAllConcat(was, SettingsTo(files, isFetch, rank, start, file, k),
                 LineSettings(files, isFetch, rank, category, Chomp(b)));
    rest' := rest[|b|..];
    category' := ReadLine(store, category, Chomp(b), files, isFetch, file, rank);
  }

  lemma NextChunk(lines: seq<string>, k: nat, rest: string)
    requires k <= |lines| && rest != "" && NoNul(rest) && Chunks(rest, LINE_BUFFER - 1) == lines[k..]
    ensures var b := FirstPiece(rest, LINE_BUFFER - 1);
            && k < |lines| && lines[k] == b && NoNul(Chomp(b)) && NoNul(rest[|b|..])
            && Chunks(rest[|b|..], LINE_BUFFER - 1) == lines[k + 1..]
  {
    var b := FirstPiece(rest, LINE_BUFFER - 1);
    assert lines[k..][0] == b && lines[k..][1..] == lines[k + 1..];
    assert forall c | c in Chomp(b) :: c in rest;
  }

  /** One more line adds its settings after those before it. */
  lemma SettingsNext(files: Files, isFetch: string -> bool, rank: map<string, nat>, category: string,
                     file: string, k: nat)
    requires Acyclic(files, isFetch, rank) && file in files && k < |BufferedLines(files, file)|
    ensures var lines := BufferedLines(files, file);
            var here, line := CategoryAt(lines, category, isFetch, k), Chomp(lines[k]);
            && SettingsTo(files, isFetch, rank, category, file, k + 1)
               == SettingsTo(files, isFetch, rank, category, file, k) +
                  LineSettings(files, isFetch, rank, here, line)
            && CategoryAt(lines, category, isFetch, k + 1)
               == match Parse(line, isFetch) case Section(name) => name case _ => here
  {
  }

  /** The settings of one line. */
  ghost function LineSettings(files: Files, isFetch: string -> bool, rank: map<string, nat>, category: string,
                              line: string): seq<Setting>
    requires Acyclic(files, isFetch, rank)
  {
    var d := Parse(line, isFetch);
    if d == Entry then [Setting(category, line)]
    else SettingsOf(files, isFetch, rank, category, Target(d))
  }

  /** Acts on one line, and gives the category the next one is in. */
  method ReadLine(store: Store, category: string, b: string, files: Files, isFetch: string -> bool,
                  ghost file: string, ghost rank: map<string, nat>) returns (next: string)
    requires store.Valid() && Acyclic(files, isFetch, rank) && TextFiles(files) && NoNul(b) && file in files
    requires var t := Target(Parse(b, isFetch)); t.Some? && t.value in files ==> rank[t.value] < rank[file]
    modifies store, store.buffers
    ensures store.Valid() && fresh(store.buffers - old(store.buffers))
    ensures store.table == AddAll(old(store.table), LineSettings(files, isFetch, rank, category, b))
    ensures next == match Parse(b, isFetch) case Section(name) => name case _ => category
    decreases rank[file], 1
  {
    next := category;
    match Parse(b, isFetch) {
      case Section(name) => next := name;
      case Bind =>
      case Fetch => ReadCfg(store, category, Some("cfg.cache"), files, isFetch, rank);
      case Include(f) => ReadCfg(store, category, Some(f), files, isFetch, rank);
      case Entry =>
        store.AddCfg(category, b);
        AddOne(old(store.table), Setting(category, b));
      case Nothing =>
    }
  }

  lemma AddOne(table: map<string, string>, s: Setting)
    ensures AddAll(table, [s]) == Add(table, s)
  {
    assert [s][..0] == [] && AddAll(table, []) == table;
  }

  // ---------- what the tests then see

  /** Reading a file into an empty store makes readable, of each key, the longest prefix of its settings
      that fits: what is included counts in its place, and nothing is cut in the middle. */
  lemma ReadableSettings(files: Files, isFetch: string -> bool, rank: map<string, nat>, cat: string,
                         filename: Option<string>, key: string) returns (m: nat)
    requires Acyclic(files, isFetch, rank)
    ensures var lines := LinesOf(SettingsOf(files, isFetch, rank, cat, filename), key);
            && LongestFit(lines, CFG_MAX - 1, m)
            && Lines(Stored(AddAll(map[], SettingsOf(files, isFetch, rank, cat, filename)), key)) == lines[..m]
  {
    if filename.Some? && filename.value in files {
      var file := filename.value;
      SettingsHaveNoNewline(files, isFetch, rank, Take(cat, CATEGORY_BUFFER - 1), file,
                            |BufferedLines(files, file)|);
    }
    m := ReadableLines(SettingsOf(files, isFetch, rank, cat, filename), key);
  }

  /** One pass: the store is cleared, the configuration read, and a key's settings read back. */
  method Reload(store: Store, cat: string, filename: Option<string>, key: string, n: nat, files: Files,
                isFetch: string -> bool, ghost rank: map<string, nat>)
    returns (lines: seq<string>, ghost m: nat)
    requires store.Valid() && Acyclic(files, isFetch, rank) && TextFiles(files) && n > 0
    modifies store, store.buffers
    ensures store.Valid() && fresh(store.buffers)
    ensures LongestFit(LinesOf(SettingsOf(files, isFetch, rank, cat, filename), key), CFG_MAX - 1, m)
    ensures |lines| == m
    ensures forall i | 0 <= i < m ::
              lines[i] == Take(LinesOf(SettingsOf(files, isFetch, rank, cat, filename), key)[i], n - 1)
  {
    m := ReadableSettings(files, isFetch, rank, cat, filename, key);
    store.ClearCfg();
    ReadCfg(store, cat, filename, files, isFetch, rank);
    lines := store.AllLines(key, n);
  }
}
