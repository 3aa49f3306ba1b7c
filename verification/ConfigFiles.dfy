/** Configuration files as somebody writes them: line by line, with sections, settings and includes. What
    read_cfg of cfg.c makes of them is what one reads off the lines. */
module ConfigFiles {
  import opened CStrings
  import opened ConfigText
  import opened ConfigStore
  import opened ConfigReader

  datatype Line = Head(name: string) | Plain(text: string) | Inclusion(file: string) | Remote(where: string)
                | Bound(where: string) | Comment(text: string) | Blank

  function Rendered(l: Line): string {
    match l
    case Head(name) => "[" + name + "]"
    case Plain(text) => text
    case Inclusion(file) => ".include " + file
    case Remote(where) => ".config " + where
    case Bound(where) => ".bind " + where
    case Comment(text) => "#" + text
    case Blank => ""
  }

  /** A line that fits in the buffer with its ending of up to two characters, whose section fits too, and that is
      no setting that looks like something else. */
  predicate Sound(l: Line) {
    && |Rendered(l)| + 2 < LINE_BUFFER
    && '\n' !in Rendered(l) && '\r' !in Rendered(l) && NoNul(Rendered(l))
    && match l
       case Head(name) => |name| < CATEGORY_BUFFER && ']' !in name
       case Plain(text) => text != "" && text[0] !in "[#" && !IsDirective(text)
       case _ => true
  }

  predicate IsDirective(text: string) {
    ".bind " <= text || ".config " <= text || ".include " <= text
  }

  predicate AllSound(lines: seq<Line>) {
    forall i | 0 <= i < |lines| :: Sound(lines[i])
  }

  /** Files with the lines they are to hold. */
  type Book = map<string, seq<Line>>

  predicate SoundBook(book: Book) {
    forall file | file in book :: AllSound(book[file])
  }

  predicate IsEnding(eol: string) {
    eol == "\n" || eol == "\r\n"
  }

  function FileText(lines: seq<Line>, eol: string): string {
    if lines == [] then "" else Rendered(lines[0]) + eol + FileText(lines[1..], eol)
  }

  function Written(book: Book, eol: string): Files {
    map file | file in book :: FileText(book[file], eol)
  }

  // ---------- what one reads off the lines

  /** The file a line puts in its place. */
  function Names(l: Line, isFetch: string -> bool): Option<string> {
    match l
    case Inclusion(file) => Some(file)
    case Remote(where) => if isFetch(".config " + where) then Some("cfg.cache") else None
    case _ => None
  }

  ghost predicate NoCycle(book: Book, isFetch: string -> bool, rank: map<string, nat>) {
    && rank.Keys == book.Keys
    && forall file, i | file in book && 0 <= i < |book[file]| ::
         var t := Names(book[file][i], isFetch);
         t.Some? && t.value in book ==> rank[t.value] < rank[file]
  }

  /** The settings of the lines of a file from line i on, read in a category: a section changes the category of
      the lines after it, a setting is one, and an included file's settings come in its place, read in the
      category of the include. */
  ghost function Listed(book: Book, isFetch: string -> bool, rank: map<string, nat>, category: string, file: string,
                        i: nat): seq<Setting>
    requires NoCycle(book, isFetch, rank) && file in book && i <= |book[file]|
    decreases rank[file], |book[file]| - i
  {
    if i == |book[file]| then []
    else
      match book[file][i]
      case Head(name) => Listed(book, isFetch, rank, name, file, i + 1)
      case Plain(text) => [Setting(category, text)] + Listed(book, isFetch, rank, category, file, i + 1)
      case _ => Included(book, isFetch, rank, category, file, i) + Listed(book, isFetch, rank, category, file, i + 1)
  }

  ghost function Included(book: Book, isFetch: string -> bool, rank: map<string, nat>, category: string, file: string,
                          i: nat): seq<Setting>
    requires NoCycle(book, isFetch, rank) && file in book && i < |book[file]|
    decreases rank[file], 0
  {
    var t := Names(book[file][i], isFetch);
    if t.Some? && t.value in book then Listed(book, isFetch, rank, category, t.value, 0) else []
  }

  // ---------- the lines in the file

  function Terminated(lines: seq<Line>, eol: string): (s: seq<string>)
    ensures |s| == |lines|
  {
    seq(|lines|, i requires 0 <= i < |lines| => Rendered(lines[i]) + eol)
  }

  lemma {:induction false} ChunksOfText(lines: seq<Line>, eol: string)
    requires AllSound(lines) && IsEnding(eol)
    ensures Chunks(FileText(lines, eol), LINE_BUFFER - 1) == Terminated(lines, eol)
  {
    hide Rendered, Chunks, Sound;
    if lines == [] {
      NoChunks(LINE_BUFFER - 1);
    } else {
      ChunksOfText(lines[1..], eol);
      SoundFits(lines[0]);
      FirstChunk(Rendered(lines[0]), eol, FileText(lines[1..], eol));
      assert Terminated(lines, eol) == [Rendered(lines[0]) + eol] + Terminated(lines[1..], eol);
    }
  }

  lemma SoundFits(l: Line)
    requires Sound(l)
    ensures '\n' !in Rendered(l) && |Rendered(l)| + 2 < LINE_BUFFER
  {
    hide Rendered;
  }

  lemma FirstChunk(line: string, eol: string, rest: string)
    requires '\n' !in line && |line| + 2 < LINE_BUFFER && IsEnding(eol)
    ensures Chunks(line + eol + rest, LINE_BUFFER - 1) == [line + eol] + Chunks(rest, LINE_BUFFER - 1)
  {
    var s, k := line + eol + rest, |line| + |eol| - 1;
    assert forall i | 0 <= i < |line| :: s[i] == line[i] && s[i] in line;
    assert s[k] == '\n' && '\n' !in s[..k];
    IndexOfIs(s, '\n', k);
    assert s[..k + 1] == line + eol && s[k + 1..] == rest;
    assert Take(s, k + 1) == line + eol && Take(line + eol, LINE_BUFFER - 1) == line + eol;
  }

  lemma ChompsToRendered(l: Line, eol: string)
    requires Sound(l) && IsEnding(eol)
    ensures Chomp(Rendered(l) + eol) == Rendered(l)
  {
    hide Rendered, Chomp;
    ChompKeepsLine(Rendered(l));
  }

  /** Every line is taken for what it was meant to be. */
  lemma RenderedReads(l: Line, isFetch: string -> bool)
    requires Sound(l)
    ensures Parse(Rendered(l), isFetch) ==
            match l
            case Head(name) => Section(name)
            case Plain(text) => Entry
            case Inclusion(file) => Include(file)
            case Remote(where) => if isFetch(".config " + where) then Fetch else Nothing
            case Bound(where) => Bind
            case _ => Nothing
  {
    hide Parse;
    match l {
      case Head(name) =>
        ParseForms(isFetch, name, "", "");
        assert "[" + name + "]" + "" == "[" + name + "]";
      case Plain(text) => PlainReads(text, isFetch);
      case Inclusion(name) => ParseForms(isFetch, name, "", "");
      case Remote(name) => ParseForms(isFetch, name, "", "");
      case Bound(name) => ParseForms(isFetch, name, "", "");
      case Comment(name) => ParseForms(isFetch, name, "", "");
      case Blank => ParseForms(isFetch, "", "", "");
    }
  }

  lemma PlainReads(text: string, isFetch: string -> bool)
    requires text != "" && text[0] !in "[#" && !IsDirective(text)
    ensures Parse(text, isFetch) == Entry
  {
    assert text[0] != '[' && text[0] != '#';
  }

  lemma BufferedIsTerminated(book: Book, eol: string, file: string)
    requires SoundBook(book) && IsEnding(eol) && file in book
    ensures BufferedLines(Written(book, eol), file) == Terminated(book[file], eol)
  {
    hide FileText, Terminated, Chunks;
    ChunksOfText(book[file], eol);
  }

  lemma LineReads(book: Book, eol: string, isFetch: string -> bool, file: string, i: nat)
    requires SoundBook(book) && IsEnding(eol) && file in book && i < |book[file]|
    ensures file in Written(book, eol) && |BufferedLines(Written(book, eol), file)| == |book[file]|
    ensures Chomp(BufferedLines(Written(book, eol), file)[i]) == Rendered(book[file][i])
    ensures Target(Parse(Rendered(book[file][i]), isFetch)) == Names(book[file][i], isFetch)
  {
    hide Chomp, Rendered, Parse, BufferedLines, FileText;
    BufferedIsTerminated(book, eol, file);
    assert AllSound(book[file]);
    ChompsToRendered(book[file][i], eol);
    RenderedReads(book[file][i], isFetch);
  }

  lemma WrittenIsAcyclic(book: Book, eol: string, isFetch: string -> bool, rank: map<string, nat>)
    requires SoundBook(book) && IsEnding(eol) && NoCycle(book, isFetch, rank)
    ensures Acyclic(Written(book, eol), isFetch, rank)
  {
    hide Chomp, Rendered, Parse, BufferedLines, FileText, Target, Names, SoundBook;
    var files := Written(book, eol);
    assert files.Keys == book.Keys;
    forall file, i | file in files && 0 <= i < |BufferedLines(files, file)|
      ensures var t := Target(Parse(Chomp(BufferedLines(files, file)[i]), isFetch));
              t.Some? && t.value in files ==> rank[t.value] < rank[file]
    {
      BufferedIsTerminated(book, eol, file);
      LineReads(book, eol, isFetch, file, i);
    }
  }

  // ---------- what read_cfg makes of them

  /** The settings of the lines that are left, read in the category they are in, are what is still to come. */
  lemma {:induction false} ListedFrom(book: Book, eol: string, isFetch: string -> bool, rank: map<string, nat>,
                                      category: string, file: string, k: nat, here: string)
    requires SoundBook(book) && IsEnding(eol) && NoCycle(book, isFetch, rank) && file in book && k <= |book[file]|
    requires Acyclic(Written(book, eol), isFetch, rank)
    requires |BufferedLines(Written(book, eol), file)| == |book[file]|
    requires |here| < CATEGORY_BUFFER
    requires here == CategoryAt(BufferedLines(Written(book, eol), file), category, isFetch, k)
    ensures Settings(Written(book, eol), isFetch, rank, category, file)
            == SettingsTo(Written(book, eol), isFetch, rank, category, file, k)
               + Listed(book, isFetch, rank, here, file, k)
    decreases rank[file], |book[file]| - k
  {
    hide SettingsTo, CategoryAt, Written, BufferedLines, Listed, Included, Acyclic, Rendered, Chomp, Parse,
      LineSettings, SoundBook, NoCycle;
    var files, n := Written(book, eol), |book[file]|;
    ListedUnfolds(book, isFetch, rank, here, file, k);
    if k < n {
      var l := book[file][k];
      LineReads(book, eol, isFetch, file, k);
      SettingsNext(files, isFetch, rank, category, file, k);
      LineSettingsListed(book, eol, isFetch, rank, here, file, k);
      LineChanges(book, isFetch, file, k, here);
      var next := if l.Head? then l.name else here;
      ListedFrom(book, eol, isFetch, rank, category, file, k + 1, next);
      Regroup(SettingsTo(files, isFetch, rank, category, file, k),
              LineSettings(files, isFetch, rank, here, Rendered(l)),
              Listed(book, isFetch, rank, next, file, k + 1));
    }
  }

  lemma Regroup<T>(a: seq<T>, b: seq<T>, c: seq<T>)
    ensures (a + b) + c == a + (b + c)
  {
  }

  lemma ListedUnfolds(book: Book, isFetch: string -> bool, rank: map<string, nat>, category: string, file: string,
                      i: nat)
    requires NoCycle(book, isFetch, rank) && file in book && i <= |book[file]|
    ensures i == |book[file]| ==> Listed(book, isFetch, rank, category, file, i) == []
    ensures i < |book[file]| ==>
              var l := book[file][i];
              Listed(book, isFetch, rank, category, file, i)
              == (if l.Plain? then [Setting(category, l.text)] else Included(book, isFetch, rank, category, file, i))
                 + Listed(book, isFetch, rank, if l.Head? then l.name else category, file, i + 1)
  {
  }

  lemma LineChanges(book: Book, isFetch: string -> bool, file: string, k: nat, here: string)
    requires SoundBook(book) && file in book && k < |book[file]| && |here| < CATEGORY_BUFFER
    ensures var l := book[file][k];
            var next := match Parse(Rendered(l), isFetch) case Section(name) => name case _ => here;
            next == (if l.Head? then l.name else here) && |next| < CATEGORY_BUFFER
  {
    hide Parse, Rendered;
    assert AllSound(book[file]);
    RenderedReads(book[file][k], isFetch);
  }

  /** The settings of one line. */
  lemma {:induction false} LineSettingsListed(book: Book, eol: string, isFetch: string -> bool, rank: map<string, nat>,
                                              here: string, file: string, k: nat)
    requires SoundBook(book) && IsEnding(eol) && NoCycle(book, isFetch, rank) && file in book && k < |book[file]|
    requires Acyclic(Written(book, eol), isFetch, rank) && |here| < CATEGORY_BUFFER
    ensures var l := book[file][k];
            LineSettings(Written(book, eol), isFetch, rank, here, Rendered(l))
            == if l.Plain? then [Setting(here, l.text)] else Included(book, isFetch, rank, here, file, k)
    decreases rank[file], 0
  {
    hide Parse, SettingsTo, Listed, Acyclic, FileText, BufferedLines, Chomp;
    var files, l := Written(book, eol), book[file][k];
    assert AllSound(book[file]);
    RenderedReads(l, isFetch);
    LineReads(book, eol, isFetch, file, k);
    var t := Names(l, isFetch);
    assert files.Keys == book.Keys && Take(here, CATEGORY_BUFFER - 1) == here;
    if t.Some? && t.value in book { FileListed(book, eol, isFetch, rank, here, t.value); }
  }

  lemma {:induction false} FileListed(book: Book, eol: string, isFetch: string -> bool, rank: map<string, nat>,
                                      category: string, file: string)
    requires SoundBook(book) && IsEnding(eol) && NoCycle(book, isFetch, rank) && file in book
    requires Acyclic(Written(book, eol), isFetch, rank) && |category| < CATEGORY_BUFFER
    ensures Settings(Written(book, eol), isFetch, rank, category, file)
            == Listed(book, isFetch, rank, category, file, 0)
    decreases rank[file], |book[file]| + 1
  {
    hide Parse, Listed, Acyclic, FileText, BufferedLines, Chomp, Written;
    BufferedIsTerminated(book, eol, file);
    ListedFrom(book, eol, isFetch, rank, category, file, 0, category);
    assert [] + Listed(book, isFetch, rank, category, file, 0) == Listed(book, isFetch, rank, category, file, 0);
  }

  /** Files written line by line amount to what one reads off the lines. */
  lemma SettingsListed(book: Book, eol: string, isFetch: string -> bool, rank: map<string, nat>, cat: string,
                       file: string)
    requires SoundBook(book) && IsEnding(eol) && NoCycle(book, isFetch, rank)
    ensures Acyclic(Written(book, eol), isFetch, rank)
    ensures SettingsOf(Written(book, eol), isFetch, rank, cat, Some(file))
            == if file in book then Listed(book, isFetch, rank, Take(cat, CATEGORY_BUFFER - 1), file, 0) else []
  {
    hide Listed, Acyclic, FileText, NoCycle, SoundBook, Settings;
    WrittenIsAcyclic(book, eol, isFetch, rank);
    if file in book { FileListed(book, eol, isFetch, rank, Take(cat, CATEGORY_BUFFER - 1), file); }
  }

  lemma {:induction false} TextNoNul(lines: seq<Line>, eol: string)
    requires AllSound(lines) && IsEnding(eol)
    ensures NoNul(FileText(lines, eol))
  {
    hide Rendered;
    if lines != [] {
      assert Sound(lines[0]);
      TextNoNul(lines[1..], eol);
    }
  }

  lemma WrittenIsText(book: Book, eol: string)
    requires SoundBook(book) && IsEnding(eol)
    ensures TextFiles(Written(book, eol))
  {
    hide FileText, AllSound;
    forall file | file in book ensures NoNul(FileText(book[file], eol)) {
      TextNoNul(book[file], eol);
    }
  }

  /** From the lines somebody wrote to the lines a test reads: of one key, those listed under it, as many as fit in
      its buffer, each cut to the reader's buffer. */
  method ReloadWritten(store: Store, cat: string, file: string, key: string, n: nat, book: Book, eol: string,
                       isFetch: string -> bool, ghost rank: map<string, nat>)
    returns (lines: seq<string>, ghost m: nat)
    requires store.Valid() && SoundBook(book) && IsEnding(eol) && NoCycle(book, isFetch, rank)
    requires file in book && n > 0
    modifies store, store.buffers
    ensures store.Valid() && fresh(store.buffers)
    ensures var all := LinesOf(Listed(book, isFetch, rank, Take(cat, CATEGORY_BUFFER - 1), file, 0), key);
            && LongestFit(all, CFG_MAX - 1, m) && |lines| == m
            && forall i | 0 <= i < m :: lines[i] == Take(all[i], n - 1)
  {
    hide Listed, Acyclic, SoundBook, Written, NoCycle, LinesOf, SettingsOf, TextFiles, Store.Valid;
    SettingsListed(book, eol, isFetch, rank, cat, file);
    WrittenIsText(book, eol);
    lines, m := Reload(store, cat, Some(file), key, n, Written(book, eol), isFetch, rank);
  }
}
