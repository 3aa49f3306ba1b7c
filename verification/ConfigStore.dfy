/** The configuration store of cfg.c: a list of keys, each with one buffer that lines are appended to. */
module ConfigStore {
  import opened CStrings
  import opened ConfigText

  class Config {
    const name: string
    const cfg: array<char>

    constructor (name: string)
      ensures this.name == name && fresh(cfg) && cfg.Length == CFG_MAX && CStr(cfg[..]) == ""
    {
      this.name := name;
      cfg := new char[CFG_MAX](_ => NUL);
      new;
      CStrIs(cfg[..], "");
    }
  }

  /** Every key of the table has its own entry in the list. */
  ghost predicate OnePerKey(conf: seq<Config>, table: map<string, string>) {
    && (forall i, j | 0 <= i < j < |conf| :: conf[i].name != conf[j].name)
    && (forall i | 0 <= i < |conf| :: conf[i].name in table)
    && (forall k | k in table :: exists i :: 0 <= i < |conf| && conf[i].name == k)
  }

  lemma OnePerKeyLink(conf: seq<Config>, table: map<string, string>, c: Config)
    requires OnePerKey(conf, table) && c.name !in table
    ensures OnePerKey([c] + conf, table[c.name := ""])
  {
    var longer, after := [c] + conf, table[c.name := ""];
    forall k | k in after ensures exists i :: 0 <= i < |longer| && longer[i].name == k {
      if k == c.name {
        assert longer[0].name == k;
      } else {
        var i :| 0 <= i < |conf| && conf[i].name == k;
        assert longer[i + 1].name == k;
      }
    }
  }

  /** Every entry has its own buffer, which holds what the table says. */
  ghost predicate Buffered(conf: seq<Config>, table: map<string, string>, buffers: set<array<char>>)
    reads buffers
  {
    && (forall i, j | 0 <= i < j < |conf| :: conf[i].cfg != conf[j].cfg)
    && (forall i | 0 <= i < |conf| ::
          conf[i].cfg in buffers && conf[i].name in table && Holds(conf[i].cfg, table[conf[i].name]))
  }

  ghost predicate Holds(cfg: array<char>, content: string)
    reads cfg
  {
    cfg.Length == CFG_MAX && CStr(cfg[..]) == content && |content| < CFG_MAX
  }

  lemma BufferedLink(conf: seq<Config>, table: map<string, string>, buffers: set<array<char>>, c: Config)
    requires Buffered(conf, table, buffers) && c.name !in table && c.cfg !in buffers && Holds(c.cfg, "")
    ensures Buffered([c] + conf, table[c.name := ""], buffers + {c.cfg})
  {
  }

  lemma BufferedUpdated(conf: seq<Config>, table: map<string, string>, buffers: set<array<char>>, at: nat,
                        content: string)
    requires OnePerKey(conf, table) && at < |conf| && conf[at].cfg in buffers && Holds(conf[at].cfg, content)
    requires forall i, j | 0 <= i < j < |conf| :: conf[i].cfg != conf[j].cfg
    requires forall i | 0 <= i < |conf| && i != at ::
               conf[i].cfg in buffers && conf[i].name in table && Holds(conf[i].cfg, table[conf[i].name])
    ensures OnePerKey(conf, table[conf[at].name := content])
    ensures Buffered(conf, table[conf[at].name := content], buffers)
  {
  }

  lemma AddIsUpdate(table: map<string, string>, name: string, line: string)
    ensures name in table ==> table[name := Packed(table[name], line)] == Add(table, Setting(name, line))
    ensures name !in table ==> table[name := ""][name := Packed("", line)] == Add(table, Setting(name, line))
  {
  }

  class Store {
    var conf: seq<Config>
    ghost var table: map<string, string>
    ghost var buffers: set<array<char>>

    ghost predicate Valid()
      reads this, buffers
    {
      OnePerKey(conf, table) && Buffered(conf, table, buffers)
    }

    constructor ()
      ensures Valid() && table == map[] && conf == [] && buffers == {}
    {
      conf, table, buffers := [], map[], {};
    }

    method Find(name: string) returns (at: nat)
      requires OnePerKey(conf, table)
      ensures at <= |conf| && (at < |conf| ==> conf[at].name == name)
      ensures at == |conf| <==> name !in table
    {
      at := 0;
      while at < |conf| && conf[at].name != name
        invariant at <= |conf| && forall i | 0 <= i < at :: conf[i].name != name
      {
        at := at + 1;
      }
    }

    /** Appends a line to the buffer of its key. */
    method AddCfg(name: string, line: string)
      requires Valid() && NoNul(line)
      modifies this, buffers
      ensures Valid() && fresh(buffers - old(buffers))
      ensures table == Add(old(table), Setting(name, line))
    {
      hide Add, Packed, OnePerKey, Holds;
      var at := Find(name);
      AddIsUpdate(table, name, line);
      if at == |conf| {
        Link(name);
        at := 0;
      }
      Append(at, line);
    }

    /** Puts a new, empty key in front. */
    method Link(name: string)
      requires Valid() && name !in table
      modifies this
      ensures Valid() && |conf| > 0 && conf[0].name == name && table == old(table)[name := ""]
      ensures fresh(buffers - old(buffers)) && fresh(conf[0].cfg)
    {
      hide CStr;
      var c := new Config(name);
      OnePerKeyLink(conf, table, c);
      BufferedLink(conf, table, buffers, c);
      conf, table, buffers := [c] + conf, table[name := ""], buffers + {c.cfg};
    }

    method Append(at: nat, line: string)
      requires Valid() && at < |conf| && NoNul(line)
      modifies conf[at].cfg, this`table
      ensures Valid() && table == old(table)[conf[at].name := Packed(old(table)[conf[at].name], line)]
    {
      hide CStr, OnePerKey;
      var c := conf[at];
      assert Holds(c.cfg, table[c.name]) && forall i | 0 <= i < |conf| && i != at :: conf[i].cfg != c.cfg;
      var _ := Snprcat(c.cfg, CFG_MAX, line + "\n");
      BufferedUpdated(conf, table, buffers, at, Packed(table[c.name], line));
      table := table[c.name := Packed(table[c.name], line)];
    }

    /** Forgets every key. */
    method ClearCfg()
      modifies this
      ensures Valid() && table == map[] && buffers == {}
    {
      while conf != []
      {
        conf := conf[1..];
      }
      table, buffers := map[], {};
    }

    /** Reads line number `line` of a key into a buffer of n characters. */
    method GetCfg(name: string, n: nat, line: int) returns (retval: int, b: string)
      requires Valid() && n > 0
      ensures var lines := Lines(Stored(table, name));
              if 0 <= line < |lines|
              then b == Take(lines[line], n - 1) && retval == if |lines[line]| >= n then 2 else 1
              else retval == 0
    {
      var at := Find(name);
      if at == |conf| {
        IndexOfIs("", '\n', 0);
        return 0, "";
      }
      retval, b := PickLine(CStr(conf[at].cfg[..]), n, line);
    }

    /** The loop every test reads its settings with: all lines of a key, each cut to the caller's buffer. */
    method AllLines(name: string, n: nat) returns (lines: seq<string>)
      requires Valid() && n > 0
      ensures |lines| == |Lines(Stored(table, name))|
      ensures forall i | 0 <= i < |lines| :: lines[i] == Take(Lines(Stored(table, name))[i], n - 1)
    {
      hide Lines, Stored, Valid, Take;
      lines := [];
      var all := Lines(Stored(table, name));
      var retval, b := GetCfg(name, n, 0);
      while retval != 0
        invariant |lines| <= |all| && forall i | 0 <= i < |lines| :: lines[i] == Take(all[i], n - 1)
        invariant if |lines| < |all| then retval != 0 && b == Take(all[|lines|], n - 1) else retval == 0
        decreases |all| - |lines|
      {
        lines := lines + [b];
        retval, b := GetCfg(name, n, |lines|);
      }
    }

    static method PickLine(text: string, n: nat, line: int) returns (retval: int, b: string)
      requires n > 0
      ensures var lines := Lines(text);
              if 0 <= line < |lines|
              then b == Take(lines[line], n - 1) && retval == if |lines[line]| >= n then 2 else 1
              else retval == 0
    {
      var p, i := text, 0;
      var q := IndexOf(p, '\n');
      ghost var lines := Lines(text);
      while i != line && q != |p|
        invariant 0 <= i <= |lines| && (0 <= line ==> i <= line)
        invariant q == IndexOf(p, '\n') && Lines(p) == lines[i..]
        decreases |p|
      {
        NextLine(lines, i, p);
        p, i := p[q + 1..], i + 1;
        q := IndexOf(p, '\n');
      }
      NextLine(lines, i, p);
      if q == |p| { return 0, ""; }
      var m := q;
      retval := 1;
      if m >= n {
        m := n - 1;
        retval := 2;
      }
      b := p[..m];
    }
  }

  lemma NextLine(lines: seq<string>, i: nat, p: string)
    requires i <= |lines| && Lines(p) == lines[i..]
    ensures var q := IndexOf(p, '\n');
            if q == |p| then i == |lines|
            else i < |lines| && lines[i] == p[..q] && Lines(p[q + 1..]) == lines[i + 1..]
  {
    if i < |lines| {
      assert lines[i..][0] == lines[i] && lines[i..][1..] == lines[i + 1..];
    }
  }
}
