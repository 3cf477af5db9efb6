/** The command context of `cmd/ctx.go`: the configuration check, the
    depth-first collection of registered command paths, their grouping by
    description and the usage text printed for one group. */
module CmdContext {
  import opened Wrappers
  import opened CmdOptions
  import opened CmdTrie
  import CommonConfig

  /** What the handlers share: the command trie and the loaded
      configuration (None for a nil pointer). */
  class CmdCtx {
    var CommandRoot: Nodes
    var Config: Option<CommonConfig.Config>

    constructor(root: Nodes, config: Option<CommonConfig.Config>)
      ensures CommandRoot == root && Config == config
    {
      CommandRoot := root;
      Config := config;
    }
  }

  /** CmdCtx.ValidateConfig over the context's Config field: a nil
      configuration is an error, otherwise the configuration decides. */
  function ValidateConfig(config: Option<CommonConfig.Config>, withCred: bool): (r: ErrorOpt)
    ensures config.None? ==> r == Some("config is nil")
    ensures config.Some? ==> r == config.value.Validate(withCred)
  {
    match config
    case None => Some("config is nil")
    case Some(c) => c.Validate(withCred)
  }

  /** A configuration that passes the check with credentials passes it
      without; passing at all means there is a configuration. */
  lemma ValidateConfigMonotone(config: Option<CommonConfig.Config>)
    ensures ValidateConfig(config, true).None? ==> ValidateConfig(config, false).None?
    ensures ValidateConfig(config, false).None? ==> config.Some?
  {
    if config.Some? {
      CommonConfig.ValidateCredImpliesPlain(config.value);
    }
  }

  // ---------------------------------------------------------------------
  // getCommands

  datatype PathInfo = PathInfo(Path: string, Command: Command)

  /** The entries getCommands appends below branch `b`: for each child in
      order, its own entry when it has a command, then its subtree. */
  function CommandsOf(nodes: Nodes, b: nat, parent: string): seq<PathInfo>
    requires WF(nodes) && b < |nodes|
    decreases |nodes| - b, |nodes[b].Branches| + 1
  {
    CommandsFrom(nodes, b, parent, 0)
  }

  function CommandsFrom(nodes: Nodes, b: nat, parent: string, i: nat): seq<PathInfo>
    requires WF(nodes) && b < |nodes| && i <= |nodes[b].Branches|
    decreases |nodes| - b, |nodes[b].Branches| - i
  {
    if i == |nodes[b].Branches| then []
    else
      var c := nodes[b].Branches[i];
      var path := parent + " " + nodes[c].Str;
      Own(nodes, c, path) + CommandsOf(nodes, c, path) + CommandsFrom(nodes, b, parent, i + 1)
  }

  /** The entry of branch `c` itself, if it has a command. */
  function Own(nodes: Nodes, c: nat, path: string): (r: seq<PathInfo>)
    requires c < |nodes|
    ensures |r| <= 1
  {
    if nodes[c].Command.Some? then [PathInfo(path, nodes[c].Command.value)] else []
  }

  /** The recursion of getCommands, with the `*[]commandPathInfo`
      accumulator as an in/out sequence. */
  method GetCommands(nodes: Nodes, b: nat, parent: string, commands: seq<PathInfo>) returns (out: seq<PathInfo>)
    requires WF(nodes) && b < |nodes|
    ensures out == commands + CommandsOf(nodes, b, parent)
    decreases |nodes| - b
  {
    out := commands;
    var kids := nodes[b].Branches;
    for i := 0 to |kids|
      invariant commands + CommandsOf(nodes, b, parent) == out + CommandsFrom(nodes, b, parent, i)
    {
      var c := kids[i];
      var path := parent + " " + nodes[c].Str;
      ghost var before := out;
      if nodes[c].Command.Some? {
        out := out + [PathInfo(path, nodes[c].Command.value)];
      }
      assert out == before + Own(nodes, c, path);
      out := GetCommands(nodes, c, path, out);
      assert before + CommandsFrom(nodes, b, parent, i)
          == out + CommandsFrom(nodes, b, parent, i + 1);
    }
  }

  /** Every collected path extends the parent's path by a space and a
      label. */
  lemma {:induction false} CommandsExtendParent(nodes: Nodes, b: nat, parent: string)
    requires WF(nodes) && b < |nodes|
    ensures forall k :: 0 <= k < |CommandsOf(nodes, b, parent)| ==>
      parent + " " <= CommandsOf(nodes, b, parent)[k].Path
    decreases |nodes| - b, |nodes[b].Branches| + 1
  {
    CommandsFromExtendParent(nodes, b, parent, 0);
  }

  lemma {:induction false} CommandsFromExtendParent(nodes: Nodes, b: nat, parent: string, i: nat)
    requires WF(nodes) && b < |nodes| && i <= |nodes[b].Branches|
    ensures forall k :: 0 <= k < |CommandsFrom(nodes, b, parent, i)| ==>
      parent + " " <= CommandsFrom(nodes, b, parent, i)[k].Path
    decreases |nodes| - b, |nodes[b].Branches| - i
  {
    if i < |nodes[b].Branches| {
      var c := nodes[b].Branches[i];
      var path := parent + " " + nodes[c].Str;
      var own, sub, more := Own(nodes, c, path), CommandsOf(nodes, c, path), CommandsFrom(nodes, b, parent, i + 1);
      CommandsExtendParent(nodes, c, path);
      CommandsFromExtendParent(nodes, b, parent, i + 1);
      assert CommandsFrom(nodes, b, parent, i) == own + sub + more;
      forall k | 0 <= k < |own + sub + more|
        ensures parent + " " <= (own + sub + more)[k].Path
      {
        if k < |own| {
        } else if k < |own| + |sub| {
          assert (own + sub + more)[k] == sub[k - |own|];
          assert path + " " <= sub[k - |own|].Path;
        } else {
          assert (own + sub + more)[k] == more[k - |own| - |sub|];
        }
      }
    }
  }

  /** Every child's own entry and every entry of its subtree are collected
      for the parent too, in command-less branches as well. */
  lemma {:induction false} CommandsIncludeChild(nodes: Nodes, b: nat, parent: string, i: nat)
    requires WF(nodes) && b < |nodes| && i < |nodes[b].Branches|
    ensures var c := nodes[b].Branches[i];
      var path := parent + " " + nodes[c].Str;
      && (nodes[c].Command.Some? ==> PathInfo(path, nodes[c].Command.value) in CommandsOf(nodes, b, parent))
      && (forall e :: e in CommandsOf(nodes, c, path) ==> e in CommandsOf(nodes, b, parent))
  {
    CommandsFromIncludeChild(nodes, b, parent, 0, i);
  }

  lemma {:induction false} CommandsFromIncludeChild(nodes: Nodes, b: nat, parent: string, j: nat, i: nat)
    requires WF(nodes) && b < |nodes| && j <= i < |nodes[b].Branches|
    ensures var c := nodes[b].Branches[i];
      var path := parent + " " + nodes[c].Str;
      && (nodes[c].Command.Some? ==> PathInfo(path, nodes[c].Command.value) in CommandsFrom(nodes, b, parent, j))
      && (forall e :: e in CommandsOf(nodes, c, path) ==> e in CommandsFrom(nodes, b, parent, j))
    decreases i - j
  {
    var cj := nodes[b].Branches[j];
    var pj := parent + " " + nodes[cj].Str;
    var own, sub, more := Own(nodes, cj, pj), CommandsOf(nodes, cj, pj), CommandsFrom(nodes, b, parent, j + 1);
    assert CommandsFrom(nodes, b, parent, j) == own + sub + more;
    if j < i {
      CommandsFromIncludeChild(nodes, b, parent, j + 1, i);
    }
  }

  // ---------------------------------------------------------------------
  // Grouping by description

  datatype GroupedCommand = GroupedCommand(Command: Command, Paths: seq<string>)

  /** The group map after the loop has seen `commands`. */
  function Grouped(commands: seq<PathInfo>): map<string, GroupedCommand>
  {
    if |commands| == 0 then map[]
    else
      var gc := Grouped(commands[..|commands| - 1]);
      var c := commands[|commands| - 1];
      var g := if c.Command.Desc in gc then gc[c.Command.Desc] else GroupedCommand(c.Command, []);
      gc[c.Command.Desc := g.(Paths := g.Paths + [c.Path])]
  }

  /** The grouping loop of PrintCommands. */
  method GroupByDesc(commands: seq<PathInfo>) returns (gc: map<string, GroupedCommand>)
    ensures gc == Grouped(commands)
  {
    gc := map[];
    for i := 0 to |commands|
      invariant gc == Grouped(commands[..i])
    {
      assert commands[..i + 1][..i] == commands[..i];
      var c := commands[i];
      var g;
      if c.Command.Desc in gc {
        g := gc[c.Command.Desc];
      } else {
        g := GroupedCommand(c.Command, []);
      }
      g := g.(Paths := g.Paths + [c.Path]);
      gc := gc[c.Command.Desc := g];
    }
    assert commands[..|commands|] == commands;
  }

  /** The paths of the entries described by `d`, in collection order. */
  function PathsWithDesc(commands: seq<PathInfo>, d: string): seq<string>
  {
    if |commands| == 0 then []
    else
      var c := commands[|commands| - 1];
      PathsWithDesc(commands[..|commands| - 1], d) + (if c.Command.Desc == d then [c.Path] else [])
  }

  /** There is one group per description that occurs; it holds exactly the
      paths with that description, in order, and the command of the first
      entry with that description. */
  lemma GroupedSpec(commands: seq<PathInfo>)
    ensures forall d :: d in Grouped(commands) <==> exists k :: 0 <= k < |commands| && commands[k].Command.Desc == d
    ensures forall d :: d in Grouped(commands) ==> Grouped(commands)[d].Paths == PathsWithDesc(commands, d)
    ensures forall d :: d in Grouped(commands) ==>
      exists k :: (0 <= k < |commands| && commands[k].Command == Grouped(commands)[d].Command
        && commands[k].Command.Desc == d
        && forall j :: 0 <= j < k ==> commands[j].Command.Desc != d)
  {
    GroupedKeys(commands);
    GroupedPaths(commands);
    GroupedFirst(commands);
  }

  lemma {:induction false} GroupedKeys(commands: seq<PathInfo>)
    ensures forall d :: d in Grouped(commands) <==> exists k :: 0 <= k < |commands| && commands[k].Command.Desc == d
  {
    if |commands| > 0 {
      var n := |commands| - 1;
      var pre := commands[..n];
      GroupedKeys(pre);
      assert forall k :: 0 <= k < n ==> pre[k] == commands[k];
      forall d | exists k :: 0 <= k < |commands| && commands[k].Command.Desc == d
        ensures d in Grouped(commands)
      {
        var k :| 0 <= k < |commands| && commands[k].Command.Desc == d;
        if k < n {
          assert pre[k].Command.Desc == d;
        }
      }
    }
  }

  lemma {:induction false} GroupedPaths(commands: seq<PathInfo>)
    ensures forall d :: d in Grouped(commands) ==> Grouped(commands)[d].Paths == PathsWithDesc(commands, d)
  {
    if |commands| > 0 {
      var n := |commands| - 1;
      var pre := commands[..n];
      var c := commands[n];
      GroupedPaths(pre);
      GroupedKeys(pre);
      var gc := Grouped(pre);
      forall d | d in Grouped(commands)
        ensures Grouped(commands)[d].Paths == PathsWithDesc(commands, d)
      {
        assert PathsWithDesc(commands, d)
            == PathsWithDesc(pre, d) + (if c.Command.Desc == d then [c.Path] else []);
        if d !in gc {
          PathsWithDescAbsent(pre, d);
        }
      }
    }
  }

  lemma {:induction false} GroupedFirst(commands: seq<PathInfo>)
    ensures forall d :: d in Grouped(commands) ==>
      exists k :: (0 <= k < |commands| && commands[k].Command == Grouped(commands)[d].Command
        && commands[k].Command.Desc == d
        && forall j :: 0 <= j < k ==> commands[j].Command.Desc != d)
  {
    if |commands| > 0 {
      var n := |commands| - 1;
      var pre := commands[..n];
      var c := commands[n];
      GroupedFirst(pre);
      GroupedKeys(pre);
      var gc := Grouped(pre);
      assert forall k :: 0 <= k < n ==> pre[k] == commands[k];
      forall d | d in Grouped(commands)
        ensures exists k :: (0 <= k < |commands| && commands[k].Command == Grouped(commands)[d].Command
          && commands[k].Command.Desc == d
          && forall j :: 0 <= j < k ==> commands[j].Command.Desc != d)
      {
        if d in gc {
          var k :| 0 <= k < n && pre[k].Command == gc[d].Command && pre[k].Command.Desc == d
            && forall j :: 0 <= j < k ==> pre[j].Command.Desc != d;
          assert commands[k] == pre[k];
        } else {
          assert d == c.Command.Desc;
          assert forall j :: 0 <= j < n ==> commands[j].Command.Desc != d;
        }
      }
    }
  }

  lemma {:induction false} PathsWithDescAbsent(commands: seq<PathInfo>, d: string)
    requires forall k :: 0 <= k < |commands| ==> commands[k].Command.Desc != d
    ensures PathsWithDesc(commands, d) == []
  {
    if |commands| > 0 {
      var pre := commands[..|commands| - 1];
      assert forall k :: 0 <= k < |pre| ==> pre[k] == commands[k];
      PathsWithDescAbsent(pre, d);
    }
  }

  // ---------------------------------------------------------------------
  // Usage text of one group

  /** A spelling longer than one character is a long flag. */
  function RenderFlag(f: string): (r: string)
    ensures |f| > 1 ==> r == "--" + f
    ensures |f| <= 1 ==> r == "-" + f
  {
    if |f| > 1 then "--" + f else "-" + f
  }

  /** The rendered spellings joined by ", ". */
  function JoinFlags(flags: seq<string>): string
  {
    if |flags| == 0 then ""
    else if |flags| == 1 then RenderFlag(flags[0])
    else JoinFlags(flags[..|flags| - 1]) + ", " + RenderFlag(flags[|flags| - 1])
  }

  /** The text printed for descriptor `i`: nothing without spellings, the
      header before descriptor 0, then a tab, the spellings, a tab and the
      label. */
  function OptText(opts: seq<CmdOpt>, i: nat): string
    requires i < |opts|
  {
    var o := opts[i];
    if |o.Spec.ArgFlags| == 0 then ""
    else (if i == 0 then "  Arguments:\n" else "") + "\t" + JoinFlags(o.Spec.ArgFlags) + "\t" + o.Spec.Label + "\n"
  }

  function OptsText(opts: seq<CmdOpt>, n: nat): string
    requires n <= |opts|
  {
    if n == 0 then "" else OptsText(opts, n - 1) + OptText(opts, n - 1)
  }

  /** One line per path; the description follows the last one. */
  function PathsText(paths: seq<string>, desc: string, n: nat): string
    requires n <= |paths|
  {
    if n == 0 then ""
    else PathsText(paths, desc, n - 1) + paths[n - 1] + (if n == |paths| then "  \t" + desc else "") + "\n"
  }

  function GroupText(desc: string, g: GroupedCommand): string
  {
    PathsText(g.Paths, desc, |g.Paths|) + OptsText(g.Command.Opts, |g.Command.Opts|) + "\n"
  }

  /** The path loop of PrintCommands for one group. */
  method PrintPaths(paths: seq<string>, desc: string) returns (out: string)
    ensures out == PathsText(paths, desc, |paths|)
  {
    out := "";
    for i := 0 to |paths|
      invariant out == PathsText(paths, desc, i)
    {
      out := out + paths[i];
      if i == |paths| - 1 {
        out := out + "  \t" + desc;
      }
      out := out + "\n";
    }
  }

  /** The spelling loop for one descriptor. */
  method PrintOpt(opts: seq<CmdOpt>, i: nat) returns (line: string)
    requires i < |opts|
    ensures line == OptText(opts, i)
  {
    var o := opts[i];
    if |o.Spec.ArgFlags| == 0 {
      return "";
    }
    var head := if i == 0 then "  Arguments:\n" else "";
    var flags := o.Spec.ArgFlags;
    var joined := "";
    for j := 0 to |flags|
      invariant joined == JoinFlags(flags[..j])
    {
      JoinFlagsPrefix(flags, j);
      if j > 0 {
        joined := joined + ", ";
      }
      joined := joined + RenderFlag(flags[j]);
    }
    assert flags[..|flags|] == flags;
    line := head + "\t" + joined + "\t" + o.Spec.Label + "\n";
  }

  lemma JoinFlagsPrefix(flags: seq<string>, j: nat)
    requires j < |flags|
    ensures j == 0 ==> JoinFlags(flags[..j + 1]) == RenderFlag(flags[0])
    ensures j > 0 ==> JoinFlags(flags[..j + 1]) == JoinFlags(flags[..j]) + ", " + RenderFlag(flags[j])
  {
    assert flags[..j + 1][..j] == flags[..j];
  }

  /** The loops of PrintCommands for one group. */
  method PrintGroup(desc: string, g: GroupedCommand) returns (out: string)
    ensures out == GroupText(desc, g)
  {
    var pathsText := PrintPaths(g.Paths, desc);
    var opts := g.Command.Opts;
    var optsText := "";
    for i := 0 to |opts|
      invariant optsText == OptsText(opts, i)
    {
      var line := PrintOpt(opts, i);
      optsText := optsText + line;
    }
    out := pathsText + optsText + "\n";
  }

  /** The "Arguments:" header opens the options part exactly when
      descriptor 0 has spellings. */
  lemma ArgumentsHeader(opts: seq<CmdOpt>)
    ensures "  Arguments:\n" <= OptsText(opts, |opts|) <==> |opts| > 0 && |opts[0].Spec.ArgFlags| > 0
  {
    if |opts| > 0 {
      OptsTextFirst(opts, |opts|);
      if |opts[0].Spec.ArgFlags| == 0 {
        OptsTextTabOrEmpty(opts, |opts|);
      }
    }
  }

  /** The options part starts with descriptor 0's text. */
  lemma {:induction false} OptsTextFirst(opts: seq<CmdOpt>, n: nat)
    requires 0 < n <= |opts|
    ensures OptText(opts, 0) <= OptsText(opts, n)
  {
    if n > 1 {
      OptsTextFirst(opts, n - 1);
    }
  }

  /** Without spellings at index 0, the options part is empty or starts
      with a tab. */
  lemma {:induction false} OptsTextTabOrEmpty(opts: seq<CmdOpt>, n: nat)
    requires 0 < n <= |opts| && |opts[0].Spec.ArgFlags| == 0
    ensures OptsText(opts, n) == "" || OptsText(opts, n)[0] == '\t'
  {
    if n > 1 {
      OptsTextTabOrEmpty(opts, n - 1);
    }
  }

  /** A descriptor without spellings adds nothing to the usage text. */
  lemma FlaglessOmitted(opts: seq<CmdOpt>, n: nat)
    requires 0 < n <= |opts| && |opts[n - 1].Spec.ArgFlags| == 0
    ensures OptsText(opts, n) == OptsText(opts, n - 1)
  {
  }

  /** Appending a spelling appends ", " and its rendering. */
  lemma JoinFlagsSnoc(flags: seq<string>, f: string)
    requires |flags| > 0
    ensures JoinFlags(flags + [f]) == JoinFlags(flags) + ", " + RenderFlag(f)
  {
    assert (flags + [f])[..|flags|] == flags;
  }

  /** The description follows the last path and only it. */
  lemma PathsTextLast(paths: seq<string>, desc: string)
    requires |paths| > 0
    ensures PathsText(paths, desc, |paths|)
         == PathsText(paths, desc, |paths| - 1) + paths[|paths| - 1] + "  \t" + desc + "\n"
  {
  }

  // ---------------------------------------------------------------------
  // PrintCommands

  function UsageHeader(argv0: string): string
  {
    "Manage gitea repository\n\n"
    + "Usage: \n" + "  " + argv0 + " [options] [command]\n" + "  " + argv0 + " [command] [options]\n\n"
    + "Commands:\n\n"
  }

  /** `order` lists the keys of `gc` once each: the iteration order of a Go
      map, which the language leaves unspecified. */
  predicate IsOrderOf(order: seq<string>, gc: map<string, GroupedCommand>)
  {
    (forall d :: d in gc ==> d in order)
    && (forall k :: 0 <= k < |order| ==> order[k] in gc)
    && forall x, y :: 0 <= x < y < |order| ==> order[x] != order[y]
  }

  function GroupsText(order: seq<string>, gc: map<string, GroupedCommand>, n: nat): string
    requires n <= |order| && forall k :: 0 <= k < |order| ==> order[k] in gc
  {
    if n == 0 then "" else GroupsText(order, gc, n - 1) + GroupText(order[n - 1], gc[order[n - 1]])
  }

  /** PrintCommands: collect the paths under the root, group them, and print
      the header and then the groups in map order. */
  method PrintCommands(root: Nodes, argv0: string, order: seq<string>) returns (out: string)
    requires WF(root) && |root| > 0
    requires IsOrderOf(order, Grouped(CommandsOf(root, 0, argv0)))
    ensures out == UsageHeader(argv0) + GroupsText(order, Grouped(CommandsOf(root, 0, argv0)), |order|)
  {
    var commands := GetCommands(root, 0, argv0, []);
    assert commands == CommandsOf(root, 0, argv0);
    var gc := GroupByDesc(commands);
    var groups := PrintGroups(order, gc);
    out := UsageHeader(argv0) + groups;
  }

  /** The loop over the groups, in map order. */
  method PrintGroups(order: seq<string>, gc: map<string, GroupedCommand>) returns (out: string)
    requires forall k :: 0 <= k < |order| ==> order[k] in gc
    ensures out == GroupsText(order, gc, |order|)
  {
    out := "";
    for k := 0 to |order|
      invariant out == GroupsText(order, gc, k)
    {
      var text := PrintGroup(order[k], gc[order[k]]);
      out := out + text;
    }
  }
}
