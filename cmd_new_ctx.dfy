/** `NewCtx` of `cmd/ctx.go`: the command context built from the saved
    configuration, with the nine commands registered in the trie. Reading
    and decoding `gitea.yml` is foreign I/O: its outcome is a parameter.
    So are the current git branch, which the pull-request descriptors take
    as a default, and the random draws behind the token-name default. */
module CmdRegistry {
  import opened Wrappers
  import opened CmdOptions
  import opened CommonConfig
  import opened RandomNames
  import opened CmdTrie
  import opened CmdTrieProps
  import opened CmdContext
  import CmdCmd
  import CmdCred

  // ---------------------------------------------------------------------
  // The commands

  /** The descriptions printed by the help listing. */
  const NewGiteaCredDesc := "Create new gitea credentials."
  const NewRocketCredDesc := "Create new rocketchat credentials."
  const NewCredDesc := "Create new credentials."
  const RmCredDesc := "Remove credentials."
  const NewPrDesc := "Create new pull request."
  const ListPrDesc := "list open pull requests."
  const MergePrDesc := "Merge existing pull request"
  const UpdatePrDesc := "Close existing pull request"

  /** The nine registered commands, in registration order, given the
      option lists of the last eight. */
  function CommandList(o: seq<seq<CmdOpt>>): (r: seq<Command>)
    requires |o| == 8
    ensures |r| == 9
    ensures r[0] == Command("", HelpCommand, [])
    ensures forall k :: 1 <= k < 9 ==> r[k].Opts == o[k - 1]
    ensures r[1].Handler == NewGiteaCredCommand && r[2].Handler == NewRocketCredCommand
    ensures r[3].Handler == NewCredCommand && r[4].Handler == RmCredCommand
    ensures r[5].Handler == NewPrCommand && r[6].Handler == ListPrCommand
    ensures r[7].Handler == MergePrCommand && r[8].Handler == ClosePrCommand
  {
    [ Command("", HelpCommand, []),
      Command(NewGiteaCredDesc, NewGiteaCredCommand, o[0]),
      Command(NewRocketCredDesc, NewRocketCredCommand, o[1]),
      Command(NewCredDesc, NewCredCommand, o[2]),
      Command(RmCredDesc, RmCredCommand, o[3]),
      Command(NewPrDesc, NewPrCommand, o[4]),
      Command(ListPrDesc, ListPrCommand, o[5]),
      Command(MergePrDesc, MergePrCommand, o[6]),
      Command(UpdatePrDesc, ClosePrCommand, o[7]) ]
  }

  /** The commands NewCtx registers, with the option lists it builds from
      the loaded configuration and the current branch. */
  function Commands(c: Config, branch: string, draws: seq<int>): (r: seq<Command>)
    requires ValidDraws(draws, 8)
    ensures |r| == 9
  {
    CommandList([ CmdCred.NewGiteaCredOpts(draws), CmdCred.NewRocketCredOpts(true),
                  CmdCred.NewCredOpts(Some(c), draws), CmdCred.GetRmCredOpts(),
                  CmdCmd.NewPrOpts(c, branch), CmdCmd.ListPrOpts(Some(c)),
                  CmdCmd.MergePrOpts(c, branch), CmdCmd.UpdatePrOpts(Some(c), branch) ])
  }

  /** The words each command is registered under; "help" in any order, the
      others in strict order. */
  const HelpChain: seq<string> := ["help"]
  const NewGiteaCredChain: seq<string> := ["new", "g", "cred"]
  const NewRocketCredChain: seq<string> := ["new", "r", "cred"]
  const NewCredChain: seq<string> := ["new", "cred"]
  const RmCredChain: seq<string> := ["rm", "cred"]
  const NewPrChain: seq<string> := ["new", "pr"]
  const ListPrChain: seq<string> := ["list", "pr"]
  const MergePrChain: seq<string> := ["merge", "pr"]
  const UpdatePrChain: seq<string> := ["update", "pr"]

  // ---------------------------------------------------------------------
  // The trie after each registration

  function Stage0(): Nodes
  {
    [Branch("", None, [])]
  }

  /** One registration below branch `b`: the next free index joins its
      children and the new branches are appended. */
  function Grow(n: Nodes, b: nat, added: Nodes): (r: Nodes)
    requires b < |n|
    ensures |r| == |n| + |added| && r[b].Branches == n[b].Branches + [|n|]
  {
    n[b := n[b].(Branches := n[b].Branches + [|n|])] + added
  }

  function Stage1(hs: seq<Command>): Nodes
    requires |hs| == 9
  {
    Grow(Stage0(), 0, [Branch("help", Some(hs[0]), [])])
  }

  function Stage2(hs: seq<Command>): Nodes
    requires |hs| == 9
  {
    Grow(Stage1(hs), 0, [Branch("new", None, [3]), Branch("g", None, [4]), Branch("cred", Some(hs[1]), [])])
  }

  function Stage3(hs: seq<Command>): Nodes
    requires |hs| == 9
  {
    Grow(Stage2(hs), 2, [Branch("r", None, [6]), Branch("cred", Some(hs[2]), [])])
  }

  function Stage4(hs: seq<Command>): Nodes
    requires |hs| == 9
  {
    Grow(Stage3(hs), 2, [Branch("cred", Some(hs[3]), [])])
  }

  function Stage5(hs: seq<Command>): Nodes
    requires |hs| == 9
  {
    Grow(Stage4(hs), 0, [Branch("rm", None, [9]), Branch("cred", Some(hs[4]), [])])
  }

  function Stage6(hs: seq<Command>): Nodes
    requires |hs| == 9
  {
    Grow(Stage5(hs), 2, [Branch("pr", Some(hs[5]), [])])
  }

  function Stage7(hs: seq<Command>): Nodes
    requires |hs| == 9
  {
    Grow(Stage6(hs), 0, [Branch("list", None, [12]), Branch("pr", Some(hs[6]), [])])
  }

  function Stage8(hs: seq<Command>): Nodes
    requires |hs| == 9
  {
    Grow(Stage7(hs), 0, [Branch("merge", None, [14]), Branch("pr", Some(hs[7]), [])])
  }

  /** The finished trie, seventeen branches: under the root (0) "help" (1),
      "new" (2) with "g" (3) "cred" (4), "r" (5) "cred" (6), "cred" (7) and
      "pr" (10) below it, "rm" (8) "cred" (9), "list" (11) "pr" (12),
      "merge" (13) "pr" (14) and "update" (15) "pr" (16). */
  function Registry(hs: seq<Command>): Nodes
    requires |hs| == 9
  {
    Grow(Stage8(hs), 0, [Branch("update", None, [16]), Branch("pr", Some(hs[8]), [])])
  }

  // ---------------------------------------------------------------------
  // Walking into fresh branches

  /** The branches a walk creates below a branch that lacks the chain's
      first label: one per label, each the only child of the one before. */
  function Line(s: nat, chain: seq<string>): (r: Nodes)
    ensures |r| == |chain|
    ensures forall k :: 0 <= k < |r| ==> r[k].Str == chain[k] && r[k].Command.None?
    decreases |chain|
  {
    if |chain| == 0 then []
    else [Branch(chain[0], None, if |chain| == 1 then [] else [s + 1])] + Line(s + 1, chain[1..])
  }

  lemma LineCons(s: nat, chain: seq<string>)
    requires |chain| >= 1
    ensures Line(s, chain) == [Branch(chain[0], None, if |chain| == 1 then [] else [s + 1])] + Line(s + 1, chain[1..])
  {
  }

  lemma LineOne(s: nat, a: string)
    ensures Line(s, [a]) == [Branch(a, None, [])]
  {
    LineCons(s, [a]);
    assert [a][1..] == [];
  }

  lemma LineTwo(s: nat, a: string, c: string)
    ensures Line(s, [a, c]) == [Branch(a, None, [s + 1]), Branch(c, None, [])]
  {
    LineCons(s, [a, c]);
    assert [a, c][1..] == [c];
    LineOne(s + 1, c);
  }

  /** Inserting a label that the branch lacks appends a childless branch. */
  lemma InsertFresh(nodes: Nodes, b: nat, str: string)
    requires WF(nodes) && b < |nodes| && ChildLabelled(nodes, b, str).None?
    ensures InsertChild(nodes, b, str).0
         == nodes[b := nodes[b].(Branches := nodes[b].Branches + [|nodes|])] + [Branch(str, None, [])]
    ensures InsertChild(nodes, b, str).1 == |nodes|
  {
  }

  lemma {:induction false} FreshWalk(nodes: Nodes, b: nat, chain: seq<string>)
    requires WF(nodes) && b < |nodes| && |chain| >= 1
    requires ChildLabelled(nodes, b, chain[0]).None?
    ensures Walk(nodes, b, chain).0 == nodes[b := nodes[b].(Branches := nodes[b].Branches + [|nodes|])] + Line(|nodes|, chain)
    ensures Walk(nodes, b, chain).1 == |nodes| + |chain| - 1
    decreases |chain|
  {
    var s := |nodes|;
    var x := nodes[b := nodes[b].(Branches := nodes[b].Branches + [s])];
    var n1 := x + [Branch(chain[0], None, [])];
    InsertFresh(nodes, b, chain[0]);
    LineCons(s, chain);
    if |chain| == 1 {
      assert Line(s + 1, chain[1..]) == [];
      assert x + Line(s, chain) == n1;
      assert Walk(nodes, b, chain) == Walk(n1, s, []);
    } else {
      FreshStep(nodes, b, chain, x, n1);
      FreshWalk(n1, s, chain[1..]);
      FreshJoin(x, chain, s);
      var w := Walk(n1, s, chain[1..]);
      assert w.0 == x + Line(s, chain);
      assert w.1 == s + |chain| - 1;
      assert Walk(nodes, b, chain) == w;
      assert Walk(nodes, b, chain).0 == x + Line(s, chain);
    }
  }

  lemma FreshStep(nodes: Nodes, b: nat, chain: seq<string>, x: Nodes, n1: Nodes)
    requires WF(nodes) && b < |nodes| && |chain| >= 2
    requires x == nodes[b := nodes[b].(Branches := nodes[b].Branches + [|nodes|])]
    requires n1 == x + [Branch(chain[0], None, [])]
    requires InsertChild(nodes, b, chain[0]).0 == n1 && InsertChild(nodes, b, chain[0]).1 == |nodes|
    ensures WF(n1) && |nodes| < |n1| && ChildLabelled(n1, |nodes|, chain[1]).None?
    ensures Walk(nodes, b, chain) == Walk(n1, |nodes|, chain[1..])
  {
    assert n1[|nodes|].Branches == [];
  }

  lemma FreshJoin(x: Nodes, chain: seq<string>, s: nat)
    requires |x| == s && |chain| >= 2
    ensures var n1 := x + [Branch(chain[0], None, [])];
      n1[s := n1[s].(Branches := n1[s].Branches + [|n1|])] + Line(|n1|, chain[1..]) == x + Line(s, chain)
  {
    LineCons(s, chain);
    var n1 := x + [Branch(chain[0], None, [])];
    var head := Branch(chain[0], None, [s + 1]);
    assert n1[s].Branches + [|n1|] == [s + 1];
    assert n1[s := n1[s].(Branches := [s + 1])] == x + [head];
    assert Line(s, chain) == [head] + Line(s + 1, chain[1..]);
    ConcatAssoc(x, [head], Line(s + 1, chain[1..]));
  }

  /** A walk through a branch that already has the first label. */
  lemma KnownWalk(nodes: Nodes, b: nat, chain: seq<string>, c: nat)
    requires WF(nodes) && b < |nodes| && |chain| >= 1
    requires ChildLabelled(nodes, b, chain[0]) == Some(c)
    ensures c < |nodes| && Walk(nodes, b, chain) == Walk(nodes, c, chain[1..])
  {
  }

  // ---------------------------------------------------------------------
  // The registrations, one by one

  /** The line of fresh branches with the command on its last one. */
  function SetLast(line: Nodes, h: Command): Nodes
    requires |line| >= 1
  {
    line[|line| - 1 := line[|line| - 1].(Command := Some(h))]
  }

  lemma CommandOnLast(x: Nodes, line: Nodes, h: Command)
    requires |line| >= 1
    ensures (x + line)[|x| + |line| - 1 := (x + line)[|x| + |line| - 1].(Command := Some(h))] == x + SetLast(line, h)
  {
  }

  /** Registering a chain whose first label is new below `b`: the chain
      becomes a fresh line of branches with the command at its end. */
  lemma AddFresh(n: Nodes, b: nat, h: Command, chain: seq<string>, kids: seq<nat>)
    requires WF(n) && b < |n| && |chain| >= 1 && ChildLabelled(n, b, chain[0]).None?
    requires kids == n[b].Branches + [|n|]
    ensures AddStrict(n, b, h, chain) == Some(n[b := n[b].(Branches := kids)] + SetLast(Line(|n|, chain), h))
  {
    FreshWalk(n, b, chain);
    var x := n[b := n[b].(Branches := kids)];
    var line := Line(|n|, chain);
    var w := Walk(n, b, chain);
    AddStrictIs(n, b, h, chain, w.0, w.1);
    FinishLine(w.0, w.1, x, line, h, AddStrict(n, b, h, chain));
  }

  /** Setting the command at the end of a fresh line. */
  lemma FinishLine(w: Nodes, e: nat, x: Nodes, line: Nodes, h: Command, r: Option<Nodes>)
    requires |line| >= 1 && line[|line| - 1].Command.None?
    requires w == x + line && e == |x| + |line| - 1 && r == SetCommand(w, e, h)
    ensures r == Some(x + SetLast(line, h))
  {
    LastOfConcat(x, line);
    CommandOnLast(x, line, h);
  }

  lemma AddStrictIs(n: Nodes, b: nat, h: Command, chain: seq<string>, w: Nodes, e: nat)
    requires WF(n) && b < |n| && Walk(n, b, chain).0 == w && Walk(n, b, chain).1 == e
    ensures e < |w| && AddStrict(n, b, h, chain) == SetCommand(w, e, h)
  {
  }

  lemma LastOfConcat<T>(x: seq<T>, line: seq<T>)
    requires |line| >= 1
    ensures (x + line)[|x| + |line| - 1] == line[|line| - 1]
  {
  }

  /** Registering a chain whose first label already leads to `c`. */
  lemma AddKnown(n: Nodes, b: nat, h: Command, chain: seq<string>, c: nat)
    requires WF(n) && b < |n| && |chain| >= 1 && ChildLabelled(n, b, chain[0]) == Some(c)
    ensures c < |n| && AddStrict(n, b, h, chain) == AddStrict(n, c, h, chain[1..])
  {
    KnownWalk(n, b, chain, c);
  }

  /** The appended branches one registration adds below a branch lacking
      its first label: one, two or three labels. */
  lemma FreshOne(n: Nodes, b: nat, h: Command, a: string)
    requires WF(n) && b < |n| && ChildLabelled(n, b, a).None?
    ensures AddStrict(n, b, h, [a]) == Some(Grow(n, b, [Branch(a, Some(h), [])]))
  {
    AddFresh(n, b, h, [a], n[b].Branches + [|n|]);
    LineOne(|n|, a);
    assert SetLast(Line(|n|, [a]), h) == [Branch(a, Some(h), [])];
  }

  lemma FreshTwo(n: Nodes, b: nat, h: Command, a: string, c: string)
    requires WF(n) && b < |n| && ChildLabelled(n, b, a).None?
    ensures AddStrict(n, b, h, [a, c])
         == Some(Grow(n, b, [Branch(a, None, [|n| + 1]), Branch(c, Some(h), [])]))
  {
    AddFresh(n, b, h, [a, c], n[b].Branches + [|n|]);
    LineTwo(|n|, a, c);
    assert SetLast(Line(|n|, [a, c]), h) == [Branch(a, None, [|n| + 1]), Branch(c, Some(h), [])];
  }

  lemma FreshThree(n: Nodes, b: nat, h: Command, a: string, c: string, d: string)
    requires WF(n) && b < |n| && ChildLabelled(n, b, a).None?
    ensures AddStrict(n, b, h, [a, c, d])
         == Some(Grow(n, b, [Branch(a, None, [|n| + 1]), Branch(c, None, [|n| + 2]), Branch(d, Some(h), [])]))
  {
    AddFresh(n, b, h, [a, c, d], n[b].Branches + [|n|]);
    LineCons(|n|, [a, c, d]);
    assert [a, c, d][1..] == [c, d];
    LineTwo(|n| + 1, c, d);
    assert SetLast(Line(|n|, [a, c, d]), h) == [Branch(a, None, [|n| + 1]), Branch(c, None, [|n| + 2]), Branch(d, Some(h), [])];
  }

  /** Registering below a label that is already there: two labels, then
      three. */
  lemma KnownFirstTwo(n: Nodes, b: nat, c: nat, h: Command, a: string, x: string)
    requires WF(n) && b < |n| && ChildLabelled(n, b, a) == Some(c)
    ensures c < |n| && AddStrict(n, b, h, [a, x]) == AddStrict(n, c, h, [x])
  {
    AddKnown(n, b, h, [a, x], c);
    assert [a, x][1..] == [x];
  }

  lemma KnownFirstThree(n: Nodes, b: nat, c: nat, h: Command, a: string, x: string, y: string)
    requires WF(n) && b < |n| && ChildLabelled(n, b, a) == Some(c)
    ensures c < |n| && AddStrict(n, b, h, [a, x, y]) == AddStrict(n, c, h, [x, y])
  {
    AddKnown(n, b, h, [a, x, y], c);
    assert [a, x, y][1..] == [x, y];
  }

  /** AddChainAnyOrder of a single label the branch lacks. */
  lemma AnyFreshOne(n: Nodes, b: nat, h: Command, a: string)
    requires WF(n) && b < |n| && ChildLabelled(n, b, a).None?
    ensures AddAny(n, b, h, [a]) == AnyResult(Grow(n, b, [Branch(a, Some(h), [])]), [|n|], false)
  {
    InsertFresh(n, b, a);
    var x := n[b := n[b].(Branches := n[b].Branches + [|n|])];
    var n1 := x + [Branch(a, None, [])];
    assert n1[|n|] == Branch(a, None, []);
    assert n1[|n| := Branch(a, Some(h), [])] == x + [Branch(a, Some(h), [])];
    assert AddAny(n, b, h, [a]) == AddAnyFrom(n, b, h, [a], 0, []);
  }

  lemma RegisterHelp(hs: seq<Command>)
    requires |hs| == 9
    ensures AddAny(Stage0(), 0, hs[0], HelpChain) == AnyResult(Stage1(hs), [1], false)
  {
    var n := Stage0();
    assert ChildLabelled(n, 0, "help").None?;
    AnyFreshOne(n, 0, hs[0], "help");
  }

  lemma Stage1Shape(hs: seq<Command>)
    requires |hs| == 9 && WF(Stage1(hs))
    ensures |Stage1(hs)| == 2 && Stage1(hs)[0] == Branch("", None, [1]) && Stage1(hs)[1].Str == "help"
    ensures ChildLabelled(Stage1(hs), 0, "new").None?
  {
  }

  lemma RegisterNewGiteaCred(hs: seq<Command>)
    requires |hs| == 9 && WF(Stage1(hs))
    ensures AddStrict(Stage1(hs), 0, hs[1], NewGiteaCredChain) == Some(Stage2(hs))
  {
    var n := Stage1(hs);
    Stage1Shape(hs);
    FreshThree(n, 0, hs[1], "new", "g", "cred");
  }

  lemma Stage2Shape(hs: seq<Command>)
    requires |hs| == 9 && WF(Stage2(hs))
    ensures |Stage2(hs)| == 5 && Stage2(hs)[0] == Branch("", None, [1, 2]) && Stage2(hs)[1].Str == "help" && Stage2(hs)[2] == Branch("new", None, [3])
    ensures Stage2(hs)[3].Str == "g"
    ensures ChildLabelled(Stage2(hs), 0, "new") == Some(2)
    ensures ChildLabelled(Stage2(hs), 2, "r").None?
  {
  }

  lemma RegisterNewRocketCred(hs: seq<Command>)
    requires |hs| == 9 && WF(Stage2(hs))
    ensures AddStrict(Stage2(hs), 0, hs[2], NewRocketCredChain) == Some(Stage3(hs))
  {
    var n := Stage2(hs);
    Stage2Shape(hs);
    KnownFirstThree(n, 0, 2, hs[2], "new", "r", "cred");
    FreshTwo(n, 2, hs[2], "r", "cred");
  }

  lemma Stage3Shape(hs: seq<Command>)
    requires |hs| == 9 && WF(Stage3(hs))
    ensures |Stage3(hs)| == 7 && Stage3(hs)[0] == Branch("", None, [1, 2]) && Stage3(hs)[1].Str == "help" && Stage3(hs)[2] == Branch("new", None, [3, 5])
    ensures Stage3(hs)[3].Str == "g" && Stage3(hs)[5].Str == "r"
    ensures ChildLabelled(Stage3(hs), 0, "new") == Some(2)
    ensures ChildLabelled(Stage3(hs), 2, "cred").None?
  {
  }

  lemma RegisterNewCred(hs: seq<Command>)
    requires |hs| == 9 && WF(Stage3(hs))
    ensures AddStrict(Stage3(hs), 0, hs[3], NewCredChain) == Some(Stage4(hs))
  {
    var n := Stage3(hs);
    Stage3Shape(hs);
    KnownFirstTwo(n, 0, 2, hs[3], "new", "cred");
    FreshOne(n, 2, hs[3], "cred");
  }

  lemma Stage4Shape(hs: seq<Command>)
    requires |hs| == 9 && WF(Stage4(hs))
    ensures |Stage4(hs)| == 8 && Stage4(hs)[0] == Branch("", None, [1, 2]) && Stage4(hs)[1].Str == "help" && Stage4(hs)[2].Str == "new"
    ensures ChildLabelled(Stage4(hs), 0, "rm").None?
  {
  }

  lemma RegisterRmCred(hs: seq<Command>)
    requires |hs| == 9 && WF(Stage4(hs))
    ensures AddStrict(Stage4(hs), 0, hs[4], RmCredChain) == Some(Stage5(hs))
  {
    var n := Stage4(hs);
    Stage4Shape(hs);
    FreshTwo(n, 0, hs[4], "rm", "cred");
  }

  lemma Stage5Shape(hs: seq<Command>)
    requires |hs| == 9 && WF(Stage5(hs))
    ensures |Stage5(hs)| == 10 && Stage5(hs)[0] == Branch("", None, [1, 2, 8]) && Stage5(hs)[1].Str == "help" && Stage5(hs)[2] == Branch("new", None, [3, 5, 7])
    ensures Stage5(hs)[3].Str == "g" && Stage5(hs)[5].Str == "r" && Stage5(hs)[7].Str == "cred"
    ensures ChildLabelled(Stage5(hs), 0, "new") == Some(2)
    ensures ChildLabelled(Stage5(hs), 2, "pr").None?
  {
  }

  lemma RegisterNewPr(hs: seq<Command>)
    requires |hs| == 9 && WF(Stage5(hs))
    ensures AddStrict(Stage5(hs), 0, hs[5], NewPrChain) == Some(Stage6(hs))
  {
    var n := Stage5(hs);
    Stage5Shape(hs);
    KnownFirstTwo(n, 0, 2, hs[5], "new", "pr");
    FreshOne(n, 2, hs[5], "pr");
  }

  lemma Stage6Shape(hs: seq<Command>)
    requires |hs| == 9 && WF(Stage6(hs))
    ensures |Stage6(hs)| == 11 && Stage6(hs)[0] == Branch("", None, [1, 2, 8]) && Stage6(hs)[1].Str == "help" && Stage6(hs)[2].Str == "new" && Stage6(hs)[8].Str == "rm"
    ensures ChildLabelled(Stage6(hs), 0, "list").None?
  {
  }

  lemma RegisterListPr(hs: seq<Command>)
    requires |hs| == 9 && WF(Stage6(hs))
    ensures AddStrict(Stage6(hs), 0, hs[6], ListPrChain) == Some(Stage7(hs))
  {
    var n := Stage6(hs);
    Stage6Shape(hs);
    FreshTwo(n, 0, hs[6], "list", "pr");
  }

  lemma Stage7Shape(hs: seq<Command>)
    requires |hs| == 9 && WF(Stage7(hs))
    ensures |Stage7(hs)| == 13 && Stage7(hs)[0] == Branch("", None, [1, 2, 8, 11]) && Stage7(hs)[1].Str == "help" && Stage7(hs)[2].Str == "new"
    ensures Stage7(hs)[8].Str == "rm" && Stage7(hs)[11].Str == "list"
    ensures ChildLabelled(Stage7(hs), 0, "merge").None?
  {
  }

  lemma RegisterMergePr(hs: seq<Command>)
    requires |hs| == 9 && WF(Stage7(hs))
    ensures AddStrict(Stage7(hs), 0, hs[7], MergePrChain) == Some(Stage8(hs))
  {
    var n := Stage7(hs);
    Stage7Shape(hs);
    FreshTwo(n, 0, hs[7], "merge", "pr");
  }

  lemma Stage8Shape(hs: seq<Command>)
    requires |hs| == 9 && WF(Stage8(hs))
    ensures |Stage8(hs)| == 15 && Stage8(hs)[0] == Branch("", None, [1, 2, 8, 11, 13]) && Stage8(hs)[1].Str == "help" && Stage8(hs)[2].Str == "new"
    ensures Stage8(hs)[8].Str == "rm" && Stage8(hs)[11].Str == "list" && Stage8(hs)[13].Str == "merge"
    ensures ChildLabelled(Stage8(hs), 0, "update").None?
  {
  }

  lemma RegisterUpdatePr(hs: seq<Command>)
    requires |hs| == 9 && WF(Stage8(hs))
    ensures AddStrict(Stage8(hs), 0, hs[8], UpdatePrChain) == Some(Registry(hs))
  {
    var n := Stage8(hs);
    Stage8Shape(hs);
    FreshTwo(n, 0, hs[8], "update", "pr");
  }

  // ---------------------------------------------------------------------
  // What the registrations leave behind

  /** Every stage is well formed and keeps what the one before held. */
  lemma StagesGrow(hs: seq<Command>)
    requires |hs| == 9
    ensures WF(Stage1(hs)) && WF(Stage2(hs)) && WF(Stage3(hs)) && WF(Stage4(hs)) && WF(Stage5(hs))
    ensures WF(Stage6(hs)) && WF(Stage7(hs)) && WF(Stage8(hs)) && WF(Registry(hs))
    ensures Grows(Stage1(hs), Stage2(hs)) && Grows(Stage2(hs), Stage3(hs)) && Grows(Stage3(hs), Stage4(hs))
    ensures Grows(Stage4(hs), Stage5(hs)) && Grows(Stage5(hs), Stage6(hs)) && Grows(Stage6(hs), Stage7(hs))
    ensures Grows(Stage7(hs), Stage8(hs)) && Grows(Stage8(hs), Registry(hs))
  {
    RegisterHelp(hs);
    RegisterNewGiteaCred(hs);
    RegisterNewRocketCred(hs);
    RegisterNewCred(hs);
    RegisterRmCred(hs);
    RegisterNewPr(hs);
    RegisterListPr(hs);
    RegisterMergePr(hs);
    RegisterUpdatePr(hs);
  }

  /** No branch of the finished trie has two children with the same label:
      each registration keeps that, starting from the bare root. */
  lemma RegistrySiblingsUnique(hs: seq<Command>)
    requires |hs| == 9
    ensures WF(Registry(hs)) && SiblingsUnique(Registry(hs))
  {
    StagesGrow(hs);
    AddAnyKeeps(Stage0(), 0, hs[0], HelpChain);
    RegisterHelp(hs);
    AddStrictKeeps(Stage1(hs), 0, hs[1], NewGiteaCredChain);
    RegisterNewGiteaCred(hs);
    AddStrictKeeps(Stage2(hs), 0, hs[2], NewRocketCredChain);
    RegisterNewRocketCred(hs);
    AddStrictKeeps(Stage3(hs), 0, hs[3], NewCredChain);
    RegisterNewCred(hs);
    AddStrictKeeps(Stage4(hs), 0, hs[4], RmCredChain);
    RegisterRmCred(hs);
    AddStrictKeeps(Stage5(hs), 0, hs[5], NewPrChain);
    RegisterNewPr(hs);
    AddStrictKeeps(Stage6(hs), 0, hs[6], ListPrChain);
    RegisterListPr(hs);
    AddStrictKeeps(Stage7(hs), 0, hs[7], MergePrChain);
    RegisterMergePr(hs);
    AddStrictKeeps(Stage8(hs), 0, hs[8], UpdatePrChain);
    RegisterUpdatePr(hs);
  }

  /** The child at position `j` of `b` is found when no earlier child has
      its label. */
  lemma ChildAt(n: Nodes, b: nat, j: nat, s: string)
    requires WF(n) && b < |n| && j < |n[b].Branches| && n[n[b].Branches[j]].Str == s
    requires forall k :: 0 <= k < j ==> n[n[b].Branches[k]].Str != s
    ensures ChildLabelled(n, b, s) == Some(n[b].Branches[j])
  {
    var p := PosFrom(n, n[b].Branches, s, 0);
    assert p.Some?;
    assert p.value == j;
  }

  /** The shape of the finished trie: the children of each branch and the
      label of each. */
  predicate RootShape(r: Nodes)
  {
    |r| == 17 && r[0].Branches == [1, 2, 8, 11, 13, 15]
    && r[1].Str == "help" && r[2].Str == "new" && r[8].Str == "rm"
    && r[11].Str == "list" && r[13].Str == "merge" && r[15].Str == "update"
  }

  predicate NewShape(r: Nodes)
  {
    |r| == 17 && r[2].Branches == [3, 5, 7, 10]
    && r[3].Str == "g" && r[5].Str == "r" && r[7].Str == "cred" && r[10].Str == "pr"
  }

  predicate LeafShape(r: Nodes)
  {
    |r| == 17
    && r[3].Branches == [4] && r[5].Branches == [6] && r[8].Branches == [9]
    && r[11].Branches == [12] && r[13].Branches == [14] && r[15].Branches == [16]
    && r[4].Str == "cred" && r[6].Str == "cred" && r[9].Str == "cred"
    && r[12].Str == "pr" && r[14].Str == "pr" && r[16].Str == "pr"
  }

  lemma RegistryShape(hs: seq<Command>)
    requires |hs| == 9
    ensures RootShape(Registry(hs)) && NewShape(Registry(hs)) && LeafShape(Registry(hs))
  {
    RegistryRootShape(hs);
    RegistryNewShape(hs);
    RegistryLeafShape(hs);
  }

  lemma RegistryRootShape(hs: seq<Command>)
    requires |hs| == 9
    ensures RootShape(Registry(hs))
  {
  }

  lemma RegistryNewShape(hs: seq<Command>)
    requires |hs| == 9
    ensures NewShape(Registry(hs))
  {
  }

  lemma RegistryLeafShape(hs: seq<Command>)
    requires |hs| == 9
    ensures LeafShape(Registry(hs))
  {
  }

  /** The children of the finished trie's root, of "new", and of the
      branches that hold one command each. */
  lemma RootChildren(r: Nodes)
    requires WF(r) && RootShape(r)
    ensures ChildLabelled(r, 0, "help") == Some(1) && ChildLabelled(r, 0, "new") == Some(2)
    ensures ChildLabelled(r, 0, "rm") == Some(8)
  {
    ChildAt(r, 0, 0, "help");
    ChildAt(r, 0, 1, "new");
    ChildAt(r, 0, 2, "rm");
  }

  lemma RootChildrenPr(r: Nodes)
    requires WF(r) && RootShape(r)
    ensures ChildLabelled(r, 0, "list") == Some(11)
    ensures ChildLabelled(r, 0, "merge") == Some(13) && ChildLabelled(r, 0, "update") == Some(15)
  {
    ChildAt(r, 0, 3, "list");
    ChildAt(r, 0, 4, "merge");
    ChildAt(r, 0, 5, "update");
  }

  lemma RootLacks(r: Nodes)
    requires WF(r) && RootShape(r)
    ensures ChildLabelled(r, 0, "pr").None? && ChildLabelled(r, 0, "cred").None?
  {
  }

  lemma NewChildren(r: Nodes)
    requires WF(r) && NewShape(r)
    ensures ChildLabelled(r, 2, "g") == Some(3) && ChildLabelled(r, 2, "r") == Some(5)
    ensures ChildLabelled(r, 2, "cred") == Some(7) && ChildLabelled(r, 2, "pr") == Some(10)
  {
    ChildAt(r, 2, 0, "g");
    ChildAt(r, 2, 1, "r");
    ChildAt(r, 2, 2, "cred");
    ChildAt(r, 2, 3, "pr");
  }

  lemma LeafChildren(r: Nodes)
    requires WF(r) && LeafShape(r)
    ensures ChildLabelled(r, 3, "cred") == Some(4) && ChildLabelled(r, 5, "cred") == Some(6)
    ensures ChildLabelled(r, 8, "cred") == Some(9) && ChildLabelled(r, 11, "pr") == Some(12)
    ensures ChildLabelled(r, 13, "pr") == Some(14) && ChildLabelled(r, 15, "pr") == Some(16)
  {
    ChildAt(r, 3, 0, "cred");
    ChildAt(r, 5, 0, "cred");
    ChildAt(r, 8, 0, "cred");
    ChildAt(r, 11, 0, "pr");
    ChildAt(r, 13, 0, "pr");
    ChildAt(r, 15, 0, "pr");
  }

  /** Where the nine commands sit in the finished trie. */
  predicate CommandsAt(r: Nodes, hs: seq<Command>)
    requires |hs| == 9
  {
    |r| == 17 && r[2].Command.None?
    && r[1].Command == Some(hs[0]) && r[4].Command == Some(hs[1]) && r[6].Command == Some(hs[2])
    && r[7].Command == Some(hs[3]) && r[9].Command == Some(hs[4]) && r[10].Command == Some(hs[5])
    && r[12].Command == Some(hs[6]) && r[14].Command == Some(hs[7]) && r[16].Command == Some(hs[8])
  }

  lemma RegistryCommands(hs: seq<Command>, r: Nodes)
    requires |hs| == 9 && r == Registry(hs)
    ensures CommandsAt(r, hs)
  {
    var s8 := Stage8(hs);
    assert |s8| == 15 && s8[2].Command.None? && s8[1].Command == Some(hs[0]) && s8[4].Command == Some(hs[1]);
    assert s8[6].Command == Some(hs[2]) && s8[7].Command == Some(hs[3]) && s8[9].Command == Some(hs[4]);
    assert s8[10].Command == Some(hs[5]) && s8[12].Command == Some(hs[6]) && s8[14].Command == Some(hs[7]);
  }

  /** FindInChain along one, two or three labels, each the child of the
      one before; the labels of two and three are distinct. */
  lemma FindOne(n: Nodes, a: string, c: nat)
    requires WF(n) && |n| > 0 && ChildLabelled(n, 0, a) == Some(c)
    ensures FindInChain(n, 0, [a]) == n[c].Command
  {
  }

  lemma FindTwo(n: Nodes, a: string, x: string, c1: nat, c2: nat)
    requires WF(n) && |n| > 0 && a != x
    requires ChildLabelled(n, 0, a) == Some(c1) && c1 < |n| && ChildLabelled(n, c1, x) == Some(c2)
    ensures FindInChain(n, 0, [a, x]) == n[c2].Command
  {
    assert Follow(n, c1, [x]) == Some(c2);
    assert [a, x][1..] == [x];
    assert Distinct([a, x]);
    FindFollows(n, 0, [a, x]);
  }

  lemma FindThree(n: Nodes, a: string, x: string, y: string, c1: nat, c2: nat, c3: nat)
    requires WF(n) && |n| > 0 && a != x && a != y && x != y
    requires ChildLabelled(n, 0, a) == Some(c1) && c1 < |n| && ChildLabelled(n, c1, x) == Some(c2)
    requires c2 < |n| && ChildLabelled(n, c2, y) == Some(c3)
    ensures FindInChain(n, 0, [a, x, y]) == n[c3].Command
  {
    assert Follow(n, c2, [y]) == Some(c3);
    assert [x, y][1..] == [y];
    assert Follow(n, c1, [x, y]) == Some(c3);
    assert [a, x, y][1..] == [x, y];
    assert Distinct([a, x, y]);
    FindFollows(n, 0, [a, x, y]);
  }

  /** Two labels whose first labels no child of the root: it is skipped
      and the second decides alone. */
  lemma FindSkipFirst(n: Nodes, a: string, x: string, c: nat)
    requires WF(n) && |n| > 0 && ChildLabelled(n, 0, a).None? && ChildLabelled(n, 0, x) == Some(c)
    ensures FindInChain(n, 0, [a, x]) == n[c].Command
  {
    FindSkipsUnmatched(n, 0, [a, x], 1);
  }

  /** Looking up each registered chain in the finished trie (well formed,
      as StagesGrow shows) finds the command registered under it. */
  lemma RegistryFindsCred(hs: seq<Command>, r: Nodes)
    requires |hs| == 9 && r == Registry(hs) && WF(r)
    ensures FindInChain(r, 0, HelpChain) == Some(hs[0])
    ensures FindInChain(r, 0, NewGiteaCredChain) == Some(hs[1])
    ensures FindInChain(r, 0, NewRocketCredChain) == Some(hs[2])
    ensures FindInChain(r, 0, NewCredChain) == Some(hs[3])
    ensures FindInChain(r, 0, RmCredChain) == Some(hs[4])
  {
    RegistryShape(hs);
    RootChildren(r);
    NewChildren(r);
    LeafChildren(r);
    RegistryCommands(hs, r);
    FindOne(r, "help", 1);
    FindThree(r, "new", "g", "cred", 2, 3, 4);
    FindThree(r, "new", "r", "cred", 2, 5, 6);
    FindTwo(r, "new", "cred", 2, 7);
    FindTwo(r, "rm", "cred", 8, 9);
  }

  lemma RegistryFindsPr(hs: seq<Command>, r: Nodes)
    requires |hs| == 9 && r == Registry(hs) && WF(r)
    ensures FindInChain(r, 0, NewPrChain) == Some(hs[5])
    ensures FindInChain(r, 0, ListPrChain) == Some(hs[6])
    ensures FindInChain(r, 0, MergePrChain) == Some(hs[7])
    ensures FindInChain(r, 0, UpdatePrChain) == Some(hs[8])
  {
    RegistryShape(hs);
    RootChildren(r);
    RootChildrenPr(r);
    NewChildren(r);
    LeafChildren(r);
    RegistryCommands(hs, r);
    FindTwo(r, "new", "pr", 2, 10);
    FindTwo(r, "list", "pr", 11, 12);
    FindTwo(r, "merge", "pr", 13, 14);
    FindTwo(r, "update", "pr", 15, 16);
  }

  /** Strict order matters: "pr new" skips "pr", which labels no child of
      the root, and stops at "new", which holds no command, so nothing is
      found. */
  lemma RegistryOrderMatters(hs: seq<Command>, r: Nodes)
    requires |hs| == 9 && r == Registry(hs) && WF(r)
    ensures FindInChain(r, 0, ["pr", "new"]).None?
    ensures FindInChain(r, 0, ["cred", "new"]).None?
  {
    RegistryShape(hs);
    RootChildren(r);
    RootLacks(r);
    RegistryCommands(hs, r);
    FindSkipFirst(r, "pr", "new", 2);
    FindSkipFirst(r, "cred", "new", 2);
  }


  /** In the trie NewCtx builds, each chain of words dispatches to the
      handler registered under it. */
  lemma RegistryDispatch(c: Config, branch: string, draws: seq<int>)
    requires ValidDraws(draws, 8)
    ensures var r := Registry(Commands(c, branch, draws));
      && WF(r)
      && FindInChain(r, 0, HelpChain).Some? && FindInChain(r, 0, HelpChain).value.Handler == HelpCommand
      && FindInChain(r, 0, NewGiteaCredChain).Some? && FindInChain(r, 0, NewGiteaCredChain).value.Handler == NewGiteaCredCommand
      && FindInChain(r, 0, NewRocketCredChain).Some? && FindInChain(r, 0, NewRocketCredChain).value.Handler == NewRocketCredCommand
      && FindInChain(r, 0, NewCredChain).Some? && FindInChain(r, 0, NewCredChain).value.Handler == NewCredCommand
      && FindInChain(r, 0, RmCredChain).Some? && FindInChain(r, 0, RmCredChain).value.Handler == RmCredCommand
      && FindInChain(r, 0, NewPrChain).Some? && FindInChain(r, 0, NewPrChain).value.Handler == NewPrCommand
      && FindInChain(r, 0, ListPrChain).Some? && FindInChain(r, 0, ListPrChain).value.Handler == ListPrCommand
      && FindInChain(r, 0, MergePrChain).Some? && FindInChain(r, 0, MergePrChain).value.Handler == MergePrCommand
      && FindInChain(r, 0, UpdatePrChain).Some? && FindInChain(r, 0, UpdatePrChain).value.Handler == ClosePrCommand
  {
    var hs := Commands(c, branch, draws);
    StagesGrow(hs);
    RegistryFindsCred(hs, Registry(hs));
    RegistryFindsPr(hs, Registry(hs));
  }

  // ---------------------------------------------------------------------
  // NewCtx

  /** The registrations of NewCtx, in order, on an empty root: none
      panics and the trie ends as Registry. */
  method RegisterCommands(root: CommandTree, hs: seq<Command>)
    requires |hs| == 9 && root.Valid() && root.nodes == Stage0()
    modifies root
    ensures root.Valid() && root.nodes == Registry(hs)
  {
    var leaves, panicked := root.AddChainAnyOrder(0, hs[0], HelpChain);
    RegisterHelp(hs);
    assert !panicked && root.nodes == Stage1(hs);
    panicked := root.AddChainStrictOrder(0, hs[1], NewGiteaCredChain);
    RegisterNewGiteaCred(hs);
    assert !panicked && root.nodes == Stage2(hs);
    panicked := root.AddChainStrictOrder(0, hs[2], NewRocketCredChain);
    RegisterNewRocketCred(hs);
    assert !panicked && root.nodes == Stage3(hs);
    panicked := root.AddChainStrictOrder(0, hs[3], NewCredChain);
    RegisterNewCred(hs);
    assert !panicked && root.nodes == Stage4(hs);
    panicked := root.AddChainStrictOrder(0, hs[4], RmCredChain);
    RegisterRmCred(hs);
    assert !panicked && root.nodes == Stage5(hs);
    panicked := root.AddChainStrictOrder(0, hs[5], NewPrChain);
    RegisterNewPr(hs);
    assert !panicked && root.nodes == Stage6(hs);
    panicked := root.AddChainStrictOrder(0, hs[6], ListPrChain);
    RegisterListPr(hs);
    assert !panicked && root.nodes == Stage7(hs);
    panicked := root.AddChainStrictOrder(0, hs[7], MergePrChain);
    RegisterMergePr(hs);
    assert !panicked && root.nodes == Stage8(hs);
    panicked := root.AddChainStrictOrder(0, hs[8], UpdatePrChain);
    RegisterUpdatePr(hs);
  }

  /** NewCtx: a read or decode error gives no context and that error;
      otherwise the context holds the configuration and the trie of the
      nine commands. */
  method NewCtx(loaded: Result<Config, string>, branch: string, draws: seq<int>)
      returns (ctx: CmdCtx?, err: ErrorOpt)
    requires ValidDraws(draws, 8)
    ensures loaded.Err? ==> ctx == null && err == Some(loaded.error)
    ensures loaded.Ok? ==>
      && err.None? && ctx != null && fresh(ctx)
      && ctx.Config == Some(loaded.value)
      && ctx.CommandRoot == Registry(Commands(loaded.value, branch, draws))
  {
    if loaded.Err? {
      return null, Some(loaded.error);
    }
    var c := loaded.value;
    var hs := Commands(c, branch, draws);
    var root := new CommandTree();
    RegisterCommands(root, hs);
    ctx := new CmdCtx(root.nodes, Some(c));
    err := None;
  }
}
