/** The command trie of `cmd/helpers.go`. Each branch has a label, an
    optional command and an ordered list of children. The branches live in
    an arena (`CommandTree.nodes`); a child is referred to by its index,
    which is always larger than its parent's. Index 0 is the root. */
module CmdTrie {
  import opened Wrappers
  import opened CmdOptions

  /** The handler a command runs (methods of the command context). */
  datatype HandlerId =
    | HelpCommand | NewGiteaCredCommand | NewRocketCredCommand | NewCredCommand | RmCredCommand
    | NewPrCommand | ListPrCommand | MergePrCommand | ClosePrCommand

  /** `Command` of cmd/ctx.go: a description, a handler and its option
      descriptors. */
  datatype Command = Command(Desc: string, Handler: HandlerId, Opts: seq<CmdOpt>)

  datatype Branch = Branch(Str: string, Command: Option<Command>, Branches: seq<nat>)

  type Nodes = seq<Branch>

  /** Children are in the arena and come after their parent. */
  predicate WF(nodes: Nodes)
  {
    forall i, k :: 0 <= i < |nodes| && 0 <= k < |nodes[i].Branches| ==> i < nodes[i].Branches[k] < |nodes|
  }

  /** No two children of one branch share a label. */
  predicate SiblingsUnique(nodes: Nodes)
    requires WF(nodes)
  {
    forall i, j, k :: 0 <= i < |nodes| && 0 <= j < k < |nodes[i].Branches| ==>
      nodes[nodes[i].Branches[j]].Str != nodes[nodes[i].Branches[k]].Str
  }

  /** `a` can grow into `c`: labels stay, child lists are only appended to,
      and a command once attached stays. */
  predicate Grows(a: Nodes, c: Nodes)
  {
    |a| <= |c|
    && forall i :: 0 <= i < |a| ==>
         c[i].Str == a[i].Str && a[i].Branches <= c[i].Branches
         && (a[i].Command.Some? ==> c[i].Command == a[i].Command)
  }

  lemma GrowsTrans(a: Nodes, b: Nodes, c: Nodes)
    requires Grows(a, b) && Grows(b, c)
    ensures Grows(a, c)
  {
    forall i | 0 <= i < |a|
      ensures a[i].Branches <= c[i].Branches
    {
      assert a[i].Branches <= b[i].Branches <= c[i].Branches;
    }
  }

  // ---------------------------------------------------------------------
  // Looking up a child

  /** The first position from `j` on in `kids` whose branch is labelled
      `str`. */
  function PosFrom(nodes: Nodes, kids: seq<nat>, str: string, j: nat): (r: Option<nat>)
    requires forall k :: 0 <= k < |kids| ==> kids[k] < |nodes|
    ensures r.Some? ==>
      j <= r.value < |kids| && nodes[kids[r.value]].Str == str
      && forall m :: j <= m < r.value ==> nodes[kids[m]].Str != str
    ensures r.None? ==> forall m :: j <= m < |kids| ==> nodes[kids[m]].Str != str
    decreases |kids| - j
  {
    if j >= |kids| then None
    else if nodes[kids[j]].Str == str then Some(j)
    else PosFrom(nodes, kids, str, j + 1)
  }

  /** The first child of `b` labelled `str`, as the search loop of
      FindOrInsertBranch and FindInChain finds it. */
  function ChildLabelled(nodes: Nodes, b: nat, str: string): (r: Option<nat>)
    requires WF(nodes) && b < |nodes|
    ensures r.Some? ==> r.value in nodes[b].Branches && b < r.value < |nodes| && nodes[r.value].Str == str
    ensures r.None? <==> forall k :: 0 <= k < |nodes[b].Branches| ==> nodes[nodes[b].Branches[k]].Str != str
  {
    match PosFrom(nodes, nodes[b].Branches, str, 0)
    case None => None
    case Some(j) => Some(nodes[b].Branches[j])
  }

  /** FindOrInsertBranch as a function: the node list afterwards and the
      child found or appended. */
  function InsertChild(nodes: Nodes, b: nat, str: string): (r: (Nodes, nat))
    requires WF(nodes) && b < |nodes|
    ensures WF(r.0) && r.1 < |r.0| && Grows(nodes, r.0)
    ensures forall i :: 0 <= i < |nodes| ==> r.0[i].Command == nodes[i].Command
    ensures ChildLabelled(r.0, b, str) == Some(r.1)
    ensures ChildLabelled(nodes, b, str).Some? ==> r == (nodes, ChildLabelled(nodes, b, str).value)
    ensures ChildLabelled(nodes, b, str).None? ==>
      r.1 == |nodes|
      && r.0 == nodes[b := nodes[b].(Branches := nodes[b].Branches + [|nodes|])] + [Branch(str, None, [])]
  {
    match ChildLabelled(nodes, b, str)
    case Some(c) => (nodes, c)
    case None =>
      var r := nodes[b := nodes[b].(Branches := nodes[b].Branches + [|nodes|])] + [Branch(str, None, [])];
      AppendChild(nodes, b, str, r);
      (r, |nodes|)
  }

  /** The new child appended by FindOrInsertBranch is the first one with its
      label, and nothing else changes. */
  lemma AppendChild(nodes: Nodes, b: nat, str: string, r: Nodes)
    requires WF(nodes) && b < |nodes| && ChildLabelled(nodes, b, str).None?
    requires r == nodes[b := nodes[b].(Branches := nodes[b].Branches + [|nodes|])] + [Branch(str, None, [])]
    ensures WF(r) && Grows(nodes, r)
    ensures forall i :: 0 <= i < |nodes| ==> r[i].Command == nodes[i].Command
    ensures ChildLabelled(r, b, str) == Some(|nodes|)
  {
    var kids := nodes[b].Branches + [|nodes|];
    assert r[b].Branches == kids;
    assert forall i :: 0 <= i < |nodes| && i != b ==> r[i] == nodes[i];
    assert WF(r) by {
      forall i, k | 0 <= i < |r| && 0 <= k < |r[i].Branches|
        ensures i < r[i].Branches[k] < |r|
      {
        if i == b && k == |kids| - 1 {
        } else if i < |nodes| {
          assert r[i].Branches[k] == nodes[i].Branches[k];
        }
      }
    }
    assert PosFrom(r, kids, str, 0) == Some(|kids| - 1) by {
      forall m | 0 <= m < |kids| - 1
        ensures r[kids[m]].Str != str
      {
        var x := nodes[b].Branches[m];
        assert kids[m] == x && b < x < |nodes|;
        assert r[x] == nodes[x];
        assert nodes[nodes[b].Branches[m]].Str != str;
      }
      assert r[kids[|kids| - 1]].Str == str;
    }
  }

  /** SetCommandOrPanic as a function: None when the branch already has a
      command (the source panics). */
  function SetCommand(nodes: Nodes, b: nat, h: Command): (r: Option<Nodes>)
    requires b < |nodes|
    ensures r.None? <==> nodes[b].Command.Some?
    ensures r.Some? ==> r.value == nodes[b := nodes[b].(Command := Some(h))]
  {
    if nodes[b].Command.Some? then None else Some(nodes[b := nodes[b].(Command := Some(h))])
  }

  /** FindOrInsertBranch never creates a second child with the same
      label. */
  lemma InsertKeepsSiblingsUnique(nodes: Nodes, b: nat, str: string)
    requires WF(nodes) && b < |nodes| && SiblingsUnique(nodes)
    ensures SiblingsUnique(InsertChild(nodes, b, str).0)
  {
    var r := InsertChild(nodes, b, str).0;
    if ChildLabelled(nodes, b, str).None? {
      forall i, j, k | 0 <= i < |r| && 0 <= j < k < |r[i].Branches|
        ensures r[r[i].Branches[j]].Str != r[r[i].Branches[k]].Str
      {
        if i == b {
          var kids := nodes[b].Branches;
          if k == |kids| {
            assert r[r[i].Branches[j]] == nodes[kids[j]];
          } else {
            assert r[r[i].Branches[j]] == nodes[kids[j]];
            assert r[r[i].Branches[k]] == nodes[kids[k]];
          }
        } else if i < |nodes| {
          assert r[i] == nodes[i];
          var x, y := nodes[i].Branches[j], nodes[i].Branches[k];
          assert r[x].Str == nodes[x].Str && r[y].Str == nodes[y].Str;
        }
      }
    }
  }

  /** Attaching a command changes no label and no child list, so sibling
      labels stay distinct. */
  lemma SetCommandKeepsSiblingsUnique(nodes: Nodes, b: nat, h: Command)
    requires WF(nodes) && b < |nodes| && SiblingsUnique(nodes)
    ensures SetCommand(nodes, b, h).Some? ==> WF(SetCommand(nodes, b, h).value) && SiblingsUnique(SetCommand(nodes, b, h).value)
  {
    if SetCommand(nodes, b, h).Some? {
      var r := SetCommand(nodes, b, h).value;
      assert forall i :: 0 <= i < |nodes| ==> r[i].Str == nodes[i].Str && r[i].Branches == nodes[i].Branches;
    }
  }

  /** The nodes reached from `b` by following the labels of `path`, first
      match at each step. */
  function Follow(nodes: Nodes, b: nat, path: seq<string>): (r: Option<nat>)
    requires WF(nodes) && b < |nodes|
    ensures r.Some? ==> r.value < |nodes|
    decreases |path|
  {
    if |path| == 0 then Some(b)
    else match ChildLabelled(nodes, b, path[0])
      case None => None
      case Some(c) => Follow(nodes, c, path[1..])
  }

  /** The walk of AddChainStrictOrder: find or insert each label in turn. */
  function Walk(nodes: Nodes, b: nat, chain: seq<string>): (r: (Nodes, nat))
    requires WF(nodes) && b < |nodes|
    ensures WF(r.0) && r.1 < |r.0| && Grows(nodes, r.0)
    ensures forall i :: 0 <= i < |nodes| ==> r.0[i].Command == nodes[i].Command
    decreases |chain|
  {
    if |chain| == 0 then (nodes, b)
    else
      var (n1, c) := InsertChild(nodes, b, chain[0]);
      var r := Walk(n1, c, chain[1..]);
      GrowsTrans(nodes, n1, r.0);
      r
  }

  /** AddChainStrictOrder: the walk, then the command attached; None when
      it panics. */
  function AddStrict(nodes: Nodes, b: nat, h: Command, chain: seq<string>): (r: Option<Nodes>)
    requires WF(nodes) && b < |nodes|
    ensures r.Some? ==> WF(r.value) && Grows(nodes, r.value)
  {
    var (n1, e) := Walk(nodes, b, chain);
    SetCommand(n1, e, h)
  }

  // ---------------------------------------------------------------------
  // RemoveElementFromChain

  /** `s` without any occurrence of `x`, order kept. */
  function Without(s: seq<string>, x: string): (r: seq<string>)
    ensures |r| <= |s|
    ensures x !in r
  {
    if |s| == 0 then []
    else Without(s[..|s| - 1], x) + (if s[|s| - 1] != x then [s[|s| - 1]] else [])
  }

  function Blanks(n: nat): (r: seq<string>)
    ensures |r| == n && forall k :: 0 <= k < n ==> r[k] == ""
  {
    if n == 0 then [] else Blanks(n - 1) + [""]
  }

  lemma {:induction false} WithoutDrops(s: seq<string>, x: string)
    requires x in s
    ensures |Without(s, x)| < |s|
  {
    var n := |s| - 1;
    if s[n] != x {
      WithoutDrops(s[..n], x);
    }
  }

  /** RemoveElementFromChain: the elements different from `chain[i]`, in
      order, padded with empty strings to one less than the chain's
      length. */
  function RemoveElement(chain: seq<string>, i: nat): (r: seq<string>)
    requires i < |chain|
    ensures |r| == |chain| - 1
  {
    WithoutDrops(chain, chain[i]);
    var w := Without(chain, chain[i]);
    w + Blanks(|chain| - 1 - |w|)
  }

  /** Filling a fresh slice with index `z`. */
  method RemoveElementFromChain(chain: seq<string>, i: nat) returns (r: seq<string>)
    requires i < |chain|
    ensures r == RemoveElement(chain, i)
  {
    var c := new string[|chain| - 1](_ => "");
    var z := 0;
    for j := 0 to |chain|
      invariant z <= j && (i < j ==> z < j)
      invariant z <= c.Length
      invariant c[..z] == Without(chain[..j], chain[i])
      invariant forall k :: z <= k < c.Length ==> c[k] == ""
    {
      assert chain[..j + 1][..j] == chain[..j];
      if chain[j] != chain[i] {
        c[z] := chain[j];
        assert c[..z + 1] == c[..z] + [chain[j]];
        z := z + 1;
      }
    }
    assert chain[..|chain|] == chain;
    assert c[..] == c[..z] + c[z..];
    assert c[z..] == Blanks(c.Length - z);
    r := c[..];
  }

  // ---------------------------------------------------------------------
  // AddChainAnyOrder

  datatype AnyResult = AnyResult(nodes: Nodes, leaves: seq<nat>, panicked: bool)

  /** AddChainAnyOrder from branch `b`. */
  function AddAny(nodes: Nodes, b: nat, h: Command, chain: seq<string>): (r: AnyResult)
    requires WF(nodes) && b < |nodes|
    ensures WF(r.nodes) && |nodes| <= |r.nodes|
    decreases |chain|, |chain| + 1
  {
    AddAnyFrom(nodes, b, h, chain, 0, [])
  }

  /** The loop of AddChainAnyOrder from iteration `i`, with the leaves
      collected so far. */
  function AddAnyFrom(nodes: Nodes, b: nat, h: Command, chain: seq<string>, i: nat, leaves: seq<nat>): (r: AnyResult)
    requires WF(nodes) && b < |nodes| && i <= |chain|
    ensures WF(r.nodes) && |nodes| <= |r.nodes|
    decreases |chain|, |chain| - i
  {
    if i == |chain| then AnyResult(nodes, leaves, false)
    else
      var (n1, mb) := InsertChild(nodes, b, chain[i]);
      if |chain| == 1 then
        match SetCommand(n1, mb, h)
        case None => AnyResult(n1, leaves, true)
        case Some(n2) => AnyResult(n2, [mb], false)
      else
        var sub := AddAny(n1, mb, h, RemoveElement(chain, i));
        if sub.panicked then AnyResult(sub.nodes, leaves, true)
        else AddAnyFrom(sub.nodes, b, h, chain, i + 1, leaves + sub.leaves)
  }

  /** One iteration of the AddChainAnyOrder loop, for a chain of two or
      more labels: find or insert the child, recurse below it, and either
      stop on a panic or go on with iteration `i + 1`. */
  lemma AddAnyFromStep(nodes: Nodes, b: nat, h: Command, chain: seq<string>, i: nat, leaves: seq<nat>, r: AnyResult)
      returns (n1: Nodes, mb: nat, sub: AnyResult)
    requires WF(nodes) && b < |nodes| && |chain| >= 2 && i < |chain|
    requires r == AddAnyFrom(nodes, b, h, chain, i, leaves)
    ensures (n1, mb) == InsertChild(nodes, b, chain[i]) && WF(n1) && mb < |n1|
    ensures Grows(nodes, n1) && ChildLabelled(n1, b, chain[i]) == Some(mb)
    ensures sub == AddAny(n1, mb, h, RemoveElement(chain, i))
    ensures WF(sub.nodes) && b < |sub.nodes|
    ensures sub.panicked ==> r == AnyResult(sub.nodes, leaves, true)
    ensures !sub.panicked ==> r == AddAnyFrom(sub.nodes, b, h, chain, i + 1, leaves + sub.leaves)
  {
    n1, mb := InsertChild(nodes, b, chain[i]).0, InsertChild(nodes, b, chain[i]).1;
    sub := AddAny(n1, mb, h, RemoveElement(chain, i));
  }

  // ---------------------------------------------------------------------
  // FindInChain

  /** FindInChain: scan the arguments left to right; the first one that
      labels a child decides, by returning that child's command when it is
      the last argument and otherwise searching below it without that
      argument. None stands for nil. */
  function FindInChain(nodes: Nodes, b: nat, args: seq<string>): Option<Command>
    requires WF(nodes) && b < |nodes|
    decreases |args|, |args| + 1
  {
    FindFrom(nodes, b, args, 0)
  }

  function FindFrom(nodes: Nodes, b: nat, args: seq<string>, i: nat): Option<Command>
    requires WF(nodes) && b < |nodes|
    decreases |args|, |args| - i
  {
    if i >= |args| then None
    else match ChildLabelled(nodes, b, args[i])
      case None => FindFrom(nodes, b, args, i + 1)
      case Some(c) =>
        if i == |args| - 1 then nodes[c].Command
        else FindInChain(nodes, c, RemoveElement(args, i))
  }

  // ---------------------------------------------------------------------
  // The tree

  class CommandTree {
    var nodes: Nodes

    /** The arena is well formed and no branch has two children with the
        same label, so a label names at most one child. */
    predicate Valid()
      reads this
    {
      |nodes| > 0 && WF(nodes) && SiblingsUnique(nodes)
    }

    /** An empty root branch. */
    constructor()
      ensures Valid() && nodes == [Branch("", None, [])]
    {
      nodes := [Branch("", None, [])];
    }

    method FindOrInsertBranch(b: nat, str: string) returns (mb: nat)
      requires Valid() && b < |nodes|
      modifies this
      ensures Valid() && (nodes, mb) == InsertChild(old(nodes), b, str)
    {
      InsertKeepsSiblingsUnique(nodes, b, str);
      var kids := nodes[b].Branches;
      var found := false;
      mb := 0;
      var j := 0;
      while j < |kids|
        invariant 0 <= j <= |kids|
        invariant PosFrom(nodes, kids, str, 0) == PosFrom(nodes, kids, str, j)
      {
        if nodes[kids[j]].Str == str {
          mb, found := kids[j], true;
          break;
        }
        j := j + 1;
      }
      if !found {
        mb := |nodes|;
        nodes := nodes[b := nodes[b].(Branches := kids + [mb])] + [Branch(str, None, [])];
      }
    }

    method SetCommandOrPanic(b: nat, h: Command) returns (panicked: bool)
      requires Valid() && b < |nodes|
      modifies this
      ensures panicked <==> SetCommand(old(nodes), b, h).None?
      ensures panicked ==> nodes == old(nodes)
      ensures !panicked ==> nodes == SetCommand(old(nodes), b, h).value
      ensures Valid()
    {
      SetCommandKeepsSiblingsUnique(nodes, b, h);
      if nodes[b].Command.Some? {
        return true;
      }
      nodes := nodes[b := nodes[b].(Command := Some(h))];
      return false;
    }

    method AddChainStrictOrder(b: nat, h: Command, chain: seq<string>) returns (panicked: bool)
      requires Valid() && b < |nodes|
      modifies this
      ensures panicked <==> AddStrict(old(nodes), b, h, chain).None?
      ensures !panicked ==> nodes == AddStrict(old(nodes), b, h, chain).value
      ensures Valid()
    {
      ghost var goal := Walk(nodes, b, chain);
      var mb: nat := b;
      for i := 0 to |chain|
        invariant Valid() && mb < |nodes|
        invariant Walk(nodes, mb, chain[i..]) == goal
      {
        assert chain[i..][1..] == chain[i + 1..];
        mb := FindOrInsertBranch(mb, chain[i]);
      }
      panicked := SetCommandOrPanic(mb, h);
    }

    method AddChainAnyOrder(b: nat, h: Command, chain: seq<string>) returns (leaves: seq<nat>, panicked: bool)
      requires Valid() && b < |nodes|
      modifies this
      ensures AnyResult(nodes, leaves, panicked) == AddAny(old(nodes), b, h, chain)
      ensures Valid()
      decreases |chain|
    {
      ghost var goal := AddAny(nodes, b, h, chain);
      var l := |chain|;
      leaves := [];
      var i := 0;
      while i < l
        invariant 0 <= i <= l && Valid() && b < |nodes|
        invariant AddAnyFrom(nodes, b, h, chain, i, leaves) == goal
      {
        ghost var before := nodes;
        var mb := FindOrInsertBranch(b, chain[i]);
        if l == 1 {
          panicked := SetCommandOrPanic(mb, h);
          if panicked {
            return;
          }
          return [mb], false;
        }
        ghost var n1, gmb, step := AddAnyFromStep(before, b, h, chain, i, leaves, goal);
        assert nodes == n1 && mb == gmb;
        var chainWithoutOne := RemoveElementFromChain(chain, i);
        var sub;
        sub, panicked := AddChainAnyOrder(mb, h, chainWithoutOne);
        assert AnyResult(nodes, sub, panicked) == step;
        if panicked {
          return;
        }
        leaves := leaves + sub;
        i := i + 1;
      }
      panicked := false;
    }
  }
}
