/** What the command trie promises: unique sibling labels, strict-order
    registration reaching its node and refusing a second command there,
    the chain with one element removed, any-order registration reaching its
    node along every permutation, and FindInChain finding what was
    registered. */
module CmdTrieProps {
  import opened Wrappers
  import opened CmdTrie

  // ---------------------------------------------------------------------
  // Growth keeps lookups

  lemma ChildStable(a: Nodes, c: Nodes, b: nat, s: string)
    requires WF(a) && WF(c) && Grows(a, c) && b < |a|
    requires ChildLabelled(a, b, s).Some?
    ensures ChildLabelled(c, b, s) == ChildLabelled(a, b, s)
  {
    var ka, kc := a[b].Branches, c[b].Branches;
    assert ka <= kc;
    var j := PosFrom(a, ka, s, 0).value;
    forall m | 0 <= m <= j
      ensures kc[m] == ka[m] && c[kc[m]].Str == a[ka[m]].Str
    {
    }
    assert c[kc[j]].Str == s;
  }

  /** A path that leads somewhere keeps leading there as the tree grows. */
  lemma {:induction false} FollowStable(a: Nodes, c: Nodes, b: nat, p: seq<string>)
    requires WF(a) && WF(c) && Grows(a, c) && b < |a|
    requires Follow(a, b, p).Some?
    ensures Follow(c, b, p) == Follow(a, b, p)
    decreases |p|
  {
    if |p| > 0 {
      ChildStable(a, c, b, p[0]);
      FollowStable(a, c, ChildLabelled(a, b, p[0]).value, p[1..]);
    }
  }

  /** A command reached along `p` stays reachable there. */
  predicate Reaches(nodes: Nodes, b: nat, p: seq<string>, h: Command)
    requires WF(nodes) && b < |nodes|
  {
    Follow(nodes, b, p).Some? && nodes[Follow(nodes, b, p).value].Command == Some(h)
  }

  lemma ReachesStable(a: Nodes, c: Nodes, b: nat, p: seq<string>, h: Command)
    requires WF(a) && WF(c) && Grows(a, c) && b < |a|
    requires Reaches(a, b, p, h)
    ensures Reaches(c, b, p, h)
  {
    FollowStable(a, c, b, p);
  }

  // ---------------------------------------------------------------------
  // AddChainStrictOrder

  /** The walk ends at the node its chain leads to; if the chain already led
      somewhere nothing is inserted, and otherwise the end is a new node
      without a command. */
  lemma {:induction false} WalkEnds(nodes: Nodes, b: nat, chain: seq<string>)
    requires WF(nodes) && b < |nodes|
    ensures Follow(Walk(nodes, b, chain).0, b, chain) == Some(Walk(nodes, b, chain).1)
    ensures Follow(nodes, b, chain).Some? ==> Walk(nodes, b, chain) == (nodes, Follow(nodes, b, chain).value)
    ensures Follow(nodes, b, chain).None? ==> Walk(nodes, b, chain).0[Walk(nodes, b, chain).1].Command.None?
    decreases |chain|
  {
    if |chain| > 0 {
      var (n1, c) := InsertChild(nodes, b, chain[0]);
      WalkEnds(n1, c, chain[1..]);
      var w := Walk(n1, c, chain[1..]);
      ChildStable(n1, w.0, b, chain[0]);
      if ChildLabelled(nodes, b, chain[0]).None? && |chain| > 1 {
        assert n1[c].Branches == [];
        assert Follow(n1, c, chain[1..]).None?;
      }
    }
  }

  /** After a strict-order registration the chain leads to the command. */
  lemma AddStrictReaches(nodes: Nodes, b: nat, h: Command, chain: seq<string>)
    requires WF(nodes) && b < |nodes|
    requires AddStrict(nodes, b, h, chain).Some?
    ensures Reaches(AddStrict(nodes, b, h, chain).value, b, chain, h)
  {
    var (n1, e) := Walk(nodes, b, chain);
    WalkEnds(nodes, b, chain);
    FollowStable(n1, AddStrict(nodes, b, h, chain).value, b, chain);
  }

  /** It panics exactly when the chain already leads to a branch that has a
      command. */
  lemma AddStrictPanics(nodes: Nodes, b: nat, h: Command, chain: seq<string>)
    requires WF(nodes) && b < |nodes|
    ensures AddStrict(nodes, b, h, chain).None? <==>
      Follow(nodes, b, chain).Some? && nodes[Follow(nodes, b, chain).value].Command.Some?
  {
    WalkEnds(nodes, b, chain);
  }

  /** Registering the same chain a second time panics instead of
      overwriting. */
  lemma RegisterTwicePanics(nodes: Nodes, b: nat, h: Command, h2: Command, chain: seq<string>)
    requires WF(nodes) && b < |nodes|
    requires AddStrict(nodes, b, h, chain).Some?
    ensures AddStrict(AddStrict(nodes, b, h, chain).value, b, h2, chain).None?
  {
    AddStrictReaches(nodes, b, h, chain);
    AddStrictPanics(AddStrict(nodes, b, h, chain).value, b, h2, chain);
  }

  // ---------------------------------------------------------------------
  // Sibling labels stay unique

  /** The walk only ever finds or inserts, so it keeps sibling labels
      distinct. */
  lemma {:induction false} WalkKeeps(nodes: Nodes, b: nat, chain: seq<string>)
    requires WF(nodes) && b < |nodes| && SiblingsUnique(nodes)
    ensures SiblingsUnique(Walk(nodes, b, chain).0)
    decreases |chain|
  {
    if |chain| > 0 {
      InsertKeepsSiblingsUnique(nodes, b, chain[0]);
      var (n1, c) := InsertChild(nodes, b, chain[0]);
      WalkKeeps(n1, c, chain[1..]);
    }
  }

  /** A strict-order registration that does not panic keeps sibling labels
      distinct. */
  lemma AddStrictKeeps(nodes: Nodes, b: nat, h: Command, chain: seq<string>)
    requires WF(nodes) && b < |nodes| && SiblingsUnique(nodes)
    ensures AddStrict(nodes, b, h, chain).Some? ==> SiblingsUnique(AddStrict(nodes, b, h, chain).value)
  {
    WalkKeeps(nodes, b, chain);
    var (n1, e) := Walk(nodes, b, chain);
    SetCommandKeepsSiblingsUnique(n1, e, h);
  }

  /** Any-order registration keeps sibling labels distinct, panic or not. */
  lemma {:induction false} AddAnyKeeps(nodes: Nodes, b: nat, h: Command, chain: seq<string>)
    requires WF(nodes) && b < |nodes| && SiblingsUnique(nodes)
    ensures SiblingsUnique(AddAny(nodes, b, h, chain).nodes)
    decreases |chain|, |chain| + 1
  {
    AddAnyFromKeeps(nodes, b, h, chain, 0, []);
  }

  lemma {:induction false} AddAnyFromKeeps(nodes: Nodes, b: nat, h: Command, chain: seq<string>, i: nat, leaves: seq<nat>)
    requires WF(nodes) && b < |nodes| && i <= |chain| && SiblingsUnique(nodes)
    ensures SiblingsUnique(AddAnyFrom(nodes, b, h, chain, i, leaves).nodes)
    decreases |chain|, |chain| - i
  {
    if i < |chain| {
      InsertKeepsSiblingsUnique(nodes, b, chain[i]);
      if |chain| == 1 {
        var (n1, mb) := InsertChild(nodes, b, chain[i]);
        SetCommandKeepsSiblingsUnique(n1, mb, h);
      } else {
        var n1, mb, sub := AddAnyFromStep(nodes, b, h, chain, i, leaves, AddAnyFrom(nodes, b, h, chain, i, leaves));
        AddAnyKeeps(n1, mb, h, RemoveElement(chain, i));
        if !sub.panicked {
          AddAnyFromKeeps(sub.nodes, b, h, chain, i + 1, leaves + sub.leaves);
        }
      }
    }
  }

  // ---------------------------------------------------------------------
  // RemoveElementFromChain

  predicate Distinct(s: seq<string>)
  {
    forall i, j :: 0 <= i < j < |s| ==> s[i] != s[j]
  }

  lemma {:induction false} WithoutAbsent(s: seq<string>, x: string)
    requires x !in s
    ensures Without(s, x) == s
  {
    if |s| > 0 {
      WithoutAbsent(s[..|s| - 1], x);
    }
  }

  lemma {:induction false} WithoutConcat(a: seq<string>, c: seq<string>, x: string)
    ensures Without(a + c, x) == Without(a, x) + Without(c, x)
    decreases |c|
  {
    if |c| == 0 {
      assert a + c == a;
    } else {
      var n := |c| - 1;
      assert (a + c)[..|a + c| - 1] == a + c[..n];
      WithoutConcat(a, c[..n], x);
    }
  }

  /** Removing element `i` leaves every other value as often as before, and
      that value not at all; only empty strings are added. */
  lemma {:induction false} WithoutCounts(s: seq<string>, x: string)
    ensures multiset(Without(s, x)) == multiset(s)[x := 0]
  {
    if |s| > 0 {
      var n := |s| - 1;
      WithoutCounts(s[..n], x);
      assert s == s[..n] + [s[n]];
    }
  }

  lemma RemoveElementSpec(chain: seq<string>, i: nat)
    requires i < |chain|
    ensures |RemoveElement(chain, i)| == |chain| - 1
    ensures RemoveElement(chain, i)[..|Without(chain, chain[i])|] == Without(chain, chain[i])
    ensures forall k :: |Without(chain, chain[i])| <= k < |chain| - 1 ==> RemoveElement(chain, i)[k] == ""
    ensures multiset(Without(chain, chain[i])) == multiset(chain)[chain[i] := 0]
  {
    WithoutCounts(chain, chain[i]);
  }

  /** For distinct elements it is the chain with position `i` cut out. */
  lemma RemoveElementDistinct(chain: seq<string>, i: nat)
    requires i < |chain| && Distinct(chain)
    ensures RemoveElement(chain, i) == chain[..i] + chain[i + 1..]
  {
    var x := chain[i];
    assert x !in chain[..i] by {
      forall k | 0 <= k < i
        ensures chain[..i][k] != x
      {
        assert chain[k] != chain[i];
      }
    }
    assert x !in chain[i + 1..] by {
      forall k | i + 1 <= k < |chain|
        ensures chain[k] != x
      {
        assert chain[i] != chain[k];
      }
    }
    assert chain == chain[..i] + [x] + chain[i + 1..];
    WithoutSingle(chain[..i], x, chain[i + 1..]);
    assert Blanks(0) == [];
  }

  lemma WithoutSingle(a: seq<string>, x: string, c: seq<string>)
    requires x !in a && x !in c
    ensures Without(a + [x] + c, x) == a + c
  {
    assert Without([x], x) == [] by {
      assert [x][..0] == [];
    }
    assert Without(a + [x], x) == a by {
      WithoutConcat(a, [x], x);
      WithoutAbsent(a, x);
    }
    assert Without(c, x) == c by {
      WithoutAbsent(c, x);
    }
    WithoutConcat(a + [x], c, x);
  }

  /** With a duplicate of the removed value, the tail is padded with
      empty strings. */
  lemma RemoveElementDuplicate()
    ensures RemoveElement(["a", "b", "a"], 0) == ["b", ""]
  {
    var s := ["a", "b", "a"];
    assert s[..2] == ["a", "b"];
    assert s[..2][..1] == ["a"];
    assert s[..2][..1][..0] == [];
    assert Without(s[..2][..1], "a") == [];
    assert Without(s[..2], "a") == ["b"];
    assert Without(s, "a") == ["b"];
    assert Blanks(1) == [""];
  }

  /** A value occurring in a distinct sequence or a permutation of it:
      distinctness is a statement about multiplicities. */
  lemma {:induction false} DistinctCounts(s: seq<string>)
    ensures Distinct(s) <==> forall x :: multiset(s)[x] <= 1
  {
    if |s| > 0 {
      var t := s[1..];
      assert s == [s[0]] + t;
      DistinctCounts(t);
      if Distinct(s) {
        assert s[0] !in t;
        assert Distinct(t) by {
          forall i, j | 0 <= i < j < |t|
            ensures t[i] != t[j]
          {
            assert t[i] == s[i + 1] && t[j] == s[j + 1];
          }
        }
      } else {
        var i, j :| 0 <= i < j < |s| && s[i] == s[j];
        if i == 0 {
          assert s[j] in t;
          assert multiset(s)[s[0]] == 1 + multiset(t)[s[0]];
          assert multiset(s)[s[0]] > 1;
        } else {
          assert t[i - 1] == t[j - 1];
          assert !Distinct(t);
          var x :| multiset(t)[x] > 1;
          assert multiset(s)[x] >= multiset(t)[x];
        }
      }
    }
  }

  lemma DistinctPermutation(chain: seq<string>, p: seq<string>)
    requires Distinct(chain) && multiset(p) == multiset(chain)
    ensures Distinct(p)
  {
    DistinctCounts(chain);
    DistinctCounts(p);
  }

  // ---------------------------------------------------------------------
  // AddChainAnyOrder

  /** An empty chain attaches nothing. */
  lemma AddAnyEmpty(nodes: Nodes, b: nat, h: Command)
    requires WF(nodes) && b < |nodes|
    ensures AddAny(nodes, b, h, []) == AnyResult(nodes, [], false)
  {
  }

  /** n!, written as n copies of (n-1)! added up so that the counting
      proofs stay linear; FactIsProduct gives the usual form. */
  function Fact(n: nat): nat
  {
    if n == 0 then 1 else Times(n, Fact(n - 1))
  }

  lemma FactIsProduct(n: nat)
    requires n > 0
    ensures Fact(n) == n * Fact(n - 1)
  {
    TimesIsProduct(n, Fact(n - 1));
  }

  /** A chain of `n` labels yields `n!` leaves, one per permutation. */
  lemma AddAnyLeaves(nodes: Nodes, b: nat, h: Command, chain: seq<string>)
    requires WF(nodes) && b < |nodes| && |chain| >= 1
    ensures !AddAny(nodes, b, h, chain).panicked ==> |AddAny(nodes, b, h, chain).leaves| == Fact(|chain|)
  {
    AddAnyCount(nodes, b, h, chain, AddAny(nodes, b, h, chain));
  }

  lemma {:induction false} AddAnyCount(nodes: Nodes, b: nat, h: Command, chain: seq<string>, r: AnyResult)
    requires WF(nodes) && b < |nodes| && |chain| >= 1
    requires r == AddAny(nodes, b, h, chain)
    ensures !r.panicked ==> |r.leaves| == Fact(|chain|)
    decreases |chain|, |chain| + 1
  {
    assert r == AddAnyFrom(nodes, b, h, chain, 0, []);
    if |chain| >= 2 {
      AddAnyFromCount(nodes, b, h, chain, 0, [], Fact(|chain| - 1), r);
    } else {
      var (n1, mb) := InsertChild(nodes, b, chain[0]);
      assert !r.panicked ==> r.leaves == [mb];
    }
  }

  /** From iteration `i` on, each remaining label adds (n-1)! leaves. */
  lemma {:induction false} AddAnyFromCount(nodes: Nodes, b: nat, h: Command, chain: seq<string>, i: nat, leaves: seq<nat>, f: nat, r: AnyResult)
    requires WF(nodes) && b < |nodes| && |chain| >= 2 && i <= |chain| && f == Fact(|chain| - 1)
    requires r == AddAnyFrom(nodes, b, h, chain, i, leaves)
    ensures !r.panicked ==> |r.leaves| == |leaves| + Times(|chain| - i, f)
    decreases |chain|, |chain| - i
  {
    if i < |chain| {
      var n1, mb, sub := AddAnyFromStep(nodes, b, h, chain, i, leaves, r);
      AddAnyCount(n1, mb, h, RemoveElement(chain, i), sub);
      if !sub.panicked {
        AddAnyFromCount(sub.nodes, b, h, chain, i + 1, leaves + sub.leaves, f, r);
      }
    }
  }

  /** `k` copies of `f` added up. */
  function Times(k: nat, f: nat): nat
  {
    if k == 0 then 0 else f + Times(k - 1, f)
  }

  lemma {:induction false} TimesIsProduct(k: nat, f: nat)
    ensures Times(k, f) == k * f
  {
    if k > 0 {
      TimesIsProduct(k - 1, f);
    }
  }

  /** Following the first label to a child and then the rest. */
  lemma FollowStep(nodes: Nodes, b: nat, p: seq<string>, c: nat)
    requires WF(nodes) && b < |nodes| && |p| > 0 && ChildLabelled(nodes, b, p[0]) == Some(c)
    ensures Follow(nodes, b, p) == Follow(nodes, c, p[1..])
  {
  }

  /** A permutation of the chain that starts with `chain[i]` continues
      with a permutation of the rest. */
  lemma PermutationTail(chain: seq<string>, i: nat, p: seq<string>)
    requires i < |chain| && multiset(p) == multiset(chain) && |p| > 0 && p[0] == chain[i]
    ensures multiset(p[1..]) == multiset(chain[..i] + chain[i + 1..])
  {
    var x := chain[i];
    var tail, rest := multiset(p[1..]), multiset(chain[..i] + chain[i + 1..]);
    assert multiset{x} + rest == multiset(chain) by {
      assert chain == chain[..i] + [x] + chain[i + 1..];
    }
    assert multiset{x} + tail == multiset(p) by {
      assert p == [x] + p[1..];
    }
    MultisetCancel(x, tail, rest);
  }

  lemma MultisetCancel(x: string, a: multiset<string>, c: multiset<string>)
    requires multiset{x} + a == multiset{x} + c
    ensures a == c
  {
    forall y
      ensures a[y] == c[y]
    {
      assert (multiset{x} + a)[y] == (multiset{x} + c)[y];
    }
  }

  /** Every permutation of `chain` leads from `b` to the command `h`. */
  ghost predicate AllReach(nodes: Nodes, b: nat, h: Command, chain: seq<string>)
    requires WF(nodes) && b < |nodes|
  {
    forall p :: multiset(p) == multiset(chain) ==> Reaches(nodes, b, p, h)
  }

  /** The same for the permutations that start with one of the first `i`
      labels. */
  ghost predicate PrefixReaches(nodes: Nodes, b: nat, h: Command, chain: seq<string>, i: nat)
    requires WF(nodes) && b < |nodes| && i <= |chain|
  {
    forall p :: multiset(p) == multiset(chain) && |p| > 0 && p[0] in chain[..i] ==> Reaches(nodes, b, p, h)
  }

  /** Removing a label from a distinct chain leaves a distinct chain. */
  lemma RemoveKeepsDistinct(chain: seq<string>, i: nat)
    requires i < |chain| && Distinct(chain)
    ensures Distinct(RemoveElement(chain, i))
  {
    RemoveElementDistinct(chain, i);
    var rem := chain[..i] + chain[i + 1..];
    forall x, y | 0 <= x < y < |rem|
      ensures rem[x] != rem[y]
    {
      var x', y' := if x < i then x else x + 1, if y < i then y else y + 1;
      assert rem[x] == chain[x'] && rem[y] == chain[y'];
    }
  }

  /** Any-order registration only grows the tree. */
  lemma {:induction false} AddAnyGrows(nodes: Nodes, b: nat, h: Command, chain: seq<string>, r: AnyResult)
    requires WF(nodes) && b < |nodes| && r == AddAny(nodes, b, h, chain)
    ensures Grows(nodes, r.nodes)
    decreases |chain|, |chain| + 1
  {
    AddAnyFromGrows(nodes, b, h, chain, 0, [], r);
  }

  lemma {:induction false} AddAnyFromGrows(nodes: Nodes, b: nat, h: Command, chain: seq<string>, i: nat, leaves: seq<nat>, r: AnyResult)
    requires WF(nodes) && b < |nodes| && i <= |chain| && r == AddAnyFrom(nodes, b, h, chain, i, leaves)
    ensures Grows(nodes, r.nodes)
    decreases |chain|, |chain| - i
  {
    if i < |chain| {
      if |chain| == 1 {
        AddAnySingleGrows(nodes, b, h, chain, i, leaves, r);
      } else {
        var n1, mb, sub := AddAnyFromStep(nodes, b, h, chain, i, leaves, r);
        AddAnyGrows(n1, mb, h, RemoveElement(chain, i), sub);
        GrowsTrans(nodes, n1, sub.nodes);
        if !sub.panicked {
          AddAnyFromGrows(sub.nodes, b, h, chain, i + 1, leaves + sub.leaves, r);
          GrowsTrans(nodes, sub.nodes, r.nodes);
        }
      }
    }
  }

  lemma AddAnySingleGrows(nodes: Nodes, b: nat, h: Command, chain: seq<string>, i: nat, leaves: seq<nat>, r: AnyResult)
    requires WF(nodes) && b < |nodes| && i < |chain| == 1 && r == AddAnyFrom(nodes, b, h, chain, i, leaves)
    ensures Grows(nodes, r.nodes)
  {
    var (n1, mb) := InsertChild(nodes, b, chain[i]);
    assert Grows(n1, r.nodes) by {
      match SetCommand(n1, mb, h)
      case None => assert r.nodes == n1;
      case Some(n2) => assert r.nodes == n2;
    }
    GrowsTrans(nodes, n1, r.nodes);
  }

  /** With distinct labels, any-order registration makes every permutation
      of the chain lead to the command. */
  lemma AddAnyReaches(nodes: Nodes, b: nat, h: Command, chain: seq<string>)
    requires WF(nodes) && b < |nodes| && |chain| >= 1 && Distinct(chain)
    ensures var r := AddAny(nodes, b, h, chain);
      !r.panicked ==> forall p :: multiset(p) == multiset(chain) ==> Reaches(r.nodes, b, p, h)
  {
    AddAnyReachesAll(nodes, b, h, chain, AddAny(nodes, b, h, chain));
  }

  lemma {:induction false} AddAnyReachesAll(nodes: Nodes, b: nat, h: Command, chain: seq<string>, r: AnyResult)
    requires WF(nodes) && b < |nodes| && |chain| >= 1 && Distinct(chain)
    requires r == AddAny(nodes, b, h, chain)
    ensures !r.panicked ==> AllReach(r.nodes, b, h, chain)
    decreases |chain|, |chain| + 1
  {
    assert r == AddAnyFrom(nodes, b, h, chain, 0, []);
    if |chain| == 1 {
      var (n1, mb) := InsertChild(nodes, b, chain[0]);
      if !r.panicked {
        var n2 := SetCommand(n1, mb, h).value;
        assert r.nodes == n2;
        assert Grows(n1, n2);
        ChildStable(n1, n2, b, chain[0]);
        forall p | multiset(p) == multiset(chain)
          ensures Reaches(r.nodes, b, p, h)
        {
          assert |p| == |multiset(p)| == 1;
          assert p[0] in multiset(chain);
          assert p == chain;
          assert Follow(n2, b, p) == Some(mb);
        }
      }
    } else {
      AddAnyFromReaches(nodes, b, h, chain, 0, [], r);
    }
  }

  /** The loop invariant: after iteration `i - 1`, every permutation whose
      first label is among the first `i` labels of the chain reaches `h`. */
  lemma {:induction false} AddAnyFromReaches(nodes: Nodes, b: nat, h: Command, chain: seq<string>, i: nat, leaves: seq<nat>, r: AnyResult)
    requires WF(nodes) && b < |nodes| && |chain| >= 2 && i <= |chain| && Distinct(chain)
    requires PrefixReaches(nodes, b, h, chain, i)
    requires r == AddAnyFrom(nodes, b, h, chain, i, leaves)
    ensures !r.panicked ==> AllReach(r.nodes, b, h, chain)
    decreases |chain|, |chain| - i
  {
    if i == |chain| {
      assert r.nodes == nodes;
      forall p | multiset(p) == multiset(chain)
        ensures Reaches(nodes, b, p, h)
      {
        assert |p| == |chain|;
        assert p[0] in multiset(chain);
        assert chain[..i] == chain;
      }
    } else {
      var n1, mb, sub := AddAnyFromStep(nodes, b, h, chain, i, leaves, r);
      var rem := RemoveElement(chain, i);
      RemoveKeepsDistinct(chain, i);
      AddAnyReachesAll(n1, mb, h, rem, sub);
      AddAnyGrows(n1, mb, h, rem, sub);
      if !sub.panicked {
        BranchReaches(nodes, n1, sub.nodes, b, mb, h, chain, i);
        AddAnyFromReaches(sub.nodes, b, h, chain, i + 1, leaves + sub.leaves, r);
      }
    }
  }

  /** One iteration keeps the invariant: the permutations starting with
      `chain[i]` now reach `h` through the child `mb`, and the earlier ones
      still do. */
  lemma BranchReaches(nodes: Nodes, n1: Nodes, n2: Nodes, b: nat, mb: nat, h: Command, chain: seq<string>, i: nat)
    requires WF(nodes) && WF(n1) && WF(n2) && b < |nodes| && i < |chain| && Distinct(chain)
    requires Grows(nodes, n1) && Grows(n1, n2) && mb < |n1|
    requires ChildLabelled(n1, b, chain[i]) == Some(mb)
    requires mb < |n2| && AllReach(n2, mb, h, RemoveElement(chain, i))
    requires PrefixReaches(nodes, b, h, chain, i)
    ensures PrefixReaches(n2, b, h, chain, i + 1)
  {
    ChildStable(n1, n2, b, chain[i]);
    GrowsTrans(nodes, n1, n2);
    forall p | multiset(p) == multiset(chain) && |p| > 0 && p[0] in chain[..i + 1]
      ensures Reaches(n2, b, p, h)
    {
      if p[0] in chain[..i] {
        ReachesStable(nodes, n2, b, p, h);
      } else {
        var k :| 0 <= k < i + 1 && chain[..i + 1][k] == p[0];
        assert k == i;
        PermutationTail(chain, i, p);
        RemoveElementDistinct(chain, i);
        assert Reaches(n2, mb, p[1..], h);
        FollowStep(n2, b, p, mb);
      }
    }
  }

  // ---------------------------------------------------------------------
  // FindInChain

  lemma FindEmpty(nodes: Nodes, b: nat)
    requires WF(nodes) && b < |nodes|
    ensures FindInChain(nodes, b, []).None?
  {
  }

  /** Arguments that label no child are skipped: the first one that does
      decides. */
  lemma {:induction false} FindSkipsUnmatched(nodes: Nodes, b: nat, args: seq<string>, k: nat)
    requires WF(nodes) && b < |nodes| && k <= |args|
    requires forall m :: 0 <= m < k ==> ChildLabelled(nodes, b, args[m]).None?
    ensures FindInChain(nodes, b, args) == FindFrom(nodes, b, args, k)
  {
    if k > 0 {
      FindSkipsUnmatched(nodes, b, args, k - 1);
    }
  }

  /** Looking up a distinct chain that leads to a branch returns that
      branch's command, which may be nil. */
  lemma {:induction false} FindFollows(nodes: Nodes, b: nat, chain: seq<string>)
    requires WF(nodes) && b < |nodes| && |chain| >= 1 && Distinct(chain)
    requires Follow(nodes, b, chain).Some?
    ensures FindInChain(nodes, b, chain) == nodes[Follow(nodes, b, chain).value].Command
    decreases |chain|
  {
    var c := ChildLabelled(nodes, b, chain[0]).value;
    if |chain| > 1 {
      RemoveElementDistinct(chain, 0);
      assert RemoveElement(chain, 0) == chain[1..];
      assert Distinct(chain[1..]) by {
        forall x, y | 0 <= x < y < |chain| - 1
          ensures chain[1..][x] != chain[1..][y]
        {
          assert chain[1..][x] == chain[x + 1];
        }
      }
      FindFollows(nodes, c, chain[1..]);
    }
  }

  /** After a strict-order registration of a distinct chain, looking the
      chain up finds the command. */
  lemma FindAfterStrict(nodes: Nodes, b: nat, h: Command, chain: seq<string>)
    requires WF(nodes) && b < |nodes| && |chain| >= 1 && Distinct(chain)
    requires AddStrict(nodes, b, h, chain).Some?
    ensures FindInChain(AddStrict(nodes, b, h, chain).value, b, chain) == Some(h)
  {
    AddStrictReaches(nodes, b, h, chain);
    FindFollows(AddStrict(nodes, b, h, chain).value, b, chain);
  }

  /** After an any-order registration of distinct labels, every permutation
      of the chain finds the command. */
  lemma FindAfterAnyOrder(nodes: Nodes, b: nat, h: Command, chain: seq<string>, p: seq<string>)
    requires WF(nodes) && b < |nodes| && |chain| >= 1 && Distinct(chain)
    requires !AddAny(nodes, b, h, chain).panicked && multiset(p) == multiset(chain)
    ensures FindInChain(AddAny(nodes, b, h, chain).nodes, b, p) == Some(h)
  {
    var r := AddAny(nodes, b, h, chain);
    AddAnyReaches(nodes, b, h, chain);
    assert Reaches(r.nodes, b, p, h);
    DistinctPermutation(chain, p);
    assert |p| == |multiset(p)| == |chain|;
    FindFollows(r.nodes, b, p);
  }
}
