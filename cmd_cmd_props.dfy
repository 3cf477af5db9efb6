/** Properties of the pull-request commands: how the descriptor layouts
    resolve, what the texts look like, and which requests each command
    makes under which conditions. */
module CmdCmdProps {
  import opened Wrappers
  import opened CmdOptions
  import opened CommonConfig
  import opened GiteaRepoCtx
  import opened CmdCmd
  import CmdContext

  // ---------------------------------------------------------------------
  // Resolving single descriptors

  /** A non-empty default is taken without a prompt and without reading
      any input. */
  lemma DefaultSkipsPrompt(caption: string, helptext: string, flags: seq<string>, d: string, input: seq<string>)
    requires d != ""
    ensures Prompt(AddOptWithDefaultVal(caption, helptext, flags, d), input) == PromptOutcome(CmdOptVal(d, false), input, false)
  {
  }

  /** Without a default the descriptor is a required prompt: it takes the
      first non-empty answer, trimmed, and runs out exactly when there is
      none. */
  lemma EmptyDefaultPrompts(caption: string, helptext: string, flags: seq<string>, input: seq<string>)
    ensures var p := Prompt(AddOptWithDefaultVal(caption, helptext, flags, ""), input);
      && (p.exhausted <==> FirstAnswer(input).None?)
      && (FirstAnswer(input).Some? ==>
            p.val == CmdOptVal(TrimLast(input[FirstAnswer(input).value]), false)
            && p.rest == input[FirstAnswer(input).value + 1..])
  {
    var o := AddOptWithDefaultVal(caption, helptext, flags, "");
    RequiredPromptAnswer(o, input);
  }

  /** A switch named by an event, whose spelling no later descriptor
      declares, comes out of GetOpts present. */
  lemma SwitchGiven(opts: seq<CmdOpt>, events: seq<Event>, input: seq<string>, i: nat, k: nat)
    requires i < |opts| && k < |events| && opts[i].Spec.IsBool
    requires events[k].opt in opts[i].Spec.ArgFlags && events[k].opt != "" && events[k].opt != "?"
    requires forall j :: i < j < |opts| ==> events[k].opt !in opts[j].Spec.ArgFlags
    ensures !GetOptsSpec(opts, events, input).exhausted ==> GetOptsSpec(opts, events, input).opts[i].Val.Bool
  {
    FlagHashSpec(opts);
    var h := FlagHash(opts);
    var f := events[k].opt;
    assert f in h;
    assert h[f] == i;
    assert Target(h, events[k]) == Some(i);
    FlagPhaseEffect(opts, h, events, i);
    var filled := FlagFilled(opts, events);
    assert filled == FlagPhase(opts, h, events);
    assert filled[i].Val.Bool && filled[i].Spec.IsBool;
    GetOptsSettles(opts, events, input);
  }

  /** No event names the descriptor's spellings. */
  predicate Unflagged(o: CmdOpt, events: seq<Event>)
  {
    forall k :: 0 <= k < |events| ==> events[k].opt !in o.Spec.ArgFlags
  }

  /** A descriptor that is never prompted and that no event names ends
      with its default as string and not present. */
  lemma UnflaggedNoPrompt(opts: seq<CmdOpt>, events: seq<Event>, input: seq<string>, i: nat)
    requires i < |opts| && opts[i].Spec.NoPrompt && opts[i].Val == CmdOptVal("", false)
    requires Unflagged(opts[i], events)
    ensures !GetOptsSpec(opts, events, input).exhausted ==>
      GetOptsSpec(opts, events, input).opts[i].Val == CmdOptVal(WithDefault(opts[i].Spec, ""), false)
  {
    FlagHashSpec(opts);
    var h := FlagHash(opts);
    assert Untouched(h, events, i);
    FlagPhaseEffect(opts, h, events, i);
    var filled := FlagFilled(opts, events);
    assert filled == FlagPhase(opts, h, events);
    assert filled[i].Val == opts[i].Val;
    GetOptsSettles(opts, events, input);
  }

  // ---------------------------------------------------------------------
  // Repository options

  /** With both repository defaults configured and neither flag given, the
      owner and the name come from the configuration. */
  lemma RepoInfoFromConfig(c: Config, events: seq<Event>, input: seq<string>)
    requires c.Gitea.DefaultRepoOwner != "" && c.Gitea.DefaultRepoName != ""
    requires Unflagged(RepoInfoOpts(Some(c))[0], events) && Unflagged(RepoInfoOpts(Some(c))[1], events)
    ensures var res := GetOptsSpec(RepoInfoOpts(Some(c)), events, input);
      !res.exhausted ==>
        res.opts[0].Val.Str == c.Gitea.DefaultRepoOwner && res.opts[1].Val.Str == c.Gitea.DefaultRepoName
  {
    var opts := RepoInfoOpts(Some(c));
    UnflaggedNoPrompt(opts, events, input, 0);
    UnflaggedNoPrompt(opts, events, input, 1);
  }

  // ---------------------------------------------------------------------
  // Texts

  /** The review request: the header when used, then the request line, then
      the footer after a line break when there is one, and nothing else. */
  lemma NotifyTextParts(rc: Rocketchat, nohdr: bool, title: string, url: string, head: string, base: string,
                        footer: string)
    ensures var t := NotifyText(rc, nohdr, title, url, head, base, footer);
      var line := ReviewLine(title, url, head, base);
      var h := if rc.DefaultHeader != "" && !nohdr then |rc.DefaultHeader| else 0;
      && |t| >= h + |line|
      && t[..h] == (if rc.DefaultHeader != "" && !nohdr then rc.DefaultHeader else "")
      && t[h..h + |line|] == line
      && t[h + |line|..] == (if footer != "" then "\n" + footer else "")
  {
    var t := NotifyText(rc, nohdr, title, url, head, base, footer);
    var hd := if rc.DefaultHeader != "" && !nohdr then rc.DefaultHeader else "";
    var line := ReviewLine(title, url, head, base);
    var ft := if footer != "" then "\n" + footer else "";
    assert t == hd + line + ft;
    SplitThree(hd, line, ft);
  }

  lemma SplitThree<T>(a: seq<T>, b: seq<T>, c: seq<T>)
    ensures var s := a + b + c;
      s[..|a|] == a && s[|a|..|a| + |b|] == b && s[|a| + |b|..] == c
  {
  }

  // ---------------------------------------------------------------------
  // NewPrCommand

  predicate Posts(calls: seq<Call>)
  {
    exists j :: 0 <= j < |calls| && IsPost(calls[j])
  }

  /** A dry run makes no request and succeeds. */
  lemma NewPrDryRun(c: Config, a: NewPrArgs, created: Result<PullRequest, string>, posted: ErrorOpt)
    requires a.Dry
    ensures NewPrRun(c, a, created, posted) == Done([], None)
  {
  }

  /** Otherwise, with a valid request context, the first request creates
      the pull request from the head branch into the base branch under the
      derived title. */
  lemma NewPrCreates(c: Config, a: NewPrArgs, created: Result<PullRequest, string>, posted: ErrorOpt)
    requires !a.Dry && RepoCtxOf(c, a.Owner, a.Repo).Validate().None?
    ensures var r := NewPrRun(c, a, created, posted);
      |r.calls| >= 1 && r.calls[0] == CreatePR(RepoCtxOf(c, a.Owner, a.Repo), a.Base, a.Head, PrTitle(a.Title, a.Head, a.Wip))
  {
  }

  /** The review request is posted exactly when the pull request was
      created and rocketchat is enabled; it goes to the chosen channel and
      names the created pull request. */
  lemma NewPrPostsIff(c: Config, a: NewPrArgs, created: Result<PullRequest, string>, posted: ErrorOpt)
    ensures var r := NewPrRun(c, a, created, posted);
      Posts(r.calls) <==>
        !a.Dry && RepoCtxOf(c, a.Owner, a.Repo).Validate().None? && created.Ok? && c.Rocketchat.Enabled
    ensures var r := NewPrRun(c, a, created, posted);
      Posts(r.calls) ==>
        r.calls[|r.calls| - 1] == PostMessage(ChatCtxOf(c), a.Notify,
          NotifyText(c.Rocketchat, a.NoHdr, created.value.Title, created.value.Url, a.Head, a.Base, a.Footer))
  {
    var r := NewPrRun(c, a, created, posted);
    var repo := RepoCtxOf(c, a.Owner, a.Repo);
    if a.Dry || repo.Validate().Some? {
      assert r.calls == [];
    } else if created.Err? || !c.Rocketchat.Enabled {
      assert r.calls == [CreatePR(repo, a.Base, a.Head, PrTitle(a.Title, a.Head, a.Wip))];
      assert !IsPost(r.calls[0]);
    } else {
      assert |r.calls| == 2 && IsPost(r.calls[1]);
    }
  }

  /** NewPrCommand succeeds exactly on a dry run, or when the request
      context is valid, the creation succeeds and the review request, if
      one is made, succeeds. */
  lemma NewPrSucceedsIff(c: Config, a: NewPrArgs, created: Result<PullRequest, string>, posted: ErrorOpt)
    ensures NewPrRun(c, a, created, posted) == Done(NewPrRun(c, a, created, posted).calls, None) <==>
      a.Dry || (RepoCtxOf(c, a.Owner, a.Repo).Validate().None? && created.Ok? && (c.Rocketchat.Enabled ==> posted.None?))
  {
  }

  /** `-d`/`--dry` on the command line: whatever the input, no request is
      made. */
  lemma NewPrDryFlag(config: Option<Config>, events: seq<Event>, input: seq<string>, head: string,
                     created: Result<PullRequest, string>, posted: ErrorOpt, k: nat)
    requires CmdContext.ValidateConfig(config, true).None?
    requires k < |events| && events[k].opt in {"d", "dry"}
    ensures NewPrCommand(config, events, input, head, created, posted).calls == []
  {
    var c := config.value;
    var res := GetOptsSpec(NewPrOpts(c, head), events, input);
    NewPrDrySwitch(c, head, events, input, k);
    if !res.exhausted {
      NewPrDryRun(c, NewPrArgsOf(res.opts), created, posted);
    }
  }

  lemma NewPrDrySwitch(c: Config, head: string, events: seq<Event>, input: seq<string>, k: nat)
    requires k < |events| && events[k].opt in {"d", "dry"}
    ensures var res := GetOptsSpec(NewPrOpts(c, head), events, input);
      !res.exhausted ==> res.opts[6].Val.Bool
  {
    NewPrOptsTail(c, head);
    DrySwitchGiven(NewPrOpts(c, head), events, input, k);
  }

  /** SwitchGiven for a layout whose tail is that of newPrOpts. */
  lemma DrySwitchGiven(opts: seq<CmdOpt>, events: seq<Event>, input: seq<string>, k: nat)
    requires |opts| == 10 && opts[6].Spec.IsBool && opts[6].Spec.ArgFlags == ["d", "dry"]
    requires opts[7].Spec.ArgFlags == ["notify"] && opts[8].Spec.ArgFlags == ["n", "nohdr"]
    requires opts[9].Spec.ArgFlags == ["f", "footer"]
    requires k < |events| && events[k].opt in {"d", "dry"}
    ensures !GetOptsSpec(opts, events, input).exhausted ==> GetOptsSpec(opts, events, input).opts[6].Val.Bool
  {
    SwitchGiven(opts, events, input, 6, k);
  }

  /** The last four descriptors of newPrOpts: the dry-run switch and the
      spellings after it. */
  lemma NewPrOptsTail(c: Config, head: string)
    ensures var r := NewPrOpts(c, head);
      && |r| == 10 && r[6].Spec.IsBool && r[6].Spec.ArgFlags == ["d", "dry"]
      && r[7].Spec.ArgFlags == ["notify"] && r[8].Spec.ArgFlags == ["n", "nohdr"]
      && r[9].Spec.ArgFlags == ["f", "footer"]
  {
    NewPrOptsFlags(c, head);
    NewPrOptsSwitches(c, head);
    var r := NewPrOpts(c, head);
    assert r[6].Spec.IsBool by { assert 6 in {5, 6, 8}; }
  }

  /** Without `-t` and `-w`, the title of the new pull request is the head
      branch that was resolved. */
  lemma NewPrTitleIsHead(c: Config, a: NewPrArgs, created: Result<PullRequest, string>, posted: ErrorOpt)
    requires a.Title == "" && !a.Wip && !a.Dry && RepoCtxOf(c, a.Owner, a.Repo).Validate().None?
    ensures NewPrRun(c, a, created, posted).calls[0].Title == a.Head
  {
  }

  // ---------------------------------------------------------------------
  // MergePrCommand

  predicate Deletes(calls: seq<Call>)
  {
    exists j :: 0 <= j < |calls| && calls[j].DeleteBranch?
  }

  /** Nothing but the listing happens unless a pull request has the title;
      then it is that first match that is merged, by squashing. */
  lemma MergeTargetsFirstMatch(c: Config, a: MergePrArgs, listed: Result<seq<PullRequest>, string>, merged: ErrorOpt,
                               answers: seq<string>, deleted: ErrorOpt, posted: ErrorOpt)
    ensures var r := MergePrRun(c, a, listed, merged, answers, deleted, posted);
      |r.calls| >= 2 <==> FindPrSpec(listed, a.Title).Ok?
    ensures var r := MergePrRun(c, a, listed, merged, answers, deleted, posted);
      |r.calls| >= 2 ==>
        r.calls[1] == MergePR(RepoCtxOf(c, a.Owner, a.Repo), FindPrSpec(listed, a.Title).value.Number, "squash", a.Force)
  {
  }

  /** Once the merge succeeded and the branch question is settled, the
      branch is deleted exactly when --rm was given or the answer was "y";
      the deleted branch is the head of the merged pull request. */
  lemma MergeDeletesIffChosen(c: Config, a: MergePrArgs, listed: Result<seq<PullRequest>, string>, merged: ErrorOpt,
                              answers: seq<string>, deleted: ErrorOpt, posted: ErrorOpt)
    requires FindPrSpec(listed, a.Title).Ok? && merged.None?
    requires a.Rm || !RemoveAnswer(answers).exhausted
    ensures var r := MergePrRun(c, a, listed, merged, answers, deleted, posted);
      Deletes(r.calls) <==> a.Rm || RemoveAnswer(answers).yes
    ensures var r := MergePrRun(c, a, listed, merged, answers, deleted, posted);
      Deletes(r.calls) ==>
        r.calls[2] == DeleteBranch(RepoCtxOf(c, a.Owner, a.Repo), FindPrSpec(listed, a.Title).value.HeadRef)
  {
    var r := MergePrRun(c, a, listed, merged, answers, deleted, posted);
    if Deletes(r.calls) {
      var j :| 0 <= j < |r.calls| && r.calls[j].DeleteBranch?;
    }
    if a.Rm || RemoveAnswer(answers).yes {
      assert r.calls[2].DeleteBranch?;
    }
  }

  /** A branch is never deleted unless the merge succeeded. */
  lemma MergeDeletesOnlyMerged(c: Config, a: MergePrArgs, listed: Result<seq<PullRequest>, string>, merged: ErrorOpt,
                               answers: seq<string>, deleted: ErrorOpt, posted: ErrorOpt)
    ensures Deletes(MergePrRun(c, a, listed, merged, answers, deleted, posted).calls) ==>
      FindPrSpec(listed, a.Title).Ok? && merged.None?
  {
    var r := MergePrRun(c, a, listed, merged, answers, deleted, posted);
    if Deletes(r.calls) {
      var j :| 0 <= j < |r.calls| && r.calls[j].DeleteBranch?;
    }
  }

  /** With --rm the question is not asked: the input plays no part. */
  lemma MergeRmSkipsQuestion(c: Config, a: MergePrArgs, listed: Result<seq<PullRequest>, string>, merged: ErrorOpt,
                             answers1: seq<string>, answers2: seq<string>, deleted: ErrorOpt, posted: ErrorOpt)
    requires a.Rm
    ensures MergePrRun(c, a, listed, merged, answers1, deleted, posted)
         == MergePrRun(c, a, listed, merged, answers2, deleted, posted)
  {
  }

  /** The merge is announced only when rocketchat is enabled. */
  lemma MergePostsOnlyEnabled(c: Config, a: MergePrArgs, listed: Result<seq<PullRequest>, string>, merged: ErrorOpt,
                              answers: seq<string>, deleted: ErrorOpt, posted: ErrorOpt)
    ensures Posts(MergePrRun(c, a, listed, merged, answers, deleted, posted).calls) ==> c.Rocketchat.Enabled
  {
    var r := MergePrRun(c, a, listed, merged, answers, deleted, posted);
    if Posts(r.calls) {
      var j :| 0 <= j < |r.calls| && IsPost(r.calls[j]);
    }
  }

  /** `--rm`/`--del` on the command line resolve the removal switch to
      present. */
  lemma MergeRmFlag(c: Config, events: seq<Event>, input: seq<string>, branch: string, k: nat)
    requires k < |events| && events[k].opt in {"rm", "del"}
    ensures var res := GetOptsSpec(MergePrOpts(c, branch), events, input);
      !res.exhausted ==> MergePrArgsOf(res.opts).Rm
  {
    SwitchGiven(MergePrOpts(c, branch), events, input, 3, k);
  }

  // ---------------------------------------------------------------------
  // ClosePrCommand

  /** The update request is made exactly when some listed pull request has
      the title, and it targets the first of them. */
  lemma CloseUpdatesFirstMatch(c: Config, a: UpdatePrArgs, listed: Result<seq<PullRequest>, string>, updated: ErrorOpt)
    ensures var r := ClosePrRun(c, a, listed, updated);
      |r.calls| == 2 <==> listed.Ok? && exists k :: 0 <= k < |listed.value| && listed.value[k].Title == a.Title
    ensures var r := ClosePrRun(c, a, listed, updated);
      |r.calls| == 2 ==>
        exists k :: (0 <= k < |listed.value| && listed.value[k].Title == a.Title
          && r.calls[1] == UpdatePR(RepoCtxOf(c, a.Owner, a.Repo), listed.value[k].Number, a.Rename, a.Close)
          && forall j :: 0 <= j < k ==> listed.value[j].Title != a.Title)
  {
  }

  /** The pull request is closed exactly when `-c`/`--close` was given. */
  lemma CloseIffFlag(config: Option<Config>, events: seq<Event>, input: seq<string>, branch: string)
    ensures var res := GetOptsSpec(UpdatePrOpts(config, branch), events, input);
      !res.exhausted ==>
        (UpdatePrArgsOf(res.opts).Close <==> exists k :: 0 <= k < |events| && events[k].opt in {"c", "close"})
  {
    var opts := UpdatePrOpts(config, branch);
    var res := GetOptsSpec(opts, events, input);
    if exists k :: 0 <= k < |events| && events[k].opt in {"c", "close"} {
      var k :| 0 <= k < |events| && events[k].opt in {"c", "close"};
      SwitchGiven(opts, events, input, 3, k);
    } else {
      UnflaggedNoPrompt(opts, events, input, 3);
    }
  }
}
