/** The pull-request commands of `cmd/cmd.go`: the descriptor layouts each
    command resolves with GetOpts, the texts it composes, the search for a
    pull request by title, the branch-removal question, and the sequence of
    API calls each command makes. The API itself (gitea/pr.go, gitea/branch.go,
    rocketchat/chat.go) is not part of this model: a command's calls are
    recorded, and what each call returns is a parameter. */
module CmdCmd {
  import opened Wrappers
  import opened CmdOptions
  import opened CommonConfig
  import opened GiteaRepoCtx
  import RocketchatCtx
  import CmdContext

  // ---------------------------------------------------------------------
  // Descriptor builders

  /** addOptWithDefaultVal: a non-empty default skips the prompt and is
      shown in the label; an empty one leaves a required prompt, labelled
      with the help text when there is one. */
  function AddOptWithDefaultVal(caption: string, helptext: string, flags: seq<string>, d: string): (o: CmdOpt)
    ensures o.Spec.ArgFlags == flags && o.Val == CmdOptVal("", false)
    ensures o.Spec.NoPrompt <==> d != ""
    ensures o.Spec.DefaultStrFunc == Some(d)
    ensures !o.Spec.NotRequired && !o.Spec.IsBool && !o.Spec.NoEcho
  {
    var lbl := if d != "" then caption + " [empty for: '" + d + "']"
               else if helptext != "" then caption + " (" + helptext + ")"
               else caption;
    CmdOpt(CmdOptSpec(flags, lbl, false, Some(d), false, false, d != ""), CmdOptVal("", false))
  }

  /** The label: the default in brackets when there is one, otherwise the
      help text in parentheses when there is one. */
  lemma AddOptLabel(caption: string, helptext: string, flags: seq<string>, d: string)
    ensures var o := AddOptWithDefaultVal(caption, helptext, flags, d);
      && (d != "" ==> o.Spec.Label == caption + " [empty for: '" + d + "']")
      && (d == "" && helptext != "" ==> o.Spec.Label == caption + " (" + helptext + ")")
      && (d == "" && helptext == "" ==> o.Spec.Label == caption)
  {
  }

  /** A configured default, or "" without a configuration. */
  function OwnerDefault(config: Option<Config>): string
  {
    if config.Some? && config.value.Gitea.DefaultRepoOwner != "" then config.value.Gitea.DefaultRepoOwner else ""
  }

  function RepoNameDefault(config: Option<Config>): string
  {
    if config.Some? && config.value.Gitea.DefaultRepoName != "" then config.value.Gitea.DefaultRepoName else ""
  }

  /** repoInfoOpts: owner (-o, --owner), then repository name (-r, --repo),
      each defaulting to the configured value when there is one. */
  function RepoInfoOpts(config: Option<Config>): (r: seq<CmdOpt>)
    ensures |r| == 2
    ensures r[0].Spec.ArgFlags == ["o", "owner"] && r[1].Spec.ArgFlags == ["r", "repo"]
    ensures config.Some? ==> r[0].Spec.DefaultStrFunc == Some(config.value.Gitea.DefaultRepoOwner)
    ensures config.Some? ==> r[1].Spec.DefaultStrFunc == Some(config.value.Gitea.DefaultRepoName)
    ensures config.None? ==> r[0].Spec.DefaultStrFunc == Some("") && r[1].Spec.DefaultStrFunc == Some("")
    ensures r[0].Spec.NoPrompt <==> config.Some? && config.value.Gitea.DefaultRepoOwner != ""
    ensures r[1].Spec.NoPrompt <==> config.Some? && config.value.Gitea.DefaultRepoName != ""
  {
    [ AddOptWithDefaultVal("repo owner ", "", ["o", "owner"], OwnerDefault(config)),
      AddOptWithDefaultVal("repo name  ", "", ["r", "repo"], RepoNameDefault(config)) ]
  }

  /** listPrOpts is repoInfoOpts. */
  function ListPrOpts(config: Option<Config>): (r: seq<CmdOpt>)
    ensures r == RepoInfoOpts(config)
  {
    RepoInfoOpts(config)
  }

  /** A yes/no switch that is never prompted for. */
  function BoolOpt(flags: seq<string>, caption: string, notRequired: bool): (o: CmdOpt)
    ensures o.Spec.ArgFlags == flags && o.Spec.IsBool && o.Spec.NoPrompt && o.Spec.NotRequired == notRequired
    ensures o.Spec.DefaultStrFunc.None? && o.Val == CmdOptVal("", false)
  {
    CmdOpt(CmdOptSpec(flags, caption, notRequired, None, false, true, true), CmdOptVal("", false))
  }

  const NotifyLabel: string := "Notification channel for rocketchat"
  const WipLabel: string := "work in progress [default: false]"
  const DryLabel: string := "dry run [default: false]"
  const NoHdrLabel: string := "dont use default_header field from config [default: false]"
  const FooterLabel: string := "text below message [default: empty]"
  const FindTitleLabel: string := "PR title (current branch name if empty)"

  /** The notification channel: prompted only when notifications are on and
      no default channel is configured. */
  function NotifyOpt(rc: Rocketchat): (o: CmdOpt)
    ensures o.Spec.ArgFlags == ["notify"] && !o.Spec.IsBool && o.Val == CmdOptVal("", false)
    ensures o.Spec.NoPrompt == o.Spec.NotRequired == (!rc.Enabled || rc.DefaultNotifyChannel != "")
    ensures o.Spec.DefaultStrFunc == Some(rc.DefaultNotifyChannel)
  {
    var optional := !rc.Enabled || rc.DefaultNotifyChannel != "";
    CmdOpt(CmdOptSpec(["notify"], NotifyLabel, optional, Some(rc.DefaultNotifyChannel), false, false, optional),
           CmdOptVal("", false))
  }

  /** The footer: never prompted, empty unless given. */
  function FooterOpt(): (o: CmdOpt)
    ensures o.Spec.ArgFlags == ["f", "footer"] && !o.Spec.IsBool && o.Spec.NoPrompt
    ensures o.Spec.DefaultStrFunc == Some("") && o.Val == CmdOptVal("", false)
  {
    CmdOpt(CmdOptSpec(["f", "footer"], FooterLabel, false, Some(""), false, false, true), CmdOptVal("", false))
  }

  /** newPrOpts: the ten descriptors NewPrCommand reads by position. `head`
      is the current git branch. The configuration is dereferenced, so it
      must exist. */
  function NewPrOpts(c: Config, head: string): (r: seq<CmdOpt>)
    ensures |r| == 10
    ensures forall k :: 0 <= k < 10 ==> r[k].Val == CmdOptVal("", false)
  {
    var info := RepoInfoOpts(Some(c));
    var base := if c.Gitea.DefaultBaseForPR != "" then c.Gitea.DefaultBaseForPR else "";
    [ info[0], info[1],
      AddOptWithDefaultVal("head branch", "source branch in PR", ["h", "head"], head),
      AddOptWithDefaultVal("base branch", "target branch in PR", ["b", "base"], base),
      AddOptWithDefaultVal("pr title   ", "", ["t", "title"], head),
      BoolOpt(["w", "wip"], WipLabel, false),
      BoolOpt(["d", "dry"], DryLabel, false),
      NotifyOpt(c.Rocketchat),
      BoolOpt(["n", "nohdr"], NoHdrLabel, false),
      FooterOpt() ]
  }

  /** The spellings of the ten descriptors, by position. */
  lemma NewPrOptsFlags(c: Config, head: string)
    ensures var r := NewPrOpts(c, head);
      [ r[0].Spec.ArgFlags, r[1].Spec.ArgFlags, r[2].Spec.ArgFlags, r[3].Spec.ArgFlags, r[4].Spec.ArgFlags,
        r[5].Spec.ArgFlags, r[6].Spec.ArgFlags, r[7].Spec.ArgFlags, r[8].Spec.ArgFlags, r[9].Spec.ArgFlags ]
      == [ ["o", "owner"], ["r", "repo"], ["h", "head"], ["b", "base"], ["t", "title"],
           ["w", "wip"], ["d", "dry"], ["notify"], ["n", "nohdr"], ["f", "footer"] ]
  {
  }

  /** Positions 5, 6 and 8 are the yes/no switches, none of them prompted;
      the others take strings. */
  lemma NewPrOptsSwitches(c: Config, head: string)
    ensures var r := NewPrOpts(c, head);
      forall k :: 0 <= k < 10 ==> (r[k].Spec.IsBool <==> k in {5, 6, 8}) && (r[k].Spec.IsBool ==> r[k].Spec.NoPrompt)
  {
  }

  /** Where the owner, the repository, the channel and the footer come from
      when no flag gives them: the configuration, and an empty footer. An
      empty repository default leaves the prompt on. */
  lemma NewPrOptsDefaults(c: Config, head: string)
    ensures var r := NewPrOpts(c, head);
      && r[0].Spec.DefaultStrFunc == Some(c.Gitea.DefaultRepoOwner)
      && (r[0].Spec.NoPrompt <==> c.Gitea.DefaultRepoOwner != "")
      && r[1].Spec.DefaultStrFunc == Some(c.Gitea.DefaultRepoName)
      && (r[1].Spec.NoPrompt <==> c.Gitea.DefaultRepoName != "")
      && r[7] == NotifyOpt(c.Rocketchat)
      && r[9].Spec.DefaultStrFunc == Some("") && r[9].Spec.NoPrompt
  {
  }

  /** The branches and the title: the current branch, or the configured
      base branch, when not empty; otherwise a required prompt. */
  lemma NewPrOptsBranchDefaults(c: Config, head: string)
    ensures var r := NewPrOpts(c, head);
      && r[2].Spec.DefaultStrFunc == Some(head) && (r[2].Spec.NoPrompt <==> head != "")
      && r[3].Spec.DefaultStrFunc == Some(c.Gitea.DefaultBaseForPR)
      && (r[3].Spec.NoPrompt <==> c.Gitea.DefaultBaseForPR != "")
      && r[4].Spec.DefaultStrFunc == Some(head) && (r[4].Spec.NoPrompt <==> head != "")
      && forall k :: 0 <= k < 5 ==> !r[k].Spec.NotRequired
  {
  }

  /** findPrOpts: the title to look for, never prompted, defaulting to the
      current git branch `branch`. */
  function FindPrOpts(branch: string): (r: seq<CmdOpt>)
    ensures |r| == 1 && r[0].Spec.ArgFlags == ["t", "title"] && r[0].Val == CmdOptVal("", false)
    ensures r[0].Spec.NoPrompt && !r[0].Spec.IsBool && r[0].Spec.DefaultStrFunc == Some(branch)
  {
    [CmdOpt(CmdOptSpec(["t", "title"], FindTitleLabel, false, Some(branch), false, false, true), CmdOptVal("", false))]
  }

  /** mergePrOpts: owner, repository, title, then the --rm/--del and
      --force switches and the notification channel. */
  function MergePrOpts(c: Config, branch: string): (r: seq<CmdOpt>)
    ensures |r| == 6
    ensures r[0] == RepoInfoOpts(Some(c))[0] && r[1] == RepoInfoOpts(Some(c))[1] && r[2] == FindPrOpts(branch)[0]
    ensures r[3] == BoolOpt(["rm", "del"], "Remove branch", true)
    ensures r[4] == BoolOpt(["f", "force"], "Force merge", true)
    ensures r[5] == NotifyOpt(c.Rocketchat)
  {
    var info := RepoInfoOpts(Some(c));
    [ info[0], info[1], FindPrOpts(branch)[0],
      BoolOpt(["rm", "del"], "Remove branch", true),
      BoolOpt(["f", "force"], "Force merge", true),
      NotifyOpt(c.Rocketchat) ]
  }

  /** The new title: never prompted, no default. */
  function RenameOpt(): (o: CmdOpt)
    ensures o.Spec.ArgFlags == ["rename"] && !o.Spec.IsBool && o.Spec.NoPrompt && o.Spec.NotRequired
    ensures o.Spec.DefaultStrFunc == None && o.Val == CmdOptVal("", false)
  {
    CmdOpt(CmdOptSpec(["rename"], "Change title", true, None, false, false, true), CmdOptVal("", false))
  }

  /** updatePrOpts: owner, repository, title, then --close and --rename. */
  function UpdatePrOpts(config: Option<Config>, branch: string): (r: seq<CmdOpt>)
    ensures |r| == 5
    ensures r[0] == RepoInfoOpts(config)[0] && r[1] == RepoInfoOpts(config)[1] && r[2] == FindPrOpts(branch)[0]
    ensures r[3] == BoolOpt(["c", "close"], "close pull request", true)
    ensures r[4] == RenameOpt()
  {
    var info := RepoInfoOpts(config);
    [ info[0], info[1], FindPrOpts(branch)[0], BoolOpt(["c", "close"], "close pull request", true), RenameOpt() ]
  }

  // ---------------------------------------------------------------------
  // Texts

  /** The title of a new pull request: the head branch when none was
      given, marked as work in progress on request. */
  function PrTitle(title: string, head: string, wip: bool): (r: string)
    ensures !wip ==> r == (if title == "" then head else title)
    ensures wip ==> |r| >= 5 && r[..5] == "WIP: " && r[5..] == (if title == "" then head else title)
  {
    var t := if title == "" then head else title;
    if wip then "WIP: " + t else t
  }

  function ReviewLine(title: string, url: string, head: string, base: string): string
  {
    "Requesting review for PR: [" + title + "](" + url + ") (*" + head + "* -> *" + base + "*)"
  }

  /** The review request posted to rocketchat: the configured header unless
      suppressed, the request line, and the footer on a line of its own. */
  function NotifyText(rc: Rocketchat, nohdr: bool, title: string, url: string, head: string, base: string,
                      footer: string): string
  {
    (if rc.DefaultHeader != "" && !nohdr then rc.DefaultHeader else "")
    + ReviewLine(title, url, head, base)
    + (if footer != "" then "\n" + footer else "")
  }

  function MergedText(pr: PullRequest): string
  {
    "\n\t\t\t[" + pr.Title + "](" + pr.Url + ") (*" + pr.HeadRef + "* -> *" + pr.BaseRef + "*) has been merged\n\t\t"
  }

  // ---------------------------------------------------------------------
  // findPr

  /** The index of the first pull request titled exactly `title`. */
  function FindTitle(prs: seq<PullRequest>, title: string): (r: Option<nat>)
    ensures r.Some? ==>
      r.value < |prs| && prs[r.value].Title == title
      && forall k :: 0 <= k < r.value ==> prs[k].Title != title
    ensures r.None? ==> forall k :: 0 <= k < |prs| ==> prs[k].Title != title
  {
    if |prs| == 0 then None
    else if prs[0].Title == title then Some(0)
    else match FindTitle(prs[1..], title)
      case None => None
      case Some(k) => Some(k + 1)
  }

  const PrNotFound: string := "pr not found"

  /** findPr over the result of listing the open pull requests: a listing
      error is passed on, otherwise the first match or "pr not found". */
  function FindPrSpec(listed: Result<seq<PullRequest>, string>, title: string): (r: Result<PullRequest, string>)
    ensures listed.Err? ==> r == Err(listed.error)
    ensures listed.Ok? && r.Ok? ==>
      exists k :: (0 <= k < |listed.value| && listed.value[k] == r.value && r.value.Title == title
        && forall j :: 0 <= j < k ==> listed.value[j].Title != title)
    ensures listed.Ok? ==> (r.Err? <==> forall k :: 0 <= k < |listed.value| ==> listed.value[k].Title != title)
    ensures r.Err? && listed.Ok? ==> r.error == PrNotFound
  {
    match listed
    case Err(e) => Err(e)
    case Ok(prs) =>
      match FindTitle(prs, title)
      case None => Err(PrNotFound)
      case Some(k) => Ok(prs[k])
  }

  /** The search loop of findPr. */
  method FindPr(listed: Result<seq<PullRequest>, string>, title: string) returns (r: Result<PullRequest, string>)
    ensures r == FindPrSpec(listed, title)
  {
    if listed.Err? {
      return Err(listed.error);
    }
    var prs := listed.value;
    for i := 0 to |prs|
      invariant forall k :: 0 <= k < i ==> prs[k].Title != title
    {
      if prs[i].Title == title {
        return Ok(prs[i]);
      }
    }
    return Err(PrNotFound);
  }

  // ---------------------------------------------------------------------
  // The branch-removal question of MergePrCommand

  /** The index of the first answer that is "y" or "n". */
  function FirstDecision(answers: seq<string>): (r: Option<nat>)
    ensures r.Some? ==>
      r.value < |answers| && answers[r.value] in {"y", "n"}
      && forall k :: 0 <= k < r.value ==> answers[k] !in {"y", "n"}
    ensures r.None? ==> forall k :: 0 <= k < |answers| ==> answers[k] !in {"y", "n"}
  {
    if |answers| == 0 then None
    else if answers[0] in {"y", "n"} then Some(0)
    else match FirstDecision(answers[1..])
      case None => None
      case Some(k) => Some(k + 1)
  }

  /** Whether the branch is to be removed, and the input left. The source
      asks again forever when the input has run out; `exhausted` marks that
      case. */
  datatype Answer = Answer(yes: bool, rest: seq<string>, exhausted: bool)

  function RemoveAnswer(answers: seq<string>): (r: Answer)
    ensures r.exhausted <==> forall k :: 0 <= k < |answers| ==> answers[k] !in {"y", "n"}
    ensures !r.exhausted ==>
      exists k :: (0 <= k < |answers| && answers[k] in {"y", "n"} && r.yes == (answers[k] == "y")
        && r.rest == answers[k + 1..] && forall j :: 0 <= j < k ==> answers[j] !in {"y", "n"})
    ensures r.exhausted ==> !r.yes && r.rest == []
  {
    match FirstDecision(answers)
    case None => Answer(false, [], true)
    case Some(k) => Answer(answers[k] == "y", answers[k + 1..], false)
  }

  /** The labelled loop that asks "remove branch ...? [y/n]" until the
      answer is "y" or "n". */
  method AskRemoveBranch(answers: seq<string>) returns (a: Answer)
    ensures a == RemoveAnswer(answers)
  {
    for i := 0 to |answers|
      invariant forall k :: 0 <= k < i ==> answers[k] !in {"y", "n"}
    {
      var tmp := answers[i];
      if tmp == "y" {
        return Answer(true, answers[i + 1..], false);
      }
      if tmp == "n" {
        return Answer(false, answers[i + 1..], false);
      }
    }
    return Answer(false, [], true);
  }

  // ---------------------------------------------------------------------
  // The commands

  /** An API request a command makes. */
  datatype Call =
    | CreatePR(Repo: RepoCtx, Base: string, Head: string, Title: string)
    | PostMessage(Chat: RocketchatCtx.Ctx, Channel: string, Text: string)
    | ListPR(Repo: RepoCtx, State: string)
    | MergePR(Repo: RepoCtx, Index: int, Do: string, ForceMerge: bool)
    | DeleteBranch(Repo: RepoCtx, Branch: string)
    | UpdatePR(Repo: RepoCtx, Index: int, NewTitle: string, Close: bool)

  /** What a command did: the requests it made, in order, and the error it
      returned; or `Stuck` when a prompt ran out of input, where the source
      keeps asking forever. */
  datatype Outcome = Done(calls: seq<Call>, err: ErrorOpt) | Stuck(calls: seq<Call>)

  predicate IsPost(c: Call) { c.PostMessage? }

  function RepoCtxOf(c: Config, owner: string, repo: string): RepoCtx
  {
    RepoCtx(owner, repo, c.Gitea.TokenSha1, c.Gitea.ToApiUrl())
  }

  function ChatCtxOf(c: Config): RocketchatCtx.Ctx
  {
    RocketchatCtx.Ctx(c.Rocketchat.ToApiUrl(), c.Rocketchat.UserID, c.Rocketchat.Token)
  }

  /** ListPrCommand: the listing of open pull requests (the printing of
      the listing is not modelled). */
  function ListPrCommand(config: Option<Config>, events: seq<Event>, input: seq<string>,
                         listed: Result<seq<PullRequest>, string>): (r: Outcome)
    ensures CmdContext.ValidateConfig(config, true).Some? ==> r == Done([], CmdContext.ValidateConfig(config, true))
    ensures r.Done? && r.calls != [] ==> |r.calls| == 1 && r.calls[0].ListPR? && r.calls[0].State == "open"
  {
    match CmdContext.ValidateConfig(config, true)
    case Some(e) => Done([], Some(e))
    case None =>
      var res := GetOptsSpec(ListPrOpts(config), events, input);
      if res.exhausted then Stuck([])
      else
        var list := ListPR(RepoCtxOf(config.value, res.opts[0].Val.Str, res.opts[1].Val.Str), "open");
        Done([list], if listed.Err? then Some(listed.error) else None)
  }

  /** The values NewPrCommand reads from its ten resolved descriptors. */
  datatype NewPrArgs = NewPrArgs(
    Owner: string, Repo: string, Head: string, Base: string, Title: string,
    Wip: bool, Dry: bool, Notify: string, NoHdr: bool, Footer: string)

  function NewPrArgsOf(opts: seq<CmdOpt>): NewPrArgs
    requires |opts| == 10
  {
    NewPrArgs(opts[0].Val.Str, opts[1].Val.Str, opts[2].Val.Str, opts[3].Val.Str, opts[4].Val.Str,
              opts[5].Val.Bool, opts[6].Val.Bool, opts[7].Val.Str, opts[8].Val.Bool, opts[9].Val.Str)
  }

  /** NewPrCommand from the resolved values on: title, dry run, request
      context check, creation, then the review request when rocketchat is
      enabled. `created` and `posted` are what the two requests return. */
  function NewPrRun(c: Config, a: NewPrArgs, created: Result<PullRequest, string>, posted: ErrorOpt): (r: Outcome)
    ensures r.Done? && |r.calls| <= 2
    ensures a.Dry ==> r == Done([], None)
    ensures |r.calls| >= 1 ==>
      r.calls[0] == CreatePR(RepoCtxOf(c, a.Owner, a.Repo), a.Base, a.Head, PrTitle(a.Title, a.Head, a.Wip))
    ensures |r.calls| == 2 ==> created.Ok? && c.Rocketchat.Enabled && r.calls[1].PostMessage? && r.calls[1].Channel == a.Notify
  {
    var title := PrTitle(a.Title, a.Head, a.Wip);
    if a.Dry then Done([], None)
    else
      var repo := RepoCtxOf(c, a.Owner, a.Repo);
      match repo.Validate()
      case Some(e) => Done([], Some(e))
      case None =>
        var create := CreatePR(repo, a.Base, a.Head, title);
        match created
        case Err(e) => Done([create], Some(e))
        case Ok(pr) =>
          if !c.Rocketchat.Enabled then Done([create], None)
          else
            var text := NotifyText(c.Rocketchat, a.NoHdr, pr.Title, pr.Url, a.Head, a.Base, a.Footer);
            Done([create, PostMessage(ChatCtxOf(c), a.Notify, text)], posted)
  }

  /** NewPrCommand: configuration check with credentials, option
      resolution over the parser events and the input lines, then NewPrRun.
      `head` is the current git branch. */
  function NewPrCommand(config: Option<Config>, events: seq<Event>, input: seq<string>, head: string,
                        created: Result<PullRequest, string>, posted: ErrorOpt): (r: Outcome)
    ensures CmdContext.ValidateConfig(config, true).Some? ==> r == Done([], CmdContext.ValidateConfig(config, true))
  {
    match CmdContext.ValidateConfig(config, true)
    case Some(e) => Done([], Some(e))
    case None =>
      var res := GetOptsSpec(NewPrOpts(config.value, head), events, input);
      if res.exhausted then Stuck([]) else NewPrRun(config.value, NewPrArgsOf(res.opts), created, posted)
  }

  datatype MergePrArgs = MergePrArgs(Owner: string, Repo: string, Title: string, Rm: bool, Force: bool, Notify: string)

  function MergePrArgsOf(opts: seq<CmdOpt>): MergePrArgs
    requires |opts| == 6
  {
    MergePrArgs(opts[0].Val.Str, opts[1].Val.Str, opts[2].Val.Str, opts[3].Val.Bool, opts[4].Val.Bool, opts[5].Val.Str)
  }

  /** MergePrCommand from the resolved values on: find the pull request,
      squash-merge it, ask about the branch unless --rm was given, delete
      the branch when removal was chosen, then announce the merge when
      rocketchat is enabled. `answers` is the input left for the question. */
  function MergePrRun(c: Config, a: MergePrArgs, listed: Result<seq<PullRequest>, string>, merged: ErrorOpt,
                      answers: seq<string>, deleted: ErrorOpt, posted: ErrorOpt): (r: Outcome)
    ensures 1 <= |r.calls| <= 4 && r.calls[0] == ListPR(RepoCtxOf(c, a.Owner, a.Repo), "open")
    ensures r.Stuck? ==> !a.Rm && merged.None? && RemoveAnswer(answers).exhausted
    ensures r.Done? && r.err.None? ==> FindPrSpec(listed, a.Title).Ok? && merged.None?
  {
    var repo := RepoCtxOf(c, a.Owner, a.Repo);
    var list := ListPR(repo, "open");
    match FindPrSpec(listed, a.Title)
    case Err(e) => Done([list], Some(e))
    case Ok(pr) =>
      var merge := MergePR(repo, pr.Number, "squash", a.Force);
      if merged.Some? then Done([list, merge], merged)
      else
        var ans := if a.Rm then Answer(true, answers, false) else RemoveAnswer(answers);
        if ans.exhausted then Stuck([list, merge])
        else
          var calls := [list, merge] + (if ans.yes then [DeleteBranch(repo, pr.HeadRef)] else []);
          if ans.yes && deleted.Some? then Done(calls, deleted)
          else if !c.Rocketchat.Enabled then Done(calls, None)
          else Done(calls + [PostMessage(ChatCtxOf(c), a.Notify, MergedText(pr))], posted)
  }

  /** MergePrCommand. `branch` is the current git branch. */
  function MergePrCommand(config: Option<Config>, events: seq<Event>, input: seq<string>, branch: string,
                          listed: Result<seq<PullRequest>, string>, merged: ErrorOpt,
                          deleted: ErrorOpt, posted: ErrorOpt): (r: Outcome)
    ensures CmdContext.ValidateConfig(config, true).Some? ==> r == Done([], CmdContext.ValidateConfig(config, true))
  {
    match CmdContext.ValidateConfig(config, true)
    case Some(e) => Done([], Some(e))
    case None =>
      var res := GetOptsSpec(MergePrOpts(config.value, branch), events, input);
      if res.exhausted then Stuck([])
      else MergePrRun(config.value, MergePrArgsOf(res.opts), listed, merged, res.rest, deleted, posted)
  }

  datatype UpdatePrArgs = UpdatePrArgs(Owner: string, Repo: string, Title: string, Close: bool, Rename: string)

  function UpdatePrArgsOf(opts: seq<CmdOpt>): UpdatePrArgs
    requires |opts| == 5
  {
    UpdatePrArgs(opts[0].Val.Str, opts[1].Val.Str, opts[2].Val.Str, opts[3].Val.Bool, opts[4].Val.Str)
  }

  /** ClosePrCommand from the resolved values on: find the pull request,
      then update its title and, with --close, its state. */
  function ClosePrRun(c: Config, a: UpdatePrArgs, listed: Result<seq<PullRequest>, string>, updated: ErrorOpt): (r: Outcome)
    ensures r.Done? && 1 <= |r.calls| <= 2 && r.calls[0] == ListPR(RepoCtxOf(c, a.Owner, a.Repo), "open")
    ensures r.err.None? <==> FindPrSpec(listed, a.Title).Ok? && updated.None?
  {
    var repo := RepoCtxOf(c, a.Owner, a.Repo);
    var list := ListPR(repo, "open");
    match FindPrSpec(listed, a.Title)
    case Err(e) => Done([list], Some(e))
    case Ok(pr) => Done([list, UpdatePR(repo, pr.Number, a.Rename, a.Close)], updated)
  }

  function ClosePrCommand(config: Option<Config>, events: seq<Event>, input: seq<string>, branch: string,
                          listed: Result<seq<PullRequest>, string>, updated: ErrorOpt): (r: Outcome)
    ensures CmdContext.ValidateConfig(config, true).Some? ==> r == Done([], CmdContext.ValidateConfig(config, true))
  {
    match CmdContext.ValidateConfig(config, true)
    case Some(e) => Done([], Some(e))
    case None =>
      var res := GetOptsSpec(UpdatePrOpts(config, branch), events, input);
      if res.exhausted then Stuck([]) else ClosePrRun(config.value, UpdatePrArgsOf(res.opts), listed, updated)
  }
}
