/** The credential commands of `cmd/cred_cmd.go`: the descriptors they ask
    for, and how they update the configuration held by the command context.
    The token and login requests and the writing of `gitea.yml` are foreign
    I/O: each command records the requests it makes, and what each request
    returns is a parameter. */
module CmdCred {
  import opened Wrappers
  import opened CmdOptions
  import opened CommonConfig
  import opened RandomNames
  import opened CmdContext

  const GiteaUserLabel: string := "Gitea username"
  const GiteaPassLabel: string := "Gitea password"
  const TokenNameLabel: string := "Token name (default: random)"
  const RocketUserLabel: string := "Rocketchat username"
  const RocketPassLabel: string := "Rocketchat password"

  // ---------------------------------------------------------------------
  // Descriptors

  /** A string descriptor with an empty starting value. */
  function StrOpt(flags: seq<string>, caption: string, notRequired: bool, default: Option<string>,
                  noEcho: bool, noPrompt: bool): CmdOpt
  {
    CmdOpt(CmdOptSpec(flags, caption, notRequired, default, noEcho, false, noPrompt), CmdOptVal("", false))
  }

  /** getRmCredOpts: the Gitea user name (`-u`/`--user`) and the password,
      which no flag names and which is read without echo; both are
      required prompts. */
  function GetRmCredOpts(): (r: seq<CmdOpt>)
    ensures |r| == 2
    ensures r[0].Spec.ArgFlags == ["u", "user"] && !r[0].Spec.NoEcho
    ensures r[1].Spec.ArgFlags == [] && r[1].Spec.NoEcho
    ensures forall k :: 0 <= k < 2 ==>
      && PromptsForString(r[k]) && !r[k].Spec.NotRequired && r[k].Spec.DefaultStrFunc.None?
  {
    [ StrOpt(["u", "user"], GiteaUserLabel, false, None, false, false),
      StrOpt([], GiteaPassLabel, false, None, true, false) ]
  }

  /** newRocketCredOpts: the Rocketchat user (`--rocketuser`) and the
      password without echo; without rocketchat neither is prompted nor
      required. */
  function NewRocketCredOpts(withRocketchat: bool): (r: seq<CmdOpt>)
    ensures |r| == 2
    ensures r[0].Spec.ArgFlags == ["rocketuser"] && !r[0].Spec.NoEcho
    ensures r[1].Spec.ArgFlags == [] && r[1].Spec.NoEcho
    ensures forall k :: 0 <= k < 2 ==>
      && r[k].Spec.NoPrompt == !withRocketchat && r[k].Spec.NotRequired == !withRocketchat
      && !r[k].Spec.IsBool && r[k].Spec.DefaultStrFunc.None? && r[k].Val == CmdOptVal("", false)
  {
    [ StrOpt(["rocketuser"], RocketUserLabel, !withRocketchat, None, false, !withRocketchat),
      StrOpt([], RocketPassLabel, !withRocketchat, None, true, !withRocketchat) ]
  }

  /** newGiteaCredOpts: the two getRmCredOpts descriptors, then the token
      name (`-t`/`--token`), optional, whose default is the name that the
      eight random `draws` select. */
  function NewGiteaCredOpts(draws: seq<int>): (r: seq<CmdOpt>)
    requires ValidDraws(draws, 8)
    ensures |r| == 3 && r[..2] == GetRmCredOpts()
    ensures r[2].Spec.ArgFlags == ["t", "token"] && !r[2].Spec.NoEcho
    ensures PromptsForString(r[2]) && r[2].Spec.NotRequired
    ensures r[2].Spec.DefaultStrFunc == Some(RandChars(draws)) && |RandChars(draws)| == 8
  {
    GetRmCredOpts() + [StrOpt(["t", "token"], TokenNameLabel, true, Some(RandChars(draws)), false, false)]
  }

  /** Whether newCredOpts asks for rocketchat credentials. */
  predicate WithRocketchat(config: Option<Config>)
  {
    config.Some? && config.value.Rocketchat.Enabled
  }

  /** newCredOpts: the Gitea descriptors followed by the rocketchat ones,
      which are prompted exactly when a configuration enables rocketchat. */
  function NewCredOpts(config: Option<Config>, draws: seq<int>): (r: seq<CmdOpt>)
    requires ValidDraws(draws, 8)
    ensures |r| == 5
    ensures r[..3] == NewGiteaCredOpts(draws)
    ensures r[3..] == NewRocketCredOpts(WithRocketchat(config))
  {
    NewGiteaCredOpts(draws) + NewRocketCredOpts(WithRocketchat(config))
  }

  // ---------------------------------------------------------------------
  // Configuration updates

  /** The configuration after a token was issued under `name`. */
  function WithGiteaToken(c: Config, name: string, sha1: string): (r: Config)
    ensures r.Gitea.TokenName == name && r.Gitea.TokenSha1 == sha1
    ensures r.Gitea.RemoteInfo == c.Gitea.RemoteInfo && r.Rocketchat == c.Rocketchat
    ensures r.Gitea.DefaultRepoName == c.Gitea.DefaultRepoName && r.Gitea.DefaultRepoOwner == c.Gitea.DefaultRepoOwner
    ensures r.Gitea.DefaultBaseForPR == c.Gitea.DefaultBaseForPR
  {
    c.(Gitea := c.Gitea.(TokenName := name, TokenSha1 := sha1))
  }

  /** The configuration after its token was deleted. */
  function ClearGiteaToken(c: Config): (r: Config)
    ensures r.Gitea.TokenName == "" && r.Gitea.TokenSha1 == ""
    ensures r == WithGiteaToken(c, "", "")
  {
    WithGiteaToken(c, "", "")
  }

  /** The configuration after a rocketchat login. */
  function WithRocketLogin(c: Config, authToken: string, userID: string): (r: Config)
    ensures r.Rocketchat.Token == authToken && r.Rocketchat.UserID == userID && r.Gitea == c.Gitea
    ensures r.Rocketchat.Enabled == c.Rocketchat.Enabled && r.Rocketchat.RemoteInfo == c.Rocketchat.RemoteInfo
    ensures r.Rocketchat.DefaultNotifyChannel == c.Rocketchat.DefaultNotifyChannel
    ensures r.Rocketchat.DefaultHeader == c.Rocketchat.DefaultHeader
  {
    c.(Rocketchat := c.Rocketchat.(Token := authToken, UserID := userID))
  }

  // ---------------------------------------------------------------------
  // Requests

  /** gitea.TokenRequest as cred_cmd.go fills it. */
  datatype TokenRequest = TokenRequest(Username: string, Password: string, TokenName: string, RemoteInfo: RemoteInfo)

  /** What a successful rocketchat login returns. */
  datatype LoginData = LoginData(AuthToken: string, UserID: string)

  /** The foreign calls the credential commands make, in order. */
  datatype CredCall =
    | GetToken(Req: TokenRequest)
    | DeleteToken(Req: TokenRequest)
    | Login(User: string, Password: string, Server: RemoteInfo)
    | Persist(Saved: Config)

  /** A command either finishes with the calls it made and its error, or
      waits forever at a required prompt once the input is used up. */
  datatype CredOutcome = Finished(calls: seq<CredCall>, err: ErrorOpt) | Blocked

  // ---------------------------------------------------------------------
  // The steps that change the context

  /** setNewGiteaCred: requests a token under the resolved user, password
      and token name; only when it is issued are the token name and sha1
      stored. */
  method SetNewGiteaCred(ctx: CmdCtx, opts: seq<CmdOpt>, issued: Result<string, string>)
      returns (err: ErrorOpt, call: CredCall)
    requires ctx.Config.Some? && |opts| >= 3
    modifies ctx
    ensures call == GetToken(TokenRequest(opts[0].Val.Str, opts[1].Val.Str, opts[2].Val.Str,
                                          old(ctx.Config.value.Gitea.RemoteInfo)))
    ensures issued.Err? ==> err == Some(issued.error) && ctx.Config == old(ctx.Config)
    ensures issued.Ok? ==> err.None? && ctx.Config == Some(WithGiteaToken(old(ctx.Config.value), opts[2].Val.Str, issued.value))
    ensures ctx.CommandRoot == old(ctx.CommandRoot)
  {
    var c := ctx.Config.value;
    call := GetToken(TokenRequest(opts[0].Val.Str, opts[1].Val.Str, opts[2].Val.Str, c.Gitea.RemoteInfo));
    if issued.Err? {
      return Some(issued.error), call;
    }
    ctx.Config := Some(WithGiteaToken(c, opts[2].Val.Str, issued.value));
    err := None;
  }

  /** setNewRocketchatCred: logs in with the resolved user and password;
      only a successful login stores the token and the user id. */
  method SetNewRocketchatCred(ctx: CmdCtx, opts: seq<CmdOpt>, login: Result<LoginData, string>)
      returns (err: ErrorOpt, call: CredCall)
    requires ctx.Config.Some? && |opts| >= 2
    modifies ctx
    ensures call == Login(opts[0].Val.Str, opts[1].Val.Str, old(ctx.Config.value.Rocketchat.RemoteInfo))
    ensures login.Err? ==> err == Some(login.error) && ctx.Config == old(ctx.Config)
    ensures login.Ok? ==>
      err.None? && ctx.Config == Some(WithRocketLogin(old(ctx.Config.value), login.value.AuthToken, login.value.UserID))
    ensures ctx.CommandRoot == old(ctx.CommandRoot)
  {
    var c := ctx.Config.value;
    call := Login(opts[0].Val.Str, opts[1].Val.Str, c.Rocketchat.RemoteInfo);
    if login.Err? {
      return Some(login.error), call;
    }
    ctx.Config := Some(WithRocketLogin(c, login.value.AuthToken, login.value.UserID));
    err := None;
  }

  // ---------------------------------------------------------------------
  // The commands

  /** RmCredCommand: with a configuration that has credentials, deletes the
      configured token with the resolved user and password; only after the
      deletion succeeds are the token name and sha1 cleared and the
      configuration written. */
  method RmCredCommand(ctx: CmdCtx, events: seq<Event>, input: seq<string>,
                       deleted: ErrorOpt, persisted: ErrorOpt) returns (out: CredOutcome)
    modifies ctx
    ensures ValidateConfig(old(ctx.Config), true).Some? ==>
      out == Finished([], ValidateConfig(old(ctx.Config), true)) && ctx.Config == old(ctx.Config)
    ensures ValidateConfig(old(ctx.Config), true).None? ==>
      var res := GetOptsSpec(GetRmCredOpts(), events, input);
      var c := old(ctx.Config.value);
      var del := DeleteToken(TokenRequest(res.opts[0].Val.Str, res.opts[1].Val.Str, c.Gitea.TokenName, c.Gitea.RemoteInfo));
      && (res.exhausted ==> out == Blocked && ctx.Config == old(ctx.Config))
      && (!res.exhausted && deleted.Some? ==> out == Finished([del], deleted) && ctx.Config == old(ctx.Config))
      && (!res.exhausted && deleted.None? ==>
            out == Finished([del, Persist(ClearGiteaToken(c))], persisted) && ctx.Config == Some(ClearGiteaToken(c)))
    ensures ctx.CommandRoot == old(ctx.CommandRoot)
  {
    var v := ValidateConfig(ctx.Config, true);
    if v.Some? {
      return Finished([], v);
    }
    var res := GetOptsSpec(GetRmCredOpts(), events, input);
    if res.exhausted {
      return Blocked;
    }
    var c := ctx.Config.value;
    var del := DeleteToken(TokenRequest(res.opts[0].Val.Str, res.opts[1].Val.Str, c.Gitea.TokenName, c.Gitea.RemoteInfo));
    if deleted.Some? {
      return Finished([del], deleted);
    }
    ctx.Config := Some(ClearGiteaToken(c));
    out := Finished([del, Persist(ctx.Config.value)], persisted);
  }

  /** NewGiteaCredCommand: resolves the three Gitea descriptors, requests a
      token, and writes the configuration once the token is stored. */
  method NewGiteaCredCommand(ctx: CmdCtx, events: seq<Event>, input: seq<string>, draws: seq<int>,
                             issued: Result<string, string>, persisted: ErrorOpt) returns (out: CredOutcome)
    requires ValidDraws(draws, 8)
    modifies ctx
    ensures ValidateConfig(old(ctx.Config), false).Some? ==>
      out == Finished([], ValidateConfig(old(ctx.Config), false)) && ctx.Config == old(ctx.Config)
    ensures ValidateConfig(old(ctx.Config), false).None? ==>
      var res := GetOptsSpec(NewGiteaCredOpts(draws), events, input);
      var c := old(ctx.Config.value);
      var get := GetToken(TokenRequest(res.opts[0].Val.Str, res.opts[1].Val.Str, res.opts[2].Val.Str, c.Gitea.RemoteInfo));
      var saved := WithGiteaToken(c, res.opts[2].Val.Str, if issued.Ok? then issued.value else "");
      && (res.exhausted ==> out == Blocked && ctx.Config == old(ctx.Config))
      && (!res.exhausted && issued.Err? ==> out == Finished([get], Some(issued.error)) && ctx.Config == old(ctx.Config))
      && (!res.exhausted && issued.Ok? ==> out == Finished([get, Persist(saved)], persisted) && ctx.Config == Some(saved))
    ensures ctx.CommandRoot == old(ctx.CommandRoot)
  {
    var v := ValidateConfig(ctx.Config, false);
    if v.Some? {
      return Finished([], v);
    }
    var res := GetOptsSpec(NewGiteaCredOpts(draws), events, input);
    if res.exhausted {
      return Blocked;
    }
    var err, get := SetNewGiteaCred(ctx, res.opts, issued);
    if err.Some? {
      return Finished([get], err);
    }
    out := Finished([get, Persist(ctx.Config.value)], persisted);
  }

  /** NewRocketCredCommand: the two rocketchat descriptors, always
      prompted, then the login, then the write of the configuration. */
  method NewRocketCredCommand(ctx: CmdCtx, events: seq<Event>, input: seq<string>,
                              login: Result<LoginData, string>, persisted: ErrorOpt) returns (out: CredOutcome)
    modifies ctx
    ensures ValidateConfig(old(ctx.Config), false).Some? ==>
      out == Finished([], ValidateConfig(old(ctx.Config), false)) && ctx.Config == old(ctx.Config)
    ensures ValidateConfig(old(ctx.Config), false).None? ==>
      var res := GetOptsSpec(NewRocketCredOpts(true), events, input);
      var c := old(ctx.Config.value);
      var call := Login(res.opts[0].Val.Str, res.opts[1].Val.Str, c.Rocketchat.RemoteInfo);
      && (res.exhausted ==> out == Blocked && ctx.Config == old(ctx.Config))
      && (!res.exhausted && login.Err? ==> out == Finished([call], Some(login.error)) && ctx.Config == old(ctx.Config))
      && (!res.exhausted && login.Ok? ==>
            var saved := WithRocketLogin(c, login.value.AuthToken, login.value.UserID);
            out == Finished([call, Persist(saved)], persisted) && ctx.Config == Some(saved))
    ensures ctx.CommandRoot == old(ctx.CommandRoot)
  {
    var v := ValidateConfig(ctx.Config, false);
    if v.Some? {
      return Finished([], v);
    }
    var res := GetOptsSpec(NewRocketCredOpts(true), events, input);
    if res.exhausted {
      return Blocked;
    }
    var err, call := SetNewRocketchatCred(ctx, res.opts, login);
    if err.Some? {
      return Finished([call], err);
    }
    out := Finished([call, Persist(ctx.Config.value)], persisted);
  }

  /** NewCredCommand: the five descriptors of newCredOpts, the token
      request, then, only when rocketchat is enabled, the login with the
      descriptors from index 3 on; the configuration is written only when
      every request succeeded. A failed login leaves the new token in the
      context but unwritten. */
  method NewCredCommand(ctx: CmdCtx, events: seq<Event>, input: seq<string>, draws: seq<int>,
                        issued: Result<string, string>, login: Result<LoginData, string>,
                        persisted: ErrorOpt) returns (out: CredOutcome)
    requires ValidDraws(draws, 8)
    modifies ctx
    ensures ValidateConfig(old(ctx.Config), false).Some? ==>
      out == Finished([], ValidateConfig(old(ctx.Config), false)) && ctx.Config == old(ctx.Config)
    ensures ValidateConfig(old(ctx.Config), false).None? ==>
      var res := GetOptsSpec(NewCredOpts(old(ctx.Config), draws), events, input);
      var c := old(ctx.Config.value);
      var get := GetToken(TokenRequest(res.opts[0].Val.Str, res.opts[1].Val.Str, res.opts[2].Val.Str, c.Gitea.RemoteInfo));
      var withToken := WithGiteaToken(c, res.opts[2].Val.Str, if issued.Ok? then issued.value else "");
      var call := Login(res.opts[3].Val.Str, res.opts[4].Val.Str, c.Rocketchat.RemoteInfo);
      var saved := if login.Ok? then WithRocketLogin(withToken, login.value.AuthToken, login.value.UserID) else withToken;
      && (res.exhausted ==> out == Blocked && ctx.Config == old(ctx.Config))
      && (!res.exhausted && issued.Err? ==> out == Finished([get], Some(issued.error)) && ctx.Config == old(ctx.Config))
      && (!res.exhausted && issued.Ok? && !c.Rocketchat.Enabled ==>
            out == Finished([get, Persist(withToken)], persisted) && ctx.Config == Some(withToken))
      && (!res.exhausted && issued.Ok? && c.Rocketchat.Enabled && login.Err? ==>
            out == Finished([get, call], Some(login.error)) && ctx.Config == Some(withToken))
      && (!res.exhausted && issued.Ok? && c.Rocketchat.Enabled && login.Ok? ==>
            out == Finished([get, call, Persist(saved)], persisted) && ctx.Config == Some(saved))
    ensures ctx.CommandRoot == old(ctx.CommandRoot)
  {
    var v := ValidateConfig(ctx.Config, false);
    if v.Some? {
      return Finished([], v);
    }
    var res := GetOptsSpec(NewCredOpts(ctx.Config, draws), events, input);
    if res.exhausted {
      return Blocked;
    }
    var err, get := SetNewGiteaCred(ctx, res.opts, issued);
    if err.Some? {
      return Finished([get], err);
    }
    var calls := [get];
    if ctx.Config.value.Rocketchat.Enabled {
      var err2, call := SetNewRocketchatCred(ctx, res.opts[3..], login);
      calls := calls + [call];
      if err2.Some? {
        return Finished(calls, err2);
      }
    }
    out := Finished(calls + [Persist(ctx.Config.value)], persisted);
  }

  // ---------------------------------------------------------------------
  // Properties

  /** The user name and the password of rm cred always resolve to
      non-empty strings: both are required prompts. */
  lemma RmCredResolvedNonEmpty(events: seq<Event>, input: seq<string>)
    ensures var res := GetOptsSpec(GetRmCredOpts(), events, input);
      !res.exhausted ==> res.opts[0].Val.Str != "" && res.opts[1].Val.Str != ""
  {
    ResolvedStrNonEmpty(GetRmCredOpts(), events, input, 0);
    ResolvedStrNonEmpty(GetRmCredOpts(), events, input, 1);
  }

  /** The token request of new g cred never carries an empty field: the
      token name falls back to its random default. */
  lemma GiteaCredResolvedNonEmpty(draws: seq<int>, events: seq<Event>, input: seq<string>)
    requires ValidDraws(draws, 8)
    ensures var res := GetOptsSpec(NewGiteaCredOpts(draws), events, input);
      !res.exhausted ==> res.opts[0].Val.Str != "" && res.opts[1].Val.Str != "" && res.opts[2].Val.Str != ""
  {
    var opts := NewGiteaCredOpts(draws);
    assert opts[0] == GetRmCredOpts()[0] && opts[1] == GetRmCredOpts()[1];
    ResolvedStrNonEmpty(opts, events, input, 0);
    ResolvedStrNonEmpty(opts, events, input, 1);
    ResolvedStrNonEmpty(opts, events, input, 2);
  }

  /** With rocketchat enabled, the login of new cred never carries an empty
      user or password. */
  lemma CredLoginResolvedNonEmpty(config: Option<Config>, draws: seq<int>, events: seq<Event>, input: seq<string>)
    requires ValidDraws(draws, 8) && WithRocketchat(config)
    ensures var res := GetOptsSpec(NewCredOpts(config, draws), events, input);
      !res.exhausted ==> res.opts[3].Val.Str != "" && res.opts[4].Val.Str != ""
  {
    var opts := NewCredOpts(config, draws);
    assert opts[3] == NewRocketCredOpts(true)[0] && opts[4] == NewRocketCredOpts(true)[1];
    ResolvedStrNonEmpty(opts, events, input, 3);
    ResolvedStrNonEmpty(opts, events, input, 4);
  }

  /** An empty answer to the token-name prompt, or none at all, gives the
      random eight-letter name. */
  lemma TokenNameDefaultsToRandom(draws: seq<int>, input: seq<string>)
    requires ValidDraws(draws, 8)
    requires |input| == 0 || TrimLast(input[0]) == ""
    ensures Prompt(NewGiteaCredOpts(draws)[2], input).val.Str == RandChars(draws)
    ensures |RandChars(draws)| == 8 && forall k :: 0 <= k < 8 ==> RandChars(draws)[k] in Charset
  {
  }

  /** Typing the two credentials and an empty token name, with no flags,
      issues the request under the typed credentials and the random name. */
  lemma GiteaCredTypedScenario(draws: seq<int>, user: string, pass: string)
    requires ValidDraws(draws, 8) && TrimLast(user) != "" && TrimLast(pass) != ""
    ensures var res := GetOptsSpec(NewGiteaCredOpts(draws), [], [user, pass, "\n"]);
      && !res.exhausted && res.rest == []
      && res.opts[0].Val.Str == TrimLast(user) && res.opts[1].Val.Str == TrimLast(pass)
      && res.opts[2].Val.Str == RandChars(draws)
  {
    var opts := NewGiteaCredOpts(draws);
    assert FlagFilled(opts, []) == opts;
    assert [user, pass, "\n"] == [user] + [pass, "\n"] && [pass, "\n"] == [pass] + ["\n"];
    RequiredTyped(opts, 0, user, [pass, "\n"]);
    var o1 := opts[0 := opts[0].(Val := opts[0].Val.(Str := TrimLast(user)))];
    RequiredTyped(o1, 1, pass, ["\n"]);
    var o2 := o1[1 := o1[1].(Val := o1[1].Val.(Str := TrimLast(pass)))];
    OptionalLast(o2, "\n");
    assert TrimLast("\n") == "";
  }

  /** A required prompt answered by a non-empty line takes it and moves on
      to the next descriptor. */
  lemma RequiredTyped(opts: seq<CmdOpt>, i: nat, line: string, rest: seq<string>)
    requires i < |opts| && PromptsForString(opts[i]) && !opts[i].Spec.NotRequired && TrimLast(line) != ""
    ensures ResolveFrom(opts, i, [line] + rest)
         == ResolveFrom(opts[i := opts[i].(Val := opts[i].Val.(Str := TrimLast(line)))], i + 1, rest)
  {
    var input := [line] + rest;
    RequiredPromptAnswer(opts[i], input);
    assert input[0] == line && input[1..] == rest;
    assert FirstAnswer(input) == Some(0);
    ResolveAdvance(opts, i, input);
  }

  /** The last descriptor, an optional prompt, reads one line and ends the
      loop. */
  lemma OptionalLast(opts: seq<CmdOpt>, line: string)
    requires |opts| >= 1 && PromptsForString(opts[|opts| - 1]) && opts[|opts| - 1].Spec.NotRequired
    ensures var i := |opts| - 1;
      ResolveFrom(opts, i, [line])
      == Resolution(opts[i := opts[i].(Val := opts[i].Val.(Str := WithDefault(opts[i].Spec, TrimLast(line))))], [], false)
  {
    var i := |opts| - 1;
    OptionalPromptAnswer(opts[i], [line]);
    assert [line][1..] == [];
    ResolveAdvance(opts, i, [line]);
  }


  /** Deleting the token leaves a configuration that every command needing
      credentials refuses, at the token sha1, and that otherwise validates as
      before. */
  lemma ClearedTokenRefused(c: Config)
    ensures ValidateConfig(Some(ClearGiteaToken(c)), true)
         == Some(GiteaConfig.ValidationErr("invalid token_sha1"))
    ensures ClearGiteaToken(c).Validate(false) == c.Validate(false)
  {
  }

  /** Storing a token and clearing it again leaves the cleared
      configuration; clearing and restoring the old token and name gives the
      configuration back. */
  lemma TokenRoundTrip(c: Config, name: string, sha1: string)
    ensures ClearGiteaToken(WithGiteaToken(c, name, sha1)) == ClearGiteaToken(c)
    ensures WithGiteaToken(ClearGiteaToken(c), c.Gitea.TokenName, c.Gitea.TokenSha1) == c
  {
  }

  /** After new cred succeeds on a configuration that validates without
      credentials, with a non-empty name and sha1 and, when rocketchat is
      enabled, a non-empty token and user id, the commands that need
      credentials accept the configuration. */
  lemma NewCredCredentials(c: Config, name: string, sha1: string, login: LoginData)
    requires c.Validate(false).None? && name != "" && sha1 != ""
    requires c.Rocketchat.Enabled ==> login.AuthToken != "" && login.UserID != ""
    ensures var t := WithGiteaToken(c, name, sha1);
      var saved := if c.Rocketchat.Enabled then WithRocketLogin(t, login.AuthToken, login.UserID) else t;
      ValidateConfig(Some(saved), true).None?
  {
    ConfigValidateFields(c);
    var t := WithGiteaToken(c, name, sha1);
    ConfigValidateFields(t);
    ConfigValidateFields(WithRocketLogin(t, login.AuthToken, login.UserID));
  }
}
