/** The persisted configuration of the `cmd` front end (package `common`):
    where the Gitea and Rocketchat servers are, the credentials obtained for
    them and the defaults that commands offer. */
module CommonConfig {
  import opened Wrappers

  /** Position of the last '/' in `s`, if any. */
  function LastSlash(s: string): (r: Option<nat>)
    ensures r.Some? ==> r.value < |s| && s[r.value] == '/' && '/' !in s[r.value + 1..]
    ensures r.None? ==> '/' !in s
    decreases |s|
  {
    if |s| == 0 then None
    else if s[|s| - 1] == '/' then Some(|s| - 1)
    else
      var r := LastSlash(s[..|s| - 1]);
      assert s == s[..|s| - 1] + [s[|s| - 1]];
      r
  }

  datatype RemoteInfo = RemoteInfo(ApiVer: string, BaseUrl: string)
  {
    static function ValidationErr(msg: string): string
    {
      "Validate RemoteInfo: " + msg
    }

    /** `<base_url>/api/<api_ver>`. */
    function ToApiUrl(): (r: string)
    {
      BaseUrl + "/api/" + ApiVer
    }

    /** Base URL first, then API version; the message names the missing one. */
    function Validate(): (r: ErrorOpt)
      ensures r.None? <==> BaseUrl != "" && ApiVer != ""
      ensures BaseUrl == "" ==> r == Some(ValidationErr("invalid base_url"))
      ensures BaseUrl != "" && ApiVer == "" ==> r == Some(ValidationErr("invalid api_ver"))
    {
      if BaseUrl == "" then Some(ValidationErr("invalid base_url"))
      else if ApiVer == "" then Some(ValidationErr("invalid api_ver"))
      else None
    }
  }

  /** Reads an API URL back into its parts: the API version is what follows
      the last '/', and what precedes it must end in "/api". */
  function SplitApiUrl(url: string): (r: Option<RemoteInfo>)
  {
    match LastSlash(url)
    case None => None
    case Some(k) =>
      if k >= 4 && url[k - 4..k] == "/api" then Some(RemoteInfo(url[k + 1..], url[..k - 4]))
      else None
  }

  /** ToApiUrl loses nothing when the API version contains no '/'. */
  lemma ToApiUrlSplits(ri: RemoteInfo)
    requires '/' !in ri.ApiVer
    ensures SplitApiUrl(ri.ToApiUrl()) == Some(ri)
  {
    var u := ri.ToApiUrl();
    var k := |ri.BaseUrl| + 4;
    assert u == ri.BaseUrl + "/api" + "/" + ri.ApiVer;
    assert u[k] == '/';
    assert u[k + 1..] == ri.ApiVer;
    assert LastSlash(u) == Some(k);
    assert u[k - 4..k] == "/api";
    assert u[..k - 4] == ri.BaseUrl;
  }

  datatype GiteaConfig = GiteaConfig(
    TokenSha1: string,
    TokenName: string,
    DefaultRepoName: string,
    DefaultRepoOwner: string,
    DefaultBaseForPR: string,
    RemoteInfo: RemoteInfo)
  {
    static function ValidationErr(msg: string): string
    {
      "Validate GiteaConfig: " + msg
    }

    /** With `cred`, the token sha1 and then the token name must be present
        first; the remote is checked in either case. */
    function Validate(cred: bool): (r: ErrorOpt)
      ensures r.None? <==> (cred ==> TokenSha1 != "" && TokenName != "") && RemoteInfo.Validate().None?
      ensures !cred ==> r == RemoteInfo.Validate()
      ensures cred && TokenSha1 == "" ==> r == Some(ValidationErr("invalid token_sha1"))
      ensures cred && TokenSha1 != "" && TokenName == "" ==> r == Some(ValidationErr("invalid token_name"))
      ensures cred && TokenSha1 != "" && TokenName != "" ==> r == RemoteInfo.Validate()
    {
      if cred && TokenSha1 == "" then Some(ValidationErr("invalid token_sha1"))
      else if cred && TokenName == "" then Some(ValidationErr("invalid token_name"))
      else RemoteInfo.Validate()
    }

    function ToApiUrl(): string
    {
      RemoteInfo.ToApiUrl()
    }
  }

  datatype Rocketchat = Rocketchat(
    Enabled: bool,
    RemoteInfo: RemoteInfo,
    UserID: string,
    Token: string,
    DefaultNotifyChannel: string,
    DefaultHeader: string)
  {
    static function ValidationErr(msg: string): string
    {
      "Validate Rocketchat: " + msg
    }

    /** With `cred`, the user id and then the token must be present first. */
    function Validate(cred: bool): (r: ErrorOpt)
      ensures r.None? <==> (cred ==> UserID != "" && Token != "") && RemoteInfo.Validate().None?
      ensures !cred ==> r == RemoteInfo.Validate()
      ensures cred && UserID == "" ==> r == Some(ValidationErr("invalid user_id"))
      ensures cred && UserID != "" && Token == "" ==> r == Some(ValidationErr("invalid token"))
      ensures cred && UserID != "" && Token != "" ==> r == RemoteInfo.Validate()
    {
      if cred && UserID == "" then Some(ValidationErr("invalid user_id"))
      else if cred && Token == "" then Some(ValidationErr("invalid token"))
      else RemoteInfo.Validate()
    }

    function ToApiUrl(): string
    {
      RemoteInfo.ToApiUrl()
    }
  }

  datatype Config = Config(Gitea: GiteaConfig, Rocketchat: Rocketchat)
  {
    /** The Gitea section's error wins; the Rocketchat section is checked
        only when it is enabled. */
    function Validate(cred: bool): (r: ErrorOpt)
      ensures Gitea.Validate(cred).Some? ==> r == Gitea.Validate(cred)
      ensures Gitea.Validate(cred).None? && !Rocketchat.Enabled ==> r.None?
      ensures Gitea.Validate(cred).None? && Rocketchat.Enabled ==> r == Rocketchat.Validate(cred)
    {
      match Gitea.Validate(cred)
      case Some(e) => Some(e)
      case None => if Rocketchat.Enabled then Rocketchat.Validate(cred) else None
    }
  }

  /** The whole configuration validates with credentials exactly when every
      field that validation looks at is present. */
  lemma ConfigValidateFields(c: Config)
    ensures c.Validate(true).None? <==>
      && c.Gitea.TokenSha1 != "" && c.Gitea.TokenName != ""
      && c.Gitea.RemoteInfo.BaseUrl != "" && c.Gitea.RemoteInfo.ApiVer != ""
      && (c.Rocketchat.Enabled ==>
            c.Rocketchat.UserID != "" && c.Rocketchat.Token != ""
            && c.Rocketchat.RemoteInfo.BaseUrl != "" && c.Rocketchat.RemoteInfo.ApiVer != "")
  {
  }

  /** Validating with credentials is stronger than without, at every layer. */
  lemma ValidateCredImpliesPlain(c: Config)
    ensures c.Gitea.Validate(true).None? ==> c.Gitea.Validate(false).None?
    ensures c.Rocketchat.Validate(true).None? ==> c.Rocketchat.Validate(false).None?
    ensures c.Validate(true).None? ==> c.Validate(false).None?
  {
  }

  /** Every error message carries the layer that produced it. */
  lemma ErrorsArePrefixed(c: Config, cred: bool)
    ensures c.Gitea.RemoteInfo.Validate().Some? ==> "Validate RemoteInfo: " <= c.Gitea.RemoteInfo.Validate().value
    ensures c.Gitea.Validate(cred).Some? ==>
      "Validate GiteaConfig: " <= c.Gitea.Validate(cred).value || "Validate RemoteInfo: " <= c.Gitea.Validate(cred).value
    ensures c.Rocketchat.Validate(cred).Some? ==>
      "Validate Rocketchat: " <= c.Rocketchat.Validate(cred).value || "Validate RemoteInfo: " <= c.Rocketchat.Validate(cred).value
  {
  }
}
