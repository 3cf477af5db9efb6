/** Package `config`: the older configuration record, whose repository URL
    already includes the path under which the Gitea instance is served. */
module ConfigCtx {
  import opened Wrappers

  datatype RepoInfo = RepoInfo(ApiVer: string, RepoUrl: string)
  {
    static function ValidationErr(msg: string): string
    {
      "Validate RepoInfo: " + msg
    }

    /** Repository URL first, then API version. */
    function Validate(): (r: ErrorOpt)
      ensures r.None? <==> RepoUrl != "" && ApiVer != ""
      ensures RepoUrl == "" ==> r == Some(ValidationErr("invalid repo_url"))
      ensures RepoUrl != "" && ApiVer == "" ==> r == Some(ValidationErr("invalid api_ver"))
    {
      if RepoUrl == "" then Some(ValidationErr("invalid repo_url"))
      else if ApiVer == "" then Some(ValidationErr("invalid api_ver"))
      else None
    }

    /** `<repo_url>/api/<api_ver>`. */
    function ToRepoApiUrl(): (r: string)
    {
      RepoUrl + "/api/" + ApiVer
    }
  }

  /** ToRepoApiUrl keeps the repository URL as a prefix and the version as
      the text after the final "/api/". */
  lemma ToRepoApiUrlParts(ri: RepoInfo)
    ensures ri.RepoUrl <= ri.ToRepoApiUrl()
    ensures ri.ToRepoApiUrl()[|ri.RepoUrl|..] == "/api/" + ri.ApiVer
    ensures |ri.ToRepoApiUrl()| == |ri.RepoUrl| + 5 + |ri.ApiVer|
  {
  }

  datatype Config = Config(
    TokenSha1: string,
    TokenName: string,
    Username: string,
    DefaultRepoName: string,
    DefaultRepoOwner: string,
    DefaultBaseForMr: string,
    RepoInfo: RepoInfo)
  {
    static function ValidationErr(msg: string): string
    {
      "Validate Config: " + msg
    }

    /** Token sha1, token name and user name, in that order, then the
        repository information. */
    function Validate(): (r: ErrorOpt)
      ensures TokenSha1 == "" ==> r == Some(ValidationErr("invalid token_sha1"))
      ensures TokenSha1 != "" && TokenName == "" ==> r == Some(ValidationErr("invalid token_name"))
      ensures TokenSha1 != "" && TokenName != "" && Username == "" ==> r == Some(ValidationErr("invalid username"))
      ensures TokenSha1 != "" && TokenName != "" && Username != "" ==> r == RepoInfo.Validate()
    {
      if TokenSha1 == "" then Some(ValidationErr("invalid token_sha1"))
      else if TokenName == "" then Some(ValidationErr("invalid token_name"))
      else if Username == "" then Some(ValidationErr("invalid username"))
      else RepoInfo.Validate()
    }
  }

  /** The configuration is valid exactly when its five checked fields are
      all non-empty. */
  lemma ConfigValidIff(c: Config)
    ensures c.Validate().None? <==>
      c.TokenSha1 != "" && c.TokenName != "" && c.Username != ""
      && c.RepoInfo.RepoUrl != "" && c.RepoInfo.ApiVer != ""
  {
  }
}
