/** Package `gitea`: the per-repository request context and the pull request
    record the API returns. */
module GiteaRepoCtx {
  import opened Wrappers

  datatype RepoCtx = RepoCtx(Owner: string, Repo: string, Token: string, ApiUrl: string)
  {
    /** Owner, repository name, token, API URL: the first missing one is
        reported. */
    function Validate(): (r: ErrorOpt)
      ensures Owner == "" ==> r == Some("validate RepoCtx: no repository owner provided")
      ensures Owner != "" && Repo == "" ==> r == Some("validate RepoCtx: no repository name provided")
      ensures Owner != "" && Repo != "" && Token == "" ==> r == Some("validate RepoCtx: no auth token provided")
      ensures Owner != "" && Repo != "" && Token != "" && ApiUrl == "" ==> r == Some("validate RepoCtx: no Api url provided")
    {
      if Owner == "" then Some("validate RepoCtx: no repository owner provided")
      else if Repo == "" then Some("validate RepoCtx: no repository name provided")
      else if Token == "" then Some("validate RepoCtx: no auth token provided")
      else if ApiUrl == "" then Some("validate RepoCtx: no Api url provided")
      else None
    }
  }

  /** The context is accepted exactly when all four fields are present. */
  lemma RepoCtxValidIff(r: RepoCtx)
    ensures r.Validate().None? <==> r.Owner != "" && r.Repo != "" && r.Token != "" && r.ApiUrl != ""
  {
  }

  /** The fields of a pull request that the commands read (gitea/pr.go). */
  datatype PullRequest = PullRequest(
    Url: string, Title: string, ID: int, UserLogin: string,
    BaseRef: string, HeadRef: string, Number: int)
}
