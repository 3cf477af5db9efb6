/** Package `rocketchat`: the request context for posting messages. */
module RocketchatCtx {
  import opened Wrappers

  datatype Ctx = Ctx(ApiUrl: string, UserID: string, Token: string)
  {
    /** API URL, user id, token: the first missing one is reported. */
    function Validate(): (r: ErrorOpt)
      ensures ApiUrl == "" ==> r == Some("validate rocketchat.Ctx: invalid ApiUrl")
      ensures ApiUrl != "" && UserID == "" ==> r == Some("validate rocketchat.Ctx: invalid UserID")
      ensures ApiUrl != "" && UserID != "" && Token == "" ==> r == Some("validate rocketchat.Ctx: invalid Token")
    {
      if ApiUrl == "" then Some("validate rocketchat.Ctx: invalid ApiUrl")
      else if UserID == "" then Some("validate rocketchat.Ctx: invalid UserID")
      else if Token == "" then Some("validate rocketchat.Ctx: invalid Token")
      else None
    }
  }

  /** The context is accepted exactly when all three fields are present, and
      an error names exactly one field: the first missing one. */
  lemma CtxValidIff(c: Ctx)
    ensures c.Validate().None? <==> c.ApiUrl != "" && c.UserID != "" && c.Token != ""
    ensures c.Validate() == Some("validate rocketchat.Ctx: invalid UserID") <==> c.ApiUrl != "" && c.UserID == ""
    ensures c.Validate() == Some("validate rocketchat.Ctx: invalid Token") <==> c.ApiUrl != "" && c.UserID != "" && c.Token == ""
  {
  }
}
