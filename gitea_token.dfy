/** `gitea/token.go`: the request for a new access token, carrying the
    credentials and the repository information of the server. Its first
    three prompts are the same as those of the top-level credentials. */
module GiteaToken {
  import opened Wrappers
  import opened Encoding
  import opened RandomNames
  import opened Console
  import opened ConfigCtx
  import MainToken

  /** The request fields after filling, and the input left over. */
  datatype RequestFill = RequestFill(Username: string, Password: string, TokenName: string,
                                     RepoInfo: RepoInfo, rest: seq<string>)

  /** FillFromConsole as a function of the fields it starts from: the three
      credential prompts, then the server URL when still empty, then the API
      version "v1" when still empty, without a prompt. */
  function FillRequest(username: string, password: string, tokenName: string, repoInfo: RepoInfo,
                       input: seq<string>, draws: seq<int>): (r: RequestFill)
    requires ValidDraws(draws, 8)
    ensures r.Username == if username != "" then username else LineAt(input, 0)
    ensures r.Password == if password != "" then password else LineAt(input, if username == "" then 1 else 0)
    ensures var t := LineAt(input, MainToken.PromptCount(username, password, "") - 1);
      r.TokenName == if tokenName != "" then tokenName else if t != "" then t else RandChars(draws)
    ensures r.TokenName != ""
    ensures r.RepoInfo.RepoUrl
         == if repoInfo.RepoUrl != "" then repoInfo.RepoUrl else LineAt(input, MainToken.PromptCount(username, password, tokenName))
    ensures r.RepoInfo.ApiVer == if repoInfo.ApiVer == "" then "v1" else repoInfo.ApiVer
    ensures r.rest == After(input, MainToken.PromptCount(username, password, tokenName) + if repoInfo.RepoUrl == "" then 1 else 0)
  {
    var c := MainToken.FillCredentials(username, password, tokenName, input, draws);
    NextLineAfter(input, MainToken.PromptCount(username, password, tokenName));
    var (url, rest) := if repoInfo.RepoUrl == "" then NextLine(c.rest) else (repoInfo.RepoUrl, c.rest);
    RequestFill(c.Username, c.Password, c.TokenName,
                RepoInfo(if repoInfo.ApiVer == "" then "v1" else repoInfo.ApiVer, url), rest)
  }

  class TokenRequest {
    var Username: string
    var Password: string
    var TokenName: string
    var RepoInfo: RepoInfo

    constructor(username: string, password: string, tokenName: string, repoInfo: RepoInfo)
      ensures Username == username && Password == password && TokenName == tokenName && RepoInfo == repoInfo
    {
      Username := username;
      Password := password;
      TokenName := tokenName;
      RepoInfo := repoInfo;
    }

    /** The `Basic` header of section 2 of RFC 7617 for the request's
        credentials. */
    function ToBasicAuth(): (r: string)
      reads this
      ensures |r| >= 6 && r[..6] == "Basic "
      ensures Base64Decode(r[6..]) == Some(Utf8(Username) + [0x3A] + Utf8(Password))
    {
      BasicAuthDecodes(Username, Password);
      BasicAuth(Username, Password)
    }

    /** User name and password first, then the repository information. */
    function Validate(): (r: ErrorOpt)
      reads this
      ensures Username == "" || Password == "" ==> r == Some("invalid username or password")
      ensures Username != "" && Password != "" ==> r == RepoInfo.Validate()
      ensures r.None? <==> Username != "" && Password != "" && RepoInfo.RepoUrl != "" && RepoInfo.ApiVer != ""
    {
      if Username == "" || Password == "" then Some("invalid username or password")
      else RepoInfo.Validate()
    }

    /** Prompts for the fields that are still empty, in field order, and
        returns the validation of the filled request; the terminal echo
        switching around the password read is not modelled. */
    method FillFromConsole(input: seq<string>, draws: seq<int>) returns (err: ErrorOpt, rest: seq<string>)
      requires ValidDraws(draws, 8)
      modifies this
      ensures RequestFill(Username, Password, TokenName, RepoInfo, rest)
           == FillRequest(old(Username), old(Password), old(TokenName), old(RepoInfo), input, draws)
      ensures err == Validate()
    {
      var cur := input;
      if Username == "" {
        var line := NextLine(cur);
        Username, cur := line.0, line.1;
      }
      if Password == "" {
        var line := NextLine(cur);
        Password, cur := line.0, line.1;
      }
      if TokenName == "" {
        var line := NextLine(cur);
        TokenName, cur := line.0, line.1;
        if TokenName == "" {
          TokenName := RandStr(8, draws);
        }
      }
      if RepoInfo.RepoUrl == "" {
        var line := NextLine(cur);
        RepoInfo, cur := RepoInfo.(RepoUrl := line.0), line.1;
      }
      if RepoInfo.ApiVer == "" {
        RepoInfo := RepoInfo.(ApiVer := "v1");
      }
      rest := cur;
      err := Validate();
    }
  }
}
