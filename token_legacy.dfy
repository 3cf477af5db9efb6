/** `token.go` of the top-level package: the credentials typed in by the
    user before a token is requested. */
module MainToken {
  import opened Wrappers
  import opened Encoding
  import opened RandomNames
  import opened Console

  /** The credential fields after filling, and the input left over. */
  datatype CredFill = CredFill(Username: string, Password: string, TokenName: string, rest: seq<string>)

  function PromptCount(username: string, password: string, tokenName: string): nat
  {
    (if username == "" then 1 else 0) + (if password == "" then 1 else 0) + (if tokenName == "" then 1 else 0)
  }

  /** The three prompts of FillFromConsole: user name, password, token name,
      each only when the field is still empty; an empty token name after its
      prompt becomes the random name that `draws` select. */
  function FillCredentials(username: string, password: string, tokenName: string,
                           input: seq<string>, draws: seq<int>): (r: CredFill)
    requires ValidDraws(draws, 8)
    ensures r.Username == if username != "" then username else LineAt(input, 0)
    ensures r.Password == if password != "" then password else LineAt(input, if username == "" then 1 else 0)
    ensures var t := LineAt(input, PromptCount(username, password, "") - 1);
      r.TokenName == if tokenName != "" then tokenName else if t != "" then t else RandChars(draws)
    ensures r.TokenName != ""
    ensures r.rest == After(input, PromptCount(username, password, tokenName))
  {
    var nu: nat := if username == "" then 1 else 0;
    var np: nat := nu + if password == "" then 1 else 0;
    assert After(input, 0) == input;
    NextLineAfter(input, 0);
    NextLineAfter(input, nu);
    NextLineAfter(input, np);
    var (u, in1) := if username == "" then NextLine(input) else (username, input);
    assert in1 == After(input, nu);
    var (p, in2) := if password == "" then NextLine(in1) else (password, in1);
    assert in2 == After(input, np);
    var (t, in3) := if tokenName == "" then NextLine(in2) else (tokenName, in2);
    CredFill(u, p, if t == "" then RandChars(draws) else t, in3)
  }

  class Credentials {
    var Username: string
    var Password: string
    var TokenName: string

    constructor(username: string, password: string, tokenName: string)
      ensures Username == username && Password == password && TokenName == tokenName
    {
      Username := username;
      Password := password;
      TokenName := tokenName;
    }

    /** The `Basic` header of section 2 of RFC 7617 for these credentials. */
    function ToBasicAuth(): (r: string)
      reads this
      ensures |r| >= 6 && r[..6] == "Basic "
      ensures Base64Decode(r[6..]) == Some(Utf8(Username) + [0x3A] + Utf8(Password))
    {
      BasicAuthDecodes(Username, Password);
      BasicAuth(Username, Password)
    }

    /** Only the user name and password are checked; the token name never is. */
    function Validate(): (r: ErrorOpt)
      reads this
      ensures r.None? <==> Username != "" && Password != ""
      ensures r.Some? ==> r.value == "invalid username or password"
    {
      if Username == "" || Password == "" then Some("invalid username or password") else None
    }

    /** Prompts for the fields that are still empty, in field order; the
        terminal echo switching around the password read is not modelled. */
    method FillFromConsole(input: seq<string>, draws: seq<int>) returns (err: ErrorOpt, rest: seq<string>)
      requires ValidDraws(draws, 8)
      modifies this
      ensures CredFill(Username, Password, TokenName, rest)
           == FillCredentials(old(Username), old(Password), old(TokenName), input, draws)
      ensures err == Validate()
    {
      var cur := input;
      if Username == "" {
        var line := NextLine(cur);
        Username, cur := line.0, line.1;
      }
      if Password == "" {
        var line := NextLine(cur);
        Password, cur := line.0, line.1;
      }
      if TokenName == "" {
        var line := NextLine(cur);
        TokenName, cur := line.0, line.1;
        if TokenName == "" {
          TokenName := RandStr(8, draws);
        }
      }
      rest := cur;
      err := Validate();
    }
  }
}
