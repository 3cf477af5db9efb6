/** `ctx.go` of the top-level package: the saved configuration and the
    application context built from it. */
module MainCtx {
  import opened Wrappers

  datatype Config = Config(
    TokenSha1: string,
    TokenName: string,
    Username: string,
    DefaultRepoName: string,
    DefaultRepoOwner: string)
  {
    static function ValidationErr(msg: string): string
    {
      "Validate Config: " + msg
    }

    /** Token sha1, token name and user name, in that order; the default
        repository fields may be empty. */
    function Validate(): (r: ErrorOpt)
      ensures r.None? <==> TokenSha1 != "" && TokenName != "" && Username != ""
      ensures TokenSha1 == "" ==> r == Some(ValidationErr("invalid token_sha1"))
      ensures TokenSha1 != "" && TokenName == "" ==> r == Some(ValidationErr("invalid token_name"))
      ensures TokenSha1 != "" && TokenName != "" && Username == "" ==> r == Some(ValidationErr("invalid username"))
    {
      if TokenSha1 == "" then Some(ValidationErr("invalid token_sha1"))
      else if TokenName == "" then Some(ValidationErr("invalid token_name"))
      else if Username == "" then Some(ValidationErr("invalid username"))
      else None
    }
  }

  datatype Handler = ConfigHandler | HelpHandler

  datatype Command = Command(Name: string, Desc: string, Handler: Handler)

  /** The outcome of reading `gitea.yml`: absent, unreadable for another
      reason, or read and then parsed (successfully or not). */
  datatype ConfigFile = NotExist | ReadFailed(readErr: string) | Parsed(parse: Result<Config, string>)

  class AppCtx {
    var Commands: map<string, Command>
    var Config: Option<Config>

    constructor()
      ensures Commands == map[] && Config == None
    {
      Commands := map[];
      Config := None;
    }
  }

  /** The two built-in commands, keyed by their names. */
  function BuiltinCommands(): (r: map<string, Command>)
    ensures r.Keys == {"config", "help"}
    ensures forall k :: k in r ==> r[k].Name == k
  {
    map["config" := Command("config", "manage local config", ConfigHandler),
        "help" := Command("help", "list available commands", HelpHandler)]
  }

  /** A missing file gives a context without configuration; any other read
      error, a parse error or a validation error is returned instead of a
      context; a configuration that is kept has passed validation. */
  method NewCtx(file: ConfigFile) returns (ctx: AppCtx?, err: ErrorOpt)
    ensures ctx == null <==> err.Some?
    ensures file.NotExist? ==> ctx != null && ctx.Config == None
    ensures file.ReadFailed? ==> err == Some(file.readErr)
    ensures file.Parsed? && file.parse.Err? ==> err == Some(file.parse.error)
    ensures file.Parsed? && file.parse.Ok? ==> err == file.parse.value.Validate()
    ensures file.Parsed? && file.parse.Ok? && ctx != null ==> ctx.Config == Some(file.parse.value)
    ensures ctx != null ==> ctx.Commands == BuiltinCommands()
    ensures ctx != null && ctx.Config.Some? ==> ctx.Config.value.Validate().None?
  {
    var c := new AppCtx();
    match file {
      case NotExist =>
      case ReadFailed(e) =>
        return null, Some(e);
      case Parsed(Err(e)) =>
        return null, Some(e);
      case Parsed(Ok(cnf)) =>
        var v := cnf.Validate();
        if v.Some? {
          return null, v;
        }
        c.Config := Some(cnf);
    }
    c.Commands := BuiltinCommands();
    return c, None;
  }
}
