/** The help text of `cmd/helpers.go`: one tab-indented line per entry,
    with no header. */
module CmdHelp {
  import opened Wrappers

  datatype NameWithDesc = NameWithDesc(Name: string, Desc: string)

  function HelpLine(c: NameWithDesc): string
  {
    "\t" + c.Name + ": " + c.Desc + "\n"
  }

  function HelpStr(commands: seq<NameWithDesc>): string
  {
    if |commands| == 0 then ""
    else HelpStr(commands[..|commands| - 1]) + HelpLine(commands[|commands| - 1])
  }

  /** The builder loop. */
  method GetHelpStr(commands: seq<NameWithDesc>) returns (s: string)
    ensures s == HelpStr(commands)
  {
    s := "";
    var i := 0;
    while i < |commands|
      invariant 0 <= i <= |commands|
      invariant s == HelpStr(commands[..i])
    {
      assert commands[..i + 1][..i] == commands[..i];
      s := s + HelpLine(commands[i]);
      i := i + 1;
    }
    assert commands[..|commands|] == commands;
  }

  /** The text of a concatenation is the concatenation of the texts, so
      entries appear in input order, each exactly once. */
  lemma {:induction false} HelpStrConcat(xs: seq<NameWithDesc>, ys: seq<NameWithDesc>)
    ensures HelpStr(xs + ys) == HelpStr(xs) + HelpStr(ys)
    decreases |ys|
  {
    if |ys| == 0 {
      assert xs + ys == xs;
    } else {
      var n := |ys| - 1;
      var zs := xs + ys;
      assert zs[..|zs| - 1] == xs + ys[..n];
      assert zs[|zs| - 1] == ys[n];
      HelpStrConcat(xs, ys[..n]);
      ConcatAssoc(HelpStr(xs), HelpStr(ys[..n]), HelpLine(ys[n]));
    }
  }

  /** Every line ends the text it is appended to with a newline, so the text
      of a non-empty list ends with one. */
  lemma HelpStrEndsWithNewline(commands: seq<NameWithDesc>)
    requires |commands| > 0
    ensures |HelpStr(commands)| > 0 && HelpStr(commands)[|HelpStr(commands)| - 1] == '\n'
  {
  }

  lemma HelpStrSingle(c: NameWithDesc)
    ensures HelpStr([c]) == "\t" + c.Name + ": " + c.Desc + "\n"
  {
    assert [c][..0] == [];
  }
}
