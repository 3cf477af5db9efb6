/** `helpers.go` of the top-level package: the command list shown by
    `help`. */
module MainHelpers {

  datatype NameDesc = NameDesc(Name: string, Desc: string)

  function HelpEntry(c: NameDesc): string
  {
    "\n\t" + c.Name + ": " + c.Desc
  }

  /** The header followed by one entry per command, built left to right. */
  function HelpStr(commands: seq<NameDesc>): string
  {
    if |commands| == 0 then "Commands:"
    else HelpStr(commands[..|commands| - 1]) + HelpEntry(commands[|commands| - 1])
  }

  /** The entries alone, built from the front. */
  function Entries(commands: seq<NameDesc>): string
  {
    if |commands| == 0 then "" else HelpEntry(commands[0]) + Entries(commands[1..])
  }

  /** The builder loop. */
  method GetHelpStr(commands: seq<NameDesc>) returns (s: string)
    ensures s == HelpStr(commands)
  {
    s := "Commands:";
    var i := 0;
    while i < |commands|
      invariant 0 <= i <= |commands|
      invariant s == HelpStr(commands[..i])
    {
      assert commands[..i + 1][..i] == commands[..i];
      s := s + HelpEntry(commands[i]);
      i := i + 1;
    }
    assert commands[..|commands|] == commands;
  }

  lemma HelpStrEmpty()
    ensures HelpStr([]) == "Commands:"
  {
  }

  /** Appending a command appends its entry. */
  lemma HelpStrAppend(xs: seq<NameDesc>, x: NameDesc)
    ensures HelpStr(xs + [x]) == HelpStr(xs) + HelpEntry(x)
  {
    assert (xs + [x])[..|xs|] == xs;
  }

  lemma {:induction false} EntriesAppend(xs: seq<NameDesc>, x: NameDesc)
    ensures Entries(xs + [x]) == Entries(xs) + HelpEntry(x)
    decreases |xs|
  {
    if |xs| == 0 {
      assert xs + [x] == [x];
    } else {
      assert (xs + [x])[1..] == xs[1..] + [x];
      EntriesAppend(xs[1..], x);
    }
  }

  /** The output is the header followed by the entries in input order. */
  lemma {:induction false} HelpStrIsHeaderAndEntries(commands: seq<NameDesc>)
    ensures HelpStr(commands) == "Commands:" + Entries(commands)
    decreases |commands|
  {
    if |commands| > 0 {
      var xs := commands[..|commands| - 1];
      var x := commands[|commands| - 1];
      assert commands == xs + [x];
      HelpStrIsHeaderAndEntries(xs);
      EntriesAppend(xs, x);
    }
  }
}
