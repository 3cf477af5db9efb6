/** Standard input as the model sees it: the sequence of values that
    successive read calls store. Once the input is exhausted a read stores
    nothing, so the destination keeps the empty string. */
module Console {

  /** One read: the value it stores and the input left after it. */
  function NextLine(input: seq<string>): (string, seq<string>)
  {
    if |input| == 0 then ("", []) else (input[0], input[1..])
  }

  /** The line at position `n`, or nothing once the input has fewer lines. */
  function LineAt(input: seq<string>, n: nat): string
  {
    if n < |input| then input[n] else ""
  }

  /** The input left after `n` reads: what follows the first `n` lines. */
  function After(input: seq<string>, n: nat): (r: seq<string>)
    ensures |r| == if |input| >= n then |input| - n else 0
    ensures r == input[|input| - |r|..]
  {
    if |input| >= n then input[n..] else []
  }

  /** A read from the input left after `n` reads stores the line at
      position `n` and leaves the input after `n + 1` reads. */
  lemma NextLineAfter(input: seq<string>, n: nat)
    ensures NextLine(After(input, n)) == (LineAt(input, n), After(input, n + 1))
  {
  }
}
