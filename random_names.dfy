/** Random token names: `randStr` draws `l` integers below 100000 from
    crypto/rand and maps each onto a fixed 26-letter charset. The entropy
    source is an input here: `draws` are the integers it produced. */
module RandomNames {

  const Charset: string := "qwertyuiopasdfghjklzxcvbnm"
  const MaxInt: int := 100000

  /** What `l` calls of rand.Int(rand.Reader, maxInt) can return. */
  predicate ValidDraws(draws: seq<int>, l: nat)
  {
    |draws| == l && forall i :: 0 <= i < |draws| ==> 0 <= draws[i] < MaxInt
  }

  /** The name that `draws` select: one charset letter per draw. */
  function RandChars(draws: seq<int>): (r: string)
    requires forall i :: 0 <= i < |draws| ==> 0 <= draws[i]
    ensures |r| == |draws|
    ensures forall k :: 0 <= k < |r| ==> r[k] in Charset
  {
    seq(|draws|, i requires 0 <= i < |draws| => Charset[draws[i] % |Charset|])
  }

  /** The byte buffer filled in a loop, as randStr does. */
  method RandStr(l: nat, draws: seq<int>) returns (s: string)
    requires ValidDraws(draws, l)
    ensures s == RandChars(draws)
    ensures |s| == l
  {
    var res := new char[l];
    var i := 0;
    while i < l
      invariant 0 <= i <= l
      invariant forall k :: 0 <= k < i ==> res[k] == Charset[draws[k] % |Charset|]
    {
      res[i] := Charset[draws[i] % |Charset|];
      i := i + 1;
    }
    s := res[..];
  }
}
