/** Option resolution of `cmd/helpers.go`. Each command describes the values
    it needs as a slice of descriptors; `GetOpts` fills in their values,
    first from command-line flags, then from prompts on standard input, then
    from defaults. The flag parser (gnuflag) is foreign code: its output is
    the sequence of `(opt, optarg)` events it reports. */
module CmdOptions {
  import opened Wrappers
  import opened Console

  /** The declarative part of a descriptor, written by the command. */
  datatype CmdOptSpec = CmdOptSpec(
    ArgFlags: seq<string>,
    Label: string,
    NotRequired: bool,
    DefaultStrFunc: Option<string>,   // the value the default provider returns; None for a nil provider
    NoEcho: bool,
    IsBool: bool,
    NoPrompt: bool)

  /** The value part, filled by GetOpts. */
  datatype CmdOptVal = CmdOptVal(Str: string, Bool: bool)

  datatype CmdOpt = CmdOpt(Spec: CmdOptSpec, Val: CmdOptVal)

  /** One callback of the flag parser: `opt` is the flag spelling, "" for a
      positional argument, "?" for an unknown flag. */
  datatype Event = Event(opt: string, optarg: string)

  // ---------------------------------------------------------------------
  // Flag phase

  /** The spellings of one descriptor, all mapped to its index. */
  function Spellings(flags: seq<string>, i: nat): (m: map<string, nat>)
    ensures forall f :: f in m <==> f in flags
    ensures forall f :: f in m ==> m[f] == i
  {
    map f | f in flags :: i
  }

  lemma SpellingsSnoc(flags: seq<string>, j: nat, i: nat)
    requires j < |flags|
    ensures Spellings(flags[..j + 1], i) == Spellings(flags[..j], i)[flags[j] := i]
  {
    assert flags[..j + 1] == flags[..j] + [flags[j]];
  }

  lemma UnionUpdate<K, V>(a: map<K, V>, b: map<K, V>, x: K, v: V)
    ensures (a + b)[x := v] == a + b[x := v]
  {
  }

  /** Spelling -> descriptor index; a spelling declared by two descriptors
      maps to the later one. */
  function FlagHash(opts: seq<CmdOpt>): map<string, nat>
  {
    if |opts| == 0 then map[]
    else FlagHash(opts[..|opts| - 1]) + Spellings(opts[|opts| - 1].Spec.ArgFlags, |opts| - 1)
  }

  /** Every declared spelling is hashed, to a descriptor that declares it,
      and no later descriptor declares it. */
  lemma FlagHashSpec(opts: seq<CmdOpt>)
    ensures forall f :: f in FlagHash(opts) ==>
      FlagHash(opts)[f] < |opts| && f in opts[FlagHash(opts)[f]].Spec.ArgFlags
    ensures forall f, k :: f in FlagHash(opts) && FlagHash(opts)[f] < k < |opts| ==>
      f !in opts[k].Spec.ArgFlags
    ensures forall k, f :: 0 <= k < |opts| && f in opts[k].Spec.ArgFlags ==> f in FlagHash(opts)
  {
    forall f {
      FlagHashAt(opts, f);
    }
  }

  /** FlagHashSpec for one spelling `f`. */
  lemma {:induction false} FlagHashAt(opts: seq<CmdOpt>, f: string)
    ensures f in FlagHash(opts) ==>
      FlagHash(opts)[f] < |opts| && f in opts[FlagHash(opts)[f]].Spec.ArgFlags
    ensures f in FlagHash(opts) ==>
      forall k :: FlagHash(opts)[f] < k < |opts| ==> f !in opts[k].Spec.ArgFlags
    ensures forall k :: 0 <= k < |opts| && f in opts[k].Spec.ArgFlags ==> f in FlagHash(opts)
  {
    if |opts| > 0 {
      var n := |opts| - 1;
      var pre := opts[..n];
      var h := FlagHash(opts);
      var a := FlagHash(pre);
      var m := Spellings(opts[n].Spec.ArgFlags, n);
      assert h == a + m;
      FlagHashAt(pre, f);
      assert forall k :: 0 <= k < n ==> pre[k] == opts[k];
      if f in m {
        assert h[f] == n;
      } else {
        assert f !in opts[n].Spec.ArgFlags;
        assert f in h <==> f in a;
      }
    }
  }

  predicate HashInRange(h: map<string, nat>, n: nat)
  {
    forall f :: f in h ==> h[f] < n
  }

  /** The descriptor an event sets, if any: positional arguments, "?" and
      unknown spellings set none. */
  function Target(h: map<string, nat>, e: Event): Option<nat>
  {
    if e.opt == "" || e.opt !in h || e.opt == "?" then None else Some(h[e.opt])
  }

  /** A known flag sets its descriptor's string; a boolean one also sets
      its presence. */
  function ApplyEvent(opts: seq<CmdOpt>, h: map<string, nat>, e: Event): seq<CmdOpt>
    requires HashInRange(h, |opts|)
  {
    match Target(h, e)
    case None => opts
    case Some(i) =>
      opts[i := opts[i].(Val := CmdOptVal(e.optarg, opts[i].Val.Bool || opts[i].Spec.IsBool))]
  }

  /** The events applied in the order the parser reports them. */
  function FlagPhase(opts: seq<CmdOpt>, h: map<string, nat>, events: seq<Event>): (r: seq<CmdOpt>)
    requires HashInRange(h, |opts|)
    ensures |r| == |opts|
    ensures forall k :: 0 <= k < |r| ==> r[k].Spec == opts[k].Spec
  {
    if |events| == 0 then opts
    else ApplyEvent(FlagPhase(opts, h, events[..|events| - 1]), h, events[|events| - 1])
  }

  /** No event of `events` sets descriptor `i`. */
  predicate Untouched(h: map<string, nat>, events: seq<Event>, i: nat)
  {
    forall k :: 0 <= k < |events| ==> Target(h, events[k]) != Some(i)
  }

  /** Event `k` is the last one that sets descriptor `i`. */
  predicate LastSetter(h: map<string, nat>, events: seq<Event>, i: nat, k: nat)
  {
    k < |events| && Target(h, events[k]) == Some(i)
    && forall m :: k < m < |events| ==> Target(h, events[m]) != Some(i)
  }

  /** The flag phase in terms of each descriptor: untouched descriptors
      keep their value, the last event that names a descriptor decides its
      string, and a boolean descriptor is present iff it was present or some
      event named it. */
  lemma {:induction false} FlagPhaseEffect(opts: seq<CmdOpt>, h: map<string, nat>, events: seq<Event>, i: nat)
    requires HashInRange(h, |opts|) && i < |opts|
    ensures Untouched(h, events, i) ==> FlagPhase(opts, h, events)[i].Val == opts[i].Val
    ensures forall k: nat :: LastSetter(h, events, i, k) ==> FlagPhase(opts, h, events)[i].Val.Str == events[k].optarg
    ensures FlagPhase(opts, h, events)[i].Val.Bool
        == (opts[i].Val.Bool || (opts[i].Spec.IsBool && !Untouched(h, events, i)))
    decreases |events|
  {
    if |events| > 0 {
      var n := |events| - 1;
      var pre := events[..n];
      FlagPhaseEffect(opts, h, pre, i);
      var fp := FlagPhase(opts, h, pre);
      assert FlagPhase(opts, h, events) == ApplyEvent(fp, h, events[n]);
      EventsSnoc(h, events, i);
      if Target(h, events[n]) == Some(i) {
        assert ApplyEvent(fp, h, events[n])[i].Val
          == CmdOptVal(events[n].optarg, fp[i].Val.Bool || fp[i].Spec.IsBool);
      } else {
        assert ApplyEvent(fp, h, events[n])[i] == fp[i];
      }
    }
  }

  /** How one more event changes `Untouched` and `LastSetter`. */
  lemma EventsSnoc(h: map<string, nat>, events: seq<Event>, i: nat)
    requires |events| > 0
    ensures var n := |events| - 1;
      Untouched(h, events, i) <==> Untouched(h, events[..n], i) && Target(h, events[n]) != Some(i)
    ensures var n := |events| - 1;
      Target(h, events[n]) == Some(i) ==> forall k: nat :: LastSetter(h, events, i, k) ==> k == n
    ensures var n := |events| - 1;
      Target(h, events[n]) != Some(i) ==>
        forall k: nat :: LastSetter(h, events, i, k) ==> LastSetter(h, events[..n], i, k)
  {
    var n := |events| - 1;
    assert forall k :: 0 <= k < n ==> events[..n][k] == events[k];
  }

  // ---------------------------------------------------------------------
  // Prompt and default phases

  /** The loop removes exactly one trailing character of what was read. */
  function TrimLast(s: string): (r: string)
    ensures |s| > 0 ==> r + [s[|s| - 1]] == s
    ensures |s| == 0 ==> r == ""
  {
    if |s| > 0 then s[..|s| - 1] else s
  }

  /** The default phase: an empty `tmp` is replaced by the provider's value
      when there is a provider. */
  function WithDefault(spec: CmdOptSpec, tmp: string): string
  {
    if tmp == "" && spec.DefaultStrFunc.Some? then spec.DefaultStrFunc.value else tmp
  }

  /** Already set from a flag: the prompt loop passes over it. */
  predicate Skipped(o: CmdOpt)
  {
    o.Val.Str != "" || (o.Val.Bool && o.Spec.IsBool)
  }

  predicate PromptsForString(o: CmdOpt)
  {
    !Skipped(o) && !o.Spec.NoPrompt && !o.Spec.IsBool
  }

  /** The outcome of one descriptor: its new value, the input left, and
      whether a required prompt ran out of input. The source re-reads
      forever at end of input; the model stops there instead. */
  datatype PromptOutcome = PromptOutcome(val: CmdOptVal, rest: seq<string>, exhausted: bool)

  /** The prompt loop body for one descriptor, including its re-prompts. */
  function Prompt(o: CmdOpt, input: seq<string>): (r: PromptOutcome)
    ensures |r.rest| <= |input|
    ensures r.exhausted ==> r.rest == [] && PromptsForString(o) && !o.Spec.NotRequired
    decreases |input|
  {
    if Skipped(o) then PromptOutcome(o.Val, input, false)
    else if o.Spec.NoPrompt then PromptOutcome(o.Val.(Str := WithDefault(o.Spec, "")), input, false)
    else if o.Spec.IsBool then
      var (line, rest) := NextLine(input);
      if line == "y" then PromptOutcome(CmdOptVal(WithDefault(o.Spec, TrimLast(line)), true), rest, false)
      else PromptOutcome(o.Val, rest, false)
    else
      var (line, rest) := NextLine(input);
      var tmp := TrimLast(line);
      if !o.Spec.NotRequired && tmp == "" then
        if |input| == 0 then PromptOutcome(o.Val, [], true)
        else Prompt(o, rest)
      else PromptOutcome(o.Val.(Str := WithDefault(o.Spec, tmp)), rest, false)
  }

  /** What every resolved descriptor satisfies, whatever was typed. */
  predicate Settled(o: CmdOpt, v: CmdOptVal)
  {
    (Skipped(o) ==> v == o.Val)
    && (!Skipped(o) && o.Spec.NoPrompt ==> v == o.Val.(Str := WithDefault(o.Spec, "")))
    && (!Skipped(o) && !o.Spec.NoPrompt && o.Spec.IsBool ==>
          v == o.Val || v == CmdOptVal(WithDefault(o.Spec, ""), true))
    && (PromptsForString(o) ==> v.Bool == o.Val.Bool)
    && (PromptsForString(o) && !o.Spec.NotRequired ==> v.Str != "")
    && (!Skipped(o) && !o.Spec.IsBool && o.Spec.DefaultStrFunc.Some? && o.Spec.DefaultStrFunc.value != "" ==> v.Str != "")
  }

  lemma {:induction false} PromptSettles(o: CmdOpt, input: seq<string>)
    ensures !Prompt(o, input).exhausted ==> Settled(o, Prompt(o, input).val)
    decreases |input|
  {
    if PromptsForString(o) && !o.Spec.NotRequired && TrimLast(NextLine(input).0) == "" && |input| > 0 {
      PromptSettles(o, NextLine(input).1);
    }
  }

  /** The index of the first line whose trimmed form is non-empty. */
  function FirstAnswer(input: seq<string>): (r: Option<nat>)
    ensures r.Some? ==>
      r.value < |input| && TrimLast(input[r.value]) != ""
      && forall k :: 0 <= k < r.value ==> TrimLast(input[k]) == ""
    ensures r.None? ==> forall k :: 0 <= k < |input| ==> TrimLast(input[k]) == ""
  {
    if |input| == 0 then None
    else if TrimLast(input[0]) != "" then Some(0)
    else match FirstAnswer(input[1..])
      case None => None
      case Some(k) => Some(k + 1)
  }

  /** A required string prompt takes the first non-empty answer with its
      last character removed, and consumes the input up to it; it runs out
      exactly when no such line is left. */
  lemma {:induction false} RequiredPromptAnswer(o: CmdOpt, input: seq<string>)
    requires PromptsForString(o) && !o.Spec.NotRequired
    ensures Prompt(o, input).exhausted <==> FirstAnswer(input).None?
    ensures FirstAnswer(input).Some? ==>
      var k := FirstAnswer(input).value;
      Prompt(o, input) == PromptOutcome(o.Val.(Str := TrimLast(input[k])), input[k + 1..], false)
    decreases |input|
  {
    if |input| > 0 && TrimLast(input[0]) == "" {
      RequiredPromptAnswer(o, input[1..]);
      if FirstAnswer(input).Some? {
        assert input[1..][FirstAnswer(input[1..]).value + 1..] == input[FirstAnswer(input).value + 1..];
      }
    }
  }

  /** An optional string prompt reads exactly one line; an empty answer
      takes the default. */
  lemma OptionalPromptAnswer(o: CmdOpt, input: seq<string>)
    requires PromptsForString(o) && o.Spec.NotRequired && |input| > 0
    ensures Prompt(o, input) == PromptOutcome(o.Val.(Str := WithDefault(o.Spec, TrimLast(input[0]))), input[1..], false)
  {
  }

  /** A yes/no prompt sets the presence only on exactly "y", reading one
      line either way. */
  lemma {:induction false} BoolPromptAnswer(o: CmdOpt, input: seq<string>)
    requires !Skipped(o) && !o.Spec.NoPrompt && o.Spec.IsBool
    ensures Prompt(o, input).val.Bool <==> |input| > 0 && input[0] == "y"
    ensures !Prompt(o, input).val.Bool ==> Prompt(o, input).val == o.Val
    ensures Prompt(o, input).rest == if |input| > 0 then input[1..] else []
  {
    assert !o.Val.Bool;
  }

  /** The prompt loop over descriptors `i..`, in order. */
  datatype Resolution = Resolution(opts: seq<CmdOpt>, rest: seq<string>, exhausted: bool)

  function ResolveFrom(opts: seq<CmdOpt>, i: nat, input: seq<string>): (r: Resolution)
    requires i <= |opts|
    ensures |r.opts| == |opts|
    decreases |opts| - i
  {
    if i == |opts| then Resolution(opts, input, false)
    else
      var p := Prompt(opts[i], input);
      if p.exhausted then Resolution(opts, p.rest, true)
      else ResolveFrom(opts[i := opts[i].(Val := p.val)], i + 1, p.rest)
  }

  /** The prompt loop changes only values, and only from descriptor `i`
      on; it stops at once when the input runs out. */
  lemma {:induction false} ResolveFromKeeps(opts: seq<CmdOpt>, i: nat, input: seq<string>)
    requires i <= |opts|
    ensures forall k :: 0 <= k < |opts| ==> ResolveFrom(opts, i, input).opts[k].Spec == opts[k].Spec
    ensures forall k :: 0 <= k < i ==> ResolveFrom(opts, i, input).opts[k] == opts[k]
    ensures ResolveFrom(opts, i, input).exhausted ==> ResolveFrom(opts, i, input).rest == []
    decreases |opts| - i
  {
    if i < |opts| {
      var p := Prompt(opts[i], input);
      if !p.exhausted {
        ResolveFromKeeps(opts[i := opts[i].(Val := p.val)], i + 1, p.rest);
      }
    }
  }

  /** Unless a required prompt ran out of input, every descriptor from `i`
      on ends settled. */
  lemma {:induction false} ResolveFromSettles(opts: seq<CmdOpt>, i: nat, input: seq<string>)
    requires i <= |opts|
    ensures !ResolveFrom(opts, i, input).exhausted ==>
      forall k :: i <= k < |opts| ==> Settled(opts[k], ResolveFrom(opts, i, input).opts[k].Val)
    decreases |opts| - i
  {
    if i < |opts| {
      var p := Prompt(opts[i], input);
      PromptSettles(opts[i], input);
      if !p.exhausted {
        var next := opts[i := opts[i].(Val := p.val)];
        ResolveFromSettles(next, i + 1, p.rest);
        ResolveFromKeeps(next, i + 1, p.rest);
        var r := ResolveFrom(next, i + 1, p.rest);
        assert r.opts[i] == next[i];
        forall k | i < k < |opts|
          ensures next[k] == opts[k]
        {
        }
      }
    }
  }

  /** GetOpts as a function of the descriptors, the parser events and the
      input lines. */
  function GetOptsSpec(opts: seq<CmdOpt>, events: seq<Event>, input: seq<string>): (r: Resolution)
    ensures |r.opts| == |opts|
    ensures forall k :: 0 <= k < |opts| ==> r.opts[k].Spec == opts[k].Spec
  {
    ResolveFromKeeps(FlagFilled(opts, events), 0, input);
    ResolveFrom(FlagFilled(opts, events), 0, input)
  }

  /** The descriptors after the flag phase. */
  function FlagFilled(opts: seq<CmdOpt>, events: seq<Event>): (r: seq<CmdOpt>)
    ensures |r| == |opts|
    ensures forall k :: 0 <= k < |r| ==> r[k].Spec == opts[k].Spec
  {
    FlagHashSpec(opts);
    FlagPhase(opts, FlagHash(opts), events)
  }

  /** Unless a required prompt ran out of input, GetOpts settles every
      descriptor, starting from what the flags set. */
  lemma GetOptsSettles(opts: seq<CmdOpt>, events: seq<Event>, input: seq<string>)
    ensures !GetOptsSpec(opts, events, input).exhausted ==>
      forall k :: 0 <= k < |opts| ==>
        Settled(FlagFilled(opts, events)[k], GetOptsSpec(opts, events, input).opts[k].Val)
  {
    ResolveFromSettles(FlagFilled(opts, events), 0, input);
  }

  /** A string descriptor that is either a required prompt or has a
      non-empty default never resolves to the empty string. */
  lemma ResolvedStrNonEmpty(opts: seq<CmdOpt>, events: seq<Event>, input: seq<string>, i: nat)
    requires i < |opts| && !opts[i].Spec.IsBool
    requires (!opts[i].Spec.NoPrompt && !opts[i].Spec.NotRequired)
          || (opts[i].Spec.DefaultStrFunc.Some? && opts[i].Spec.DefaultStrFunc.value != "")
    ensures !GetOptsSpec(opts, events, input).exhausted ==> GetOptsSpec(opts, events, input).opts[i].Val.Str != ""
  {
    GetOptsSettles(opts, events, input);
    var filled := FlagFilled(opts, events);
    assert filled[i].Spec == opts[i].Spec;
  }

  /** A descriptor that a flag set to a non-empty string keeps that value
      through the prompt and default phases. */
  lemma FlagValueWins(opts: seq<CmdOpt>, events: seq<Event>, input: seq<string>, i: nat, k: nat)
    requires i < |opts| && LastSetter(FlagHash(opts), events, i, k) && events[k].optarg != ""
    ensures !GetOptsSpec(opts, events, input).exhausted ==>
      GetOptsSpec(opts, events, input).opts[i].Val.Str == events[k].optarg
  {
    FlagHashSpec(opts);
    FlagPhaseEffect(opts, FlagHash(opts), events, i);
    var filled := FlagFilled(opts, events);
    assert filled == FlagPhase(opts, FlagHash(opts), events);
    assert Skipped(filled[i]);
    GetOptsSettles(opts, events, input);
  }

  /** The flag map, built by the nested loop over descriptors and their
      spellings. */
  method BuildFlagHash(reqOpts: array<CmdOpt>) returns (flagHash: map<string, nat>)
    ensures flagHash == FlagHash(reqOpts[..])
  {
    flagHash := map[];
    var i := 0;
    while i < reqOpts.Length
      invariant 0 <= i <= reqOpts.Length
      invariant flagHash == FlagHash(reqOpts[..i])
    {
      var flags := reqOpts[i].Spec.ArgFlags;
      var j := 0;
      while j < |flags|
        invariant 0 <= j <= |flags|
        invariant flagHash == FlagHash(reqOpts[..i]) + Spellings(flags[..j], i)
      {
        SpellingsSnoc(flags, j, i);
        UnionUpdate(FlagHash(reqOpts[..i]), Spellings(flags[..j], i), flags[j], i);
        flagHash := flagHash[flags[j] := i];
        j := j + 1;
      }
      assert flags[..j] == flags;
      assert reqOpts[..i + 1][..i] == reqOpts[..i];
      assert FlagHash(reqOpts[..i + 1]) == FlagHash(reqOpts[..i]) + Spellings(flags, i);
      i := i + 1;
    }
    assert reqOpts[..i] == reqOpts[..];
  }

  /** The parser callback, applied to `reqOpts` in place for each event. */
  method ApplyEvents(events: seq<Event>, flagHash: map<string, nat>, reqOpts: array<CmdOpt>)
    requires HashInRange(flagHash, reqOpts.Length)
    modifies reqOpts
    ensures reqOpts[..] == FlagPhase(old(reqOpts[..]), flagHash, events)
  {
    var k := 0;
    while k < |events|
      invariant 0 <= k <= |events|
      invariant reqOpts[..] == FlagPhase(old(reqOpts[..]), flagHash, events[..k])
    {
      var e := events[k];
      if e.opt != "" && e.opt in flagHash && e.opt != "?" {
        var t := flagHash[e.opt];
        reqOpts[t] := reqOpts[t].(Val := reqOpts[t].Val.(Str := e.optarg));
        if reqOpts[t].Spec.IsBool {
          reqOpts[t] := reqOpts[t].(Val := reqOpts[t].Val.(Bool := true));
        }
      }
      assert events[..k + 1][..k] == events[..k];
      k := k + 1;
    }
    assert events[..k] == events;
  }

  /** One pass of the prompt loop's body over descriptor `i`: it either
      finishes the descriptor (`advance`), or asks again for a required
      value that came back empty, or finds the input exhausted at that
      point. */
  method PromptStep(reqOpts: array<CmdOpt>, i: nat, cur: seq<string>)
    returns (next: seq<string>, advance: bool, exhausted: bool)
    requires i < reqOpts.Length
    modifies reqOpts
    ensures var o := old(reqOpts[i]);
      && (advance ==> !exhausted && Prompt(o, cur) == PromptOutcome(reqOpts[i].Val, next, false))
      && (!advance && exhausted ==> Prompt(o, cur) == PromptOutcome(o.Val, [], true) && next == [])
      && (!advance && !exhausted ==> Prompt(o, cur) == Prompt(o, next) && |next| < |cur|)
      && (!advance ==> reqOpts[i] == o)
    ensures forall k :: 0 <= k < reqOpts.Length && k != i ==> reqOpts[k] == old(reqOpts[k])
    ensures reqOpts[i].Spec == old(reqOpts[i]).Spec
  {
    var o := reqOpts[i];
    var tmp := "";
    next, advance, exhausted := cur, true, false;
    if o.Val.Str != "" || (o.Val.Bool && o.Spec.IsBool) {
      return;
    }
    if !o.Spec.NoPrompt {
      if o.Spec.IsBool {
        var line := NextLine(cur);
        tmp, next := line.0, line.1;
        if tmp == "y" {
          reqOpts[i] := o.(Val := o.Val.(Bool := true));
        } else {
          return;
        }
      } else {
        var line := NextLine(cur);
        tmp, next := line.0, line.1;
      }
      tmp := TrimLast(tmp);
      reqOpts[i] := reqOpts[i].(Val := reqOpts[i].Val.(Str := tmp));
      if !o.Spec.IsBool && !o.Spec.NotRequired && tmp == "" {
        advance := false;
        exhausted := |cur| == 0;
        return;
      }
    }
    if tmp == "" && o.Spec.DefaultStrFunc.Some? {
      reqOpts[i] := reqOpts[i].(Val := reqOpts[i].Val.(Str := o.Spec.DefaultStrFunc.value));
    }
  }

  lemma ResolveAdvance(opts: seq<CmdOpt>, i: nat, input: seq<string>)
    requires i < |opts| && !Prompt(opts[i], input).exhausted
    ensures ResolveFrom(opts, i, input)
         == ResolveFrom(opts[i := opts[i].(Val := Prompt(opts[i], input).val)], i + 1, Prompt(opts[i], input).rest)
  {
  }

  lemma ResolveSamePrompt(opts: seq<CmdOpt>, i: nat, a: seq<string>, b: seq<string>)
    requires i < |opts| && Prompt(opts[i], a) == Prompt(opts[i], b)
    ensures ResolveFrom(opts, i, a) == ResolveFrom(opts, i, b)
  {
  }

  /** The prompt loop over all descriptors; a step that does not advance
      leaves `i` where it is, as the source's `i--` does. */
  method PromptAll(input: seq<string>, reqOpts: array<CmdOpt>) returns (rest: seq<string>, exhausted: bool)
    modifies reqOpts
    ensures Resolution(reqOpts[..], rest, exhausted) == ResolveFrom(old(reqOpts[..]), 0, input)
  {
    ghost var goal := ResolveFrom(reqOpts[..], 0, input);
    var cur := input;
    var i := 0;
    exhausted := false;
    while i < reqOpts.Length && !exhausted
      invariant 0 <= i <= reqOpts.Length
      invariant !exhausted ==> ResolveFrom(reqOpts[..], i, cur) == goal
      invariant exhausted ==> goal == Resolution(reqOpts[..], cur, true)
      decreases reqOpts.Length - i, |cur|, if exhausted then 0 else 1
    {
      ghost var before, cur0 := reqOpts[..], cur;
      var advance;
      cur, advance, exhausted := PromptStep(reqOpts, i, cur);
      if advance {
        assert reqOpts[..] == before[i := before[i].(Val := reqOpts[i].Val)];
        ResolveAdvance(before, i, cur0);
        i := i + 1;
      } else {
        assert reqOpts[..] == before;
        if !exhausted {
          ResolveSamePrompt(before, i, cur0, cur);
        }
      }
    }
    rest := cur;
  }

  /** The resolver: flag map, flag phase, then the prompt and default
      phases, all on `reqOpts` in place. */
  method GetOpts(events: seq<Event>, input: seq<string>, reqOpts: array<CmdOpt>)
    returns (rest: seq<string>, exhausted: bool)
    modifies reqOpts
    ensures Resolution(reqOpts[..], rest, exhausted) == GetOptsSpec(old(reqOpts[..]), events, input)
  {
    var flagHash := BuildFlagHash(reqOpts);
    FlagHashSpec(reqOpts[..]);
    ApplyEvents(events, flagHash, reqOpts);
    rest, exhausted := PromptAll(input, reqOpts);
  }

  // ---------------------------------------------------------------------
  // Two resolutions worked through

  function NameOpt(): CmdOpt
  {
    CmdOpt(CmdOptSpec(["n", "name"], "name", true, Some("abc"), false, false, true), CmdOptVal("", false))
  }

  /** A prompt-skipping descriptor with a default and no flag resolves to
      the default without reading input. */
  lemma DefaultWithoutFlag(input: seq<string>)
    ensures GetOptsSpec([NameOpt()], [], input) == Resolution([NameOpt().(Val := CmdOptVal("abc", false))], input, false)
  {
  }

  /** `--name foo` decides the value; the prompt and default phases leave it
      alone and read nothing. */
  lemma FlagBeatsDefault(input: seq<string>)
    ensures GetOptsSpec([NameOpt()], [Event("name", "foo")], input)
         == Resolution([NameOpt().(Val := CmdOptVal("foo", false))], input, false)
  {
    var h := FlagHash([NameOpt()]);
    assert [NameOpt()][..0] == [];
    assert h == map["n" := 0, "name" := 0];
  }

  // ---------------------------------------------------------------------
  // FilterArgs

  /** The positional arguments the parser reported, in order. */
  function Positionals(events: seq<Event>): (r: seq<string>)
    ensures |r| <= |events|
  {
    if |events| == 0 then []
    else
      var e := events[|events| - 1];
      Positionals(events[..|events| - 1]) + (if e.opt == "" then [e.optarg] else [])
  }

  /** A string is among the positionals iff some positional event carried
      it; flag events contribute nothing. */
  lemma {:induction false} PositionalsMembers(events: seq<Event>, x: string)
    ensures x in Positionals(events) <==> exists k :: 0 <= k < |events| && events[k] == Event("", x)
  {
    if |events| > 0 {
      var pre := events[..|events| - 1];
      PositionalsMembers(pre, x);
      assert forall k :: 0 <= k < |pre| ==> pre[k] == events[k];
      if Event("", x) in events && Event("", x) !in pre {
        assert events[|events| - 1] == Event("", x);
      }
    }
  }

  /** FilterArgs as written: the result slice starts with three empty
      strings (it is made with length 3), then the positionals. */
  function FilterArgsAsWritten(events: seq<Event>): seq<string>
  {
    ["", "", ""] + Positionals(events)
  }

  /** The three leading entries are present even when nothing positional was
      given, so the result never equals the positionals. */
  lemma FilterArgsHasBlanks(events: seq<Event>)
    ensures FilterArgsAsWritten([]) == ["", "", ""] && Positionals([]) == []
    ensures FilterArgsAsWritten(events) != Positionals(events)
    ensures |FilterArgsAsWritten(events)| == |Positionals(events)| + 3
  {
  }

  /** The append loop of FilterArgs over the parser's callbacks. */
  method FilterArgs(events: seq<Event>) returns (ret: seq<string>)
    ensures ret == FilterArgsAsWritten(events)
  {
    ret := ["", "", ""];
    var k := 0;
    while k < |events|
      invariant 0 <= k <= |events|
      invariant ret == ["", "", ""] + Positionals(events[..k])
    {
      if events[k].opt == "" {
        ret := ret + [events[k].optarg];
      }
      assert events[..k + 1][..k] == events[..k];
      k := k + 1;
    }
    assert events[..k] == events;
  }
}
