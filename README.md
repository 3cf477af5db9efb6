# gitea-cli command core, modelled in Dafny

gitea-cli is a command-line client for a Gitea server, with optional
notifications to a Rocketchat server. This project models its command
framework and the logic around it:

- **The command trie** of `cmd/helpers.go`. Every command hangs on a node
  reached by a chain of words.
  - `AddChainStrictOrder` registers one chain.
  - `AddChainAnyOrder` registers every permutation of a chain.
  - `FindInChain` is a first-match lookup that never backtracks.
  - `NewCtx` in `cmd/ctx.go` registers the nine commands.
- **The option resolver `GetOpts`**. It fills a command's descriptors in
  three phases:
  - the flag events the parser reports;
  - a prompt loop that re-asks for a required value until it is non-empty;
  - a default phase.
- **The pull-request and credential commands** of `cmd/cmd.go` and
  `cmd/cred_cmd.go`:
  - their descriptor layouts;
  - the decisions they take (title, dry run, notification, merge question,
    branch removal, close flag);
  - the configuration updates they make.
- **The usage text of `PrintCommands`**: the depth-first collection of
  command paths, their grouping by description, and flag rendering.
- **The validators and URL builders** of `common/config.go`,
  `config/ctx.go`, `gitea/repo_ctx.go`, `rocketchat/ctx.go` and `ctx.go`.
- **The credential helpers** of `gitea/token.go` and `token.go`:
  - the `Basic` authorization header of section 2 of RFC 7617, over
    base64 as section 4 of RFC 4648 defines it, with its decoding
    round trip;
  - random token names;
  - `FillFromConsole`.
- **The help-string builders** of `helpers.go` and `cmd/helpers.go`.

How the model is shaped:

- **Outside effects are given as inputs.**
  - Standard input is a sequence of lines.
  - The flag parser's callbacks are a sequence of `(opt, optarg)` events.
  - Random draws are a sequence of integers.
  - Every HTTP request's result is a parameter.
  - Each handler returns the requests it makes, in order, and the error
    it returns.
- **State the source changes in place stays imperative.**
  - `GetOpts` works on an `array` of descriptors.
  - The trie is a class over an arena of nodes.
  - The command contexts and the token requests are classes whose
    methods assign their fields.
- **Each method is proved against a specification function.** The
  properties are lemmas about those functions.

## Model

| member | source | states |
|---|---|---|
| `CmdTrie.ChildLabelled` | cmd/helpers.go:208-214 | the child found is a child of the branch carrying the label; there is none exactly when no child carries it |
| `CmdTrie.InsertChild` | cmd/helpers.go:206-229 | an existing child labelled `s` is returned with the tree unchanged; otherwise one fresh child is appended and becomes the child labelled `s`; the tree only grows and no command changes |
| `CmdTrie.AppendChild` | cmd/helpers.go:216-226 | appending a child with a fresh label keeps the arena well formed and makes it the first child with that label |
| `CmdTrie.SetCommand` | cmd/helpers.go:231-236 | panics (None) exactly when the branch already has a command; otherwise only that branch gets the command |
| `CmdTrie.InsertKeepsSiblingsUnique` | cmd/helpers.go:206-229 | find-or-insert never gives a branch two children with the same label |
| `CmdTrie.SetCommandKeepsSiblingsUnique` | cmd/helpers.go:231-236 | attaching a command keeps the arena well formed and sibling labels distinct |
| `CmdTrie.Follow` | cmd/helpers.go:206-214 | following a path, first labelled child at each step, ends inside the arena when it ends at all |
| `CmdTrie.Walk` | cmd/helpers.go:239-243 | the walk of a chain only grows the tree and changes no command |
| `CmdTrie.AddStrict` | cmd/helpers.go:239-245 | a strict-order registration that does not panic only grows the tree |
| `CmdTrie.RemoveElement` | cmd/helpers.go:247-257 | the result always has length `len(chain)-1` |
| `CmdTrie.RemoveElementFromChain` | cmd/helpers.go:247-257 | the loop that fills the slice through index `z` computes exactly `RemoveElement` |
| `CmdTrie.AddAny` | cmd/helpers.go:259-280 | an any-order registration keeps the arena well formed and only adds nodes |
| `CmdTrie.AddAnyFrom` | cmd/helpers.go:262-277 | each loop iteration from `i` on keeps the arena well formed and only adds nodes |
| `CmdTrie.AddAnyFromStep` | cmd/helpers.go:262-277 | one iteration: find or insert `chain[i]`, recurse on the chain without it, stop at a panic, otherwise go on with the leaves appended |
| `CmdTrie.FindInChain` | cmd/helpers.go:282-298 | the definition of the lookup, no contract of its own; `CmdTrieProps.FindEmpty`, `FindSkipsUnmatched`, `FindFollows`, `FindAfterStrict` and `FindAfterAnyOrder` state what it finds |
| `CmdTrie.FindFrom` | cmd/helpers.go:283-296 | the definition of the argument loop from position `i`, no contract of its own; the `Find*` lemmas of `CmdTrieProps` state its behaviour |
| `CmdTrie.CommandTree.constructor` | cmd/ctx.go:141 | the root starts as one empty branch, which satisfies `Valid`: a well-formed arena with unique sibling labels |
| `CmdTrie.CommandTree.FindOrInsertBranch` | cmd/helpers.go:206-229 | the in-place search-or-append leaves the nodes and the result that `InsertChild` specifies, and keeps sibling labels unique |
| `CmdTrie.CommandTree.SetCommandOrPanic` | cmd/helpers.go:231-236 | panics exactly when a command is already attached, and then changes nothing; otherwise it attaches the command; sibling labels stay unique |
| `CmdTrie.CommandTree.AddChainStrictOrder` | cmd/helpers.go:239-245 | the in-place walk and attach panics exactly when `AddStrict` does, and otherwise leaves its tree; sibling labels stay unique |
| `CmdTrie.CommandTree.AddChainAnyOrder` | cmd/helpers.go:259-280 | the in-place recursion leaves the nodes, leaves and panic flag that `AddAny` specifies; sibling labels stay unique |
| `CmdTrieProps.ChildStable` | cmd/helpers.go:206-229 | once a branch has a child with a label, growing the tree never changes which child that is |
| `CmdTrieProps.FollowStable` | cmd/helpers.go:239-243 | a chain that leads to a node keeps leading to it as the tree grows |
| `CmdTrieProps.ReachesStable` | cmd/helpers.go:239-245 | a command reachable along a chain stays reachable after later registrations |
| `CmdTrieProps.WalkEnds` | cmd/helpers.go:239-243 | the walk ends at the node the chain leads to; if the chain already led somewhere nothing changes; a newly created end node has no command |
| `CmdTrieProps.AddStrictReaches` | cmd/helpers.go:239-245 | after a strict-order registration the chain leads to the registered command |
| `CmdTrieProps.AddStrictPanics` | cmd/helpers.go:231-245 | a strict-order registration panics exactly when the chain already leads to a branch that has a command |
| `CmdTrieProps.RegisterTwicePanics` | cmd/helpers.go:231-245 | registering the same chain a second time panics instead of overwriting |
| `CmdTrieProps.WalkKeeps` | cmd/helpers.go:239-243 | the walk of a chain keeps sibling labels distinct |
| `CmdTrieProps.AddStrictKeeps` | cmd/helpers.go:239-245 | a strict-order registration that does not panic keeps sibling labels distinct |
| `CmdTrieProps.AddAnyKeeps` | cmd/helpers.go:259-280 | an any-order registration keeps sibling labels distinct, whether or not it panics |
| `CmdTrieProps.AddAnyFromKeeps` | cmd/helpers.go:262-277 | each iteration of the any-order loop from `i` on keeps sibling labels distinct |
| `CmdTrieProps.WithoutCounts` | cmd/helpers.go:250-255 | dropping every copy of `x` keeps every other value as often as before |
| `CmdTrieProps.RemoveElementSpec` | cmd/helpers.go:247-257 | length `len(chain)-1`; the prefix is the chain without every copy of `chain[i]`, in order; the unused tail slots are `""` |
| `CmdTrieProps.RemoveElementDistinct` | cmd/helpers.go:247-257 | for distinct elements the result is `chain[:i] + chain[i+1:]` |
| `CmdTrieProps.RemoveElementDuplicate` | cmd/helpers.go:247-257 | with a duplicate the tail is padded: `["a","b","a"]` without position 0 is `["b",""]` |
| `CmdTrieProps.RemoveKeepsDistinct` | cmd/helpers.go:247-257 | removing one label from a distinct chain leaves a distinct chain |
| `CmdTrieProps.AddAnyEmpty` | cmd/helpers.go:259-280 | an empty chain attaches nothing and returns no leaves |
| `CmdTrieProps.AddAnyLeaves` | cmd/helpers.go:259-280 | a chain of `n` labels yields `n!` leaves unless it panics |
| `CmdTrieProps.AddAnyCount` | cmd/helpers.go:259-280 | the inductive proof of the `n!` leaf count |
| `CmdTrieProps.AddAnyFromCount` | cmd/helpers.go:262-277 | from iteration `i` on, each remaining label adds `(n-1)!` leaves |
| `CmdTrieProps.AddAnyGrows` | cmd/helpers.go:259-280 | any-order registration keeps every existing label and child list |
| `CmdTrieProps.AddAnyFromGrows` | cmd/helpers.go:262-277 | each loop iteration keeps every existing label and child list |
| `CmdTrieProps.AddAnySingleGrows` | cmd/helpers.go:267-270 | the one-label case keeps every existing label and child list |
| `CmdTrieProps.AddAnyReaches` | cmd/helpers.go:259-280 | with distinct labels and no panic, every permutation of the chain leads to the command |
| `CmdTrieProps.AddAnyReachesAll` | cmd/helpers.go:259-280 | the inductive proof that every permutation leads to the command |
| `CmdTrieProps.AddAnyFromReaches` | cmd/helpers.go:262-277 | loop invariant: once all iterations are done, every permutation leads to the command |
| `CmdTrieProps.BranchReaches` | cmd/helpers.go:264-276 | the iteration for `chain[i]` makes every permutation that starts with it lead to the command |
| `CmdTrieProps.FindEmpty` | cmd/helpers.go:282-298 | an empty argument list finds nothing |
| `CmdTrieProps.FindSkipsUnmatched` | cmd/helpers.go:283-296 | arguments that label no child are skipped; the first one that does decides |
| `CmdTrieProps.FindFollows` | cmd/helpers.go:282-298 | looking up a distinct chain that leads to a branch returns that branch's command, possibly none |
| `CmdTrieProps.FindAfterStrict` | cmd/helpers.go:282-298 | after a strict-order registration of a distinct chain, the lookup of that chain returns the command |
| `CmdTrieProps.FindAfterAnyOrder` | cmd/helpers.go:282-298 | after an any-order registration of distinct labels, the lookup of every permutation returns the command |
| `CmdOptions.Spellings` | cmd/helpers.go:74-76 | each spelling of a descriptor maps to its index, and nothing else is in the map |
| `CmdOptions.FlagHashSpec` | cmd/helpers.go:70-83 | every declared spelling is hashed, to a descriptor that declares it, and no later descriptor declares it, so the later descriptor wins |
| `CmdOptions.FlagHashAt` | cmd/helpers.go:70-83 | the same facts for one spelling |
| `CmdOptions.FlagPhase` | cmd/helpers.go:86-106 | the flag phase keeps the number of descriptors and every spec |
| `CmdOptions.FlagPhaseEffect` | cmd/helpers.go:86-106 | a descriptor no event names keeps its value; otherwise its string is the last naming event's argument, and a boolean is set |
| `CmdOptions.TrimLast` | cmd/helpers.go:173-175 | exactly one trailing character is removed, if there is one |
| `CmdOptions.Prompt` | cmd/helpers.go:112-187 | the prompt loop for one descriptor consumes input; it runs out only for a required string prompt, and then with no input left |
| `CmdOptions.PromptSettles` | cmd/helpers.go:116-187 | unless input ran out, one descriptor ends skipped with its flag value, answered, or defaulted |
| `CmdOptions.FirstAnswer` | cmd/helpers.go:178-182 | the first line whose trimmed form is non-empty; none when every line trims to empty |
| `CmdOptions.RequiredPromptAnswer` | cmd/helpers.go:139-182 | a required string prompt takes the first non-empty trimmed answer and the input after it; it runs out exactly when there is none |
| `CmdOptions.OptionalPromptAnswer` | cmd/helpers.go:168-187 | an optional string prompt reads one line; an empty answer takes the default |
| `CmdOptions.BoolPromptAnswer` | cmd/helpers.go:128-137 | a yes/no prompt sets the flag exactly on `"y"`; any other answer leaves the descriptor untouched with no default; one line is read |
| `CmdOptions.ResolveFrom` | cmd/helpers.go:112-188 | the prompt loop from descriptor `i` keeps the number of descriptors |
| `CmdOptions.ResolveFromKeeps` | cmd/helpers.go:112-188 | the loop changes only values, never specs, and only from `i` on |
| `CmdOptions.ResolveFromSettles` | cmd/helpers.go:112-188 | unless input ran out, every descriptor from `i` on is settled |
| `CmdOptions.GetOptsSpec` | cmd/helpers.go:68-189 | the whole resolution keeps the number of descriptors and every spec |
| `CmdOptions.FlagFilled` | cmd/helpers.go:70-106 | the flag phase over the hashed spellings keeps the number of descriptors and every spec |
| `CmdOptions.GetOptsSettles` | cmd/helpers.go:68-189 | unless input ran out, every descriptor is settled |
| `CmdOptions.ResolvedStrNonEmpty` | cmd/helpers.go:173-187 | a required prompted string, or one with a non-empty default, is never left empty |
| `CmdOptions.FlagValueWins` | cmd/helpers.go:116-119 | a descriptor that a flag set to a non-empty string keeps it through the prompt and default phases |
| `CmdOptions.BuildFlagHash` | cmd/helpers.go:70-83 | the nested loop builds exactly `FlagHash` |
| `CmdOptions.ApplyEvents` | cmd/helpers.go:86-106 | the callback applied in place gives exactly `FlagPhase` |
| `CmdOptions.PromptStep` | cmd/helpers.go:113-187 | one pass of the loop body over descriptor `i` either advances with `Prompt`'s outcome, or stays on `i` with less input and the same outcome pending, or finds the input exhausted; other descriptors and every spec are untouched |
| `CmdOptions.PromptAll` | cmd/helpers.go:112-188 | the loop over the array, re-prompting by staying on `i`, gives exactly `ResolveFrom` from 0 |
| `CmdOptions.GetOpts` | cmd/helpers.go:68-189 | the in-place resolver leaves the array, input and exhaustion that `GetOptsSpec` specifies |
| `CmdOptions.DefaultWithoutFlag` | cmd/helpers.go:185-187 | a prompt-skipping descriptor with a default and no flag resolves to the default and reads no input |
| `CmdOptions.FlagBeatsDefault` | cmd/helpers.go:116-119 | `--name foo` decides the value; the default is not applied |
| `CmdOptions.Positionals` | cmd/helpers.go:58-63 | no more positionals than events |
| `CmdOptions.PositionalsMembers` | cmd/helpers.go:58-63 | a string is a positional exactly when some positional event carried it |
| `CmdOptions.FilterArgsHasBlanks` | cmd/helpers.go:55-66 | the result always has three leading `""` entries, so it never equals the positionals |
| `CmdOptions.FilterArgs` | cmd/helpers.go:55-66 | the append loop over the callbacks computes the slice as written |
| `CmdHelp.GetHelpStr` | cmd/helpers.go:20-26 | the builder loop computes one `"\t<name>: <desc>\n"` line per entry, in order |
| `CmdHelp.HelpLine` | cmd/helpers.go:23 | the definition of one entry's line, `"\t<name>: <desc>\n"`, no contract of its own |
| `CmdHelp.HelpStr` | cmd/helpers.go:20-26 | the definition of the whole help text, no contract of its own; `HelpStrConcat`, `HelpStrEndsWithNewline` and `HelpStrSingle` state its shape |
| `CmdHelp.HelpStrConcat` | cmd/helpers.go:20-26 | the text of a concatenation is the concatenation of the texts |
| `CmdHelp.HelpStrEndsWithNewline` | cmd/helpers.go:23 | a non-empty list gives a text ending in a newline |
| `CmdHelp.HelpStrSingle` | cmd/helpers.go:23 | the exact line for one entry |
| `MainHelpers.GetHelpStr` | helpers.go:13-20 | the builder loop computes the header followed by the entries |
| `MainHelpers.HelpEntry` | helpers.go:16-18 | the definition of one entry, `"\n\t<name>: <desc>"`, no contract of its own |
| `MainHelpers.HelpStr` | helpers.go:13-20 | the definition of the help text built left to right, no contract of its own; `HelpStrEmpty`, `HelpStrAppend` and `HelpStrIsHeaderAndEntries` state its shape |
| `MainHelpers.Entries` | helpers.go:16-18 | the definition of the entries built from the front, no contract of its own; `EntriesAppend` relates it to `HelpStr` |
| `MainHelpers.HelpStrEmpty` | helpers.go:15 | an empty list gives exactly `"Commands:"` |
| `MainHelpers.HelpStrAppend` | helpers.go:16-18 | `GetHelpStr(xs + [x])` is `GetHelpStr(xs)` followed by `"\n\t" + Name + ": " + Desc` |
| `MainHelpers.EntriesAppend` | helpers.go:16-18 | appending a command appends its entry |
| `MainHelpers.HelpStrIsHeaderAndEntries` | helpers.go:13-20 | the output is `"Commands:"` followed by the entries in input order |
| `CmdContext.CmdCtx.constructor` | cmd/ctx.go:20-23 | a context with the given trie and configuration |
| `CmdContext.ValidateConfig` | cmd/ctx.go:25-30 | a missing configuration gives "config is nil"; otherwise the configuration's own validation |
| `CmdContext.ValidateConfigMonotone` | cmd/ctx.go:25-30 | passing with credentials implies passing without; passing at all implies a configuration is present |
| `CmdContext.Own` | cmd/ctx.go:41-47 | a branch contributes at most one entry of its own |
| `CmdContext.CommandsOf` | cmd/ctx.go:37-50 | the definition of the depth-first, pre-order entries below a branch, no contract of its own; `GetCommands`, `CommandsExtendParent` and `CommandsIncludeChild` state what it holds |
| `CmdContext.CommandsFrom` | cmd/ctx.go:38-49 | the definition of the child loop from child `i` on, no contract of its own |
| `CmdContext.GetCommands` | cmd/ctx.go:37-50 | the recursion through the accumulator appends exactly the depth-first, pre-order entries below the branch |
| `CmdContext.CommandsExtendParent` | cmd/ctx.go:40 | every collected path is the parent path, a space, then more |
| `CmdContext.CommandsIncludeChild` | cmd/ctx.go:38-49 | each child's own entry and its whole subtree's entries are collected, command-less children included |
| `CmdContext.GroupByDesc` | cmd/ctx.go:63-76 | the grouping loop builds exactly `Grouped` |
| `CmdContext.Grouped` | cmd/ctx.go:63-76 | the definition of the group map after the loop, no contract of its own; `GroupedSpec` states its content |
| `CmdContext.GroupedSpec` | cmd/ctx.go:65-76 | one group per description that occurs; each holds exactly the paths with that description, in collection order, and a command that has it |
| `CmdContext.RenderFlag` | cmd/ctx.go:114-118 | a spelling longer than one character renders as `--x`, otherwise as `-x` |
| `CmdContext.JoinFlags` | cmd/ctx.go:106-119 | the definition of the joined spellings, no contract of its own; `JoinFlagsPrefix` and `JoinFlagsSnoc` state its shape |
| `CmdContext.OptText` | cmd/ctx.go:98-121 | the definition of one descriptor's usage text, no contract of its own; `ArgumentsHeader`, `OptsTextTabOrEmpty` and `FlaglessOmitted` state its shape |
| `CmdContext.OptsText` | cmd/ctx.go:96-122 | the definition of the options part of a group, no contract of its own |
| `CmdContext.PathsText` | cmd/ctx.go:88-94 | the definition of the path lines of a group, no contract of its own; `PathsTextLast` states where the description goes |
| `CmdContext.GroupText` | cmd/ctx.go:88-123 | the definition of one group's text, its paths, its options and a blank line, no contract of its own |
| `CmdContext.UsageHeader` | cmd/ctx.go:77-84 | the definition of the usage header, with the program name in both usage lines, no contract of its own |
| `CmdContext.GroupsText` | cmd/ctx.go:86-124 | the definition of the groups' texts in map order, no contract of its own |
| `CmdContext.PrintPaths` | cmd/ctx.go:88-94 | the path loop gives one line per path, the description after the last |
| `CmdContext.PrintOpt` | cmd/ctx.go:98-121 | the spelling loop gives the descriptor's line |
| `CmdContext.JoinFlagsPrefix` | cmd/ctx.go:106-119 | the first spelling is rendered alone; each later one adds `", "` and its rendering |
| `CmdContext.PrintGroup` | cmd/ctx.go:88-123 | the loops for one group give its text |
| `CmdContext.ArgumentsHeader` | cmd/ctx.go:100-105 | "Arguments:" opens the options part exactly when descriptor 0 has spellings |
| `CmdContext.OptsTextTabOrEmpty` | cmd/ctx.go:100-105 | without spellings at index 0 there is no header: the options part is empty or starts with a tab |
| `CmdContext.FlaglessOmitted` | cmd/ctx.go:100-102 | a descriptor without spellings adds nothing to the usage text |
| `CmdContext.JoinFlagsSnoc` | cmd/ctx.go:106-119 | appending a spelling appends `", "` and its rendering |
| `CmdContext.PathsTextLast` | cmd/ctx.go:88-94 | the description follows the last path and only that one |
| `CmdContext.PrintCommands` | cmd/ctx.go:52-125 | the usage header, then each group's text in the given map order, over the groups of the collected paths |
| `CmdContext.PrintGroups` | cmd/ctx.go:86-124 | the loop over the groups gives their texts in order |
| `CmdRegistry.CommandList` | cmd/ctx.go:143-186 | nine commands: help first, then the eight handlers in registration order, each with its own descriptors |
| `CmdRegistry.Commands` | cmd/ctx.go:143-186 | nine commands, one per registration of `NewCtx` |
| `CmdRegistry.Grow` | cmd/ctx.go:141-186 | one registration step appends the new branches and adds the next free index to one branch's children |
| `CmdRegistry.RegisterHelp` | cmd/ctx.go:143-146 | the any-order `help` registration on the empty root does not panic and gives stage 1 |
| `CmdRegistry.RegisterNewGiteaCred` | cmd/ctx.go:147-151 | `new g cred` does not panic and gives the next stage |
| `CmdRegistry.RegisterNewRocketCred` | cmd/ctx.go:152-156 | `new r cred` does not panic and gives the next stage |
| `CmdRegistry.RegisterNewCred` | cmd/ctx.go:157-161 | `new cred` does not panic and gives the next stage |
| `CmdRegistry.RegisterRmCred` | cmd/ctx.go:162-166 | `rm cred` does not panic and gives the next stage |
| `CmdRegistry.RegisterNewPr` | cmd/ctx.go:167-171 | `new pr` does not panic and gives the next stage |
| `CmdRegistry.RegisterListPr` | cmd/ctx.go:172-176 | `list pr` does not panic and gives the next stage |
| `CmdRegistry.RegisterMergePr` | cmd/ctx.go:177-181 | `merge pr` does not panic and gives the next stage |
| `CmdRegistry.RegisterUpdatePr` | cmd/ctx.go:182-186 | `update pr` does not panic and gives the final registry |
| `CmdRegistry.StagesGrow` | cmd/ctx.go:141-186 | every stage of the registration is well formed and grows from the one before |
| `CmdRegistry.RegistrySiblingsUnique` | cmd/ctx.go:141-186 | the trie that the nine registrations build has no branch with two children of the same label |
| `CmdRegistry.RegistryCommands` | cmd/ctx.go:143-186 | the nine commands sit on nine distinct nodes, so no registration reaches the duplicate panic |
| `CmdRegistry.RegistryFindsCred` | cmd/helpers.go:282-298 | `help` and the four credential chains look up their own commands |
| `CmdRegistry.RegistryFindsPr` | cmd/helpers.go:282-298 | the four pull-request chains look up their own commands |
| `CmdRegistry.RegistryOrderMatters` | cmd/helpers.go:282-298 | strict chains are order-sensitive: `pr new` and `cred new` find nothing |
| `CmdRegistry.RegistryDispatch` | cmd/ctx.go:141-186 | in the registered trie, each of the nine chains dispatches to its handler |
| `CmdRegistry.RegisterCommands` | cmd/ctx.go:141-186 | the nine in-place registrations turn the empty root into exactly the registry, with no panic |
| `CmdRegistry.NewCtx` | cmd/ctx.go:128-191 | a read or parse error means no context and that error; otherwise a fresh context holding the configuration and exactly the registered trie |
| `CmdCmd.AddOptWithDefaultVal` | cmd/cmd.go:18-44 | a non-empty default skips the prompt and is the default value; an empty one makes a required prompt with default `""` |
| `CmdCmd.AddOptLabel` | cmd/cmd.go:23-32 | the label carries `" [empty for: '<d>']"` with a default; otherwise `" (<helptext>)"` exactly when the help text is non-empty |
| `CmdCmd.RepoInfoOpts` | cmd/cmd.go:54-76 | two descriptors, `o/owner` then `r/repo`; their defaults come from a configuration only when it is present and the field is non-empty |
| `CmdCmd.ListPrOpts` | cmd/cmd.go:78-80 | the same two descriptors |
| `CmdCmd.NotifyOpt` | cmd/cmd.go:164-175 | the channel is unprompted and optional exactly when notifications are off or a default channel exists; that channel is its default |
| `CmdCmd.FooterOpt` | cmd/cmd.go:188-197 | the footer is flagged `f/footer`, never prompted, and defaults to `""` |
| `CmdCmd.NewPrOpts` | cmd/cmd.go:118-200 | ten descriptors: the two repository ones, then head, base, title, wip, dry, notify, nohdr and footer |
| `CmdCmd.NewPrOptsFlags` | cmd/cmd.go:118-200 | the spellings of the ten descriptors, by position |
| `CmdCmd.NewPrOptsSwitches` | cmd/cmd.go:143-185 | positions 5, 6 and 8 are unprompted yes/no switches |
| `CmdCmd.NewPrOptsDefaults` | cmd/cmd.go:126-197 | where the owner, repository, channel and footer defaults come from |
| `CmdCmd.NewPrOptsBranchDefaults` | cmd/cmd.go:129-141 | the head and title default to the current branch, the base to the configured default |
| `CmdCmd.FindPrOpts` | cmd/cmd.go:294-307 | the title descriptor is never prompted and defaults to the current branch |
| `CmdCmd.MergePrOpts` | cmd/cmd.go:327-363 | owner, repository, title, then the `rm/del` and force switches and the channel |
| `CmdCmd.RenameOpt` | cmd/cmd.go:473-481 | the new title is flagged `rename`, never prompted, with no default |
| `CmdCmd.UpdatePrOpts` | cmd/cmd.go:459-484 | owner, repository, title, then the close switch and the rename |
| `CmdCmd.PrTitle` | cmd/cmd.go:220-226 | an empty title becomes the head branch, and `"WIP: "` is prefixed exactly when wip is set |
| `CmdCmd.ReviewLine` | cmd/cmd.go:274 | the definition of the review line, no contract of its own |
| `CmdCmd.NotifyText` | cmd/cmd.go:268-279 | the definition of the review message, no contract of its own; `CmdCmdProps.NotifyTextParts` states its three parts |
| `CmdCmd.MergedText` | cmd/cmd.go:444-446 | the definition of the merge announcement, no contract of its own |
| `CmdCmd.FindTitle` | cmd/cmd.go:316-322 | the index of the first pull request titled exactly `title`; none when no title matches |
| `CmdCmd.FindPrSpec` | cmd/cmd.go:309-325 | a failed listing passes its error on; otherwise the first exact title match, or "pr not found" |
| `CmdCmd.FindPr` | cmd/cmd.go:309-325 | the search loop computes `FindPrSpec` |
| `CmdCmd.FirstDecision` | cmd/cmd.go:412-422 | the first answer that is `"y"` or `"n"`; none when there is none |
| `CmdCmd.RemoveAnswer` | cmd/cmd.go:409-423 | the question repeats until `"y"` (remove) or `"n"` (keep); it blocks when no such answer comes |
| `CmdCmd.AskRemoveBranch` | cmd/cmd.go:409-423 | the labelled loop computes `RemoveAnswer` |
| `CmdCmd.ListPrCommand` | cmd/cmd.go:82-106 | a failed configuration check with credentials returns its error and makes no request; otherwise at most one request is made, a listing of the open pull requests |
| `CmdCmd.NewPrCommand` | cmd/cmd.go:202-205 | a failed configuration check with credentials returns its error and makes no request; otherwise the descriptors are resolved and `NewPrRun` carries on |
| `CmdCmd.NewPrRun` | cmd/cmd.go:212-291 | never blocks and makes at most two requests; a dry run makes none and succeeds; the first request creates the pull request from head into base under the derived title; a second one is made only after a successful creation with rocketchat enabled, and posts to the chosen channel |
| `CmdCmd.MergePrCommand` | cmd/cmd.go:365-368 | a failed configuration check with credentials returns its error and makes no request; otherwise the descriptors are resolved and `MergePrRun` carries on |
| `CmdCmd.MergePrRun` | cmd/cmd.go:375-454 | the first of one to four requests lists the open pull requests; it blocks only at the branch question, without `--rm`, after a successful merge, with no `y`/`n` answer left; success needs a matching pull request and a successful merge |
| `CmdCmd.ClosePrCommand` | cmd/cmd.go:486-489 | a failed configuration check with credentials returns its error and makes no request; otherwise the descriptors are resolved and `ClosePrRun` carries on |
| `CmdCmd.ClosePrRun` | cmd/cmd.go:496-535 | never blocks; the first of one or two requests lists the open pull requests; it succeeds exactly when a listed pull request has the title and the update succeeds |
| `CmdCmdProps.DefaultSkipsPrompt` | cmd/cmd.go:23-25 | a non-empty default is taken without a prompt and without reading input |
| `CmdCmdProps.EmptyDefaultPrompts` | cmd/cmd.go:26-32 | without a default the descriptor is a required prompt and takes the first non-empty answer |
| `CmdCmdProps.SwitchGiven` | cmd/helpers.go:101-104 | a switch named on the command line, whose spelling no later descriptor shares, resolves to set |
| `CmdCmdProps.UnflaggedNoPrompt` | cmd/helpers.go:116-187 | an unprompted descriptor that no event names ends with its default, or `""` |
| `CmdCmdProps.RepoInfoFromConfig` | cmd/cmd.go:54-76 | with both repository defaults configured and no flags, owner and repository resolve to them without input |
| `CmdCmdProps.NotifyTextParts` | cmd/cmd.go:268-279 | the message starts with the header exactly when it is non-empty and `nohdr` is off, then the request line, then `"\n" + footer` exactly when the footer is non-empty |
| `CmdCmdProps.NewPrDryRun` | cmd/cmd.go:230-232 | a dry run makes no request and succeeds |
| `CmdCmdProps.NewPrCreates` | cmd/cmd.go:234-251 | otherwise, with a valid repository context, the first request creates the pull request with the derived title |
| `CmdCmdProps.NewPrPostsIff` | cmd/cmd.go:251-289 | the review request is posted exactly when the pull request was created and notifications are on |
| `CmdCmdProps.NewPrSucceedsIff` | cmd/cmd.go:230-291 | success exactly on a dry run, or when the context is valid, creation succeeds and any post succeeds |
| `CmdCmdProps.NewPrDryFlag` | cmd/cmd.go:218-232 | with `-d`/`--dry` given, whatever the input, no request is made |
| `CmdCmdProps.NewPrDrySwitch` | cmd/cmd.go:153-161 | a `-d`/`--dry` event resolves the dry switch to set |
| `CmdCmdProps.NewPrOptsTail` | cmd/cmd.go:153-197 | the last four descriptors: the dry switch, then spellings no other descriptor shares |
| `CmdCmdProps.NewPrTitleIsHead` | cmd/cmd.go:220-226 | without title and wip, the new pull request is titled with the head branch |
| `CmdCmdProps.MergeTargetsFirstMatch` | cmd/cmd.go:392-407 | nothing but the listing happens unless a pull request has the title, and the merge targets the first such |
| `CmdCmdProps.MergeDeletesIffChosen` | cmd/cmd.go:409-431 | after a successful merge the branch is deleted exactly when `--rm` was given or `"y"` was answered first |
| `CmdCmdProps.MergeDeletesOnlyMerged` | cmd/cmd.go:405-431 | a branch is never deleted unless the merge succeeded |
| `CmdCmdProps.MergeRmSkipsQuestion` | cmd/cmd.go:409 | with `--rm` the question is not asked and the input plays no part |
| `CmdCmdProps.MergePostsOnlyEnabled` | cmd/cmd.go:433-452 | the merge is announced only when notifications are on |
| `CmdCmdProps.MergeRmFlag` | cmd/cmd.go:327-363 | `--rm`/`--del` on the command line resolve the removal switch to set |
| `CmdCmdProps.CloseUpdatesFirstMatch` | cmd/cmd.go:514-533 | the update request is made exactly when a listed pull request has the title, and it carries the first match's number |
| `CmdCmdProps.CloseIffFlag` | cmd/cmd.go:486-536 | the update closes the pull request exactly when `-c`/`--close` was given |
| `CmdCred.GetRmCredOpts` | cmd/cred_cmd.go:11-25 | user (`u/user`) then password (no flags, no echo), both required prompts without defaults |
| `CmdCred.NewRocketCredOpts` | cmd/cred_cmd.go:78-96 | user (`rocketuser`) and password (no echo); both are unprompted and optional exactly without rocketchat |
| `CmdCred.NewGiteaCredOpts` | cmd/cred_cmd.go:98-121 | the two user and password descriptors, then an optional token name (`t/token`) defaulting to an 8-letter random name |
| `CmdCred.NewCredOpts` | cmd/cred_cmd.go:123-135 | the three Gitea descriptors, then the rocketchat ones, prompted exactly when a configuration enables rocketchat |
| `CmdCred.WithGiteaToken` | cmd/cred_cmd.go:157-158 | the token name and sha1 are set; every other field is kept |
| `CmdCred.ClearGiteaToken` | cmd/cred_cmd.go:72-73 | the token name and sha1 are emptied; every other field is kept |
| `CmdCred.WithRocketLogin` | cmd/cred_cmd.go:174-175 | the rocketchat token and user id are set; every other field is kept |
| `CmdCred.SetNewGiteaCred` | cmd/cred_cmd.go:137-161 | requests a token with the resolved fields; only an issued token updates the configuration, and an error leaves it unchanged |
| `CmdCred.SetNewRocketchatCred` | cmd/cred_cmd.go:163-178 | logs in with the resolved fields; only a successful login updates the configuration |
| `CmdCred.RmCredCommand` | cmd/cred_cmd.go:46-76 | refuses a configuration without credentials; clears the token and writes the configuration only after the deletion succeeds |
| `CmdCred.NewGiteaCredCommand` | cmd/cred_cmd.go:196-210 | refuses an invalid configuration; writes the configuration only after a token was issued |
| `CmdCred.NewRocketCredCommand` | cmd/cred_cmd.go:180-194 | refuses an invalid configuration; writes the configuration only after a successful login |
| `CmdCred.NewCredCommand` | cmd/cred_cmd.go:212-232 | the token request, then the login with descriptors 3 and 4 only when rocketchat is enabled; writes only when every request succeeded |
| `CmdCred.RmCredResolvedNonEmpty` | cmd/cred_cmd.go:52-57 | the user and password of rm cred never resolve to empty |
| `CmdCred.GiteaCredResolvedNonEmpty` | cmd/cred_cmd.go:202-205 | the token request of new g cred never carries an empty user, password or token name |
| `CmdCred.CredLoginResolvedNonEmpty` | cmd/cred_cmd.go:218-226 | with rocketchat enabled, the login of new cred never carries an empty user or password |
| `CmdCred.TokenNameDefaultsToRandom` | cmd/cred_cmd.go:110-118 | an empty answer to the token-name prompt, or none, gives the 8-letter random name |
| `CmdCred.GiteaCredTypedScenario` | cmd/cred_cmd.go:98-121 | typing user, password and an empty token name resolves the user and password trimmed and a random token name |
| `CmdCred.ClearedTokenRefused` | cmd/cred_cmd.go:68-73 | after clearing, every check with credentials fails and the check without credentials is unchanged |
| `CmdCred.TokenRoundTrip` | cmd/cred_cmd.go:157-158 | storing a token and clearing it equals clearing; restoring the old token after clearing gives the original configuration back |
| `CmdCred.NewCredCredentials` | cmd/cred_cmd.go:221-229 | after new cred succeeds on a configuration valid without credentials, it is valid with them |
| `CommonConfig.LastSlash` | common/config.go:12-14 | the position of the last `'/'`, or none when there is none |
| `CommonConfig.RemoteInfo.ToApiUrl` | common/config.go:12-14 | the definition `<base_url>/api/<api_ver>`, no contract of its own; `ToApiUrlSplits` proves it loses nothing |
| `CommonConfig.GiteaConfig.ToApiUrl` | common/config.go:12-14 | the remote's URL, promoted from the embedded `RemoteInfo` as in Go; no contract of its own |
| `CommonConfig.Rocketchat.ToApiUrl` | common/config.go:12-14 | the remote's URL, promoted from the embedded `RemoteInfo` as in Go; no contract of its own |
| `CommonConfig.RemoteInfo.Validate` | common/config.go:20-28 | valid exactly when base URL and API version are non-empty; the base URL is reported first |
| `CommonConfig.ToApiUrlSplits` | common/config.go:12-14 | the API URL splits back into base URL and version when the version has no `'/'` |
| `CommonConfig.GiteaConfig.Validate` | common/config.go:48-60 | with credentials, the token sha1 and then the token name come first; the remote is checked in either case |
| `CommonConfig.Rocketchat.Validate` | common/config.go:77-87 | with credentials, the user id and then the token come first; the remote is checked in either case |
| `CommonConfig.Config.Validate` | common/config.go:98-106 | the Gitea error wins; the rocketchat section is checked only when enabled |
| `CommonConfig.ConfigValidateFields` | common/config.go:48-106 | valid with credentials exactly when every field those checks look at is present |
| `CommonConfig.ValidateCredImpliesPlain` | common/config.go:48-106 | passing with credentials implies passing without, at every layer |
| `CommonConfig.ErrorsArePrefixed` | common/config.go:16-18 | every error names the layer that produced it |
| `ConfigCtx.RepoInfo.Validate` | config/ctx.go:16-24 | valid exactly when repository URL and API version are non-empty; the URL is checked first |
| `ConfigCtx.RepoInfo.ToRepoApiUrl` | config/ctx.go:26-28 | the definition `<repo_url>/api/<api_ver>`, no contract of its own; `ToRepoApiUrlParts` states its parts |
| `ConfigCtx.ToRepoApiUrlParts` | config/ctx.go:26-28 | the URL keeps the repository URL as prefix and ends in `"/api/" + ApiVer` |
| `ConfigCtx.Config.Validate` | config/ctx.go:49-60 | token sha1, token name and user name are checked in that order, then the repository information |
| `ConfigCtx.ConfigValidIff` | config/ctx.go:16-60 | valid exactly when all five checked fields are non-empty |
| `GiteaRepoCtx.RepoCtx.Validate` | gitea/repo_ctx.go:12-26 | owner, repository, token and API URL are checked in that order, and the first missing one is reported |
| `GiteaRepoCtx.RepoCtxValidIff` | gitea/repo_ctx.go:12-26 | valid exactly when all four fields are non-empty |
| `RocketchatCtx.Ctx.Validate` | rocketchat/ctx.go:11-22 | API URL, user id and token are checked in that order |
| `RocketchatCtx.CtxValidIff` | rocketchat/ctx.go:11-22 | valid exactly when all three fields are present; each error names exactly the first missing field |
| `Encoding.SextetValue` | gitea/token.go:28 | the inverse of the base64 alphabet of Table 1 of RFC 4648 |
| `Encoding.SextetRoundTrip` | gitea/token.go:28 | each 6-bit value decodes back from its character |
| `Encoding.Base64Encode` | gitea/token.go:28 | padded output: 4 characters per started group of 3 bytes |
| `Encoding.Base64Decode` | gitea/token.go:28 | the decoder a receiver of the header applies (the partner of `Base64Encode`): it accepts only strings whose length is a multiple of four |
| `Encoding.GroupRoundTrip` | gitea/token.go:28 | a full group decodes back to its three bytes |
| `Encoding.Base64RoundTrip` | gitea/token.go:28 | decoding undoes encoding for every byte sequence |
| `Encoding.Utf8Concat` | gitea/token.go:27-28 | the UTF-8 bytes of a concatenation are the concatenated bytes |
| `Encoding.BasicAuth` | gitea/token.go:25-30 | the definition of the header value, no contract of its own; `BasicAuthDecodes` states what it decodes to |
| `Encoding.BasicAuthDecodes` | gitea/token.go:25-30 | the header is `"Basic "` followed by base64 that decodes to user, `':'` and password |
| `RandomNames.RandChars` | gitea/token.go:44-54 | one letter of the charset per draw |
| `RandomNames.RandStr` | gitea/token.go:44-54 | the fill loop gives length `l` and exactly the letters the draws select |
| `GiteaToken.FillRequest` | gitea/token.go:59-111 | non-empty fields are never overwritten; each empty field takes the line of its prompt, counted over the prompts before it, or `""` once input runs out: the user name, the password, the token name (the random name when that line is empty or missing) and the server URL; an empty API version becomes `"v1"` without a prompt; one line per prompt is consumed |
| `GiteaToken.TokenRequest.constructor` | gitea/token.go:18-23 | a request with the given fields |
| `GiteaToken.TokenRequest.ToBasicAuth` | gitea/token.go:25-30 | `"Basic "` then base64 that decodes to the UTF-8 of user, `':'` and password |
| `GiteaToken.TokenRequest.Validate` | gitea/token.go:32-37 | the user name and password first, then the repository information |
| `GiteaToken.TokenRequest.FillFromConsole` | gitea/token.go:59-111 | the in-place filling leaves exactly the fields and the rest of the input that `FillRequest` specifies, and returns their validation |
| `MainToken.FillCredentials` | token.go:57-100 | non-empty fields are kept; each empty field takes the line of its prompt, counted over the prompts before it, or `""` once input runs out: the user name, the password and the token name, which becomes the random name when that line is empty or missing; one line per prompt is consumed |
| `MainToken.Credentials.constructor` | token.go:17-21 | credentials with the given fields |
| `MainToken.Credentials.ToBasicAuth` | token.go:23-28 | `"Basic "` then base64 that decodes to the UTF-8 of user, `':'` and password |
| `MainToken.Credentials.Validate` | token.go:30-35 | valid exactly when user name and password are non-empty; the token name is never checked |
| `MainToken.Credentials.FillFromConsole` | token.go:57-100 | the in-place filling leaves exactly the fields and the rest of the input that `FillCredentials` specifies, and returns their validation |
| `MainCtx.Config.Validate` | ctx.go:26-37 | valid exactly when token sha1, token name and user name are non-empty, checked in that order |
| `MainCtx.AppCtx.constructor` | ctx.go:52 | an empty context |
| `MainCtx.BuiltinCommands` | ctx.go:71-82 | exactly `config` and `help`, each keyed by its own name |
| `MainCtx.NewCtx` | ctx.go:51-84 | a missing file gives no configuration and no error; other read, parse or validation errors give no context; a kept configuration is valid; the table holds the two built-in commands |

## Left out

- HTTP, JSON and the servers. The Gitea and Rocketchat requests (`common/http.go`, `gitea/pr.go`, `gitea/branch.go`, `rocketchat/token.go`, `rocketchat/chat.go`, `GetToken`, `DeleteToken`) are network I/O. Each handler records the request it would make, and the request's result is a parameter.
- Writing `gitea.yml` (`PersistConfig`) and reading it. These are persistence I/O; each write is recorded as a request, and each read arrives as a result.
- YAML decoding. `CmdRegistry.NewCtx` and `MainCtx.NewCtx` take the read or parse result as a parameter.
- Terminal echo switching around password reads. A secret line is read like any other. In `cmd/helpers.go:145-165` a failure to switch it ends the process with `os.Exit`.
- `FillFromConsole` (`token.go:67-89`, `gitea/token.go:69-91`): when getting or setting the terminal mode fails, the source returns that error at once, with the password and the later fields not filled. The model has no terminal, so this early return never happens in it; the methods always go on to the validation.
- Signals and handler dispatch from `os.Args` (`cmd/run.go`, `main.go`). These are process control.
- Printing. The confirmation lines of the handlers, the listing printed by `ListPrCommand` and the invalid-option warning are output only; `PrintCommands` is modelled as the text it would print.
- `HelpCommand` (`cmd/cmd.go:13-16`). It only prints what `PrintCommands` produces and returns nil; the text is modelled by `CmdContext.PrintCommands`, and printing is output.
- The old handlers (`cmd/pr.go`, `cmd/config.go`, `cmd/help.go`, `cmd_pr.go`, `cmd_mr.go`, `cmd_config.go`, `cmd_help.go`). They are not part of this model: they prompt and make HTTP calls, and their fields no longer match the configuration types.
- The print order of `PrintCommands`, which ranges over a Go map. The order is a parameter that lists every group once.
- `git branch --show-current`. The current branch is a parameter.
- `crypto/rand`. The integers it draws are a parameter.
- `RandomNames.RandStr`: `randStr` panics when `rand.Int` fails. The draws are given, so that failure has no counterpart in the model.
- `Encoding.Utf8`: Go strings are byte strings, while a Dafny `string` is a sequence of characters. A user name or password that is not valid UTF-8 cannot be represented, so `BasicAuth` is modelled only for text that is.
- `gnuflag.Getopt`. It is a foreign library; its callbacks are a sequence of events.
- `fmt.Scanln` splitting a line at blanks. Each element of the input is what one read stores.
- Input running out. A required prompt, or the merge question, that gets no usable answer loops forever in the source. The model returns "exhausted" (`Blocked` for a handler) instead.
- `CmdOptions.TrimLast`: removes one character of the string. This is a byte in Go; the two agree for the ASCII newline that ends a read line.
- `CmdTrie.CommandTree`: children are indices into an arena of nodes, not pointers. Every child's index is larger than its parent's, so no node is shared and there are no cycles; aliasing between trees is not modelled.
- The descriptor type follows `cmd/helpers.go`: `NotRequired`, and a default provider of type `func() string`. `cmd/cmd.go` and `cmd/cred_cmd.go` write `Optional` and a provider of type `func() (string, error)`. The model takes `Optional` to mean `NotRequired`; this is an assumption. Every provider in the source returns a nil error.
- A default provider is evaluated when its descriptor is built, and its value is stored. For the random token name, one set of draws serves both `newGiteaCredOpts` and `newCredOpts`.
- `GetOpts` returns no error in `cmd/helpers.go`, so the error path that `cmd/cmd.go` takes after `GetOpts` never fires in the model.
- `newPrOpts` and `mergePrOpts` dereference the configuration. The model gives them a configuration that is present; the configuration check before them guarantees it.
- `CmdCred.SetNewGiteaCred`: requires a configuration that is present, as the source dereferences it; the handlers check it first.
- `CmdCred.SetNewRocketchatCred`: requires a configuration that is present, as the source dereferences it; the handlers check it first.
- `CmdRegistry.RegistryFindsCred`: takes the registry's well-formedness as a precondition; `CmdRegistry.StagesGrow` proves it for every registry.
- `CmdRegistry.RegistryFindsPr`: takes the registry's well-formedness as a precondition; `CmdRegistry.StagesGrow` proves it for every registry.

## Findings

| source | as written | input that shows it | evidently intended | confidence | as-written member | corrected member |
|---|---|---|---|---|---|---|
| cmd/helpers.go:56 | `make([]string, 3)` creates three empty strings, and the positional arguments are appended after them | no arguments at all: the result is `["", "", ""]` instead of `[]` | `make([]string, 0, 3)`: only the positional arguments, in order | medium, not executed (no caller of `FilterArgs` in this snapshot) | `CmdOptions.FilterArgsHasBlanks` | `CmdOptions.PositionalsMembers` |
