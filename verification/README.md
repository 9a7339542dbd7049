# A model of Soul Stack's expression, masking, canonical-form and polling core

Soul Stack's Keeper rewrites, analyses and caches CEL expressions, masks secrets out of payloads and
console recordings, signs canonical documents that travel in an artifact's trailer, and waits for cloud
machines to appear and disappear. This project models those parts in Dafny and proves what each is for.
`dafny verify dfyconfig.toml` checks all of it.

## How it is laid out

| files | part of the system |
|---|---|
| `Cel`, `CelLaws`, `Nodes`, `Literals`, `Names`, `Ordering`, `Seqs`, `Wrappers` | expression trees, their nodes, their evaluation to a value or an error, values printed as text |
| `Render`, `Grouping`, `Printing` | a predicate partially evaluated against one host, printed, and read again by the Soul |
| `HostsWhere`, `WhereCalls`, `WhereText` | `.where("p")` compiled into a `filter`: the tree, and the text that is compiled |
| `Reads`, `HostScope` | static analyses of what an expression reads |
| `Seal`, `Occurrences`, `SealDeep`, `SealWhere` | which expressions are sealed, and what an unsealed one cannot tell |
| `Interpolation` | both analyses on strings with several `${...}` blocks |
| `CompileCache`, `CompileGuards`, `CompileRuns` | the compiler's guards, the caches of environments and compiled programs, and their concurrent callers |
| `VaultRefs`, `MaskStream` | vault references in text, masked as the text arrives in chunks |
| `IndexPaths`, `MaskLayered` | payload masking by key, content, schema and seal |
| `CanonicalJson`, `Version`, `Trailer` | the signed document, its version bounds, where it is stored |
| `Backoff`, `WaitPoller`, `ConfirmDestroy` | polling with exponential backoff |
| `ReleaseGate`, `GreenRuns` | the checker of the release workflow, and the runs of what it accepts |

One evaluator serves all the expression theorems. What they do not depend on comes in through `Cel.Ops`:
the strict functions, indexing other than by position in a list or by string key in a map, the order a
map is iterated in, and identifiers outside the activation. Each theorem therefore holds for every choice
of these. Providers, cancellation, the type checker, the key-name pattern and the number test of the JSON
emitter are parameters in the same way. Probes and deletes are functions of the round and the machine, so
every behaviour of a provider is one of them.

## Where the code and its documentation differ

Each of these is a lemma on the code as it is, with the exact condition beside it where there is one.

- `mask.go:169-172` says that past the carry bound only a reference longer than the bound can straddle a
  chunk. The release can cut the next marker in two, and then a reference of any length is written in
  full (`MaskStream.ReleaseCutsMarker`). Of every stream and chunking, a complete reference is written if
  and only if some release parts one the masker comes to from its separator
  (`MaskStream.WrittenExactlyWhenParted`).
- Masking by chunks equals masking at once, over all ways of cutting a stream, if and only if no marker
  starts strictly inside another reference's match and nowhere would a release cut a reference
  (`MaskStream.ChunkFreeExactly`).
- `seal.go:272-310` judges the author's text, in which the predicate of a where-call is a string literal
  and reads nothing. `soulprint.hosts.where("vars.pw")` is not sealed although the tainted `vars.pw` picks
  the hosts (`SealWhere.PredicateSecretUnseen`). The verdict on the text and on what is compiled from it
  agree if and only if the text is sealed or no filter in it is (`SealWhere.VerdictsAgreeExactly`,
  `SealWhere.AgreesUnlessPredicateSealed`).
- `hosts.go:100` prints the rewritten tree without grouping it. `soulprint.hosts.where("(!os).n")` is
  compiled as `!(__host.os.n)`, which keeps a host where the predicate as written errs
  (`WhereText.MisreadIsCompiled`, `WhereText.MisreadKeepsHost`). The text comes back as the tree if and only
  if the author's text and every predicate in it would (`WhereText.WhereTextSurvivesExactly`).
- `hosts.go:349-365` takes the hosts accessor for a spelling: `soulprint["hosts"]` is let through where
  hosts are not allowed (`HostsWhere.IndexedHostsAreNoAccessor`).
- `mask_schema.go:97-101` calls zero options equivalent to `MaskSecrets`. That holds if and only if no nil
  map lies where the walk comes by (`MaskLayered.ZeroIsMaskSecrets`); a nil map comes back empty.
- `host_scope.go:225-230` calls its tag unambiguous for names free of control bytes. A list holding one
  empty name is tagged like an empty list, and a run hands the program of the one request to the other,
  which the guard refuses (`CompileRuns.UnspelledNameIsServed`). `CompileCache.KeysAgreeExactly` says when
  two keys are equal, and `CompileRuns.HonestExactly` which requests can be served without such a run.
- On the root `register` a whole read can be counted away by `register.hosts.<name>`
  (`Reads.RegisterWholeReadMissed`), exactly when the selects reach the identifiers and still fall short of
  accounting for each (`Reads.WholeReadMissedExactly`).
- An index into a root other than `vars` is never sealed (`Seal.IndexedRootUnsealed`), as `seal.go:421-425`
  records.
- `check-release-gate.py:23-24` asks for a job the publisher transitively needs. The code looks for it on a
  path that starts with the publisher, and so accepts a workflow whose publisher is the only job to run
  the target (`ReleaseGate.PublisherAloneIsAccepted`).
- `check-release-gate.py:703-712` and `check-release-provenance.sh:12-16` take a run in which some job has
  succeeded and none has concluded anything but success for one whose gate passed. With the gate's targets
  in two jobs that is not so while the second still waits (`GreenRuns.OneGateIsGreen`). It is so if and only
  if every job, or one it waits for, runs each target in earnest (`GreenRuns.GreenMeansGateExactly`); in an
  accepted workflow the jobs that run gate targets decide it (`GreenRuns.GateRunnersDecide`), and one job
  that runs them all is enough (`GreenRuns.OneGateJobSuffices`).
- A deprecation window whose lower minor is one of the two greatest ints passes backwards, because the sum
  wraps, and a bound too great for an int is never compared (`Version.WrappedWindowPasses`,
  `Version.UnparsedBoundPasses`); `Version.NoIssueExactly` says which deprecations pass.
- `predicate_render.go:255-266` groups negative literals so that they read back. A negation over a
  non-negative numeral still reads back as a negative literal, with the same meaning
  (`Printing.GroupedSurvives`, `Printing.RereadSame`).

## Model

Rows that begin with "corollary" follow at once from the definitions or from the rows around them.

| member | source | states |
|---|---|---|
| `Names.FirstFree` | shared/cel/predicate_render.go:647-665 | the search for a name ends, on the first candidate not in use |
| `Names.FindFree` | shared/cel/predicate_render.go:647-665 | the loop finds that name |
| `Ordering.StrLessMeans` | sdk/schema/canonical.go:122-127 | in the order of strings a proper beginning comes before what goes on, and otherwise the smaller character at the first difference decides |
| `Literals.KeyLessTotal` | shared/cel/predicate_render.go:762-796 | the order of map keys is a strict total order across types, so the printed order is one |
| `Literals.KeyLessMeans` | shared/cel/predicate_render.go:762-796 | that order, spelled out: false before true, the smaller number, the string that comes before; bool, int, uint, string |
| `Literals.MapPrintsInOrder` | shared/cel/predicate_render.go:762-796 | of two keys of a map the one that comes before is printed earlier, each followed by its own value |
| `Literals.LiteralReadsBack` | shared/cel/predicate_render.go:674-760 | every value text can carry, nested lists and maps included, evaluates back to itself from its literal, in any scope |
| `Literals.CarriesExactly` | shared/cel/predicate_render.go:674-760 | a value has a literal if and only if nothing in it, at any depth, is of a kind without one |
| `CelLaws.ConnectivesExactly` | shared/cel/predicate_render.go:41-43 | an operand that decides a conjunction or a disjunction does so whatever the other is, an error included, and otherwise both are needed |
| `CelLaws.QuantifiersExactly` | shared/cel/predicate_render.go:41-43 | one element refutes all() or meets exists() whatever the others give, errors included, and the other answers need every element; exists_one() needs a truth of every element |
| `Literals.LiteralMentionsNothing` | shared/cel/predicate_render.go:674-760 | a literal mentions no identifier |
| `Render.FreshIdent` | shared/cel/predicate_render.go:647-665 | the wrapping variable is mentioned nowhere in the expression |
| `Render.InComprehensionSame` | shared/cel/predicate_render.go:639-645 | `[0].map(v, e)[0]` gives what `e` gives, error included, in every context |
| `Render.KeyIsStable` | shared/cel/predicate_render.go:409-432 | an expression that reads nothing open evaluates alike at the Keeper and in the full context, whatever the open registers and the variables in scope |
| `Render.ClosedReadIsStable` | shared/cel/predicate_render.go:551-569 | the Keeper's value of a closed read is the value the original reads there |
| `Render.SubstitutedEvaluates` | shared/cel/predicate_render.go:571-578 | the substituted term evaluates to the Keeper's outcome, an error to an error |
| `Render.PresenceEvaluates` | shared/cel/predicate_render.go:580-591 | the substitute for `has()` of a closed read gives what `has()` gave |
| `Render.RenderPreservesMeaning` | shared/cel/predicate_render.go:484-603 | for every expression without a bare `register`, every host, every scope and every value of the open registers, the rewritten tree gives on the Soul what the original gives in the full context, through the logical operators, `?:`, `has`, `default` and comprehensions |
| `Render.NoResidue` | shared/cel/predicate_render.go:798-809 | the rewritten tree reads nothing of the context outside the open set |
| `Render.ReadlessUnchanged` | shared/cel/predicate_render.go:486-549 | an expression that reads nothing outside the open set is left as it is and never refused |
| `Render.ResolvesIsValueFree` | shared/cel/predicate_render.go:177-192 | the rewrite changes the tree exactly when the tree reads the context outside the open set, so the answer needs no host |
| `Render.ContextReadsValueFree` | shared/cel/predicate_render.go:439-462 | what is read depends on the tree and the open names, not on any host's values |
| `Render.ReadsExactly` | shared/cel/predicate_render.go:434-462 | a name is listed as read if and only if some site reads a root or a register outside the open set under it, no variable hiding it |
| `Render.PrintedReadsOccur` | shared/cel/predicate_render.go:551-578 | the reads whose values are printed are subexpressions of the predicate, each in its own scope and closed there |
| `Render.RefusedExactlyOverValues` | shared/cel/predicate_render.go:674-713 | a rendering is refused if and only if one of those reads has on this host a value without a literal |
| `Render.NakedExactly` | shared/cel/predicate_render.go:465-482 | a bare `register` is found if and only if the identifier stands somewhere without a field after it and no variable hides it |
| `Render.OpenExactly` | shared/cel/predicate_render.go:409-432 | something open is read if and only if some site reads an open register, `register` itself, or a variable from outside that the expression does not bind again |
| `Render.ClosedExactly` | shared/cel/predicate_render.go:551-569 | a read is resolved whole if and only if it goes down to a root of the context or to a register that is not open, and no key on the way reads anything open |
| `Render.CompilesExactly` | shared/cel/predicate_render.go:125-136 | what the compiler takes: has() of a field, default() of a field or a name, no where-call, everywhere in the tree |
| `Render.GroupingReads` | shared/cel/predicate_render.go:267-316 | grouping reads what the tree read |
| `Render.RenderedPredicateIsEquivalent` | shared/cel/predicate_render.go:113-175 | whatever `RenderPredicate` sends, wrapped or not, is accepted by the Soul, equivalent to what was written, and never a residual reference; `resolved` says exactly whether the context is read |
| `Render.RenderedExactly` | shared/cel/predicate_render.go:113-175 | which predicate is rendered, and as what: exactly when it compiles, names no bare `register`, has a literal for every value it prints, and the Soul takes the printed text or, where something was substituted, the wrapped one; every other case and its refusal |
| `Grouping.GroupingIsPrintable` | shared/cel/predicate_render.go:255-339 | no unary call or negative literal stands directly under a unary, a select, an index or a member call |
| `Grouping.GroupingSame` | shared/cel/predicate_render.go:255-316 | the grouped tree evaluates as the tree did |
| `Grouping.PrintableUnchanged` | shared/cel/predicate_render.go:255-339 | a tree that needs no grouping is left as it is |
| `Printing.ExprReads` | shared/cel/predicate_render.go:249-266 | every tree that has no sign where an operand is expected is parsed from its text, whatever closes it, up to signs that join a numeral |
| `Printing.RereadExactly` | shared/cel/predicate_render.go:255-266 | reading back changes a tree exactly when it negates a numeral |
| `Printing.GroupedSurvives` | shared/cel/predicate_render.go:255-339 | a grouped tree survives print-then-parse if and only if it negates no numeral |
| `Printing.SurvivesExactly` | shared/cel/predicate_render.go:255-339 | any tree, grouped or not, survives print-then-parse if and only if no sign stands where an operand is expected and it negates no numeral |
| `Printing.ReadableMeansTheSame` | shared/cel/predicate_render.go:249-266 | and where only a numeral is negated it still means what it meant |
| `Printing.RereadSame` | shared/cel/predicate_render.go:255-266 | what is read back evaluates as what was printed, always |
| `Printing.PrintedMeansTheSame` | shared/cel/predicate_render.go:249-316 | any tree, grouped, printed and parsed, means what it meant |
| `Printing.RenderedTextIsEquivalent` | shared/cel/predicate_render.go:113-175 | the predicate the Soul parses from a rendered text evaluates there as the author's does in the full context |
| `Printing.UngroupedIsMisread` | shared/cel/predicate_render.go:258-264 | without grouping, a double unary is dropped and a sign slips outside a selection |
| `HostsWhere.FreeIterVar` | shared/cel/hosts.go:414-455 | the filter's variable occurs nowhere, inside predicate literals included |
| `HostsWhere.FindIterVar` | shared/cel/hosts.go:414-455 | the loop finds that variable |
| `WhereCalls.VariableExactly` | shared/cel/hosts.go:414-455 | `__host`, or the first `__host<i>` that no identifier, field, declared variable or predicate of the text carries |
| `HostsWhere.QualifiedMeans` | shared/cel/hosts.go:248-300 | the qualified predicate, with the variable bound to a host, says what the predicate says of that host: bare names its fields, roots from the context, the predicate's own variables local |
| `WhereCalls.PredicateMeans` | shared/cel/hosts.go:248-345 | what a predicate says of a host: what it says as plain CEL where the host's fields are the names in scope, the five roots from around it and its own variables hiding fields |
| `WhereCalls.NameAsked` | shared/cel/hosts.go:248-300 | has() of such a name asks whether the host has the field, and default() of one falls back exactly where it has none |
| `HostsWhere.RewriteMeans` | shared/cel/hosts.go:124-246 | the rewritten tree means what was written, in every context and scope, where-calls chained or nested in comprehensions |
| `HostsWhere.WhereRewriteIsCorrect` | shared/cel/hosts.go:66-99 | the rewritten tree means what was written; where hosts are not allowed it is the written tree and has no hosts accessor anywhere in it |
| `HostsWhere.WhereKeepsExactly` | shared/cel/hosts.go:14-42 | a compiled where-call yields exactly the hosts its predicate holds for, in order, and errs exactly when the receiver is no collection or the predicate is undecided on a host |
| `HostsWhere.IndexedHostsAreNoAccessor` | shared/cel/hosts.go:349-365 | an index for the hosts passes the isolation check and reads them |
| `WhereCalls.TakesExactly` | shared/cel/hosts.go:66-110 | which texts the rewrite takes: where hosts are not allowed those that name none; of the others those whose where-calls, as far as it visits them, are well formed; one without any comes back as it is |
| `WhereCalls.RewriteExactly` | shared/cel/hosts.go:124-246 | a tree is rewritten if and only if every where-call visited is made on the hosts or on another one, with one literal that parses to a predicate without where-calls |
| `WhereCalls.AccessorsExactly` | shared/cel/hosts.go:349-379 | hosts are named if and only if `soulprint.hosts`, or a where-call on `soulprint`, stands somewhere |
| `WhereText.QualifyKeepsText` | shared/cel/hosts.go:248-300 | qualifying the names of a predicate changes nothing about how its text is read back |
| `WhereText.RewriteKeepsText` | shared/cel/hosts.go:100-105 | the rewritten text can be read back exactly when the text and every predicate in it can |
| `WhereText.WhereTextSurvivesExactly` | shared/cel/hosts.go:66-110 | what the compiler parses is the rewritten tree if and only if the text and every predicate in it survive printing |
| `WhereText.CompiledTextIsCorrect` | shared/cel/hosts.go:66-110 | what is compiled, as text, means what was written, in every context, where no sign stands as an operand in the text or in a predicate |
| `WhereText.MisreadIsCompiled` | shared/cel/hosts.go:100-105 | a predicate whose filter is compiled from a text that reads back as another tree |
| `WhereText.MisreadKeepsHost` | shared/cel/hosts.go:100-105 | and a host it keeps although the predicate as written errs on it |
| `Reads.Visitor.Visit` | shared/cel/varrefs.go:62-84 | one visit adds to every tracked root the counts and fields of the tree |
| `Reads.PredicateReads` | shared/cel/varrefs.go:52-99 | each root's fields and wholeness; no text reads nothing, text that does not parse reads all |
| `Reads.VisitAdds` | shared/cel/varrefs.go:62-84 | a visit adds the tree's own counts, whatever was counted before |
| `Reads.CountsAccount` | shared/cel/varrefs.go:52-99 | over the whole tree the selects never outnumber the identifiers, and match them exactly when every occurrence names a field |
| `Reads.WholeIsExact` | shared/cel/varrefs.go:52-99 | `Whole` is false exactly when a field is named off every occurrence of the root |
| `Occurrences.FieldsExactly` | shared/cel/varrefs.go:52-99 | a field is reported of a root if and only if some node selects it there, on `vars` an index by a literal included |
| `Reads.ReadsDetermineValue` | shared/cel/varrefs.go:17-51 | contexts that agree on the fields read give one value or error: an expression is a function of what it reads |
| `Reads.NarrowingIsSound` | shared/cel/varrefs.go:17-51 | cutting any number of roots down to the fields read, or to more, changes no value or error; on `register` wherever every occurrence names a field |
| `Reads.WholeReadMissedExactly` | shared/cel/varrefs.go:52-99 | a whole read goes unreported if and only if the selects reach the identifiers and fall short of accounting for each; a report of one is never false |
| `Reads.RegisterWholeReadMissed` | shared/cel/seal.go:393-409 | on `register` the counts miss a whole read, and narrowing then loses data |
| `HostScope.JudgeRoot` | shared/cel/host_scope.go:332-361 | the verdict on one root with per-host names, the least name reported whatever the listing order |
| `HostScope.LeastName` | shared/cel/host_scope.go:343-360 | the name reported is the least of those hit |
| `HostScope.GuardHostScope` | shared/cel/host_scope.go:299-399 | the guard's verdict on a tree, loop variables shadowing the roots |
| `HostScope.GuardAnswers` | shared/cel/host_scope.go:299-399 | the guard's answer read off the tree, in both directions: which root is touched, whole or by which name, and acceptance when none is |
| `HostScope.HostFreeIsInvariant` | shared/cel/host_scope.go:299-399 | an expression the guard accepts in a host-free context evaluates alike on any two hosts |
| `HostScope.HostFreeStancesAgree` | shared/cel/host_scope.go:231-241 | corollary: all host-free contexts with the same name lists accept the same expressions |
| `Seal.SealVisitor.Visit` | shared/cel/seal.go:284-309 | one visit adds the addresses, identifiers, vault calls and `vars` counts of the tree |
| `Seal.CollectSealReads` | shared/cel/seal.go:272-310 | what an expression reads, nothing for text that does not parse |
| `Seal.SealIsMonotone` | shared/cel/seal.go:315-338 | corollary: more sources never unseal an expression |
| `Seal.FieldsAreAddrs` | shared/cel/seal.go:284-309 | every field counted off a root is an address collected |
| `Occurrences.SealedExactly` | shared/cel/seal.go:268-338 | a tree is sealed, exactly: a Vault function is called, a name tainted whole or a tainted field stands in it, or `vars` is read whole while a field of it is tainted |
| `Occurrences.AddrsExactly` | shared/cel/seal.go:274-309 | an address is collected if and only if some node reads it |
| `Occurrences.IdentsExactly` | shared/cel/seal.go:284-309 | a name is collected if and only if some node carries it |
| `Occurrences.SecretWithoutVault` | shared/cel/seal.go:311-338 | the second form, in which a lone Vault call does not seal: two of them do, and with one at most the tainted reads alone decide |
| `Seal.UnsealedIsSecretFree` | shared/cel/seal.go:268-338 | an unsealed tree, as it is evaluated, has one value whatever Vault answers and whatever the tainted fields and bindings hold; on `vars` by select, literal index, computed index or whole, on other roots where each read names a field |
| `Seal.IndexedRootUnsealed` | shared/cel/seal.go:421-425 | an index into another root is not sealed although its value is the secret's |
| `SealDeep.UnsealedByNameIsSecretFree` | shared/cel/seal.go:274-409 | the same with secrets one level down: `register.<name>`, `register.hosts.<name>`, `incarnation.<field>` and `incarnation.state.<field>` |
| `SealWhere.VerdictsAgreeExactly` | shared/cel/seal.go:268-310 | the rewrite never unseals, and the verdict on the text is that on the tree compiled from it if and only if the text is sealed or the filter of no predicate in it is |
| `SealWhere.AgreesUnlessPredicateSealed` | shared/cel/seal.go:268-310 | where the fields a predicate reads off the host go by names that are no secret sources: if and only if the text is sealed or no predicate in it is, as written |
| `SealWhere.CompiledIsSecretFree` | shared/cel/seal.go:268-338 | unsealed text with no sealed filter in it means the same under any two contexts that differ only in secrets |
| `SealWhere.PredicateSecretUnseen` | shared/cel/seal.go:272-310 | an unsealed where-call that picks its hosts by a tainted field |
| `Interpolation.HostPredicateReads` | shared/cel/varrefs.go:102-111 | the reads of a predicate with its where-calls inlined, and of the text as it stands where they cannot be |
| `Interpolation.PlainTextScanned` | shared/cel/varrefs.go:102-111 | text without a where-call, or with one that cannot be rewritten, is scanned as it stands |
| `Interpolation.SignlessTextScanned` | shared/cel/varrefs.go:102-111 | and rewritten text as the tree the rewrite made, where no sign stands as an operand |
| `Interpolation.InlinedNarrowingIsSound` | shared/cel/varrefs.go:102-150 | cutting the roots down to those reads keeps what the text as written means, the predicates inside its where-calls included |
| `Interpolation.InterpolationReads` | shared/cel/varrefs.go:113-158 | the union over the blocks of a string; a string that cannot be scanned reads all |
| `Interpolation.SegmentReadsExactly` | shared/cel/varrefs.go:113-158 | a field is in the union, or the root read whole, if and only if some block reads it so |
| `Interpolation.SharedNarrowingIsSound` | shared/cel/varrefs.go:113-158 | cutting the roots down to the union keeps what every block means |
| `Interpolation.SealReadsOf` | shared/cel/seal.go:248-266 | what the blocks of a string read, summed up block by block |
| `Interpolation.SealedExactly` | shared/cel/seal.go:248-270 | a string is sealed if and only if one of its blocks is |
| `Interpolation.UnsealedTextIsSecretFree` | shared/cel/seal.go:248-338 | a string that is not sealed means the same, block by block, under any two contexts that differ only in secrets |
| `CompileCache.KeysAgreeExactly` | shared/cel/engine.go:460-494 | when two keys are equal, over all names and text without tag bytes |
| `CompileCache.KeyMergesOnlyContexts` | shared/cel/engine.go:460-512 | where no list is the single empty name, keys are equal if and only if the requests differ at most in which context without `compute` and which host-free context they have |
| `CompileCache.MergedCompileAlike` | shared/cel/engine.go:514-568 | such requests compile alike |
| `CompileCache.BuildProgram` | shared/cel/engine.go:514-568 | the guards and the compiler in their order |
| `CompileGuards.OkExactly` | shared/cel/engine.go:514-568 | a program comes back if and only if no guard applies, the rewrite succeeds and the environment yields it, the `compute` and host guards stated on the tree |
| `CompileGuards.CompiledIgnoresCompute` | shared/cel/scope.go:208-254 | a program compiled where there is no `compute` comes from a text whose meaning does not depend on it, where-predicates included |
| `CompileGuards.OtherTextIsUntouched` | shared/cel/scope.go:214-237 | a text that does not name `compute`, or whose loop binds it, is answered as where there is one |
| `CompileCache.EmptyNamesAlias` | shared/cel/host_scope.go:231-241 | no per-host name and one empty one have one key |
| `CompileCache.EmptyNameMatters` | shared/cel/host_scope.go:231-241 | and the guard tells them apart |
| `CompileCache.Engine.LoopEnv` | shared/cel/engine.go:406-436 | the environment of exactly these loop names, cached or not; a refused extension is passed on and not kept |
| `CompileCache.Engine.Compile` | shared/cel/engine.go:460-512 | hit or miss, the uncached compiler's answer to this very request, on any requests among which one key means one answer; refusals are not cached |
| `CompileCache.Engine.Program` | shared/cel/eval.go:101-111 | the environment first and then the program: the same answer, a refused environment being a refusal |
| `CompileCache.Engine.Reset` | shared/cel/engine.go:591-596 | both caches empty, the engine as good as new |
| `CompileRuns.ActKeepsSound` | shared/cel/engine.go:406-596 | every lookup, compilation or insert of an environment or a program, and every reset, keeps all that is cached or in flight sound |
| `CompileRuns.EveryAnswerIsHonest` | shared/cel/engine.go:406-512 | from an empty engine on, in every interleaving of any number of callers through both caches, every answer is the uncached compiler's |
| `CompileRuns.HonestExactly` | shared/cel/engine.go:406-512 | of any set of requests: all runs are honest if and only if among those that get an environment one key means one answer, and a shared environment makes no difference |
| `CompileRuns.SharedKeyIsServed` | shared/cel/engine.go:488-512 | of two requests with one key, a run serves the program of the one to the other |
| `CompileRuns.SharedEnvIsUsed` | shared/cel/engine.go:406-436 | of two requests whose loop names join alike, a run compiles the one in the environment of the other |
| `CompileRuns.UnspelledNameIsServed` | shared/cel/host_scope.go:231-241 | a run from the empty engine whose last answer the uncached compiler refuses |
| `VaultRefs.RefIsLongestWord` | shared/audit/mask.go:97-109 | a reference is found wherever the pattern matches, with its longest match |
| `VaultRefs.MaskSplits` | shared/audit/mask.go:125-139 | masking may be done in two parts wherever no reference crosses the cut |
| `VaultRefs.MaskLeftmost` | shared/audit/mask.go:125-139 | the leftmost reference is replaced at its full length, and what follows it is masked in turn |
| `VaultRefs.NoRefUnmasked` | shared/audit/mask.go:125-139 | a text without a reference is left as it is |
| `VaultRefs.ClassesExactly` | shared/audit/mask.go:97-109 | the characters of a mount and of a path, by code |
| `MaskStream.RefTailGrowable` | shared/audit/mask.go:201-211 | whether a marker may still grow into a reference |
| `MaskStream.SafeMaskSplit` | shared/audit/mask.go:173-194 | how much may be written now |
| `MaskStream.SplitExactly` | shared/audit/mask.go:173-194 | where the split is: at the open reference, or at the end of the buffer once that is too long to carry; without one, before the longest end that begins a marker |
| `MaskStream.HeldBackBeginsMarker` | shared/audit/mask.go:173-194 | corollary: without a reference in progress what is held back is the longest end of the buffer that begins a marker |
| `MaskStream.Carry.Write` | keeper/internal/console/recording.go:473-498 | what is written and what is kept of one chunk; the carry stays within `MaxMaskCarryBytes` |
| `MaskStream.Carry.Flush` | keeper/internal/console/recording.go:500-514 | the rest is masked and written at the end |
| `MaskStream.Record` | keeper/internal/console/recording.go:473-514 | a whole stream, chunk by chunk |
| `MaskStream.StreamIsFaithful` | shared/audit/mask.go:157-211 | in every chunking in which no release parts a reference from its separator, the output follows the stream up to its first masked piece and holds no reference |
| `MaskStream.NothingCompleteIsWritten` | shared/audit/mask.go:157-194 | for every stream and chunking in which the release does not fire, no complete reference is written |
| `MaskStream.PartedIsWritten` | shared/audit/mask.go:167-181 | a reference parted by a release is written in full |
| `MaskStream.WrittenExactlyWhenParted` | shared/audit/mask.go:167-194 | for every stream and chunking, releases included, a complete reference is written if and only if a release parts one the masker comes to from its separator |
| `MaskStream.CleanStreamIsChunkFree` | shared/audit/mask.go:157-194 | in every chunking in which no release cuts a reference, a stream without a marker strictly inside another match is written as if masked at once |
| `MaskStream.UncutCutsNothing` | shared/audit/mask.go:167-181 | a release cuts a reference in some chunking only where one would in the stream up to that point |
| `MaskStream.ShortNeverFires` | shared/audit/mask.go:152-157 | a stream of references within the bound fires no release, however it is cut up |
| `MaskStream.ChunkFreeExactly` | shared/audit/mask.go:157-194 | of any stream: every chunking gives the mask of the whole if and only if no marker starts strictly inside another match and no release, wherever a chunk ends, cuts a reference |
| `MaskStream.ChunkFreeExactlyWhenClean` | shared/audit/mask.go:157-194 | of a stream of references within the bound: every chunking gives the mask of the whole if and only if no marker starts strictly inside another match |
| `MaskStream.ReleaseCutsMarker` | shared/audit/mask.go:167-181 | a release lets a short reference through |
| `IndexPaths.NormalizeIsGeneralized` | shared/audit/seal_hooks.go:39-44 | corollary: the shortcut for paths without a bracket changes nothing |
| `IndexPaths.UnindexedUnchanged` | shared/audit/seal_hooks.go:31-44 | a path in which no index segment stands is its own general form |
| `IndexPaths.IndexGeneralizes` | shared/audit/seal_hooks.go:31-59 | a concrete index anywhere in any path becomes `[]`, and what is around it is normalised on its own |
| `IndexPaths.IndexIsForgotten` | shared/audit/seal_hooks.go:31-44 | paths that differ in one index have one general form |
| `IndexPaths.KeyGeneralizes` | shared/audit/seal_hooks.go:46-55 | joining a key and normalising commute |
| `MaskLayered.ZeroIsMaskSecrets` | shared/audit/mask_schema.go:97-109 | with zero options the layered walk is `MaskSecrets` if and only if no nil map is reached inside the payload |
| `MaskLayered.NestedNilMapDiffers` | shared/audit/mask_schema.go:104-143 | such a payload, and both results |
| `MaskLayered.StricterHides` | shared/audit/mask_schema.go:121-255 | options that mark more paths give the same tree with more cells hidden |
| `MaskLayered.AddingOptionsHides` | shared/audit/mask_schema.go:97-109 | adding a schema or sealed paths only hides more |
| `MaskLayered.SealedIsIdempotent` | shared/audit/mask_schema.go:104-143 | masking what is masked changes nothing |
| `MaskLayered.HiddenIsUnread` | shared/audit/mask_schema.go:121-255 | payloads that differ inside a masked cell, at any depth, in typed containers too, are masked alike |
| `MaskLayered.MaskedAlikeExactly` | shared/audit/mask_schema.go:121-255 | two payloads are masked alike if and only if they agree wherever nothing covers, whatever they hold in however many covered cells |
| `MaskLayered.UncoveredShows` | shared/audit/mask_schema.go:121-255 | a cell nothing covers comes through as its own value is masked |
| `MaskLayered.SealedExactly` | shared/audit/mask_schema.go:121-255 | the whole output, cell by cell: what is there, what is hidden, and what every other cell shows; a text comes through if and only if no part of it matches the reference pattern |
| `MaskLayered.CoveredExactly` | shared/audit/mask_schema.go:45-59 | a cell is covered if and only if it or one above it is declared, listed exactly or in general form, or has a sensitive key |
| `MaskLayered.PathSetExactly` | shared/audit/mask_schema.go:45-59 | a set of paths declares a cell by its path or by its path without the indices |
| `MaskLayered.NoReferenceShows` | shared/audit/mask.go:295-300 | no text anywhere in the output holds a vault reference |
| `MaskLayered.PlainExactly` | shared/audit/mask.go:236-300 | the same of the two-layer walk: cell by cell, what it shows and hides |
| `MaskLayered.NoReferenceShowsPlain` | shared/audit/mask.go:295-300 | and no text in its output holds a reference |
| `MaskLayered.GeneralIsNormalized` | shared/audit/seal_hooks.go:31-59 | the normalised path of a cell is its address with every index dropped |
| `MaskLayered.GeneralEntryHidesEveryIndex` | shared/audit/mask_schema.go:45-59 | a generalised entry, of the seal set or a path-set schema, hides the cell at every index |
| `MaskLayered.MaskSecrets` | shared/audit/mask.go:236-249 | the two-layer walk of a payload, whatever order its keys come in |
| `MaskLayered.MaskValue` | shared/audit/mask.go:258-291 | the same of any value |
| `MaskLayered.MaskTexts` | shared/audit/mask_schema.go:213-228 | the walk of a `map[string]string` |
| `MaskLayered.MaskLines` | shared/audit/mask_schema.go:229-234 | the walk of a `[]string` |
| `MaskLayered.MaskUnsealedValue` | shared/audit/mask_schema.go:182-242 | the layered walk of a value whose own path is unmarked |
| `MaskLayered.MaskMapLayered` | shared/audit/mask_schema.go:121-143 | one map level: declared or sealed paths first, key names next |
| `MaskLayered.MaskSecretsSealed` | shared/audit/mask_schema.go:104-109 | the entry point; nil stays nil |
| `CanonicalJson.AppendString` | sdk/schema/canonical.go:150-178 | the quoted form with the minimal escapes |
| `CanonicalJson.EscapesExactly` | sdk/schema/canonical.go:150-178 | the escapes, character by character, by code |
| `CanonicalJson.StringReadsBack` | sdk/schema/canonical.go:146-178 | every string comes back from its quoted form (section 7 of RFC 8259), whatever follows |
| `CanonicalJson.ReadsBack` | sdk/schema/canonical.go:90-144 | a reader of the canonical form recovers every emitted tree, whatever follows it |
| `CanonicalJson.DocumentReadsBack` | sdk/schema/canonical.go:90-144 | and reads a document to its end |
| `CanonicalJson.EmissionIsInjective` | sdk/schema/canonical.go:11-23 | two trees are emitted alike if and only if they are one tree |
| `CanonicalJson.CanonicalIsEmitted` | sdk/schema/canonical.go:90-144 | of bare trees: bytes that read back and re-emit unchanged are exactly those the emitter can produce |
| `CanonicalJson.CanonicalDocumentExactly` | sdk/schema/canonical.go:75-88 | of any document type: bytes pass if and only if they are what some document is written as, and they read back as that document |
| `CanonicalJson.MarshalAlike` | sdk/schema/canonical.go:11-23 | two documents are written alike if and only if they are written as one tree |
| `CanonicalJson.SortKeys` | sdk/schema/canonical.go:122-127 | the sorted keys are one list whatever order the map hands them out in |
| `CanonicalJson.KeysInOrder` | sdk/schema/canonical.go:122-140 | of two keys of one object the one that comes before stands earlier in the bytes, with its value |
| `CanonicalJson.AppendCanonical` | sdk/schema/canonical.go:90-144 | the emitter appends exactly the canonical bytes, and fails exactly when some number literal is refused |
| `CanonicalJson.EmittableExactly` | sdk/schema/canonical.go:90-109 | a tree is emitted if and only if no number literal at any depth in it is refused |
| `CanonicalJson.AppendArray` | sdk/schema/canonical.go:110-121 | the same of an array |
| `CanonicalJson.AppendObject` | sdk/schema/canonical.go:122-140 | the same of an object |
| `Version.ParsesExactly` | sdk/schema/canonical.go:184-218 | a string parses to a version if and only if it is that version printed and every segment fits an int |
| `Version.GrammarIsPrinted` | sdk/schema/validate.go:496-520 | a bound matches the grammar if and only if it is some version printed, of any size |
| `Version.ParseVersion` | sdk/schema/canonical.go:186-218 | the one-pass loop does so |
| `Version.ParseSegment` | sdk/schema/canonical.go:198-210 | one segment: digits, no leading zero, within an int |
| `Version.ValidateDeprecated` | sdk/schema/validate.go:496-539 | the issues raised on a deprecation |
| `Version.IssuesExactly` | sdk/schema/validate.go:496-539 | which issue is raised when, each in both directions, and in what order |
| `Version.NoIssueExactly` | sdk/schema/validate.go:496-539 | corollary: of any deprecation: no issue if and only if both bounds match the grammar and one does not fit an int, or the window is met, or the lower minor makes the sum wrap |
| `Version.NoIssueKeepsPolicy` | sdk/schema/deprecation.go:60-71 | corollary: so no issue means a higher major or two more minors, unless the lower minor is that great |
| `Version.WrappedWindowPasses` | sdk/schema/deprecation.go:63-71 | there a window that runs backwards passes |
| `Version.UnparsedBoundPasses` | sdk/schema/validate.go:522-526 | a bound that matches the grammar and does not fit an int, whichever of the two, is never compared |
| `Trailer.NumberReadsBack` | sdk/schema/trailer.go:71 | the big-endian length reads back |
| `Trailer.NumberIsSpelledOnce` | sdk/schema/trailer.go:135-137 | and its eight bytes are the only spelling of it |
| `Trailer.AppendedReadsBack` | sdk/schema/trailer.go:131-139 | what was appended is what is read, and it begins where the artifact ended |
| `Trailer.FoundIsAppended` | sdk/schema/trailer.go:109-129 | a file with a trailer is the artifact, the payload and its footer, byte for byte |
| `Trailer.ReadExactly` | sdk/schema/trailer.go:60-87 | a payload is read if and only if it is of an allowed size and the file is the artifact stamped with it |
| `Trailer.RestampReplaces` | sdk/schema/trailer.go:141-173 | stamping twice is stamping once with the later payload |
| `Trailer.StampedReadsBack` | sdk/schema/trailer.go:141-173 | a stamped file reads back and still begins with the artifact |
| `Trailer.VerdictExactly` | sdk/schema/trailer.go:141-173 | what cannot be stamped and for which of the four reasons, the fault of the payload before that of the file |
| `Trailer.File.WriteTrailer` | sdk/schema/trailer.go:144-173 | the file in place: stamped, or untouched with the reason |
| `Backoff.NextDelay` | sdk/cloudutil/retry.go:50-62 | the delay before a retry |
| `Backoff.DelayWithinCeiling` | sdk/cloudutil/retry.go:50-62 | no delay is negative or above the ceiling |
| `Backoff.DelayIsPower` | sdk/cloudutil/retry.go:50-62 | in closed form: the first delay times the factor once per retry, and the ceiling from where it is reached |
| `Backoff.DefaultBudget` | sdk/cloudutil/retry.go:25-47 | the default config waits 91 seconds in all |
| `Backoff.ComputeBudget` | sdk/cloudutil/retry.go:41-47 | the sum of the delays between the attempts |
| `Backoff.DefaultDelays` | sdk/cloudutil/retry.go:25-34 | one second, doubling, thirty at most |
| `Backoff.WaitBackoffFor` | sdk/cloudutil/wait.go:43-52 | the budget is covered, and with one attempt fewer it is not |
| `WaitPoller.FateIsFirstDecision` | sdk/cloudutil/wait.go:136-147 | a machine's fate is that of its first decisive answer, an error outranking readiness |
| `WaitPoller.DecisionStands` | sdk/cloudutil/wait.go:136-147 | and never changes after |
| `WaitPoller.ResultTells` | sdk/cloudutil/wait.go:136-147 | a result is read off the probe: the error or the readiness of the first decisive answer, never both, and neither while none has decided |
| `WaitPoller.TrackSaw` | sdk/cloudutil/wait.go:166-181 | what was seen of a waiting machine: the last state it named, and whether two of them differ |
| `WaitPoller.DeadlineReports` | sdk/cloudutil/wait.go:285-298 | a deadline counts exactly those that became ready and lists exactly those nothing has decided about, in order |
| `WaitPoller.NoneLost` | sdk/cloudutil/wait.go:285-298 | ready, failed and listed as pending add up to all |
| `WaitPoller.WaitingExactly` | sdk/cloudutil/wait.go:120-164 | none waits any more if and only if every machine has a decisive answer |
| `WaitPoller.ProbeRound` | sdk/cloudutil/wait.go:136-147 | one round in any order brings every machine to its fate of that round |
| `WaitPoller.NewDeadlineError` | sdk/cloudutil/wait.go:285-298 | the error lists those pending, in order, with what was seen of them |
| `WaitPoller.WaitUntilReady` | sdk/cloudutil/wait.go:120-164 | every return path carries every machine in order with what its answers say; no error means every machine has an answer; the deadline comes after exactly `MaxAttempts` rounds and `Budget()` of sleep, before a cancellation |
| `WaitPoller.WaitForBudget` | sdk/cloudutil/wait.go:40-52 | at the deadline of a budgeted wait the time slept covers the budget and no machine is lost |
| `ConfirmDestroy.DeletesAccountedFor` | sdk/cloudutil/destroy.go:90-146 | one delete first, and one more per slept-through round that reported the deletion failed |
| `ConfirmDestroy.ClosedIsLeftAlone` | sdk/cloudutil/destroy.go:101-119 | a closed machine is never probed or deleted again |
| `ConfirmDestroy.GoneWasReported` | sdk/cloudutil/destroy.go:107-111 | gone only through a probe that said so |
| `ConfirmDestroy.HistoryByRounds` | sdk/cloudutil/destroy.go:101-146 | the calls about one machine, round by round: a probe while nothing has decided, then a delete when its deletion failed |
| `ConfirmDestroy.ResultTells` | sdk/cloudutil/destroy.go:103-129 | a result is read off the probe and the delete calls: gone or failed as the first decisive answer says, gone first, and the error of the last delete while none has |
| `ConfirmDestroy.DeadlineReports` | sdk/cloudutil/destroy.go:219-236 | a deadline counts exactly those gone and lists exactly those nothing has decided about, in order, with the last state and refusal |
| `ConfirmDestroy.NoneLost` | sdk/cloudutil/destroy.go:219-236 | gone, failed and listed as present add up to all |
| `ConfirmDestroy.ProbeOne` | sdk/cloudutil/destroy.go:103-118 | one answer: gone first, then an error, then a failed deletion |
| `ConfirmDestroy.ProbeRound` | sdk/cloudutil/destroy.go:102-119 | one probe for each machine still present and none for another, and the deletes to issue again |
| `ConfirmDestroy.Reissue` | sdk/cloudutil/destroy.go:143-145 | each refused machine is deleted once more and its error replaced |
| `ConfirmDestroy.CloseOut` | sdk/cloudutil/destroy.go:125-129 | a machine never confirmed gone reports its last delete error |
| `ConfirmDestroy.NewDeadlineError` | sdk/cloudutil/destroy.go:219-236 | the error lists those present, in order, with what was seen of them |
| `ConfirmDestroy.DestroyAll` | sdk/cloudutil/destroy.go:76-148 | over every run: what was asked of the provider about each machine, in order, is its history; every machine is reported; rounds and sleep are exact |
| `ReleaseGate.NeedsClosure` | scripts/check-release-gate.py:498-514 | the stack walk ends, cycles or not, with exactly the reachable jobs and every need that is no job |
| `ReleaseGate.PathHygiene` | scripts/check-release-gate.py:517-548 | exactly the problems there are: one for each job of the path that tolerates failure or drops its needs |
| `ReleaseGate.StepHygiene` | scripts/check-release-gate.py:682-697 | exactly the problems there are: one for each step that runs the target under a condition or tolerates its failure |
| `ReleaseGate.TargetProblems` | scripts/check-release-gate.py:665-697 | exactly the problems there are: no gated job that runs the target, or what keeps one from running it in earnest |
| `ReleaseGate.EarlyJobs` | scripts/check-release-gate.py:711-727 | exactly the jobs that neither run a gate target nor need one that does |
| `ReleaseGate.Check` | scripts/check-release-gate.py:637-727 | a problem is reported if and only if it is there, and none in exactly the workflows accepted |
| `ReleaseGate.AcceptedExactly` | scripts/check-release-gate.py:637-727 | which workflows are accepted, in terms of their jobs: one publisher, a sound path to it, every gate target on that path in earnest, and nothing outside the gate before it |
| `ReleaseGate.StepKeepsInv` | scripts/check-release-gate.py:517-525 | corollary: what every start, skip, step and conclusion of a run keeps; the step of the inductions above a run |
| `ReleaseGate.NeedHolds` | scripts/check-release-gate.py:517-548 | a job with no status function in its `if:` starts only over a succeeded need, if the needed job tolerates no failure |
| `ReleaseGate.NeedSlips` | scripts/check-release-gate.py:517-548 | with either of the two it starts over a need that failed |
| `ReleaseGate.SkipSlips` | scripts/check-release-gate.py:517-548 | and with a status function over one that was skipped |
| `ReleaseGate.GateHolds` | scripts/check-release-gate.py:498-701 | in every run of an accepted workflow in which the publisher has started, all it needs has succeeded, and a target was run to success on that path if and only if a job there other than the publisher runs it |
| `ReleaseGate.PublisherAloneIsAccepted` | scripts/check-release-gate.py:665-680 | an accepted workflow, and a run of it that publishes with the target never run |
| `ReleaseGate.NothingBeforeTheGate` | scripts/check-release-gate.py:711-727 | no other job has started before some gate job concluded |
| `GreenRuns.GreenMeansGateExactly` | scripts/check-release-provenance.sh:12-21 | in all runs of a workflow, a run in which some job succeeded and every concluded job did means that every gate target ran, if and only if every job, or one it waits for, runs each target in earnest |
| `GreenRuns.GateRunnersDecide` | scripts/check-release-gate.py:703-727 | in an accepted workflow that comes down to the jobs that run gate targets |
| `GreenRuns.OneGateJobSuffices` | scripts/check-release-gate.py:703-727 | an accepted workflow with a single job for the whole gate is read right |
| `GreenRuns.OneGateIsGreen` | scripts/check-release-provenance.sh:77-93 | an accepted workflow, and a green run of it in which one gate job succeeded, nothing else has started and a gate target has not run |

## Left out

- cel-go itself: its parser, printer, type checker and limits. `Render` takes what the Soul accepts as a parameter; `Printing` has its own printer and parser of the rules that grouping is about, with every form that prints between brackets, binary operators included, as one bracketed form.
- Struct messages, and literals of types, timestamps, durations, bytes, NaN and negative zero: values text cannot carry in the model are refused.
- Map literals are iterated in one fixed order, which `Cel.Ops` leaves open; the Soul's own order is not covered.
- The text pre-filters (`containsIdentText`, `usesHostsAccessor`, the fallbacks by pattern) and names with a leading dot: the analyses are stated on trees.
- `VarView`, `lazyVars` and `vault.go`: `vars` is a plain map and `vault()` an arbitrary function.
- Seal.UnsealedIsSecretFree: on roots other than `vars` it asks that no read be a whole or an indexed one, because such reads are not sealed by the code.
- SealWhere.AgreesUnlessPredicateSealed: asks that no name a predicate reads off the host is itself a secret source, because the text would then be judged by a name the filter does not read; `SealWhere.VerdictsAgreeExactly` covers those.
- The scanner of `${...}` blocks: `Interpolation` takes the blocks as scanned.
- Interpolation.InlinedNarrowingIsSound: asks that no sign stands as an operand in text with a where-call, as `WhereText.CompiledTextIsCorrect` does.
- HostsWhere.WhereRewriteIsCorrect: leaves out where-calls and bare names inside map literals, which the rewrite copies and the compiler then rejects.
- CompileCache.KeysAgreeExactly: takes names and text without the bytes 0x00-0x07, which the key uses as tags.
- CompileRuns.EveryAnswerIsHonest: takes requests without those bytes and without a per-host list that is the single empty name, because `CompileRuns.UnspelledNameIsServed` is a run that is not honest otherwise.
- Cached programs are opaque values.
- WhereText.CompiledTextIsCorrect: asks that no sign stands as an operand, because the text then reads back as another tree, as `WhereText.MisreadIsCompiled` shows.
- Printing.RereadSame: supposes that numbers negate as numbers do and have no elements or member functions.
- The walk of typed containers by reflection, the regex-fallback alarm and its hooks, and the pattern of sensitive keys itself.
- Characters stand for bytes in text; timestamps of recorded chunks are left out.
- CanonicalJson.CanonicalDocumentExactly: the decoder and the document type are a parameter, of which it supposes that a document's own canonical bytes decode to a document written as the same tree.
- CanonicalJson.ReadsBack: of the test on number literals it supposes that it accepts only plain words, which every numeral of section 6 of RFC 8259 is.
- File descriptors, `ETXTBSY`, read errors and partial writes of the trailer.
- Floating-point rounding of delays, real clocks, elapsed times, progress messages and error texts; `Retry` itself and the environment variable for the budget.
- Unlimited attempts are seen through every finite prefix of the run, up to a horizon.
- Cancelled jobs: a job that concludes with anything but success has failed, and one cancelled before it started is left out; neither is green.
- GreenRuns.GreenMeansGateExactly: supposes needs without a cycle that all name jobs, without which the platform runs no workflow.
- YAML and shell parsing of the release checker, its checks on the apt mirror, on `RELEASING.md` and on the allowlist.
- The rest of the repository: event catalogues, pagination, documentation checks, failure classifiers and plugin wrappers.
