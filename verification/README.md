# A model of the solinv differs, readers and codecs

solinv compares two versions of a Solana program (by their Anchor IDLs, by their Anchor source, and by the conditions a native program rejects on), reads CPI logs, plants mutants and scores campaigns, and carries evidence in hand-written codecs. This project models the parts of it whose correctness is not visible from one branch, and proves what they promise. `dafny verify dfyconfig.toml` checks all of it.

| modules | what they model |
|---|---|
| `NativeSyntax`, `NativeRead`, `NativeSound`, `NativeCalls`, `NativeComplete`, `NativeLimits`, `NativeCallLimits` | the native check analyser: conditions as the text the reader splits, what it reads them as, their meaning in a world of accounts, fns with rejecting conditions and propagated calls; that what is read is true, that nothing that is a check is missed, and where neither holds |
| `Matching`, `IdlSlots`, `IdlRenames`, `IdlDiff`, `IdlEvidence`, `IdlFindings`, `IdlSilence`, `IdlProgram`, `IdlReport` | the IDL differ: flattening, the greedy pairing of renamed slots and the evidence it goes by, what is said of one instruction and when, what its silence means, the report of a program |
| `Trimming`, `CpiLog`, `CpiLines`, `CpiTree`, `CpiFrames`, `CpiReentry`, `CpiPrint` | the two readers of a CPI log and what each line says, the arena the tree is built in, what a frame records, the re-entry detector, the annotated tree |
| `Base64`, `Radix`, `Base58`, `Decimals`, `Seeds`, `Digests`, `LegacyItems` | canonical base64, base58 by carry propagation, integer seeds, FNV-1a, the legacy reader's inversion of `has_one` |
| `HandlerChecks`, `SourceRenames` | the source differ's counts of handler checks and its pairing of renamed instructions |
| `Mutants`, `Scores`, `Verdicts`, `Lint` | mutant plans and patches, campaign scores and verdicts, the seed linter's scanners |

Each loop of the source is a method proved equal to a specification function; what the source promises is then proved of that function. A program id is what a parser parameter makes of a word; SHA-256, the regular expression engine and case conversion are parameters; so is how an operand is spelled where the native reader's patterns see it and the conditions here do not (`NativeRead.Texts`). Scores are exact fractions.

In these places the code does not do, on every input, what it is there for. Each is stated with an input that shows it, and with the exact condition where the code decides one:

- `!(a || b && c)` in a rejecting condition is split on `&&` only, so the reader takes a check the code does not make (`NativeLimits.NegatedGroupExact`); `unlikely(!a && b)` loses its `!` with the hint (`NativeLimits.HintedGroupExact`).
- `!(vault.is_owned_by(x) || vault.is_owned_by(y))` is read as one check of the owner, against text that is no value of the program (`NativeLimits.TornOwner`): the pattern for one operand runs from its parenthesis to the end of the group. A negated `||` group is read soundly iff no pattern runs over it (`NativeLimits.TornGroupExact`); the same inside a hint (`NativeLimits.TornHintExact`).
- A fn named like an equality, whose body is not seen, is taken for one: sound iff it answers true of equal values only (`NativeLimits.NamedFnExact`). `!neq(a.key, b)` is read as the opposite of what it lets past (`NativeLimits.NeqNamed`).
- `sol_memcmp(a.key, b, n) != 0` is read as a comparison of keys whatever `n` is: sound iff `n` is at least 32 (`NativeLimits.MemcmpExact`).
- A helper's comparison with this program's id is carried up as one with what its parameter called `program_id` is passed: wrong iff that is another id, and not the key compared (`NativeCallLimits.ProgramIdParameter`). A name a helper compares with is read in the caller as the caller's: wrong iff it is no parameter, no constant and not `program_id` (`NativeCallLimits.LocalLeaks`).
- An account passed as an expression is carried up with the names in it unchanged, but for the one its text starts with. A helper's `pick(y)` is read in its caller as the caller's own: wrong iff `y` is neither a constant nor `program_id` (`NativeCallLimits.PassedExpression`), so also when it is the helper's parameter (`NativeCallLimits.PassedParameter`); and a name bound by a `let` is read as the one the fn was given (`NativeCallLimits.PassedLet`).
- A slot names those its `has_one` checks and seeds depend on inside one composite, and the IDL differ compares names. When one of them is paired into another composite the check can be lost in silence (`IdlSilence.PartedInSilence`); given silence, head keeps every check iff those slots stayed together (`IdlSilence.SilenceKeeps`).
- The IDL differ's warning that an instruction has fewer signers never fires when slot paths are unique (`IdlDiff.CountWarningNeverFires`); only a repeated path sets it off (`IdlDiff.CountWarningDuplicates`).
- The linter's scan for a bracket's partner does not know character literals: `'['` inside a group of square brackets, or `'"'`, hides the partner (`Lint.CharLiterals`, `Lint.CharLiteralExact`).
- A mutant whose match starts a line is given the line before as its own: the newline before it is not counted (`Mutants.LineExact`).
- A campaign that reaches nothing and requires nothing reached is scored 0, though it has no score: it passes only a bar of 0 or less (`Verdicts.GateExact`).
- A legacy `has_one` that names a slot outside its own struct level is dropped, and only then (`LegacyItems.HasOneKeptExactly`).

## Model

| member | source | states |
|---|---|---|
| NativeSyntax.SubstMeans | crates/solinv-static/src/native.rs:224-251 | evaluating a substituted condition outside is evaluating it with its parameters bound to the arguments' values |
| NativeRead.ReadConjuncts | crates/solinv-static/src/native.rs:204-213 | the loop tells flags from checks as the specification does |
| NativeRead.ReadPart | crates/solinv-static/src/native.rs:201-220 | one `\|\|` part gives atoms only when exactly one conjunct is not a flag |
| NativeRead.ReadParts | crates/solinv-static/src/native.rs:198-222 | the atoms of the parts, in order |
| NativeRead.AtomsOf | crates/solinv-static/src/native.rs:194-222 | the atoms of a rejecting condition, following one-expression fns to the bound, torn groups included |
| NativeSound.ComparedSound | crates/solinv-static/src/native.rs:309-342 | a rejected inequality that does not reject makes every atom read from it true, through nested memcmps over whole keys |
| NativeSound.FailsOnSound | crates/solinv-static/src/native.rs:267-288 | an operand that holds makes what its negation is read to check true, keys compared whole and no fn with a body seen taken for an equality by its name |
| NativeSound.InlineMeans | crates/solinv-static/src/native.rs:224-239 | inlining a one-expression fn keeps what the call means |
| NativeSound.RejectsNotSound | crates/solinv-static/src/native.rs:255-288 | De Morgan on negated conjunctions: when `!(e)` does not reject, what it is read to check holds |
| NativeSound.RejectsSound | crates/solinv-static/src/native.rs:253-305 | when a condition does not reject, what it is read to check holds |
| NativeSound.PartSound | crates/solinv-static/src/native.rs:200-220 | a false `\|\|` part with its flags true fails for its one check |
| NativeSound.ConditionSound | crates/solinv-static/src/native.rs:194-342 | condition soundness: if a condition is false, every atom read from it whose flags are true holds, for every condition the splits read as it is meant |
| NativeComplete.ComparedComplete | crates/solinv-static/src/native.rs:309-342 | an inequality with an account's key or owner, or a bare name, on either side is read, nested memcmps too, and when what is read holds the two sides are equal |
| NativeComplete.FailsOnComplete | crates/solinv-static/src/native.rs:267-288 | a flag, `is_owned_by` or equality of an account on a path is read from its negation, and when what is read holds so does it |
| NativeComplete.OwnerRead | crates/solinv-static/src/native.rs:274-277 | `!vault.is_owned_by(&crate::ID)` is read as exactly one owner check against `program_id` |
| NativeComplete.HoldingRead | crates/solinv-static/src/native.rs:255-288 | an operand that must hold and is a check, in parentheses, a hint, a conjunction or a followed one-expression fn, is read from its negation: at least one atom, and if all hold it holds |
| NativeComplete.RejectingRead | crates/solinv-static/src/native.rs:253-305 | the same of an operand that rejects: at least one atom, and if all hold it is false |
| NativeComplete.PartRead | crates/solinv-static/src/native.rs:200-220 | the same of one `\|\|` part, a check under any flags, and of its atoms whose flags are true |
| NativeComplete.PartReadAmong | crates/solinv-static/src/native.rs:194-222 | a part that is a check is read as it is alone, whatever the parts beside it are |
| NativeComplete.CheckedRead | crates/solinv-static/src/native.rs:194-342 | condition completeness: a condition whose parts are checks under flags is read, and when each atom read whose flags are true holds, the condition is false |
| NativeComplete.EqNameExact | crates/solinv-static/src/native.rs:118-120 | a fn is taken for an equality by its name iff that is `cmp_pubkeys`, or made of small letters and `_` and ends in `eq` or `_equal` |
| NativeComplete.IdentExact | crates/solinv-static/src/native.rs:145 | a text is a name iff it is made of ASCII letters, digits and `_`, and starts with no digit and no capital |
| NativeLimits.NegatedGroupExact | crates/solinv-static/src/native.rs:262-266 | a negated group of distinct signer checks is read soundly iff it has no `\|\|` or the split at `&&` leaves no check alone |
| NativeLimits.HintedGroupExact | crates/solinv-static/src/native.rs:160-190 | a hinted group with a leading `!` is read soundly iff the split at `&&` leaves no check alone |
| NativeLimits.MemcmpExact | crates/solinv-static/src/native.rs:309-342 | a memcmp read as a comparison of keys is sound iff it covers 32 bytes |
| NativeLimits.TornGroupExact | crates/solinv-static/src/native.rs:272-288 | a negated group joined by `\|\|` only, whose first operand is over accounts' places, is read soundly iff no pattern for that operand runs to the end of the group: for an owner check, iff the last operand's text does not end in `)` |
| NativeLimits.TornOwner | crates/solinv-static/src/native.rs:274-277 | a vault of either of two programs is read as one owner check against torn text, which is not sound |
| NativeLimits.TornHintExact | crates/solinv-static/src/native.rs:289-305 | operands joined by `&&` inside a hint are read soundly iff no pattern for the first inequality runs to the end, which it does only when the last operand's text ends in `)` |
| NativeLimits.NamedFnExact | crates/solinv-static/src/native.rs:278-283 | a fn named as an equality, its body not seen, is read soundly iff it answers true of equal values only |
| NativeLimits.NeqNamed | crates/solinv-static/src/native.rs:278-283 | `neq` is such a name, and read wrongly |
| NativeLimits.NeqSeen | crates/solinv-static/src/native.rs:256-261 | with its body seen `neq` is no exception: there are worlds of the kind condition soundness speaks of |
| NativeCallLimits.ProgramIdParameter | crates/solinv-static/src/native.rs:633-665 | the caller is said to have compared with the path or id a helper's parameter `program_id` is passed: some run that returns Ok shows it false iff that is neither this program's id nor the very key compared |
| NativeCallLimits.LocalLeaks | crates/solinv-static/src/native.rs:633-665 | the caller is said to have compared with the name a helper compares with: some run that returns Ok shows it false iff that name is not the helper's parameter, a constant or `program_id` |
| NativeCallLimits.PassedExpression | crates/solinv-static/src/native.rs:613-665 | the caller is said to check `pick` of its own `y`, where a helper passed on `pick(y)`: some run that returns Ok shows it false iff `y` is neither a constant nor `program_id` |
| NativeCallLimits.PassedParameter | crates/solinv-static/src/native.rs:613-665 | the input: `y` is the helper's parameter, in a program whose helpers name only parameters and constants |
| NativeCallLimits.PassedLet | crates/solinv-static/src/native.rs:613-628 | of a fn that passes `pick(y)` after a `let`: false of a run iff `y` is the name the `let` binds |
| NativeCalls.SubstVarMeans | crates/solinv-static/src/native.rs:351-353 | replacing the name a text starts with keeps what it means, when its other names mean the same inside and out |
| NativeCalls.PlacedMeans | crates/solinv-static/src/native.rs:613-628 | giving names their places in the account slices keeps what an atom says, both ways, when no name past the start of the account's text is bound by a `let` |
| NativeCalls.FrameLinked | crates/solinv-static/src/native.rs:633-665 | a callee sees each name it shares as the caller sees what was passed for it |
| NativeCalls.ThroughMeans | crates/solinv-static/src/native.rs:630-665 | an atom is true of the callee's frame iff, carried through the call, it is true of the caller, whatever its account is written as: arguments substituted, flags discharged only by a literal `true`, value parameters become account checks |
| NativeCalls.AtomsPortable | crates/solinv-static/src/native.rs:667-691 | at any depth, an atom carried out of a helper as it is meant starts with, and compares with, only the helper's parameters and names that mean the same to every fn |
| NativeCalls.AtomsSound | crates/solinv-static/src/native.rs:667-691 | every atom collected to a depth, on a path or in a program whose calls pass expressions tidily, holds of a run that returns Ok, when its flags are true |
| NativeCalls.HoldsSound | crates/solinv-static/src/native.rs:693-702 | interprocedural soundness: every atom in `holds(i)` is true of what a run of fn `i` that returns Ok was given, when an expression passed as an account names past its start nothing a `let` binds and, in a helper, only what means the same to every fn |
| NativeComplete.HoldsHas | crates/solinv-static/src/native.rs:667-702 | `holds(i)` has the placed atom of every unconditional check of fn `i`'s own conditions, and every one a followed call carries up from within the bound |
| NativeComplete.CarriedExact | crates/solinv-static/src/native.rs:633-665 | a check is carried up iff each flag it needs that is a parameter is passed `true` |
| NativeComplete.OkExact | crates/solinv-static/src/native.rs:667-702 | exactness: of a fn all of whose rejections are checks, down to the fns it calls, a run returns Ok iff every collected atom whose flags are true holds of what it was given |
| NativeCalls.PathsSound | crates/solinv-static/src/native.rs:693-702 | of accounts named by paths the same, whatever is passed |
| NativeCalls.NothingLost | crates/solinv-static/src/native.rs:705-730 | when head keeps every atom of a base fn, head's runs that return Ok pass every check base made |
| NativeCalls.PathsKept | crates/solinv-static/src/native.rs:705-730 | the same of the atoms on paths, whatever head passes |
| Matching.TakeBest | crates/solinv-static/src/idl_diff.rs:157-167 | the loop over sorted pairs is the greedy matching |
| Matching.GreedyStable | crates/solinv-static/src/idl_diff.rs:157-167 | the greedy matching is one to one and no pair left out is better than every pair it conflicts with |
| Matching.StableUnique | crates/solinv-static/src/idl_diff.rs:157-167 | there is only one such matching |
| IdlSlots.Walk | crates/solinv-static/src/idl.rs:462-483 | the walk that pushes and pops one prefix lists the slots with their paths, and leaves the prefix as it found it |
| IdlSlots.FlatAccounts | crates/solinv-static/src/idl.rs:461-483 | every slot of an instruction in order, by its dotted path |
| IdlSlots.NestedPath | crates/solinv-static/src/idl.rs:462-483 | a slot at any nesting has the names of the composites around it and its own, joined by dots, as its path |
| IdlRenames.CollectCandidates | crates/solinv-static/src/idl_diff.rs:141-156 | the nested loops list the candidate pairs |
| IdlRenames.RowsHave | crates/solinv-static/src/idl_diff.rs:141-156 | the candidates are the pairs that agree on signer and writable, once each |
| IdlRenames.FindRenames | crates/solinv-static/src/idl_diff.rs:125-193 | `renames` is its specification |
| IdlRenames.ReadTaken | crates/solinv-static/src/idl_diff.rs:165-193 | the paths renamed and the pairings that are guesses, read off the pairs taken |
| IdlRenames.TakenIsStable | crates/solinv-static/src/idl_diff.rs:125-193 | a set of candidate pairs has no blocking pair iff it is the one `renames` takes |
| IdlEvidence.TakenExact | crates/solinv-static/src/idl_diff.rs:125-193 | a set of pairs is the one taken iff each slot is paired once, each pair agrees on signer and writable, and each pair left out that agrees loses a slot to a pair with more in common: more listers and relations shared, counted apart; then the same composite; then seeds on both or neither; then the same address; then the lower base and head index |
| IdlEvidence.GuessedExact | crates/solinv-static/src/idl_diff.rs:168-193 | a pairing is said to be a guess iff it is taken and is not plainly a rename: the one slot gone from its composite (fixed addresses aside) and the one new in the other's, with something in common or nothing checked of the base slot, seeds beside it included |
| IdlEvidence.PathsExact | crates/solinv-static/src/idl_diff.rs:165-193 | a base path is said to be another in head iff a pair taken says so |
| IdlRenames.TakenPairs | crates/solinv-static/src/idl_diff.rs:125-193 | the pairing is one to one, agrees on signer and writable, and leaves no two unmatched slots that agree on both |
| IdlRenames.HeadPathGoes | crates/solinv-static/src/idl_diff.rs:74-78 | a base path goes to itself, or from a path only base has to one only head has |
| IdlRenames.HeadPathInjective | crates/solinv-static/src/idl_diff.rs:74-78 | with unique head paths no two base slots go to one head path |
| IdlDiff.BuildHeadMap | crates/solinv-static/src/idl_diff.rs:211-211 | head's slots by path, the last of a repeated path |
| IdlDiff.ReportGuesses | crates/solinv-static/src/idl_diff.rs:214-224 | the guesses reported, in order |
| IdlDiff.ReportSlots | crates/solinv-static/src/idl_diff.rs:226-305 | what is reported of the base slots, and whether a lost signature was |
| IdlDiff.DiffIx | crates/solinv-static/src/idl_diff.rs:208-323 | `diff_ix` is its specification |
| IdlFindings.FindingExact | crates/solinv-static/src/idl_diff.rs:226-305 | each of the eight findings on a base slot head has (signature, seeds removed or changed, address removed or changed, `has_one` lost or moved, now optional) is reported iff its own condition on the two slots holds |
| IdlFindings.SeverityExact | crates/solinv-static/src/idl_diff.rs:294-304 | a change is a Regression iff the instruction's pairing is no guess, the slot kept its path, and it says a lost signature, seeds, address, or `has_one` whose declarer is still there |
| IdlFindings.GoneExact | crates/solinv-static/src/idl_diff.rs:227-250 | a slot that is gone is reported, with its checks, iff it checks more than an address |
| IdlFindings.ChecksExact | crates/solinv-static/src/idl_diff.rs:38-53 | the checks named are its flags and each slot that declares it |
| IdlFindings.GuessExact | crates/solinv-static/src/idl_diff.rs:214-224 | a guess is reported iff it is one |
| IdlFindings.WriterExact | crates/solinv-static/src/idl_diff.rs:315-323 | an unsigned writer is reported iff head is one and base was not |
| IdlFindings.UnsignedWriterExact | crates/solinv-static/src/idl.rs:414-418 | no slot signs and some slot is writable with no signature, seeds or address |
| IdlFindings.ConstSeedsExact | crates/solinv-static/src/idl_diff.rs:92-98 | two constant seeds are alike iff their bytes are, and both or neither are marked unconverted in a legacy IDL |
| IdlDiff.CountWarningNeverFires | crates/solinv-static/src/idl_diff.rs:306-314 | without a signer loss reported on a slot head has as many signers, so with unique paths the warning on the count cannot fire |
| IdlDiff.CountWarningDuplicates | crates/solinv-static/src/idl_diff.rs:306-314 | a base with a repeated path that sets the warning off |
| IdlSilence.HasOneExact | crates/solinv-static/src/idl_diff.rs:271-287 | a `has_one`, by the paths of its two slots, is kept iff the differ finds its name and its declarer went to the same composite |
| IdlSilence.SeedExact | crates/solinv-static/src/idl_diff.rs:80-123 | a seed, by the path of the slot it reads, is kept iff the differ finds the seeds alike and that slot went to the same composite |
| IdlSilence.PdaExact | crates/solinv-static/src/idl_diff.rs:80-123 | the same of all the seeds of an address, in order, and of the program it is derived for |
| IdlSilence.KeptExact | crates/solinv-static/src/idl_diff.rs:226-305 | a slot keeps its signature, seeds, address, every `has_one` and its presence iff the differ finds nothing of it and what its checks depend on stayed beside it |
| IdlSilence.SilenceKeeps | crates/solinv-static/src/idl_diff.rs:208-323 | when nothing is reported, `head_path` is an injection on every base slot except those unchecked or checked by address only, each keeps its own signature, address and presence, and head keeps every check iff the slots each depends on stayed together |
| IdlSilence.SilenceExact | crates/solinv-static/src/idl_diff.rs:208-323 | with unique paths: nothing is reported and no check's slots were parted iff no pairing is a guess and every check is kept |
| IdlSilence.InPlaceTogether | crates/solinv-static/src/idl_diff.rs:58-78 | when every pairing stays in its composite, no check's slots are parted |
| IdlSilence.PartedInSilence | crates/solinv-static/src/idl_diff.rs:208-323 | a family of inputs, any two composites and any two names: a `has_one` is lost and nothing is reported |
| IdlProgram.FindPairing | crates/solinv-static/src/idl_diff.rs:384-393 | the pairing of removed with added instructions, each added one used once |
| IdlProgram.Closest | crates/solinv-static/src/idl_diff.rs:397-411 | the last of the instructions with the most slot names in common; None iff there are none |
| IdlProgram.RenamedIx | crates/solinv-static/src/idl_diff.rs:331-349 | the instruction chosen may be the renamed one, none that may shares more slot names, and none after it as many; None iff there are no slots or no instruction may |
| IdlReport.MayRenameExact | crates/solinv-static/src/idl_diff.rs:331-349 | an instruction may be a renamed one iff argument names agree and, of the larger number of slots, at least three quarters of the names are shared, nine tenths without arguments |
| IdlReport.PairedExact | crates/solinv-static/src/idl_diff.rs:384-393 | each pair is a removed and an added instruction that may be it; each added one stands for one; what is unmatched is the rest; and no removed one with slots is left that an unmatched one may be |
| IdlProgram.ReportRemoved | crates/solinv-static/src/idl_diff.rs:401-424 | what is reported of instructions that are gone |
| IdlProgram.ReportHead | crates/solinv-static/src/idl_diff.rs:425-444 | what is reported of head's instructions |
| IdlProgram.CollapseGuesses | crates/solinv-static/src/idl_diff.rs:449-461 | the same guess in several instructions becomes one line |
| IdlProgram.DiffIdl | crates/solinv-static/src/idl_diff.rs:369-446 | `diff_idl` is its specification |
| IdlReport.ResolvedExact | crates/solinv-static/src/idl_diff.rs:351-367 | checks are left uncompared iff base has an address somewhere (or, legacy, seeds or relations) and head none of the three anywhere |
| IdlReport.ReportExact | crates/solinv-static/src/idl_diff.rs:369-446 | what the report has before collapsing: a line is in it iff it is the warning on resolution, names the closest unmatched instruction for a checked one that went without a pairing, is of an instruction of the same name compared, is of one paired by a guess and says so, or is a new unsigned writer |
| IdlReport.CollapseExact | crates/solinv-static/src/idl_diff.rs:449-461 | collapsing loses nothing and invents nothing: each line stays or is on one that says the same and lists its instructions, no two guesses left say the same, and other lines are untouched |
| IdlProgram.SilentReport | crates/solinv-static/src/idl_diff.rs:369-446 | an empty report of current-format IDLs: every compared instruction keeps its checks iff the slots they depend on stayed together, a new one is no unsigned writer, a checked one is gone only when one of head's is compared with it or nothing new is left unmatched |
| IdlProgram.SelfSilent | crates/solinv-static/src/idl_diff.rs:369-446 | with unique instruction names and slot paths `diff_idl(x, x)` is empty |
| CpiLog.ReadersAgree | crates/solinv-core/src/invariants/cpi_reentrancy.rs:143-174 | on every line, whatever its text, the detector's reader sees its part of what the tree builder's reader sees |
| CpiLines.InvokeExact | crates/solinv-core/src/trace.rs:127-146 | a line opens a frame of that program and depth iff, trimmed, it is `Program <id> invoke [<digits>]`, the depth within a `u32` |
| CpiLines.SuccessExact | crates/solinv-core/src/trace.rs:147-148 | a line ends a frame well iff it says `success` and no more |
| CpiLines.FailedExact | crates/solinv-core/src/trace.rs:149-153 | a line ends it as failed iff it says what starts with `failed` |
| CpiLines.ConsumedExact | crates/solinv-core/src/trace.rs:154-166 | a line gives units iff it says `consumed` and, first, a number within a `u64` |
| CpiLines.NamedExact | crates/solinv-core/src/trace.rs:104-121 | a line names an instruction iff it is `Program log: Instruction:` and the name |
| CpiLog.ParseCpiEvents | crates/solinv-core/src/invariants/cpi_reentrancy.rs:143-174 | the events of a log are those of the lines the tree builder reads |
| CpiTree.TreeStep | crates/solinv-core/src/trace.rs:103-167 | one line keeps the arena and stack standing for the plain nested frames |
| CpiTree.PushStands | crates/solinv-core/src/trace.rs:133-146 | opening a frame keeps it |
| CpiTree.SetStands | crates/solinv-core/src/trace.rs:113-166 | changing the open frame's fields keeps it |
| CpiTree.PopStands | crates/solinv-core/src/trace.rs:147-153 | closing a frame keeps it |
| CpiTree.FinishStands | crates/solinv-core/src/trace.rs:169-185 | a log cut short closes its frames, and the roots are then the whole arena |
| CpiTree.BuildTree | crates/solinv-core/src/trace.rs:98-185 | the arena's tree is the plain tree of the log; children have larger indices than their parent, each index occurs once, preorder is index order |
| CpiTree.TreePreorder | crates/solinv-core/src/trace.rs:77-185 | on any log the frames in preorder are the invoke lines in order, and `frame_count` is their number |
| CpiFrames.FrameRecords | crates/solinv-core/src/trace.rs:98-167 | of the lines of a whole call, wherever logged: its frame has the first name logged in it and no later one, the last units its own program says, its calls in order, and is failed iff its outcome is |
| CpiPrint.TreeOfLines | crates/solinv-core/src/trace.rs:98-185 | the plain tree of a forest's lines is the forest |
| CpiPrint.TextReads | crates/solinv-core/src/trace.rs:98-167 | a printed line is read as what it says, for any way of writing 256-bit ids that reads back |
| CpiPrint.PrintRoundTrip | crates/solinv-core/src/trace.rs:98-185 | printing any forest of frames as a log and building its tree gives the forest back |
| CpiReentry.DetectReentry | crates/solinv-core/src/invariants/cpi_reentrancy.rs:188-212 | the loop with its stack is the specification |
| CpiReentry.RunSearch | crates/solinv-core/src/invariants/cpi_reentrancy.rs:188-212 | after any events the detector's stack is the tree's open frames and its finding what a search of the tree so far finds |
| CpiReentry.DetectIsSearch | crates/solinv-core/src/invariants/cpi_reentrancy.rs:188-212 | on every log, balanced or cut short, what is reported is the first frame of the tree in preorder that an ancestor of the same program encloses |
| CpiReentry.DetectExact | crates/solinv-core/src/invariants/cpi_reentrancy.rs:188-212 | for every allowlist, on the tree: it fires iff a node of a program not allowed has a proper ancestor of that program; it reports the first such in preorder, and as `outer` the depth of the outermost such ancestor |
| CpiReentry.DetectIffCyclic | crates/solinv-core/src/invariants/cpi_reentrancy.rs:188-212 | allowing nothing, it fires iff some node of the tree has a proper ancestor with its program |
| CpiReentry.FewerAllowed | crates/solinv-core/src/invariants/cpi_reentrancy.rs:188-212 | shrinking the allowlist never turns a detection into None |
| CpiReentry.AnnotateMarks | crates/solinv-core/src/trace.rs:62-74 | annotating a forest without notes marks one frame iff one of that program and depth exists, and changes nothing else |
| CpiReentry.DetectedInvoked | crates/solinv-core/src/trace.rs:189-199 | the frame reported is a frame of the tree |
| CpiReentry.AnnotatedOnce | crates/solinv-core/src/trace.rs:189-199 | the annotated tree marks exactly one frame, of the reported program and depth, when the detector fires, and none otherwise |
| CpiReentry.AnnotatedSays | crates/solinv-core/src/trace.rs:189-199 | the note on that frame is the one made of the reported re-entry, and no other frame has one |
| Base64.B64 | crates/solinv-disclose/src/repro.rs:243-263 | the encoder's loop is the encoding |
| Base64.DecodeQuantum | crates/solinv-disclose/src/repro.rs:217-231 | one quantum, its accumulator within 32 bits |
| Base64.RawDecode | crates/solinv-disclose/src/repro.rs:211-232 | the decoder's loop, before the final comparison |
| Base64.B64Decode | crates/solinv-disclose/src/repro.rs:200-239 | the result is `Some(x)` iff the text is the encoding of `x`, for all bytes and texts |
| Base64.RawEncode | crates/solinv-disclose/src/repro.rs:200-263 | decoding undoes encoding |
| Base64.CanonicalExact | crates/solinv-disclose/src/repro.rs:233-239 | among texts that pass every other check the final comparison rejects exactly those whose dropped bits are not zero (section 3.5 of RFC 4648) |
| Base64.EncodeInjective | crates/solinv-disclose/src/repro.rs:243-263 | no two byte strings have one encoding |
| Base64.CarriedBytes | crates/solinv-disclose/src/repro.rs:164-170 | bytes are given back iff they are carried, encoded canonically, of the length and hash claimed |
| Base64.IsIntact | crates/solinv-disclose/src/repro.rs:149-161 | an artifact is intact iff it carries nothing, or bytes of the length and hash claimed |
| Radix.ConvertBack | crates/solinv-static/src/legacy.rs:135-153 | converting between bases and back gives the digits back, leading zeros included |
| Base58.Carry | crates/solinv-static/src/legacy.rs:139-149 | one character multiplies the buffer by 58 and adds the digit in place; at most one byte is pushed, and every step stays in 32 bits with a carry of at most 57 |
| Base58.Accumulate | crates/solinv-static/src/legacy.rs:137-150 | after the last character the little-endian value of the buffer is the base-58 value read, with no zero top byte; None iff a character is outside the alphabet |
| Base58.LeadingOnes | crates/solinv-static/src/legacy.rs:151-153 | the zero bytes added are the leading `1`s |
| Base58.Decode | crates/solinv-static/src/legacy.rs:135-153 | None iff a character is outside the alphabet; otherwise exactly the bytes the standard encoder writes as the text |
| Base58.EncodeInverse | crates/solinv-static/src/legacy.rs:135-153 | the standard encoder and the conversion are inverse to each other |
| Base58.EncodeInjective | crates/solinv-static/src/legacy.rs:135-153 | no two byte strings are written alike |
| Seeds.LowBytesRead | crates/solinv-static/src/legacy.rs:161-177 | the truncated little-endian bytes of a value in range, zero- or sign-extended, give it back |
| Seeds.IntSeedExact | crates/solinv-static/src/legacy.rs:157-194 | a written integer converts iff it is in its type's range, to exactly the bytes of that width that mean it |
| Seeds.IntSeedInjective | crates/solinv-static/src/legacy.rs:161-194 | two seeds of one type with the same bytes are the same integer |
| LegacyItems.Declarers | crates/solinv-static/src/legacy.rs:233-241 | who names a slot, in declaring order |
| LegacyItems.Items | crates/solinv-static/src/legacy.rs:221-242 | converting one level and setting relations in place is the specification, at every nesting |
| LegacyItems.RelationInverted | crates/solinv-static/src/legacy.rs:219-260 | slots keep their places, names and flags, and a slot is recorded on another iff it declares that one's name |
| LegacyItems.CompositeConverted | crates/solinv-static/src/legacy.rs:219-242 | a composite keeps its place, its name cased, and is converted as a list of its own |
| LegacyItems.DeclaredInOrder | crates/solinv-static/src/legacy.rs:233-241 | a slot added at the end of a list is recorded last on the slots it names, and changes nothing of the others |
| LegacyItems.HasOneKeptExactly | crates/solinv-static/src/legacy.rs:219-242 | a `has_one` survives iff a slot of its own level has the name it gives |
| Digests.Digest | crates/solinv-mutate/src/mutant.rs:68-75 | the loop over bytes is the digest |
| Digests.KnownDigests | crates/solinv-mutate/src/mutant.rs:68-75 | the digests of no bytes and of `a` are `cbf29ce484222325` and `af63dc4c8601ec8c`, those of FNV-1a |
| Digests.StepBijective | crates/solinv-mutate/src/mutant.rs:70-73 | for a byte, one FNV-1a step is a bijection of the 64-bit states |
| Digests.StepTellsBytes | crates/solinv-mutate/src/mutant.rs:70-73 | from one state, different bytes lead to different states |
| Digests.TailKeeps | crates/solinv-mutate/src/mutant.rs:68-75 | files with a common tail reach equal states iff they had equal states before it |
| Digests.OneByteTold | crates/solinv-mutate/src/mutant.rs:68-75 | files of one length that differ in one byte have different digests, as printed |
| Mutants.GenerateOne | crates/solinv-mutate/src/mutant.rs:155-182 | the mutants of one operator in one file |
| Mutants.GenerateFile | crates/solinv-mutate/src/mutant.rs:152-184 | those of every operator, or an error when a pattern does not compile |
| Mutants.GenerateWith | crates/solinv-mutate/src/mutant.rs:147-187 | the plan of every source, or an error |
| Mutants.PlanHas | crates/solinv-mutate/src/mutant.rs:147-187 | a mutant is in the plan iff it is the mutant of a match whose rewrite changes it |
| Mutants.PlanTells | crates/solinv-mutate/src/mutant.rs:147-187 | each mutant of a plan has its operator's id, killer and tier, its file's path and digest, its match's span and text, and what the match is rewritten to |
| Mutants.LineExact | crates/solinv-mutate/src/mutant.rs:164 | the line recorded is that of the match iff the match does not start a line after the first; else it is the line before |
| Mutants.Apply | crates/solinv-mutate/src/mutant.rs:189-216 | a file whose digest is another is refused, and so is a span outside it; otherwise the result has the mutant's text for the span and the rest of the file unchanged |
| Mutants.OwnSource | crates/solinv-mutate/src/mutant.rs:147-216 | every mutant applies to its own source, changes exactly its span, and gives a different file |
| Mutants.EditRefused | crates/solinv-mutate/src/mutant.rs:189-201 | a file edited in exactly one byte is refused |
| Mutants.IdInjective | crates/solinv-mutate/src/mutant.rs:166-167 | an id read from the right on `#`, then `:`, gives its parts back when operator ids hold no `@` |
| Mutants.IdsDistinct | crates/solinv-mutate/src/mutant.rs:147-187 | with distinct paths and tidy operator ids, all ids of a plan are distinct strings |
| Scores.Tally | crates/solinv-mutate/src/score.rs:125-156 | the loop's fields are the counts of each outcome, and the score their fraction |
| Verdicts.TallyExact | crates/solinv-mutate/src/score.rs:125-156 | each field is the number of results with that outcome, the denominator those killed or survived, and the score times it those killed |
| Scores.TotalIsAll | crates/solinv-mutate/src/score.rs:160-162 | `total()` is the number of results |
| Scores.GroupByKiller | crates/solinv-mutate/src/score.rs:180-188 | the map holds each invariant's results in order, and no others |
| Scores.PerInvariant | crates/solinv-mutate/src/score.rs:180-192 | each invariant's score is the tally of its results |
| Scores.BreakdownPartitions | crates/solinv-mutate/src/score.rs:180-192 | every count field summed over the invariants is the whole tally's |
| Scores.UnreachedChangeNothing | crates/solinv-mutate/src/score.rs:212-232 | result lists with the same reached results have the same score and verdict |
| Scores.UnreachedChangeNoReport | crates/solinv-mutate/src/score.rs:318-368 | and the same report: exclusions, adjusted score and gate |
| Scores.ExclusionKeepsExactly | crates/solinv-mutate/src/score.rs:336-346 | an exclusion leaves a count unchanged iff it names no result of that kind, unique ids or not |
| Scores.ExclusionConserves | crates/solinv-mutate/src/score.rs:318-368 | with unique ids exclusion lowers survived by exactly the distinct excluded survivors and nothing else, an adjusted score is never below the raw one, and a raw pass never becomes a fail |
| Verdicts.GateExact | crates/solinv-mutate/src/score.rs:212-232 | from the outcomes: Inconclusive iff fewer than `min_reached` of the results not excluded were killed or survived; else Pass iff those killed are at least `min_score` times those reached, Fail iff fewer, with that fraction and number; of none reached the score is 0 |
| HandlerChecks.CompareCopies | crates/solinv-static/src/diff.rs:386-395 | each distinct check compared by its copies over the instruction |
| HandlerChecks.CompareHandlers | crates/solinv-static/src/diff.rs:380-452 | the loops over base slots and the instruction are the specification |
| HandlerChecks.NoneLost | crates/solinv-static/src/diff.rs:839-847 | if no slot loses a copy, the slots together do not |
| HandlerChecks.HandlerConservation | crates/solinv-static/src/diff.rs:380-452 | for an instruction head has (one with a slot): if the copies of a check over all slots and the instruction fall, a change names it; if they do not, none says it was removed from the handler |
| HandlerChecks.LossExact | crates/solinv-static/src/diff.rs:380-452 | a check is said removed, or declared on another slot instead, iff its copies fall on that slot (or the instruction) and in the instruction, and that is what declares it now |
| HandlerChecks.GoneExact | crates/solinv-static/src/diff.rs:380-386 | a slot that is gone is reported iff it had checks and head has the instruction |
| HandlerChecks.ChecksOfExact | crates/solinv-static/src/diff.rs:380-386 | with what it declared and validated, copies and all, and each handler check once |
| HandlerChecks.PlaceholderExact | crates/solinv-static/src/diff.rs:408-434 | removals are said singly iff the slot is not newly a placeholder |
| HandlerChecks.PlaceholderLast | crates/solinv-static/src/diff.rs:408-434 | else in one line, the last of its slot, that lists exactly what was removed |
| SourceRenames.ScorePairs | crates/solinv-static/src/diff.rs:69-79 | the nested loops list the candidates |
| SourceRenames.ScoredHas | crates/solinv-static/src/diff.rs:69-79 | the candidates are the pairs that share a slot and score at least one half, each with its score |
| SourceRenames.PairRenamed | crates/solinv-static/src/diff.rs:80-94 | the pairing loop is the specification |
| SourceRenames.RenamesPaired | crates/solinv-static/src/diff.rs:69-94 | the pairing is one to one both ways, a chosen pair has no rival of equal score, and a candidate not chosen shares an instruction with another of at least its score |
| SourceRenames.ChosenExact | crates/solinv-static/src/diff.rs:80-94 | a pair is chosen iff it is settled best first (in the one set of which no two share an instruction and every other pair has one ahead of it) and nothing ties with it for either instruction |
| SourceRenames.SettlingUnique | crates/solinv-static/src/diff.rs:80-94 | there is only one such set |
| SourceRenames.ScoreExact | crates/solinv-static/src/diff.rs:69-79 | the score is the slots both have over those either has; worth comparing is a half, with one shared |
| Lint.Matching | crates/solinv-static/src/lint.rs:383-415 | the scanning loop is the specification |
| Lint.PartnerOfGroup | crates/solinv-static/src/lint.rs:383-415 | counting one kind of bracket and skipping strings finds the true partner of any well-nested group, whatever is around it |
| Lint.CharLiteralExact | crates/solinv-static/src/lint.rs:383-415 | with one character of a character literal inside, the partner is found iff that is neither `"` nor a bracket of the group's kind |
| Lint.CharLiterals | crates/solinv-static/src/lint.rs:383-415 | `['[']`, `['"']` and `[']']`, whose partner is not found |
| Lint.SplitTop | crates/solinv-static/src/lint.rs:418-450 | the splitting loop is the specification |
| Lint.SplitJoined | crates/solinv-static/src/lint.rs:418-450 | joining well-nested parts without a top-level comma and splitting gives them back trimmed, empty ones dropped |
| Lint.SplitInvertsJoin | crates/solinv-static/src/lint.rs:418-450 | trimmed, non-empty parts come back exactly |
| Lint.SplitStrings | crates/solinv-static/src/lint.rs:201-219 | the loop keeps what is outside string literals |
| Lint.BareText | crates/solinv-static/src/lint.rs:201-219 | of well-nested text it keeps everything but the literals, at any nesting |
| Lint.TopLevelSemicolon | crates/solinv-static/src/lint.rs:249-260 | the first `;` at depth 0 as the scan counts it |
| Lint.SemicolonExact | crates/solinv-static/src/lint.rs:249-260 | the `;` found is the first with as many brackets closed before it as opened |
| Lint.LetInit | crates/solinv-static/src/lint.rs:241-247 | the text before the `let` found is strictly shorter |
| Lint.LetInitExact | crates/solinv-static/src/lint.rs:241-247 | the initializer is what follows the `=` up to its own `;`, and the text left is what comes before the `let` |
| Lint.BoundExact | crates/solinv-static/src/lint.rs:188-239 | `&..&name` with any space around it is looked up iff it is a name |
| Lint.SaysExact | crates/solinv-static/src/lint.rs:184-190 | a well-nested element says it is a bump iff a bump's word is in it outside its literals, in any case, or it is a list of one element |
| Lint.ListInsideExact | crates/solinv-static/src/lint.rs:222-231 | a list `[..]`, `&[..]`, with or without `[..]` after it, has that inside |
| Lint.KeptExact | crates/solinv-static/src/lint.rs:418-450 | a part is kept, trimmed and in order, unless blank |
| Lint.BumpOnTrail | crates/solinv-static/src/lint.rs:184-198 | `is_bump` ends, and answers whether something on the trail of initializers says it is a bump |

## Left out

- NativeSound.ConditionSound: asks that groups are split as they are meant (`SplitsRight`); it does not say what the reader makes of other conditions in general. `NativeLimits` has the exact condition for groups of signer checks, torn groups, short memcmps and fns named as equalities, where the reader's patterns decide it.
- NativeCalls.HoldsSound: fns whose `let`s take slices of parameters, and helpers whose atoms and arguments name only parameters and constants. A text put before a field is taken as a whole, as in `(a + b).key`, though the code writes no parentheses.
- NativeComplete.OkExact: says so of fns whose conditions are all checks and whose calls nest no deeper than are followed and pass every flag as `true` (`Readable`), in programs that carry texts as they are meant (`Fit`); of others `NativeCalls.HoldsSound` and `NativeComplete.HoldsHas` say the two halves that remain.
- NativeComplete.IdentExact: the source's `\w` also takes letters outside ASCII.
- HandlerChecks.LossExact: which slot now declares a check (`declared_instead`) is a parameter.
- Lint.ListInsideExact: of a list whose text itself ends in `[..]` what is left is that suffix stripped, as the code does; no inside is claimed.
- NativeSound.FailsOnSound: a fn named like an equality (`*eq`) whose body is not seen is taken to be one; `NativeLimits.NamedFnExact` says when that is right.
- NativeLimits.TornGroupExact: the first operand compares accounts' places or this program's id, so that what is torn is read; a torn call of one argument is not modelled. How the last operand is spelled (`a.is_signer` or `a.is_signer()`), whether an equality is a method and alone, and the order of two texts are parameters of the reader (`NativeRead.Texts`).
- IdlSilence.SilenceExact: the names slots list as relations hold no dot, as Anchor writes them; the source follows only the first segment of a dotted one.
- Mutants.OwnSource: bytes, not characters; a span that cuts a UTF-8 sequence does not come from the regular expression engine.
- Lint.PartnerOfGroup: text without raw strings; of character literals only those of characters that are no bracket and no `"` (as plain characters), the others being `Lint.CharLiteralExact`.
- Lint.CharLiteralExact: for a `"` no other may follow in the group; with one the scan is out of step with the strings and may or may not recover.
- SourceRenames.RenamesPaired: the telling slots of each instruction are given; scores are exact fractions where the code compares floating-point numbers.
- Texts of native conditions: the reader works on text with regular expressions; the model starts from the operands, calls and parentheses those find. Misreads inside one operand, such as `!a == b`, and the two spellings of `key`, are not modelled.
- `validate()` checks, declared attributes and gates in the source differ: only the checks in handler bodies are compared here.
- Instruction `match` arms and their parents, and the `turned_off`, `gone` and `moved_up` suppressions of the native differ: text-level heuristics with no semantic promise.
- Which frame `annotate` picks when several share program and depth.
- The mutant's enclosing fn.
- Sorting is a library function: modelled as insertion, which any sort agrees with under a total order.
- The seed lists, the transfer-hook rule and the rendering of the linter; reports in Markdown, Mermaid and HTML; JSON; the wording of messages, kept as tagged values.
- Everything that runs programs: the detectors' attempts, the harness, the corpus.
- SHA-256, Pubkey parsing and derived addresses: parameters or left out.
