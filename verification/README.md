# cs8409_compat.h — a verified model of the HDA header resolver

The Cirrus Logic CS8409 driver is built out of tree on many distributions and kernel
versions. The HDA codec headers it needs (`hda_local.h`, `hda_codec.h`, `hda_jack.h`,
`hda_auto_parser.h`, `hda_bind.h`, `hda_generic.h`) have moved around in the kernel tree
over time. `cs8409_compat.h` handles this with one macro, `TRY_INCLUDE4`. It probes four
candidate locations in a fixed order with `__has_include` and includes the first one that
exists. If none exists, it raises an error diagnostic (`#pragma GCC error`) that names all four candidates. Each of the
six headers gets the same four-slot pattern:

1. `<sound/pci/hda/N>`, in the kernel tree;
2. `"N"`, a local copy;
3. `<sound/hda/N>`, the kernel tree's other layout (distributions move the headers between
   `sound/pci/hda` and `sound/hda`);
4. `"include/sound/pci/hda/N"`, a local copy of the kernel tree.

The header first includes fifteen stable kernel and ALSA headers, then resolves the six HDA
headers in a fixed order. An include guard wraps all of it.

The model is purely functional and takes two parameters:

- `present: Candidate -> bool` says which files exist. An `#include` of a file that does
  not exist is a fatal error and ends preprocessing at once.
- `probe: Candidate -> bool` is what `__has_include` answers. When the toolchain lacks
  `__has_include`, the probe is the constant "no". A native probe is sound: it answers yes
  only for files that exist (`Compat.ProbeSound`).

- `wrappers.dfy` (`Wrappers`): `Option` and `Result`.
- `headers.dfy` (`Headers`): a candidate is `System(path)` (written `<path>`) or
  `Local(path)` (written `"path"`). It also holds the spelling of a candidate and the
  parser that reads a spelling back.
- `diagnostics.dfy` (`Diagnostics`): the error diagnostic `Header not found: ` followed by
  the candidates' spellings joined by ` / `. A splitter and parser read the message back
  into the candidate list.
- `resolver.dfy` (`Resolver`): `TRY_INCLUDE4` as an `#if`/`#elif`/`#else` chain. It also
  holds the general first-hit resolver it agrees with, and the `__has_include` fallback.
- `compat.dfy` (`Compat`): the six candidate lists, the fifteen base headers, the body in
  declared order, the build outcome and the include guard.

As written, `TRY_INCLUDE4` puts `#if`/`#elif`/`#include` lines inside a `#define` body
(cirruslogic/cs8409_compat.h:18-38). In a function-like macro every `#` must be followed by
a parameter, so a C preprocessor rejects the definition itself ("'#' is not followed by a
macro parameter") and the macro is never expanded. The model gives the macro the meaning
its text plainly intends, a first-hit `#if`/`#elif`/`#else` chain. It does not model what a
compiler would do with this file.

Three points about the code are easy to get wrong, and the model follows the code on each:

- All six HDA headers are mandatory. There are no optional headers and no fallback
  symbol definitions.
- The composed list is not deduplicated.
- The local copy `"N"` is tried second, not after all kernel-tree paths as the file's
  opening comment says.

## Model

| member | source | states |
|---|---|---|
| Headers.Spelling | cirruslogic/cs8409_compat.h:41-46 | A candidate is written as its path between `<` and `>` or between double quotes, two characters longer than the path, and a blankless path gives a blankless spelling; this is also the text the stringizing at :36 puts in the diagnostic. |
| Headers.ParseSpellingRoundTrip | cirruslogic/cs8409_compat.h:41-46 | The candidate is recovered exactly from its `<...>` or `"..."` spelling. |
| Headers.ParseSpelling | cirruslogic/cs8409_compat.h:41-46 | Any candidate read from a spelling prints back as that same text. |
| Headers.SpellingInjective | cirruslogic/cs8409_compat.h:41-46 | Two candidates have the same spelling exactly when they are the same kind and path. |
| Diagnostics.FindSeparator | cirruslogic/cs8409_compat.h:36 | Returns the first position where a ` / ` starts, or reports that there is none. |
| Diagnostics.Split | cirruslogic/cs8409_compat.h:36 | Cutting a diagnostic at each ` / ` gives at least one piece, no piece holds a ` / `, and joining the pieces again restores the text. |
| Diagnostics.SplitJoin | cirruslogic/cs8409_compat.h:36 | Splitting a non-empty ` / `-joined list of blankless spellings gives back exactly that list. |
| Diagnostics.ParseMessage | cirruslogic/cs8409_compat.h:36 | Any candidate list read back from a diagnostic produces exactly that diagnostic. |
| Diagnostics.MessageRoundTrip | cirruslogic/cs8409_compat.h:36 | Carries the meaning of `Diagnostics.Message`: for a non-empty, blankless list (every list this header builds) the error diagnostic names every candidate in declared order, and reading it back gives back the list. |
| Diagnostics.MessageInjective | cirruslogic/cs8409_compat.h:36 | For non-empty, blankless lists (every list this header builds), different candidate lists produce different error diagnostics. |
| Resolver.FirstHitFrom | cirruslogic/cs8409_compat.h:23-33 | Finds the first candidate the probe accepts, with every earlier one rejected, or reports that it accepts none. |
| Resolver.Resolve | cirruslogic/cs8409_compat.h:23-37 | Includes a first-hit candidate. It fails exactly when the probe accepts no candidate, and then its message is the diagnostic naming them all. |
| Resolver.FirstHitUnique | cirruslogic/cs8409_compat.h:23-33 | A candidate list has at most one first hit. |
| Resolver.ResolveChoosesFirstHit | cirruslogic/cs8409_compat.h:23-33 | Candidate k is included exactly when the probe accepts it and rejects every earlier candidate. |
| Resolver.ResolveIgnoresLaterCandidates | cirruslogic/cs8409_compat.h:23-24 | Once a candidate is the first hit, the probe's answers for later candidates do not change the choice. |
| Resolver.ResolveFailureNamesAllCandidates | cirruslogic/cs8409_compat.h:35-36 | For a non-empty, blankless list (every list this header builds), a failed resolution's message reads back as the full candidate list in declared order. |
| Resolver.TryInclude4 | cirruslogic/cs8409_compat.h:18-38 | If the probe accepts H1 it is chosen. Otherwise the result is one include of an accepted candidate, or one error diagnostic, which happens exactly when the probe rejects all four. |
| Resolver.TryInclude4IsResolve | cirruslogic/cs8409_compat.h:23-37 | The four-way chain picks the same candidate as the general first-hit resolver on `[H1, H2, H3, H4]` and fails with the same message. |
| Resolver.HasInclude | cirruslogic/cs8409_compat.h:13-15 | Without a native `__has_include` the probe says no to every candidate; with one it is that probe. |
| Resolver.WithoutHasIncludeResolutionFails | cirruslogic/cs8409_compat.h:13-15 | Without `__has_include`, every resolution ends in its error diagnostic. |
| Compat.CandidatesOf | cirruslogic/cs8409_compat.h:41-46 | Each `INC_HDA_*` macro hands over four candidates: kinds System, Local, System, Local, and each path is that slot's directory (`sound/pci/hda/`, none, `sound/hda/`, `include/sound/pci/hda/`) followed by the header's file name. |
| Compat.Expand | cirruslogic/cs8409_compat.h:41-46 | Each `INC_HDA_*()` line resolves its header's four candidates with the general first-hit resolver. |
| Compat.SameSlotPatternForEveryHeader | cirruslogic/cs8409_compat.h:41-46 | All six headers use the kinds System, Local, System, Local and the same per-slot directory, so their lists differ only in the file name. |
| Compat.CandidatePathsBlankless | cirruslogic/cs8409_compat.h:41-46 | No candidate path contains a blank, so every diagnostic reads back without ambiguity. |
| Compat.Body | cirruslogic/cs8409_compat.h:49-72 | The body has the 15 base includes in declared order, then one resolution each for local, codec, jack, auto_parser, bind and generic, in that order. |
| Compat.BodySlot | cirruslogic/cs8409_compat.h:67-72 | An HDA slot of the body is an include exactly when its header resolves, and then it includes the first hit. Otherwise it is that header's diagnostic. |
| Compat.FirstMissingFrom | cirruslogic/cs8409_compat.h:49-72 | Finds the first include of a file that does not exist, with no earlier one, or reports that there is none. |
| Compat.Outcome | cirruslogic/cs8409_compat.h:49-72 | A build succeeds exactly when every directive includes an existing file, and then yields the included headers in order. The first include of a missing file stops it, carrying only the diagnostics raised before. Otherwise it fails with every diagnostic of the body. |
| Compat.ComposeSucceedsIffAllResolve | cirruslogic/cs8409_compat.h:49-72 | Carries the meaning of `Compat.Compose`: with a sound probe, the build succeeds exactly when all fifteen base headers exist and every HDA header has a candidate the probe accepts, so all twenty-one are mandatory. |
| Compat.ComposeOrder | cirruslogic/cs8409_compat.h:49-72 | When every base header exists and every HDA header has a candidate the probe accepts, the composition succeeds. It is the 15 base headers in declared order, then each HDA header's first hit in resolution order. |
| Compat.ComposeStopsAtFirstMissingBase | cirruslogic/cs8409_compat.h:49-64 | A missing base header ends the build at once: the failure names the first missing base header, and no HDA header has raised a diagnostic yet. |
| Compat.ComposeFailureNamesFailingHeaders | cirruslogic/cs8409_compat.h:67-72 | When every base header exists but some HDA header does not resolve, the composition fails. It reports the diagnostics of exactly the headers that did not resolve. |
| Compat.ComposeFailureInResolutionOrder | cirruslogic/cs8409_compat.h:67-72 | In such a failure each unresolved header raises its diagnostic once, in resolution order: of any two diagnostics, the earlier belongs to the earlier header, and no two are equal. |
| Compat.BodyDiagnosticsInOrder | cirruslogic/cs8409_compat.h:67-72 | Whatever the probe, the body's diagnostics are those of distinct HDA headers, in resolution order. |
| Compat.ErrorMessageSource | cirruslogic/cs8409_compat.h:67-72 | Every collected diagnostic is the message of some error directive. |
| Compat.ErrorMessagesKeepOrder | cirruslogic/cs8409_compat.h:67-72 | The collected diagnostics keep the order of the directives that raise them: diagnostics `a < b` come from error directives at positions `p < q`. |
| Compat.DistinctHeadersDistinctMessages | cirruslogic/cs8409_compat.h:36-46 | Two HDA headers raise the same diagnostic exactly when they are the same header. |
| Compat.ComposeFailureDiagnosticsReadBack | cirruslogic/cs8409_compat.h:35-36 | Each diagnostic of such a failed composition reads back as the full candidate list of an unresolved header. |
| Compat.WithoutHasIncludeComposeFails | cirruslogic/cs8409_compat.h:13-15 | Without `__has_include` the build always fails. When every base header exists, it fails with all six diagnostics, in resolution order. |
| Compat.IncludeCompat | cirruslogic/cs8409_compat.h:9-74 | Including the header keeps earlier macros and directives and defines the guard. A first inclusion defines all of the header's macros; with the guard already defined, nothing changes. |
| Compat.SecondInclusionAddsNothing | cirruslogic/cs8409_compat.h:9-10 | A second inclusion adds nothing, whatever the probe answers the second time. |
| Compat.RepeatedInclusionIsSingleInclusion | cirruslogic/cs8409_compat.h:9-10 | Including the header any positive number of times is the same as including it once. |
| Compat.FirstInclusionComposes | cirruslogic/cs8409_compat.h:9-74 | The first inclusion into any unit that has not seen the guard defines all of the header's macros, and the directives it appends build to exactly the composition, whatever came before. |

## Left out

- The `_Pragma("GCC diagnostic push/ignored/pop")` lines (cirruslogic/cs8409_compat.h:19-21, 38) are left out. They silence compiler warnings and do not affect which header is chosen.
- How the toolchain really searches for `<...>` and `"..."` is left out. The same goes for how a native `__has_include` answers: the model takes the probe as a parameter.
- The contents of the included kernel and ALSA headers, and the driver code that uses them, are left out. They are outside this file.
- What a real preprocessor does with `#if` lines inside a `#define` body is not modelled. The model uses the intended `#if`/`#elif`/`#else` chain.
- The macro name `__has_include`, which the fallback definition adds, is not recorded in the translation unit's macro set. Only its effect on the probe is modelled, in `HasInclude`.
- `#pragma GCC error` does not stop preprocessing, so every unresolved header leaves its own diagnostic. The model keeps all of them and does not stop at the first. A missing `#include` file does stop preprocessing, and the model stops there too.
- Compat.ComposeSucceedsIffAllResolve, Compat.ComposeOrder, Compat.ComposeFailureNamesFailingHeaders, Compat.ComposeFailureDiagnosticsReadBack: assume a sound probe (`ProbeSound`). A `__has_include` that says yes to a file that does not exist is not covered by these lemmas. `Compat.Outcome` still handles it: the include of the missing file stops the build.
- Optional headers, fallback symbol definitions and deduplication of the composed list are not modelled. This file has none of them.
- The doc comment (cirruslogic/cs8409_compat.h:5-6) says all kernel-tree paths are tried before local copies. The code tries the local `"N"` second. The model follows the code.
- Diagnostics.MessageRoundTrip: holds only for a non-empty list whose paths contain no blank. A blank inside a path could be taken for the start of the ` / ` separator, and the empty list's message does not read back (`ParseMessage(Message([]))` is `None`). Every list in this header has four blankless paths (Compat.CandidatePathsBlankless).
- Diagnostics.SplitJoin: holds only for a non-empty list of blankless parts: `Join([])` is the empty text, which splits into `[""]`, and a blank could start a separator.
