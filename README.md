# nvidia-gamestream-presets-tool, modelled in Dafny

The tool turns entries of Steam's non-Steam-game manifest (`shortcuts.vdf`)
into Windows shortcut files (`.lnk`) plus a box-art image, so that a game
streaming front end can list those executables. This project models the
logic of `src/main.rs` that decides what gets written where:

- `wrap_with_marks`, and the argument string of a link: the shortcut's
  command line with every occurrence of the quoted target deleted;
- the file-name sanitiser: nine chained `replace` calls that delete
  `\ / : * ? " < > |` from the display name;
- the paths `create_link` builds: the `.lnk` file, the box-art directory
  `StreammingAssets\<name>` (the code's spelling), the Steam grid images
  `grid\<app_id>p.png` / `p.jpg` and the `\box-art.png` destination;
- the artwork choice: the PNG when it exists, else the JPG (transcoded), else
  the bundled `assets/box-art.png`, where the PNG and default copies trim the
  destination path and the transcode does not;
- `create_link` as a descriptor plus its four file operations in order, each
  of which may fail and end the call: the first three with `?`, the
  artwork step with `?` for the two copies and through `unwrap` for the
  JPG transcode;
- `process_target`: read the manifest `<config>shortcuts.vdf`, keep the shortcuts whose command line
  contains the target, fail with "Target does not exist." when none does,
  and create the links of the matches in order, stopping at the first
  failure;
- the loop of `main`: split the target list on `,`, trim each target, and
  process them in order with the trimmed configuration and destination
  directories, ending the run at the first target that fails.

Modules:

- `Results` (`results.dfy`): `Result`, and `Collect` / `StepsRun`,
  which say what a loop of fallible steps with `?` returns and how many
  steps it runs.
- `Strings` (`strings.dfy`): the Rust string operations the tool relies on.
  These are `str::contains`; `str::replace` with an empty replacement
  (`DeleteAll`, leftmost non-overlapping occurrences); `str::trim` (Unicode
  `White_Space`); `str::split` on a character; and the decimal rendering of
  `u32::to_string`. Each comes with lemmas that pin it down without its
  definition. For `DeleteAll` these are `Strings.DeleteAllUnchangedIff`
  (no occurrence, no change) and `Strings.DeleteAllAtFirst` (the first
  occurrence is dropped and the scan resumes after it).
- `Link` (`link.dfy`): `wrap_with_marks`, the sanitiser, the paths, the
  artwork choice and `create_link`.
- `Pipeline` (`pipeline.dfy`): the matcher, `process_target` and the target
  loop of `main`. The two loops are methods, each proved equal to a function
  that states the outcome.

The file system is a value `FileSystem(existing, failing, manifests)`:

- `existing` holds the paths for which `Path::exists` is true.
- `failing` holds the file operations that return an error.
- `manifests` maps a manifest path to its decoded shortcuts. A path missing
  from it means that `fs::read` or `parse_shortcuts` fails.

The model follows the code as written, including:

- The sub-directory is `StreammingAssets\`, not `StreamingAssets/`.
- Every occurrence of the quoted target is deleted from the command line,
  not only the leading one (`Link.ArgumentsAtFirst`,
  `Link.ArgumentsDeleteEveryOccurrence`).
- The JPG branch writes to the untrimmed destination.
- The `.lnk` file is written before the box-art directory is created.
- A missing default asset is an ordinary failure of `fs::copy`.
- A JPG that cannot be decoded or saved panics through `unwrap`. The model
  counts this as a failure of the transcode step.

## Model

| member | source | states |
|---|---|---|
| Link.WrapWithMarks | src/main.rs:13-18 | the result is two characters longer than the text, starts and ends with a double quote, and holds the text in between |
| Link.Arguments | src/main.rs:27-28 | the command line with every occurrence of the quoted target deleted, left to right; never longer than the command line |
| Link.ArgumentsSpec | src/main.rs:27-28 | the arguments are the command line with characters only deleted (an order-preserving subsequence), and equal the command line exactly when it holds no quoted target |
| Link.ArgumentsAtFirst | src/main.rs:27-28 | at the first occurrence of the quoted target, the text before it is kept, the occurrence is dropped, and the rest of the command line is treated the same way; with `Link.ArgumentsSpec` this fixes the arguments of every command line |
| Link.ArgumentsAfterQuotedPath | src/main.rs:27-28 | a command line made of the quoted target followed by text without it yields exactly that text |
| Link.ArgumentsExample | src/main.rs:27-28 | `"C:\G\g.exe" --fullscreen` with target `C:\G\g.exe` gives ` --fullscreen`, leading space kept |
| Link.ArgumentsDeleteEveryOccurrence | src/main.rs:28 | for every target, a quoted target that comes back after text without a double quote is deleted as well as the leading one |
| Link.ArgumentsRepeatedExample | src/main.rs:28 | `"C:\g.exe" -c "C:\g.exe".cfg` with target `C:\g.exe` gives ` -c .cfg` |
| Link.Sanitize | src/main.rs:32-40 | the nine `replace` calls in the code's order, backslash first and vertical bar last (characterised by the next two rows) |
| Link.SanitizeIsWithout | src/main.rs:32-40 | the nine successive deletions equal one pass that drops every reserved character |
| Link.SanitizeSpec | src/main.rs:32-40 | the sanitised name holds no reserved character, keeps every other character as often as the input, in order, and sanitising twice changes nothing |
| Link.SanitizeExample | src/main.rs:32-40 | `Game: *Title*` becomes `Game Title` |
| Link.SanitizeEmpty | src/main.rs:32-40 | the empty name stays empty |
| Link.SanitizeAllReserved | src/main.rs:32-40 | a name made only of reserved characters becomes the empty label |
| Link.LinkPathsCollide | src/main.rs:32-46 | two names that differ only by one reserved character, such as `My:Game` and `MyGame`, get the same `.lnk` path |
| Link.Plan | src/main.rs:26-85 | the descriptor `create_link` builds for one shortcut (characterised by `Link.PlanLayout`) |
| Link.PlanLayout | src/main.rs:26-85 | the link path is destination, sanitised name, `.lnk`, with no reserved character in the name part; target, icon, working directory and the unsanitised display name are passed through; the arguments are `Link.Arguments` of the command line, a subsequence of it; the artwork step is `Link.SelectArtwork` over the PNG and JPG grid images and the box-art file; the box-art directory is destination, `StreammingAssets\`, sanitised name; the artwork source is the first existing of the PNG and the JPG, else the bundled default; the artwork goes to the box-art directory plus `\box-art.png`, trimmed for the two copies and untrimmed for the JPG transcode |
| Link.LinkPath | src/main.rs:43-46 | destination, sanitised name, `.lnk` (value stated by `Link.PlanLayout`) |
| Link.BoxArtDir | src/main.rs:56-59 | destination, `StreammingAssets\`, sanitised name (value stated by `Link.PlanLayout`) |
| Link.BoxArtFile | src/main.rs:73-74 | the box-art directory followed by `\box-art.png` (value stated by `Link.PlanLayout`) |
| Link.GridPath | src/main.rs:62-65 | configuration directory, `grid\`, decimal app id (characterised by `Link.GridSourcesDistinct`) |
| Link.PngSource | src/main.rs:67-68 | the grid path followed by `p.png` (characterised by `Link.GridSourcesDistinct`) |
| Link.JpgSource | src/main.rs:70-71 | the grid path followed by `p.jpg` (characterised by `Link.GridSourcesDistinct`) |
| Link.GridSourcesDistinct | src/main.rs:62-71 | different app ids give different grid images, and the PNG and JPG paths of one id differ |
| Link.SelectArtwork | src/main.rs:76-85 | the if / else-if chain on the existence of the PNG and the JPG (characterised by the next two rows) |
| Link.SelectArtworkSpec | src/main.rs:76-85 | the PNG copy is chosen exactly when the PNG exists, the transcode exactly when only the JPG exists, the default exactly when neither exists; the copies go to the trimmed destination and the transcode to the destination as given |
| Link.SelectArtworkFirstMatch | src/main.rs:76-85 | the chosen source is the first existing one of PNG then JPG, else `assets/box-art.png` |
| Link.PngWinsWhateverJpg | src/main.rs:76-78 | an existing PNG is chosen whether or not the JPG exists |
| Link.BoxArtTrimHarmless | src/main.rs:73-84 | for a destination without surrounding whitespace, which is what `main` passes, trimming the artwork destination changes nothing, so the untrimmed JPG branch writes to the same file |
| Link.ArtEffect | src/main.rs:76-85 | the artwork step as a file operation: a copy of the PNG, a transcode of the JPG, or a copy of `assets/box-art.png` |
| Link.Effects | src/main.rs:48-85 | the four file operations in the order `create_link` performs them: `ShellLink::new`, `create_lnk`, `create_dir_all`, the artwork step (characterised by `Link.PerformOutcome`) |
| Link.Perform | src/main.rs:48-85 | the four file operations in the code's order, the first failing one ending the call (characterised by `Link.PerformOutcome`) |
| Link.CreateLink | src/main.rs:20-88 | `create_link`: the descriptor carried out by its file operations |
| Link.PerformOutcome | src/main.rs:48-85 | `create_link`'s operations succeed with the descriptor exactly when none of `ShellLink::new`, `create_lnk`, `create_dir_all` and the artwork copy fails; otherwise the error names the first that fails, and every operation before it succeeded |
| Link.LinkFailureStopsArtwork | src/main.rs:48-60 | when the link cannot be written, `create_link` fails at `ShellLink::new` or `create_lnk`, before the artwork is touched |
| Link.CreateLinkExample | src/main.rs:20-88 | with nothing on disk and nothing failing, `Game: *Title*` launching `"C:\G\g.exe" --fullscreen` yields `D:\out\Game Title.lnk` with arguments ` --fullscreen`, the unsanitised name, and the bundled box art |
| Pipeline.ManifestPath | src/main.rs:95-97 | the configuration directory followed by `shortcuts.vdf`, the path `process_target` reads (used by `Pipeline.TargetOutcomeEarly`) |
| Pipeline.Matches | src/main.rs:102-105 | every match's command line contains the target, and there are no more matches than shortcuts |
| Pipeline.MatchesInOrder | src/main.rs:102-105 | the matches keep the manifest order: they are a subsequence of the shortcuts |
| Pipeline.MatchesCounts | src/main.rs:102-105 | every shortcut whose command line contains the target is kept as often as it occurs in the manifest, and no other shortcut is kept |
| Pipeline.MatchesNone | src/main.rs:102-108 | there is no match, the case reported as "Target does not exist.", exactly when no command line contains the target |
| Pipeline.EmptyTargetMatchesAll | src/main.rs:102-105 | the empty target, which a trailing comma produces, matches every shortcut |
| Pipeline.TargetOutcome | src/main.rs:90-114 | the result of `process_target` (characterised by the next two rows) |
| Pipeline.TargetOutcomeEarly | src/main.rs:94-108 | an unreadable manifest, or a manifest with no matching shortcut ("Target does not exist."), fails without calling `create_link` |
| Pipeline.TargetOutcomeLinks | src/main.rs:102-111 | with matches, `process_target` returns the descriptors of all the matches in order, `create_link` having run once per match; or it returns the error of the first match whose link fails, with `create_link` run up to that match and every earlier call succeeded |
| Pipeline.ProcessTarget | src/main.rs:90-114 | the loop returns `TargetOutcome` and calls `create_link` `Invocations` times |
| Pipeline.TargetsClean | src/main.rs:169-171 | no target holds a comma or surrounding whitespace |
| Pipeline.TargetsRoundTrip | src/main.rs:169-171 | a list written from targets without commas or surrounding whitespace gives them back in order |
| Pipeline.Targets | src/main.rs:169-171 | there is one target more than there are commas, each the trimmed piece between commas |
| Pipeline.FinishSpec | src/main.rs:189-197 | a run completes exactly when every target succeeds, with each target's descriptors in order; otherwise it ends at the first target that fails, with that target and its error, every earlier target having succeeded |
| Pipeline.RunResult | src/main.rs:189-197 | how `main` ends after configuration (characterised by `Pipeline.FinishSpec`) |
| Pipeline.ProcessPiece | src/main.rs:190-192 | `process_target` on the trimmed `k`-th piece of the target list returns outcome `k` of the run |
| Pipeline.Run | src/main.rs:189-197 | the loop ends as `RunResult` says after handing `TargetsProcessed` targets to `process_target` |
| Results.CollectOk | src/main.rs:109-111 | a loop of steps with `?` succeeds with a list of values exactly when every step succeeds with the value at that position |
| Results.StepsRunSpec | src/main.rs:109-111 | such a loop runs every step when all succeed; otherwise it stops at the first step that fails, whose error it returns |
| Results.CollectStep | src/main.rs:109-111 | one more step after steps that all succeeded either appends its value or ends the loop with its error after that step |
| Strings.Contains | src/main.rs:104 | `str::contains` with a string pattern (characterised by the next row) |
| Strings.ContainsIffOccurs | src/main.rs:104 | `contains` holds exactly when the pattern occurs at some position |
| Strings.DeleteAll | src/main.rs:28 | `replace(p, "")`: leftmost non-overlapping occurrences deleted; never longer than the text |
| Strings.DeleteAllAtFirst | src/main.rs:28 | the text before the first occurrence is kept, that occurrence is dropped and the scan resumes right after it |
| Strings.DeleteAllUnchangedIff | src/main.rs:28 | deleting a non-empty pattern leaves the text unchanged exactly when the text does not contain it |
| Strings.DeleteAllIsSubsequence | src/main.rs:28 | deleting a pattern only removes characters, keeping the rest in order |
| Strings.DeleteCharIsWithout | src/main.rs:32-40 | deleting a one-character pattern drops exactly that character |
| Strings.WithoutCounts | src/main.rs:32-40 | dropping a set of characters removes all of them and keeps every other character as often as before |
| Strings.WithoutSkips | src/main.rs:32-40 | a dropped character makes no difference wherever it stands in the text |
| Strings.Trim | src/main.rs:190-192 | `str::trim`: leading then trailing Unicode whitespace removed (characterised by the next two rows) |
| Strings.TrimIsSlice | src/main.rs:190 | the trimmed text is the slice whose outside is all whitespace and whose ends are not whitespace |
| Strings.TrimIdempotent | src/main.rs:190 | trimming twice is trimming once |
| Strings.Split | src/main.rs:169-171 | there are one more pieces than separators, no piece holds the separator, and joining the pieces with it gives back the text |
| Strings.SplitJoin | src/main.rs:169-171 | splitting pieces without the separator, joined by it, gives back the pieces |
| Strings.Decimal | src/main.rs:65 | the decimal rendering of an app id is non-empty, all digits, without a leading zero |
| Strings.DecimalRoundTrip | src/main.rs:65 | reading the decimal rendering back gives the number |
| Strings.DecimalInjective | src/main.rs:65 | different app ids render differently |

## Left out

- Decoding Steam's binary `shortcuts.vdf` (`parse_shortcuts`, a foreign
  library): the manifest is given already decoded. An unreadable manifest
  and an undecodable one are the same failure.
- The Shell Link file format (`mslnk`): `ShellLink::new` and `create_lnk`
  are two operations that may fail. The `set_*` calls become fields of the
  descriptor.
- File-system effects: writes are not fed back into the set of existing
  paths. Partial effects of a failing call are not tracked; for example,
  the `.lnk` file stays written when `create_dir_all` then fails. Two
  shortcuts whose names sanitise alike write the same `.lnk` path; the
  model states that the paths coincide (`Link.LinkPathsCollide`) but not
  that the second write replaces the first.
- Image decoding and encoding (`image` crate): the transcode is one
  operation that may fail. Its `unwrap` panics are modelled as that failure.
- `clap` and INI configuration: the target list and the two directories are
  parameters.
- `panic!` formatting and process termination: a failed run is the value
  `Panicked(target, failure)`.
- Shortcut fields that the tool does not read: the model keeps only the app
  id, name, command line, start directory and icon.
- Strings are sequences of Unicode scalar values rather than UTF-8 bytes.
  Matching, deleting and splitting agree for valid UTF-8, which Rust
  `String`s always are.
- Link.GridSourcesDistinct: app ids are unbounded naturals, not `u32`.
  Every `u32` is such a natural, and its decimal form is the same.
- Pipeline.Matches: its own contract states only the bound and the
  containment. Order, multiplicity and emptiness are stated by
  `Pipeline.MatchesInOrder`, `Pipeline.MatchesCounts` and
  `Pipeline.MatchesNone`.
