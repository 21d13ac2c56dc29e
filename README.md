# inlay-hints: the annotation engine

The repository has two binaries. Each asks rust-analyzer for the inlay hints of a Rust
source file in several categories, one configuration preset per category. Each hint is a
byte range and a label. `markup` then merges the hints into the text.

`markup` scans the source bytes once. Before it copies byte `i`, it walks every category's
hint list in a fixed order. It appends the category's template for each hint anchored at
`i`: `range.start` for parameter hints, `range.end` for all others.

- `src/main.rs` mirrors a source folder into an output folder. It writes one annotated copy
  per `.rs` file. Its closing-brace loop is commented out.
- `crates/ide/src/main.rs` prints the annotated text of every `.rs` file under a folder.
  It renders closing-brace hints after all the others.

The model has seven modules:

- `Basics` (`basics.dfy`): bytes, the byte encoding of the templates, and `Option`.
- `Config` (`config.dfy`): `InlayHintsConfig`, `DISABLED_CONFIG` and the six presets built
  from it with `..DISABLED_CONFIG`.
- `Hints` (`hints.dfy`): ranges, hints, and the post-processing in `inlay_hints`, a stable
  sort by `range.start`.
- `Engine` (`engine.dfy`): covers what both copies of `markup` share.
  - The categories, their anchors and their templates.
  - The annotated text as a function of the source, the hint lists and the order of the
    inner loops.
  - The inner loop of one category, as a method.
  - Properties of the annotated text: exact length, where each source byte and each
    fragment lands, that deleting the fragments gives back the source, that hints anchored
    past the end are never emitted, and what the output depends on.
- `Paths` (`paths.dfy`): `Path::components`, `file_name`, `extension` and `strip_prefix`
  on Unix. Also the extension filter `is_file_with_ext` and the mirrored output path.
- `CliMain` (`cli_main.dfy`) and `IdeMain` (`ide_main.dfy`): each binary's `markup` as a
  method with a byte loop over five or six inner loops, proved equal to the engine's
  function. Also its choice of folders from the command line. For `src/main.rs` it also
  covers what the walk does with each path.

The analysis itself is a parameter, `analysis: InlayHintsConfig -> seq<Hint>`. It stands
for rust-analyzer's answer on the file being annotated. Labels are opaque byte strings.

## Model

| member | source | states |
|---|---|---|
| `Config.DisabledConfig` | src/main.rs:112-129 | `DISABLED_CONFIG`: every hint kind off, `None` limits, `Never` for the three enum fields. |
| `Config.TypeHintsConfig` | src/main.rs:131-137 | `TYPE_HINTS_CONFIG`: the baseline with type hints on, both `hide_*` flags on, and closure return types `WithBlock`. |
| `Config.ChainingHintsConfig` | src/main.rs:139-142 | `CHAINING_HINTS_CONFIG`: the baseline with chaining hints on. |
| `Config.ParameterHintsConfig` | src/main.rs:144-147 | `PARAMETER_HINTS_CONFIG`: the baseline with parameter hints on. |
| `Config.BindingModeHintsConfig` | src/main.rs:149-152 | `BINDING_MODE_HINTS_CONFIG`: the baseline with binding-mode hints on. |
| `Config.ClosingBraceHintsConfig` | src/main.rs:154-157 | `CLOSING_BRACE_HINTS_CONFIG`: the baseline with `closing_brace_hints_min_lines = Some(2)`. |
| `Config.LifetimeHintsConfig` | src/main.rs:159-162 | `LIFETIME_HINTS_CONFIG`: the baseline with lifetime elision hints `SkipTrivial`. |
| `Config.PresetsOverBaseline` | src/main.rs:112-162 | Each preset differs from `DISABLED_CONFIG` in exactly the fields it names, and they hold the values it gives. The type preset sets four fields: `type_hints`, both `hide_*` flags, and `closure_return_type_hints = WithBlock`. Closing-brace sets `Some(2)`, lifetime sets `SkipTrivial`, and the other presets each switch on one flag. |
| `Config.NoChangedFieldsMeansEqual` | crates/ide/src/main.rs:114-161 | Two configurations are equal exactly when no field differs. The set of changed fields plus their values therefore pins down each preset. |
| `Engine.PresetSwitchesOnlyItsCategory` | crates/ide/src/main.rs:130-161 | The baseline switches no hint kind on. Each preset switches on exactly the category it is used for. |
| `Hints.SortByStart` | src/main.rs:170 | `sorted_by_key(range.start)`: the result is sorted by start and is a permutation of the input. For every start, the hints with that start keep their input order (stability). |
| `Hints.StableSortUnique` | src/main.rs:167-171 | Two sorted sequences with the same hints at every start, in the same order, are equal. A stable sort by start is therefore unique. |
| `Hints.InlayHints` | src/main.rs:164-172 | `inlay_hints` returns the analysis's hints for the given configuration, sorted by start, permuted and stable. |
| `Hints.InlayHintsCharacterized` | crates/ide/src/main.rs:163-171 | Any sorted, stable rearrangement of the analysis's hints is exactly what `inlay_hints` returns. |
| `Engine.Anchor` | src/main.rs:190-214 | The offset a hint is inserted before: `range.start` for parameter hints and `range.end` for every other category. |
| `Engine.Render` | crates/ide/src/main.rs:189-218 | The `format!` templates: `": " + label` (type), `" // <- " + label` (chaining), `label + ": "` (parameter), `" /* " + label + " */"` (binding-mode and closing-brace), and the bare `label` (lifetime). |
| `Engine.CollectHints` | src/main.rs:176-181 | The six `inlay_hints` calls at the top of `markup`, one per preset: type, chaining, parameter, binding-mode, closing-brace, lifetime. |
| `Engine.FragmentsAt` | src/main.rs:190-194 | The text one category's inner loop appends before byte `i`: the template of every hint anchored at `i`, in list order. |
| `Engine.InsertionsAt` | src/main.rs:190-214 | Everything inserted before byte `i`: each category's fragments, in the order the inner loops run. |
| `Engine.AnnotatedFrom` | src/main.rs:189-224 | The output from offset `i` on: at each remaining offset, its insertions and then the source byte. |
| `Engine.Annotated` | src/main.rs:188-225 | The result of `markup` for a source, six hint lists and an inner-loop order. |
| `Engine.EmitCategory` | src/main.rs:190-194 | One inner loop (`for (range, label) in hints { if i == anchor { extend(template) } }`) appends exactly the fragments of the hints anchored at `i`, in list order. |
| `Engine.AnnotatedLength` | src/main.rs:188-225 | Exact length: the output has as many bytes as the source plus the fragment lengths of every hint whose anchor lies inside the source. |
| `Engine.AnnotatedPlacement` | src/main.rs:189-224 | Byte `i`'s insertions start after the `i` earlier source bytes and the fragments anchored before `i`. The unchanged byte `source[i]` follows them immediately. |
| `Engine.AnnotatedRoundTrip` | crates/ide/src/main.rs:188-220 | Byte preservation: deleting the inserted fragments at every offset gives back exactly the source bytes. |
| `Engine.AnnotatedCongruent` | src/main.rs:189-214 | The output depends on the hint lists only through the fragments each visited category emits at each source offset. |
| `Engine.BeyondEndHintsIgnored` | src/main.rs:189 | Hints anchored at or past the source length, including exactly at it, contribute nothing, wherever they stand in their list. The loop visits only existing bytes. |
| `Engine.CategoryNotInOrderIgnored` | src/main.rs:215-222 | Hints of a category that has no inner loop have no effect on the output. |
| `Engine.NeutralInputs` | crates/ide/src/main.rs:187-221 | With every hint list empty the output is the source. An empty source gives an empty output, whatever the hints. |
| `Engine.SingleHint` | src/main.rs:190-214 | A lone hint of a visited category anchored inside the source is rendered once, with its category's template, spliced in exactly at its anchor. |
| `CliMain.InsertionOrder` | src/main.rs:190-214 | The insertions at an offset are the fragments of type, chaining, parameter, binding-mode and lifetime hints, in that order. |
| `CliMain.Markup` | src/main.rs:175-226 | `markup` collects the six lists with their presets and returns the annotated text of the source with the five visited categories. |
| `CliMain.EmitAll` | src/main.rs:188-225 | Over any hint lists, the byte loop with its five inner loops computes the engine's annotated text. |
| `CliMain.ClosingBraceHintsIgnored` | src/main.rs:180 | The closing-brace hints are computed but cannot change the output, whatever they are. |
| `CliMain.TypeHintExample` | src/main.rs:190-194 | A type hint `i32` on `x` in `let x = 1;` gives `let x: i32 = 1;`. |
| `CliMain.ParameterHintExample` | src/main.rs:200-204 | A parameter hint `x` on the argument of `f(1)` gives `f(x: 1)`. It is anchored at the start of its range. |
| `CliMain.ChooseFolders` | src/main.rs:242-252 | `main`'s handling of `std::env::args()`, step by step, with the iterator's consumption counted. It yields the folders given by `FoldersAsWritten`. |
| `CliMain.NoArgumentsOutputIsProgramPath` | src/main.rs:248-252 | With no user argument, the output folder is the program's own path, not `./inlay-hints`. |
| `CliMain.IntendedFolders` | src/main.rs:243-248 | Corrected choice. The source folder is unchanged, and the output folder is either `./inlay-hints` or one of the user's arguments. |
| `CliMain.IntendedDiffersOnlyWithoutArguments` | src/main.rs:241-252 | The corrected and the as-written choice agree unless there is no user argument. With arguments, both choose `(args[1], args[2] or ./inlay-hints)`. |
| `CliMain.RustFileIsMirrored` | src/main.rs:258-266 | An `.rs` file at `dirs/stem.rs` under the source folder is written to `output_folder/dirs/stem.rs`. |
| `CliMain.OtherFilesSkipped` | src/main.rs:259-262 | A file `dir/stem.ext` with an extension other than `rs` is never written. This holds whatever dots the stem holds (`a.b.txt`) and for an empty extension (`a.`). |
| `CliMain.FilesWithoutExtensionSkipped` | src/main.rs:260-262 | A file without an extension is never written. This covers a name without a dot (`Makefile`) and a dotfile whose only dot is the first character (`.gitignore`). |
| `CliMain.Target` | src/main.rs:258-266 | What the walk does with a path: skip it unless `is_file_with_ext(p, "rs")`, else write to the output path. `None` covers both skipping and the `unwrap` panic on a path outside the source folder. |
| `CliMain.FoldersAsWritten` | src/main.rs:242-252 | The folders `main` settles on, as written. The source folder is `args[1]`, or `.` without one. The output folder is `args[2]` when given, `args[0]` (the program path) when there is no user argument, and `./inlay-hints` otherwise. |
| `Paths.IsFileWithExtOfName` | src/main.rs:233-239 | `dir/stem.ext` passes `is_file_with_ext(_, e)` exactly when `e == ext`. |
| `Paths.OtherExtensionRejected` | src/main.rs:234-238 | `dir/stem.ext` with `ext` other than `rs` fails the `rs` filter, for any stem without `/` and any extension without `.` or `/`, the empty one included. |
| `Paths.IsFileWithExt` | src/main.rs:233-239 | `is_file_with_ext`: false when the path has no extension, otherwise whether the extension equals `file_ext`. |
| `Paths.Extension` | src/main.rs:234 | `Path::extension` on Unix: the text after the last `.` of the file name. It is `None` without a file name, without a dot, or when the only dot is the name's first character. |
| `Paths.LastDot` | src/main.rs:234 | The index of the last `.` in a name, or `None` when the name has no dot. |
| `Paths.FileName` | src/main.rs:234 | `Path::file_name`: the last component when it is a normal name, `None` for `..`, the root or an empty path. |
| `Paths.Components` | src/main.rs:265 | `Path::components` on Unix. A leading `/` is the root and a leading `.` is the current directory. Empty pieces and later `.` pieces are dropped, and `..` is the parent directory. |
| `Paths.StripPrefix` | src/main.rs:265 | `Path::strip_prefix`: the remaining components when the base's components begin the path's, otherwise `None`, where the code's `unwrap` panics. |
| `Paths.Display` | src/main.rs:265 | `.display()` of a relative component list: the component texts joined by `/`. |
| `Paths.OutputPath` | src/main.rs:265-266 | `format!("{output_folder}/{}", p.strip_prefix(&source_folder).unwrap().display())`, or `None` where the `unwrap` panics. |
| `Paths.NoDotNoExtension` | src/main.rs:234-236 | A file name without a dot has no extension, so the filter is false. |
| `Paths.DotFileNoExtension` | crates/ide/src/main.rs:229-235 | A name whose only dot is its first character, such as `.rs`, has no extension, so the filter is false. |
| `Paths.OutputPathMirrors` | src/main.rs:265-266 | `format!("{output_folder}/{}", p.strip_prefix(source_folder).display())` for a path `source_folder/n1/.../nk` is `output_folder/n1/.../nk`. |
| `Paths.FileNameOfJoin` | crates/ide/src/main.rs:230 | The file name of `dir/name` is `name`. |
| `IdeMain.InsertionOrder` | crates/ide/src/main.rs:189-218 | The insertions at an offset are the fragments of type, chaining, parameter, binding-mode, lifetime and closing-brace hints, in that order. |
| `IdeMain.Markup` | crates/ide/src/main.rs:174-222 | `markup` collects the six lists with their presets and returns the annotated text of the source with all six categories. |
| `IdeMain.EmitAll` | crates/ide/src/main.rs:187-221 | Over any hint lists, the byte loop with its six inner loops computes the engine's annotated text. |
| `IdeMain.ClosingBraceLikeBindingMode` | crates/ide/src/main.rs:204-218 | A closing-brace hint is anchored at `range.end` and rendered `" /* " + label + " */"`, exactly like a binding-mode hint. |
| `IdeMain.ExtendsCliOrder` | crates/ide/src/main.rs:209-218 | This loop nest is the other binary's, followed by the closing-brace loop. |
| `IdeMain.AgreesWithoutClosingBraceHints` | crates/ide/src/main.rs:214-218 | With no closing-brace hints, this binary's output equals the other's. The other binary's output depends on no closing-brace hints at all. |
| `IdeMain.ClosingBraceHintExample` | crates/ide/src/main.rs:214-219 | A closing-brace hint `fn f` on the `}` of `{\n}\n` gives `{\n} /* fn f */\n`. |
| `IdeMain.ScanFolder` | crates/ide/src/main.rs:237-243 | The folder to scan is the user's argument when there is exactly one, and `.` otherwise. |

## Left out

- The analysis: rust-analyzer's `AnalysisHost`, fixtures (`file`, `position`, `range`, `range_or_position`, `annotations`, `annotations_without_marker`) and `analysis.inlay_hints(...)` are foreign code. Their answer is the function parameter `analysis`.
- The `.unwrap()` on `analysis.inlay_hints(...)`. The code panics if `analysis.inlay_hints` fails; the model has no failure path. The call can only fail when the analysis is cancelled by a concurrent change, and there is none here.
- The directory walk (`WalkDir` with sorting), `read_to_string`, `fs::write`, `create_dir` and `create_dir_all` are filesystem I/O. The model states what the walk does with one path: `CliMain.Target` for `src/main.rs`, and `Paths.IsFileWithExt` on `"rs"` for `crates/ide/src/main.rs`.
- `print!`/`println!` output, `check` in `crates/ide/src/main.rs`, and its `String::from_utf8(...).unwrap()` are I/O and a decoding panic. UTF-8 decoding is not modelled.
- `InlayHintsConfig` has three more fields in `src/main.rs`: `location_links`, `discriminant_hints` and `adjustment_hints_hide_outside_unsafe`. They are off in `DISABLED_CONFIG` and no preset sets them, so they are left out. Only the fields both copies share are modelled.
- Basics.Bytes: keeps the low eight bits of each character. This is the UTF-8 encoding only for ASCII text, which is all the templates and examples contain. Labels are modelled as bytes, so non-ASCII labels are not affected.
- `TextRange` offsets are `u32` in rust-analyzer and are compared against a `usize` index. The model uses unbounded naturals, because no file reaches 4 GiB.
- `to_string_lossy` in `is_file_with_ext`: paths are Dafny strings, so every path is valid text.
- `Paths.Display` renders components joined by `/`. It does not keep the redundant separators or `.` pieces that `Path::display` of a `strip_prefix` result could show. The mirrored-path lemma is stated for paths made of plain names, where the two agree.
- A hint anchored exactly at the end of the text is never emitted, because the byte loop only visits existing offsets (src/main.rs:189, crates/ide/src/main.rs:188). The model follows the code (`Engine.BeyondEndHintsIgnored`).

## Findings

| source | as written | input that shows it | evidently intended | confidence | as-written member | corrected member |
|---|---|---|---|---|---|---|
| src/main.rs:248-252 | With no user argument, `args.nth(1)` is skipped, so `args.len() >= 1` still counts the program path. `args.nth(0)` then returns it as the output folder. | `args == [program]`, i.e. the binary run with no arguments | The output folder defaults to `./inlay-hints` when not given | not executed | `CliMain.NoArgumentsOutputIsProgramPath` | `CliMain.IntendedFolders` |
