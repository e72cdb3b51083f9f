# Build-script staging, modelled in Dafny

A model of `src/lib.rs`, a small library that a Cargo build script calls to
stage a separate "build crate". The library copies the crate into a scratch
directory under `/tmp` and rewrites the relative `path = …` dependencies in
the staged `Cargo.toml` so that they point back at the host project. It then
compiles the crate with `cargo build -vv` and a cleared environment, and runs
the binary from the crate's original directory. Removal of the scratch
directory is attempted on every exit path, when its `BuildDir` guard is
dropped. That removal fails, aborting the process, when the run failed
before `cp -r` created the directory.

Files, one module each:

- `text.dfy` (`Text`): Rust's `str::replace` on a non-empty pattern
  (`ReplaceAll`). Also a reference scan, `InsertAfterEach`, that inserts a
  fixed text right after every occurrence of any of several patterns, with
  the lemmas that relate the two.
- `manifest.dfy` (`Manifest`): `qualify_cargo_toml_paths_in_text` as four
  chained `ReplaceAll` passes (`Qualify`). It is proved equal to one scan,
  then proved to keep unmatched text, to add a fixed amount of text per
  opener, and not to be idempotent. The source's four unit tests are lemmas.
- `paths.dfy` (`Paths`): the Unix behaviour of `Path::components`,
  `Path::starts_with`, `Path::file_name` and `Path::join` over strings.
- `build_dir.dfy` (`BuildDirs`): the `{:x}` formatting of a byte, the
  hex-naming loop of `BuildDir::new` as a method over a byte array, and a
  `BuildDir` class with its `Drop` guard.
- `pipeline.dfy` (`BuildCrate`): `run_build_crate` as a method. It returns
  the trace of effects it performs and how the process ends. Subprocess and
  file-system results come in as a `World` value of success flags and
  contents. The method is proved equal to a specification function, and
  lemmas about that function give the ordering and cleanup properties.

What `src/lib.rs` does not do, and so the model does not either:

- It stages only by copying an existing crate directory; it never
  synthesizes a manifest or extracts a section from one.
- It keeps no lockfile between runs.
- The compile environment holds only `PATH`; no other variable is forwarded
  and no target directory is set.
- `{:x}` prints each byte without zero padding, so the directory suffix has
  16 to 32 characters, not always 32.

## Model

| member | source | states |
|---|---|---|
| `Text.ReplaceAll` | src/lib.rs:71-74 | Rust's `str::replace`: each leftmost non-overlapping occurrence, scanned left to right, is replaced; its properties are the `ReplaceAll…` and `MatchCount…` lemmas below |
| `Text.ReplaceAllWithoutMatch` | src/lib.rs:71-74 | `str::replace` returns its input unchanged when the pattern does not occur |
| `Text.ReplaceAllLength` | src/lib.rs:71-74 | `str::replace` changes the length by (replacement length − pattern length) for every non-overlapping match it replaces |
| `Text.MatchCountZero` | src/lib.rs:71-74 | `str::replace` replaces nothing exactly when the pattern does not occur |
| `Text.ReplaceAfterInsertion` | src/lib.rs:71-74 | when no pattern can start inside another or inside the inserted text, one more replace pass of `q` by `q + ins` extends the one-scan insertion to the pattern `q` as well |
| `Text.InsertTwice` | src/lib.rs:71-74 | scanning the scan's output again inserts the text a second time after every occurrence |
| `Text.CountEachIsStarts` | src/lib.rs:71-74 | for patterns that cannot overlap, the number of insertions is the number of positions where a pattern begins |
| `Manifest.Qualify` | src/lib.rs:64-76 | `qualify_cargo_toml_paths_in_text`: the four replace passes in the source's order, each putting `<base_dir>/` after its opener; its properties are the `Qualify…` lemmas below |
| `Manifest.OpenersFacts` | src/lib.rs:71-74 | the four openers `path = "`, `path="`, `path = '` and `path='` are non-empty, no opener can begin inside another, and distinct openers differ |
| `Manifest.PrefixInert` | src/lib.rs:71-74 | when the base directory contains no opener, no opener begins inside the inserted text `<base_dir>/`: none occurs in it, and its final `/` is in no opener |
| `Manifest.QualifyIsOneScan` | src/lib.rs:64-76 | with a base directory free of openers, the four sequential replace passes equal one scan that inserts `<base_dir>/` right after every opener occurrence |
| `Manifest.QualifyUnchanged` | src/lib.rs:70-75 | text containing none of the four openers is returned unchanged, whatever the base directory |
| `Manifest.QualifyChangesIff` | src/lib.rs:70-75 | with an opener-free base directory, the text changes if and only if it contains an opener |
| `Manifest.QualifyLength` | src/lib.rs:71-74 | output length = input length + k·(len(base_dir) + 1), where k is the number of positions at which an opener begins |
| `Manifest.QualifyTwice` | src/lib.rs:71-74 | qualifying twice inserts `<base_dir>/<base_dir>/` after every opener |
| `Manifest.QualifyNotIdempotent` | src/lib.rs:71-74 | a second run changes any text that holds an opener: the transform is not idempotent |
| `Manifest.QualifyDeclaration` | src/lib.rs:71-74 | a declaration `… opener path…` with no other opener around it becomes `… opener <base_dir>/path…`, keeping the text before it and the path text byte for byte, for each of the four openers |
| `Manifest.PathFixupDoubleQuoted` | src/lib.rs:178-190 | unit test 1: `path = "../../lib-crate"` becomes `path = "/basedir/../../lib-crate"` |
| `Manifest.PathFixupDoubleQuotedTight` | src/lib.rs:193-205 | unit test 2: `path="../../lib-crate"` becomes `path="/basedir/../../lib-crate"` |
| `Manifest.PathFixupSingleQuoted` | src/lib.rs:208-220 | unit test 3: `path = '../../lib-crate'` becomes `path = '/basedir/../../lib-crate'` |
| `Manifest.PathFixupSingleQuotedTight` | src/lib.rs:223-235 | unit test 4: `path='../../lib-crate'` becomes `path='/basedir/../../lib-crate'` |
| `Paths.StartsWith` | src/lib.rs:30 | `Path::starts_with`: the base's components are a prefix of the path's components; the guard lemmas below state what it accepts and rejects |
| `Paths.Join` | src/lib.rs:109-113 | `Path::join` / `PathBuf::push` on Unix: an absolute argument replaces the base, otherwise one `/` separates them unless the base is empty or ends with one; `JoinName` and `FileNameOfJoin` state its effect on components |
| `Paths.Components` | src/lib.rs:30 | `Path::components`: the path starts with a root component exactly when it starts with `/`, a `.` component appears only first, and every normal component is a non-empty name with no `/` |
| `Paths.FileName` | src/lib.rs:139-145 | `Path::file_name` is a valid single name when present |
| `Paths.UnsplitSegments` | src/lib.rs:30 | splitting a path at `/` and joining the pieces again gives the path back |
| `Paths.SegmentsUnsplit` | src/lib.rs:30 | joining `/`-free pieces with `/` and splitting again gives the pieces back |
| `Paths.JoinName` | src/lib.rs:109-113 | `join` of a single name adds exactly one normal component |
| `Paths.FileNameOfJoin` | src/lib.rs:109-113 | the file name of `base.join(name)` is `name` |
| `Paths.TrailingSlash` | src/lib.rs:139-145 | a trailing `/` changes neither the components nor the file name |
| `Paths.NoFileNameAfterParent` | src/lib.rs:139-145 | a crate path ending in `..` (`..`, `/..` or `p/..`) has no file name, so the executable name lookup fails |
| `Paths.NoFileNameAtRoot` | src/lib.rs:139-145 | `/` and the empty path have no file name |
| `Paths.GuardAcceptsUnderTmp` | src/lib.rs:30 | every path `/tmp/…` passes `starts_with("/tmp")`; the check is lexical and does not resolve `..` |
| `Paths.GuardRejectsRelative` | src/lib.rs:30 | a relative path fails the teardown guard |
| `Paths.GuardRejectsOtherTop` | src/lib.rs:30-33 | an absolute path whose first name is not `tmp` (`/tmpx/…`, `/home/…`) fails the guard, since the comparison is by component and not by character |
| `BuildDirs.LowerHex` | src/lib.rs:18 | `{:x}` of a byte is one lower-case hex digit below 16 and two otherwise |
| `BuildDirs.LowerHexParses` | src/lib.rs:18 | the `{:x}` digits read back as the byte's value and have no leading zero |
| `BuildDirs.HexSuffix` | src/lib.rs:16-19 | the naming loop returns the concatenated `{:x}` texts of the bytes in order |
| `BuildDirs.HexStringAppend` | src/lib.rs:16-19 | the suffix of a concatenation of bytes is the concatenation of the suffixes |
| `BuildDirs.HexStringLength` | src/lib.rs:16-19 | each byte contributes one character, plus one more if it is 16 or above |
| `BuildDirs.HexStringDigits` | src/lib.rs:16-19 | every character of the suffix is in `[0-9a-f]` |
| `BuildDirs.SuffixLength` | src/lib.rs:11-19 | sixteen bytes give a suffix of 16 to 32 characters |
| `BuildDirs.HexNotInjective` | src/lib.rs:16-19 | without zero padding the bytes `01 23` and `12 03` both give `123`, so different random data can name the same directory |
| `BuildDirs.StagingPath` | src/lib.rs:22 | `format!("/tmp/build-script-{}", hex_str)`; `StagingPathGuarded` and `NewPathGuarded` state its components and that it passes the guard |
| `BuildDirs.StagingPathGuarded` | src/lib.rs:22 | `/tmp/build-script-<hex>` has the components `/`, `tmp` and one name, and so passes the guard |
| `BuildDirs.NewPathGuarded` | src/lib.rs:22-30 | every path `BuildDir::new` makes passes the teardown assertion, whatever the random bytes |
| `BuildDirs.BuildDir.constructor` | src/lib.rs:10-24 | the new directory's path is `/tmp/build-script-` plus the bytes' hex, and it passes the guard |
| `BuildDirs.BuildDir.Drop` | src/lib.rs:28-37 | teardown removes the tree only when the path passes the guard; a failing guard panics without removing, and a failing removal panics |
| `BuildCrate.RerunLine` | src/lib.rs:135 | the `cargo:rerun-if-changed=<path>` directive; `RerunLineNamesSource` states what it announces |
| `BuildCrate.RerunLineNamesSource` | src/lib.rs:135 | the outer build reads the crate directory's path, exactly, back from the directive |
| `BuildCrate.ExecutableName` | src/lib.rs:139-145 | the crate directory's `file_name()`, which names the binary; a missing name is the `NoFileName` panic in `Stage`, and `RunsStagedBinary` states the binary path built from it |
| `BuildCrate.PatchedText` | src/lib.rs:79-80 | the staged manifest's text as read, qualified against `CARGO_MANIFEST_DIR/build-script` (src/lib.rs:149-150); `EffectsPlaced` states that this is the text written back |
| `BuildCrate.BaseDir` | src/lib.rs:150 | `CARGO_MANIFEST_DIR` joined with `build-script`; `BaseDirShape` states its components |
| `BuildCrate.ManifestFile` | src/lib.rs:164 | the staged `Cargo.toml`; `ManifestFileShape` states its components |
| `BuildCrate.ManifestFileShape` | src/lib.rs:164 | the patched manifest is the staging directory plus one component, `Cargo.toml`, which is its file name |
| `BuildCrate.BinaryPath` | src/lib.rs:109-113 | `<dir>/target/debug/<name>`; `BinaryPathShape` and `RunsStagedBinary` state its components |
| `BuildCrate.CompileStep` | src/lib.rs:89-93 | the compile subprocess: the `CARGO` program, arguments `build -vv`, an environment cleared down to `PATH`, run in the staging directory; `EffectsPlaced` states it of every run |
| `BuildCrate.Stage` | src/lib.rs:139-170 | the staging body performs the planned steps up to and including the first that fails, reports the first failure in program order, and says whether the staging directory exists |
| `BuildCrate.RunBuildCrate` | src/lib.rs:133-171 | a whole run's trace is the announcement, the reached steps and the removal of the staging directory; its outcome is the first failure combined with how the removal goes |
| `BuildCrate.TraceInOrder` | src/lib.rs:135-170 | effects occur in program order, each at most once: copy, read, write, compile, run, with the rerun line first and the removal last on every exit path |
| `BuildCrate.StageStartedIff` | src/lib.rs:160-170 | a step is started if and only if every step before it succeeded |
| `BuildCrate.ScriptRunsIff` | src/lib.rs:160-170 | the build script runs if and only if the file name, the three variables, the copy, the manifest read and write, and the compile all succeed |
| `BuildCrate.EffectsPlaced` | src/lib.rs:88-116 | copy goes from the crate to the staging directory; the staged `Cargo.toml` gets the text qualified against `CARGO_MANIFEST_DIR/build-script`; the `CARGO` program runs `build -vv` in the staging directory with only `PATH` in its environment; the staged binary runs from the crate directory |
| `BuildCrate.RunsStagedBinary` | src/lib.rs:109-113 | the binary run is `/tmp/build-script-<hex>/target/debug/<last component of src>` |
| `BuildCrate.BinaryPathShape` | src/lib.rs:109-113 | `dir.join("target").join("debug").join(name)` adds three components, and `name` is its file name |
| `BuildCrate.BaseDirShape` | src/lib.rs:150 | the patch base is `CARGO_MANIFEST_DIR` with one more component, `build-script` |
| `BuildCrate.FinishedIff` | src/lib.rs:133-171 | a run ends normally if and only if no step fails and the staging directory is removed |
| `BuildCrate.EarlyFailureAborts` | src/lib.rs:137-160 | a failure before `cp -r` creates the directory aborts the process, because the drop during unwinding fails to remove a missing directory and panics again |
| `BuildCrate.FirstFailureReported` | src/lib.rs:133-171 | the panic reported first is always the first step that failed, and any failure rules out a normal finish |

## Left out

- Reading `/dev/urandom` (src/lib.rs:12-14): the sixteen bytes are a parameter. A failure to open or read it is not modelled.
- The subprocesses `cp -r`, `cargo build` and the build script (src/lib.rs:40-61, 88-105, 115-130) are not run. Whether each succeeds is a field of `World`. Spawn failure and non-zero exit are one outcome. The inherited stdout and stderr are not modelled.
- `fs::read_to_string`, `fs::write` and `fs::remove_dir_all` (src/lib.rs:79-85, 33) are effects in the trace. Their results come from `World`. Removal is modelled to fail when `cp -r` never created the directory.
- Environment variables (src/lib.rs:147-149) are a map parameter. `env_clear` followed by `env("PATH", …)` is recorded as the compile environment `{PATH}`.
- `os_str.to_str()` failing on a non-UTF-8 file name (src/lib.rs:141): paths are strings of characters, so the model cannot express this case.
- The `println!` diagnostics (src/lib.rs:32, 155-159) are left out. Only the `cargo:rerun-if-changed=<path>` line (src/lib.rs:135) is kept, as the trace's first effect.
- Manifest.QualifyIsOneScan: stated only for a base directory that contains no opener; with an opener in it, a later pass also rewrites text that an earlier pass inserted (`Qualify` models that case, but no lemma describes it).
- Manifest.QualifyLength: stated only for a base directory that contains no opener; with an opener in it, a later pass also rewrites text that an earlier pass inserted (`Qualify` models that case, but no lemma describes it).
- Manifest.QualifyChangesIff: stated only for a base directory that contains no opener; with an opener in it, a later pass also rewrites text that an earlier pass inserted (`Qualify` models that case, but no lemma describes it).
- Manifest.QualifyTwice: stated only for a base directory that contains no opener; with an opener in it, a later pass also rewrites text that an earlier pass inserted (`Qualify` models that case, but no lemma describes it).
- Manifest.QualifyNotIdempotent: stated only for a base directory that contains no opener; with an opener in it, a later pass also rewrites text that an earlier pass inserted (`Qualify` models that case, but no lemma describes it).
- Manifest.QualifyDeclaration: stated for one opener, with no other opener in the text around it, and only for a base directory that contains no opener; with an opener in it, a later pass also rewrites text that an earlier pass inserted (`Qualify` models that case, but no lemma describes it).
- Rust's `OsStr` and non-Unix path rules are not modelled.
- Two concurrent runs can pick the same directory name (`BuildDirs.HexNotInjective`). Concurrency is not modelled.
- `example/bin-crate/src/main.rs` is not part of this model. It is a `no_std` smoke-test binary with no logic.
