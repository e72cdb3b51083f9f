/*
 * `run_build_crate` (src/lib.rs:133-171): stage a build crate in a fresh
 * `/tmp` directory, patch its manifest, compile it with a cleared
 * environment, and run the binary from the original source directory.  The
 * removal of the staging directory is attempted on every exit path, when the
 * `BuildDir` value is dropped; it fails, aborting the process, when the run
 * failed before `cp -r` created the directory.
 *
 * The subprocesses (`cp -r`, `cargo build`, the build script) and the file
 * system are not executed: a `World` value says how each of them turns out,
 * and the method returns the trace of effects it would perform together with
 * how the process ends.  A panic is an early exit; dropping the `BuildDir`
 * during the unwinding it starts can panic again, which aborts the process.
 */
module BuildCrate {
  import opened Paths
  import opened Manifest
  import opened BuildDirs

  /** An effect on the outside world, in the order the program performs them. */
  datatype Effect =
    | Announce(line: string)
    | CopyTree(from: string, to: string)
    | ReadManifest(file: string)
    | WriteManifest(file: string, text: string)
    | Compile(program: string, args: seq<string>, env: map<string, string>, cwd: string)
    | Execute(program: string, cwd: string)
    | RemoveTree(dir: string)

  /** Why the program panicked. */
  datatype Failure =
    | NoFileName
    | MissingEnv(name: string)
    | CopyFailed
    | ManifestUnreadable
    | ManifestUnwritable
    | CompileFailed
    | ScriptFailed
    | GuardViolated
    | RemoveFailed

  /** How the process ends: normally, with one panic, or aborted by a panic during unwinding. */
  datatype Outcome = Finished | Panicked(cause: Failure) | Aborted(first: Failure, second: Failure)

  /**
   * How the outside world answers: whether `cp -r` succeeds and, if not,
   * whether it left the target directory behind; the staged manifest's text,
   * if it can be read; and whether the write, the compiler, the build script
   * and the removal of an existing directory succeed.
   */
  datatype World = World(
    copyOk: bool,
    copyLeavesDir: bool,
    manifest: Option<string>,
    writeOk: bool,
    compileOk: bool,
    runOk: bool,
    removeOk: bool)

  // ---------------------------------------------------------------------------
  // Path derivation

  /** The line that tells Cargo to rerun on changes (src/lib.rs:135). */
  function RerunLine(src: string): string {
    "cargo:rerun-if-changed=" + src
  }

  /**
   * What the outer build reads from a `cargo:rerun-if-changed=` line: the
   * path after the prefix, or nothing for any other line.
   */
  function RerunTarget(line: string): Option<string> {
    var prefix := "cargo:rerun-if-changed=";
    if |prefix| <= |line| && line[..|prefix|] == prefix then Some(line[|prefix|..]) else None
  }

  /** `CARGO_MANIFEST_DIR/build-script` (src/lib.rs:150). */
  function BaseDir(manifestDir: string): string {
    Join(manifestDir, "build-script")
  }

  /** The staged manifest (src/lib.rs:164). */
  function ManifestFile(dir: string): string {
    Join(dir, "Cargo.toml")
  }

  /** Where the compiled build script is looked for (src/lib.rs:109-113). */
  function BinaryPath(dir: string, name: string): string {
    Join(Join(Join(dir, "target"), "debug"), name)
  }

  /** The program, arguments, environment and working directory of the compile step (src/lib.rs:89-93). */
  function CompileStep(cargo: string, path: string, dir: string): Effect {
    Compile(cargo, ["build", "-vv"], map["PATH" := path], dir)
  }

  /** An environment variable, or the empty text when it is unset (used only where it is set). */
  function Var(env: map<string, string>, name: string): string {
    if name in env then env[name] else ""
  }

  /** The staged binary's name: the crate directory's file name (src/lib.rs:139-145). */
  function ExecutableName(src: string): string {
    var n := FileName(src);
    if n.Some? then n.value else ""
  }

  /** The text `read_to_string` returns for the staged manifest (src/lib.rs:79). */
  function ManifestText(world: World): string {
    if world.manifest.Some? then world.manifest.value else ""
  }

  // ---------------------------------------------------------------------------
  // The specification of a run

  /** The file name exists and the three environment variables are set. */
  predicate Prepared(src: string, env: map<string, string>) {
    FileName(src).Some? && "CARGO" in env && "PATH" in env && "CARGO_MANIFEST_DIR" in env
  }

  /** The five external steps, in program order, with the values they are given. */
  function Steps(src: string, dir: string, cargo: string, path: string, text: string, binary: string): seq<Effect> {
    var file := ManifestFile(dir);
    [ CopyTree(src, dir),
      ReadManifest(file),
      WriteManifest(file, text),
      CompileStep(cargo, path, dir),
      Execute(binary, src) ]
  }

  /** The manifest text written back: the text read, with its paths qualified. */
  function PatchedText(env: map<string, string>, world: World): string {
    Qualify(ManifestText(world), BaseDir(Var(env, "CARGO_MANIFEST_DIR")))
  }

  /** The five external steps, as a run that nothing stops performs them. */
  function Plan(src: string, dir: string, env: map<string, string>, world: World): seq<Effect> {
    Steps(src, dir, Var(env, "CARGO"), Var(env, "PATH"), PatchedText(env, world),
          BinaryPath(dir, ExecutableName(src)))
  }

  /** How many steps of the plan are started: each one only after all before it succeeded. */
  function Reached(src: string, env: map<string, string>, world: World): nat {
    if !Prepared(src, env) then 0
    else if !world.copyOk then 1
    else if world.manifest.None? then 2
    else if !world.writeOk then 3
    else if !world.compileOk then 4
    else 5
  }

  /** The first thing that goes wrong before the directory is dropped, in program order. */
  function FirstFailure(src: string, env: map<string, string>, world: World): Option<Failure> {
    if FileName(src).None? then Some(NoFileName)
    else if "CARGO" !in env then Some(MissingEnv("CARGO"))
    else if "PATH" !in env then Some(MissingEnv("PATH"))
    else if "CARGO_MANIFEST_DIR" !in env then Some(MissingEnv("CARGO_MANIFEST_DIR"))
    else if !world.copyOk then Some(CopyFailed)
    else if world.manifest.None? then Some(ManifestUnreadable)
    else if !world.writeOk then Some(ManifestUnwritable)
    else if !world.compileOk then Some(CompileFailed)
    else if !world.runOk then Some(ScriptFailed)
    else None
  }

  /** Whether the staging directory exists when it is dropped: only `cp -r` creates it. */
  predicate DirExists(src: string, env: map<string, string>, world: World) {
    Prepared(src, env) && (world.copyOk || world.copyLeavesDir)
  }

  /** The ending, given the first failure and whether removing the directory succeeds. */
  function Verdict(failure: Option<Failure>, removed: bool): Outcome {
    match failure
    case None => if removed then Finished else Panicked(RemoveFailed)
    case Some(f) => if removed then Panicked(f) else Aborted(f, RemoveFailed)
  }

  /** The announcement, the first `r` steps, and the removal of the staging directory. */
  function Framed(src: string, dir: string, steps: seq<Effect>, r: nat): seq<Effect>
    requires r <= |steps|
  {
    [Announce(RerunLine(src))] + steps[..r] + [RemoveTree(dir)]
  }

  /** The trace of a run: the plan, cut off after the step that fails. */
  function PlannedTrace(src: string, dir: string, env: map<string, string>, world: World): seq<Effect> {
    Framed(src, dir, Plan(src, dir, env, world), Reached(src, env, world))
  }

  // ---------------------------------------------------------------------------
  // The program

  /**
   * The body of `run_build_crate` between `BuildDir::new` and the drop
   * (src/lib.rs:139-170), with every panic as an early return.
   */
  method Stage(src: string, dir: string, env: map<string, string>, world: World)
    returns (steps: seq<Effect>, failure: Option<Failure>, dirExists: bool)
    ensures steps == Plan(src, dir, env, world)[..Reached(src, env, world)]
    ensures failure == FirstFailure(src, env, world)
    ensures dirExists == DirExists(src, env, world)
  {
    ghost var plan := Plan(src, dir, env, world);
    steps, dirExists := [], false;
    var name := FileName(src);
    if name.None? {
      failure := Some(NoFileName);
      return;
    }
    if "CARGO" !in env {
      failure := Some(MissingEnv("CARGO"));
      return;
    }
    var cargo := env["CARGO"];
    if "PATH" !in env {
      failure := Some(MissingEnv("PATH"));
      return;
    }
    var path := env["PATH"];
    if "CARGO_MANIFEST_DIR" !in env {
      failure := Some(MissingEnv("CARGO_MANIFEST_DIR"));
      return;
    }
    var baseDir := BaseDir(env["CARGO_MANIFEST_DIR"]);

    steps := steps + [CopyTree(src, dir)];
    assert steps == plan[..1];
    if !world.copyOk {
      failure, dirExists := Some(CopyFailed), world.copyLeavesDir;
      return;
    }
    dirExists := true;

    var manifestFile := ManifestFile(dir);
    steps := steps + [ReadManifest(manifestFile)];
    assert steps == plan[..2];
    if world.manifest.None? {
      failure := Some(ManifestUnreadable);
      return;
    }
    steps := steps + [WriteManifest(manifestFile, Qualify(world.manifest.value, baseDir))];
    assert steps == plan[..3];
    if !world.writeOk {
      failure := Some(ManifestUnwritable);
      return;
    }

    steps := steps + [CompileStep(cargo, path, dir)];
    assert steps == plan[..4];
    if !world.compileOk {
      failure := Some(CompileFailed);
      return;
    }

    steps := steps + [Execute(BinaryPath(dir, name.value), src)];
    assert steps == plan[..5];
    failure := if world.runOk then None else Some(ScriptFailed);
  }

  /**
   * `run_build_crate(src)`, given the sixteen random bytes, the environment
   * and the world's answers.
   */
  method RunBuildCrate(src: string, randomData: array<u8>, env: map<string, string>, world: World)
    returns (trace: seq<Effect>, outcome: Outcome)
    requires randomData.Length == 16
    ensures trace == PlannedTrace(src, StagingPath(HexString(randomData[..])), env, world)
    ensures outcome == Verdict(FirstFailure(src, env, world), DirExists(src, env, world) && world.removeOk)
  {
    trace := [Announce(RerunLine(src))];
    var buildDir := new BuildDir(randomData);
    var steps, failure, dirExists := Stage(src, buildDir.path, env, world);
    trace := trace + steps;
    var teardown := buildDir.Drop(dirExists && world.removeOk);
    if teardown != GuardPanic {
      trace := trace + [RemoveTree(buildDir.path)];
    }
    match failure
    case None =>
      outcome := match teardown
        case Removed => Finished
        case GuardPanic => Panicked(GuardViolated)
        case RemovePanic => Panicked(RemoveFailed);
    case Some(f) =>
      outcome := match teardown
        case Removed => Panicked(f)
        case GuardPanic => Aborted(f, GuardViolated)
        case RemovePanic => Aborted(f, RemoveFailed);
  }

  // ---------------------------------------------------------------------------
  // Properties of a run

  /** The stage an effect belongs to, in program order. */
  function Rank(e: Effect): nat {
    match e
    case Announce(_) => 0
    case CopyTree(_, _) => 1
    case ReadManifest(_) => 2
    case WriteManifest(_, _) => 3
    case Compile(_, _, _, _) => 4
    case Execute(_, _) => 5
    case RemoveTree(_) => 6
  }

  /** The i-th effect belongs to stage i, except the last, which is the removal. */
  predicate StageByPosition(t: seq<Effect>) {
    forall i :: 0 <= i < |t| ==> Rank(t[i]) == (if i == |t| - 1 then 6 else i)
  }

  /** Stages strictly increase along the trace: program order, each stage at most once. */
  predicate InProgramOrder(t: seq<Effect>) {
    forall i, j :: 0 <= i < j < |t| ==> Rank(t[i]) < Rank(t[j])
  }

  /**
   * Effects happen in program order, each at most once: copy before patching,
   * patching before compiling, compiling before running, and the removal of
   * the staging directory last, on every exit path.  The i-th effect belongs
   * to stage i.  Every run's trace has this form (`PlannedTrace`).
   */
  lemma TraceInOrder(src: string, dir: string, cargo: string, path: string, text: string, binary: string, r: nat)
    requires r <= 5
    ensures var t := Framed(src, dir, Steps(src, dir, cargo, path, text, binary), r);
      |t| == r + 2 && t[0] == Announce(RerunLine(src)) && t[|t| - 1] == RemoveTree(dir) &&
      StageByPosition(t) && InProgramOrder(t)
  {
    var steps := Steps(src, dir, cargo, path, text, binary);
    var t := Framed(src, dir, steps, r);
    forall i | 0 <= i < |t| ensures Rank(t[i]) == (if i == |t| - 1 then 6 else i) {
      if 0 < i < |t| - 1 {
        assert t[i] == steps[i - 1];
        assert i - 1 == 0 || i - 1 == 1 || i - 1 == 2 || i - 1 == 3 || i - 1 == 4;
      }
    }
  }

  /**
   * Stage `k` of the five is started exactly when the trace was cut off at
   * or after it, that is when every stage before it succeeded.
   */
  lemma StageStartedIff(src: string, dir: string, cargo: string, path: string, text: string, binary: string, r: nat, k: nat)
    requires r <= 5 && 1 <= k <= 5
    ensures var t := Framed(src, dir, Steps(src, dir, cargo, path, text, binary), r);
      (exists i :: 0 <= i < |t| && Rank(t[i]) == k) <==> k <= r
  {
    var t := Framed(src, dir, Steps(src, dir, cargo, path, text, binary), r);
    TraceInOrder(src, dir, cargo, path, text, binary, r);
    if k <= r {
      assert Rank(t[k]) == k;
    }
  }

  /**
   * `e` acts where the program points it: a copy from the crate directory to
   * the staging directory, a manifest read and written at the staged
   * `Cargo.toml`, the `CARGO` program run with `build -vv` in the staging
   * directory and `PATH` as its whole environment, and the staged binary run
   * from the crate directory.
   */
  predicate Placed(e: Effect, src: string, dir: string, cargo: string, path: string, text: string, binary: string) {
    (e.CopyTree? ==> e.from == src && e.to == dir) &&
    (e.ReadManifest? ==> e.file == ManifestFile(dir)) &&
    (e.WriteManifest? ==> e.file == ManifestFile(dir) && e.text == text) &&
    (e.Compile? ==> e.program == cargo && e.cwd == dir && e.args == ["build", "-vv"] && e.env.Keys == {"PATH"} && e.env["PATH"] == path) &&
    (e.Execute? ==> e.cwd == src && e.program == binary) &&
    (e.RemoveTree? ==> e.dir == dir)
  }

  /** Every effect of a cut-off run of the steps is placed. */
  lemma StepsPlaced(src: string, dir: string, cargo: string, path: string, text: string, binary: string, r: nat)
    requires r <= 5
    ensures forall e :: e in Framed(src, dir, Steps(src, dir, cargo, path, text, binary), r) ==>
      Placed(e, src, dir, cargo, path, text, binary)
  {
    var steps := Steps(src, dir, cargo, path, text, binary);
    var t := Framed(src, dir, steps, r);
    forall e | e in t ensures Placed(e, src, dir, cargo, path, text, binary) {
      var i :| 0 <= i < |t| && t[i] == e;
      if 0 < i < |t| - 1 {
        assert e == steps[i - 1];
        assert i - 1 == 0 || i - 1 == 1 || i - 1 == 2 || i - 1 == 3 || i - 1 == 4;
      }
    }
  }

  /**
   * Whatever a run reaches, each of its effects acts where the program points
   * it; the manifest written is the text read with its paths qualified against
   * `CARGO_MANIFEST_DIR/build-script`, and the binary run is the staged one.
   */
  lemma EffectsPlaced(src: string, dir: string, env: map<string, string>, world: World)
    ensures forall e :: e in PlannedTrace(src, dir, env, world) ==>
      Placed(e, src, dir, Var(env, "CARGO"), Var(env, "PATH"), PatchedText(env, world), BinaryPath(dir, ExecutableName(src)))
  {
    StepsPlaced(src, dir, Var(env, "CARGO"), Var(env, "PATH"), PatchedText(env, world),
                BinaryPath(dir, ExecutableName(src)), Reached(src, env, world));
  }

  /** The build script runs exactly when the trace was not cut off before it. */
  lemma ScriptRunsIffReached(src: string, dir: string, cargo: string, path: string, text: string, binary: string, r: nat)
    requires r <= 5
    ensures var t := Framed(src, dir, Steps(src, dir, cargo, path, text, binary), r);
      (exists i :: 0 <= i < |t| && t[i].Execute?) <==> r == 5
  {
    var t := Framed(src, dir, Steps(src, dir, cargo, path, text, binary), r);
    StageStartedIff(src, dir, cargo, path, text, binary, r, 5);
    forall i | 0 <= i < |t| ensures t[i].Execute? <==> Rank(t[i]) == 5 {
    }
  }

  /** The build script runs exactly when every earlier step succeeded. */
  lemma ScriptRunsIff(src: string, dir: string, env: map<string, string>, world: World)
    ensures var t := PlannedTrace(src, dir, env, world);
      (exists i :: 0 <= i < |t| && t[i].Execute?) <==>
      (Prepared(src, env) && world.copyOk && world.manifest.Some? && world.writeOk && world.compileOk)
  {
    ScriptRunsIffReached(src, dir, Var(env, "CARGO"), Var(env, "PATH"), PatchedText(env, world),
                         BinaryPath(dir, ExecutableName(src)), Reached(src, env, world));
  }

  /**
   * The staged binary is `<staging dir>/target/debug/<last component of src>`:
   * its components are those of the staging directory followed by `target`,
   * `debug` and the crate directory's name, which is also its file name.
   */
  lemma RunsStagedBinary(src: string, randomData: seq<u8>, env: map<string, string>, world: World)
    requires Prepared(src, env)
    ensures var dir := StagingPath(HexString(randomData));
      var name := FileName(src).value;
      var binary := BinaryPath(dir, ExecutableName(src));
      Components(binary)
        == [RootDir, Normal("tmp"), Normal("build-script-" + HexString(randomData)),
            Normal("target"), Normal("debug"), Normal(name)] &&
      FileName(binary) == Some(name)
  {
    var hex := HexString(randomData);
    HexStringHasNoSlash(randomData);
    StagingPathGuarded(hex);
    var name := ExecutableName(src);
    BinaryPathShape(StagingPath(hex), name);
    ThreeAndThree(RootDir, Normal("tmp"), Normal("build-script-" + hex), Normal("target"), Normal("debug"), Normal(name));
  }

  lemma ThreeAndThree(x: Component, y: Component, z: Component, u: Component, v: Component, w: Component)
    ensures [x, y, z] + [u, v, w] == [x, y, z, u, v, w]
  {
  }

  lemma AppendThree(x: seq<Component>, a: Component, b: Component, c: Component)
    ensures x + [a] + [b] + [c] == x + [a, b, c]
  {
  }

  /** Joining three names onto a path adds three normal components, the last being the file name. */
  lemma JoinThree(dir: string, a: string, b: string, c: string)
    requires ValidName(a) && ValidName(b) && ValidName(c)
    ensures Components(Join(Join(Join(dir, a), b), c)) == Components(dir) + [Normal(a), Normal(b), Normal(c)]
    ensures FileName(Join(Join(Join(dir, a), b), c)) == Some(c)
  {
    var da := Join(dir, a);
    var dab := Join(da, b);
    JoinName(dir, a);
    JoinName(da, b);
    JoinName(dab, c);
    FileNameOfJoin(dab, c);
    AppendThree(Components(dir), Normal(a), Normal(b), Normal(c));
  }

  /** The rerun directive names exactly the crate directory, whatever characters its path holds. */
  lemma RerunLineNamesSource(src: string)
    ensures RerunTarget(RerunLine(src)) == Some(src)
  {
    var prefix := "cargo:rerun-if-changed=";
    assert RerunLine(src)[..|prefix|] == prefix;
    assert RerunLine(src)[|prefix|..] == src;
  }

  /** The manifest patched is the staged directory's `Cargo.toml`: one more component, which is its file name. */
  lemma ManifestFileShape(dir: string)
    ensures Components(ManifestFile(dir)) == Components(dir) + [Normal("Cargo.toml")]
    ensures FileName(ManifestFile(dir)) == Some("Cargo.toml")
  {
    var n := "Cargo.toml";
    assert ValidName(n) by {
      assert n[0] == 'C';
    }
    JoinName(dir, n);
    FileNameOfJoin(dir, n);
  }

  /** Joining `target`, `debug` and a name onto a directory adds three components. */
  lemma BinaryPathShape(dir: string, name: string)
    requires ValidName(name)
    ensures Components(BinaryPath(dir, name))
         == Components(dir) + [Normal("target"), Normal("debug"), Normal(name)]
    ensures FileName(BinaryPath(dir, name)) == Some(name)
  {
    var target, debug := "target", "debug";
    assert ValidName(target) && ValidName(debug) by {
      assert target[0] == 't' && debug[0] == 'd';
    }
    JoinThree(dir, target, debug, name);
  }

  /** The patch base is the manifest directory with one more component, `build-script`. */
  lemma BaseDirShape(manifestDir: string)
    ensures Components(BaseDir(manifestDir)) == Components(manifestDir) + [Normal("build-script")]
  {
    JoinName(manifestDir, "build-script");
  }

  /** A run finishes normally exactly when every step and the removal succeed. */
  lemma FinishedIff(src: string, env: map<string, string>, world: World)
    ensures Verdict(FirstFailure(src, env, world), DirExists(src, env, world) && world.removeOk) == Finished
        <==> FirstFailure(src, env, world) == None && world.removeOk
  {
  }

  /**
   * A failure before `cp -r` has created the directory always aborts the
   * process: dropping the `BuildDir` while unwinding fails to remove a
   * directory that does not exist, which panics a second time.
   */
  lemma EarlyFailureAborts(src: string, env: map<string, string>, world: World)
    requires !Prepared(src, env) || (!world.copyOk && !world.copyLeavesDir)
    ensures var f := FirstFailure(src, env, world);
      f.Some? && Verdict(f, DirExists(src, env, world) && world.removeOk) == Aborted(f.value, RemoveFailed)
  {
  }

  /** Whatever ends the run, the panic reported first is the first step that failed. */
  lemma FirstFailureReported(src: string, env: map<string, string>, world: World)
    ensures var f := FirstFailure(src, env, world);
      var v := Verdict(f, DirExists(src, env, world) && world.removeOk);
      (v.Panicked? && v.cause != RemoveFailed ==> f == Some(v.cause)) &&
      (v.Aborted? ==> f == Some(v.first)) &&
      (f.Some? ==> v != Finished)
  {
  }
}
