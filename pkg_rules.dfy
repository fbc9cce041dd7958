// The decision rules the packaging scripts share (pkg_data/pkg.py) and the
// parts of the two scripts that apply them: the distribution and
// architecture allow-lists, the pass/fail rule of a build step, the scan of
// a step's log for error lines, the file-system guards, the preparation of
// the output directory, and command-line option handling.
//
// Every failure ends the script through exit_error(<id>, ...): it is the
// Err(ExitError(id)) outcome here; an exception the scripts do not catch
// ends them with a traceback, the Err(Raised(name)) outcome.  The file
// system is a set of file paths and a set of directory paths; subprocesses,
// their logs and the directory walk are inputs.
module PkgRules {
  import opened Wrappers
  import opened Text
  import Payload

  /** How a script ends early: exit_error (status 1), exit_info (status 0),
      or an uncaught exception of the named class. */
  datatype Exit = ExitError(id: string) | ExitInfo(id: string) | Raised(exception: string)

  // ---------------------------------------------------------------------
  // Allow-lists

  const SupportedDistId: seq<string> := ["CentOS", "Ubuntu", "RedHatEnterprise", "RedHatEnterpriseWorkstation", "SUSE"]
  const DistRpm: seq<string> := ["CentOS", "RedHatEnterprise", "RedHatEnterpriseWorkstation", "SUSE"]
  const DistDeb: seq<string> := ["Ubuntu"]
  const SupportedArch: seq<string> := ["x86_64", "amd64", "ppc64le", "ppc64"]

  /** The RPM and Debian families split the supported distributions between them. */
  lemma DistFamiliesPartition()
    ensures forall d :: d in SupportedDistId <==> d in DistRpm || d in DistDeb
    ensures forall d :: !(d in DistRpm && d in DistDeb)
    ensures |SupportedDistId| == 5 && |SupportedArch| == 4
  {
    assert "Ubuntu"[0] != "CentOS"[0] && "Ubuntu"[0] != "RedHatEnterprise"[0];
    assert "Ubuntu"[0] != "RedHatEnterpriseWorkstation"[0] && "Ubuntu"[0] != "SUSE"[0];
  }

  /** The system check of both scripts: an unsupported distribution stops
      them first, then an unsupported architecture. */
  function CheckSystem(distId: string, arch: string): (r: Result<(), Exit>)
    ensures r.Ok? <==> distId in SupportedDistId && arch in SupportedArch
    ensures distId !in SupportedDistId ==> r == Err(ExitError("GPKG-14"))
    ensures distId in SupportedDistId && arch !in SupportedArch ==> r == Err(ExitError("GPKG-17"))
  {
    if distId !in SupportedDistId then Err(ExitError("GPKG-14"))
    else if arch !in SupportedArch then Err(ExitError("GPKG-17"))
    else Ok(())
  }

  lemma UnknownSystemsRejected()
    ensures CheckSystem("Debian", "x86_64") == Err(ExitError("GPKG-14"))
    ensures CheckSystem("Ubuntu", "arm64") == Err(ExitError("GPKG-17"))
    ensures CheckSystem("Ubuntu", "amd64") == Ok(())
  {
    assert "Debian" != "CentOS" && "Debian" != "Ubuntu" && "Debian" != "SUSE";
    assert "Debian"[0] != "RedHatEnterprise"[0] && "Debian"[0] != "RedHatEnterpriseWorkstation"[0];
    assert "arm64"[0] != "x86_64"[0] && "arm64" != "amd64" && "arm64"[0] != "ppc64le"[0] && "arm64"[0] != "ppc64"[0];
  }

  // ---------------------------------------------------------------------
  // Scanning a step's log for error lines

  const ErrorTag := "ERROR: ["

  /** Python's line[0:n]. */
  function Head(line: string, n: nat): (r: string)
    ensures |r| == if n < |line| then n else |line|
    ensures StartsWith(line, r)
  {
    line[..if n < |line| then n else |line|]
  }

  /** check_log_error as written: each line's first len(tag)-1 characters are
      compared with the whole tag. */
  method CheckLogErrorAsWritten(lines: seq<string>) returns (stepError: bool)
    ensures stepError <==> exists k :: 0 <= k < |lines| && ErrorTag == Head(lines[k], |ErrorTag| - 1)
    ensures !stepError
  {
    stepError := false;
    var i := 0;
    while i < |lines|
      invariant 0 <= i <= |lines|
      invariant stepError <==> exists k :: 0 <= k < i && ErrorTag == Head(lines[k], |ErrorTag| - 1)
      invariant !stepError
    {
      if ErrorTag == Head(lines[i], |ErrorTag| - 1) {
        stepError := true;
      }
      i := i + 1;
    }
  }

  /** The comparison of check_log_error can never hold: seven characters are never eight. */
  lemma AsWrittenNeverMatches(line: string)
    ensures ErrorTag != Head(line, |ErrorTag| - 1)
  {
    assert |Head(line, 7)| <= 7 < |ErrorTag|;
  }

  /** A log line reporting an error, which the scan as written lets through. */
  lemma AsWrittenMissesErrorLine()
    ensures StartsWith("ERROR: [Synth 8-439] module not found", ErrorTag)
    ensures ErrorTag != Head("ERROR: [Synth 8-439] module not found", |ErrorTag| - 1)
  {
    AsWrittenNeverMatches("ERROR: [Synth 8-439] module not found");
  }

  /** check_log_error as evidently intended: a step fails when some line of its log starts with the tag. */
  method CheckLogError(lines: seq<string>) returns (stepError: bool)
    ensures stepError <==> exists k :: 0 <= k < |lines| && StartsWith(lines[k], ErrorTag)
  {
    stepError := false;
    var i := 0;
    while i < |lines|
      invariant 0 <= i <= |lines|
      invariant stepError <==> exists k :: 0 <= k < i && StartsWith(lines[k], ErrorTag)
    {
      if Head(lines[i], |ErrorTag|) == ErrorTag {
        stepError := true;
      }
      i := i + 1;
    }
  }

  // ---------------------------------------------------------------------
  // The pass/fail rule of a build step

  /** Whether a step whose command returned rc ends the script: the log check
      and the return-code check are skipped when errors are ignored; an
      expected failure turns the return-code check around. */
  predicate StepFails(rc: int, ignoreError: bool, expectFail: bool, logFlagged: bool)
  {
    !ignoreError && (logFlagged || (!expectFail && rc != 0) || (expectFail && rc == 0))
  }

  /** exec_step_cmd as written, after the command has run: the log scan as
      written never flags a log, so only the return code decides. */
  method ExecStepCmdAsWritten(id: string, rc: int, log: Option<seq<string>>, ignoreError: bool, expectFail: bool)
    returns (r: Result<int, Exit>)
    ensures r.Err? <==> StepFails(rc, ignoreError, expectFail, false)
    ensures r.Err? ==> r.error == ExitError(id)
    ensures r.Ok? ==> r.value == rc
  {
    if !ignoreError {
      if log.Some? {
        var stepError := CheckLogErrorAsWritten(log.value);
        if stepError {
          return Err(ExitError(id));
        }
      }
      if !expectFail && rc != 0 {
        return Err(ExitError(id));
      } else if expectFail && rc == 0 {
        return Err(ExitError(id));
      }
    }
    return Ok(rc);
  }

  /** A step whose command returned 0 but whose log reports an error passes
      as written; with the intended scan it ends the script. */
  method StepWithErrorLogPasses() returns (asWritten: Result<int, Exit>, intended: Result<int, Exit>)
    ensures asWritten == Ok(0)
    ensures intended == Err(ExitError("synth"))
  {
    var log := Some(["INFO: starting", "ERROR: [Synth 8-439] module not found"]);
    assert StartsWith(log.value[1], ErrorTag);
    asWritten := ExecStepCmdAsWritten("synth", 0, log, false, false);
    intended := ExecStepCmd("synth", 0, log, false, false);
  }

  /** exec_step_cmd with the intended log scan: scan the log when there is
      one, then judge the return code; on success the return code is handed
      back. */
  method ExecStepCmd(id: string, rc: int, log: Option<seq<string>>, ignoreError: bool, expectFail: bool)
    returns (r: Result<int, Exit>)
    ensures r.Err? <==> StepFails(rc, ignoreError, expectFail,
                                  log.Some? && exists k :: 0 <= k < |log.value| && StartsWith(log.value[k], ErrorTag))
    ensures r.Err? ==> r.error == ExitError(id)
    ensures r.Ok? ==> r.value == rc
  {
    if !ignoreError {
      if log.Some? {
        var stepError := CheckLogError(log.value);
        if stepError {
          return Err(ExitError(id));
        }
      }
      if !expectFail && rc != 0 {
        return Err(ExitError(id));
      } else if expectFail && rc == 0 {
        return Err(ExitError(id));
      }
    }
    return Ok(rc);
  }

  /** With a clean log (which is every log for the scan as written), a step
      fails exactly on a non-zero return code, or on a zero one when failure
      is expected; never when errors are ignored. */
  lemma StepRuleOnReturnCode(rc: int, ignoreError: bool, expectFail: bool)
    ensures StepFails(rc, ignoreError, expectFail, false)
      <==> !ignoreError && ((!expectFail && rc != 0) || (expectFail && rc == 0))
    ensures ignoreError ==> !StepFails(rc, ignoreError, expectFail, true)
    ensures !ignoreError ==> (StepFails(rc, false, true, false) <==> !StepFails(rc, false, false, false))
  {
  }

  // ---------------------------------------------------------------------
  // The file system and its guards

  /** p is dir itself or lies below it. */
  predicate Under(p: string, dir: string) {
    p == dir || StartsWith(p, dir + "/")
  }

  /** The proper ancestors of path p: every non-empty prefix of p that ends
      just before a '/'.  os.makedirs creates those that are missing. */
  function Ancestors(p: string): (anc: set<string>)
    ensures forall a :: a in anc ==> |a| < |p| && !Under(a, p)
  {
    set i | 0 < i < |p| && p[i] == '/' :: p[..i]
  }

  /** The ancestors of a child of d are d and the ancestors of d. */
  lemma AncestorsOfChild(d: string, name: string)
    requires '/' !in name
    ensures Ancestors(d + "/" + name) <= Ancestors(d) + {d}
  {
    var p := d + "/" + name;
    forall a | a in Ancestors(p)
      ensures a in Ancestors(d) + {d}
    {
      var i :| 0 < i < |p| && p[i] == '/' && a == p[..i];
      if i < |d| {
        assert p[i] == d[i] && p[..i] == d[..i];
      } else if i == |d| {
        assert p[..i] == d;
      }
    }
  }

  class FileSystem {
    var files: set<string>
    var dirs: set<string>

    constructor(files0: set<string>, dirs0: set<string>)
      ensures files == files0 && dirs == dirs0
    {
      files := files0;
      dirs := dirs0;
    }

    /** check_file_exists: fails exactly when the path is not a file. */
    method CheckFileExists(id: string, path: string) returns (r: Result<(), Exit>)
      ensures r.Ok? <==> path in files
      ensures r.Err? ==> r.error == ExitError(id)
    {
      if path !in files {
        return Err(ExitError(id));
      }
      return Ok(());
    }

    /** check_dir_exists: fails exactly when the path is not a directory. */
    method CheckDirExists(id: string, path: string) returns (r: Result<(), Exit>)
      ensures r.Ok? <==> path in dirs
      ensures r.Err? ==> r.error == ExitError(id)
    {
      if path !in dirs {
        return Err(ExitError(id));
      }
      return Ok(());
    }

    /** force_remove_dir: rmtree, then make sure the directory is gone.
        Whether rmtree raises, and whether the directory is found again
        afterwards, are the outcomes of the operating system. */
    method ForceRemoveDir(id: string, dir: string, raises: bool, survives: bool) returns (r: Result<(), Exit>)
      modifies this
      ensures r.Ok? <==> !raises && !survives
      ensures r.Err? ==> r.error == ExitError(id)
      ensures raises ==> files == old(files) && dirs == old(dirs)
      ensures !raises ==> files == (set p | p in old(files) && !Under(p, dir))
      ensures !raises ==> dirs == (set p | p in old(dirs) && !Under(p, dir)) + (if survives then {dir} else {})
    {
      if raises {
        return Err(ExitError(id));
      }
      files := set p | p in files && !Under(p, dir);
      dirs := (set p | p in dirs && !Under(p, dir)) + (if survives then {dir} else {});
      if dir in dirs {
        return Err(ExitError(id));
      }
      return Ok(());
    }

    /** os.makedirs(p): raises FileExistsError when p already exists, and
        NotADirectoryError when one of its ancestors is a regular file;
        otherwise p and its missing ancestors become directories. */
    method MakeDirs(p: string) returns (r: Result<(), Exit>)
      modifies this
      ensures r.Ok? <==> p !in old(dirs) && p !in old(files) && old(files) !! Ancestors(p)
      ensures (p in old(dirs) || p in old(files)) ==> r == Err(Raised("FileExistsError"))
      ensures r.Err? ==> files == old(files) && dirs == old(dirs)
      ensures r.Ok? ==> files == old(files) && dirs == old(dirs) + Ancestors(p) + {p}
    {
      if p in dirs || p in files {
        return Err(Raised("FileExistsError"));
      }
      if !(files !! Ancestors(p)) {
        return Err(Raised("NotADirectoryError"));
      }
      dirs := dirs + Ancestors(p) + {p};
      return Ok(());
    }

    /** `if not os.path.isdir(p): os.makedirs(p)`. */
    method MakeMissingDir(p: string) returns (r: Result<(), Exit>)
      modifies this
      ensures r.Ok? <==> p in old(dirs) || (p !in old(files) && old(files) !! Ancestors(p))
      ensures p !in old(dirs) && p in old(files) ==> r == Err(Raised("FileExistsError"))
      ensures files == old(files)
      ensures r.Err? ==> dirs == old(dirs)
      ensures r.Ok? ==> dirs == old(dirs) + (if p in old(dirs) then {} else Ancestors(p) + {p})
    {
      if p in dirs {
        return Ok(());
      }
      r := MakeDirs(p);
    }

    /** copy_source_file: the source must be a file; the destination directory
        is created when missing; shutil.copy then writes the copy, named
        after the source's file name, into it, raising when that name is a
        directory or is the source itself. */
    method CopySourceFile(id: string, src: string, destDir: string) returns (r: Result<(), Exit>)
      modifies this
      ensures src !in old(files) ==> r == Err(ExitError(id))
      ensures r.Ok? <==>
        && src in old(files)
        && (destDir in old(dirs) || (destDir !in old(files) && old(files) !! Ancestors(destDir)))
        && Payload.InstalledAt(destDir, src) != src
        && Payload.InstalledAt(destDir, src) !in old(dirs) + Ancestors(destDir) + {destDir}
      ensures src in old(files) && destDir !in old(dirs) && destDir in old(files) ==> r == Err(Raised("FileExistsError"))
      ensures r.Err? ==> files == old(files)
      ensures r.Ok? ==> dirs == old(dirs) + (if destDir in old(dirs) then {} else Ancestors(destDir) + {destDir})
      ensures r.Ok? ==> files == old(files) + {Payload.InstalledAt(destDir, src)}
    {
      if src !in files {
        return Err(ExitError(id));
      }
      r := MakeMissingDir(destDir);
      if r.Err? {
        return;
      }
      var dest := Payload.InstalledAt(destDir, src);
      if dest == src {
        return Err(Raised("SameFileError"));
      }
      if dest in dirs {
        return Err(Raised("IsADirectoryError"));
      }
      files := files + {dest};
      return Ok(());
    }

    /** The start of both scripts: an existing output directory is an error
        unless --force is given, in which case it is removed first; then
        os.makedirs creates the output directory, with its missing parents,
        and the log, tmp and bkp_design directories are created when they
        are not directories already. */
    method PrepareOutputDir(outputDir: string, force: bool, raises: bool, survives: bool) returns (r: Result<(), Exit>)
      modifies this
      ensures old(outputDir in dirs) && !force ==> r == Err(ExitError("GPKG-17")) && files == old(files) && dirs == old(dirs)
      ensures old(outputDir in dirs) && force ==> (r.Ok? <==> !raises && !survives && old(files) !! Ancestors(outputDir))
      ensures old(outputDir !in dirs) ==> (r.Ok? <==> OutputDirCreatable(old(files), old(dirs), outputDir))
      ensures old(outputDir !in dirs && outputDir in files) ==>
        r == Err(Raised("FileExistsError")) && files == old(files) && dirs == old(dirs)
      ensures r.Ok? ==> files == (set p | p in old(files) && !(old(outputDir in dirs) && Under(p, outputDir)))
      ensures r.Ok? ==> dirs == (set p | p in old(dirs) && !(old(outputDir in dirs) && Under(p, outputDir)))
                               + Ancestors(outputDir) + OutputSubdirs(outputDir)
    {
      if outputDir in dirs {
        if !force {
          return Err(ExitError("GPKG-17"));
        }
        r := ForceRemoveDir("GPKG-61", outputDir, raises, survives);
        if r.Err? {
          return r;
        }
      } else {
        assert files == set p | p in old(files) && !(old(outputDir in dirs) && Under(p, outputDir));
        assert dirs == set p | p in old(dirs) && !(old(outputDir in dirs) && Under(p, outputDir));
      }
      if old(outputDir in dirs) {
        CreatableAfterRemoval(old(files), dirs, outputDir);
      }
      r := CreateOutputDirs(outputDir);
    }

    /** os.makedirs of a new output directory, then its three subdirectories
        when they are not directories already. */
    method CreateOutputDirs(out: string) returns (r: Result<(), Exit>)
      requires out !in dirs
      modifies this
      ensures r.Ok? <==> OutputDirCreatable(old(files), old(dirs), out)
      ensures out in old(files) ==> r == Err(Raised("FileExistsError")) && dirs == old(dirs)
      ensures files == old(files)
      ensures r.Ok? ==> dirs == old(dirs) + Ancestors(out) + OutputSubdirs(out)
    {
      SubdirsOutside(out);
      r := MakeDirs(out);
      if r.Err? {
        return;
      }
      r := MakeOutputSubdirs(out);
    }

    /** The log, tmp and bkp_design directories of an existing output
        directory, each created unless it is a directory already. */
    method MakeOutputSubdirs(out: string) returns (r: Result<(), Exit>)
      requires out in dirs && Ancestors(out) <= dirs && out !in files && files !! Ancestors(out)
      modifies this
      ensures r.Ok? <==> && (out + "/log" in old(files) ==> out + "/log" in old(dirs))
                         && (out + "/tmp" in old(files) ==> out + "/tmp" in old(dirs))
                         && (out + "/bkp_design" in old(files) ==> out + "/bkp_design" in old(dirs))
      ensures files == old(files)
      ensures r.Ok? ==> dirs == old(dirs) + {out + "/log", out + "/tmp", out + "/bkp_design"}
    {
      SubdirPaths(out);
      r := MakeOutputSubdir(out, "log");
      if r.Err? {
        return;
      }
      ghost var d1 := dirs;
      r := MakeOutputSubdir(out, "tmp");
      if r.Err? {
        return;
      }
      r := MakeOutputSubdir(out, "bkp_design");
      if r.Ok? {
        assert dirs == d1 + {out + "/tmp", out + "/bkp_design"};
      }
    }

    /** `if not os.path.isdir(<output>/<name>): os.makedirs(...)`, once the
        output directory exists: only a regular file of that name stops it. */
    method MakeOutputSubdir(out: string, name: string) returns (r: Result<(), Exit>)
      requires '/' !in name
      requires out in dirs && Ancestors(out) <= dirs && out !in files && files !! Ancestors(out)
      modifies this
      ensures r.Ok? <==> out + "/" + name in old(dirs) || out + "/" + name !in old(files)
      ensures r.Err? ==> r == Err(Raised("FileExistsError")) && dirs == old(dirs)
      ensures files == old(files) && out in dirs && Ancestors(out) <= dirs
      ensures r.Ok? ==> dirs == old(dirs) + {out + "/" + name}
    {
      AncestorsOfChild(out, name);
      r := MakeMissingDir(out + "/" + name);
    }
  }

  lemma SubdirPaths(out: string)
    ensures out + "/" + "log" == out + "/log" && out + "/" + "tmp" == out + "/tmp"
    ensures out + "/" + "bkp_design" == out + "/bkp_design"
  {
    assert "/" + "log" == "/log" && "/" + "tmp" == "/tmp" && "/" + "bkp_design" == "/bkp_design";
    assert out + "/" + "log" == out + ("/" + "log");
    assert out + "/" + "tmp" == out + ("/" + "tmp");
    assert out + "/" + "bkp_design" == out + ("/" + "bkp_design");
  }

  /** The subdirectories are neither the output directory nor above it. */
  lemma SubdirsOutside(out: string)
    ensures forall s :: s in {out + "/log", out + "/tmp", out + "/bkp_design"} ==> s != out && s !in Ancestors(out) && Under(s, out)
  {
    forall s | s in {out + "/log", out + "/tmp", out + "/bkp_design"}
      ensures s != out && s !in Ancestors(out) && Under(s, out)
    {
      assert s in OutputSubdirs(out);
      assert |s| > |out|;
    }
  }

  /** Once everything under the output directory is removed, only a file
      above it can stop its creation. */
  lemma CreatableAfterRemoval(files: set<string>, dirs: set<string>, out: string)
    ensures OutputDirCreatable((set p | p in files && !Under(p, out)), dirs, out) <==> files !! Ancestors(out)
  {
    SubdirsOutside(out);
    var kept := set p | p in files && !Under(p, out);
    assert kept * Ancestors(out) == files * Ancestors(out);
  }

  /** os.makedirs of the output directory and the three creations after it
      succeed: no regular file sits at the output directory or above it,
      and each subdirectory is a directory already or not a file. */
  predicate OutputDirCreatable(files: set<string>, dirs: set<string>, out: string) {
    && out !in files && files !! Ancestors(out)
    && (out + "/log" in files ==> out + "/log" in dirs)
    && (out + "/tmp" in files ==> out + "/tmp" in dirs)
    && (out + "/bkp_design" in files ==> out + "/bkp_design" in dirs)
  }

  /** `-o out` where out is a regular file: os.path.isdir is false, so
      os.makedirs is reached and raises; the same file stops a copy into it. */
  method OutputPathIsFile() returns (prepared: Result<(), Exit>, copied: Result<(), Exit>)
    ensures prepared == Err(Raised("FileExistsError"))
    ensures copied == Err(Raised("FileExistsError"))
  {
    var fs := new FileSystem({"out", "src/ami.c"}, {"src"});
    prepared := fs.PrepareOutputDir("out", false, false, false);
    copied := fs.CopySourceFile("GPKG-40", "src/ami.c", "out");
  }

  /** The directories both scripts create at the start of a run. */
  function OutputSubdirs(outputDir: string): (ds: set<string>)
    ensures forall d :: d in ds ==> Under(d, outputDir)
    ensures outputDir in ds && outputDir + "/log" in ds
    ensures outputDir + "/tmp" in ds && outputDir + "/bkp_design" in ds
  {
    {outputDir, outputDir + "/log", outputDir + "/tmp", outputDir + "/bkp_design"}
  }

  // ---------------------------------------------------------------------
  // Command-line options

  /** The branch of the options loop an option spelling selects. */
  datatype OptKind = Help | OutputDir | PkgRelease | Verbose | Force | Version | NoDriver | NoGenVersion | Unknown

  function KindOf(opt: string): OptKind
  {
    if opt == "--help" || opt == "-h" then Help
    else if opt == "--output_dir" || opt == "-o" then OutputDir
    else if opt == "--pkg_release" || opt == "-r" then PkgRelease
    else if opt == "--verbose" || opt == "-V" then Verbose
    else if opt == "--force" || opt == "-f" then Force
    else if opt == "--version" || opt == "-v" then Version
    else if opt == "--no_driver" || opt == "-n" then NoDriver
    else if opt == "--no_gen_version" || opt == "-g" then NoGenVersion
    else Unknown
  }

  /** Whether the options loop of a flavour has a branch for opt.  getopt
      accepts the same short options 'ho:r:Vfvng' in both scripts, but only
      the driver flavour has a branch for -n / --no_driver. */
  predicate Handled(opt: string, driverFlavour: bool) {
    var k := KindOf(opt);
    k != Unknown && (k != NoDriver || driverFlavour)
  }

  /** The index of the first option without a branch, or the number of options. */
  function FirstUnhandled(opts: seq<(string, string)>, driverFlavour: bool): (n: nat)
    ensures n <= |opts|
    ensures forall k :: 0 <= k < n ==> Handled(opts[k].0, driverFlavour)
    ensures n < |opts| ==> !Handled(opts[n].0, driverFlavour)
  {
    if |opts| == 0 || !Handled(opts[0].0, driverFlavour) then 0
    else 1 + FirstUnhandled(opts[1..], driverFlavour)
  }

  /** Whether an option of the given kind occurs among the options. */
  predicate Given(opts: seq<(string, string)>, kind: OptKind) {
    exists k :: 0 <= k < |opts| && KindOf(opts[k].0) == kind
  }

  /** The argument of the last option of the given kind. */
  function LastArg(opts: seq<(string, string)>, kind: OptKind): Option<string>
  {
    if |opts| == 0 then None
    else if KindOf(opts[|opts| - 1].0) == kind then Some(opts[|opts| - 1].1)
    else LastArg(opts[..|opts| - 1], kind)
  }

  /** str(year) + zfill(month, 2) + zfill(day, 2). */
  function DefaultPkgRelease(year: nat, month: nat, day: nat): string
  {
    NatToString(year) + ZFill(NatToString(month), 2) + ZFill(NatToString(day), 2)
  }

  /** The values the options loop sets, in one record. */
  datatype Settings = Settings(help: bool, outputDir: Option<string>, pkgRelease: Option<string>,
                               force: bool, verbose: bool, version: bool, noDriver: bool, noGenVersion: bool)

  const Defaults := Settings(false, None, None, false, false, false, false, false)

  /** One branch of the options loop. */
  function ApplyOption(s: Settings, opt: string, arg: string): Settings
  {
    match KindOf(opt)
    case Help => s.(help := true)
    case OutputDir => s.(outputDir := Some(arg))
    case PkgRelease => s.(pkgRelease := Some(arg))
    case Verbose => s.(verbose := true)
    case Force => s.(force := true)
    case Version => s.(version := true)
    case NoDriver => s.(noDriver := true)
    case NoGenVersion => s.(noGenVersion := true)
    case Unknown => s
  }

  /** The settings after applying the options in order to s. */
  function ParseFrom(s: Settings, opts: seq<(string, string)>): Settings
  {
    if |opts| == 0 then s
    else ApplyOption(ParseFrom(s, opts[..|opts| - 1]), opts[|opts| - 1].0, opts[|opts| - 1].1)
  }

  /** The settings the options loop leaves, starting from the defaults. */
  function Parse(opts: seq<(string, string)>): Settings
  {
    ParseFrom(Defaults, opts)
  }

  /** What parsing leaves: a flag is set exactly when one of its spellings was
      given, and an option with an argument keeps the argument of its last occurrence. */
  lemma {:induction false} ParseReadsOptions(opts: seq<(string, string)>)
    ensures Parse(opts).help == Given(opts, Help)
    ensures Parse(opts).force == Given(opts, Force)
    ensures Parse(opts).verbose == Given(opts, Verbose)
    ensures Parse(opts).version == Given(opts, Version)
    ensures Parse(opts).noDriver == Given(opts, NoDriver)
    ensures Parse(opts).noGenVersion == Given(opts, NoGenVersion)
    ensures Parse(opts).outputDir == LastArg(opts, OutputDir)
    ensures Parse(opts).pkgRelease == LastArg(opts, PkgRelease)
    decreases |opts|
  {
    if |opts| > 0 {
      var init := opts[..|opts| - 1];
      var o := opts[|opts| - 1];
      ParseReadsOptions(init);
      GivenStep(init, o);
      assert init + [o] == opts;
      ApplyOptionFields(Parse(init), o.0, o.1);
    }
  }

  /** One option changes the field of its kind and nothing else. */
  lemma ApplyOptionFields(s: Settings, opt: string, arg: string)
    ensures var k := KindOf(opt); var t := ApplyOption(s, opt, arg);
      && t.help == (s.help || k == Help)
      && t.force == (s.force || k == Force)
      && t.verbose == (s.verbose || k == Verbose)
      && t.version == (s.version || k == Version)
      && t.noDriver == (s.noDriver || k == NoDriver)
      && t.noGenVersion == (s.noGenVersion || k == NoGenVersion)
      && t.outputDir == (if k == OutputDir then Some(arg) else s.outputDir)
      && t.pkgRelease == (if k == PkgRelease then Some(arg) else s.pkgRelease)
  {
    match KindOf(opt) {
      case Help =>
      case OutputDir =>
      case PkgRelease =>
      case Verbose =>
      case Force =>
      case Version =>
      case NoDriver =>
      case NoGenVersion =>
      case Unknown =>
    }
  }

  lemma GivenStep(init: seq<(string, string)>, o: (string, string))
    ensures forall kind :: Given(init + [o], kind) <==> Given(init, kind) || KindOf(o.0) == kind
  {
    var p := init + [o];
    forall kind
      ensures Given(p, kind) <==> Given(init, kind) || KindOf(o.0) == kind
    {
      if Given(init, kind) {
        var k :| 0 <= k < |init| && KindOf(init[k].0) == kind;
        assert p[k] == init[k];
      }
      if Given(p, kind) {
        var k :| 0 <= k < |p| && KindOf(p[k].0) == kind;
        if k < |init| {
          assert init[k] == p[k];
        }
      }
      assert p[|init|] == o;
    }
  }

  class Options {
    const driverFlavour: bool
    var help: bool
    var outputDir: Option<string>
    var pkgRelease: Option<string>
    var force: bool
    var verbose: bool
    var version: bool
    var noDriver: bool
    var noGenVersion: bool

    constructor(driverFlavour: bool)
      ensures this.driverFlavour == driverFlavour
      ensures Current() == Defaults
    {
      this.driverFlavour := driverFlavour;
      help := false;
      outputDir := None;
      pkgRelease := None;
      force := false;
      verbose := false;
      version := false;
      noDriver := false;
      noGenVersion := false;
    }

    /** The fields, read as one record. */
    function Current(): Settings
      reads this
    {
      Settings(help, outputDir, pkgRelease, force, verbose, version, noDriver, noGenVersion)
    }

    /** One pass of the options loop for an option with a branch. */
    method Apply(opt: string, arg: string)
      modifies this
      ensures Current() == ApplyOption(old(Current()), opt, arg)
    {
      match KindOf(opt) {
        case Help => help := true;
        case OutputDir => outputDir := Some(arg);
        case PkgRelease => pkgRelease := Some(arg);
        case Verbose => verbose := true;
        case Force => force := true;
        case Version => version := true;
        case NoDriver => noDriver := true;
        case NoGenVersion => noGenVersion := true;
        case Unknown =>
      }
    }

    /** The options loop: options are applied in order; the loop stops at
        the first one without a branch, whose index it returns. */
    method ApplyAll(opts: seq<(string, string)>) returns (n: nat)
      modifies this
      ensures n == FirstUnhandled(opts, driverFlavour)
      ensures Current() == ParseFrom(old(Current()), opts[..n])
    {
      n := 0;
      while n < |opts| && Handled(opts[n].0, driverFlavour)
        invariant n <= FirstUnhandled(opts, driverFlavour)
        invariant Current() == ParseFrom(old(Current()), opts[..n])
      {
        assert opts[..n + 1][..n] == opts[..n];
        Apply(opts[n].0, opts[n].1);
        n := n + 1;
      }
    }

    /** getOptions over the (option, argument) pairs getopt returns: the
        options are applied in order until one has no branch; leftover
        arguments are an error; help or version end the script; a missing
        package release defaults to today's date. */
    method GetOptions(opts: seq<(string, string)>, remainder: seq<string>, year: nat, month: nat, day: nat)
      returns (r: Result<(), Exit>)
      requires Current() == Defaults
      modifies this
      ensures var n := FirstUnhandled(opts, driverFlavour);
        && (n < |opts| ==> r == Err(ExitError("GPKG-02")) && Current() == Parse(opts[..n]))
        && (n == |opts| && |remainder| > 0 ==> r == Err(ExitError("GPKG-03")))
        && (n == |opts| && |remainder| == 0 && (Parse(opts).help || Parse(opts).version) ==> r == Err(ExitInfo("GPKG-04")))
        && (r.Ok? <==> n == |opts| && |remainder| == 0 && !Parse(opts).help && !Parse(opts).version)
        && (n == |opts| && r.Err? ==> Current() == Parse(opts))
        && (r.Ok? ==> Current() == Parse(opts).(pkgRelease := Some(match Parse(opts).pkgRelease
                                                                   case Some(a) => a
                                                                   case None => DefaultPkgRelease(year, month, day))))
    {
      var n := ApplyAll(opts);
      if n < |opts| {
        return Err(ExitError("GPKG-02"));
      }
      assert opts[..n] == opts;
      if |remainder| > 0 {
        return Err(ExitError("GPKG-03"));
      }
      if help || version {
        return Err(ExitInfo("GPKG-04"));
      }
      if pkgRelease.None? {
        pkgRelease := Some(DefaultPkgRelease(year, month, day));
      }
      return Ok(());
    }
  }

  /** The tool flavour's getopt accepts -n, but its loop has no branch for it:
      the script stops with "Command line option not handled". */
  lemma ToolRejectsNoDriver()
    ensures 'n' in ShortOptions
    ensures !Handled("-n", false) && Handled("-n", true)
    ensures FirstUnhandled([("-n", "")], false) == 0
    ensures FirstUnhandled([("-f", ""), ("-n", "")], true) == 2
  {
  }

  /** The short options both scripts hand to getopt. */
  const ShortOptions := "ho:r:Vfvng"

  // ---------------------------------------------------------------------
  // The default package release

  /** Leading zeros do not change a decimal value. */
  lemma {:induction false} LeadingZero(s: string)
    requires forall k :: 0 <= k < |s| ==> '0' <= s[k] <= '9'
    ensures DecimalValue("0" + s) == DecimalValue(s)
    decreases |s|
  {
    if |s| > 0 {
      assert ("0" + s)[..|s|] == "0" + s[..|s| - 1];
      LeadingZero(s[..|s| - 1]);
    }
  }

  /** Padding digits with zeros leaves only digits. */
  lemma ZFillDigits(s: string, width: nat)
    requires forall k :: 0 <= k < |s| ==> '0' <= s[k] <= '9'
    ensures forall k :: 0 <= k < |ZFill(s, width)| ==> '0' <= ZFill(s, width)[k] <= '9'
  {
    var z := ZFill(s, width);
    if |s| < width {
      var pad := width - |s|;
      assert z == seq(pad, _ => '0') + s;
      forall k | 0 <= k < |z|
        ensures '0' <= z[k] <= '9'
      {
        if k >= pad {
          assert z[k] == s[k - pad];
        }
      }
    }
  }

  lemma {:induction false} ZFillValue(s: string, width: nat)
    requires forall k :: 0 <= k < |s| ==> '0' <= s[k] <= '9'
    ensures forall k :: 0 <= k < |ZFill(s, width)| ==> '0' <= ZFill(s, width)[k] <= '9'
    ensures DecimalValue(ZFill(s, width)) == DecimalValue(s)
    decreases width
  {
    ZFillDigits(s, width);
    if |s| < width {
      var z := ZFill(s, width);
      assert z == "0" + ZFill(s, width - 1) by {
        if |s| < width - 1 {
          assert seq(width - |s|, _ => '0') == "0" + seq(width - 1 - |s|, _ => '0');
        } else {
          assert seq(width - |s|, _ => '0') == "0";
        }
      }
      ZFillValue(s, width - 1);
      LeadingZero(ZFill(s, width - 1));
    }
  }

  lemma YearField(year: nat)
    requires 1000 <= year <= 9999
    ensures |NatToString(year)| == 4
  {
    var a := year / 10;
    var b := a / 10;
    var c := b / 10;
    assert 100 <= a <= 999 && 10 <= b <= 99 && 1 <= c <= 9;
    assert |NatToString(c)| == 1;
    assert |NatToString(b)| == 2;
    assert |NatToString(a)| == 3;
  }

  lemma TwoDigitField(n: nat)
    requires 1 <= n <= 99
    ensures |ZFill(NatToString(n), 2)| == 2
    ensures forall k :: 0 <= k < 2 ==> '0' <= ZFill(NatToString(n), 2)[k] <= '9'
    ensures DecimalValue(ZFill(NatToString(n), 2)) == n
  {
    if n >= 10 {
      assert |NatToString(n / 10)| == 1;
    }
    NatToStringValue(n);
    ZFillValue(NatToString(n), 2);
  }

  lemma ThreeFields(y: string, m: string, d: string)
    requires |y| == 4 && |m| == 2 && |d| == 2
    ensures |y + m + d| == 8
    ensures (y + m + d)[..4] == y && (y + m + d)[4..6] == m && (y + m + d)[6..] == d
  {
  }

  /** For a four-digit year, the default release is eight digits that read
      back as the year, the month and the day. */
  lemma DefaultPkgReleaseReadsBack(year: nat, month: nat, day: nat)
    requires 1000 <= year <= 9999 && 1 <= month <= 12 && 1 <= day <= 31
    ensures |DefaultPkgRelease(year, month, day)| == 8
    ensures forall k :: 0 <= k < 8 ==> '0' <= DefaultPkgRelease(year, month, day)[k] <= '9'
    ensures DecimalValue(DefaultPkgRelease(year, month, day)[..4]) == year
    ensures DecimalValue(DefaultPkgRelease(year, month, day)[4..6]) == month
    ensures DecimalValue(DefaultPkgRelease(year, month, day)[6..]) == day
  {
    var y := NatToString(year);
    var m := ZFill(NatToString(month), 2);
    var d := ZFill(NatToString(day), 2);
    YearField(year);
    NatToStringValue(year);
    TwoDigitField(month);
    TwoDigitField(day);
    ThreeFields(y, m, d);
    var r := y + m + d;
    assert r == DefaultPkgRelease(year, month, day);
    forall k | 0 <= k < 8
      ensures '0' <= r[k] <= '9'
    {
      if k < 4 {
        assert r[k] == y[k];
      } else if k < 6 {
        assert r[k] == m[k - 4];
      } else {
        assert r[k] == d[k - 6];
      }
    }
  }
}
