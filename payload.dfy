// Where the packaging scripts put each file of the package.
//
// The driver flavour walks the project's driver/ tree for .c and .h files
// and its api/include tree for every file, keeps their project-relative
// paths, and copies each into the staging tree: driver sources under
// usr/src/<name>-<version>/ with their directories kept, API headers
// straight into usr/include/<name>/ (flattened, so two headers with the
// same file name land on the same path and the later copy wins).  The tool
// flavour installs the single binary app/build/ami_tool into usr/local/bin/.
//
// Paths are strings; the directory walk is an input: one entry per visited
// directory with the names of the files in it, in the walk's order.
module Payload {
  import opened Wrappers
  import opened Text

  // ---------------------------------------------------------------------
  // os.path helpers

  /** The index of the last '/' in p, or -1 when there is none. */
  function LastSlash(p: string): (i: int)
    ensures -1 <= i < |p|
    ensures i >= 0 ==> p[i] == '/'
    ensures forall k :: i < k < |p| ==> p[k] != '/'
  {
    if |p| == 0 then -1
    else if p[|p| - 1] == '/' then |p| - 1
    else LastSlash(p[..|p| - 1])
  }

  /** os.path.basename: what follows the last slash. */
  function Basename(p: string): (r: string)
    ensures |r| <= |p|
    ensures r == p[|p| - |r|..] && '/' !in r
  {
    p[LastSlash(p) + 1..]
  }

  /** In d/b with no slash in b, the last slash is the one after d. */
  lemma {:induction false} LastSlashOfJoin(d: string, b: string)
    requires '/' !in b
    ensures LastSlash(d + "/" + b) == |d|
    ensures Basename(d + "/" + b) == b
    decreases |b|
  {
    var p := d + "/" + b;
    if |b| > 0 {
      assert p[..|p| - 1] == d + "/" + b[..|b| - 1];
      LastSlashOfJoin(d, b[..|b| - 1]);
    }
    assert p[|d| + 1..] == b;
  }

  /** h without its trailing slashes. */
  function StripSlashes(h: string): (r: string)
    ensures StartsWith(h, r)
    ensures |r| > 0 ==> r[|r| - 1] != '/'
  {
    if |h| > 0 && h[|h| - 1] == '/' then StripSlashes(h[..|h| - 1]) else h
  }

  /** os.path.dirname: up to the last slash, with trailing slashes removed
      unless nothing but slashes is left. */
  function Dirname(p: string): string
  {
    var head := p[..LastSlash(p) + 1];
    var stripped := StripSlashes(head);
    if stripped == "" then head else stripped
  }

  /** os.path.join of two components. */
  function PathJoin(a: string, b: string): string
  {
    if |b| > 0 && b[0] == '/' then b
    else if |a| == 0 || a[|a| - 1] == '/' then a + b
    else a + "/" + b
  }

  /** A path whose last slash is preceded by a character other than a slash,
      as every path the walk produces below the project directory is. */
  predicate SimpleFilePath(f: string) {
    0 < LastSlash(f) && f[LastSlash(f) - 1] != '/' && f[0] != '/'
  }

  /** Such a path is its directory, a slash and its file name. */
  lemma DirnameBasename(f: string)
    requires SimpleFilePath(f)
    ensures Dirname(f) == f[..LastSlash(f)]
    ensures Dirname(f) + "/" + Basename(f) == f
    ensures |Dirname(f)| > 0 && Dirname(f)[0] != '/'
  {
    var i := LastSlash(f);
    DirnameOfSimple(f, i);
    SplitAtSlash(f, i);
    assert f[..i][0] == f[0];
  }

  lemma SplitAtSlash(f: string, i: int)
    requires 0 <= i < |f| && f[i] == '/'
    ensures f[..i] + "/" + f[i + 1..] == f
  {
  }

  lemma DirnameOfSimple(f: string, i: int)
    requires i == LastSlash(f) && 0 < i && f[i - 1] != '/'
    ensures Dirname(f) == f[..i]
  {
    var g := f[..i];
    var head := f[..i + 1];
    assert head == g + "/";
    StripOneSlash(g);
  }

  lemma StripOneSlash(g: string)
    requires |g| > 0 && g[|g| - 1] != '/'
    ensures StripSlashes(g + "/") == g
  {
    assert (g + "/")[..|g|] == g;
  }

  // ---------------------------------------------------------------------
  // Collecting the files of a directory walk

  /** One directory visited by the walk: its absolute path and its file names. */
  datatype WalkEntry = WalkEntry(dir: string, files: seq<string>)

  /** Which files the driver flavour collects from driver/. */
  predicate IsDriverSource(name: string) {
    EndsWith(name, ".c") || EndsWith(name, ".h")
  }

  /** The path of a file relative to the project: what follows the last
      occurrence of the project directory, without the slash after it
      (path.split(PROJECT_DIR)[-1].split('/', 1)[-1]). */
  function ProjectRelative(full: string, projectDir: string): string
    requires |projectDir| > 0
  {
    var pieces := Split(full, projectDir);
    AfterFirstSlash(pieces[|pieces| - 1])
  }

  /** s.split('/', 1)[-1]: what follows the first slash, or s when it has none. */
  function AfterFirstSlash(s: string): string
  {
    if |s| == 0 then s
    else if s[0] == '/' then s[1..]
    else if '/' in s[1..] then AfterFirstSlash(s[1..])
    else s
  }

  /** A file below the project directory is found at the path relative to it,
      as long as the project directory's name does not recur below it. */
  lemma ProjectRelativeOf(projectDir: string, rel: string)
    requires |projectDir| > 0 && !Contains("/" + rel, projectDir)
    ensures ProjectRelative(projectDir + "/" + rel, projectDir) == rel
  {
    var full := projectDir + "/" + rel;
    assert full[..|projectDir|] == projectDir;
    assert full[|projectDir|..] == "/" + rel;
    AbsentPatternIsNoOp("/" + rel, projectDir, "");
    assert Split(full, projectDir) == [""] + ["/" + rel];
    assert ("/" + rel)[1..] == rel;
  }

  /** The files of one walk entry that are kept, as project-relative paths. */
  function CollectedIn(dir: string, names: seq<string>, projectDir: string, sourcesOnly: bool): seq<string>
    requires |projectDir| > 0
  {
    if |names| == 0 then []
    else
      var last := names[|names| - 1];
      CollectedIn(dir, names[..|names| - 1], projectDir, sourcesOnly) + KeptPaths(dir, last, projectDir, sourcesOnly)
  }

  /** The kept files of the whole walk, in the walk's order. */
  function Collected(walk: seq<WalkEntry>, projectDir: string, sourcesOnly: bool): seq<string>
    requires |projectDir| > 0
  {
    if |walk| == 0 then []
    else
      var last := walk[|walk| - 1];
      Collected(walk[..|walk| - 1], projectDir, sourcesOnly) + CollectedIn(last.dir, last.files, projectDir, sourcesOnly)
  }

  /** The walk loops: every file of every visited directory, kept when it
      passes the filter (only .c and .h under driver/, everything under
      api/include). */
  method CollectFiles(walk: seq<WalkEntry>, projectDir: string, sourcesOnly: bool) returns (found: seq<string>)
    requires |projectDir| > 0
    ensures found == Collected(walk, projectDir, sourcesOnly)
  {
    found := [];
    var i := 0;
    while i < |walk|
      invariant 0 <= i <= |walk|
      invariant found == Collected(walk[..i], projectDir, sourcesOnly)
    {
      var kept := CollectDirectory(walk[i].dir, walk[i].files, projectDir, sourcesOnly);
      CollectedStep(walk, i, projectDir, sourcesOnly);
      found := found + kept;
      i := i + 1;
    }
    assert walk[..i] == walk;
  }

  /** The inner loop over the files of one visited directory. */
  method CollectDirectory(dir: string, names: seq<string>, projectDir: string, sourcesOnly: bool) returns (found: seq<string>)
    requires |projectDir| > 0
    ensures found == CollectedIn(dir, names, projectDir, sourcesOnly)
  {
    found := [];
    var j := 0;
    while j < |names|
      invariant 0 <= j <= |names|
      invariant found == CollectedIn(dir, names[..j], projectDir, sourcesOnly)
    {
      var name := names[j];
      CollectedInStep(dir, names, j, projectDir, sourcesOnly);
      if !sourcesOnly || IsDriverSource(name) {
        found := found + [ProjectRelative(PathJoin(dir, name), projectDir)];
      }
      j := j + 1;
    }
    assert names[..j] == names;
  }

  lemma CollectedInStep(dir: string, names: seq<string>, j: nat, projectDir: string, sourcesOnly: bool)
    requires j < |names| && |projectDir| > 0
    ensures CollectedIn(dir, names[..j + 1], projectDir, sourcesOnly)
         == CollectedIn(dir, names[..j], projectDir, sourcesOnly) + KeptPaths(dir, names[j], projectDir, sourcesOnly)
  {
    assert names[..j + 1][..j] == names[..j];
  }

  lemma CollectedStep(walk: seq<WalkEntry>, i: nat, projectDir: string, sourcesOnly: bool)
    requires i < |walk| && |projectDir| > 0
    ensures Collected(walk[..i + 1], projectDir, sourcesOnly)
         == Collected(walk[..i], projectDir, sourcesOnly) + CollectedIn(walk[i].dir, walk[i].files, projectDir, sourcesOnly)
  {
    assert walk[..i + 1][..i] == walk[..i];
  }

  /** The file named names[j] of directory dir passes the filter and is listed as x. */
  ghost predicate KeptAs(x: string, dir: string, name: string, projectDir: string, sourcesOnly: bool)
    requires |projectDir| > 0
  {
    (!sourcesOnly || IsDriverSource(name)) && x == ProjectRelative(PathJoin(dir, name), projectDir)
  }

  /** The path one file contributes: its project-relative path when it passes the filter. */
  function KeptPaths(dir: string, name: string, projectDir: string, sourcesOnly: bool): seq<string>
    requires |projectDir| > 0
  {
    if !sourcesOnly || IsDriverSource(name) then [ProjectRelative(PathJoin(dir, name), projectDir)] else []
  }

  lemma KeptPathsMembers(dir: string, name: string, projectDir: string, sourcesOnly: bool, x: string)
    requires |projectDir| > 0
    ensures x in KeptPaths(dir, name, projectDir, sourcesOnly) <==> KeptAs(x, dir, name, projectDir, sourcesOnly)
  {
  }

  /** The concatenation of f over xs, in order. */
  function Flat<T>(xs: seq<T>, f: T -> seq<string>): seq<string>
  {
    if |xs| == 0 then [] else Flat(xs[..|xs| - 1], f) + f(xs[|xs| - 1])
  }

  /** Something is in the concatenation exactly when it is in one of the parts. */
  lemma {:induction false} FlatMembers<T>(xs: seq<T>, f: T -> seq<string>, x: string)
    ensures x in Flat(xs, f) <==> exists k :: 0 <= k < |xs| && x in f(xs[k])
    decreases |xs|
  {
    if |xs| > 0 {
      var init := xs[..|xs| - 1];
      FlatMembers(init, f, x);
      if x in Flat(xs, f) && x !in f(xs[|xs| - 1]) {
        var k :| 0 <= k < |init| && x in f(init[k]);
        assert xs[k] == init[k];
      }
      if exists k :: 0 <= k < |xs| && x in f(xs[k]) {
        var k :| 0 <= k < |xs| && x in f(xs[k]);
        if k < |init| {
          assert init[k] == xs[k];
        }
      }
    }
  }

  /** The files kept from one directory, per file. */
  function KeepFile(dir: string, projectDir: string, sourcesOnly: bool): string -> seq<string>
  {
    (name: string) => if |projectDir| > 0 then KeptPaths(dir, name, projectDir, sourcesOnly) else []
  }

  lemma {:induction false} CollectedInIsFlat(dir: string, names: seq<string>, projectDir: string, sourcesOnly: bool)
    requires |projectDir| > 0
    ensures CollectedIn(dir, names, projectDir, sourcesOnly) == Flat(names, KeepFile(dir, projectDir, sourcesOnly))
    decreases |names|
  {
    if |names| > 0 {
      CollectedInIsFlat(dir, names[..|names| - 1], projectDir, sourcesOnly);
    }
  }

  /** A path is collected from a directory exactly when one of its files passes the filter and maps to it. */
  lemma CollectedInMembers(dir: string, names: seq<string>, projectDir: string, sourcesOnly: bool, x: string)
    requires |projectDir| > 0
    ensures x in CollectedIn(dir, names, projectDir, sourcesOnly)
      <==> exists j :: 0 <= j < |names| && KeptAs(x, dir, names[j], projectDir, sourcesOnly)
  {
    var f := KeepFile(dir, projectDir, sourcesOnly);
    CollectedInIsFlat(dir, names, projectDir, sourcesOnly);
    FlatMembers(names, f, x);
    if exists k :: 0 <= k < |names| && x in f(names[k]) {
      var k :| 0 <= k < |names| && x in f(names[k]);
      KeptPathsMembers(dir, names[k], projectDir, sourcesOnly, x);
    }
    if exists j :: 0 <= j < |names| && KeptAs(x, dir, names[j], projectDir, sourcesOnly) {
      var j :| 0 <= j < |names| && KeptAs(x, dir, names[j], projectDir, sourcesOnly);
      KeptPathsMembers(dir, names[j], projectDir, sourcesOnly, x);
      assert x in f(names[j]);
    }
  }

  /** The files kept from each directory of the walk. */
  function KeepEntry(projectDir: string, sourcesOnly: bool): WalkEntry -> seq<string>
  {
    (e: WalkEntry) => if |projectDir| > 0 then CollectedIn(e.dir, e.files, projectDir, sourcesOnly) else []
  }

  lemma {:induction false} CollectedIsFlat(walk: seq<WalkEntry>, projectDir: string, sourcesOnly: bool)
    requires |projectDir| > 0
    ensures Collected(walk, projectDir, sourcesOnly) == Flat(walk, KeepEntry(projectDir, sourcesOnly))
    decreases |walk|
  {
    if |walk| > 0 {
      CollectedIsFlat(walk[..|walk| - 1], projectDir, sourcesOnly);
    }
  }

  /** A path is collected from the walk exactly when some file of some visited
      directory passes the filter and maps to it: nothing is lost, nothing is invented. */
  lemma CollectedMembers(walk: seq<WalkEntry>, projectDir: string, sourcesOnly: bool, x: string)
    requires |projectDir| > 0
    ensures x in Collected(walk, projectDir, sourcesOnly)
      <==> exists i, j :: 0 <= i < |walk| && 0 <= j < |walk[i].files|
             && KeptAs(x, walk[i].dir, walk[i].files[j], projectDir, sourcesOnly)
  {
    var g := KeepEntry(projectDir, sourcesOnly);
    CollectedIsFlat(walk, projectDir, sourcesOnly);
    FlatMembers(walk, g, x);
    if exists k :: 0 <= k < |walk| && x in g(walk[k]) {
      var i :| 0 <= i < |walk| && x in g(walk[i]);
      CollectedInMembers(walk[i].dir, walk[i].files, projectDir, sourcesOnly, x);
      var j :| 0 <= j < |walk[i].files| && KeptAs(x, walk[i].dir, walk[i].files[j], projectDir, sourcesOnly);
    }
    if exists i, j :: 0 <= i < |walk| && 0 <= j < |walk[i].files|
         && KeptAs(x, walk[i].dir, walk[i].files[j], projectDir, sourcesOnly) {
      var i: int, j: int :| 0 <= i < |walk| && 0 <= j < |walk[i].files|
        && KeptAs(x, walk[i].dir, walk[i].files[j], projectDir, sourcesOnly);
      CollectedInMembers(walk[i].dir, walk[i].files, projectDir, sourcesOnly, x);
      assert x in g(walk[i]);
    }
  }

  /** Without the filter the count is every file of the walk; with it, no more. */
  lemma {:induction false} CollectedCount(walk: seq<WalkEntry>, projectDir: string)
    requires |projectDir| > 0
    ensures |Collected(walk, projectDir, true)| <= |Collected(walk, projectDir, false)|
    ensures |Collected(walk, projectDir, false)| == FileCount(walk)
    decreases |walk|
  {
    if |walk| > 0 {
      var last := walk[|walk| - 1];
      CollectedCount(walk[..|walk| - 1], projectDir);
      CollectedInCount(last.dir, last.files, projectDir);
    }
  }

  function FileCount(walk: seq<WalkEntry>): nat
  {
    if |walk| == 0 then 0 else FileCount(walk[..|walk| - 1]) + |walk[|walk| - 1].files|
  }

  lemma {:induction false} CollectedInCount(dir: string, names: seq<string>, projectDir: string)
    requires |projectDir| > 0
    ensures |CollectedIn(dir, names, projectDir, true)| <= |CollectedIn(dir, names, projectDir, false)| == |names|
    decreases |names|
  {
    if |names| > 0 {
      CollectedInCount(dir, names[..|names| - 1], projectDir);
    }
  }

  // ---------------------------------------------------------------------
  // Destinations in the package tree

  /** usr/src/<name>-<version>: where the DKMS driver sources go. */
  function UsrSrcDir(name: string, version: string): string
  {
    "usr/src/" + name + "-" + version
  }

  /** usr/include/<name>: where the API headers go. */
  function UsrIncludeDir(name: string): string
  {
    "usr/include/" + name
  }

  /** usr/local/bin/: where the tool flavour installs ami_tool. */
  const UsrBinDir := "usr/local/bin/"

  /** The directory a driver source f (project-relative) is copied into. */
  function DriverDest(usrSrcDir: string, f: string): string
  {
    PathJoin(usrSrcDir, Dirname(f))
  }

  /** The directory an API header is copied into: the include directory itself. */
  function HeaderDest(usrIncludeDir: string, f: string): string
  {
    usrIncludeDir
  }

  /** Where copy_source_file puts src when copying it into the directory dst. */
  function InstalledAt(dst: string, src: string): string
  {
    PathJoin(dst, Basename(src))
  }

  /** usr_src_files: the package paths listed for the driver sources. */
  function UsrSrcFiles(usrSrcDir: string, driver: seq<string>): (r: seq<string>)
    ensures |r| == |driver|
    ensures forall k :: 0 <= k < |r| ==> r[k] == usrSrcDir + "/" + driver[k]
  {
    seq(|driver|, k requires 0 <= k < |driver| => usrSrcDir + "/" + driver[k])
  }

  /** usr_include_h: the package paths listed for the API headers. */
  function UsrIncludeFiles(usrIncludeDir: string, headers: seq<string>): (r: seq<string>)
    ensures |r| == |headers|
    ensures forall k :: 0 <= k < |r| ==> r[k] == usrIncludeDir + "/" + Basename(headers[k])
  {
    seq(|headers|, k requires 0 <= k < |headers| => usrIncludeDir + "/" + Basename(headers[k]))
  }

  /** A driver source keeps its project-relative path below usr/src/<name>-<version>,
      which is also the path usr_src_files lists for it. */
  lemma DriverStructureKept(name: string, version: string, f: string)
    requires '/' !in version && SimpleFilePath(f)
    ensures InstalledAt(DriverDest(UsrSrcDir(name, version), f), f) == UsrSrcDir(name, version) + "/" + f
  {
    var dir := UsrSrcDir(name, version);
    DirnameBasename(f);
    assert dir[|dir| - 1] != '/' by {
      if |version| > 0 {
        assert dir[|dir| - 1] == version[|version| - 1];
      }
    }
    var d := Dirname(f);
    assert PathJoin(dir, d) == dir + "/" + d;
    var b := Basename(f);
    if |b| > 0 {
      assert b[0] != '/';
    }
    assert PathJoin(dir + "/" + d, b) == dir + "/" + d + "/" + b;
  }

  /** A header lands directly in usr/include/<name>, under its file name alone,
      which is the path usr_include_h lists for it. */
  lemma HeaderFlattened(name: string, f: string)
    requires |name| > 0 && '/' !in name
    ensures InstalledAt(HeaderDest(UsrIncludeDir(name), f), f) == UsrIncludeDir(name) + "/" + Basename(f)
  {
    var dir := UsrIncludeDir(name);
    assert dir[|dir| - 1] == name[|name| - 1];
    var b := Basename(f);
    if |b| > 0 {
      assert b[0] != '/';
    }
  }

  /** Two headers with the same file name in different directories land on the same path. */
  lemma HeadersCollide(name: string)
    requires |name| > 0 && '/' !in name
    ensures "api/include/a/h.h" != "api/include/b/h.h"
    ensures InstalledAt(HeaderDest(UsrIncludeDir(name), "api/include/a/h.h"), "api/include/a/h.h")
         == InstalledAt(HeaderDest(UsrIncludeDir(name), "api/include/b/h.h"), "api/include/b/h.h")
         == UsrIncludeDir(name) + "/h.h"
  {
    assert "api/include/a/h.h"[12] != "api/include/b/h.h"[12];
    assert '/' !in "h.h";
    assert "api/include/a/h.h" == "api/include/a" + "/" + "h.h";
    assert "api/include/b/h.h" == "api/include/b" + "/" + "h.h";
    LastSlashOfJoin("api/include/a", "h.h");
    LastSlashOfJoin("api/include/b", "h.h");
    HeaderFlattened(name, "api/include/a/h.h");
    HeaderFlattened(name, "api/include/b/h.h");
  }

  /** The tool binary ends up as usr/local/bin/ami_tool. */
  lemma ToolInstalledInBin()
    ensures InstalledAt(UsrBinDir, "app/build/ami_tool") == "usr/local/bin/ami_tool"
  {
    assert Basename("app/build/ami_tool") == "ami_tool" by {
      assert '/' !in "ami_tool";
      assert "app/build/ami_tool" == "app/build" + "/" + "ami_tool";
      LastSlashOfJoin("app/build", "ami_tool");
    }
    assert UsrBinDir[|UsrBinDir| - 1] == '/';
  }

  // ---------------------------------------------------------------------
  // Staging the copies

  /** One entry of SRC_DEST_LIST: a source file and the package directory it goes into. */
  datatype Copy = Copy(src: string, dst: string)

  /** The package tree after copying the entries in order: each package path
      maps to the source file copied there last. */
  function Staged(copies: seq<Copy>): map<string, string>
  {
    if |copies| == 0 then map[] else Put(Staged(copies[..|copies| - 1]), copies[|copies| - 1])
  }

  /** The package tree after one more copy. */
  function Put(tree: map<string, string>, c: Copy): map<string, string>
  {
    tree[InstalledAt(c.dst, c.src) := c.src]
  }

  lemma StagedStep(copies: seq<Copy>, i: nat)
    requires i < |copies|
    ensures Staged(copies[..i + 1]) == Put(Staged(copies[..i]), copies[i])
  {
    assert copies[..i + 1][..i] == copies[..i];
  }

  /** The copy loop: each source must exist, and the first missing one stops
      the packaging with its name. */
  method StagePayload(copies: seq<Copy>, existing: set<string>) returns (r: Result<map<string, string>, string>)
    ensures r.Ok? <==> forall k :: 0 <= k < |copies| ==> copies[k].src in existing
    ensures r.Ok? ==> r.value == Staged(copies)
    ensures r.Err? ==> exists k :: 0 <= k < |copies| && copies[k].src !in existing && r.error == copies[k].src
  {
    var tree: map<string, string> := map[];
    var i := 0;
    while i < |copies|
      invariant 0 <= i <= |copies|
      invariant forall k :: 0 <= k < i ==> copies[k].src in existing
      invariant tree == Staged(copies[..i])
    {
      if copies[i].src !in existing {
        return Err(copies[i].src);
      }
      StagedStep(copies, i);
      tree := Put(tree, copies[i]);
      i := i + 1;
    }
    assert copies[..i] == copies;
    r := Ok(tree);
  }

  /** What ends up at a package path is the source of the last entry copied there. */
  lemma {:induction false} StagedLastWins(copies: seq<Copy>, k: nat)
    requires k < |copies|
    requires forall m :: k < m < |copies| ==> InstalledAt(copies[m].dst, copies[m].src) != InstalledAt(copies[k].dst, copies[k].src)
    ensures InstalledAt(copies[k].dst, copies[k].src) in Staged(copies)
    ensures Staged(copies)[InstalledAt(copies[k].dst, copies[k].src)] == copies[k].src
    decreases |copies|
  {
    if k < |copies| - 1 {
      var init := copies[..|copies| - 1];
      forall m | k < m < |init|
        ensures InstalledAt(init[m].dst, init[m].src) != InstalledAt(init[k].dst, init[k].src)
      {
        assert init[m] == copies[m] && init[k] == copies[k];
      }
      StagedLastWins(init, k);
      assert init[k] == copies[k];
    }
  }

  /** Of two colliding headers, the package keeps the one listed later. */
  lemma HeaderCollisionKeepsLater(name: string)
    requires |name| > 0 && '/' !in name
    ensures var tree := Staged([Copy("api/include/a/h.h", UsrIncludeDir(name)), Copy("api/include/b/h.h", UsrIncludeDir(name))]);
      UsrIncludeDir(name) + "/h.h" in tree && tree[UsrIncludeDir(name) + "/h.h"] == "api/include/b/h.h"
  {
    HeadersCollide(name);
    var copies := [Copy("api/include/a/h.h", UsrIncludeDir(name)), Copy("api/include/b/h.h", UsrIncludeDir(name))];
    StagedLastWins(copies, 1);
  }

  // ---------------------------------------------------------------------
  // find_longest_filter

  /** The longest key that is a prefix of path, the first such key on a tie,
      or "" when no key is a prefix. The keys are those of a dictionary, in its order. */
  method FindLongestFilter(path: string, keys: seq<string>) returns (longest: string)
    ensures StartsWith(path, longest)
    ensures longest == "" || longest in keys
    ensures forall k :: 0 <= k < |keys| && StartsWith(path, keys[k]) ==> |keys[k]| <= |longest|
    ensures longest != "" ==>
      exists i :: 0 <= i < |keys| && keys[i] == longest && (forall j :: 0 <= j < i && StartsWith(path, keys[j]) ==> |keys[j]| < |longest|)
  {
    longest := "";
    ghost var at := -1;
    var i := 0;
    while i < |keys|
      invariant 0 <= i <= |keys|
      invariant StartsWith(path, longest)
      invariant -1 <= at < i
      invariant at == -1 <==> longest == ""
      invariant at >= 0 ==> keys[at] == longest
      invariant forall k :: 0 <= k < i && StartsWith(path, keys[k]) ==> |keys[k]| <= |longest|
      invariant at >= 0 ==> forall j :: 0 <= j < at && StartsWith(path, keys[j]) ==> |keys[j]| < |longest|
    {
      if StartsWith(path, keys[i]) && |keys[i]| > |longest| {
        longest := keys[i];
        at := i;
      }
      i := i + 1;
    }
    if longest != "" {
      assert keys[at] == longest;
    }
  }
}
