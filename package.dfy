// The package metadata the two Debian packaging scripts write: the
// DEBIAN/control file, the Debian changelog, the pkg-config file, and the
// names of the staging directory and of the package file.  The driver
// flavour (gen_pkg_driver.py, package "ami") and the tool flavour
// (gen_pkg_ami_tool.py, package "amitool") fill the same structures from
// their own config['pkg'] constants, which are a PkgConfig value here.
module Package {
  import opened Text
  import PkgRules
  import Payload

  datatype Flavour = Driver | Tool

  /** What the scripts learn about the build host. */
  datatype System = System(distId: string, distRel: string, arch: string)

  /** The constant part of config['pkg'] and the Debian dependency lists. */
  datatype PkgConfig = PkgConfig(name: string, summary: string, changelog: string,
                                 debDepends: seq<string>, debConflicts: seq<string>)

  const VendorFull := "Xilinx Inc"
  const VendorEmail := "support@xilinx.com"

  function PackageName(f: Flavour): string
  {
    match f
    case Driver => "ami"
    case Tool => "amitool"
  }

  /** Each flavour's constants: the changelog text ends with the literal
      $build_date_short, never substituted; neither flavour declares a
      Debian conflict (the conflict with XRT is left to the preinst script). */
  const DriverDepends := ["libc6", "gcc", "make", "dkms", "grep", "gawk", "linux-headers"]
  const ToolDepends := ["libc6", "grep", "gawk"]

  function Config(f: Flavour): PkgConfig
  {
    var name := PackageName(f);
    var summary := if f.Driver? then name + " driver package" else name + " package";
    var deps := if f.Driver? then DriverDepends else ToolDepends;
    PkgConfig(name, summary, summary + ". Built on $build_date_short.", deps, [])
  }

  // ---------------------------------------------------------------------
  // Small facts about concatenation

  lemma StartsWithConcat(a: string, b: string)
    ensures StartsWith(a + b, a)
  {
    assert (a + b)[..|a|] == a;
  }

  lemma EndsWithConcat(a: string, b: string)
    ensures EndsWith(a + b, b)
  {
    assert (a + b)[|a|..] == b;
  }

  lemma {:induction false} JoinKeepsCharOut(pieces: seq<string>, sep: string, c: char)
    requires c !in sep
    requires forall k :: 0 <= k < |pieces| ==> c !in pieces[k]
    ensures c !in Join(pieces, sep)
    decreases |pieces|
  {
    if |pieces| > 1 {
      JoinKeepsCharOut(pieces[1..], sep, c);
    }
  }

  lemma JoinTail(h: string, t: seq<string>)
    requires |t| >= 1
    ensures Join([h] + t, "\n") == h + "\n" + Join(t, "\n")
  {
    JoinCons(h, t, "\n");
  }

  lemma JoinPrefix(a: seq<string>, b: seq<string>)
    requires |a| >= 1 && |b| >= 1
    ensures Join(a + b, "\n") == Join(a, "\n") + "\n" + Join(b, "\n")
  {
    JoinAppend(a, b, "\n");
  }

  // ---------------------------------------------------------------------
  // The control file

  /** The three description lines, before they are joined.  The first reads
      "Xilinx Inc <name> driver package." or "Xilinx Inc <name> package.",
      which is the summary followed by a full stop. */
  function DescriptionLines(p: PkgConfig, date: string, sys: System): (r: seq<string>)
    ensures |r| == 3
  {
    ["Xilinx Inc " + p.summary + ".",
     "Built on " + date + ".",
     "Built with " + sys.distId + " version " + sys.distRel + " and architecture " + sys.arch + "."]
  }

  /** The description value: the lines joined with a newline and a space. */
  function Description(p: PkgConfig, date: string, sys: System): string
  {
    Join(DescriptionLines(p, date, sys), "\n ")
  }

  /** The fields before the description. */
  function ControlHead(p: PkgConfig, version: string, release: string, arch: string): (r: seq<string>)
    ensures |r| == 4
  {
    ["Package: " + p.name,
     "Architecture: " + arch,
     "Version: " + version + "-" + release,
     "Priority: optional"]
  }

  /** The fields after the description, and the final empty line. */
  function ControlTail(p: PkgConfig): (r: seq<string>)
    ensures |r| >= 3
  {
    ["Maintainer: " + VendorFull,
     "Section: devel"]
    + (if |p.debDepends| > 0 then ["Depends: " + Join(p.debDepends, ", ")] else [])
    + (if |p.debConflicts| > 0 then ["Conflicts: " + Join(p.debConflicts, ", ")] else [])
    + [""]
  }

  /** The logical lines of the control file, in the order the scripts append them. */
  function ControlLines(p: PkgConfig, version: string, release: string, date: string, sys: System): seq<string>
  {
    ControlHead(p, version, release, sys.arch) + ["Description: " + Description(p, date, sys)] + ControlTail(p)
  }

  /** The control file as the scripts build it, one append at a time. */
  method BuildControl(p: PkgConfig, version: string, release: string, date: string, sys: System)
    returns (control: seq<string>)
    ensures control == ControlLines(p, version, release, date, sys)
  {
    control := [];
    control := control + ["Package: " + p.name];
    control := control + ["Architecture: " + sys.arch];
    control := control + ["Version: " + version + "-" + release];
    control := control + ["Priority: optional"];
    control := control + ["Description: " + Description(p, date, sys)];
    control := control + ["Maintainer: " + VendorFull];
    control := control + ["Section: devel"];
    if |p.debDepends| > 0 {
      control := control + ["Depends: " + Join(p.debDepends, ", ")];
    }
    if |p.debConflicts| > 0 {
      control := control + ["Conflicts: " + Join(p.debConflicts, ", ")];
    }
    control := control + [""];
  }

  /** The fields come in a fixed order; Depends is there exactly when there
      are dependencies and Conflicts exactly when there are conflicts; the
      last line is empty. */
  lemma ControlFields(p: PkgConfig, version: string, release: string, date: string, sys: System)
    ensures var c := ControlLines(p, version, release, date, sys);
      && |c| == 8 + (if |p.debDepends| > 0 then 1 else 0) + (if |p.debConflicts| > 0 then 1 else 0)
      && StartsWith(c[0], "Package: ") && StartsWith(c[1], "Architecture: ")
      && StartsWith(c[2], "Version: ") && c[3] == "Priority: optional"
      && StartsWith(c[4], "Description: ") && c[5] == "Maintainer: " + VendorFull
      && c[6] == "Section: devel" && c[|c| - 1] == ""
      && (|p.debDepends| > 0 <==> |c| > 8 && c[7] == "Depends: " + Join(p.debDepends, ", "))
      && (|p.debConflicts| > 0 <==> c[|c| - 2] == "Conflicts: " + Join(p.debConflicts, ", "))
  {
    var c := ControlLines(p, version, release, date, sys);
    StartsWithConcat("Package: ", p.name);
    StartsWithConcat("Architecture: ", sys.arch);
    StartsWithConcat("Version: ", version + "-" + release);
    StartsWithConcat("Description: ", Description(p, date, sys));
    if |p.debConflicts| == 0 {
      var k := |c| - 2;
      assert c[k] == "Section: devel" || c[k] == "Depends: " + Join(p.debDepends, ", ");
      assert c[k][0] != 'C';
    }
  }

  /** A line prefixed with a space: a continuation line of a control field. */
  function Indent(lines: seq<string>): (r: seq<string>)
    ensures |r| == |lines|
    ensures forall k :: 0 <= k < |r| ==> r[k] == " " + lines[k]
  {
    if |lines| == 0 then [] else [" " + lines[0]] + Indent(lines[1..])
  }

  /** Joining with newline-space is joining the indented lines with newlines. */
  lemma {:induction false} JoinIndent(ls: seq<string>)
    requires |ls| >= 1
    ensures Join(ls, "\n ") == Join([ls[0]] + Indent(ls[1..]), "\n")
    decreases |ls|
  {
    if |ls| > 1 {
      JoinIndent(ls[1..]);
      var rest := Indent(ls[2..]);
      assert [ls[1..][0]] + Indent(ls[1..][1..]) == [ls[1]] + rest;
      JoinCons(ls[0], ls[1..], "\n ");
      assert [ls[0]] + Indent(ls[1..]) == [ls[0]] + ([" " + ls[1]] + rest);
      JoinCons(ls[0], [" " + ls[1]] + rest, "\n");
      if |rest| > 0 {
        JoinCons(" " + ls[1], rest, "\n");
        JoinCons(ls[1], rest, "\n");
      }
    }
  }

  /** An element whose text is x, a newline and the joined ys reads, once
      joined, as x and the ys listed in its place. */
  lemma MergeNewlines(pre: seq<string>, x: string, ys: seq<string>, post: seq<string>)
    requires |pre| >= 1 && |ys| >= 1 && |post| >= 1
    ensures Join(pre + [x + "\n" + Join(ys, "\n")] + post, "\n") == Join(pre + ([x] + ys) + post, "\n")
  {
    var z := x + "\n" + Join(ys, "\n");
    JoinAround(pre, z, post);
    JoinSpread(pre, x, ys, post);
    Regroup(x, Join(ys, "\n"), Join(post, "\n"));
  }

  /** Joining pre, one element z and post. */
  lemma JoinAround(pre: seq<string>, z: string, post: seq<string>)
    requires |pre| >= 1 && |post| >= 1
    ensures Join(pre + [z] + post, "\n") == Join(pre, "\n") + "\n" + (z + "\n" + Join(post, "\n"))
  {
    assert pre + [z] + post == pre + ([z] + post);
    JoinPrefix(pre, [z] + post);
    JoinTail(z, post);
  }

  /** Joining pre, then x and the ys, then post. */
  lemma JoinSpread(pre: seq<string>, x: string, ys: seq<string>, post: seq<string>)
    requires |pre| >= 1 && |ys| >= 1 && |post| >= 1
    ensures Join(pre + ([x] + ys) + post, "\n")
         == Join(pre, "\n") + "\n" + (x + "\n" + (Join(ys, "\n") + "\n" + Join(post, "\n")))
  {
    assert pre + ([x] + ys) + post == pre + ([x] + (ys + post));
    JoinPrefix(pre, [x] + (ys + post));
    JoinTail(x, ys + post);
    JoinPrefix(ys, post);
  }

  lemma Regroup(x: string, j: string, p: string)
    ensures x + "\n" + j + "\n" + p == x + "\n" + (j + "\n" + p)
  {
  }

  /** The physical lines of the control file. */
  function ControlPhysicalLines(p: PkgConfig, version: string, release: string, date: string, sys: System): seq<string>
  {
    var d := DescriptionLines(p, date, sys);
    ControlHead(p, version, release, sys.arch) + (["Description: " + d[0]] + Indent(d[1..])) + ControlTail(p)
  }

  /** The control text is the physical lines joined with newlines. */
  lemma ControlJoinsPhysical(p: PkgConfig, version: string, release: string, date: string, sys: System)
    ensures Join(ControlLines(p, version, release, date, sys), "\n") == Join(ControlPhysicalLines(p, version, release, date, sys), "\n")
  {
    var d := DescriptionLines(p, date, sys);
    var x := "Description: " + d[0];
    var ys := Indent(d[1..]);
    JoinIndent(d);
    JoinTail(d[0], ys);
    assert "Description: " + Description(p, date, sys) == x + "\n" + Join(ys, "\n");
    MergeNewlines(ControlHead(p, version, release, sys.arch), x, ys, ControlTail(p));
  }

  /** No newline anywhere in the package constants. */
  predicate NewlineFree(p: PkgConfig) {
    && '\n' !in p.name && '\n' !in p.summary
    && (forall k :: 0 <= k < |p.debDepends| ==> '\n' !in p.debDepends[k])
    && (forall k :: 0 <= k < |p.debConflicts| ==> '\n' !in p.debConflicts[k])
  }

  predicate SystemNewlineFree(sys: System) {
    '\n' !in sys.distId && '\n' !in sys.distRel && '\n' !in sys.arch
  }

  /** No physical line of the control file holds a newline. */
  lemma ControlPhysicalLinesFree(p: PkgConfig, version: string, release: string, date: string, sys: System)
    requires NewlineFree(p) && SystemNewlineFree(sys)
    requires '\n' !in version && '\n' !in release && '\n' !in date
    ensures var phys := ControlPhysicalLines(p, version, release, date, sys);
      forall k :: 0 <= k < |phys| ==> '\n' !in phys[k]
  {
    var h := ControlHead(p, version, release, sys.arch);
    var d := DescriptionLines(p, date, sys);
    var m := ["Description: " + d[0]] + Indent(d[1..]);
    var t := ControlTail(p);
    HeadFree(p, version, release, sys.arch);
    DescriptionFree(p, date, sys);
    TailFree(p);
    assert forall k :: 0 <= k < |m| ==> '\n' !in m[k];
    assert ControlPhysicalLines(p, version, release, date, sys) == h + m + t;
  }

  lemma HeadFree(p: PkgConfig, version: string, release: string, arch: string)
    requires '\n' !in p.name && '\n' !in version && '\n' !in release && '\n' !in arch
    ensures forall k :: 0 <= k < 4 ==> '\n' !in ControlHead(p, version, release, arch)[k]
  {
  }

  lemma DescriptionFree(p: PkgConfig, date: string, sys: System)
    requires '\n' !in p.summary && '\n' !in date && SystemNewlineFree(sys)
    ensures forall k :: 0 <= k < 3 ==> '\n' !in DescriptionLines(p, date, sys)[k]
  {
  }

  lemma TailFree(p: PkgConfig)
    requires NewlineFree(p)
    ensures forall k :: 0 <= k < |ControlTail(p)| ==> '\n' !in ControlTail(p)[k]
  {
    JoinKeepsCharOut(p.debDepends, ", ", '\n');
    JoinKeepsCharOut(p.debConflicts, ", ", '\n');
  }

  /** Written out, the control file has one physical line per field, except
      the description, whose second and third lines follow as continuation
      lines that start with a space; the file ends with a newline. */
  lemma ControlText(p: PkgConfig, version: string, release: string, date: string, sys: System)
    requires NewlineFree(p) && SystemNewlineFree(sys)
    requires '\n' !in version && '\n' !in release && '\n' !in date
    ensures var text := Join(ControlLines(p, version, release, date, sys), "\n");
      var phys := ControlPhysicalLines(p, version, release, date, sys);
      && Split(text, "\n") == phys
      && |phys| == |ControlLines(p, version, release, date, sys)| + 2
      && StartsWith(phys[4], "Description: ") && phys[5][0] == ' ' && phys[6][0] == ' '
      && EndsWith(text, "\n")
  {
    ControlJoinsPhysical(p, version, release, date, sys);
    var phys := ControlPhysicalLines(p, version, release, date, sys);
    ControlPhysicalLinesFree(p, version, release, date, sys);
    SplitJoin(phys, '\n');
    StartsWithConcat("Description: ", DescriptionLines(p, date, sys)[0]);
    EndsWithNewline(ControlLines(p, version, release, date, sys));
  }

  /** A list of lines ending with an empty one, joined with newlines, ends with a newline. */
  lemma EndsWithNewline(lines: seq<string>)
    requires |lines| >= 2 && lines[|lines| - 1] == ""
    ensures EndsWith(Join(lines, "\n"), "\n")
  {
    assert lines == lines[..|lines| - 1] + [""];
    JoinPrefix(lines[..|lines| - 1], [""]);
    EndsWithConcat(Join(lines[..|lines| - 1], "\n"), "\n");
  }

  /** The flavours' constants: no newlines, dependencies declared, no
      conflicts, and a changelog entry that ends with the uninterpolated
      text $build_date_short. */
  lemma ConfigFacts(f: Flavour)
    ensures NewlineFree(Config(f))
    ensures |Config(f).debDepends| > 0 && Config(f).debConflicts == []
    ensures EndsWith(Config(f).changelog, ". Built on $build_date_short.")
  {
    var p := Config(f);
    EndsWithConcat(p.summary, ". Built on $build_date_short.");
    NamesFree(f);
    DependsFree();
  }

  lemma NamesFree(f: Flavour)
    ensures '\n' !in Config(f).name && '\n' !in Config(f).summary
  {
    var name := PackageName(f);
    assert '\n' !in name;
    assert '\n' !in " driver package" && '\n' !in " package";
    assert Config(f).summary == name + (if f.Driver? then " driver package" else " package");
  }

  lemma DependsFree()
    ensures forall k :: 0 <= k < |DriverDepends| ==> '\n' !in DriverDepends[k]
    ensures forall k :: 0 <= k < |ToolDepends| ==> '\n' !in ToolDepends[k]
  {
  }

  // ---------------------------------------------------------------------
  // The changelog

  const TrailerHead := "-- " + VendorFull + " <" + VendorEmail + "> "

  function ChangelogHeader(p: PkgConfig, version: string, release: string): string
  {
    p.name + " (" + version + "-" + release + ") xilinx; urgency=medium"
  }

  /** The changelog's lines.  The trailer starts at column 0 and carries the
      short build date followed by a fixed time. */
  function ChangelogLines(p: PkgConfig, version: string, release: string, date: string): seq<string>
  {
    ["", ChangelogHeader(p, version, release), "", "  * " + p.changelog, "", TrailerHead + date + " 00:00:00 +0000", ""]
  }

  /** The changelog as the scripts build it, one append at a time. */
  method BuildChangelog(p: PkgConfig, version: string, release: string, date: string)
    returns (changelog: seq<string>)
    ensures changelog == ChangelogLines(p, version, release, date)
  {
    changelog := [];
    changelog := changelog + [""];
    changelog := changelog + [p.name + " (" + version + "-" + release + ") xilinx; urgency=medium"];
    changelog := changelog + [""];
    changelog := changelog + ["  * " + p.changelog];
    changelog := changelog + [""];
    changelog := changelog + ["-- " + VendorFull + " <" + VendorEmail + "> " + date + " 00:00:00 +0000"];
    changelog := changelog + [""];
  }

  /** Written out, the changelog reads back as its seven lines: blank lines
      around the header, the entry and the trailer. */
  lemma ChangelogText(p: PkgConfig, version: string, release: string, date: string)
    requires '\n' !in p.name && '\n' !in p.changelog
    requires '\n' !in version && '\n' !in release && '\n' !in date
    ensures var lines := ChangelogLines(p, version, release, date);
      && Split(Join(lines, "\n"), "\n") == lines
      && |lines| == 7 && lines[0] == lines[2] == lines[4] == lines[6] == ""
  {
    var lines := ChangelogLines(p, version, release, date);
    ChangelogLinesFree(p, version, release, date);
    SplitJoin(lines, '\n');
  }

  lemma ChangelogLinesFree(p: PkgConfig, version: string, release: string, date: string)
    requires '\n' !in p.name && '\n' !in p.changelog
    requires '\n' !in version && '\n' !in release && '\n' !in date
    ensures forall k :: 0 <= k < 7 ==> '\n' !in ChangelogLines(p, version, release, date)[k]
  {
    assert '\n' !in TrailerHead;
  }

  /** The header names the package and its version-release; the entry is the
      same whatever the build date and ends with the configured changelog
      text; the trailer starts at column 0 with "-- ", where the Debian
      Policy Manual (section 4.4) asks for one leading space, and ends with
      the date and a fixed time. */
  lemma ChangelogHeaderEntryTrailer(p: PkgConfig, version: string, release: string, date: string, date2: string)
    ensures var lines := ChangelogLines(p, version, release, date);
      && StartsWith(lines[1], p.name + " (" + version + "-" + release + ")")
      && lines[3] == ChangelogLines(p, version, release, date2)[3]
      && EndsWith(lines[3], p.changelog)
      && StartsWith(lines[5], "-- ") && !StartsWith(lines[5], " -- ")
      && EndsWith(lines[5], date + " 00:00:00 +0000")
  {
    var lines := ChangelogLines(p, version, release, date);
    var id := p.name + " (" + version + "-" + release + ")";
    assert lines[1] == id + " xilinx; urgency=medium";
    StartsWithConcat(id, " xilinx; urgency=medium");
    EndsWithConcat("  * ", p.changelog);
    var stamp := date + " 00:00:00 +0000";
    assert lines[5] == TrailerHead + stamp;
    EndsWithConcat(TrailerHead, stamp);
    assert lines[5][..3] == TrailerHead[..3] == "-- ";
    assert lines[5][0] == '-';
  }

  // ---------------------------------------------------------------------
  // The pkg-config file

  /** config['pkg']['pkg_config_dir']: where the .pc file goes, by distribution family. */
  function PkgConfigDir(distId: string): (r: string)
    ensures distId in PkgRules.DistDeb ==> r == "usr/lib/pkgconfig"
    ensures distId in PkgRules.DistRpm ==> r == "usr/share/pkgconfig"
  {
    PkgRules.DistFamiliesPartition();
    if distId in PkgRules.DistDeb then "usr/lib/pkgconfig" else "usr/share/pkgconfig"
  }

  function PcFileName(f: Flavour): string
  {
    match f
    case Driver => "ami.pc"
    case Tool => "ami_tool.pc"
  }

  /** The .pc file's lines: the driver flavour points at its header directory,
      the tool flavour at its binary directory. */
  function PcLines(f: Flavour, version: string): seq<string>
  {
    var p := Config(f);
    match f
    case Driver =>
      ["includedir=/" + Payload.UsrIncludeDir(p.name), "",
       "Name: " + p.name, "Description: " + p.summary, "Version: " + version,
       "Cflags: -I${includedir}"]
    case Tool =>
      ["bindir=/" + Payload.UsrBinDir, "",
       "Name: " + p.name, "Description: " + p.summary, "Version: " + version]
  }

  /** The driver's .pc file declares the directory every header of the
      package lands in, and describes the package by its summary. */
  lemma PcDriverIncludeDir(version: string, header: string)
    ensures PcLines(Driver, version)[0] == "includedir=/" + Payload.UsrIncludeDir(Config(Driver).name)
    ensures Payload.InstalledAt(Payload.HeaderDest(Payload.UsrIncludeDir(Config(Driver).name), header), header)
         == Payload.UsrIncludeDir(Config(Driver).name) + "/" + Payload.Basename(header)
    ensures PcLines(Driver, version)[3] == "Description: " + Config(Driver).summary
  {
    Payload.HeaderFlattened(Config(Driver).name, header);
  }

  /** The tool's .pc file declares the directory the tool binary lands in. */
  lemma PcToolBinDir(version: string)
    ensures PcLines(Tool, version)[0] == "bindir=/" + Payload.UsrBinDir
    ensures Payload.InstalledAt(Payload.UsrBinDir, "app/build/ami_tool") == Payload.UsrBinDir + "ami_tool"
    ensures PcLines(Tool, version)[3] == "Description: " + Config(Tool).summary
  {
    Payload.ToolInstalledInBin();
  }

  // ---------------------------------------------------------------------
  // Names

  /** The staging directory and package base name: <name>_<version>-<release>_<arch>. */
  function PackageBaseName(p: PkgConfig, version: string, release: string, arch: string): string
  {
    p.name + "_" + version + "-" + release + "_" + arch
  }

  /** The file dpkg-deb builds, and the copy it is renamed to. */
  function DebFile(p: PkgConfig, version: string, release: string, arch: string): string
  {
    PackageBaseName(p, version, release, arch) + ".deb"
  }

  function RenamedCopy(p: PkgConfig, version: string, release: string, sys: System): string
  {
    PackageBaseName(p, version, release, sys.arch) + "_" + sys.distRel + ".deb"
  }

  /** When none of the parts holds an underscore, the fields of the renamed
      package read back from its name: the package name, version-release,
      the architecture, and the distribution release; the renamed copy is
      the built file's name with _<dist_rel> put before .deb. */
  lemma PackageNameFields(p: PkgConfig, version: string, release: string, sys: System)
    requires '_' !in p.name && '_' !in version && '_' !in release && '_' !in sys.arch && '_' !in sys.distRel
    ensures var n := RenamedCopy(p, version, release, sys);
      var b := DebFile(p, version, release, sys.arch);
      && EndsWith(n, ".deb")
      && Split(n[..|n| - 4], "_") == [p.name, version + "-" + release, sys.arch, sys.distRel]
      && n[..|n| - 4] == b[..|b| - 4] + "_" + sys.distRel
  {
    var n := RenamedCopy(p, version, release, sys);
    var fields := [p.name, version + "-" + release, sys.arch, sys.distRel];
    var base := PackageBaseName(p, version, release, sys.arch);
    assert n == (base + "_" + sys.distRel) + ".deb";
    assert n[..|n| - 4] == base + "_" + sys.distRel;
    EndsWithConcat(base + "_" + sys.distRel, ".deb");
    var b := DebFile(p, version, release, sys.arch);
    assert b[..|b| - 4] == base;
    JoinCons(fields[2], [fields[3]], "_");
    JoinCons(fields[1], fields[2..], "_");
    JoinCons(fields[0], fields[1..], "_");
    assert fields[1..] == [fields[1]] + fields[2..];
    assert fields == [fields[0]] + fields[1..];
    assert base + "_" + sys.distRel == Join(fields, "_");
    assert '_' !in fields[1];
    SplitJoin(fields, '_');
  }

  /** The two flavours' names hold no underscore. */
  lemma FlavourNamesPlain(f: Flavour)
    ensures '_' !in Config(f).name && |Config(f).name| > 0 && '/' !in Config(f).name
  {
  }
}
