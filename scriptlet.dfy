// The maintainer scripts (prerm, preinst, postinst) of the Debian packages.
// A shell template is read whole, three placeholders are substituted with
// str.replace (every occurrence; a placeholder that is absent is silently
// left alone), the text is split into lines, and the script written into
// DEBIAN/ is a bash header followed by those lines, joined by newlines.
// The same rendering serves the driver flavour (three scripts) and the
// tool flavour (preinst only).
module Scriptlet {
  import opened Text

  const ShShebang := "#!/bin/sh"
  const NamePlaceholder := "MODULE_NAME=$1"
  const VersionPlaceholder := "MODULE_VERSION_STRING=$2"

  /** The header every emitted maintainer script starts with. */
  const BashHeader: seq<string> := ["#!/bin/bash", "set -e"]

  /** The template after the three substitutions, in the order the scripts apply
      them: the sh shebang is dropped, the module name and the package version
      (the version alone, not version-release) take the places of $1 and $2. */
  function Render(template: string, name: string, version: string): string
  {
    var dropped := ReplaceAll(template, ShShebang, "");
    var named := ReplaceAll(dropped, NamePlaceholder, "MODULE_NAME=" + name);
    ReplaceAll(named, VersionPlaceholder, "MODULE_VERSION_STRING=" + version)
  }

  /** The rendered template as the list of lines kept for the package
      (config['pkg']['prerm'] and its siblings). */
  function RenderedLines(template: string, name: string, version: string): (r: seq<string>)
    ensures |r| >= 1
  {
    Split(Render(template, name, version), "\n")
  }

  /** The lines of the script written into DEBIAN/. */
  function MaintainerScript(template: string, name: string, version: string): (r: seq<string>)
    ensures |r| >= 3 && r[..2] == BashHeader
  {
    BashHeader + RenderedLines(template, name, version)
  }

  /** A file's text from its lines. */
  function FileText(lines: seq<string>): string
  {
    Join(lines, "\n")
  }

  /** The copy staged in the output directory is exactly the rendered template. */
  lemma StagedCopyIsRendered(template: string, name: string, version: string)
    ensures FileText(RenderedLines(template, name, version)) == Render(template, name, version)
  {
    JoinSplit(Render(template, name, version), "\n");
  }

  /** The script in DEBIAN/ is the bash header line, set -e, and then the
      rendered template unchanged. */
  lemma ScriptIsHeaderThenRendered(template: string, name: string, version: string)
    ensures FileText(MaintainerScript(template, name, version))
      == "#!/bin/bash" + "\n" + "set -e" + "\n" + Render(template, name, version)
  {
    var lines := RenderedLines(template, name, version);
    JoinSplit(Render(template, name, version), "\n");
    assert BashHeader + lines == ["#!/bin/bash"] + (["set -e"] + lines);
    JoinCons("#!/bin/bash", ["set -e"] + lines, "\n");
    JoinCons("set -e", lines, "\n");
  }

  /** A template without any of the three placeholders passes through unchanged:
      a missing placeholder is not an error. */
  lemma NoPlaceholdersNoChange(template: string, name: string, version: string)
    requires !Contains(template, ShShebang)
    requires !Contains(template, NamePlaceholder)
    requires !Contains(template, VersionPlaceholder)
    ensures Render(template, name, version) == template
  {
    AbsentPatternIsNoOp(template, ShShebang, "");
    AbsentPatternIsNoOp(template, NamePlaceholder, "MODULE_NAME=" + name);
    AbsentPatternIsNoOp(template, VersionPlaceholder, "MODULE_VERSION_STRING=" + version);
  }

  /** Every template line rendered on its own. */
  function RenderEach(lines: seq<string>, name: string, version: string): (r: seq<string>)
    ensures |r| == |lines|
  {
    if |lines| == 0 then [] else [Render(lines[0], name, version)] + RenderEach(lines[1..], name, version)
  }

  lemma PlaceholdersHaveNoNewline()
    ensures '\n' !in ShShebang && '\n' !in NamePlaceholder && '\n' !in VersionPlaceholder
  {
  }

  /** Rendering one line of a template and then the rest. */
  lemma RenderAcrossNewline(a: string, b: string, name: string, version: string)
    ensures Render(a + "\n" + b, name, version) == Render(a, name, version) + "\n" + Render(b, name, version)
  {
    PlaceholdersHaveNoNewline();
    var nr := "MODULE_NAME=" + name;
    var vr := "MODULE_VERSION_STRING=" + version;
    ReplaceAllAcross(a, '\n', b, ShShebang, "");
    var a1 := ReplaceAll(a, ShShebang, "");
    var b1 := ReplaceAll(b, ShShebang, "");
    ReplaceAllAcross(a1, '\n', b1, NamePlaceholder, nr);
    var a2 := ReplaceAll(a1, NamePlaceholder, nr);
    var b2 := ReplaceAll(b1, NamePlaceholder, nr);
    ReplaceAllAcross(a2, '\n', b2, VersionPlaceholder, vr);
  }

  /** No placeholder spans two lines, so rendering a template is rendering each of its lines. */
  lemma {:induction false} RenderByLine(lines: seq<string>, name: string, version: string)
    requires |lines| >= 1
    ensures Render(Join(lines, "\n"), name, version) == Join(RenderEach(lines, name, version), "\n")
    decreases |lines|
  {
    if |lines| > 1 {
      RenderByLine(lines[1..], name, version);
      RenderAcrossNewline(lines[0], Join(lines[1..], "\n"), name, version);
      JoinCons(Render(lines[0], name, version), RenderEach(lines[1..], name, version), "\n");
    }
  }

  /** Rendering a line without newlines, with a name and version without
      newlines, gives a line without newlines. */
  lemma RenderKeepsLine(line: string, name: string, version: string)
    requires '\n' !in line && '\n' !in name && '\n' !in version
    ensures '\n' !in Render(line, name, version)
  {
    var nr := "MODULE_NAME=" + name;
    var vr := "MODULE_VERSION_STRING=" + version;
    ReplaceAllKeepsCharOut(line, ShShebang, "", '\n');
    var l1 := ReplaceAll(line, ShShebang, "");
    ReplaceAllKeepsCharOut(l1, NamePlaceholder, nr, '\n');
    var l2 := ReplaceAll(l1, NamePlaceholder, nr);
    ReplaceAllKeepsCharOut(l2, VersionPlaceholder, vr, '\n');
  }

  /** For a template given line by line, the emitted script is the bash header
      followed by the template's lines, each rendered on its own. */
  lemma {:induction false} ScriptOfTemplateLines(lines: seq<string>, name: string, version: string)
    requires |lines| >= 1
    requires forall k :: 0 <= k < |lines| ==> '\n' !in lines[k]
    requires '\n' !in name && '\n' !in version
    ensures MaintainerScript(Join(lines, "\n"), name, version) == BashHeader + RenderEach(lines, name, version)
  {
    var rendered := RenderEach(lines, name, version);
    RenderByLine(lines, name, version);
    forall k | 0 <= k < |rendered|
      ensures '\n' !in rendered[k]
    {
      RenderEachAt(lines, name, version, k);
      RenderKeepsLine(lines[k], name, version);
    }
    SplitJoin(rendered, '\n');
  }

  lemma {:induction false} RenderEachAt(lines: seq<string>, name: string, version: string, k: nat)
    requires k < |lines|
    ensures RenderEach(lines, name, version)[k] == Render(lines[k], name, version)
    decreases k
  {
    if k > 0 {
      RenderEachAt(lines[1..], name, version, k - 1);
    }
  }

  /** The line #!/bin/sh becomes empty. */
  lemma ShebangLineRendersEmpty(name: string, version: string)
    ensures Render(ShShebang, name, version) == ""
  {
    ReplaceWhole(ShShebang, "");
  }

  /** The line MODULE_NAME=$1 becomes MODULE_NAME=<name>, for a name without '$'. */
  lemma NameLineRenders(name: string, version: string)
    requires '$' !in name
    ensures Render(NamePlaceholder, name, version) == "MODULE_NAME=" + name
  {
    NoShebangIn(NamePlaceholder);
    var named := "MODULE_NAME=" + name;
    ReplaceWhole(NamePlaceholder, named);
    NoVersionPlaceholderIn(named);
    AbsentPatternIsNoOp(named, VersionPlaceholder, "MODULE_VERSION_STRING=" + version);
  }

  lemma NoShebangIn(line: string)
    requires '#' !in line
    ensures ReplaceAll(line, ShShebang, "") == line
  {
    assert ShShebang[0] == '#';
    MissingCharNotContained(line, ShShebang, 0);
    AbsentPatternIsNoOp(line, ShShebang, "");
  }

  lemma NoVersionPlaceholderIn(line: string)
    requires '$' !in line
    ensures !Contains(line, VersionPlaceholder)
  {
    assert VersionPlaceholder[22] == '$';
    MissingCharNotContained(line, VersionPlaceholder, 22);
  }

  lemma VersionPlaceholderLacks()
    ensures '#' !in VersionPlaceholder && 'A' !in VersionPlaceholder
  {
  }

  /** The version line has no sh shebang in it ... */
  lemma NoShebangInVersionLine()
    ensures ReplaceAll(VersionPlaceholder, ShShebang, "") == VersionPlaceholder
  {
    VersionPlaceholderLacks();
    assert ShShebang[0] == '#';
    MissingCharNotContained(VersionPlaceholder, ShShebang, 0);
    AbsentPatternIsNoOp(VersionPlaceholder, ShShebang, "");
  }

  /** ... and no module-name placeholder. */
  lemma NoNameInVersionLine(name: string)
    ensures ReplaceAll(VersionPlaceholder, NamePlaceholder, "MODULE_NAME=" + name) == VersionPlaceholder
  {
    VersionPlaceholderLacks();
    assert NamePlaceholder[8] == 'A';
    MissingCharNotContained(VersionPlaceholder, NamePlaceholder, 8);
    AbsentPatternIsNoOp(VersionPlaceholder, NamePlaceholder, "MODULE_NAME=" + name);
  }

  /** The line MODULE_VERSION_STRING=$2 becomes MODULE_VERSION_STRING=<version>. */
  lemma VersionLineRenders(name: string, version: string)
    ensures Render(VersionPlaceholder, name, version) == "MODULE_VERSION_STRING=" + version
  {
    NoShebangInVersionLine();
    NoNameInVersionLine(name);
    ReplaceWhole(VersionPlaceholder, "MODULE_VERSION_STRING=" + version);
  }

  /** dkms.conf with every @PKGVER@ replaced by the package version. */
  function DkmsConf(conf: string, version: string): (r: string)
  {
    ReplaceAll(conf, "@PKGVER@", version)
  }

  /** The version goes exactly where the marker was: the conf's text between
      markers is kept, in order. */
  lemma DkmsConfPlacesVersion(conf: string, version: string)
    ensures DkmsConf(conf, version) == Join(Split(conf, "@PKGVER@"), version)
    ensures !Contains(conf, "@PKGVER@") ==> DkmsConf(conf, version) == conf
  {
    ReplaceAllIsSplitJoin(conf, "@PKGVER@", version);
    if !Contains(conf, "@PKGVER@") {
      AbsentPatternIsNoOp(conf, "@PKGVER@", version);
    }
  }
}
