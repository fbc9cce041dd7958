# AMR / AMI core, modelled in Dafny

This project models five parts of the AMR (Alveo management runtime) repository and proves properties of them.

- **Debian packaging of the AMI driver and of `ami_tool`** (`gen_pkg_driver.py`, `gen_pkg_ami_tool.py`, `pkg_data/pkg.py`). Modules `Text`, `VersionExtract`, `Scriptlet`, `Payload`, `PkgRules` and `Package` cover:
  - the version and release taken from the generated version header by three line-anchored regular expressions;
  - the maintainer scripts rendered by `str.replace`;
  - the payload paths: driver sources keep their directory structure, API headers are flattened, and same-named headers collide;
  - the control file, the changelog, the pkg-config file and the package names;
  - `find_longest_filter`;
  - the command-line options;
  - the allow-lists of distributions and architectures;
  - the pass/fail rule of the step runner and the file-system guards.
- **The RAVE manufacturing-EEPROM driver of the AMC firmware** (`eeprom.c`), module `Eeprom`. It is a class holding the driver's private record: its configuration, the FRU board-info fields and the statistics counters. The model covers:
  - initialisation;
  - the page-splitting raw write and the I2C write and read frames for 1- and 2-byte addressing;
  - the IPMI FRU zero checksums (common header and board info area, sections 8 and 11 of the IPMI Platform Management FRU Information Storage Definition v1.0);
  - field reads that turn unprogrammed 0xFF bytes into NUL;
  - the MAC count, the guarded getters and the statistics.
- **The sGCQ ring bookkeeping** (`gcq_ring.h`), module `Gcq`. It covers:
  - free-running 32-bit producer and consumer counters, with full/empty tests that hold across wrap-around;
  - power-of-two slot masking and the ring length;
  - word-by-word copies to and from ring memory;
  - counter publication to memory or to a register.
- **The program flag words** (`ami_program.h`), module `AmiProgram`: `bv32` packing and unpacking, with round trips.
- **The AMI tool's helpers** (`apputils.c`), module `AppUtils`. It covers:
  - the hex-data writer and reader (`write_hex_data`, `read_hex_data` with glibc `strtoul`) and their round trip;
  - the growth of the staging buffer;
  - the boot-header and image-header-table checks of `find_parent_uuid`;
  - the bounded yes/no prompt of `confirm_action`.

Where the source updates state step by step, the model does too:
- the EEPROM driver, the GCQ ring, the memory accessors, the PDI file, the option parser and the file system are classes whose methods change their fields;
- loops stay loops.

Each such method is proved against a specification function, and the properties the source promises are proved about that function.

Two behaviours of the scripts are easy to mistake, and the model keeps them as the code has them:
- A scriptlet template without one of its placeholders is left unchanged and no error is raised (`str.replace` of an absent pattern).
- The changelog trailer starts with `-- ` at column 0, with no leading space.

## Model

| member | source | states |
|---|---|---|
| Text.Split | sw/AMI/scripts/gen_pkg_driver.py:317 | str.split always gives at least one piece |
| Text.JoinSplit | sw/AMI/scripts/gen_pkg_driver.py:317-319 | writing '\n'.join of the split lines gives the scriptlet text back unchanged |
| Text.SplitPiecesFree | sw/AMI/scripts/gen_pkg_driver.py:317 | no line produced by the split still holds the separator, and the first one is a prefix of the text |
| Text.SplitJoin | sw/AMI/scripts/gen_pkg_driver.py:317-319 | splitting joined lines on a separator none of them holds gives the lines back |
| Text.SplitAfterPiece | sw/AMI/scripts/gen_pkg_driver.py:317 | the first line of a + '\n' + b is a when a has no newline |
| Text.ReplaceAllIsSplitJoin | sw/AMI/scripts/gen_pkg_driver.py:314-316 | str.replace is splitting on the pattern and joining with the replacement: every occurrence is replaced and the text between is kept |
| Text.AbsentPatternIsNoOp | sw/AMI/scripts/gen_pkg_driver.py:314-316 | replacing a pattern that does not occur changes nothing |
| Text.ReplaceWhole | sw/AMI/scripts/gen_pkg_driver.py:314-316 | a text that is exactly the pattern becomes exactly the replacement |
| Text.ReplaceAllKeepsCharOut | sw/AMI/scripts/gen_pkg_driver.py:314-316 | replacing never brings in a character that neither the text nor the replacement has |
| Text.ReplaceAllAcross | sw/AMI/scripts/gen_pkg_driver.py:314-316 | a pattern without a newline is replaced in each line independently |
| Text.JoinAppend | sw/AMI/scripts/gen_pkg_driver.py:417 | joining two lists puts exactly one separator between them |
| Text.NatToString | sw/AMI/scripts/gen_pkg_driver.py:115 | str(n) is a non-empty run of decimal digits |
| Text.NatToStringValue | sw/AMI/scripts/gen_pkg_driver.py:115 | the decimal value of str(n) is n |
| Text.ZFill | sw/AMI/scripts/gen_pkg_driver.py:115 | zfill pads to the width when the text is shorter and keeps the text as its end |
| Text.HexFixed | sw/AMI/app/apputils.c:249-250 | exactly width hexadecimal digits |
| Text.HexFixedValue | sw/AMI/app/apputils.c:249-250 | width hex digits read back as v when v is below 16^width |
| Text.HexPaddedValue | sw/AMI/app/apputils.c:441-449 | a value below 16^width is printed by %0*x in exactly width digits that read back as the value |
| Text.HexDigitChars | sw/AMI/app/apputils.c:354 | the hexadecimal digits are 0-9, a-f and A-F |
| Text.HexDigitRoundTrip | sw/AMI/app/apputils.c:441-449 | a printed digit reads back as its value |
| VersionExtract.DigitRun | sw/AMI/scripts/gen_pkg_driver.py:301-303 | the greedy digit run: all digits and maximal |
| VersionExtract.FirstMatchKeeps | sw/AMI/scripts/gen_pkg_driver.py:301-306 | any property every capture of the pattern has, findall(...)[0] has too |
| VersionExtract.TripleLengthIsTriple | sw/AMI/scripts/gen_pkg_driver.py:301 | what \d+\.\d+\.\d+ takes is a dotted triple of digit runs |
| VersionExtract.TagCapturesAreTriples | sw/AMI/scripts/gen_pkg_driver.py:301 | every capture of the GIT_TAG pattern is a dotted triple |
| VersionExtract.CommitsCapturesAreDigits | sw/AMI/scripts/gen_pkg_driver.py:302 | every capture of the dev-commits pattern is a non-empty digit run |
| VersionExtract.VersionIsTriple | sw/AMI/scripts/gen_pkg_driver.py:301-306 | the package version is always <digits>.<digits>.<digits>, read or defaulted to 0.0.0 |
| VersionExtract.ReleaseShape | sw/AMI/scripts/gen_pkg_driver.py:302-309 | the release is <digits>.<at most 8 hash characters>.<pkg release> |
| VersionExtract.NoKeysGiveDefaults | sw/AMI/scripts/gen_pkg_driver.py:301-309 | a header with none of the keys gives no match |
| VersionExtract.EmptyHeaderDefaults | sw/AMI/scripts/gen_pkg_driver.py:306-309 | an empty header gives version 0.0.0 and release 0..<pkg release> |
| VersionExtract.LineWithoutKeyChar | sw/AMI/scripts/gen_pkg_driver.py:301-303 | a line lacking a character of the key has no match |
| VersionExtract.FoundAt | sw/AMI/scripts/gen_pkg_driver.py:301-303 | the match is the tail at the first position after the leftmost key where the lazy .*? lets it match |
| VersionExtract.TripleLengthOf | sw/AMI/scripts/gen_pkg_driver.py:301 | a triple followed by a quote is taken whole |
| VersionExtract.TagDefineLine | sw/AMI/scripts/gen_pkg_driver.py:301 | a line GIT_TAG <pad> "<v>" with v a triple yields v |
| VersionExtract.CommitsDefineLine | sw/AMI/scripts/gen_pkg_driver.py:302 | a line GIT_TAG_VER_DEV_COMMITS <pad> (<d>) yields the digits d |
| VersionExtract.HashDefineLine | sw/AMI/scripts/gen_pkg_driver.py:303 | a line GIT_HASH <pad> "<h>" yields h |
| VersionExtract.FirstMatchAt | sw/AMI/scripts/gen_pkg_driver.py:301-303 | findall(...)[0] comes from the first line with a match |
| VersionExtract.DefineText | sw/AMI/scripts/gen_pkg_driver.py:298-303 | a generated #define line: the name padded with spaces to column 34, then the value |
| VersionExtract.GcqVersionDefinesTag | sw/AMI/scripts/gen_pkg_driver.py:301-306 | over the lines of the generated version header, the first match of the GIT_TAG pattern captures 1.0.0 |
| VersionExtract.GcqVersionDefinesCommits | sw/AMI/scripts/gen_pkg_driver.py:302-309 | over those lines, the first match of the GIT_TAG_VER_DEV_COMMITS pattern captures 0 |
| VersionExtract.GcqVersionDefinesHash | sw/AMI/scripts/gen_pkg_driver.py:303-309 | over those lines, the first match of the GIT_HASH pattern captures the full 40-character hash |
| VersionExtract.GcqHeaderLines | sw/AMI/scripts/gen_pkg_driver.py:297-303 | splitting the header text into lines gives back its defines, none of which holds a newline |
| VersionExtract.PackageOfMatches | sw/AMI/scripts/gen_pkg_driver.py:296-309 | when the three patterns match a header's lines with a tag, a commit count and a hash, the version is the tag and the release is the count, the first 8 characters of the hash and the package release, joined by dots |
| VersionExtract.GcqVersionHeaderPackage | sw/AMI/scripts/gen_pkg_driver.py:296-309 | from the generated header text the version is 1.0.0 and the release is "0.6b9a1f03." followed by the package release |
| Scriptlet.RenderedLines | sw/AMI/scripts/gen_pkg_driver.py:312-317 | the kept scriptlet is at least one line |
| Scriptlet.MaintainerScript | sw/AMI/scripts/gen_pkg_driver.py:445-480 | the DEBIAN script starts with #!/bin/bash and set -e, followed by at least one line |
| Scriptlet.StagedCopyIsRendered | sw/AMI/scripts/gen_pkg_driver.py:312-339 | the copy written to the output directory is exactly the rendered template |
| Scriptlet.ScriptIsHeaderThenRendered | sw/AMI/scripts/gen_pkg_driver.py:445-480 | the DEBIAN script is #!/bin/bash, set -e, then the rendered template unchanged |
| Scriptlet.NoPlaceholdersNoChange | sw/AMI/scripts/gen_pkg_driver.py:312-339 | a template without the three placeholders passes through unchanged: a missing placeholder is not an error |
| Scriptlet.RenderEach | sw/AMI/scripts/gen_pkg_driver.py:312-339 | one rendered line per template line |
| Scriptlet.RenderAcrossNewline | sw/AMI/scripts/gen_pkg_driver.py:314-316 | rendering two lines is rendering each |
| Scriptlet.RenderByLine | sw/AMI/scripts/gen_pkg_driver.py:314-316 | no placeholder spans two lines, so rendering a template is rendering each line |
| Scriptlet.RenderKeepsLine | sw/AMI/scripts/gen_pkg_driver.py:314-316 | a rendered line has no newline when the line, the name and the version have none |
| Scriptlet.ScriptOfTemplateLines | sw/AMI/scripts/gen_pkg_driver.py:312-480 | for a template given line by line, the script is the bash header followed by each line rendered on its own |
| Scriptlet.ShebangLineRendersEmpty | sw/AMI/scripts/gen_pkg_driver.py:314 | the line #!/bin/sh becomes empty |
| Scriptlet.NameLineRenders | sw/AMI/scripts/gen_pkg_driver.py:315 | MODULE_NAME=$1 becomes MODULE_NAME=<name> |
| Scriptlet.VersionLineRenders | sw/AMI/scripts/gen_pkg_driver.py:316 | MODULE_VERSION_STRING=$2 becomes MODULE_VERSION_STRING=<version> |
| Scriptlet.DkmsConfPlacesVersion | sw/AMI/scripts/gen_pkg_driver.py:533-538 | every @PKGVER@ in dkms.conf becomes the version and the text between markers is kept; without a marker it is unchanged |
| Payload.LastSlash | sw/AMI/scripts/pkg_data/pkg.py:149-155 | the index found holds the last slash of the path, or -1 when it has none |
| Payload.Basename | sw/AMI/scripts/gen_pkg_driver.py:392 | os.path.basename is the end of the path after its last slash, and holds no slash |
| Payload.LastSlashOfJoin | sw/AMI/scripts/gen_pkg_driver.py:392 | the basename of d/b is b when b has no slash |
| Payload.StripSlashes | sw/AMI/scripts/gen_pkg_driver.py:503 | the directory keeps a prefix of the path and does not end in a slash |
| Payload.DirnameBasename | sw/AMI/scripts/gen_pkg_driver.py:501-505 | a file path below the project is its dirname, a slash and its basename |
| Payload.ProjectRelativeOf | sw/AMI/scripts/gen_pkg_driver.py:274-288 | a file below the project directory is listed at its path relative to it, as long as the directory's name does not recur below it |
| Payload.CollectFiles | sw/AMI/scripts/gen_pkg_driver.py:278-288 | the walk's two loops collect exactly Collected: every kept file's relative path in walk order |
| Payload.CollectDirectory | sw/AMI/scripts/gen_pkg_driver.py:281-283 | the inner loop collects the kept files of one directory |
| Payload.CollectedInStep | sw/AMI/scripts/gen_pkg_driver.py:281-283 | one more file adds its kept path, if any |
| Payload.CollectedStep | sw/AMI/scripts/gen_pkg_driver.py:279-283 | one more directory adds its kept files |
| Payload.KeptPathsMembers | sw/AMI/scripts/gen_pkg_driver.py:282-283 | a file contributes a path iff it passes the .c/.h filter (when filtered) and maps to that path |
| Payload.FlatMembers | sw/AMI/scripts/gen_pkg_driver.py:279-288 | something is in the concatenation iff it is in one of the parts |
| Payload.CollectedInIsFlat | sw/AMI/scripts/gen_pkg_driver.py:281-283 | a directory's files are the concatenation of what each file contributes |
| Payload.CollectedIsFlat | sw/AMI/scripts/gen_pkg_driver.py:279-283 | the walk's files are the concatenation of what each directory contributes |
| Payload.CollectedInMembers | sw/AMI/scripts/gen_pkg_driver.py:281-283 | a path is collected from a directory iff one of its files passes the filter and maps to it |
| Payload.CollectedMembers | sw/AMI/scripts/gen_pkg_driver.py:279-288 | a path is collected iff some file of some visited directory passes the filter and maps to it: nothing lost, nothing invented |
| Payload.CollectedCount | sw/AMI/scripts/gen_pkg_driver.py:279-288 | without the filter every file of the walk is listed; with it, no more |
| Payload.CollectedInCount | sw/AMI/scripts/gen_pkg_driver.py:281-288 | per directory, the filter only removes files |
| Payload.UsrSrcFiles | sw/AMI/scripts/gen_pkg_driver.py:386-388 | usr_src_files lists usr/src/<name>-<version>/<f> for every driver source, in order |
| Payload.UsrIncludeFiles | sw/AMI/scripts/gen_pkg_driver.py:391-392 | usr_include_h lists usr/include/<name>/<basename> for every API header, in order |
| Payload.DriverStructureKept | sw/AMI/scripts/gen_pkg_driver.py:501-527 | a driver source is copied to usr/src/<name>-<version>/<its relative path>, the path usr_src_files lists |
| Payload.HeaderFlattened | sw/AMI/scripts/gen_pkg_driver.py:507-527 | an API header is copied to usr/include/<name>/<basename>, the path usr_include_h lists |
| Payload.HeadersCollide | sw/AMI/scripts/gen_pkg_driver.py:507-527 | two headers with one file name in different directories land on the same package path |
| Payload.ToolInstalledInBin | sw/AMI/scripts/gen_pkg_ami_tool.py:305-386 | the ami_tool binary lands at usr/local/bin/ami_tool |
| Payload.StagedStep | sw/AMI/scripts/gen_pkg_driver.py:524-530 | one more copy puts its source at its installed path |
| Payload.StagePayload | sw/AMI/scripts/gen_pkg_driver.py:524-530 | the copy loop succeeds iff every source exists, and then the tree is Staged; otherwise it stops with the name of a missing source |
| Payload.StagedLastWins | sw/AMI/scripts/gen_pkg_driver.py:524-530 | the file at a package path is the source copied there last |
| Payload.HeaderCollisionKeepsLater | sw/AMI/scripts/gen_pkg_driver.py:507-527 | of two colliding headers the package keeps the later one |
| Payload.FindLongestFilter | sw/AMI/scripts/gen_pkg_driver.py:118-134 | the result is a prefix of the path, either "" or a key, at least as long as every matching key, and the first of the longest on a tie |
| PkgRules.DistFamiliesPartition | sw/AMI/scripts/pkg_data/pkg.py:94-118 | every supported distribution is in exactly one of the RPM and Debian families; five distributions and four architectures are supported |
| PkgRules.CheckSystem | sw/AMI/scripts/gen_pkg_driver.py:209-239 | the system is accepted iff both its distribution and its architecture are supported; an unknown distribution stops with GPKG-14 before the architecture is looked at, an unknown architecture with GPKG-17 |
| PkgRules.UnknownSystemsRejected | sw/AMI/scripts/gen_pkg_driver.py:209-239 | Debian is refused as a distribution, arm64 as an architecture, Ubuntu on amd64 is accepted |
| PkgRules.Head | sw/AMI/scripts/pkg_data/pkg.py:163 | line[0:n] has n characters, or all of a shorter line, and is a prefix of it |
| PkgRules.CheckLogErrorAsWritten | sw/AMI/scripts/pkg_data/pkg.py:157-168 | the scan as written flags a log iff some line's first seven characters equal the eight-character tag, so it never flags one |
| PkgRules.AsWrittenNeverMatches | sw/AMI/scripts/pkg_data/pkg.py:162-163 | no line passes the comparison as written |
| PkgRules.AsWrittenMissesErrorLine | sw/AMI/scripts/pkg_data/pkg.py:162-163 | a line that starts with "ERROR: [" is not flagged |
| PkgRules.CheckLogError | sw/AMI/scripts/pkg_data/pkg.py:157-168 | the intended scan flags a log iff some line starts with "ERROR: [" |
| PkgRules.ExecStepCmdAsWritten | sw/AMI/scripts/pkg_data/pkg.py:179-212 | exec_step_cmd as written: because its log scan never flags a line, a step fails iff errors are not ignored and the return code is unexpected (non-zero, or zero when failure is expected), with the step's id; otherwise the return code is returned |
| PkgRules.StepWithErrorLogPasses | sw/AMI/scripts/pkg_data/pkg.py:157-212 | a step that returns 0 with an `ERROR: [` line in its log passes as written, and fails with the step's id under the intended scan |
| PkgRules.ExecStepCmd | sw/AMI/scripts/pkg_data/pkg.py:179-212 | exec_step_cmd with the intended log scan (see Findings): a step fails iff errors are not ignored and either some log line starts with `ERROR: [` or the return code is unexpected, with the step's id; otherwise the return code is returned |
| PkgRules.StepRuleOnReturnCode | sw/AMI/scripts/pkg_data/pkg.py:199-211 | without a flagged log, the rule is exactly "unexpected return code"; ignore_error never fails; expect_fail turns the verdict around |
| PkgRules.FileSystem.constructor | sw/AMI/scripts/pkg_data/pkg.py:225-242 | the file system starts with the given files and directories |
| PkgRules.FileSystem.CheckFileExists | sw/AMI/scripts/pkg_data/pkg.py:225-228 | fails with the given id iff the path is not a file |
| PkgRules.FileSystem.CheckDirExists | sw/AMI/scripts/pkg_data/pkg.py:230-233 | fails with the given id iff the path is not a directory |
| PkgRules.FileSystem.ForceRemoveDir | sw/AMI/scripts/pkg_data/pkg.py:235-242 | the tree below the directory is removed unless removal raises; it fails iff removal raised or the directory survived |
| PkgRules.Ancestors | sw/AMI/scripts/pkg_data/pkg.py:152-153 | the directories above a path that os.makedirs creates are shorter than it and do not lie under it |
| PkgRules.AncestorsOfChild | sw/AMI/scripts/gen_pkg_driver.py:177-186 | the directories above a subdirectory are the directory itself and those above it |
| PkgRules.FileSystem.MakeDirs | sw/AMI/scripts/pkg_data/pkg.py:152-153 | os.makedirs succeeds iff the path does not exist and no directory above it is a regular file; an existing path raises FileExistsError; on success the path and its missing parents become directories and nothing else changes |
| PkgRules.FileSystem.MakeMissingDir | sw/AMI/scripts/pkg_data/pkg.py:152-153 | `if not isdir: makedirs`: an existing directory is kept; otherwise as MakeDirs, so a regular file at the path raises FileExistsError |
| PkgRules.FileSystem.CopySourceFile | sw/AMI/scripts/pkg_data/pkg.py:149-155 | fails with the id iff the source is not a file; a regular file at the destination directory raises FileExistsError; otherwise succeeds iff the copy's path is neither the source nor a directory, and then the destination directory and its parents exist and the copy is added under the source's file name |
| PkgRules.FileSystem.PrepareOutputDir | sw/AMI/scripts/gen_pkg_driver.py:162-186 | an existing output directory stops the script with GPKG-17 unless forced; forced, it is removed with everything under it and the run goes on iff the removal worked and no file sits above it; a new one is created iff OutputDirCreatable holds, and a regular file at its path raises FileExistsError; on success the directories are those kept plus the output directory's missing parents, itself and its log, tmp and bkp_design directories |
| PkgRules.OutputPathIsFile | sw/AMI/scripts/gen_pkg_driver.py:167-175 | with a regular file `out` and `-o out`, preparing the output directory raises FileExistsError, and so does copying a source into `out` |
| PkgRules.FileSystem.CreateOutputDirs | sw/AMI/scripts/gen_pkg_ami_tool.py:150-162 | creating a new output directory and its subdirectories succeeds iff no regular file sits at it or above it and each subdirectory is a directory or not a file; the files are unchanged |
| PkgRules.FileSystem.MakeOutputSubdirs | sw/AMI/scripts/gen_pkg_driver.py:177-186 | the log, tmp and bkp_design steps succeed iff none of them is a regular file that is not a directory, and then add exactly those three directories |
| PkgRules.FileSystem.MakeOutputSubdir | sw/AMI/scripts/gen_pkg_driver.py:177-178 | once the output directory exists, one subdirectory step fails, with FileExistsError, iff a regular file of that name is there |
| PkgRules.CreatableAfterRemoval | sw/AMI/scripts/gen_pkg_driver.py:167-175 | after the forced removal, only a regular file above the output directory stops its creation |
| PkgRules.OutputSubdirs | sw/AMI/scripts/gen_pkg_ami_tool.py:138-162 | the directories created are the output directory and its log, tmp and bkp_design subdirectories, all under the output directory |
| PkgRules.FirstUnhandled | sw/AMI/scripts/gen_pkg_driver.py:78-105 | the options loop handles every option before the returned index and stops at the one after it |
| PkgRules.Options.constructor | sw/AMI/scripts/gen_pkg_driver.py:45-53 | the options start at their defaults |
| PkgRules.Options.Apply | sw/AMI/scripts/gen_pkg_driver.py:84-103 | one branch of the loop sets the fields ApplyOption says |
| PkgRules.Options.ApplyAll | sw/AMI/scripts/gen_pkg_driver.py:78-105 | the loop applies the options in order and stops at the first one without a branch |
| PkgRules.Options.GetOptions | sw/AMI/scripts/gen_pkg_driver.py:55-115 | an option without a branch stops with GPKG-02, left-over arguments with GPKG-03, help or version with GPKG-04; otherwise the options read as Parse says and the release defaults to today's date |
| PkgRules.ParseReadsOptions | sw/AMI/scripts/gen_pkg_driver.py:78-103 | a flag is set iff one of its spellings was given; output_dir and pkg_release keep the argument of their last occurrence |
| PkgRules.ApplyOptionFields | sw/AMI/scripts/gen_pkg_driver.py:84-103 | one option changes the field of its own kind and no other |
| PkgRules.GivenStep | sw/AMI/scripts/gen_pkg_driver.py:78-103 | an option kind occurs in a longer list iff it occurs before or is the last option |
| PkgRules.ToolRejectsNoDriver | sw/AMI/scripts/gen_pkg_ami_tool.py:56-100 | the tool script accepts -n from getopt but has no branch for it, so it stops at that option; the driver script handles it |
| PkgRules.LeadingZero | sw/AMI/scripts/gen_pkg_driver.py:115 | a leading zero does not change a decimal value |
| PkgRules.ZFillDigits | sw/AMI/scripts/gen_pkg_driver.py:115 | zfill of digits is digits |
| PkgRules.ZFillValue | sw/AMI/scripts/gen_pkg_driver.py:115 | zfill does not change the value of digits |
| PkgRules.YearField | sw/AMI/scripts/gen_pkg_driver.py:115 | a four-digit year prints as four characters |
| PkgRules.TwoDigitField | sw/AMI/scripts/gen_pkg_driver.py:115 | zfill(2) of a month or a day is two digits that read back as it |
| PkgRules.DefaultPkgReleaseReadsBack | sw/AMI/scripts/gen_pkg_driver.py:114-115 | the default release is eight digits that read back as year, month and day |
| Package.DescriptionLines | sw/AMI/scripts/gen_pkg_driver.py:409-413 | the description has three lines: the vendor line, the build date, the build system |
| Package.ControlHead | sw/AMI/scripts/gen_pkg_driver.py:427-431 | the four fields before the description |
| Package.ControlTail | sw/AMI/scripts/gen_pkg_driver.py:432-439 | the maintainer, the section, the optional Depends and Conflicts fields and the final empty line |
| Package.BuildControl | sw/AMI/scripts/gen_pkg_driver.py:426-439 | the control list the appends build is ControlLines |
| Package.ControlFields | sw/AMI/scripts/gen_pkg_driver.py:426-439 | the control file has eight lines plus one per non-empty Depends/Conflicts list, in the fixed field order, and ends with an empty line; Depends appears iff there are Debian dependencies, Conflicts iff there are conflicts |
| Package.Indent | sw/AMI/scripts/gen_pkg_driver.py:416 | a continuation line is the line with a space in front |
| Package.JoinIndent | sw/AMI/scripts/gen_pkg_driver.py:416 | joining with newline-space is joining the indented lines with newlines |
| Package.ControlJoinsPhysical | sw/AMI/scripts/gen_pkg_driver.py:416-443 | the written control text is the physical lines joined with newlines |
| Package.ControlPhysicalLinesFree | sw/AMI/scripts/gen_pkg_driver.py:416-443 | no physical line of the control file holds a newline when the constants do not |
| Package.ControlText | sw/AMI/scripts/gen_pkg_driver.py:416-443 | the control text splits back into its physical lines, two more than its fields; the description's second and third lines are continuation lines that start with a space; the file ends with a newline |
| Package.EndsWithNewline | sw/AMI/scripts/gen_pkg_driver.py:439-443 | a list ending in an empty line is written out ending in a newline |
| Package.ConfigFacts | sw/AMI/scripts/gen_pkg_driver.py:291-352 | both flavours' constants are newline-free, have Debian dependencies and no Debian conflicts, and end their changelog entry with the literal text $build_date_short |
| Package.BuildChangelog | sw/AMI/scripts/gen_pkg_driver.py:482-489 | the changelog list the appends build is ChangelogLines |
| Package.ChangelogText | sw/AMI/scripts/gen_pkg_driver.py:482-496 | written out, the changelog reads back as its seven lines, with blank lines around the header, entry and trailer |
| Package.ChangelogHeaderEntryTrailer | sw/AMI/scripts/gen_pkg_driver.py:482-489 | the header names package, version and release; the entry is the changelog constant whatever the date; the trailer starts at column 0 with "-- " and ends with the date and a fixed time |
| Package.PkgConfigDir | sw/AMI/scripts/gen_pkg_driver.py:402-406 | Debian-family systems get usr/lib/pkgconfig, RPM-family systems usr/share/pkgconfig |
| Package.PcDriverIncludeDir | sw/AMI/scripts/gen_pkg_driver.py:541-551 | the driver's .pc file points at the directory every packaged header lands in and describes the package by its summary |
| Package.PcToolBinDir | sw/AMI/scripts/gen_pkg_ami_tool.py:305-416 | the tool's .pc file points at the directory the tool binary lands in |
| Package.PackageNameFields | sw/AMI/scripts/gen_pkg_driver.py:418-566 | the renamed copy ends in .deb and splits at underscores into name, version-release, architecture and distribution release; it is the built file's name with _<dist_rel> before .deb |
| Package.FlavourNamesPlain | sw/AMI/scripts/gen_pkg_driver.py:291 | the package names are non-empty and hold no underscore or slash |
| Eeprom.Received | fw/AMC/src/device_drivers/eeprom/rave/eeprom.c:1530-1535 | a read delivers exactly the requested number of bytes, each the one the bus returns |
| Eeprom.AddressFrame | fw/AMC/src/device_drivers/eeprom/rave/eeprom.c:1370-1385 | the register address takes addressSize bytes |
| Eeprom.WriteFrameLayout | fw/AMC/src/device_drivers/eeprom/rave/eeprom.c:1365-1390 | a write frame is the address then the data: with 2-byte addressing the high byte is 0, and offset and data read back from the frame |
| Eeprom.FirstPageEndsAligned | fw/AMC/src/device_drivers/eeprom/rave/eeprom.c:1158-1170 | filling the rest of the first page ends on a page boundary |
| Eeprom.PageChunksShape | fw/AMC/src/device_drivers/eeprom/rave/eeprom.c:1177-1202 | the page loop's writes follow one another, add up to what remains and each is 1 to pageSize bytes |
| Eeprom.PageChunksAligned | fw/AMC/src/device_drivers/eeprom/rave/eeprom.c:1177-1202 | from a page boundary every page write starts on a boundary |
| Eeprom.AlignedPageChunksFit | fw/AMC/src/device_drivers/eeprom/rave/eeprom.c:1177-1202 | from a page boundary the writes are contiguous, cover what remains, none is empty and none crosses a page boundary |
| Eeprom.UnalignedPlanShape | fw/AMC/src/device_drivers/eeprom/rave/eeprom.c:1154-1202 | from an unaligned address the first write is min(page - addr % page, size) bytes at addr and the rest are page writes, all contiguous and within their pages |
| Eeprom.RawWritePlanShape | fw/AMC/src/device_drivers/eeprom/rave/eeprom.c:1145-1202 | the writes of a raw write are contiguous from addr, cover exactly size bytes and never cross a page boundary |
| Eeprom.RawWritePlanFits | fw/AMC/src/device_drivers/eeprom/rave/eeprom.c:1154-1202 | when addr + size is at most 256 every write addresses the caller's data and an 8-bit offset |
| Eeprom.PlanAsWritten | fw/AMC/src/device_drivers/eeprom/rave/eeprom.c:1154-1201 | as the source runs it, every write's offset is reduced to 8 bits |
| Eeprom.PlanAsWrittenAgrees | fw/AMC/src/device_drivers/eeprom/rave/eeprom.c:1154-1201 | inside the 256-byte offset space the 8-bit offset does not wrap and the writes as written are the planned ones |
| Eeprom.RawWriteOffsetWraps | fw/AMC/src/device_drivers/eeprom/rave/eeprom.c:1169-1195 | two bytes at 0xFF with 32-byte pages: the second write goes to offset 0 with its data taken from index -255 |
| Eeprom.BufferLength | fw/AMC/src/device_drivers/eeprom/rave/eeprom.c:164-177 | every board-info buffer is longer than its field |
| Eeprom.V1LayoutFits | fw/AMC/src/device_drivers/eeprom/rave/eeprom.c:55-87 | every layout 1.0 field with a buffer leaves room for its terminator; every field ends by 0x89, inside the 256 offsets of a one-byte address, and only the MAC ends past the 128 bytes of EEPROM_BUF_SIZE; fields without a buffer other than the MAC count have size 0 |
| Eeprom.Zeros | fw/AMC/src/device_drivers/eeprom/rave/eeprom.c:281-283 | a zero buffer of the given length |
| Eeprom.InitialBoard | fw/AMC/src/device_drivers/eeprom/rave/eeprom.c:272-351 | the record starts with a zero buffer for exactly the fields that have one |
| Eeprom.BoardStore | fw/AMC/src/device_drivers/eeprom/rave/eeprom.c:1559-1604 | storing a same-length buffer keeps the record's shape |
| Eeprom.MacCount | fw/AMC/src/device_drivers/eeprom/rave/eeprom.c:563-574 | the MAC count is at most 41 |
| Eeprom.MacCountFits | fw/AMC/src/device_drivers/eeprom/rave/eeprom.c:563-574 | at least 4 bytes: the count is the number of whole 6-byte MACs after the 4-byte prefix; below 4 it is 0 |
| Eeprom.StoreTerminator | fw/AMC/src/device_drivers/eeprom/rave/eeprom.c:1587 | the NUL is stored iff it lands inside the buffer, keeping the bytes before it |
| Eeprom.MacCountBufferAsWritten | fw/AMC/src/device_drivers/eeprom/rave/eeprom.c:554-557 | the MAC-count buffer as written is one byte, the field's size |
| Eeprom.MacCountTerminatorOverruns | fw/AMC/src/device_drivers/eeprom/rave/eeprom.c:554-561 | as written, the terminator of the one-byte MAC-count field lands past its buffer |
| Eeprom.MacCountBuffer | fw/AMC/src/device_drivers/eeprom/rave/eeprom.c:554-557 | the corrected buffer is one byte longer than the field |
| Eeprom.MacCountTerminatorFits | fw/AMC/src/device_drivers/eeprom/rave/eeprom.c:554-561 | with the corrected buffer the terminator fits |
| Eeprom.FieldReadTerminated | fw/AMC/src/device_drivers/eeprom/rave/eeprom.c:1570-1587 | a successful field read leaves a NUL after the field, and no 0xFF bytes unless it is a MAC |
| Eeprom.FieldReadSingle | fw/AMC/src/device_drivers/eeprom/rave/eeprom.c:1570-1587 | a one-byte field read is one transfer at the field's offset, succeeds iff the bus accepts it and stores the byte received (0xFF as NUL outside MACs) |
| Eeprom.ReadSoFarStep | fw/AMC/src/device_drivers/eeprom/rave/eeprom.c:1570-1584 | one more accepted byte read extends the field read so far |
| Eeprom.FieldReadComplete | fw/AMC/src/device_drivers/eeprom/rave/eeprom.c:1570-1587 | a read that got through all bytes ends with the terminator, OK iff the size is not 0 |
| Eeprom.FieldReadStopped | fw/AMC/src/device_drivers/eeprom/rave/eeprom.c:1580-1587 | a read that fails at byte i stops there with an error, that byte cleaned, and the terminator written |
| Eeprom.Send | fw/AMC/src/device_drivers/eeprom/rave/eeprom.c:1177-1202 | a run of writes issues at most the writes asked for and is never refused |
| Eeprom.AcceptedUpToCons | fw/AMC/src/device_drivers/eeprom/rave/eeprom.c:1177-1202 | the bus accepts the first n + 1 writes iff it accepts the first and then the next n |
| Eeprom.SendPrefix | fw/AMC/src/device_drivers/eeprom/rave/eeprom.c:1177-1202 | the writes issued are a prefix of the plan |
| Eeprom.SendAcceptance | fw/AMC/src/device_drivers/eeprom/rave/eeprom.c:1196-1200 | every write before the last one issued was accepted; all accepted iff every write was issued and accepted; a bus rejection is the last write issued |
| Eeprom.SendShape | fw/AMC/src/device_drivers/eeprom/rave/eeprom.c:1177-1202 | both halves of SendPrefix and SendAcceptance together |
| Eeprom.PageWriteIsChunk | fw/AMC/src/device_drivers/eeprom/rave/eeprom.c:1193-1195 | the page loop's write is the chunk write of its offset |
| Eeprom.PageRunSends | fw/AMC/src/device_drivers/eeprom/rave/eeprom.c:1177-1202 | the page loop sends the writes of the page chunks in order, stopping at the first failure |
| Eeprom.RawRunSends | fw/AMC/src/device_drivers/eeprom/rave/eeprom.c:1154-1202 | the multi-byte branch sends the writes of the raw-write plan in order |
| Eeprom.RawWriteSends | fw/AMC/src/device_drivers/eeprom/rave/eeprom.c:1145-1202 | a raw write sends exactly the writes of its plan, in order, stopping at the first failure |
| Eeprom.SumStep | fw/AMC/src/device_drivers/eeprom/rave/eeprom.c:1679-1705 | the 8-bit running sum adds one byte modulo 256 |
| Eeprom.AddBytes | fw/AMC/src/device_drivers/eeprom/rave/eeprom.c:1679-1705 | each checksum loop computes the byte sum of its range modulo 256 |
| Eeprom.ChecksumByteCompletes | fw/AMC/src/device_drivers/eeprom/rave/eeprom.c:1684-1711 | an area passes the zero-sum check iff its last byte is the checksum byte of the rest |
| Eeprom.BoardEndWraps | fw/AMC/src/device_drivers/eeprom/rave/eeprom.c:1697-1705 | a board length of 31 makes the 8-bit end 0, so the board checksum is skipped and passes, where the corrected check fails |
| Eeprom.BoardEndOverruns | fw/AMC/src/device_drivers/eeprom/rave/eeprom.c:1697-1705 | a board length of 13 makes the loop run to offset 112, past the 104 bytes read |
| Eeprom.BoardCheckAgrees | fw/AMC/src/device_drivers/eeprom/rave/eeprom.c:1697-1716 | when the end neither wraps nor passes the bytes read, the check as written and the corrected one agree |
| Eeprom.IdTries | fw/AMC/src/device_drivers/eeprom/rave/eeprom.c:1744-1772 | the number of device-ID reads is at most the tries left |
| Eeprom.IdReadFails | fw/AMC/src/device_drivers/eeprom/rave/eeprom.c:1755-1758 | failed reads are at most the reads |
| Eeprom.IdTriesShape | fw/AMC/src/device_drivers/eeprom/rave/eeprom.c:1744-1772 | the loop reads at least once, stops at the first match and only then early, and ends on a match iff one occurs within the tries |
| Eeprom.IdCheckFrom | fw/AMC/src/device_drivers/eeprom/rave/eeprom.c:1744-1772 | reads issued grow by at most the tries left, and failures plus the match never exceed them |
| Eeprom.IdCheckFromAgrees | fw/AMC/src/device_drivers/eeprom/rave/eeprom.c:1744-1772 | the device-ID loop issues IdTries reads, counts IdReadFails failures and matches iff the last read matched |
| Eeprom.IdCheckAgrees | fw/AMC/src/device_drivers/eeprom/rave/eeprom.c:1738-1779 | the same from the start, with three tries |
| Eeprom.IdRequests | fw/AMC/src/device_drivers/eeprom/rave/eeprom.c:1743-1751 | every try sends the same device-ID register read |
| Eeprom.EepromDriver.constructor | fw/AMC/src/device_drivers/eeprom/rave/eeprom.c:272-351 | the static record: firewalls set, not initialised, zero configuration, both versions VERSION_MAX, zero buffers and counters |
| Eeprom.EepromDriver.FieldValue | fw/AMC/src/device_drivers/eeprom/rave/eeprom.c:677-1101 | a field's bytes hold at least its reported size |
| Eeprom.EepromDriver.IncStat | fw/AMC/src/device_drivers/eeprom/rave/eeprom.c:136 | one statistics counter goes up by one |
| Eeprom.EepromDriver.IncError | fw/AMC/src/device_drivers/eeprom/rave/eeprom.c:137 | one error counter goes up by one |
| Eeprom.EepromDriver.Issue | fw/AMC/src/device_drivers/eeprom/rave/eeprom.c:1387-1390 | one transfer is added to the bus trace, accepted as the bus says |
| Eeprom.EepromDriver.WriteByte | fw/AMC/src/device_drivers/eeprom/rave/eeprom.c:1357-1406 | with a 1- or 2-byte address one write frame is sent, OK iff the bus accepts it, counted as a statistic or an error; otherwise nothing is sent and a validation error is counted |
| Eeprom.EepromDriver.WriteMultiBytes | fw/AMC/src/device_drivers/eeprom/rave/eeprom.c:1411-1457 | the same for up to a page of data; more than a page or a bad address size is a validation error |
| Eeprom.EepromDriver.ReadByte | fw/AMC/src/device_drivers/eeprom/rave/eeprom.c:1462-1504 | one read of one byte, OK iff the bus accepts it, the value received or the caller's byte unchanged on failure |
| Eeprom.EepromDriver.ReadMultiBytes | fw/AMC/src/device_drivers/eeprom/rave/eeprom.c:1509-1552 | one read of the requested bytes into the caller's buffer, left as it was on failure |
| Eeprom.EepromDriver.ReadField | fw/AMC/src/device_drivers/eeprom/rave/eeprom.c:1559-1604 | a NULL buffer or bad address size sends nothing and counts validation and field-read errors; otherwise the bytes are read one at a time as FieldRead says, and a success leaves the field terminated |
| Eeprom.EepromDriver.ReadBytes | fw/AMC/src/device_drivers/eeprom/rave/eeprom.c:1570-1587 | the loop of iEepromReadField establishes FieldRead and counts one single-byte read per accepted transfer |
| Eeprom.EepromDriver.ReadStep | fw/AMC/src/device_drivers/eeprom/rave/eeprom.c:1572-1583 | one pass of the loop extends the read or ends it with the failure |
| Eeprom.EepromDriver.WriteRawValue | fw/AMC/src/device_drivers/eeprom/rave/eeprom.c:1133-1212 | a failed guard sends nothing and counts a validation error; otherwise the trace grows by the writes of RawWrite, the status is OK iff all were accepted, and the counters count the accepted writes and the failure |
| Eeprom.EepromDriver.WritePages | fw/AMC/src/device_drivers/eeprom/rave/eeprom.c:1152-1203 | the multi-byte branch leaves the trace and counters as RawRun says |
| Eeprom.EepromDriver.WriteRun | fw/AMC/src/device_drivers/eeprom/rave/eeprom.c:1177-1202 | the page loop leaves the trace and counters as the run of the remaining pages says |
| Eeprom.EepromDriver.WritePage | fw/AMC/src/device_drivers/eeprom/rave/eeprom.c:1179-1201 | one pass writes 1 to pageSize bytes and either continues the run or ends it with the failure |
| Eeprom.EepromDriver.ReadRawValue | fw/AMC/src/device_drivers/eeprom/rave/eeprom.c:1106-1128 | a failed guard counts a validation error; otherwise one read of size bytes fills the front of the buffer on success and leaves it unchanged on failure |
| Eeprom.EepromDriver.GetField | fw/AMC/src/device_drivers/eeprom/rave/eeprom.c:677-1101 | OK iff the firewalls are intact, both pointers are given and the driver is initialised; then the field's bytes are copied and its size reported, else a validation error is counted and nothing written |
| Eeprom.EepromDriver.ClearStatistics | fw/AMC/src/device_drivers/eeprom/rave/eeprom.c:1251-1275 | with intact firewalls every counter is zero; otherwise only the validation error is counted |
| Eeprom.EepromDriver.VerifyChecksum | fw/AMC/src/device_drivers/eeprom/rave/eeprom.c:1664-1720 | one 104-byte read; OK iff it succeeds and the header and the board area both sum to zero, each passing area counted as a checksum statistic and a failing one as a checksum error |
| Eeprom.EepromDriver.VerifyDeviceId | fw/AMC/src/device_drivers/eeprom/rave/eeprom.c:1725-1780 | always OK; with intact firewalls it sends IdCheck's reads and counts one match statistic, the failed reads and the mismatches |
| Eeprom.EepromDriver.TryDeviceId | fw/AMC/src/device_drivers/eeprom/rave/eeprom.c:1746-1771 | one try either matches and ends the loop, or counts its failure or mismatch and continues |
| Eeprom.EepromDriver.InitialiseVersionFields | fw/AMC/src/device_drivers/eeprom/rave/eeprom.c:1609-1659 | version 1.0 sets every field's size and offset to the layout 1.0 values; any other version changes nothing |
| Eeprom.EepromDriver.Buffer | fw/AMC/src/device_drivers/eeprom/rave/eeprom.c:202-218 | a field's pointer is set iff the layout is set and the field has a buffer, and then points at its buffer |
| Eeprom.EepromDriver.StoreField | fw/AMC/src/device_drivers/eeprom/rave/eeprom.c:1572-1587 | writing through a pointer replaces that buffer only |
| Eeprom.FieldRequests | fw/AMC/src/device_drivers/eeprom/rave/eeprom.c:1570-1584 | a field read of size bytes is size one-byte reads at offset, offset + 1, … taken modulo 256 |
| Eeprom.FieldBytes | fw/AMC/src/device_drivers/eeprom/rave/eeprom.c:1570-1587 | a fully successful field read keeps the buffer's length, puts the NUL right after the field and leaves the bytes past it as they were; the field bytes are the bytes the bus returned, 0xFF as NUL outside MACs |
| Eeprom.FieldReadOk | fw/AMC/src/device_drivers/eeprom/rave/eeprom.c:1570-1587 | a field read that ends OK issued exactly FieldRequests and left exactly FieldBytes |
| Eeprom.FieldBytesTerminated | fw/AMC/src/device_drivers/eeprom/rave/eeprom.c:1570-1587 | the buffer FieldBytes leaves is a loaded field: NUL-terminated and, unless it is the MAC, without 0xFF bytes |
| Eeprom.BoardRequests | fw/AMC/src/device_drivers/eeprom/rave/eeprom.c:530-638 | the field reads of initialisation are 84 transfers |
| Eeprom.BoardReadLoaded | fw/AMC/src/device_drivers/eeprom/rave/eeprom.c:530-638 | a record holding the bytes of the field reads has every field loaded and a MAC count of at most 41 |
| Eeprom.LeadingReadComposed | fw/AMC/src/device_drivers/eeprom/rave/eeprom.c:530-612 | the product stage followed by the MAC stage reads each of their fields from the record they started with |
| Eeprom.BoardReadComposed | fw/AMC/src/device_drivers/eeprom/rave/eeprom.c:530-638 | adding the part stage gives the read of the whole record from the record the reads started with |
| Eeprom.EepromDriver.ReadFieldBytes | fw/AMC/src/device_drivers/eeprom/rave/eeprom.c:1559-1604 | the buffer copy exists iff the layout is set and the field has a buffer; on OK the trace grows by the field's reads and the copy is FieldBytes of what the bus returned |
| Eeprom.EepromDriver.ReadBoardField | fw/AMC/src/device_drivers/eeprom/rave/eeprom.c:530-638 | only that field's buffer changes; with no layout it fails; on OK the trace grows by the field's reads and the buffer holds exactly the bytes they returned |
| Eeprom.EepromDriver.ReadMacCount | fw/AMC/src/device_drivers/eeprom/rave/eeprom.c:552-575 | one read of the MAC-count byte; on success the count is MacCount of the byte read, on failure it is unchanged |
| Eeprom.EepromDriver.ReadVersion | fw/AMC/src/device_drivers/eeprom/rave/eeprom.c:478-520 | one read of offset 0; OK iff it succeeds and reads 1; the version becomes "1" NUL, a mismatch with the expected version is counted, and failures count the invalid-version or field-read errors |
| Eeprom.EepromDriver.CheckVersion | fw/AMC/src/device_drivers/eeprom/rave/eeprom.c:484-520 | OK iff the read succeeded and the byte is 1; then the byte becomes ASCII '1' and an unexpected version is counted, else the invalid-version or field-read error is counted |
| Eeprom.EepromDriver.ReadBoardFields | fw/AMC/src/device_drivers/eeprom/rave/eeprom.c:530-638 | the field reads in source order; on OK the trace grows by BoardRequests, every field holds exactly the bytes its reads returned, the MAC count is the one the record length read implies, every field is loaded and the count is at most 41 |
| Eeprom.EepromDriver.ReadLeadingFields | fw/AMC/src/device_drivers/eeprom/rave/eeprom.c:530-612 | the first two stages change only their five buffers and the count; on OK the trace grows by their reads and those fields hold the bytes returned |
| Eeprom.EepromDriver.ReadProductFields | fw/AMC/src/device_drivers/eeprom/rave/eeprom.c:530-550 | product name, revision and serial: only those buffers change; on OK the trace grows by their 40 reads and each holds the bytes its reads returned |
| Eeprom.EepromDriver.ReadMacFields | fw/AMC/src/device_drivers/eeprom/rave/eeprom.c:552-612 | MAC count, MAC and date: only those buffers and the count change; on OK the trace grows by their 10 reads, the count is MacCount of the byte read and the MAC and date hold the bytes returned |
| Eeprom.EepromDriver.ReadMacAndDate | fw/AMC/src/device_drivers/eeprom/rave/eeprom.c:577-591 | the MAC then the date: only those buffers change; on OK the trace grows by their reads and each holds the bytes returned |
| Eeprom.EepromDriver.ReadPartFields | fw/AMC/src/device_drivers/eeprom/rave/eeprom.c:614-639 | part number, UUID and manufacturing part number: only those buffers change; on OK the trace grows by their 34 reads and each holds the bytes its reads returned |
| Eeprom.EepromDriver.Initialise | fw/AMC/src/device_drivers/eeprom/rave/eeprom.c:457-672 | a failed guard changes nothing but the validation and initialisation errors; otherwise configuration and expected version are taken; initialised iff OK, and then the version is "1", the trace ends with the 84 field reads and every field holds exactly the bytes they returned; the outcome is counted as an initialisation statistic or error |
| Eeprom.EepromDriver.InitialiseStages | fw/AMC/src/device_drivers/eeprom/rave/eeprom.c:469-651 | the guarded body sets the configuration, sends the device-ID reads first, and succeeds only with the layout set, the version "1" and every field holding the bytes its reads returned |
| Eeprom.EepromDriver.LoadBoard | fw/AMC/src/device_drivers/eeprom/rave/eeprom.c:478-651 | the version read, the checksums and the fields; initialised iff OK, and then the trace ends with the field reads and every field holds the bytes they returned |
| Eeprom.EepromDriver.ReadCheckedFields | fw/AMC/src/device_drivers/eeprom/rave/eeprom.c:522-650 | the checksums then, when they pass, the fields; initialised iff every read succeeds, and then every field holds the bytes its reads returned from the record before the version was written |
| Gcq.RingLen | sw/AMI/driver/gcq-driver/src/gcq_ring.h:123-128 | without uint32 overflow the ring length is the 44-byte header plus numSlots SQ slots plus numSlots CQ slots |
| Gcq.RingLenWraps | sw/AMI/driver/gcq-driver/src/gcq_ring.h:123-128 | the uint32 arithmetic wraps: 2^31 slots of one byte each give a ring length of only the header |
| Gcq.SlotIndex | sw/AMI/driver/gcq-driver/src/gcq_ring.h:317-338 | the masked counter is below numSlots whenever there are slots, and never above the counter |
| Gcq.BitAndLowMask | sw/AMI/driver/gcq-driver/src/gcq_ring.h:317-338 | masking with 2^k - 1 is reduction modulo 2^k |
| Gcq.SlotIndexAcrossWrap | sw/AMI/driver/gcq-driver/src/gcq_ring.h:317-338 | with 2^k slots the slot of a wrapped 32-bit counter is the slot of the unbounded count it stands for |
| Gcq.ProducerSlotIsNotConsumerSlot | sw/AMI/driver/gcq-driver/src/gcq_ring.h:317-338 | while 1 to numSlots - 1 entries are outstanding, producer and consumer designate different slots |
| Gcq.SlotAddress | sw/AMI/driver/gcq-driver/src/gcq_ring.h:317-338 | when the slot area fits below 2^64, the slot pointer is slotAddr + slotSize * index and a whole slot lies inside the area |
| Gcq.LeBytesRoundTrip | sw/AMI/driver/gcq-driver/src/gcq_ring.h:142-183 | storing the word a little-endian host reads from four bytes gives the same four bytes back |
| Gcq.BufferWordsRoundTrip | sw/AMI/driver/gcq-driver/src/gcq_ring.h:142-183 | reading a buffer as words and storing them back gives its first 4 * n bytes |
| Gcq.LoadStored | sw/AMI/driver/gcq-driver/src/gcq_ring.h:142-183 | words written to consecutive addresses are read back unchanged |
| Gcq.RingCopyRoundTrip | sw/AMI/driver/gcq-driver/src/gcq_ring.h:142-183 | CopyToRing then CopyFromRing over the same range hand back the first 4 * (len / 4) bytes; the last len % 4 bytes are dropped |
| Gcq.IoAccess.Publish | sw/AMI/driver/gcq-driver/src/gcq_ring.h:224-282 | a counter goes to memory when the in-memory flag is set, else to the register; the other space is unchanged, and a fetch without the double read finds it |
| Gcq.IoAccess.CopyToRing | sw/AMI/driver/gcq-driver/src/gcq_ring.h:142-156 | memory afterwards is the old memory with the buffer's len / 4 little-endian words stored from dest |
| Gcq.IoAccess.CopyFromRing | sw/AMI/driver/gcq-driver/src/gcq_ring.h:170-183 | the buffer's first 4 * (len / 4) bytes are the words loaded from src, and the rest of the buffer is unchanged |
| Gcq.Ring.IsFull | sw/AMI/driver/gcq-driver/src/gcq_ring.h:291-295 | an empty ring is full only when it has no slots |
| Gcq.Ring.Init | sw/AMI/driver/gcq-driver/src/gcq_ring.h:88-112 | addresses and geometry equal the arguments, both counters are 0, the ring is empty and, with slots, not full |
| Gcq.Ring.ReadProduced | sw/AMI/driver/gcq-driver/src/gcq_ring.h:196-211 | only the producer counter changes, to the value fetched from its address under the flags |
| Gcq.Ring.WriteProduced | sw/AMI/driver/gcq-driver/src/gcq_ring.h:224-234 | the producer counter goes to memory or to the register by the in-memory flag, nothing else changes |
| Gcq.Ring.ReadConsumed | sw/AMI/driver/gcq-driver/src/gcq_ring.h:246-262 | only the consumer counter changes, to the value fetched from its address under the flags |
| Gcq.Ring.WriteConsumed | sw/AMI/driver/gcq-driver/src/gcq_ring.h:275-282 | the consumer counter goes to memory or to the register by the in-memory flag, nothing else changes |
| Gcq.FullUnderWraparound | sw/AMI/driver/gcq-driver/src/gcq_ring.h:291-295 | with fewer than 2^32 outstanding, IsFull holds iff the unbounded outstanding count reaches numSlots, across counter wrap-around |
| Gcq.EmptyUnderWraparound | sw/AMI/driver/gcq-driver/src/gcq_ring.h:304-308 | with fewer than 2^32 outstanding, IsEmpty holds iff nothing is outstanding |
| AmiProgram.U8 | sw/AMI/driver/ami_program.h:28-38 | the uint8_t cast keeps the value modulo 256 |
| AmiProgram.MkPartitionFlags | sw/AMI/driver/ami_program.h:28-38 | DEVICE_SRC, PARTITION_SRC, DEVICE_DEST and PARTITION_DEST of the packed word return the four arguments modulo 256 |
| AmiProgram.PartitionFlagsRebuild | sw/AMI/driver/ami_program.h:28-38 | every word is the packing of its own four fields |
| AmiProgram.MkPdiFlags | sw/AMI/driver/ami_program.h:56-63 | PDI_BOOT_DEVICE and PDI_PARTITION return boot and part modulo 256, PDI_CHUNK returns chunk modulo 2^15, PDI_CHUNK_IS_LAST is 1 iff last, and bit 15 is set iff last |
| AmiProgram.PdiChunkIsLast | sw/AMI/driver/ami_program.h:63 | the extracted bit is 0 or 1 |
| AmiProgram.PdiFlagsRebuild | sw/AMI/driver/ami_program.h:56-63 | every word is the packing of its own fields |
| AmiProgram.ProgramConstants | sw/AMI/driver/ami_program.h:17-45 | the FPT and PDI markers lie above MAX_PARTITION, the two magic words repeat 0xAA and 0xBB in all four bytes, and the chunk size is a multiple of 1024 |
| AppUtils.SkipSpace | sw/AMI/app/apputils.c:354 | the text strtoul starts from is a suffix of the line that does not start with white space |
| AppUtils.DigitRun | sw/AMI/app/apputils.c:354 | strtoul's digit run: every character in it is a digit of the base and the next one is not |
| AppUtils.BaseAndDigits | sw/AMI/app/apputils.c:354 | base 0 picks 8, 10 or 16 from the prefix |
| AppUtils.Strtoul | sw/AMI/app/apputils.c:354 | the result is an unsigned long |
| AppUtils.StrtoulUnsigned | sw/AMI/app/apputils.c:354 | without leading space or sign, strtoul gives the value of the digit run after the base prefix when it fits |
| AppUtils.StrtoulHexLine | sw/AMI/app/apputils.c:354 | "0x", hex digits and CR LF read as the digits' value |
| AppUtils.DigitRunBeforeEol | sw/AMI/app/apputils.c:354 | a run of hex digits ends at the CR LF that follows it |
| AppUtils.HexDigitsValue | sw/AMI/app/apputils.c:354 | in base 16 the digit value is the hexadecimal value of the text |
| AppUtils.SizeLimit | sw/AMI/app/apputils.c:362-403 | the bound of a uint8, uint16 or uint32 value is 16 to the power of twice its size, at most 2^32 |
| AppUtils.HexText | sw/AMI/app/apputils.c:436-457 | write_hex_data leaves one line per value |
| AppUtils.HexLineShape | sw/AMI/app/apputils.c:440-450 | each line is "0x", exactly 2, 4 or 8 hex digits, then CR LF |
| AppUtils.HexLineParses | sw/AMI/app/apputils.c:354 | strtoul reads a written line back as the value written |
| AppUtils.ParsedValues | sw/AMI/app/apputils.c:354-403 | one value per line, each below the bound of the value size |
| AppUtils.HexDataRoundTrip | sw/AMI/app/apputils.c:354-449 | read_hex_data after write_hex_data with the same supported size returns exactly the values written |
| AppUtils.WriteHexData | sw/AMI/app/apputils.c:425-465 | success iff the file opened and either there is nothing to write or the size is supported; then the lines are HexText, and on failure nothing is written |
| AppUtils.CapacityBounds | sw/AMI/app/apputils.c:327-354 | the capacity is a whole number of 100-entry steps, at least one, holds every staged line, and never has a whole step to spare |
| AppUtils.CapacityStep | sw/AMI/app/apputils.c:342-351 | a line that arrives at a full buffer grows it by 100 entries, otherwise the capacity stays |
| AppUtils.Staged | sw/AMI/app/apputils.c:354 | the staged value is a uint32 |
| AppUtils.StagedValues | sw/AMI/app/apputils.c:341-355 | one staged value per line |
| AppUtils.Grow | sw/AMI/app/apputils.c:342-351 | the reallocated buffer is one step longer and keeps the staged entries |
| AppUtils.StageLines | sw/AMI/app/apputils.c:341-355 | after the loop the buffer has capacity Capacity(lines), holds every line, and its first entries are the staged values |
| AppUtils.CastStaged | sw/AMI/app/apputils.c:360-403 | each output value is its staged value cast to the value size |
| AppUtils.ReadHexData | sw/AMI/app/apputils.c:318-420 | success iff the file opened and the size is supported; the values are then ParsedValues of the lines, on failure none, and the buffer capacity is Capacity of the line count |
| AppUtils.PromptLimit | sw/AMI/app/apputils.c:529-545 | the do-while prompts at least once, and attempts times when attempts is positive |
| AppUtils.Prompting | sw/AMI/app/apputils.c:529-547 | the loop from some point reads at most one response per remaining input |
| AppUtils.Confirm | sw/AMI/app/apputils.c:523-548 | confirm_action reads no more responses than the input holds |
| AppUtils.ConfirmAction | sw/AMI/app/apputils.c:523-548 | the do-while loop returns what Confirm specifies |
| AppUtils.PromptingConfirms | sw/AMI/app/apputils.c:529-547 | from any point where the response is not yes or 'n', the loop confirms iff a yes comes in time |
| AppUtils.ShiftYesAt | sw/AMI/app/apputils.c:529-545 | a response that is read and is neither yes nor 'n' moves the question one prompt on |
| AppUtils.ConfirmIff | sw/AMI/app/apputils.c:523-548 | confirm_action returns true iff, within max(attempts, 1) prompts, yes is typed before any timeout and before any 'n' |
| AppUtils.PromptingReads | sw/AMI/app/apputils.c:529-545 | the loop never reads more than the allowed number of responses |
| AppUtils.ConfirmReadsBound | sw/AMI/app/apputils.c:529-545 | confirm_action reads at most max(attempts, 1) responses |
| AppUtils.ReadAt | sw/AMI/app/apputils.c:169-234 | fread fills the buffer from the file at the position while the file lasts |
| AppUtils.ReadCount | sw/AMI/app/apputils.c:169-234 | fread returns n iff the file holds n more bytes from the position |
| AppUtils.Word | sw/AMI/app/apputils.c:170-250 | a header field is a uint32 |
| AppUtils.PdiFile.constructor | sw/AMI/app/apputils.c:158 | a freshly opened file is at position 0 |
| AppUtils.PdiFile.Seek | sw/AMI/app/apputils.c:189 | fseek moves the position to the offset |
| AppUtils.PdiFile.Read | sw/AMI/app/apputils.c:169-234 | fread returns ReadAt and ReadCount and moves the position by the count |
| AppUtils.TableOffset | sw/AMI/app/apputils.c:170-186 | the image header table offset is a uint32 |
| AppUtils.HeaderOffset | sw/AMI/app/apputils.c:230 | the image header offset is a multiple of 4 that fits in a uint32 |
| AppUtils.UuidText | sw/AMI/app/apputils.c:249-250 | the UUID text is AMI_LOGIC_UUID_SIZE - 1 characters |
| AppUtils.ParentUuid | sw/AMI/app/apputils.c:148-267 | a UUID it finds has AMI_LOGIC_UUID_SIZE - 1 characters |
| AppUtils.FindParentUuid | sw/AMI/app/apputils.c:148-267 | a file that does not open fails; otherwise success iff ParentUuid finds a UUID, which is then the result, and a failure leaves the UUID empty |
| AppUtils.ParentUuidFound | sw/AMI/app/apputils.c:170-250 | a UUID is found iff the table at TableOffset has a known version, was read whole and counts 1 to 0xFE partitions, metaHdrKeySource is 0 and the image header lies in the file; it is the header's parentUniqueId as hex |
| AppUtils.UuidTextValue | sw/AMI/app/apputils.c:249-250 | with room for eight digits the UUID text is hex digits whose value is parentUniqueId |
| AppUtils.ParentUuidIgnoresJunk | sw/AMI/app/apputils.c:166-234 | once the file holds a whole boot header, what the allocations held does not change the outcome |
| AppUtils.KeySourceFile | sw/AMI/app/apputils.c:189-226 | the counterexample file is one image header table long |
| AppUtils.KeySourceDereferencesNull | sw/AMI/app/apputils.c:228-250 | on a table with metaHdrKeySource 1 the code as written dereferences NULL, where the corrected one rejects the file |

## Left out

- Running external commands (`lsb_release`, `make`, `getVersion.sh`, `dpkg-deb`) is not modelled. The model takes their return codes and log lines as inputs.
- `os.makedirs`, `chmod`, the `shutil` copies and `tarfile` packing are modelled only as a set of files and directories. That set gains or loses paths, and file contents are not modelled. Of the exceptions `os.makedirs` and `shutil.copy` raise, only those decided by which paths exist are modelled; permission and disk errors are not, and two different path strings never name the same file.
- `abspath` normalisation of paths is not modelled. Paths are kept as the scripts join them.
- Logging, timing (`start_step`, `end_step`, `get_date_long`) and the clock are not modelled. Today's date and the build date are parameters.
- getopt's own parsing is not modelled. The options arrive as the `(option, argument)` pairs getopt returns, plus the remainder.
- `json_load` and `copy_source_dir` are not modelled: the packaging steps modelled here do not use them.
- The directory walk is an input: a sequence of (directory, file names) pairs in walk order.
- Version headers are given as text. `sw/AMI/driver/gcq-driver/src/gcq_version.h` is the concrete text the lemma VersionExtract.GcqVersionHeaderPackage is proved on.
- VersionExtract.DigitRun: `\d` accepts only the ASCII digits '0'..'9', where Python 3's `\d` on a `str` pattern also matches other Unicode decimal digits; the generated version headers are ASCII.
- The I2C bus (`iI2C_Send`, `iI2C_SendRecv`) is an oracle. It answers each transfer, by its position in the driver's trace, with a status and the bytes received.
- `iOSAL_Task_SleepMs`, the PLL and debug logging, `iEEPROM_PrintStatistics`, `iEEPROM_DisplayEepromValues`, the verbose dump and the `#if 0` date block are not modelled. They only print or wait.
- The EEPROM statistics counters are unbounded: the uint32 wrap-around of the C counters is not modelled.
- `EEPROM_MAX_DATA_SIZE` is not shown in the source, so it is a parameter of the driver. Field sizes come from the layout table of version 1.0.
- Eeprom.EepromDriver.WriteRawValue: a page size of 0 is excluded by its requires for multi-byte writes that pass the guard, because the source then computes `ucOffset % ucEepromPageSize` (`eeprom.c:1158`), a division by zero with undefined behaviour in C; the caller's buffer must also hold `size` bytes, which C cannot check.
- The firewall words of the driver record are constants of the driver object. Corruption of them by other code is not modelled.
- The GCQ double read (`ulGCQFeaturesHandleDoubleRead32`) is an oracle function of the address.
- Gcq.Ring.Init: the `pxGCQInstance` field is not modelled. `gcq_ring.h:99` stores the address of the parameter itself, which dangles once the function returns, and no accessor in the header reads the field.
- GCQ memory and registers are maps, and an address that was never written reads as 0.
- Word packing in `apputils.c` and in the GCQ copies assumes a little-endian host.
- The left shifts of the `MK_*` macros in `ami_program.h` are `bv32` shifts. The C undefined behaviour of shifting a signed `int` into bit 31 is not modelled.
- `parse_logic_uuid`, `read_file`, `find_logic_uuid`, `warn_compat_mode` and `parse_output_options` in `apputils.c` are not modelled: they are option plumbing over `find_app_option`, `access`, `fopen` and an external JSON library, which are not part of this model.
- `fopen` success is a boolean input.
- The bytes a fresh `malloc` holds before `fread` fills it are an input (`junk`).
- `fseek` on a regular file accepts every non-negative offset.
- `poll` and `getchar` in `confirm_action` become a sequence of responses. A key, a key-less read and a timeout are distinguished. Input that has run out reads as a timeout.
- Null-pointer arguments and allocation failure in `read_hex_data` and `write_hex_data` are not modelled. Neither is overflow of `n_lines_done`.
- `AMI_LOGIC_UUID_SIZE` is a parameter of the UUID functions.
- The other files of the repository (the OSAL, the profiles, `ami_vsec.c`, the command handlers and the declaration-only headers) are not part of this model.

## Findings

| source | as written | input that shows it | evidently intended | confidence | as-written member | corrected member |
|---|---|---|---|---|---|---|
| sw/AMI/scripts/pkg_data/pkg.py:162-163 | `check_log_error` compares the 8-character tag `ERROR: [` with `line[0:7]`, which has at most 7 characters, so no line is ever flagged and `exec_step_cmd` lets a step with an error in its log pass on return code 0 | a step returning 0 whose log has the line `ERROR: [Synth 8-439] module not found` | a step fails when a line of its log starts with `ERROR: [` | not executed | PkgRules.StepWithErrorLogPasses | PkgRules.ExecStepCmd |
| fw/AMC/src/device_drivers/eeprom/rave/eeprom.c:1154-1201 | the raw write keeps its offset in a `uint8_t`, and no guard stops `addr + size` from passing 256, so the offset wraps to 0 and the data index `offset - addr` goes negative | address 0xFF, size 2, 32-byte pages | reject a write that runs past the 256-byte offset space | not executed | Eeprom.RawWriteOffsetWraps | Eeprom.EepromDriver.WriteRawValue |
| fw/AMC/src/device_drivers/eeprom/rave/eeprom.c:1697-1716 | the board-info end `byte[9] * 8 + 8` is a `uint8_t`: a length of 31 wraps it to 0, so the board checksum is skipped; a length from 13 to 30 runs the sum past the 104 bytes read | board length byte 31, and board length byte 13 | compute the end in full width and reject an end past the bytes read | not executed | Eeprom.BoardEndWraps | Eeprom.EepromDriver.VerifyChecksum |
| fw/AMC/src/device_drivers/eeprom/rave/eeprom.c:554-561 | the MAC-count buffer holds one byte, but the field read stores its NUL terminator at index 1 | any initialisation that reads the one-byte MAC-count field | a buffer one byte longer than the field | not executed | Eeprom.MacCountTerminatorOverruns | Eeprom.MacCountTerminatorFits |
| sw/AMI/app/apputils.c:228-250 | when the table's `metaHdrKeySource` is not 0, `img_hdr` stays NULL and is then dereferenced | an image header table with `metaHdrKeySource` 1 | fail without reading through the missing image header | not executed | AppUtils.KeySourceDereferencesNull | AppUtils.FindParentUuid |
