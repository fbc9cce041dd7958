// How both packaging scripts derive the package version and release from
// the generated version header: three multi-line regular expressions whose
// first match is taken, with defaults when nothing matches.
//
// A regular expression of the form  KEY.*?OPEN<rest>$  (re.M, '.' never
// crossing a newline) can only match inside one line.  findall's first
// match is therefore found in the first line that has one, at the leftmost
// position where KEY starts, with the lazy '.*?' settling on the first
// opening delimiter for which the rest of the pattern matches up to the end
// of the line.  The three patterns differ only in KEY and in that rest,
// which is given here as a "tail" function.
module VersionExtract {
  import opened Wrappers
  import opened Text

  predicate IsDigit(c: char) { '0' <= c <= '9' }

  predicate AllDigits(s: string) {
    forall k :: 0 <= k < |s| ==> IsDigit(s[k])
  }

  /** The length of the run of digits that starts s (what a greedy \d* takes). */
  function DigitRun(s: string): (n: nat)
    ensures n <= |s|
    ensures AllDigits(s[..n])
    ensures n < |s| ==> !IsDigit(s[n])
  {
    if |s| == 0 || !IsDigit(s[0]) then 0
    else
      var n := 1 + DigitRun(s[1..]);
      assert s[..n] == [s[0]] + s[1..][..n - 1];
      n
  }

  /** The capture of the rest of a pattern whose opening delimiter sits at index j. */
  type Tail = (string, nat) -> Option<string>

  /** The lazy '.*?': the first opening position at or after j for which the tail matches. */
  function LazyFrom(line: string, j: nat, tail: Tail): Option<string>
    decreases |line| - j
  {
    if j >= |line| then None
    else if tail(line, j).Some? then tail(line, j)
    else LazyFrom(line, j + 1, tail)
  }

  /** The first match in line whose KEY starts at or after i. */
  function LeftmostFrom(line: string, i: nat, key: string, tail: Tail): Option<string>
    decreases |line| - i
  {
    if i + |key| > |line| then None
    else if OccursAt(line, key, i) && LazyFrom(line, i + |key|, tail).Some? then LazyFrom(line, i + |key|, tail)
    else LeftmostFrom(line, i + 1, key, tail)
  }

  /** findall(...)[0] over the lines of the text, or none when the list is empty. */
  function FirstMatch(lines: seq<string>, key: string, tail: Tail): Option<string>
  {
    if |lines| == 0 then None
    else if LeftmostFrom(lines[0], 0, key, tail).Some? then LeftmostFrom(lines[0], 0, key, tail)
    else FirstMatch(lines[1..], key, tail)
  }

  /** The length of a prefix <digits>. (what \d+\. takes), if s has one. */
  function DotRun(s: string): Option<nat>
  {
    var a := DigitRun(s);
    if a == 0 || a >= |s| || s[a] != '.' then None else Some(a + 1)
  }

  /** The length of a prefix <digits>.<digits>.<digits> with maximal digit
      runs (what \d+\.\d+\.\d+ takes), if s has one. */
  function TripleLength(s: string): Option<nat>
  {
    match DotRun(s)
    case None => None
    case Some(x) =>
      match DotRun(s[x..])
      case None => None
      case Some(y) =>
        var c := DigitRun(s[x + y..]);
        if c == 0 then None else Some(x + y + c)
  }

  /** The rest of GIT_TAG.*?\"(\d+\.\d+\.\d+).*\"$ from the quote at index j:
      three maximal digit runs separated by dots, then anything, then a quote
      that ends the line. */
  function TagTail(line: string, j: nat): Option<string>
  {
    if j >= |line| || line[j] != '"' then None
    else
      match TripleLength(line[j + 1..])
      case None => None
      case Some(n) =>
        if j + 1 + n >= |line| || line[|line| - 1] != '"' then None
        else Some(line[j + 1..j + 1 + n])
  }

  /** The rest of GIT_TAG_VER_DEV_COMMITS.*?\((\d+)\)$ from the parenthesis at
      index j: digits, then a closing parenthesis that ends the line. */
  function CommitsTail(line: string, j: nat): Option<string>
  {
    if j >= |line| || line[j] != '(' then None
    else
      var d := DigitRun(line[j + 1..]);
      if d == 0 || j + 1 + d != |line| - 1 || line[|line| - 1] != ')' then None
      else Some(line[j + 1..j + 1 + d])
  }

  /** The rest of GIT_HASH.*?\"(.*?)\"$ from the quote at index j: whatever
      lies between it and a quote that ends the line. */
  function HashTail(line: string, j: nat): Option<string>
  {
    if j >= |line| || line[j] != '"' || j + 1 > |line| - 1 || line[|line| - 1] != '"' then None
    else Some(line[j + 1..|line| - 1])
  }

  const TagKey := "GIT_TAG"
  const CommitsKey := "GIT_TAG_VER_DEV_COMMITS"
  const HashKey := "GIT_HASH"

  /** v is <digits>.<digits>.<digits> with its dots at indices a and b. */
  predicate TripleAt(v: string, a: int, b: int) {
    0 < a && a + 1 < b && b + 1 < |v| && v[a] == '.' && v[b] == '.'
    && AllDigits(v[..a]) && AllDigits(v[a + 1..b]) && AllDigits(v[b + 1..])
  }

  /** A version string of the form <digits>.<digits>.<digits>. */
  ghost predicate IsVersionTriple(v: string) {
    exists a, b :: TripleAt(v, a, b)
  }

  /** The package version: the first GIT_TAG triple, or 0.0.0. */
  function Version(header: string): string
  {
    match FirstMatch(Split(header, "\n"), TagKey, TagTail)
    case Some(v) => v
    case None => "0.0.0"
  }

  /** The package release: <dev commits>.<first 8 characters of the hash>.<pkg release>,
      with 0 and the empty string standing in for what the header lacks. */
  function Release(header: string, pkgRelease: string): string
  {
    var lines := Split(header, "\n");
    var commits := match FirstMatch(lines, CommitsKey, CommitsTail) case Some(c) => c case None => "0";
    var hash := match FirstMatch(lines, HashKey, HashTail) case Some(h) => h case None => "";
    commits + "." + hash[..if |hash| < 8 then |hash| else 8] + "." + pkgRelease
  }

  // ---------------------------------------------------------------------
  // What a match of each pattern looks like

  /** Whatever property every capture of the tail has, the first match has too. */
  lemma {:induction false} FirstMatchKeeps(lines: seq<string>, key: string, tail: Tail, p: string -> bool)
    requires forall line, j :: tail(line, j).Some? ==> p(tail(line, j).value)
    ensures FirstMatch(lines, key, tail).Some? ==> p(FirstMatch(lines, key, tail).value)
  {
    if |lines| > 0 {
      LeftmostFromKeeps(lines[0], 0, key, tail, p);
      FirstMatchKeeps(lines[1..], key, tail, p);
    }
  }

  lemma {:induction false} LeftmostFromKeeps(line: string, i: nat, key: string, tail: Tail, p: string -> bool)
    requires forall line, j :: tail(line, j).Some? ==> p(tail(line, j).value)
    ensures LeftmostFrom(line, i, key, tail).Some? ==> p(LeftmostFrom(line, i, key, tail).value)
    decreases |line| - i
  {
    if i + |key| <= |line| {
      LazyFromKeeps(line, i + |key|, tail, p);
      LeftmostFromKeeps(line, i + 1, key, tail, p);
    }
  }

  lemma {:induction false} LazyFromKeeps(line: string, j: nat, tail: Tail, p: string -> bool)
    requires forall line, j :: tail(line, j).Some? ==> p(tail(line, j).value)
    ensures LazyFrom(line, j, tail).Some? ==> p(LazyFrom(line, j, tail).value)
    decreases |line| - j
  {
    if j < |line| {
      LazyFromKeeps(line, j + 1, tail, p);
    }
  }

  lemma TripleLengthIsTriple(s: string)
    requires TripleLength(s).Some?
    ensures TripleLength(s).value <= |s| && IsVersionTriple(s[..TripleLength(s).value])
  {
    var x := DotRun(s).value;
    var y := DotRun(s[x..]).value;
    var c := DigitRun(s[x + y..]);
    var v := s[..x + y + c];
    assert v[..x - 1] == s[..x - 1];
    assert v[x..x + y - 1] == s[x..][..y - 1];
    assert v[x + y..] == s[x + y..][..c];
    assert TripleAt(v, x - 1, x + y - 1);
  }

  lemma TagCaptureIsTriple(line: string, j: nat)
    requires TagTail(line, j).Some?
    ensures IsVersionTriple(TagTail(line, j).value)
  {
    var t := line[j + 1..];
    TripleLengthIsTriple(t);
    assert TagTail(line, j).value == t[..TripleLength(t).value];
  }

  lemma TagCapturesAreTriples()
    ensures forall line, j :: TagTail(line, j).Some? ==> IsVersionTriple(TagTail(line, j).value)
  {
    forall line, j | TagTail(line, j).Some?
      ensures IsVersionTriple(TagTail(line, j).value)
    {
      TagCaptureIsTriple(line, j);
    }
  }

  lemma CommitsCapturesAreDigits()
    ensures forall line, j :: CommitsTail(line, j).Some? ==> |CommitsTail(line, j).value| > 0 && AllDigits(CommitsTail(line, j).value)
  {
    forall line, j | CommitsTail(line, j).Some?
      ensures |CommitsTail(line, j).value| > 0 && AllDigits(CommitsTail(line, j).value)
    {
      var d := DigitRun(line[j + 1..]);
      assert CommitsTail(line, j).value == line[j + 1..][..d];
    }
  }

  /** The version is always a dotted triple of digit runs, whether read from
      the header or defaulted. */
  lemma VersionIsTriple(header: string)
    ensures IsVersionTriple(Version(header))
  {
    TagCapturesAreTriples();
    FirstMatchKeeps(Split(header, "\n"), TagKey, TagTail, IsVersionTriple);
    var d := "0.0.0";
    assert d[..1] == "0" && d[2..3] == "0" && d[4..] == "0";
    assert TripleAt(d, 1, 3);
  }

  /** The release is <digits>.<at most 8 characters of the hash>.<pkg release>. */
  lemma ReleaseShape(header: string, pkgRelease: string)
    ensures exists commits, hash8 ::
      Release(header, pkgRelease) == commits + "." + hash8 + "." + pkgRelease
      && |commits| > 0 && AllDigits(commits) && |hash8| <= 8
  {
    CommitsCapturesAreDigits();
    FirstMatchKeeps(Split(header, "\n"), CommitsKey, CommitsTail, (c: string) => |c| > 0 && AllDigits(c));
    var lines := Split(header, "\n");
    var commits := match FirstMatch(lines, CommitsKey, CommitsTail) case Some(c) => c case None => "0";
    var hash := match FirstMatch(lines, HashKey, HashTail) case Some(h) => h case None => "";
    var hash8 := hash[..if |hash| < 8 then |hash| else 8];
    assert |commits| > 0 && AllDigits(commits);
    assert Release(header, pkgRelease) == commits + "." + hash8 + "." + pkgRelease;
  }

  /** A header without any of the three keys yields 0.0.0 and 0..<pkg release>. */
  lemma {:induction false} NoKeysGiveDefaults(lines: seq<string>, key: string, tail: Tail)
    requires |key| > 0
    requires forall k :: 0 <= k < |lines| ==> !Contains(lines[k], key)
    ensures FirstMatch(lines, key, tail) == None
  {
    if |lines| > 0 {
      LeftmostWithoutKey(lines[0], 0, key, tail);
      NoKeysGiveDefaults(lines[1..], key, tail);
    }
  }

  lemma {:induction false} LeftmostWithoutKey(line: string, i: nat, key: string, tail: Tail)
    requires !Contains(line, key)
    ensures LeftmostFrom(line, i, key, tail) == None
    decreases |line| - i
  {
    if i + |key| <= |line| {
      assert !OccursAt(line, key, i);
      LeftmostWithoutKey(line, i + 1, key, tail);
    }
  }

  lemma EmptyHeaderDefaults(pkgRelease: string)
    ensures Version("") == "0.0.0"
    ensures Release("", pkgRelease) == "0.." + pkgRelease
  {
    assert Split("", "\n") == [""];
    NoKeysGiveDefaults([""], TagKey, TagTail);
    NoKeysGiveDefaults([""], CommitsKey, CommitsTail);
    NoKeysGiveDefaults([""], HashKey, HashTail);
  }

  // ---------------------------------------------------------------------
  // Where a match is found

  lemma {:induction false} LeftmostSkips(line: string, i: nat, k: nat, key: string, tail: Tail)
    requires i <= k && k + |key| <= |line|
    requires forall x :: i <= x < k ==> !OccursAt(line, key, x)
    ensures LeftmostFrom(line, i, key, tail) == LeftmostFrom(line, k, key, tail)
    decreases k - i
  {
    if i < k {
      LeftmostSkips(line, i + 1, k, key, tail);
    }
  }

  lemma {:induction false} LazySkips(line: string, j: nat, q: nat, tail: Tail)
    requires j <= q < |line|
    requires forall x :: j <= x < q ==> tail(line, x).None?
    ensures LazyFrom(line, j, tail) == LazyFrom(line, q, tail)
    decreases q - j
  {
    if j < q {
      LazySkips(line, j + 1, q, tail);
    }
  }

  /** When the key's first character does not occur in pre, the leftmost
      occurrence of the key in pre + key + rest is right after pre. */
  lemma KeyFirstAfter(pre: string, key: string, rest: string)
    requires |key| > 0 && key[0] !in pre
    ensures forall x :: 0 <= x < |pre| ==> !OccursAt(pre + key + rest, key, x)
    ensures OccursAt(pre + key + rest, key, |pre|)
  {
    var line := pre + key + rest;
    forall x | 0 <= x < |pre|
      ensures !OccursAt(line, key, x)
    {
      assert line[x] == pre[x] && pre[x] != key[0];
      assert x + |key| <= |line| ==> line[x..x + |key|][0] == line[x];
    }
    assert line[|pre|..|pre| + |key|] == key;
  }

  /** A line lacking one of the key's characters has no match. */
  lemma LineWithoutKeyChar(line: string, key: string, m: nat, tail: Tail)
    requires m < |key| && key[m] !in line
    ensures LeftmostFrom(line, 0, key, tail).None?
  {
    forall x
      ensures !OccursAt(line, key, x)
    {
      if 0 <= x <= |line| - |key| {
        assert line[x..x + |key|][m] == line[x + m];
      }
    }
    LeftmostWithoutKey(line, 0, key, tail);
  }

  lemma {:induction false} DigitRunExact(s: string, n: nat)
    requires n <= |s| && AllDigits(s[..n]) && (n < |s| ==> !IsDigit(s[n]))
    ensures DigitRun(s) == n
    decreases n
  {
    if n > 0 {
      assert IsDigit(s[..n][0]);
      assert s[1..][..n - 1] == s[..n][1..];
      DigitRunExact(s[1..], n - 1);
    } else if |s| > 0 {
      assert !IsDigit(s[0]);
    }
  }

  lemma LazyFromHit(line: string, q: nat, tail: Tail)
    requires q < |line| && tail(line, q).Some?
    ensures LazyFrom(line, q, tail) == tail(line, q)
  {
  }

  lemma LeftmostFromHit(line: string, i: nat, key: string, tail: Tail)
    requires i + |key| <= |line| && OccursAt(line, key, i) && LazyFrom(line, i + |key|, tail).Some?
    ensures LeftmostFrom(line, i, key, tail) == LazyFrom(line, i + |key|, tail)
  {
  }

  /** A match is the tail's capture at q when the key first occurs at i and
      the tail fails everywhere between the key and q. */
  lemma FoundAt(line: string, i: nat, key: string, q: nat, tail: Tail)
    requires i + |key| <= q < |line|
    requires forall x :: 0 <= x < i ==> !OccursAt(line, key, x)
    requires OccursAt(line, key, i)
    requires forall x :: i + |key| <= x < q ==> tail(line, x).None?
    requires tail(line, q).Some?
    ensures LeftmostFrom(line, 0, key, tail) == tail(line, q)
  {
    LeftmostSkips(line, 0, i, key, tail);
    LazySkips(line, i + |key|, q, tail);
    LazyFromHit(line, q, tail);
    LeftmostFromHit(line, i, key, tail);
  }

  lemma DotRunExact(s: string, n: nat)
    requires 0 < n < |s| && AllDigits(s[..n]) && s[n] == '.'
    ensures DotRun(s) == Some(n + 1)
  {
    DigitRunExact(s, n);
  }

  /** Digits up to a dot are what DotRun takes, whatever follows. */
  lemma DotRunPrefix(u: string, a: nat, t: string)
    requires 0 < a < |u| && AllDigits(u[..a]) && u[a] == '.'
    ensures DotRun(u + t) == Some(a + 1)
  {
    var s := u + t;
    assert s[..a] == u[..a];
    DotRunExact(s, a);
  }

  /** A digit run before a quote is read whole. */
  lemma DigitRunBeforeQuote(w: string)
    requires AllDigits(w)
    ensures DigitRun(w + "\"") == |w|
  {
    var s := w + "\"";
    assert s[..|w|] == w;
    DigitRunExact(s, |w|);
  }

  /** A triple with its dots at a and b, followed by a quote, is read whole. */
  lemma TripleLengthAt(v: string, a: int, b: int)
    requires TripleAt(v, a, b)
    ensures TripleLength(v + "\"") == Some(|v|)
  {
    var s := v + "\"";
    var x, y := a + 1, b - a;
    assert DotRun(s) == Some(x) by {
      DotRunPrefix(v, a, "\"");
    }
    assert DotRun(s[x..]) == Some(y) by {
      var v2 := v[a + 1..];
      assert s[a + 1..] == v2 + "\"";
      assert v2[..b - a - 1] == v[a + 1..b];
      DotRunPrefix(v2, b - a - 1, "\"");
    }
    assert DigitRun(s[x + y..]) == |v| - x - y by {
      var v3 := v[b + 1..];
      assert x + y == b + 1;
      assert s[x + y..] == v3 + "\"";
      DigitRunBeforeQuote(v3);
    }
    TripleLengthFrom(s, x, y, |v| - x - y);
  }

  /** TripleLength from its three runs. */
  lemma TripleLengthFrom(s: string, x: nat, y: nat, c: nat)
    requires x <= |s| && DotRun(s) == Some(x)
    requires x + y <= |s| && DotRun(s[x..]) == Some(y)
    requires c > 0 && DigitRun(s[x + y..]) == c
    ensures TripleLength(s) == Some(x + y + c)
  {
  }

  /** A triple followed by a quote is read whole. */
  lemma TripleLengthOf(v: string)
    requires IsVersionTriple(v)
    ensures TripleLength(v + "\"") == Some(|v|)
  {
    var a, b :| TripleAt(v, a, b);
    TripleLengthAt(v, a, b);
  }

  lemma TagTailOfTriple(line: string, q: nat, v: string)
    requires q < |line| && line[q] == '"' && line[q + 1..] == v + "\"" && IsVersionTriple(v)
    ensures TagTail(line, q) == Some(v)
  {
    var n := |v|;
    assert TripleLength(line[q + 1..]) == Some(n) by {
      TripleLengthOf(v);
    }
    assert q + 1 + n < |line| && line[|line| - 1] == '"' && line[q + 1..q + 1 + n] == v by {
      assert line[q + 1..][n] == '"';
      assert line[q + 1..][..n] == v;
    }
    TagTailFrom(line, q, n);
  }

  /** TagTail from the length of the triple after the quote. */
  lemma TagTailFrom(line: string, j: nat, n: nat)
    requires j < |line| && line[j] == '"' && TripleLength(line[j + 1..]) == Some(n)
    requires j + 1 + n < |line| && line[|line| - 1] == '"'
    ensures TagTail(line, j) == Some(line[j + 1..j + 1 + n])
  {
  }

  /** In pre + key + pad + rest, with the key's first character absent from
      pre and the tail's opening character absent from pad, the match is the
      tail's capture at the first character of rest. */
  lemma DefineLine(pre: string, key: string, pad: string, rest: string, open: char, tail: Tail)
    requires |key| > 0 && key[0] !in pre && open !in pad && |rest| > 0
    requires forall x :: |pre| + |key| <= x < |pre| + |key| + |pad| ==> tail(pre + key + pad + rest, x).None?
    requires tail(pre + key + pad + rest, |pre| + |key| + |pad|).Some?
    ensures LeftmostFrom(pre + key + pad + rest, 0, key, tail) == tail(pre + key + pad + rest, |pre| + |key| + |pad|)
  {
    var line := pre + key + pad + rest;
    var q := |pre| + |key| + |pad|;
    assert line == pre + key + (pad + rest);
    KeyFirstAfter(pre, key, pad + rest);
    FoundAt(line, |pre|, key, q, tail);
  }

  lemma CommitsTailOfDigits(line: string, q: nat, d: string)
    requires q < |line| && line[q] == '(' && line[q + 1..] == d + ")" && |d| > 0 && AllDigits(d)
    ensures CommitsTail(line, q) == Some(d)
  {
    var t := line[q + 1..];
    assert t[..|d|] == d;
    DigitRunExact(t, |d|);
    assert line[q + 1..q + 1 + |d|] == d;
  }

  /** The characters of pad inside pre + key + pad + rest. */
  lemma PadIndex(pre: string, key: string, pad: string, rest: string, x: int)
    requires |pre| + |key| <= x < |pre| + |key| + |pad|
    ensures (pre + key + pad + rest)[x] == pad[x - |pre| - |key|]
  {
  }

  /** The tag pattern's rest starts at a quote. */
  lemma TagTailNeedsQuote(line: string, j: nat)
    requires j < |line| && line[j] != '"'
    ensures TagTail(line, j).None?
  {
  }

  /** The tag pattern matches at q when GIT_TAG first occurs at i and no
      quote lies between it and q. */
  lemma TagFoundAt(line: string, i: nat, q: nat, v: string)
    requires i + |TagKey| <= q < |line|
    requires forall x :: 0 <= x < i ==> !OccursAt(line, TagKey, x)
    requires OccursAt(line, TagKey, i)
    requires forall x :: i + |TagKey| <= x < q ==> line[x] != '"'
    requires TagTail(line, q) == Some(v)
    ensures LeftmostFrom(line, 0, TagKey, TagTail) == Some(v)
  {
    forall x | i + |TagKey| <= x < q
      ensures TagTail(line, x).None?
    {
      TagTailNeedsQuote(line, x);
    }
    FoundAt(line, i, TagKey, q, TagTail);
  }

  /** A #define line "<pre>GIT_TAG<pad>\"<v>\"" yields the triple v. */
  lemma TagDefineLine(pre: string, pad: string, v: string)
    requires 'G' !in pre && '"' !in pad && IsVersionTriple(v)
    ensures LeftmostFrom(pre + TagKey + pad + ("\"" + v + "\""), 0, TagKey, TagTail) == Some(v)
  {
    var rest := "\"" + v + "\"";
    var line := pre + TagKey + pad + rest;
    var q := |pre| + |TagKey| + |pad|;
    assert line == pre + TagKey + (pad + rest);
    assert TagKey[0] == 'G';
    KeyFirstAfter(pre, TagKey, pad + rest);
    forall x | |pre| + |TagKey| <= x < q
      ensures line[x] != '"'
    {
      PadIndex(pre, TagKey, pad, rest, x);
    }
    assert line[q..] == rest;
    assert line[q + 1..] == v + "\"";
    TagTailOfTriple(line, q, v);
    TagFoundAt(line, |pre|, q, v);
  }

  /** A #define line "<pre>GIT_TAG_VER_DEV_COMMITS<pad>(<d>)" yields the digits d. */
  lemma CommitsDefineLine(pre: string, pad: string, d: string)
    requires 'G' !in pre && '(' !in pad && |d| > 0 && AllDigits(d)
    ensures LeftmostFrom(pre + CommitsKey + pad + ("(" + d + ")"), 0, CommitsKey, CommitsTail) == Some(d)
  {
    var rest := "(" + d + ")";
    var line := pre + CommitsKey + pad + rest;
    var q := |pre| + |CommitsKey| + |pad|;
    assert line[q..] == rest;
    assert line[q + 1..] == d + ")";
    CommitsTailOfDigits(line, q, d);
    forall x | |pre| + |CommitsKey| <= x < q
      ensures CommitsTail(line, x).None?
    {
      PadIndex(pre, CommitsKey, pad, rest, x);
    }
    DefineLine(pre, CommitsKey, pad, rest, '(', CommitsTail);
  }

  /** A #define line "<pre>GIT_HASH<pad>\"<h>\"" yields h. */
  lemma HashDefineLine(pre: string, pad: string, h: string)
    requires 'G' !in pre && '"' !in pad
    ensures LeftmostFrom(pre + HashKey + pad + ("\"" + h + "\""), 0, HashKey, HashTail) == Some(h)
  {
    var rest := "\"" + h + "\"";
    var line := pre + HashKey + pad + rest;
    var q := |pre| + |HashKey| + |pad|;
    assert line[q..] == rest;
    assert line[q + 1..|line| - 1] == h;
    forall x | |pre| + |HashKey| <= x < q
      ensures HashTail(line, x).None?
    {
      PadIndex(pre, HashKey, pad, rest, x);
    }
    DefineLine(pre, HashKey, pad, rest, '"', HashTail);
  }

  /** The first match comes from the first line that has one. */
  lemma {:induction false} FirstMatchAt(lines: seq<string>, k: nat, key: string, tail: Tail)
    requires k < |lines|
    requires forall x :: 0 <= x < k ==> LeftmostFrom(lines[x], 0, key, tail).None?
    requires LeftmostFrom(lines[k], 0, key, tail).Some?
    ensures FirstMatch(lines, key, tail) == LeftmostFrom(lines[k], 0, key, tail)
  {
    if k > 0 {
      FirstMatchAt(lines[1..], k - 1, key, tail);
    }
  }

  const GcqHash := "6b9a1f03ac135f8390bf562335701cc60806ade8"

  /** One line "#define <name><pad><value>" of a version header, its name
      padded with spaces to a column of width 26. */
  function DefineText(name: string, value: string): (r: string)
    requires |name| <= 26
    ensures |r| == 8 + 26 + |value|
    ensures r[..8] == "#define " && r[8..8 + |name|] == name && r[34..] == value
    ensures forall x :: 8 + |name| <= x < 34 ==> r[x] == ' '
  {
    "#define " + name + seq(26 - |name|, _ => ' ') + value
  }

  /** The #define block of the repository's GCQ version header, line by line. */
  const GcqTagLine := DefineText(TagKey, "\"1.0.0\"")
  const GcqMajorLine := DefineText("GIT_TAG_VER_MAJOR", "(1)")
  const GcqMinorLine := DefineText("GIT_TAG_VER_MINOR", "(0)")
  const GcqPatchLine := DefineText("GIT_TAG_VER_PATCH", "(0)")
  const GcqCommitsLine := DefineText(CommitsKey, "(0)")
  const GcqHashLine := DefineText(HashKey, "\"" + GcqHash + "\"")

  const GcqVersionDefines: seq<string> := [
    GcqTagLine,
    GcqMajorLine,
    GcqMinorLine,
    GcqPatchLine,
    GcqCommitsLine,
    "",
    GcqHashLine,
    DefineText("GIT_DATE", "\"20250630\""),
    DefineText("GIT_BRANCH", "\"\""),
    DefineText("GIT_STATUS", "(0)")
  ]

  /** A name and a value that both lack c give a line lacking c. */
  lemma DefineTextLacks(name: string, value: string, c: char)
    requires |name| <= 26 && c != ' ' && c !in "#define " && c !in name && c !in value
    ensures c !in DefineText(name, value)
  {
    var r := DefineText(name, value);
    forall x | 0 <= x < |r|
      ensures r[x] != c
    {
      if x < 8 {
        assert r[x] == r[..8][x];
      } else if x < 8 + |name| {
        assert r[x] == r[8..8 + |name|][x - 8];
      } else if x >= 34 {
        assert r[x] == r[34..][x - 34];
      }
    }
  }

  /** That header yields version 1.0.0 ... */
  lemma GcqVersionDefinesTag()
    ensures FirstMatch(GcqVersionDefines, TagKey, TagTail) == Some("1.0.0")
  {
    assert "1.0.0"[..1] == "1" && "1.0.0"[2..3] == "0" && "1.0.0"[4..] == "0";
    assert TripleAt("1.0.0", 1, 3);
    var pad := seq(19, _ => ' ');
    assert "\"1.0.0\"" == "\"" + "1.0.0" + "\"";
    TagDefineLine("#define ", pad, "1.0.0");
  }

  /** The lines before the dev-commit count lack its 'D'; those before the
      hash lack its 'S' or its 'H'. */
  lemma GcqLeadingLinesLack()
    ensures forall x :: 0 <= x < 4 ==> 'D' !in GcqVersionDefines[x] && 'S' !in GcqVersionDefines[x]
    ensures 'H' !in GcqVersionDefines[4] && 'H' !in GcqVersionDefines[5]
  {
    DefineTextLacks(TagKey, "\"1.0.0\"", 'D');
    DefineTextLacks(TagKey, "\"1.0.0\"", 'S');
    DefineTextLacks("GIT_TAG_VER_MAJOR", "(1)", 'D');
    DefineTextLacks("GIT_TAG_VER_MAJOR", "(1)", 'S');
    DefineTextLacks("GIT_TAG_VER_MINOR", "(0)", 'D');
    DefineTextLacks("GIT_TAG_VER_MINOR", "(0)", 'S');
    DefineTextLacks("GIT_TAG_VER_PATCH", "(0)", 'D');
    DefineTextLacks("GIT_TAG_VER_PATCH", "(0)", 'S');
    DefineTextLacks(CommitsKey, "(0)", 'H');
  }

  lemma CommitsLineOfGcqVersion()
    ensures LeftmostFrom(GcqCommitsLine, 0, CommitsKey, CommitsTail) == Some("0")
  {
    assert "(0)" == "(" + "0" + ")";
    CommitsDefineLine("#define ", seq(3, _ => ' '), "0");
  }

  lemma NoCommitsBeforeLine4()
    ensures forall x :: 0 <= x < 4 ==> LeftmostFrom(GcqVersionDefines[x], 0, CommitsKey, CommitsTail).None?
  {
    var ls := GcqVersionDefines;
    assert CommitsKey[12] == 'D';
    GcqLeadingLinesLack();
    forall x | 0 <= x < 4
      ensures LeftmostFrom(ls[x], 0, CommitsKey, CommitsTail).None?
    {
      LineWithoutKeyChar(ls[x], CommitsKey, 12, CommitsTail);
    }
  }

  /** ... dev-commit count 0 ... */
  lemma GcqVersionDefinesCommits()
    ensures FirstMatch(GcqVersionDefines, CommitsKey, CommitsTail) == Some("0")
  {
    NoCommitsBeforeLine4();
    CommitsLineOfGcqVersion();
    FirstMatchAt(GcqVersionDefines, 4, CommitsKey, CommitsTail);
  }

  lemma HashLineOfGcqVersion()
    ensures LeftmostFrom(GcqHashLine, 0, HashKey, HashTail) == Some(GcqHash)
  {
    HashDefineLine("#define ", seq(18, _ => ' '), GcqHash);
  }

  lemma NoHashBeforeLine6()
    ensures forall x :: 0 <= x < 6 ==> LeftmostFrom(GcqVersionDefines[x], 0, HashKey, HashTail).None?
  {
    var ls := GcqVersionDefines;
    assert HashKey[6] == 'S' && HashKey[4] == 'H';
    GcqLeadingLinesLack();
    forall x | 0 <= x < 6
      ensures LeftmostFrom(ls[x], 0, HashKey, HashTail).None?
    {
      if x < 4 {
        LineWithoutKeyChar(ls[x], HashKey, 6, HashTail);
      } else {
        LineWithoutKeyChar(ls[x], HashKey, 4, HashTail);
      }
    }
  }

  /** ... and the hash 6b9a1f03ac135f8390bf562335701cc60806ade8, so release 0.6b9a1f03.<pkg release>. */
  lemma GcqVersionDefinesHash()
    ensures FirstMatch(GcqVersionDefines, HashKey, HashTail) == Some(GcqHash)
  {
    var ls := GcqVersionDefines;
    NoHashBeforeLine6();
    HashLineOfGcqVersion();
    FirstMatchAt(ls, 6, HashKey, HashTail);
  }

  /** The #define block as the text the scripts read. */
  const GcqVersionHeader := Join(GcqVersionDefines, "\n")

  /** No line of the block holds a line break. */
  lemma GcqDefinesSingleLines()
    ensures forall k :: 0 <= k < |GcqVersionDefines| ==> '\n' !in GcqVersionDefines[k]
  {
    DefineTextLacks(TagKey, "\"1.0.0\"", '\n');
    DefineTextLacks("GIT_TAG_VER_MAJOR", "(1)", '\n');
    DefineTextLacks("GIT_TAG_VER_MINOR", "(0)", '\n');
    DefineTextLacks("GIT_TAG_VER_PATCH", "(0)", '\n');
    DefineTextLacks(CommitsKey, "(0)", '\n');
    DefineTextLacks(HashKey, "\"" + GcqHash + "\"", '\n');
    DefineTextLacks("GIT_DATE", "\"20250630\"", '\n');
    DefineTextLacks("GIT_BRANCH", "\"\"", '\n');
    DefineTextLacks("GIT_STATUS", "(0)", '\n');
  }

  /** Splitting that text at line breaks gives the block's lines back. */
  lemma GcqHeaderLines()
    ensures Split(GcqVersionHeader, "\n") == GcqVersionDefines
  {
    GcqDefinesSingleLines();
    SplitJoin(GcqVersionDefines, '\n');
  }

  /** From that text the scripts take version 1.0.0 and release
      0.6b9a1f03.<pkg release>. */
  lemma GcqVersionHeaderPackage(pkgRelease: string)
    ensures Version(GcqVersionHeader) == "1.0.0"
    ensures Release(GcqVersionHeader, pkgRelease) == "0.6b9a1f03." + pkgRelease
  {
    GcqHeaderLines();
    GcqVersionDefinesTag();
    GcqVersionDefinesCommits();
    GcqVersionDefinesHash();
    PackageOfMatches(GcqVersionHeader, "1.0.0", "0", GcqHash, pkgRelease);
    ReleasePrefix(pkgRelease);
  }

  lemma ReleasePrefix(pkgRelease: string)
    ensures "0" + "." + GcqHash[..8] + "." + pkgRelease == "0.6b9a1f03." + pkgRelease
  {
    assert GcqHash[..8] == "6b9a1f03";
    assert "0" + "." + "6b9a1f03" + "." == "0.6b9a1f03.";
  }

  /** What Version and Release make of a header whose patterns match. */
  lemma PackageOfMatches(header: string, tag: string, commits: string, hash: string, pkgRelease: string)
    requires FirstMatch(Split(header, "\n"), TagKey, TagTail) == Some(tag)
    requires FirstMatch(Split(header, "\n"), CommitsKey, CommitsTail) == Some(commits)
    requires FirstMatch(Split(header, "\n"), HashKey, HashTail) == Some(hash)
    ensures Version(header) == tag
    ensures Release(header, pkgRelease) == commits + "." + hash[..if |hash| < 8 then |hash| else 8] + "." + pkgRelease
  {
  }
}
