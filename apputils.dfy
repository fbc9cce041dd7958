// Helpers of the AMI command-line tool: the hex-data text files it writes
// and reads back (one 0x-prefixed value per line), the PDI header checks
// that find the parent logic UUID of an image, and the bounded yes/no
// prompt.  Files are given as their lines or their bytes; whether a file
// could be opened is an input.
module AppUtils {
  import Text
  import Wrappers

  datatype Status = Success | Failure

  const U32Limit: nat := 0x1_0000_0000

  /** ULONG_MAX + 1 on the 64-bit Linux hosts the tool runs on. */
  const ULongLimit: nat := 0x1_0000_0000_0000_0000

  // ---------------------------------------------------------------------
  // strtoul(line, NULL, 0)
  // ---------------------------------------------------------------------

  /** isspace in the C locale. */
  predicate IsSpace(c: char)
  {
    c == ' ' || c == '\t' || c == '\n' || c == '\r' || c == '\U{000B}' || c == '\U{000C}'
  }

  function SkipSpace(s: string): (r: string)
    ensures |r| <= |s| && r == s[|s| - |r|..]
    ensures |r| > 0 ==> !IsSpace(r[0])
  {
    if |s| > 0 && IsSpace(s[0]) then SkipSpace(s[1..]) else s
  }

  /** A digit of the given base (at most 16), in either case. */
  predicate IsDigitIn(c: char, base: nat)
  {
    0 <= Text.HexDigitValue(c) < base
  }

  /** The length of the run of base digits a string starts with. */
  function DigitRun(s: string, base: nat): (n: nat)
    ensures n <= |s|
    ensures forall k :: 0 <= k < n ==> IsDigitIn(s[k], base)
    ensures n < |s| ==> !IsDigitIn(s[n], base)
  {
    if |s| == 0 || !IsDigitIn(s[0], base) then 0 else 1 + DigitRun(s[1..], base)
  }

  /** The value of a string of base digits, most significant first. */
  function DigitsValue(s: string, base: nat): nat
    requires forall k :: 0 <= k < |s| ==> IsDigitIn(s[k], base)
  {
    if |s| == 0 then 0
    else
      assert IsDigitIn(s[|s| - 1], base);
      Shift(DigitsValue(s[..|s| - 1], base), base) + Text.HexDigitValue(s[|s| - 1]) as nat
  }

  /** A digit string's value moved up by one place. */
  function Shift(high: nat, base: nat): nat
  {
    high * base
  }

  /** The base strtoul chooses for base 0 and the text its digits start at:
      16 after "0x" or "0X" when a hex digit follows, 8 after a leading
      '0' (which is itself an octal digit), else 10. */
  function BaseAndDigits(u: string): (r: (nat, string))
    ensures r.0 in {8, 10, 16}
  {
    if |u| >= 3 && u[0] == '0' && (u[1] == 'x' || u[1] == 'X') && Text.IsHexDigit(u[2]) then (16, u[2..])
    else if |u| >= 1 && u[0] == '0' then (8, u)
    else (10, u)
  }

  /** glibc's strtoul(s, NULL, 0) as an unsigned long: leading white space,
      an optional sign, the base prefix, then the longest run of digits;
      no digits give 0, a value past ULONG_MAX gives ULONG_MAX, and a '-'
      negates modulo 2^64. */
  function Strtoul(s: string): (r: nat)
    ensures r < ULongLimit
  {
    var t := SkipSpace(s);
    var negative := |t| > 0 && t[0] == '-';
    var u := if |t| > 0 && (t[0] == '-' || t[0] == '+') then t[1..] else t;
    var (base, digits) := BaseAndDigits(u);
    var n := DigitsValue(digits[..DigitRun(digits, base)], base);
    if n >= ULongLimit then ULongLimit - 1
    else if negative then (ULongLimit - n) % ULongLimit
    else n
  }

  // ---------------------------------------------------------------------
  // Hex data files
  // ---------------------------------------------------------------------

  /** The value sizes the hex-data helpers support: uint8, uint16 and uint32. */
  predicate SupportedSize(size: nat)
  {
    size == 1 || size == 2 || size == 4
  }

  /** One more than the largest value of a supported size. */
  function SizeLimit(size: nat): (r: nat)
    requires SupportedSize(size)
    ensures r <= U32Limit && r == Text.Pow16(2 * size)
  {
    assert Text.Pow16(2) == 256;
    assert Text.Pow16(4) == 0x1_0000 by {
      assert Text.Pow16(4) == 16 * 16 * Text.Pow16(2);
    }
    assert Text.Pow16(8) == 0x1_0000_0000 by {
      assert Text.Pow16(8) == 16 * 16 * 16 * 16 * Text.Pow16(4);
    }
    if size == 1 then 0x100 else if size == 2 then 0x1_0000 else 0x1_0000_0000
  }

  /** The line fprintf writes for one value: "0x", 2 * size lower-case hex
      digits (more if the value needs them), CR LF. */
  function HexLine(v: nat, size: nat): string
  {
    "0x" + Text.HexPadded(v, 2 * size) + "\r\n"
  }

  /** The file write_hex_data leaves behind, as lines. */
  function HexText(values: seq<nat>, size: nat): (lines: seq<string>)
    ensures |lines| == |values|
  {
    seq(|values|, i requires 0 <= i < |values| => HexLine(values[i], size))
  }

  /** The values read_hex_data hands back for the lines of a file: each
      line through strtoul, cast to uint32, then to the value size. */
  function ParsedValues(lines: seq<string>, size: nat): (values: seq<nat>)
    requires SupportedSize(size)
    ensures |values| == |lines|
    ensures forall i :: 0 <= i < |values| ==> values[i] < SizeLimit(size)
  {
    seq(|lines|, i requires 0 <= i < |lines| => Strtoul(lines[i]) % U32Limit % SizeLimit(size))
  }

  /** A run of hex digits followed by CR LF is read as exactly those digits. */
  lemma {:induction false} DigitRunBeforeEol(h: string)
    requires forall k :: 0 <= k < |h| ==> IsDigitIn(h[k], 16)
    ensures DigitRun(h + "\r\n", 16) == |h|
  {
    if |h| > 0 {
      assert (h + "\r\n")[1..] == h[1..] + "\r\n";
      DigitRunBeforeEol(h[1..]);
    }
  }

  /** In base 16 the digit value is the hexadecimal value. */
  lemma {:induction false} HexDigitsValue(h: string)
    requires forall k :: 0 <= k < |h| ==> IsDigitIn(h[k], 16)
    ensures DigitsValue(h, 16) == Text.HexValue(h)
  {
    if |h| > 0 {
      HexDigitsValue(h[..|h| - 1]);
    }
  }

  /** Without leading space or sign, strtoul gives the value of the digit
      run after the base prefix, when that fits in an unsigned long. */
  lemma StrtoulUnsigned(t: string, base: nat, digits: string)
    requires |t| > 0 && !IsSpace(t[0]) && t[0] != '-' && t[0] != '+'
    requires BaseAndDigits(t) == (base, digits)
    requires DigitsValue(digits[..DigitRun(digits, base)], base) < ULongLimit
    ensures Strtoul(t) == DigitsValue(digits[..DigitRun(digits, base)], base)
  {
    assert SkipSpace(t) == t;
  }

  /** The text after a prefix of a three-part concatenation. */
  lemma DropPrefix(a: string, b: string, c: string)
    ensures (a + b + c)[|a|..] == b + c
  {
  }

  /** strtoul reads "0x", a run of hex digits and CR LF as the digits' value. */
  lemma StrtoulHexLine(h: string)
    requires |h| >= 1 && forall k :: 0 <= k < |h| ==> IsDigitIn(h[k], 16)
    requires DigitsValue(h, 16) < ULongLimit
    ensures Strtoul("0x" + h + "\r\n") == DigitsValue(h, 16)
  {
    var line := "0x" + h + "\r\n";
    var digits := h + "\r\n";
    DropPrefix("0x", h, "\r\n");
    assert line[0] == '0' && line[1] == 'x' && line[2] == digits[0] == h[0];
    assert BaseAndDigits(line) == (16, digits);
    DigitRunBeforeEol(h);
    assert digits[..|h|] == h;
    StrtoulUnsigned(line, 16, digits);
  }

  /** strtoul reads back the value of a written line. */
  lemma HexLineParses(v: nat, size: nat)
    requires SupportedSize(size) && v < SizeLimit(size)
    ensures Strtoul(HexLine(v, size)) == v
  {
    var h := Text.HexPadded(v, 2 * size);
    Text.HexPaddedValue(v, 2 * size);
    assert forall k :: 0 <= k < |h| ==> IsDigitIn(h[k], 16);
    HexDigitsValue(h);
    StrtoulHexLine(h);
  }

  lemma SmallMod(x: nat, m: nat)
    requires x < m
    ensures x % m == x
  {
  }

  /** read_hex_data after write_hex_data with the same supported size gives
      back the values written. */
  lemma HexDataRoundTrip(values: seq<nat>, size: nat)
    requires SupportedSize(size)
    requires forall i :: 0 <= i < |values| ==> values[i] < SizeLimit(size)
    ensures ParsedValues(HexText(values, size), size) == values
  {
    var text := HexText(values, size);
    var parsed := ParsedValues(text, size);
    forall i | 0 <= i < |values|
      ensures parsed[i] == values[i]
    {
      var v := values[i];
      assert text[i] == HexLine(v, size);
      HexLineParses(v, size);
      var limit := SizeLimit(size);
      SmallMod(v, U32Limit);
      SmallMod(v, limit);
      assert parsed[i] == v % U32Limit % limit;
    }
  }

  /** write_hex_data: one line per value when the file opens.  The size is
      only looked at inside the loop, so an unsupported size fails only when
      there is a value to write; nothing is written past the failure point
      because the first value already hits it. */
  method WriteHexData(isOpen: bool, values: seq<nat>, size: nat) returns (status: Status, lines: seq<string>)
    requires SupportedSize(size) ==> forall i :: 0 <= i < |values| ==> values[i] < SizeLimit(size)
    ensures status == Success <==> isOpen && (|values| == 0 || SupportedSize(size))
    ensures status == Success ==> lines == HexText(values, size)
    ensures status == Failure ==> lines == []
  {
    lines := [];
    if !isOpen {
      return Failure, [];
    }
    var i := 0;
    while i < |values|
      invariant 0 <= i <= |values|
      invariant i > 0 ==> SupportedSize(size)
      invariant lines == HexText(values[..i], size)
    {
      if !SupportedSize(size) {
        return Failure, [];
      }
      lines := lines + [HexLine(values[i], size)];
      i := i + 1;
    }
    assert values[..i] == values;
    status := Success;
  }

  /** Every written line holds 2, 4 or 8 hex digits between "0x" and CR LF. */
  lemma HexLineShape(v: nat, size: nat)
    requires SupportedSize(size) && v < SizeLimit(size)
    ensures |HexLine(v, size)| == 2 * size + 4
    ensures HexLine(v, size)[..2] == "0x" && HexLine(v, size)[2 * size + 2..] == "\r\n"
    ensures forall k :: 2 <= k < 2 * size + 2 ==> Text.IsHexDigit(HexLine(v, size)[k])
  {
    Text.HexPaddedValue(v, 2 * size);
    var h := Text.HexPadded(v, 2 * size);
    assert |h| == 2 * size;
    var line := HexLine(v, size);
    forall k | 2 <= k < 2 * size + 2
      ensures Text.IsHexDigit(line[k])
    {
      assert line[k] == h[k - 2];
    }
  }

  // ---------------------------------------------------------------------
  // The staging buffer of read_hex_data
  // ---------------------------------------------------------------------

  /** The entries the staging buffer grows by. */
  const ReallocStep: nat := 100

  /** The entries room once n lines are staged: 100 at first, and 100
      more each time a line arrives at a full buffer. */
  function Capacity(n: nat): (c: nat)
  {
    if n <= ReallocStep then ReallocStep else Capacity(n - ReallocStep) + ReallocStep
  }

  /** The buffer is a whole number of steps, holds every staged line and
      never has a whole step to spare. */
  lemma {:induction false} CapacityBounds(n: nat)
    ensures Capacity(n) % ReallocStep == 0 && Capacity(n) >= ReallocStep
    ensures n <= Capacity(n) && (n > 0 ==> Capacity(n) < n + ReallocStep)
  {
    if n > ReallocStep {
      CapacityBounds(n - ReallocStep);
    }
  }

  /** One more line keeps the capacity unless the buffer was full, when it
      grows by one step. */
  lemma {:induction false} CapacityStep(n: nat)
    ensures Capacity(n + 1) == if n == Capacity(n) then n + ReallocStep else Capacity(n)
  {
    if n > ReallocStep {
      CapacityStep(n - ReallocStep);
    }
  }

  /** The value a line is staged as: strtoul's result cast to uint32. */
  function Staged(line: string): (r: nat)
    ensures r < U32Limit
  {
    Strtoul(line) % U32Limit
  }

  /** The values strtoul stages for the lines of a file. */
  function StagedValues(lines: seq<string>): (r: seq<nat>)
    ensures |r| == |lines|
  {
    seq(|lines|, k requires 0 <= k < |lines| => Staged(lines[k]))
  }

  /** realloc of the staging buffer by one step: the staged entries move
      to a fresh array one step longer. */
  method Grow(buf: array<nat>, done: nat) returns (grown: array<nat>)
    requires done <= buf.Length
    ensures fresh(grown) && grown.Length == buf.Length + ReallocStep
    ensures grown[..done] == buf[..done]
  {
    grown := new nat[buf.Length + ReallocStep];
    forall k | 0 <= k < done {
      grown[k] := buf[k];
    }
  }

  /** The loop of read_hex_data: every line of the file is staged, the
      buffer growing by 100 entries whenever a line arrives at a full one. */
  method StageLines(lines: seq<string>) returns (buf: array<nat>)
    ensures fresh(buf) && buf.Length == Capacity(|lines|) && |lines| <= buf.Length
    ensures buf[..|lines|] == StagedValues(lines)
  {
    ghost var staged := StagedValues(lines);
    buf := new nat[ReallocStep];
    var room := ReallocStep;
    var done := 0;
    while done < |lines|
      invariant 0 <= done <= |lines|
      invariant fresh(buf)
      invariant room == buf.Length == Capacity(done)
      invariant done <= room
      invariant buf[..done] == staged[..done]
    {
      CapacityStep(done);
      if done == room {
        buf := Grow(buf, done);
        room := room + ReallocStep;
      }
      buf[done] := Staged(lines[done]);
      assert buf[..done + 1] == buf[..done] + [staged[done]];
      done := done + 1;
    }
  }

  /** The per-size loops of read_hex_data: the first n staged values cast
      to the value size. */
  method CastStaged(buf: array<nat>, n: nat, size: nat) returns (values: seq<nat>)
    requires n <= buf.Length && SupportedSize(size)
    ensures |values| == n
    ensures forall k :: 0 <= k < n ==> values[k] == buf[k] % SizeLimit(size)
  {
    var limit := SizeLimit(size);
    var v := new nat[n];
    var i := 0;
    while i < n
      invariant 0 <= i <= n
      invariant forall k :: 0 <= k < i ==> v[k] == buf[k] % limit
    {
      v[i] := buf[i] % limit;
      i := i + 1;
    }
    values := v[..];
  }

  /** read_hex_data: stage every line of an opened file, then cast the
      staged values to the value size; an unsupported size fails after the
      file has been read.  capacity is the number of entries allocated at
      the end. */
  method ReadHexData(isOpen: bool, lines: seq<string>, size: nat)
    returns (status: Status, values: seq<nat>, ghost capacity: nat)
    ensures status == Success <==> isOpen && SupportedSize(size)
    ensures status == Success ==> values == ParsedValues(lines, size)
    ensures status == Failure ==> values == []
    ensures isOpen ==> capacity == Capacity(|lines|)
  {
    if !isOpen {
      return Failure, [], 0;
    }
    var buf := StageLines(lines);
    capacity := buf.Length;
    if !SupportedSize(size) {
      return Failure, [], capacity;
    }
    values := CastStaged(buf, |lines|, size);
    assert forall k :: 0 <= k < |lines| ==> buf[k] == buf[..|lines|][k];
    status := Success;
  }

  // ---------------------------------------------------------------------
  // confirm_action
  // ---------------------------------------------------------------------

  /** What one prompt of confirm_action gets from standard input: the
      five-minute poll times out, scanf reads a character (after skipping
      white space), or scanf reads nothing (end of input), which leaves the
      previous response in place. */
  datatype Response = Timeout | Key(c: char) | NoChar

  /** The number of prompts attempts allows: the loop is a do-while, so at
      least one. */
  function PromptLimit(attempts: int): (r: nat)
    ensures r >= 1 && (attempts >= 1 ==> r == attempts)
  {
    if attempts < 1 then 1 else attempts
  }

  /** The prompts from some point on, with the response so far and the
      number of responses read so far; input that has run out reads as a
      timeout.  The result is whether the last response is yes, and how
      many responses were read. */
  function Prompting(inputs: seq<Response>, yes: char, attempts: int, response: char, answered: nat): (r: (bool, nat))
    ensures answered <= r.1 <= answered + |inputs|
    decreases |inputs|
  {
    if |inputs| == 0 || inputs[0].Timeout? then (response == yes, answered)
    else
      var next := if inputs[0].Key? then inputs[0].c else response;
      if next != yes && answered + 1 < attempts && next != 'n' then
        Prompting(inputs[1..], yes, attempts, next, answered + 1)
      else (next == yes, answered + 1)
  }

  /** confirm_action from the start: no response yet (the NUL character). */
  function Confirm(inputs: seq<Response>, yes: char, attempts: int): (r: (bool, nat))
    ensures r.1 <= |inputs|
  {
    Prompting(inputs, yes, attempts, '\0', 0)
  }

  /** confirm_action: prompt until the answer is yes or 'n', the poll times
      out or attempts responses have been read.  It returns whether the last
      response is yes, and (for the model) how many responses it read. */
  method ConfirmAction(inputs: seq<Response>, yes: char, attempts: int) returns (confirmed: bool, answered: nat)
    ensures (confirmed, answered) == Confirm(inputs, yes, attempts)
  {
    var response := '\0';
    answered := 0;
    var asking := true;
    while asking
      invariant answered <= |inputs|
      invariant asking ==> Prompting(inputs[answered..], yes, attempts, response, answered) == Confirm(inputs, yes, attempts)
      invariant !asking ==> (response == yes, answered) == Confirm(inputs, yes, attempts)
      decreases |inputs| - answered, asking
    {
      if answered == |inputs| || inputs[answered].Timeout? {
        asking := false;
      } else {
        assert inputs[answered..][1..] == inputs[answered + 1..];
        if inputs[answered].Key? {
          response := inputs[answered].c;
        }
        answered := answered + 1;
        asking := response != yes && answered < attempts && response != 'n';
      }
    }
    confirmed := response == yes;
  }

  /** The j-th response is yes, comes within the prompts allowed, and every
      response before it was read and was neither yes nor 'n'. */
  predicate YesAt(inputs: seq<Response>, yes: char, budget: int, j: int)
  {
    0 <= j < |inputs| && j < budget && inputs[j] == Key(yes)
    && forall i :: 0 <= i < j ==> inputs[i] != Timeout && inputs[i] != Key(yes) && inputs[i] != Key('n')
  }

  /** The prompts from some point on confirm exactly when a yes comes in
      time, given that the response so far is not yes. */
  lemma {:induction false} PromptingConfirms(inputs: seq<Response>, yes: char, attempts: int, response: char, answered: nat, budget: int)
    requires response != yes && response != 'n'
    requires answered == 0 || answered < attempts
    requires budget == PromptLimit(attempts) - answered
    ensures Prompting(inputs, yes, attempts, response, answered).0 <==> exists j :: YesAt(inputs, yes, budget, j)
    decreases |inputs|
  {
    if |inputs| == 0 || inputs[0].Timeout? {
      forall j | 0 < j < |inputs|
        ensures !YesAt(inputs, yes, budget, j)
      {
        assert inputs[0] == Timeout;
      }
    } else {
      var next := if inputs[0].Key? then inputs[0].c else response;
      if next != yes && answered + 1 < attempts && next != 'n' {
        PromptingConfirms(inputs[1..], yes, attempts, next, answered + 1, budget - 1);
        ShiftYesAt(inputs, inputs[1..], yes, budget, budget - 1);
      } else if next == yes {
        assert YesAt(inputs, yes, budget, 0);
      } else {
        if exists j :: YesAt(inputs, yes, budget, j) {
          var j :| YesAt(inputs, yes, budget, j);
          assert inputs[0] != Key(yes);
          if next == 'n' {
            assert inputs[0] == Key('n');
          } else {
            assert budget <= 1;
          }
        }
      }
    }
  }

  /** A yes after a first response that is read and neither yes nor 'n' is
      a yes of the remaining responses, one prompt later. */
  lemma ShiftYesAt(inputs: seq<Response>, rest: seq<Response>, yes: char, budget: int, restBudget: int)
    requires |inputs| > 0 && rest == inputs[1..] && restBudget == budget - 1
    requires inputs[0] != Timeout && inputs[0] != Key(yes) && inputs[0] != Key('n')
    ensures (exists j :: YesAt(inputs, yes, budget, j)) <==> (exists j :: YesAt(rest, yes, restBudget, j))
  {
    if exists j :: YesAt(inputs, yes, budget, j) {
      var j :| YesAt(inputs, yes, budget, j);
      assert j > 0;
      assert YesAt(rest, yes, restBudget, j - 1);
    }
    if exists j :: YesAt(rest, yes, restBudget, j) {
      var j :| YesAt(rest, yes, restBudget, j);
      assert YesAt(inputs, yes, budget, j + 1);
    }
  }

  /** confirm_action confirms exactly when, within the allowed prompts, a
      yes is typed before any timeout and before any 'n' (yes being an
      actual character). */
  lemma ConfirmIff(inputs: seq<Response>, yes: char, attempts: int)
    requires yes != '\0'
    ensures Confirm(inputs, yes, attempts).0 <==> exists j :: YesAt(inputs, yes, PromptLimit(attempts), j)
  {
    PromptingConfirms(inputs, yes, attempts, '\0', 0, PromptLimit(attempts));
  }

  /** At most the allowed number of responses is ever read. */
  lemma {:induction false} PromptingReads(inputs: seq<Response>, yes: char, attempts: int, response: char, answered: nat)
    requires answered == 0 || answered < attempts
    ensures Prompting(inputs, yes, attempts, response, answered).1 <= PromptLimit(attempts)
    decreases |inputs|
  {
    if |inputs| > 0 && !inputs[0].Timeout? {
      var next := if inputs[0].Key? then inputs[0].c else response;
      if next != yes && answered + 1 < attempts && next != 'n' {
        PromptingReads(inputs[1..], yes, attempts, next, answered + 1);
      }
    }
  }

  /** confirm_action answered at most max(attempts, 1) responses. */
  lemma ConfirmReadsBound(inputs: seq<Response>, yes: char, attempts: int)
    ensures Confirm(inputs, yes, attempts).1 <= PromptLimit(attempts)
  {
    PromptingReads(inputs, yes, attempts, '\0', 0);
  }

  // ---------------------------------------------------------------------
  // find_parent_uuid
  // ---------------------------------------------------------------------

  type Byte = b: int | 0 <= b < 256

  /** Sizes of the PDI structures read, in bytes. */
  const BootHeaderSize: nat := 0xF80
  const SmapWidthTableSize: nat := 16
  const ImageHeaderTableSize: nat := 0x80
  const ImageHeaderSize: nat := 0x40

  /** Byte offsets of the 32-bit fields consulted. */
  const WidthDetectionWordAt: nat := 0x10
  const ImageHeaderByteOffsetAt: nat := 0xC4
  const VersionAt: nat := 0x0
  const FirstImageHeaderWordOffsetAt: nat := 0x8
  const PartitionTotalCountAt: nat := 0xC
  const MetaHdrKeySourceAt: nat := 0x40
  const ParentUniqueIdAt: nat := 0x28

  const WidthDetectionMagic: nat := 0xAA99_5566

  /** The image header table versions accepted: v1 to v4. */
  predicate SupportedVersion(v: nat)
  {
    v == 0x0103_0000 || v == 0x0002_0000 || v == 0x0003_0000 || v == 0x0004_0000
  }

  /** A first SMAP word that marks a bus-width table in front of the image
      header table. */
  predicate SmapMarker(w: nat)
  {
    w == 0xDD00_0000 || w == 0x00DD_0000 || w == 0x0000_00DD
  }

  /** What a fresh allocation holds at index k before fread fills it. */
  function Junk(junk: seq<Byte>, k: nat): Byte
  {
    if k < |junk| then junk[k] else 0
  }

  /** The buffer fread(buf, 1, n, fp) leaves at file position offset: the
      file's bytes while they last, then the allocation's own bytes. */
  function ReadAt(data: seq<Byte>, offset: nat, n: nat, junk: seq<Byte>): (buf: seq<Byte>)
    ensures |buf| == n
    ensures forall k :: 0 <= k < n && offset + k < |data| ==> buf[k] == data[offset + k]
  {
    seq(n, k requires 0 <= k < n => if offset + k < |data| then data[offset + k] else Junk(junk, k))
  }

  /** The count fread returns: what is left of the file, at most n. */
  function ReadCount(data: seq<Byte>, offset: nat, n: nat): (count: nat)
    ensures count <= n
    ensures count == n <==> n == 0 || offset + n <= |data|
  {
    if offset >= |data| then 0 else if |data| - offset < n then |data| - offset else n
  }

  /** The little-endian uint32 at byte at of a buffer. */
  function Word(buf: seq<Byte>, at: nat): (w: nat)
    requires at + 4 <= |buf|
    ensures w < U32Limit
  {
    var b0: int, b1: int, b2: int, b3: int := buf[at], buf[at + 1], buf[at + 2], buf[at + 3];
    b0 + 0x100 * b1 + 0x1_0000 * b2 + 0x100_0000 * b3
  }

  /** An open PDI file: its bytes and the position fseek and fread move. */
  class PdiFile {
    const data: seq<Byte>
    var position: nat

    constructor (data: seq<Byte>)
      ensures this.data == data && position == 0
    {
      this.data := data;
      position := 0;
    }

    /** fseek(fp, offset, SEEK_SET) on a regular file: any offset that is not
        negative is accepted, past the end too. */
    method Seek(offset: nat)
      modifies this
      ensures position == offset
    {
      position := offset;
    }

    /** fread(buf, 1, n, fp) into a fresh allocation holding junk. */
    method Read(n: nat, junk: seq<Byte>) returns (buf: seq<Byte>, count: nat)
      modifies this
      ensures buf == ReadAt(data, old(position), n, junk)
      ensures count == ReadCount(data, old(position), n)
      ensures position == old(position) + count
    {
      buf := ReadAt(data, position, n, junk);
      count := ReadCount(data, position, n);
      position := position + count;
    }
  }

  /** Where the image header table starts: at the boot header's
      imageHeaderByteOffset when its width-detection word is present, else
      just after a SMAP bus-width table if the first word marks one, else at
      the start of the file. */
  function TableOffset(boot: seq<Byte>): (offset: nat)
    requires |boot| == BootHeaderSize
    ensures offset < U32Limit
  {
    if Word(boot, WidthDetectionWordAt) != WidthDetectionMagic then
      (if SmapMarker(Word(boot, 0)) then SmapWidthTableSize else 0)
    else Word(boot, ImageHeaderByteOffsetAt)
  }

  /** The table checks, in the order they are made: a known version, then a
      complete read, then a partition count strictly between 0 and 0xFF. */
  predicate TableAccepted(table: seq<Byte>, count: nat)
    requires |table| == ImageHeaderTableSize
  {
    SupportedVersion(Word(table, VersionAt))
    && count == ImageHeaderTableSize
    && 0 < Word(table, PartitionTotalCountAt) < 0xFF
  }

  /** Where the first image header starts: its word offset times 4, in
      uint32 arithmetic. */
  function HeaderOffset(table: seq<Byte>): (offset: nat)
    requires |table| == ImageHeaderTableSize
    ensures offset < U32Limit && offset % 4 == 0
  {
    Word(table, FirstImageHeaderWordOffsetAt) * 4 % U32Limit
  }

  /** snprintf(uuid, uuidSize, "%0*x", uuidSize - 1, parent): the
      zero-padded hex text cut to the uuidSize - 1 characters that fit
      before the terminator. */
  function UuidText(parent: nat, uuidSize: nat): (s: string)
    requires uuidSize >= 1
    ensures |s| == uuidSize - 1
  {
    var h := Text.HexPadded(parent, uuidSize - 1);
    h[..uuidSize - 1]
  }

  /** How find_parent_uuid ends on an opened file. */
  datatype UuidOutcome = Uuid(text: string) | Rejected | NullDereference

  /** find_parent_uuid as written: when the table's metaHdrKeySource is not
      0 no image header is read, and the image header pointer, still NULL,
      is dereferenced to format the UUID. */
  function ParentUuidAsWritten(data: seq<Byte>, junk: seq<Byte>, uuidSize: nat): UuidOutcome
    requires uuidSize >= 1
  {
    var boot := ReadAt(data, 0, BootHeaderSize, junk);
    var offset := TableOffset(boot);
    var table := ReadAt(data, offset, ImageHeaderTableSize, junk);
    if !TableAccepted(table, ReadCount(data, offset, ImageHeaderTableSize)) then Rejected
    else if Word(table, MetaHdrKeySourceAt) != 0 then NullDereference
    else
      var at := HeaderOffset(table);
      if ReadCount(data, at, ImageHeaderSize) != ImageHeaderSize then Rejected
      else Uuid(UuidText(Word(ReadAt(data, at, ImageHeaderSize, junk), ParentUniqueIdAt), uuidSize))
  }

  /** find_parent_uuid as intended: a table whose metaHdrKeySource is not 0
      has no image header to take the UUID from, and is rejected. */
  function ParentUuid(data: seq<Byte>, junk: seq<Byte>, uuidSize: nat): (r: Wrappers.Option<string>)
    requires uuidSize >= 1
    ensures r.Some? ==> |r.value| == uuidSize - 1
  {
    match ParentUuidAsWritten(data, junk, uuidSize)
    case Uuid(text) => Wrappers.Some(text)
    case _ => Wrappers.None
  }

  /** find_parent_uuid with the NULL dereference turned into a failure: the
      file position moves with every fseek and fread, and offset is reused
      for the image header table and then the image header.  A file that
      cannot be opened fails. */
  method FindParentUuid(contents: Wrappers.Option<seq<Byte>>, junk: seq<Byte>, uuidSize: nat)
    returns (status: Status, uuid: string)
    requires uuidSize >= 1
    ensures contents.None? ==> status == Failure
    ensures contents.Some? ==> (status == Success <==> ParentUuid(contents.value, junk, uuidSize).Some?)
    ensures status == Success ==> Wrappers.Some(uuid) == ParentUuid(contents.value, junk, uuidSize)
    ensures status == Failure ==> uuid == ""
  {
    uuid := "";
    if contents.None? {
      return Failure, "";
    }
    var fp := new PdiFile(contents.value);
    var boot, _ := fp.Read(BootHeaderSize, junk);
    var offset: nat;
    if Word(boot, WidthDetectionWordAt) != WidthDetectionMagic {
      offset := if SmapMarker(Word(boot, 0)) then SmapWidthTableSize else 0;
    } else {
      offset := Word(boot, ImageHeaderByteOffsetAt);
    }
    fp.Seek(offset);
    var table, count := fp.Read(ImageHeaderTableSize, junk);
    if !SupportedVersion(Word(table, VersionAt)) {
      return Failure, "";
    }
    if count != ImageHeaderTableSize {
      return Failure, "";
    }
    var partitions := Word(table, PartitionTotalCountAt);
    if !(0 < partitions < 0xFF) {
      return Failure, "";
    }
    if Word(table, MetaHdrKeySourceAt) != 0 {
      return Failure, "";
    }
    offset := Word(table, FirstImageHeaderWordOffsetAt) * 4 % U32Limit;
    fp.Seek(offset);
    var header, got := fp.Read(ImageHeaderSize, junk);
    if got != ImageHeaderSize {
      return Failure, "";
    }
    uuid := UuidText(Word(header, ParentUniqueIdAt), uuidSize);
    status := Success;
  }

  /** Powers of 16 grow with the exponent. */
  lemma {:induction false} Pow16Grows(a: nat, b: nat)
    requires a <= b
    ensures Text.Pow16(a) <= Text.Pow16(b)
    decreases b
  {
    if a < b {
      Pow16Grows(a, b - 1);
    }
  }

  /** With room for eight digits the UUID text is the parent ID in full:
      uuidSize - 1 hex digits whose value is the ID. */
  lemma UuidTextValue(parent: nat, uuidSize: nat)
    requires uuidSize >= 9 && parent < U32Limit
    ensures forall k :: 0 <= k < |UuidText(parent, uuidSize)| ==> Text.IsHexDigit(UuidText(parent, uuidSize)[k])
    ensures Text.HexValue(UuidText(parent, uuidSize)) == parent
  {
    assert Text.Pow16(8) == U32Limit by {
      assert Text.Pow16(4) == 0x1_0000 by {
        assert Text.Pow16(2) == 256;
      }
      assert Text.Pow16(8) == 16 * 16 * 16 * 16 * Text.Pow16(4);
    }
    Pow16Grows(8, uuidSize - 1);
    Text.HexPaddedValue(parent, uuidSize - 1);
    var h := Text.HexPadded(parent, uuidSize - 1);
    assert h[..uuidSize - 1] == h;
  }

  /** A UUID is found exactly when the image header table read at
      TableOffset passes its checks, its metaHdrKeySource is 0 and the whole
      image header lies within the file; the UUID is then its
      parentUniqueId in hex. */
  lemma ParentUuidFound(data: seq<Byte>, junk: seq<Byte>, uuidSize: nat)
    requires uuidSize >= 1
    ensures var offset := TableOffset(ReadAt(data, 0, BootHeaderSize, junk));
            var table := ReadAt(data, offset, ImageHeaderTableSize, junk);
            ParentUuid(data, junk, uuidSize).Some?
            <==> TableAccepted(table, ReadCount(data, offset, ImageHeaderTableSize))
                 && Word(table, MetaHdrKeySourceAt) == 0
                 && HeaderOffset(table) + ImageHeaderSize <= |data|
    ensures var offset := TableOffset(ReadAt(data, 0, BootHeaderSize, junk));
            var table := ReadAt(data, offset, ImageHeaderTableSize, junk);
            var header := ReadAt(data, HeaderOffset(table), ImageHeaderSize, junk);
            ParentUuid(data, junk, uuidSize).Some?
            ==> ParentUuid(data, junk, uuidSize).value == UuidText(Word(header, ParentUniqueIdAt), uuidSize)
  {
  }

  /** Once the file holds a whole boot header, what the allocations held
      beforehand makes no difference: every field that decides the outcome
      comes from the file. */
  lemma ParentUuidIgnoresJunk(data: seq<Byte>, junk1: seq<Byte>, junk2: seq<Byte>, uuidSize: nat)
    requires uuidSize >= 1 && |data| >= BootHeaderSize
    ensures ParentUuidAsWritten(data, junk1, uuidSize) == ParentUuidAsWritten(data, junk2, uuidSize)
  {
    var boot1 := ReadAt(data, 0, BootHeaderSize, junk1);
    assert boot1 == ReadAt(data, 0, BootHeaderSize, junk2);
    var offset := TableOffset(boot1);
    if ReadCount(data, offset, ImageHeaderTableSize) == ImageHeaderTableSize {
      var table1 := ReadAt(data, offset, ImageHeaderTableSize, junk1);
      assert table1 == ReadAt(data, offset, ImageHeaderTableSize, junk2);
      var at := HeaderOffset(table1);
      if ReadCount(data, at, ImageHeaderSize) == ImageHeaderSize {
        assert ReadAt(data, at, ImageHeaderSize, junk1) == ReadAt(data, at, ImageHeaderSize, junk2);
      }
    }
  }

  /** A 128-byte file with no boot header: the table is read from offset 0,
      has version 0x00020000, one partition and metaHdrKeySource 1. */
  function KeySourceFile(): (data: seq<Byte>)
    ensures |data| == ImageHeaderTableSize
  {
    seq(ImageHeaderTableSize, k requires 0 <= k < ImageHeaderTableSize =>
      if k == 2 then 2 else if k == PartitionTotalCountAt || k == MetaHdrKeySourceAt then 1 else 0)
  }

  /** On that file the code as written dereferences the NULL image header,
      where the corrected behaviour rejects the file. */
  lemma KeySourceDereferencesNull()
    ensures ParentUuidAsWritten(KeySourceFile(), [], 33) == NullDereference
    ensures ParentUuid(KeySourceFile(), [], 33) == Wrappers.None
  {
    var data := KeySourceFile();
    var boot := ReadAt(data, 0, BootHeaderSize, []);
    assert Word(boot, WidthDetectionWordAt) == 0;
    assert Word(boot, 0) == 0x0002_0000;
    var table := ReadAt(data, 0, ImageHeaderTableSize, []);
    assert table == data;
    assert Word(table, VersionAt) == 0x0002_0000;
    assert Word(table, PartitionTotalCountAt) == 1;
    assert Word(table, MetaHdrKeySourceAt) == 1;
  }
}
