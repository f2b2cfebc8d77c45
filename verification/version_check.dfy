/**
 The NFS version check: from the output of `rpcinfo -t <server> nfs`, the
 highest protocol version announced on a "ready and waiting" line.
 */
module VersionCheck {
  import opened Wrappers
  import opened Text
  import opened Decimal
  import opened Command

  const Ready: string := "ready and waiting"

  const VersionWord: string := "version "

  /** The pattern `version (\d+)` matches at position `i` of `line`. */
  predicate VersionAt(line: string, i: nat) {
    && i + |VersionWord| < |line|
    && line[i..i + |VersionWord|] == VersionWord
    && IsDigit(line[i + |VersionWord|])
  }

  /** The leftmost match of the pattern at or after `from` (what
      `re.search` finds when started at `from`). */
  function FindVersion(line: string, from: nat): (r: Option<nat>)
    requires from <= |line|
    ensures r.Some? ==> from <= r.value && VersionAt(line, r.value)
    ensures r.Some? ==> forall j: nat :: from <= j < r.value ==> !VersionAt(line, j)
    ensures r.None? ==> forall j: nat :: from <= j ==> !VersionAt(line, j)
    decreases |line| - from
  {
    if VersionAt(line, from) then Some(from)
    else if from == |line| then None
    else FindVersion(line, from + 1)
  }

  /** The first match starts at `i`; its digit group is the `n` digits
      after "version ", followed by a non-digit or the end; `v` is their value. */
  predicate VersionMatch(line: string, i: nat, n: nat, v: nat) {
    && VersionAt(line, i)
    && (forall j: nat :: j < i ==> !VersionAt(line, j))
    && var start := i + |VersionWord|;
    && 1 <= n && start + n <= |line|
    && AllDigits(line[start..start + n])
    && (start + n == |line| || !IsDigit(line[start + n]))
    && v == ParseDecimal(line[start..start + n])
  }

  /** The version one line of output contributes: the line must contain
      "ready and waiting", and the first `version <digits>` in it is read
      as an integer. */
  function LineVersion(line: string): Option<nat> {
    if !Contains(line, Ready) then None
    else match FindVersion(line, 0)
      case None => None
      case Some(i) =>
        var start := i + |VersionWord|;
        var digits := line[start..];
        Some(ParseDecimal(digits[..DigitRun(digits)]))
  }

  /** A line yields a version exactly when it contains "ready and waiting"
      and the pattern matches somewhere in it; the version is the value of
      the whole digit run of the leftmost match. */
  lemma LineVersionMeaning(line: string)
    ensures LineVersion(line).Some? <==> Contains(line, Ready) && exists i: nat :: VersionAt(line, i)
    ensures LineVersion(line).Some? ==>
              exists i: nat, n: nat :: VersionMatch(line, i, n, LineVersion(line).value)
  {
    if Contains(line, Ready) {
      var found := FindVersion(line, 0);
      if found.Some? {
        var i := found.value;
        var start := i + |VersionWord|;
        var n := DigitRun(line[start..]);
        assert line[start..][..n] == line[start..start + n];
        assert line[start..][0] == line[start];
        assert VersionMatch(line, i, n, LineVersion(line).value);
      }
    }
  }

  /** The versions of all qualifying lines, in line order. */
  function Versions(lines: seq<string>): seq<nat> {
    if |lines| == 0 then []
    else
      var here := match LineVersion(lines[0]) case Some(v) => [v] case None => [];
      here + Versions(lines[1..])
  }

  /** A version is collected exactly when some line yields it. */
  lemma {:induction false} VersionsMembers(lines: seq<string>)
    ensures forall v :: v in Versions(lines) <==> exists l <- lines :: LineVersion(l) == Some(v)
    decreases |lines|
  {
    if |lines| > 0 {
      VersionsMembers(lines[1..]);
      assert forall l <- lines :: l == lines[0] || l in lines[1..];
    }
  }

  function Max(vs: seq<nat>): (m: nat)
    requires |vs| > 0
    ensures m in vs
    ensures forall v <- vs :: v <= m
  {
    if |vs| == 1 then vs[0]
    else
      var rest := Max(vs[1..]);
      assert forall v <- vs :: v == vs[0] || v in vs[1..];
      if vs[0] >= rest then vs[0] else rest
  }

  predicate HasVersion(lines: seq<string>) {
    exists l <- lines :: LineVersion(l).Some?
  }

  /** `m` was extracted from some line and no line yields more. */
  predicate IsMaxVersion(lines: seq<string>, m: nat) {
    && (exists l <- lines :: LineVersion(l) == Some(m))
    && (forall l <- lines :: LineVersion(l).Some? ==> LineVersion(l).value <= m)
  }

  /** The success-path result: `str(max(versions))`, or "0" when no line qualified. */
  function VersionOfLines(lines: seq<string>): (r: string)
    ensures Canonical(r)
    ensures !HasVersion(lines) ==> r == "0"
    ensures HasVersion(lines) ==> IsMaxVersion(lines, ParseDecimal(r))
  {
    var vs := Versions(lines);
    VersionsMembers(lines);
    if |vs| == 0 then "0"
    else
      var m := Max(vs);
      ParseNatToString(m);
      NatToString(m)
  }

  /** `get_nfs_version`, given what `rpcinfo` produced. */
  function GetNfsVersion(run: CommandResult): (r: string)
    ensures run.Failed() ==> r == ErrorReport(run.stderr)
    ensures !run.Failed() ==> Canonical(r)
    ensures !run.Failed() && !HasVersion(SplitLines(run.stdout)) ==> r == "0"
    ensures !run.Failed() && HasVersion(SplitLines(run.stdout)) ==>
              IsMaxVersion(SplitLines(run.stdout), ParseDecimal(r))
  {
    if run.Failed() then ErrorReport(run.stderr)
    else VersionOfLines(SplitLines(run.stdout))
  }

  // ---------------------------------------------------------------------
  // Properties
  // ---------------------------------------------------------------------

  /** The result reads as an error exactly when the tool failed: a success
      result is a numeral, never text starting "Error: ". */
  lemma ErrorIffFailed(run: CommandResult)
    ensures StartsWith(GetNfsVersion(run), ErrorPrefix) <==> run.Failed()
  {
    var r := GetNfsVersion(run);
    if !run.Failed() {
      assert IsDigit(r[0]);
      if |ErrorPrefix| <= |r| {
        assert r[..|ErrorPrefix|][0] == r[0];
      }
    }
  }

  /** The result depends only on which lines occur, not on their order or repetition. */
  lemma LineOrderIrrelevant(lines1: seq<string>, lines2: seq<string>)
    requires forall l :: l in lines1 <==> l in lines2
    ensures VersionOfLines(lines1) == VersionOfLines(lines2)
  {
    var r1, r2 := VersionOfLines(lines1), VersionOfLines(lines2);
    if HasVersion(lines1) {
      var m1, m2 := ParseDecimal(r1), ParseDecimal(r2);
      var l1 :| l1 in lines1 && LineVersion(l1) == Some(m1);
      var l2 :| l2 in lines2 && LineVersion(l2) == Some(m2);
      assert m1 <= m2 && m2 <= m1;
      CanonicalUnique(r1, r2);
    }
  }

  /** The same, stated on the captured output of `rpcinfo`: reordering,
      repeating or dropping repeated lines changes nothing. */
  lemma OutputLineOrderIrrelevant(lines1: seq<string>, lines2: seq<string>, stderr: string)
    requires forall l <- lines1 :: NoBreak(l)
    requires forall l :: l in lines1 <==> l in lines2
    ensures GetNfsVersion(CommandResult(0, JoinTerminated(lines1), stderr))
         == GetNfsVersion(CommandResult(0, JoinTerminated(lines2), stderr))
  {
    SplitLinesRoundTrip(lines1);
    SplitLinesRoundTrip(lines2);
    LineOrderIrrelevant(lines1, lines2);
  }

  lemma {:induction false} VersionsConcat(a: seq<string>, b: seq<string>)
    ensures Versions(a + b) == Versions(a) + Versions(b)
    decreases |a|
  {
    if |a| > 0 {
      var here := match LineVersion(a[0]) case Some(v) => [v] case None => [];
      assert (a + b)[0] == a[0];
      assert (a + b)[1..] == a[1..] + b;
      assert Versions(a + b) == here + Versions(a[1..] + b);
      VersionsConcat(a[1..], b);
    } else {
      assert a + b == b;
    }
  }

  /** A line without "ready and waiting" does not affect the result,
      wherever it is inserted. */
  lemma UnreadyLineIgnored(before: seq<string>, line: string, after: seq<string>)
    requires !Contains(line, Ready)
    ensures VersionOfLines(before + [line] + after) == VersionOfLines(before + after)
  {
    VersionsConcat(before + [line], after);
    VersionsConcat(before, [line]);
    VersionsConcat(before, after);
    assert Versions([line]) == [] by {
      assert [line][1..] == [];
    }
    assert Versions(before + [line]) == Versions(before);
    assert Versions(before + [line] + after) == Versions(before + after);
  }

  /** The same, stated on the captured output of `rpcinfo`. */
  lemma UnreadyOutputLineIgnored(before: seq<string>, line: string, after: seq<string>, stderr: string)
    requires forall l <- before + [line] + after :: NoBreak(l)
    requires !Contains(line, Ready)
    ensures GetNfsVersion(CommandResult(0, JoinTerminated(before + [line] + after), stderr))
         == GetNfsVersion(CommandResult(0, JoinTerminated(before + after), stderr))
  {
    SplitLinesRoundTrip(before + [line] + after);
    assert forall l <- before + after :: l in before + [line] + after;
    SplitLinesRoundTrip(before + after);
    UnreadyLineIgnored(before, line, after);
  }

  /** The search finds the first position where the pattern matches. */
  lemma FindVersionIs(line: string, p: nat)
    requires VersionAt(line, p)
    requires forall j: nat :: j < p ==> !VersionAt(line, j)
    ensures FindVersion(line, 0) == Some(p)
  {
  }

  /** The pattern cannot match where there is no 'v'. */
  lemma NoVersionWithoutV(line: string, p: nat)
    requires p <= |line|
    requires forall j :: 0 <= j < p ==> line[j] != 'v'
    ensures forall j: nat :: j < p ==> !VersionAt(line, j)
  {
    forall j: nat | j < p ensures !VersionAt(line, j) {
      if j + |VersionWord| <= |line| {
        assert line[j..j + |VersionWord|][0] == line[j];
      }
    }
  }

  /** A "ready and waiting" line in which the pattern first matches right
      after `prefix`, with the digit run `digits`, contributes the value of
      that run. */
  lemma LineVersionOf(prefix: string, digits: string, suffix: string)
    requires forall j: nat :: j < |prefix| ==> !VersionAt(prefix + VersionWord + digits + suffix, j)
    requires |digits| >= 1 && AllDigits(digits)
    requires suffix == [] || !IsDigit(suffix[0])
    requires Contains(prefix + VersionWord + digits + suffix, Ready)
    ensures LineVersion(prefix + VersionWord + digits + suffix) == Some(ParseDecimal(digits))
  {
    var line := prefix + VersionWord + digits + suffix;
    var p := |prefix|;
    assert FindVersion(line, 0) == Some(p) && line[p + |VersionWord|..] == digits + suffix by {
      VersionAfterPrefix(prefix, digits, suffix);
      FindVersionIs(line, p);
    }
    assert (digits + suffix)[..DigitRun(digits + suffix)] == digits by {
      DigitRunOf(digits, suffix);
      assert (digits + suffix)[..|digits|] == digits;
    }
    LineVersionAt(line, p);
  }

  /** Once the leftmost match is known, a ready line's version is the value
      of the digit run after it. */
  lemma LineVersionAt(line: string, p: nat)
    requires Contains(line, Ready)
    requires p <= |line| && FindVersion(line, 0) == Some(p)
    ensures var rest := line[p + |VersionWord|..];
            LineVersion(line) == Some(ParseDecimal(rest[..DigitRun(rest)]))
  {
  }

  /** Where the line is `prefix` + "version " + digits + `suffix`, the
      pattern matches right after `prefix`, and the text after "version " is
      the digits and the suffix. */
  lemma VersionAfterPrefix(prefix: string, digits: string, suffix: string)
    requires |digits| >= 1 && AllDigits(digits)
    ensures var line := prefix + VersionWord + digits + suffix;
            && VersionAt(line, |prefix|)
            && line[|prefix| + |VersionWord|..] == digits + suffix
  {
    var line := prefix + VersionWord + digits + suffix;
    var p := |prefix|;
    assert line == prefix + (VersionWord + (digits + suffix));
    assert line[p..] == VersionWord + (digits + suffix);
    assert line[p..][..|VersionWord|] == VersionWord;
    assert line[p + |VersionWord|..] == digits + suffix;
    assert line[p + |VersionWord|] == digits[0];
  }

  lemma DigitRunOf(digits: string, suffix: string)
    requires AllDigits(digits)
    requires suffix == [] || !IsDigit(suffix[0])
    ensures DigitRun(digits + suffix) == |digits|
  {
    if suffix == [] {
      assert digits + suffix == digits;
    } else {
      FirstWhereAfter(digits, suffix, IsNonDigit);
    }
  }

  /** The line `rpcinfo` prints for each version of a registered program. */
  function RpcinfoLine(program: string, n: nat): string {
    "program " + program + " version " + NatToString(n) + " " + Ready
  }

  /** A standard `rpcinfo` line, "program <number> version <n> ready and
      waiting", contributes exactly `n`. */
  lemma RpcinfoLineVersion(program: string, n: nat)
    requires AllDigits(program)
    ensures LineVersion(RpcinfoLine(program, n)) == Some(n)
  {
    var digits := NatToString(n);
    var prefix := "program " + program + " ";
    var line := RpcinfoLine(program, n);
    assert line == prefix + VersionWord + digits + (" " + Ready);
    assert Contains(line, Ready) by {
      ContainsIff(line, Ready);
      assert OccursAt(line, Ready, |line| - |Ready|);
    }
    forall j | 0 <= j < |prefix| ensures line[j] != 'v' {
      assert line[j] == prefix[j];
      if j < 8 {
        assert prefix[j] == "program "[j];
        assert "program "[j] in "program ";
      } else if j < 8 + |program| {
        assert prefix[j] == program[j - 8];
      }
    }
    NoVersionWithoutV(line, |prefix|);
    LineVersionOf(prefix, digits, " " + Ready);
    ParseNatToString(n);
  }

  lemma RpcinfoLineNoBreak(program: string, n: nat)
    requires AllDigits(program)
    ensures NoBreak(RpcinfoLine(program, n))
  {
    var line := RpcinfoLine(program, n);
    var digits := NatToString(n);
    var head := "program ";
    var middle := " version ";
    var tail := " " + Ready;
    forall k | 0 <= k < |head| ensures !IsLineBreak(head[k]) {
      assert head[k] in head;
    }
    forall k | 0 <= k < |middle| ensures !IsLineBreak(middle[k]) {
      assert middle[k] in middle;
    }
    forall k | 0 <= k < |tail| ensures !IsLineBreak(tail[k]) {
      assert tail[k] in tail;
    }
    assert NoBreak(program) && NoBreak(digits);
    NoBreakConcat(head, program);
    NoBreakConcat(head + program, middle);
    NoBreakConcat(head + program + middle, digits);
    NoBreakConcat(head + program + middle + digits, tail);
    assert line == head + program + middle + digits + tail;
  }

  lemma VersionsOfTwo(a: string, b: string, va: nat, vb: nat)
    requires LineVersion(a) == Some(va) && LineVersion(b) == Some(vb)
    ensures Versions([a, b]) == [va, vb]
  {
    assert [a, b][1..] == [b];
    assert Versions([b]) == [vb] by {
      assert [b][1..] == [];
    }
  }

  /** Output made of two contributing lines reports the larger of their
      versions. */
  lemma TwoLinesReport(a: string, b: string, va: nat, vb: nat)
    requires NoBreak(a) && NoBreak(b)
    requires LineVersion(a) == Some(va) && LineVersion(b) == Some(vb)
    ensures GetNfsVersion(CommandResult(0, JoinTerminated([a, b]), "")) ==
            NatToString(if va >= vb then va else vb)
  {
    assert SplitLines(JoinTerminated([a, b])) == [a, b] by {
      SplitLinesRoundTrip([a, b]);
    }
    VersionsOfTwo(a, b, va, vb);
    assert Max([va, vb]) == (if va >= vb then va else vb) by {
      assert [va, vb][1..] == [vb];
    }
  }

  /** A server announcing two versions of a program reports the higher,
      whichever line comes first. */
  lemma HigherVersionWins(program: string, low: nat, high: nat)
    requires AllDigits(program) && low <= high
    ensures var lines := [RpcinfoLine(program, low), RpcinfoLine(program, high)];
            GetNfsVersion(CommandResult(0, JoinTerminated(lines), "")) == NatToString(high)
    ensures var lines := [RpcinfoLine(program, high), RpcinfoLine(program, low)];
            GetNfsVersion(CommandResult(0, JoinTerminated(lines), "")) == NatToString(high)
  {
    var lo, hi := RpcinfoLine(program, low), RpcinfoLine(program, high);
    RpcinfoLineVersion(program, low);
    RpcinfoLineVersion(program, high);
    RpcinfoLineNoBreak(program, low);
    RpcinfoLineNoBreak(program, high);
    TwoLinesReport(lo, hi, low, high);
    TwoLinesReport(hi, lo, high, low);
  }

  /** NFS (program 100003) answering for versions 3 and 4 reports "4". */
  lemma Nfs4Example()
    ensures var lines := [RpcinfoLine("100003", 3), RpcinfoLine("100003", 4)];
            GetNfsVersion(CommandResult(0, JoinTerminated(lines), "")) == "4"
  {
    var program := "100003";
    forall k | 0 <= k < |program| ensures IsDigit(program[k]) {
      assert program[k] in program;
    }
    HigherVersionWins(program, 3, 4);
    assert NatToString(4) == "4";
  }
}
