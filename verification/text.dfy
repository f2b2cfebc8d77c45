/**
 The string operations the checks rely on, modelled on Python's `str`:
 `splitlines()`, argument-less `split()` (only its first token is used),
 `split(",")`, `sep.join(...)` and the substring test `sub in s`.
 Strings are sequences of Unicode scalar values (`char`).
 */
module Text {
  import opened Wrappers

  /** The line boundaries `str.splitlines` recognises:
      \n \v \f \r (and \r\n), \x1c \x1d \x1e, \x85, U+2028, U+2029. */
  predicate IsLineBreak(c: char) {
    var n := c as int;
    (0x0A <= n <= 0x0D) || (0x1C <= n <= 0x1E) || n == 0x85 || n == 0x2028 || n == 0x2029
  }

  /** The characters `str.isspace` accepts, which argument-less `str.split` splits on. */
  predicate IsSpace(c: char) {
    var n := c as int;
    || (0x09 <= n <= 0x0D)
    || (0x1C <= n <= 0x20)
    || n == 0x85 || n == 0xA0 || n == 0x1680
    || (0x2000 <= n <= 0x200A)
    || n == 0x2028 || n == 0x2029 || n == 0x202F || n == 0x205F || n == 0x3000
  }

  predicate IsNonSpace(c: char) { !IsSpace(c) }

  predicate IsComma(c: char) { c == ',' }

  predicate NoBreak(s: string) {
    forall k :: 0 <= k < |s| ==> !IsLineBreak(s[k])
  }

  predicate AllSpace(s: string) {
    forall k :: 0 <= k < |s| ==> IsSpace(s[k])
  }

  predicate NoSpace(s: string) {
    forall k :: 0 <= k < |s| ==> !IsSpace(s[k])
  }

  lemma NoBreakConcat(a: string, b: string)
    ensures NoBreak(a + b) <==> NoBreak(a) && NoBreak(b)
  {
    if NoBreak(a) && NoBreak(b) {
      forall k | 0 <= k < |a + b| ensures !IsLineBreak((a + b)[k]) {
        if k >= |a| {
          assert (a + b)[k] == b[k - |a|];
        }
      }
    }
    if NoBreak(a + b) {
      forall k | 0 <= k < |a| ensures !IsLineBreak(a[k]) {
        assert (a + b)[k] == a[k];
      }
      forall k | 0 <= k < |b| ensures !IsLineBreak(b[k]) {
        assert (a + b)[|a| + k] == b[k];
      }
    }
  }

  /** Index of the first character satisfying `p`, or `|s|` when there is none. */
  function FirstWhere(s: string, p: char -> bool): (i: nat)
    ensures i <= |s|
    ensures forall j :: 0 <= j < i ==> !p(s[j])
    ensures i < |s| ==> p(s[i])
  {
    if |s| == 0 then 0
    else if p(s[0]) then 0
    else 1 + FirstWhere(s[1..], p)
  }

  /** The first `p`-character of `a + b` is the head of `b` when `a` holds none. */
  lemma FirstWhereAfter(a: string, b: string, p: char -> bool)
    requires forall j :: 0 <= j < |a| ==> !p(a[j])
    requires |b| > 0 && p(b[0])
    ensures FirstWhere(a + b, p) == |a|
  {
    assert (a + b)[|a|] == b[0];
  }

  // ---------------------------------------------------------------------
  // str.splitlines()
  // ---------------------------------------------------------------------

  /** `s.splitlines()`: the text between line boundaries, a "\r\n" pair
      counting as one boundary; a final boundary does not open an empty line. */
  function SplitLines(s: string): (lines: seq<string>)
    ensures forall l <- lines :: NoBreak(l)
    ensures lines == [] <==> s == []
    decreases |s|
  {
    if |s| == 0 then []
    else
      var i := FirstWhere(s, IsLineBreak);
      if i == |s| then [s]
      else
        var next := if s[i] == '\r' && i + 1 < |s| && s[i + 1] == '\n' then i + 2 else i + 1;
        [s[..i]] + SplitLines(s[next..])
  }

  /** A first line followed by "\n" splits off from whatever comes after. */
  lemma SplitLinesHeader(header: string, rest: string)
    requires NoBreak(header)
    ensures SplitLines(header + "\n" + rest) == [header] + SplitLines(rest)
  {
    var s := header + "\n" + rest;
    assert s == header + ("\n" + rest);
    FirstWhereAfter(header, "\n" + rest, IsLineBreak);
    assert s[|header|] == '\n';
    assert s[..|header|] == header;
    assert s[|header| + 1..] == rest;
  }

  /** Every line followed by "\n": the shape of a tool's captured output. */
  function JoinTerminated(lines: seq<string>): string {
    if |lines| == 0 then "" else lines[0] + "\n" + JoinTerminated(lines[1..])
  }

  /** Lines written out with "\n" terminators split back into exactly those
      lines, whatever text follows them. */
  lemma {:induction false} SplitLinesAfter(lines: seq<string>, rest: string)
    requires forall l <- lines :: NoBreak(l)
    ensures SplitLines(JoinTerminated(lines) + rest) == lines + SplitLines(rest)
    decreases |lines|, 1
  {
    if |lines| > 0 {
      SplitLinesAfterStep(lines, rest);
    } else {
      assert lines == [];
      SplitLinesAfterNone(rest);
    }
  }

  /** The base case of SplitLinesAfter: no lines written, nothing split off. */
  lemma SplitLinesAfterNone(rest: string)
    ensures SplitLines(JoinTerminated([]) + rest) == [] + SplitLines(rest)
  {
    assert JoinTerminated([]) + rest == rest;
    EmptyAppend(SplitLines(rest));
  }

  lemma EmptyAppend<T>(s: seq<T>)
    ensures [] + s == s
  {
  }

  /** The inductive step of SplitLinesAfter: the first line splits off, and
      the induction hypothesis handles the others. */
  lemma {:induction false} SplitLinesAfterStep(lines: seq<string>, rest: string)
    requires |lines| > 0
    requires forall l <- lines :: NoBreak(l)
    ensures SplitLines(JoinTerminated(lines) + rest) == lines + SplitLines(rest)
    decreases |lines|, 0
  {
    var l := lines[0];
    var tail := JoinTerminated(lines[1..]) + rest;
    assert NoBreak(l) by { assert l in lines; }
    calc {
      SplitLines(JoinTerminated(lines) + rest);
      SplitLines((l + "\n" + JoinTerminated(lines[1..])) + rest);
      { AppendAssoc(l + "\n", JoinTerminated(lines[1..]), rest); }
      SplitLines(l + "\n" + tail);
      { SplitLinesHeader(l, tail); }
      [l] + SplitLines(tail);
      { SplitLinesAfter(lines[1..], rest); }
      [l] + (lines[1..] + SplitLines(rest));
      { ConsAppend(lines, SplitLines(rest)); }
      lines + SplitLines(rest);
    }
  }

  lemma AppendAssoc<T>(a: seq<T>, b: seq<T>, c: seq<T>)
    ensures (a + b) + c == a + (b + c)
  {
  }

  lemma ConsAppend<T>(xs: seq<T>, ys: seq<T>)
    requires |xs| > 0
    ensures [xs[0]] + (xs[1..] + ys) == xs + ys
  {
    assert xs == [xs[0]] + xs[1..];
  }

  /** `splitlines` inverts writing lines out with "\n" terminators. */
  lemma SplitLinesRoundTrip(lines: seq<string>)
    requires forall l <- lines :: NoBreak(l)
    ensures SplitLines(JoinTerminated(lines)) == lines
  {
    SplitLinesAfter(lines, "");
    assert JoinTerminated(lines) + "" == JoinTerminated(lines);
  }

  // ---------------------------------------------------------------------
  // sub in s
  // ---------------------------------------------------------------------

  predicate OccursAt(s: string, sub: string, i: nat) {
    i + |sub| <= |s| && s[i..i + |sub|] == sub
  }

  /** Python's `sub in s`, searching from the left. */
  predicate Contains(s: string, sub: string)
    decreases |s|
  {
    |sub| <= |s| && (s[..|sub|] == sub || Contains(s[1..], sub))
  }

  /** `sub in s` holds exactly when `sub` occurs at some position of `s`. */
  lemma {:induction false} ContainsIff(s: string, sub: string)
    ensures Contains(s, sub) <==> exists i: nat :: OccursAt(s, sub, i)
    decreases |s|
  {
    if |sub| <= |s| && s[..|sub|] != sub {
      ContainsIff(s[1..], sub);
      if exists i: nat :: OccursAt(s[1..], sub, i) {
        var i: nat :| OccursAt(s[1..], sub, i);
        assert s[i + 1..i + 1 + |sub|] == s[1..][i..i + |sub|];
        assert OccursAt(s, sub, i + 1);
      }
      if exists i: nat :: OccursAt(s, sub, i) {
        var i: nat :| OccursAt(s, sub, i);
        assert i != 0;
        assert s[1..][i - 1..i - 1 + |sub|] == s[i..i + |sub|];
        assert OccursAt(s[1..], sub, i - 1);
      }
    } else if |sub| <= |s| {
      assert OccursAt(s, sub, 0);
    }
  }

  // ---------------------------------------------------------------------
  // str.split() — the first token only
  // ---------------------------------------------------------------------

  /** `w` is the first whitespace-delimited token of `line`, starting at `i`. */
  predicate TokenAt(line: string, i: nat, w: string) {
    && i + |w| <= |line|
    && AllSpace(line[..i])
    && line[i..i + |w|] == w
    && |w| > 0 && NoSpace(w)
    && (i + |w| == |line| || IsSpace(line[i + |w|]))
  }

  /** `line.split()[0]`, or None where Python raises IndexError because the
      line is empty or all whitespace. */
  function FirstToken(line: string): (t: Option<string>)
    ensures t.None? <==> AllSpace(line)
    ensures t.Some? ==> exists i: nat :: TokenAt(line, i, t.value)
  {
    var i := FirstWhere(line, IsNonSpace);
    if i == |line| then None
    else
      var n := FirstWhere(line[i..], IsSpace);
      assert n > 0;
      assert TokenAt(line, i, line[i..i + n]);
      Some(line[i..i + n])
  }

  /** Leading whitespace, a token and then whitespace or the end of the
      line: the token is what `split()[0]` returns. */
  lemma FirstTokenOf(ws: string, w: string, rest: string)
    requires AllSpace(ws) && |w| > 0 && NoSpace(w)
    requires rest == [] || IsSpace(rest[0])
    ensures FirstToken(ws + w + rest) == Some(w)
  {
    var line := ws + w + rest;
    assert line == ws + (w + rest);
    FirstWhereAfter(ws, w + rest, IsNonSpace);
    var i := |ws|;
    assert line[i..] == w + rest;
    if rest == [] {
      assert FirstWhere(w + rest, IsSpace) == |w|;
    } else {
      FirstWhereAfter(w, rest, IsSpace);
    }
    assert line[i..i + |w|] == w;
  }

  /** A token followed by a space is the first token. */
  lemma TokenBeforeSpace(w: string, rest: string)
    requires |w| > 0 && NoSpace(w)
    ensures FirstToken(w + " " + rest) == Some(w)
  {
    FirstTokenOf("", w, " " + rest);
    assert "" + w + (" " + rest) == w + " " + rest;
  }

  // ---------------------------------------------------------------------
  // str.split(",") and sep.join(...)
  // ---------------------------------------------------------------------

  /** `s.split(",")`: the text between commas, empty pieces included. */
  function SplitOnComma(s: string): (parts: seq<string>)
    ensures |parts| >= 1
    ensures forall p <- parts :: ',' !in p
    decreases |s|
  {
    var i := FirstWhere(s, IsComma);
    if i == |s| then [s] else [s[..i]] + SplitOnComma(s[i + 1..])
  }

  /** `sep.join(parts)`. */
  function Join(parts: seq<string>, sep: string): string {
    if |parts| == 0 then ""
    else if |parts| == 1 then parts[0]
    else parts[0] + sep + Join(parts[1..], sep)
  }

  lemma {:induction false} JoinAppend(parts: seq<string>, x: string, sep: string)
    requires |parts| >= 1
    ensures Join(parts + [x], sep) == Join(parts, sep) + sep + x
    decreases |parts|
  {
    if |parts| > 1 {
      JoinAppend(parts[1..], x, sep);
      assert (parts + [x])[1..] == parts[1..] + [x];
    }
  }

  /** Splitting on commas loses nothing: joining the pieces restores the text. */
  lemma {:induction false} JoinSplitOnComma(s: string)
    ensures Join(SplitOnComma(s), ",") == s
    decreases |s|
  {
    var i := FirstWhere(s, IsComma);
    if i < |s| {
      var rest := s[i + 1..];
      calc {
        Join(SplitOnComma(s), ",");
        Join([s[..i]] + SplitOnComma(rest), ",");
        { JoinCons(s[..i], SplitOnComma(rest), ","); }
        s[..i] + "," + Join(SplitOnComma(rest), ",");
        { JoinSplitOnComma(rest); }
        s[..i] + "," + rest;
        { assert s == s[..i] + [s[i]] + s[i + 1..]; }
        s;
      }
    }
  }

  lemma JoinCons(x: string, parts: seq<string>, sep: string)
    requires |parts| >= 1
    ensures Join([x] + parts, sep) == x + sep + Join(parts, sep)
  {
    assert ([x] + parts)[1..] == parts;
  }

  /** A comma-free first piece splits off at the comma after it. */
  lemma SplitOnCommaHead(p: string, tail: string)
    requires ',' !in p
    ensures SplitOnComma(p + "," + tail) == [p] + SplitOnComma(tail)
  {
    var s := p + "," + tail;
    forall j | 0 <= j < |p| ensures !IsComma(p[j]) {
      assert p[j] in p;
    }
    assert s == p + ("," + tail);
    FirstWhereAfter(p, "," + tail, IsComma);
    assert s[..|p|] == p;
    assert s[|p| + 1..] == tail;
  }

  /** Comma-free pieces joined with "," split back into exactly those pieces. */
  lemma {:induction false} SplitOnCommaJoin(parts: seq<string>)
    requires |parts| >= 1
    requires forall p <- parts :: ',' !in p
    ensures SplitOnComma(Join(parts, ",")) == parts
    decreases |parts|
  {
    var p := parts[0];
    assert ',' !in p by { assert p in parts; }
    if |parts| == 1 {
      forall j | 0 <= j < |p| ensures !IsComma(p[j]) {
        assert p[j] in p;
      }
      assert FirstWhere(p, IsComma) == |p|;
    } else {
      var tail := Join(parts[1..], ",");
      calc {
        SplitOnComma(Join(parts, ","));
        SplitOnComma(p + "," + tail);
        { SplitOnCommaHead(p, tail); }
        [p] + SplitOnComma(tail);
        { SplitOnCommaJoin(parts[1..]); }
        [p] + parts[1..];
        parts;
      }
    }
  }
}
