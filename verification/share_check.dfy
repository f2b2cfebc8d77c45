/**
 The share check: which of the requested exports are absent from the output
 of `showmount -e <server>`, and how the absent ones are reported.
 */
module ShareCheck {
  import opened Wrappers
  import opened Text
  import opened Command

  /** `set(line.split()[0] for line in lines)`, or None when some line has no
      token (Python raises IndexError there). */
  function TokensOf(lines: seq<string>): Option<set<string>> {
    if |lines| == 0 then Some({})
    else match FirstToken(lines[0])
      case None => None
      case Some(t) =>
        match TokensOf(lines[1..])
        case None => None
        case Some(ts) => Some({t} + ts)
  }

  /** The token set fails exactly on a blank line, and otherwise holds
      precisely the first tokens of the lines. */
  lemma {:induction false} TokensOfMeaning(lines: seq<string>)
    ensures TokensOf(lines).None? <==> exists l <- lines :: AllSpace(l)
    ensures TokensOf(lines).Some? ==>
              forall t :: t in TokensOf(lines).value <==> exists l <- lines :: FirstToken(l) == Some(t)
    decreases |lines|
  {
    if |lines| > 0 {
      TokensOfMeaning(lines[1..]);
      assert forall l :: l in lines <==> l == lines[0] || l in lines[1..];
    }
  }

  /** The lines after the header line. */
  function Body(lines: seq<string>): seq<string> {
    if |lines| == 0 then [] else lines[1..]
  }

  /** The shares `showmount` lists: the first token of every line after the
      header line. */
  function ExportedShares(lines: seq<string>): Option<set<string>> {
    TokensOf(Body(lines))
  }

  /** Blank lines after the header make the export set fail; otherwise it
      holds exactly the first tokens of those lines. */
  lemma ExportedSharesMeaning(lines: seq<string>)
    ensures ExportedShares(lines).None? <==> exists l <- Body(lines) :: AllSpace(l)
    ensures ExportedShares(lines).Some? ==>
              forall t :: t in ExportedShares(lines).value <==> exists l <- Body(lines) :: FirstToken(l) == Some(t)
  {
    TokensOfMeaning(Body(lines));
  }

  /** `set(shares.split(","))`. */
  function Requested(shares: string): set<string> {
    set p | p in SplitOnComma(shares)
  }

  /** `requested_shares - available_shares`, or None where building the
      available set raises. */
  function MissingShares(stdout: string, shares: string): Option<set<string>> {
    match ExportedShares(SplitLines(stdout))
    case None => None
    case Some(available) => Some(Requested(shares) - available)
  }

  /** The check fails exactly when a line after the header is blank; otherwise
      a requested name is missing exactly when no line after the header starts
      with that exact token. */
  lemma MissingSharesMeaning(stdout: string, shares: string)
    ensures MissingShares(stdout, shares).None? <==> exists l <- Body(SplitLines(stdout)) :: AllSpace(l)
    ensures MissingShares(stdout, shares).Some? ==>
              forall x :: x in MissingShares(stdout, shares).value <==>
                && x in SplitOnComma(shares)
                && forall l <- Body(SplitLines(stdout)) :: FirstToken(l) != Some(x)
  {
    var lines := SplitLines(stdout);
    ExportedSharesMeaning(lines);
    match ExportedShares(lines)
    case None =>
    case Some(available) =>
      assert MissingShares(stdout, shares) == Some(Requested(shares) - available);
      forall x
        ensures x in Requested(shares) - available <==>
                  && x in SplitOnComma(shares)
                  && forall l <- Body(lines) :: FirstToken(l) != Some(x)
      {
        assert x in available <==> exists l <- Body(lines) :: FirstToken(l) == Some(x);
      }
  }

  // ---------------------------------------------------------------------
  // The report of missing shares
  // ---------------------------------------------------------------------

  function Bracket(share: string): string {
    "[" + share + "]"
  }

  function Bracketed(order: seq<string>): (parts: seq<string>)
    ensures |parts| == |order|
    ensures forall k :: 0 <= k < |order| ==> parts[k] == Bracket(order[k])
  {
    seq(|order|, k requires 0 <= k < |order| => Bracket(order[k]))
  }

  /** `",".join(f"[{share}]" for share in order)`. */
  function Report(order: seq<string>): string {
    Join(Bracketed(order), ",")
  }

  /** Undoes one `[share]` wrapping. */
  function Unbracket(part: string): string {
    if |part| >= 2 && part[0] == '[' && part[|part| - 1] == ']' then part[1..|part| - 1] else part
  }

  /** Reads a report back into the list of shares it names. */
  function ReadReport(text: string): seq<string> {
    if text == "" then []
    else
      var parts := SplitOnComma(text);
      seq(|parts|, k requires 0 <= k < |parts| => Unbracket(parts[k]))
  }

  ghost predicate NoDuplicates(order: seq<string>) {
    forall i, j :: 0 <= i < j < |order| ==> order[i] != order[j]
  }

  /** `order` lists every element of `s` exactly once. */
  ghost predicate Enumerates(order: seq<string>, s: set<string>) {
    NoDuplicates(order) && forall x :: x in order <==> x in s
  }

  /** The report is empty exactly when nothing is listed. */
  lemma ReportEmptyIff(order: seq<string>)
    ensures Report(order) == "" <==> order == []
  {
    if order != [] {
      var parts := Bracketed(order);
      assert |Join(parts, ",")| >= |parts[0]|;
    }
  }

  /** Comma-free share names can be read back from the report, in order:
      every name appears once, wrapped in brackets, between commas. */
  lemma ReportRoundTrip(order: seq<string>)
    requires forall s <- order :: ',' !in s
    ensures ReadReport(Report(order)) == order
  {
    ReportEmptyIff(order);
    if order != [] {
      var parts := Bracketed(order);
      forall p <- parts ensures ',' !in p {
        var k :| 0 <= k < |parts| && parts[k] == p;
        assert order[k] in order;
        assert p == "[" + order[k] + "]";
      }
      SplitOnCommaJoin(parts);
      var read := ReadReport(Report(order));
      assert |read| == |order|;
      forall k | 0 <= k < |order| ensures read[k] == order[k] {
        assert parts[k][1..|parts[k]| - 1] == order[k];
      }
    }
  }

  lemma ReportAppend(order: seq<string>, share: string)
    requires order != []
    ensures Report(order + [share]) == Report(order) + "," + Bracket(share)
  {
    assert Bracketed(order + [share]) == Bracketed(order) + [Bracket(share)];
    JoinAppend(Bracketed(order), Bracket(share), ",");
  }

  /** The report of an enumeration of comma-free names is empty exactly when
      there is nothing to list, reads back to the enumeration, and never
      looks like an error text. */
  lemma ReportOfEnumeration(order: seq<string>, names: set<string>)
    requires Enumerates(order, names)
    requires forall x <- names :: ',' !in x
    ensures Report(order) == "" <==> names == {}
    ensures ReadReport(Report(order)) == order
    ensures !StartsWith(Report(order), ErrorPrefix)
  {
    ReportEmptyIff(order);
    if names != {} {
      var x :| x in names;
      assert x in order;
    }
    if order != [] {
      assert order[0] in names;
    }
    ReportRoundTrip(order);
    if Report(order) != "" {
      assert Report(order)[0] == '[';
    }
  }

  /** `check_nfs_share`, given what `showmount` produced. The missing shares
      are listed in the iteration order of a Python set, which is not
      specified: `order` is the order this run chose. */
  method CheckNfsShare(run: CommandResult, shares: string) returns (out: Outcome, ghost order: seq<string>)
    ensures run.Failed() ==> out == Returned(ErrorReport(run.stderr))
    ensures !run.Failed() && MissingShares(run.stdout, shares).None? ==> out == RaisedIndexError
    ensures !run.Failed() && MissingShares(run.stdout, shares).Some? ==>
              && Enumerates(order, MissingShares(run.stdout, shares).value)
              && out == Returned(Report(order))
              && (out.text == "" <==> MissingShares(run.stdout, shares).value == {})
              && ReadReport(out.text) == order
    ensures out.Returned? ==> (StartsWith(out.text, ErrorPrefix) <==> run.Failed())
  {
    order := [];
    if run.Failed() {
      return Returned(ErrorReport(run.stderr)), order;
    }
    var found := MissingShares(run.stdout, shares);
    if found.None? {
      return RaisedIndexError, order;
    }
    MissingSharesMeaning(run.stdout, shares);
    var missing := found.value;
    var rest := missing;
    var text := "";
    while rest != {}
      invariant rest <= missing
      invariant forall x :: x in order <==> x in missing && x !in rest
      invariant NoDuplicates(order)
      invariant text == Report(order)
      decreases rest
    {
      var share :| share in rest;
      ReportEmptyIff(order);
      if text == "" {
        text := Bracket(share);
      } else {
        ReportAppend(order, share);
        text := text + "," + Bracket(share);
      }
      order := order + [share];
      rest := rest - {share};
    }
    assert forall x <- missing :: ',' !in x by {
      forall x <- missing ensures ',' !in x {
        assert x in SplitOnComma(shares);
      }
    }
    ReportOfEnumeration(order, missing);
    out := Returned(text);
  }

  // ---------------------------------------------------------------------
  // Properties
  // ---------------------------------------------------------------------

  /** The header line of `showmount` output is never read as a share:
      replacing it changes nothing. */
  lemma HeaderIgnored(header1: string, header2: string, body: string, shares: string)
    requires NoBreak(header1) && NoBreak(header2)
    ensures MissingShares(header1 + "\n" + body, shares) == MissingShares(header2 + "\n" + body, shares)
  {
    SplitLinesHeader(header1, body);
    SplitLinesHeader(header2, body);
    var lines1 := SplitLines(header1 + "\n" + body);
    var lines2 := SplitLines(header2 + "\n" + body);
    assert lines1[1..] == lines2[1..];
    assert ExportedShares(lines1) == ExportedShares(lines2);
  }

  /** Naming a share twice is the same as naming it once. */
  lemma DuplicateRequestCollapses(stdout: string, share: string)
    requires ',' !in share
    ensures MissingShares(stdout, share + "," + share) == MissingShares(stdout, share)
  {
    SplitOnCommaJoin([share, share]);
    SplitOnCommaJoin([share]);
    assert Join([share, share], ",") == share + "," + share;
    assert Requested(share + "," + share) == Requested(share);
  }

  /** An empty requested name (from an empty argument or a stray comma) is
      always reported missing, since no token is empty. */
  lemma EmptyNameAlwaysMissing(stdout: string, shares: string)
    requires "" in SplitOnComma(shares)
    requires MissingShares(stdout, shares).Some?
    ensures "" in MissingShares(stdout, shares).value
  {
    MissingSharesMeaning(stdout, shares);
    var lines := SplitLines(stdout);
    forall l <- Body(lines) ensures FirstToken(l) != Some("") {
      if FirstToken(l).Some? {
        var i: nat :| TokenAt(l, i, FirstToken(l).value);
      }
    }
  }

  /** A requested name that starts with whitespace (" b" after "a, b") is
      always reported missing, since no first token starts with whitespace. */
  lemma SpacedNameAlwaysMissing(stdout: string, shares: string, x: string)
    requires x in SplitOnComma(shares) && |x| > 0 && IsSpace(x[0])
    requires MissingShares(stdout, shares).Some?
    ensures x in MissingShares(stdout, shares).value
  {
    MissingSharesMeaning(stdout, shares);
    forall l <- Body(SplitLines(stdout)) ensures FirstToken(l) != Some(x) {
      if FirstToken(l).Some? {
        var t := FirstToken(l).value;
        var i: nat :| TokenAt(l, i, t);
        assert !IsSpace(t[0]);
      }
    }
  }

  /** `showmount -e` output: a header, then one line per export with the
      export path first and its client list after a space. */
  lemma ExportsOfTwoLines(header: string, a: string, clientsA: string, b: string, clientsB: string)
    requires NoBreak(header) && NoBreak(a + " " + clientsA) && NoBreak(b + " " + clientsB)
    requires |a| > 0 && NoSpace(a) && |b| > 0 && NoSpace(b)
    ensures var lines := [header, a + " " + clientsA, b + " " + clientsB];
            ExportedShares(SplitLines(JoinTerminated(lines))) == Some({a, b})
  {
    var la, lb := a + " " + clientsA, b + " " + clientsB;
    var lines := [header, la, lb];
    assert SplitLines(JoinTerminated(lines)) == lines by {
      SplitLinesRoundTrip(lines);
    }
    TokenBeforeSpace(a, clientsA);
    TokenBeforeSpace(b, clientsB);
    assert ExportedShares(lines) == Some({a, b}) by {
      TokensOfTwo(la, lb, a, b);
      assert lines[1..] == [la, lb];
    }
  }

  lemma TokensOfTwo(l1: string, l2: string, t1: string, t2: string)
    requires FirstToken(l1) == Some(t1) && FirstToken(l2) == Some(t2)
    ensures TokensOf([l1, l2]) == Some({t1, t2})
  {
    assert [l1, l2][1..] == [l2];
    assert TokensOf([l2]) == Some({t2}) by {
      assert [l2][1..] == [];
      assert TokensOf([]) == Some({});
      assert {t2} + {} == {t2};
    }
    assert {t1} + {t2} == {t1, t2};
  }

  lemma RequestedTwo(x: string, y: string)
    requires ',' !in x && ',' !in y
    ensures Requested(x + "," + y) == {x, y}
  {
    SplitOnCommaJoin([x, y]);
    assert Join([x, y], ",") == x + "," + y;
  }

  lemma MissingGivenExports(stdout: string, exports: set<string>, shares: string)
    requires ExportedShares(SplitLines(stdout)) == Some(exports)
    ensures MissingShares(stdout, shares) == Some(Requested(shares) - exports)
  {
  }

  lemma RequestNotTrimmed(a: string, b: string)
    requires |a| > 0 && NoSpace(a) && ',' !in a && ',' !in b
    ensures Requested(a + ", " + b) - {a, b} == {" " + b}
  {
    assert Requested(a + ", " + b) == {a, " " + b} by {
      RequestedTwo(a, " " + b);
      assert a + "," + (" " + b) == a + ", " + b;
    }
    assert " " + b != a by {
      assert (" " + b)[0] == ' ';
      assert !IsSpace(a[0]);
    }
    assert " " + b != b by {
      assert |" " + b| != |b|;
    }
  }

  /** Against exports `a` and `b`: asking for `a` and some other `c`
      reports `c` alone; asking for both exports reports nothing; and the
      request is not trimmed, so " " + `b` is missing although `b` is exported. */
  lemma MissingAgainstTwoExports(header: string, a: string, clientsA: string, b: string, clientsB: string, c: string)
    requires NoBreak(header) && NoBreak(a + " " + clientsA) && NoBreak(b + " " + clientsB)
    requires |a| > 0 && NoSpace(a) && |b| > 0 && NoSpace(b)
    requires ',' !in a && ',' !in b && ',' !in c
    requires c != a && c != b
    ensures var stdout := JoinTerminated([header, a + " " + clientsA, b + " " + clientsB]);
            && MissingShares(stdout, a + "," + c) == Some({c})
            && MissingShares(stdout, a + "," + b) == Some({})
            && MissingShares(stdout, a + ", " + b) == Some({" " + b})
  {
    var stdout := JoinTerminated([header, a + " " + clientsA, b + " " + clientsB]);
    ExportsOfTwoLines(header, a, clientsA, b, clientsB);
    MissingGivenExports(stdout, {a, b}, a + "," + c);
    MissingGivenExports(stdout, {a, b}, a + "," + b);
    MissingGivenExports(stdout, {a, b}, a + ", " + b);
    RequestedTwo(a, c);
    RequestedTwo(a, b);
    RequestNotTrimmed(a, b);
    assert {a, c} - {a, b} == {c};
    assert {a, b} - {a, b} == {};
  }
}
