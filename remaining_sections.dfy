/** The enumerated-section rewriter: for each of eight hard-coded audit
    sections it finds the section's header comment, scans forward to the end
    of the SQL statement that follows it, and replaces that statement by the
    CTE form built from the section's descriptor.

    The file contents are a parameter and the rewritten text a result; the
    progress messages become a list of outcomes, one per descriptor. */
module RemainingSections {
  import opened Text
  import opened CteTemplate

  /** One entry of the table of sections to fix. */
  datatype Descriptor = Descriptor(
    section: string,
    auditOption: string,
    table: string,
    column: string,
    remediation: string)

  const PrivilegeTable: string := "DBA_PRIV_AUDIT_OPTS"
  const StatementTable: string := "DBA_STMT_AUDIT_OPTS"

  /** The eight sections the rewriter knows, in the order it processes them. */
  const SectionsToFix: seq<Descriptor> := [
    Descriptor("5.15", "GRANT ANY OBJECT PRIVILEGE", PrivilegeTable, "PRIVILEGE", "AUDIT GRANT ANY OBJECT PRIVILEGE;"),
    Descriptor("5.16", "ALTER SYSTEM", StatementTable, "AUDIT_OPTION", "AUDIT ALTER SYSTEM;"),
    Descriptor("5.17", "ALTER DATABASE", StatementTable, "AUDIT_OPTION", "AUDIT ALTER DATABASE;"),
    Descriptor("5.18", "ALTER USER", StatementTable, "AUDIT_OPTION", "AUDIT ALTER USER;"),
    Descriptor("5.19", "CREATE USER", StatementTable, "AUDIT_OPTION", "AUDIT CREATE USER;"),
    Descriptor("5.20", "DROP USER", StatementTable, "AUDIT_OPTION", "AUDIT DROP USER;"),
    Descriptor("5.21", "CREATE ROLE", StatementTable, "AUDIT_OPTION", "AUDIT CREATE ROLE;"),
    Descriptor("5.22", "DROP ROLE", StatementTable, "AUDIT_OPTION", "AUDIT DROP ROLE;")
  ]

  // ---------------------------------------------------------------------
  // The replacement statement
  // ---------------------------------------------------------------------

  function Header(d: Descriptor): string
  {
    HeaderLine(d.section, d.auditOption)
  }

  predicate IsPrivilegeTable(table: string)
  {
    table == PrivilegeTable
  }

  /** The WHERE conjuncts: the template branches on the audited view only. */
  function Filters(d: Descriptor): seq<Predicate>
  {
    if IsPrivilegeTable(d.table) then PrivilegeFilters(d.auditOption)
    else StatementAuditFilters(d.auditOption)
  }

  /** The column LISTAGG lists; the descriptor's own `column` is not consulted. */
  function ListColumn(table: string): string
  {
    if IsPrivilegeTable(table) then "PRIVILEGE" else "AUDIT_OPTION"
  }

  /** The statement written in place of the old one. */
  function NewStatement(d: Descriptor): Statement
  {
    Statement(Header(d) + "\n", d.section, d.auditOption, false, ListColumn(d.table),
              d.remediation, d.table, Filters(d))
  }

  function NewSection(d: Descriptor): string
  {
    Render(NewStatement(d))
  }

  /** The new section starts with the same header line, goes straight into the
      CTE, and ends with the GROUP BY; its section and remediation cells hold
      the descriptor's text. */
  lemma NewSectionShape(d: Descriptor)
    ensures StartsWith(NewSection(d), Header(d) + "\n" + CteOpen)
    ensures EndsWith(NewSection(d), GroupBy)
    ensures Contains(NewSection(d), SectionTag(d.section))
    ensures Contains(NewSection(d), RemediationTag(d.remediation))
  {
    var st := NewStatement(d);
    RenderFrame(st);
    RenderHasSection(st);
    RenderHasRemediation(st);
  }

  /** Every filter chosen for the descriptor's view appears in the new section. */
  lemma NewSectionFilters(d: Descriptor, k: nat)
    requires k < |Filters(d)|
    ensures Contains(NewSection(d), PredicateText(Filters(d)[k]))
  {
    RenderFilters(NewStatement(d), k);
  }

  /** For the privilege view the WHERE clause tests `PRIVILEGE='<opt>'` and has
      no user, proxy or BY ACCESS conjunct; for the statement view it has all
      of those and tests `AUDIT_OPTION='<opt>'`. */
  lemma FiltersByTable(d: Descriptor)
    ensures IsPrivilegeTable(d.table) ==>
      && OptionEquals("PRIVILEGE", d.auditOption) in Filters(d)
      && UserNameIsNull !in Filters(d) && ProxyNameIsNull !in Filters(d)
      && SuccessByAccess !in Filters(d) && FailureByAccess !in Filters(d)
    ensures !IsPrivilegeTable(d.table) ==>
      && OptionEquals("AUDIT_OPTION", d.auditOption) in Filters(d)
      && UserNameIsNull in Filters(d) && ProxyNameIsNull in Filters(d)
      && SuccessByAccess in Filters(d) && FailureByAccess in Filters(d)
    ensures forall p :: p in Filters(d) && p.OptionEquals? ==> p.column == ListColumn(d.table)
    ensures VersionGate in Filters(d) && ContainerGate in Filters(d)
  {
    if IsPrivilegeTable(d.table) {
      PrivilegeFiltersShape(d.auditOption);
    } else {
      StatementAuditFiltersShape(d.auditOption);
    }
  }

  /** In the table, the column named by each descriptor is the one the
      template lists anyway, and only section 5.15 reads the privilege view. */
  lemma SectionsToFixColumns()
    ensures forall d :: d in SectionsToFix ==> d.column == ListColumn(d.table)
    ensures forall k :: 0 <= k < |SectionsToFix| ==>
      (IsPrivilegeTable(SectionsToFix[k].table) <==> k == 0)
  {
  }

  // ---------------------------------------------------------------------
  // Finding the end of the old statement
  // ---------------------------------------------------------------------

  /** How a character moves the parenthesis count. */
  function Delta(c: char): int
  {
    if c == '(' then 1 else if c == ')' then -1 else 0
  }

  /** The parenthesis count after reading `s`: opening minus closing. */
  function Depth(s: string): int
  {
    if s == [] then 0 else Depth(s[..|s| - 1]) + Delta(s[|s| - 1])
  }

  /** What the scanner tracks when it also steps over SQL string literals:
      the parenthesis count outside literals, and whether a literal is open. */
  datatype LexState = LexState(depth: int, inQuote: bool)

  function LexStep(l: LexState, c: char): LexState
  {
    if l.inQuote then
      (if c == '\'' then l.(inQuote := false) else l)
    else if c == '\'' then l.(inQuote := true)
    else l.(depth := l.depth + Delta(c))
  }

  function Lex(s: string): LexState
  {
    if s == [] then LexState(0, false) else LexStep(Lex(s[..|s| - 1]), s[|s| - 1])
  }

  /** Which end-of-statement rule a scan follows: the script's own, which
      counts parentheses everywhere, or one that skips string literals. */
  datatype Scan = AsWritten | QuoteAware

  /** The `;` at `p` ends the statement that starts at `start`. */
  predicate StopsAt(scan: Scan, content: string, start: nat, p: nat)
    requires start <= p < |content|
  {
    && content[p] == ';'
    && match scan
       case AsWritten => Depth(content[start..p]) <= 0
       case QuoteAware => !Lex(content[start..p]).inQuote && Lex(content[start..p]).depth <= 0
  }

  /** One past the first stopping `;` at or after `pos`, or -1 if there is none. */
  function EndFrom(scan: Scan, content: string, start: nat, pos: nat): (r: int)
    requires start <= pos <= |content|
    ensures r == -1 ==> forall p :: pos <= p < |content| ==> !StopsAt(scan, content, start, p)
    ensures r != -1 ==> pos < r <= |content| && StopsAt(scan, content, start, r - 1)
    ensures r != -1 ==> forall p :: pos <= p < r - 1 ==> !StopsAt(scan, content, start, p)
    decreases |content| - pos
  {
    if pos == |content| then -1
    else if StopsAt(scan, content, start, pos) then pos + 1
    else EndFrom(scan, content, start, pos + 1)
  }

  /** The end (exclusive) of the statement that starts at `start`, or -1. */
  function StatementEnd(scan: Scan, content: string, start: nat): int
    requires start <= |content|
  {
    EndFrom(scan, content, start, start)
  }

  /** A successful scan ends just after a `;` that stops it, and every
      earlier `;` of the span was inside parentheses (or, for the quote-aware
      rule, inside parentheses or a string literal); a failed scan met no
      stopping `;` at all. */
  lemma StatementEndSpec(scan: Scan, content: string, start: nat)
    requires start <= |content|
    ensures StatementEnd(scan, content, start) != -1 ==>
      && start < StatementEnd(scan, content, start) <= |content|
      && content[StatementEnd(scan, content, start) - 1] == ';'
      && StopsAt(scan, content, start, StatementEnd(scan, content, start) - 1)
    ensures forall p :: start <= p < |content| && StopsAt(scan, content, start, p) ==>
      StatementEnd(scan, content, start) != -1 && p >= StatementEnd(scan, content, start) - 1
  {
  }

  lemma DepthStep(content: string, start: nat, pos: nat)
    requires start <= pos < |content|
    ensures Depth(content[start..pos + 1]) == Depth(content[start..pos]) + Delta(content[pos])
    ensures Lex(content[start..pos + 1]) == LexStep(Lex(content[start..pos]), content[pos])
  {
    assert content[start..pos + 1][..pos - start] == content[start..pos];
  }

  /** The script's scan: count parentheses from the header on and stop at
      the first `;` met while the count is not positive. */
  method ScanStatementEnd(content: string, sectionStart: nat) returns (sectionEnd: int)
    requires sectionStart <= |content|
    ensures sectionEnd == StatementEnd(AsWritten, content, sectionStart)
  {
    var braceCount := 0;
    var pos := sectionStart;
    sectionEnd := -1;
    while pos < |content|
      invariant sectionStart <= pos <= |content|
      invariant braceCount == Depth(content[sectionStart..pos])
      invariant EndFrom(AsWritten, content, sectionStart, pos) == StatementEnd(AsWritten, content, sectionStart)
      invariant sectionEnd == -1
      decreases |content| - pos
    {
      var ch := content[pos];
      DepthStep(content, sectionStart, pos);
      if ch == '(' {
        braceCount := braceCount + 1;
      } else if ch == ')' {
        braceCount := braceCount - 1;
      } else if ch == ';' && braceCount <= 0 {
        sectionEnd := pos + 1;
        break;
      }
      pos := pos + 1;
    }
  }

  /** The same scan, stepping over `'...'` literals so that a `;` or a
      parenthesis inside one does not count. */
  method ScanStatementEndQuoted(content: string, sectionStart: nat) returns (sectionEnd: int)
    requires sectionStart <= |content|
    ensures sectionEnd == StatementEnd(QuoteAware, content, sectionStart)
  {
    var braceCount := 0;
    var inQuote := false;
    var pos := sectionStart;
    sectionEnd := -1;
    while pos < |content|
      invariant sectionStart <= pos <= |content|
      invariant LexState(braceCount, inQuote) == Lex(content[sectionStart..pos])
      invariant EndFrom(QuoteAware, content, sectionStart, pos) == StatementEnd(QuoteAware, content, sectionStart)
      invariant sectionEnd == -1
      decreases |content| - pos
    {
      var ch := content[pos];
      DepthStep(content, sectionStart, pos);
      if inQuote {
        if ch == '\'' {
          inQuote := false;
        }
      } else if ch == '\'' {
        inQuote := true;
      } else if ch == '(' {
        braceCount := braceCount + 1;
      } else if ch == ')' {
        braceCount := braceCount - 1;
      } else if ch == ';' && braceCount <= 0 {
        sectionEnd := pos + 1;
        break;
      }
      pos := pos + 1;
    }
  }

  /** The script's scan stops at a `;` inside a string literal: in `'a;';`
      it ends the span after `'a;`, inside the literal, where the quote-aware
      scan takes the whole statement. */
  lemma ScanStopsInsideLiteral()
    ensures StatementEnd(AsWritten, "'a;';", 0) == 3
    ensures Lex("'a;';"[0..2]).inQuote
    ensures StatementEnd(QuoteAware, "'a;';", 0) == 5
  {
    var s := "'a;';";
    assert s[0..0] == [];
    assert s[0..1] == "'" && "'"[..0] == [];
    assert s[0..2] == "'a" && "'a"[..1] == "'";
    assert s[0..3] == "'a;" && "'a;"[..2] == "'a";
    assert s[0..4] == "'a;'" && "'a;'"[..3] == "'a;";
    assert Depth("'") == 0;
    assert Depth("'a") == 0;
    assert Lex("'") == LexState(0, true);
    assert Lex("'a") == LexState(0, true);
    assert Lex("'a;") == LexState(0, true);
    assert Lex("'a;'") == LexState(0, false);
    assert !StopsAt(AsWritten, s, 0, 0) && !StopsAt(AsWritten, s, 0, 1);
    assert StopsAt(AsWritten, s, 0, 2);
    assert !StopsAt(QuoteAware, s, 0, 0) && !StopsAt(QuoteAware, s, 0, 1);
    assert !StopsAt(QuoteAware, s, 0, 2) && !StopsAt(QuoteAware, s, 0, 3);
    assert StopsAt(QuoteAware, s, 0, 4);
  }

  // ---------------------------------------------------------------------
  // One descriptor, and the whole table
  // ---------------------------------------------------------------------

  /** What happened to one descriptor: the messages the script prints. */
  datatype Outcome = PatternNotFound | EndNotFound | Fixed(oldSection: string)

  /** One iteration of the script's loop, for a given header and new section:
      find the header, scan to the end of its statement, replace. */
  function Step(content: string, header: string, newSection: string, scan: Scan): (string, Outcome)
  {
    var start := Find(content, header);
    if start == -1 then (content, PatternNotFound)
    else
      var end := StatementEnd(scan, content, start);
      if end == -1 then (content, EndNotFound)
      else
        StatementEndSpec(scan, content, start);
        var oldSection := content[start..end];
        (ReplaceAll(content, oldSection, newSection), Fixed(oldSection))
  }

  /** The loop body of the script once the header and the new section are built. */
  method ReplaceSection(content: string, header: string, newSection: string, scan: Scan)
    returns (result: string, outcome: Outcome)
    ensures (result, outcome) == Step(content, header, newSection, scan)
  {
    var startPos := Find(content, header);
    if startPos == -1 {
      return content, PatternNotFound;
    }
    var sectionEnd;
    if scan == AsWritten {
      sectionEnd := ScanStatementEnd(content, startPos);
    } else {
      sectionEnd := ScanStatementEndQuoted(content, startPos);
    }
    if sectionEnd == -1 {
      return content, EndNotFound;
    }
    StatementEndSpec(scan, content, startPos);
    var oldSection := content[startPos..sectionEnd];
    result := ReplaceAll(content, oldSection, newSection);
    outcome := Fixed(oldSection);
  }

  /** What the loop needs from a descriptor: the header to look for and the
      statement to put in place of the one it heads. */
  datatype Fix = Fix(header: string, newSection: string)

  function FixFor(d: Descriptor): Fix
  {
    Fix(Header(d), NewSection(d))
  }

  function Fixes(ds: seq<Descriptor>): (fixes: seq<Fix>)
    ensures |fixes| == |ds|
    ensures forall k :: 0 <= k < |ds| ==> fixes[k] == FixFor(ds[k])
  {
    seq(|ds|, k requires 0 <= k < |ds| => FixFor(ds[k]))
  }

  /** The content after the fixes have been applied in order. */
  function ApplyAll(content: string, fixes: seq<Fix>, scan: Scan): string
  {
    if fixes == [] then content
    else
      var f := fixes[|fixes| - 1];
      Step(ApplyAll(content, fixes[..|fixes| - 1], scan), f.header, f.newSection, scan).0
  }

  /** What the script reports for each fix, in order. */
  function Outcomes(content: string, fixes: seq<Fix>, scan: Scan): seq<Outcome>
  {
    if fixes == [] then []
    else
      var f := fixes[|fixes| - 1];
      Outcomes(content, fixes[..|fixes| - 1], scan)
        + [Step(ApplyAll(content, fixes[..|fixes| - 1], scan), f.header, f.newSection, scan).1]
  }

  /** One report per fix. */
  lemma {:induction false} OutcomesLength(content: string, fixes: seq<Fix>, scan: Scan)
    ensures |Outcomes(content, fixes, scan)| == |fixes|
  {
    if fixes != [] {
      OutcomesLength(content, fixes[..|fixes| - 1], scan);
    }
  }

  /** The report for the `k`-th fix is what that fix's step reports on the
      content the earlier fixes left. */
  lemma {:induction false} OutcomeAt(content: string, fixes: seq<Fix>, scan: Scan, k: nat)
    requires k < |fixes|
    ensures k < |Outcomes(content, fixes, scan)|
    ensures Outcomes(content, fixes, scan)[k]
      == Step(ApplyAll(content, fixes[..k], scan), fixes[k].header, fixes[k].newSection, scan).1
  {
    var n := |fixes| - 1;
    var init := fixes[..n];
    OutcomesLength(content, init, scan);
    assert Outcomes(content, fixes, scan) == Outcomes(content, init, scan)
      + [Step(ApplyAll(content, init, scan), fixes[n].header, fixes[n].newSection, scan).1];
    if k < n {
      OutcomeAt(content, init, scan, k);
      assert init[..k] == fixes[..k] && init[k] == fixes[k];
    } else {
      assert fixes[..k] == init;
    }
  }

  /** The script's loop over its fixes, each one working on the content the
      previous one left, collecting what happened to each. */
  method FixAll(content: string, fixes: seq<Fix>, scan: Scan) returns (result: string, outcomes: seq<Outcome>)
    ensures result == ApplyAll(content, fixes, scan)
    ensures outcomes == Outcomes(content, fixes, scan)
  {
    result := content;
    outcomes := [];
    for i := 0 to |fixes|
      invariant result == ApplyAll(content, fixes[..i], scan)
      invariant outcomes == Outcomes(content, fixes[..i], scan)
    {
      assert fixes[..i + 1][..i] == fixes[..i];
      var outcome;
      result, outcome := ReplaceSection(result, fixes[i].header, fixes[i].newSection, scan);
      outcomes := outcomes + [outcome];
    }
    assert fixes[..|fixes|] == fixes;
  }

  /** The script: the eight descriptors of its table, in order. */
  method FixCisSections(content: string, scan: Scan) returns (result: string, outcomes: seq<Outcome>)
    ensures result == ApplyAll(content, Fixes(SectionsToFix), scan)
    ensures outcomes == Outcomes(content, Fixes(SectionsToFix), scan)
  {
    var fixes := Fixes(SectionsToFix);
    result, outcomes := FixAll(content, fixes, scan);
  }

  // ---------------------------------------------------------------------
  // Properties of one step
  // ---------------------------------------------------------------------

  /** The step reports "pattern not found" exactly when the header is absent,
      and then leaves the content as it was. */
  lemma StepNotFound(content: string, header: string, newSection: string, scan: Scan)
    ensures Step(content, header, newSection, scan).1 == PatternNotFound <==> !Contains(content, header)
    ensures Step(content, header, newSection, scan).1 == PatternNotFound ==>
      Step(content, header, newSection, scan).0 == content
  {
  }

  /** The step reports "end not found" exactly when the header is present but
      no stopping `;` follows it, and then leaves the content as it was. */
  lemma StepEndNotFound(content: string, header: string, newSection: string, scan: Scan)
    ensures Step(content, header, newSection, scan).1 == EndNotFound <==>
      Contains(content, header) && StatementEnd(scan, content, Find(content, header)) == -1
    ensures Step(content, header, newSection, scan).1 == EndNotFound ==>
      Step(content, header, newSection, scan).0 == content
  {
  }

  /** When the step fixes a section, the old section is the text from the
      first occurrence of the header up to and including the stopping `;`. */
  lemma StepOldSection(content: string, header: string, newSection: string, scan: Scan)
    requires ';' !in header
    requires Step(content, header, newSection, scan).1.Fixed?
    ensures var oldSection := Step(content, header, newSection, scan).1.oldSection;
      && StartsWith(oldSection, header)
      && EndsWith(oldSection, ";")
      && OccursAt(content, oldSection, Find(content, header))
  {
    var start := Find(content, header);
    var end := StatementEnd(scan, content, start);
    StatementEndSpec(scan, content, start);
    SemicolonPastHeader(content, header, start, end - 1);
    SpanShape(content, header, start, end);
  }

  /** A `;` at or after an occurrence of a header without `;` lies past the
      header. */
  lemma SemicolonPastHeader(content: string, header: string, start: nat, p: nat)
    requires ';' !in header && OccursAt(content, header, start)
    requires start <= p < |content| && content[p] == ';'
    ensures start + |header| <= p
  {
  }

  /** A span that starts with an occurrence of the header and ends with a
      `;` starts with the header, ends with `;` and occurs where it starts. */
  lemma SpanShape(content: string, header: string, start: nat, end: nat)
    requires OccursAt(content, header, start)
    requires start + |header| < end <= |content| && content[end - 1] == ';'
    ensures StartsWith(content[start..end], header)
    ensures EndsWith(content[start..end], ";")
    ensures OccursAt(content, content[start..end], start)
  {
    var span := content[start..end];
    assert span[..|header|] == content[start..start + |header|];
    assert span[|span| - 1..] == [';'];
  }

  /** The old section's first occurrence is where its header was found: an
      earlier one would carry an earlier header. */
  lemma OldSectionFirst(content: string, header: string, oldSection: string, start: nat)
    requires StartsWith(oldSection, header)
    requires OccursAt(content, oldSection, start)
    requires Find(content, header) == start
    ensures Find(content, oldSection) == start
  {
    forall j | 0 <= j < start
      ensures !OccursAt(content, oldSection, j)
    {
      if OccursAt(content, oldSection, j) {
        assert content[j..j + |header|] == oldSection[..|header|];
        assert OccursAt(content, header, j);
      }
    }
  }

  /** After a fix the text before the old section is kept, the new section
      takes its place, and every later occurrence of the old section is
      replaced too. */
  lemma StepFixed(content: string, header: string, newSection: string, scan: Scan)
    requires ';' !in header
    requires Step(content, header, newSection, scan).1.Fixed?
    ensures var oldSection := Step(content, header, newSection, scan).1.oldSection;
      var start := Find(content, header);
      && start != -1
      && Find(content, oldSection) == start
      && Step(content, header, newSection, scan).0
         == content[..start] + newSection + ReplaceFrom(content, oldSection, newSection, start + |oldSection|)
      && Contains(Step(content, header, newSection, scan).0, newSection)
  {
    var start := Find(content, header);
    var oldSection := Step(content, header, newSection, scan).1.oldSection;
    StepOldSection(content, header, newSection, scan);
    OldSectionFirst(content, header, oldSection, start);
    ReplaceAllAtFirst(content, oldSection, newSection, start);
    ReplaceAllInserts(content, oldSection, newSection);
  }

  /** No header of the table holds a `;`, so the scan cannot stop inside one. */
  lemma SectionsToFixHeaders()
    ensures forall d :: d in SectionsToFix ==> ';' !in Header(d)
  {
    Header515();
    Headers516To518();
    Headers519To522();
    forall d | d in SectionsToFix
      ensures ';' !in Header(d)
    {
      var k :| 0 <= k < |SectionsToFix| && SectionsToFix[k] == d;
    }
  }

  /** The table check, split so that each part stays small: section 5.15. */
  lemma Header515()
    ensures ';' !in Header(SectionsToFix[0])
  {
    HeaderLineNoSemicolon(SectionsToFix[0].section, SectionsToFix[0].auditOption);
  }

  /** Sections 5.16 to 5.18. */
  lemma Headers516To518()
    ensures ';' !in Header(SectionsToFix[1]) && ';' !in Header(SectionsToFix[2])
    ensures ';' !in Header(SectionsToFix[3])
  {
    HeaderLineNoSemicolon(SectionsToFix[1].section, SectionsToFix[1].auditOption);
    HeaderLineNoSemicolon(SectionsToFix[2].section, SectionsToFix[2].auditOption);
    HeaderLineNoSemicolon(SectionsToFix[3].section, SectionsToFix[3].auditOption);
  }

  /** Sections 5.19 to 5.22. */
  lemma Headers519To522()
    ensures ';' !in Header(SectionsToFix[4]) && ';' !in Header(SectionsToFix[5])
    ensures ';' !in Header(SectionsToFix[6]) && ';' !in Header(SectionsToFix[7])
  {
    HeaderLineNoSemicolon(SectionsToFix[4].section, SectionsToFix[4].auditOption);
    HeaderLineNoSemicolon(SectionsToFix[5].section, SectionsToFix[5].auditOption);
    HeaderLineNoSemicolon(SectionsToFix[6].section, SectionsToFix[6].auditOption);
    HeaderLineNoSemicolon(SectionsToFix[7].section, SectionsToFix[7].auditOption);
  }

  /** Content holding none of the headers comes through every fix unchanged. */
  lemma {:induction false} ApplyAllNoHeaders(content: string, fixes: seq<Fix>, scan: Scan)
    requires forall f :: f in fixes ==> !Contains(content, f.header)
    ensures ApplyAll(content, fixes, scan) == content
  {
    if fixes != [] {
      ApplyAllNoHeaders(content, fixes[..|fixes| - 1], scan);
      var f := fixes[|fixes| - 1];
      StepNotFound(content, f.header, f.newSection, scan);
    }
  }
}
