/** The CTE form of a report-row statement that both rewriters emit.

    The Python scripts build it by f-string interpolation; here the same text
    is assembled from named pieces so that its structure (header comment,
    `WITH CONTAINER_INFO AS (` block, the row's cells, the FROM clause, the
    WHERE predicates and the closing `GROUP BY`) can be stated and proved.
    Every piece holds the scripts' text character for character, trailing
    blanks included. */
module CteTemplate {
  import opened Text

  /** One conjunct of the generated WHERE clause. */
  datatype Predicate =
    | UserNameIsNull
    | ProxyNameIsNull
    | SuccessByAccess
    | FailureByAccess
    | OptionEquals(column: string, option: string)
    | VersionGate
    | ContainerGate

  /** The SQL text of one conjunct. */
  function PredicateText(p: Predicate): string
  {
    match p
    case UserNameIsNull => "USER_NAME IS NULL "
    case ProxyNameIsNull => "PROXY_NAME IS NULL"
    case SuccessByAccess => "SUCCESS = 'BY ACCESS' "
    case FailureByAccess => "FAILURE = 'BY ACCESS'"
    case OptionEquals(column, option) => column + "='" + option + "'"
    case VersionGate => "TO_NUMBER(SUBSTR((SELECT VERSION FROM V$INSTANCE), 1, 2)) >= 12"
    case ContainerGate =>
      "(\n  -- Non-multitenant database\n  NOT EXISTS (SELECT 1 FROM V$DATABASE WHERE CDB = 'YES')\n  OR \n"
      + "  -- Running from PDB (not CDB$ROOT)\n  (EXISTS (SELECT 1 FROM V$DATABASE WHERE CDB = 'YES') AND \n"
      + "   (SELECT SYS_CONTEXT('USERENV', 'CON_NAME') FROM DUAL) != 'CDB$ROOT')\n)"
  }

  /** The version gate and the CDB/PDB condition every generated statement ends its WHERE clause with. */
  const CommonFilters: seq<Predicate> := [VersionGate, ContainerGate]

  /** The WHERE conjuncts for the privilege-audit view. */
  function PrivilegeFilters(option: string): seq<Predicate>
  {
    [OptionEquals("PRIVILEGE", option)] + CommonFilters
  }

  /** The WHERE conjuncts for the statement-audit view. */
  function StatementAuditFilters(option: string): seq<Predicate>
  {
    [UserNameIsNull, ProxyNameIsNull, SuccessByAccess, FailureByAccess,
     OptionEquals("AUDIT_OPTION", option)] + CommonFilters
  }

  /** The text after the quoted audit option in a section's header comment. */
  const AuditTitle: string :=
    " Audit Option" + " - Oracle 12c+" + " Non-multitenant" + " OR when running" + " from PDB"

  /** `-- 5.16 Enable 'ALTER SYSTEM' Audit Option - ...`: the comment line that
      heads each audited section, without its newline. */
  function HeaderLine(section: string, option: string): string
  {
    "-- " + (section + (" Enable '" + (option + ("'" + AuditTitle))))
  }

  /** A header line holds a `;` only if its section or option does. */
  lemma HeaderLineNoSemicolon(section: string, option: string)
    requires ';' !in section && ';' !in option
    ensures ';' !in HeaderLine(section, option)
  {
    assert ';' !in " Audit Option";
    assert ';' !in " - Oracle 12c+";
    assert ';' !in " Non-multitenant";
    assert ';' !in " OR when running";
    assert ';' !in " from PDB";
  }

  /** Everything one generated statement depends on. */
  datatype Statement = Statement(
    comment: string,           // the header comment line, ending in a newline
    section: string,           // e.g. "5.16"
    auditOption: string,       // e.g. "ALTER SYSTEM"
    spaceAfterThen: bool,      // the two scripts differ by one blank after `THEN`
    column: string,            // the column listed by LISTAGG
    remediation: string,       // the text of the remediation cell
    table: string,             // the audit view queried
    filters: seq<Predicate>)   // the WHERE conjuncts, joined by AND

  const CteOpen: string := "WITH CONTAINER_INFO AS ("

  const CteBody: string :=
    "\n  SELECT \n    CASE \n      WHEN (SELECT CDB FROM V$DATABASE) = 'YES' AND (SELECT SYS_CONTEXT('USERENV', 'CON_NAME') FROM DUAL) != 'CDB$ROOT' \n"
    + "      THEN '12c+ PDB (' || (SELECT SYS_CONTEXT('USERENV', 'CON_NAME') FROM DUAL) || ')'\n"
    + "      ELSE '12c+ Non-MT'\n    END AS container_desc\n  FROM DUAL\n)\n"

  const StatusColumn: string :=
    "SELECT '<tr class=\"' ||\n  CASE \n    WHEN COUNT(*) > 0 THEN 'pass'\n    ELSE 'fail'\n  END || '\">' ||\n"

  const ResultCell: string :=
    "  '<td>' || CASE WHEN COUNT(*) > 0 THEN 'PASS' ELSE 'FAIL' END || '</td>' ||\n"

  const GroupBy: string := "GROUP BY CI.container_desc;"

  const AndSep: string := "\nAND "

  /** `<td>5.16</td>`: the section number cell. */
  function SectionTag(section: string): string
  {
    "<td>" + section + "</td>"
  }

  function SectionCell(section: string): string
  {
    "  '" + SectionTag(section) + "' ||\n"
  }

  function TitleCell(option: string): string
  {
    "  '<td>Enable " + option + " Audit Option (Scored) - ' || CI.container_desc || '</td>' ||\n"
  }

  function DetailCell(st: Statement): string
  {
    "  '<td>' || \n    CASE WHEN COUNT(*) > 0 THEN" + (if st.spaceAfterThen then " " else "")
    + "\n      LISTAGG(" + st.column + " || ' (SUCCESS:' || SUCCESS || ', FAILURE:' || FAILURE || ')', ', ') WITHIN GROUP (ORDER BY "
    + st.column + ")\n    ELSE '" + st.auditOption + " audit not enabled'\n    END || '</td>' ||\n"
  }

  function ExpectedCell(option: string): string
  {
    "  '<td>" + option + " audit enabled (SUCCESS=BY ACCESS, FAILURE=BY ACCESS)</td>' ||\n"
  }

  /** `<td class="remediation">AUDIT ...;</td>`: the remediation cell. */
  function RemediationTag(remediation: string): string
  {
    "<td class=\"remediation\">" + remediation + "</td>"
  }

  function RemediationCell(remediation: string): string
  {
    "  '" + RemediationTag(remediation) + "' ||\n  '</tr>'\n"
  }

  function FromClause(table: string): string
  {
    "FROM " + table + ", CONTAINER_INFO CI\n"
  }

  function FilterTexts(filters: seq<Predicate>): (texts: seq<string>)
    ensures |texts| == |filters|
    ensures forall k :: 0 <= k < |filters| ==> texts[k] == PredicateText(filters[k])
  {
    seq(|filters|, k requires 0 <= k < |filters| => PredicateText(filters[k]))
  }

  function WhereClause(filters: seq<Predicate>): string
  {
    "WHERE " + Join(FilterTexts(filters), AndSep)
  }

  /** The row's cells, from the pass/fail class to the closing `</tr>`. */
  function SelectList(st: Statement): string
  {
    StatusColumn + SectionCell(st.section) + TitleCell(st.auditOption) + ResultCell
    + DetailCell(st) + ExpectedCell(st.auditOption) + RemediationCell(st.remediation)
  }

  /** The FROM and WHERE clauses and the closing GROUP BY. */
  function Tail(st: Statement): string
  {
    FromClause(st.table) + WhereClause(st.filters) + ("\n" + GroupBy)
  }

  /** The whole statement: the header comment, the CTE, the row select, and
      the aggregate over the audit view grouped by the CTE's one column. */
  function Render(st: Statement): string
  {
    st.comment + (CteOpen + (CteBody + SelectList(st) + Tail(st)))
  }

  /** The statement starts with the header comment, unchanged, immediately
      followed by the opening of the CTE, and ends with the GROUP BY. */
  lemma RenderFrame(st: Statement)
    ensures StartsWith(Render(st), st.comment + CteOpen)
    ensures EndsWith(Render(st), GroupBy)
  {
    StartsWithPair(st.comment, CteOpen, CteBody + SelectList(st) + Tail(st));
    EndsWithConcat("\n", GroupBy);
    EndsWithExtend(FromClause(st.table) + WhereClause(st.filters), "\n" + GroupBy, GroupBy);
    EndsWithExtend(CteBody + SelectList(st), Tail(st), GroupBy);
    EndsWithExtend(CteOpen, CteBody + SelectList(st) + Tail(st), GroupBy);
    EndsWithExtend(st.comment, CteOpen + (CteBody + SelectList(st) + Tail(st)), GroupBy);
  }

  /** Whatever the row select contains, the statement contains. */
  lemma SelectListInRender(st: Statement, p: string)
    requires Contains(SelectList(st), p)
    ensures Contains(Render(st), p)
  {
    ContainsSuffix(CteBody, SelectList(st), p);
    ContainsInPrefix(CteBody + SelectList(st), Tail(st), p);
    ContainsSuffix(CteOpen, CteBody + SelectList(st) + Tail(st), p);
    ContainsSuffix(st.comment, CteOpen + (CteBody + SelectList(st) + Tail(st)), p);
  }

  /** Whatever the FROM/WHERE tail contains, the statement contains. */
  lemma TailInRender(st: Statement, p: string)
    requires Contains(Tail(st), p)
    ensures Contains(Render(st), p)
  {
    ContainsSuffix(CteBody + SelectList(st), Tail(st), p);
    ContainsSuffix(CteOpen, CteBody + SelectList(st) + Tail(st), p);
    ContainsSuffix(st.comment, CteOpen + (CteBody + SelectList(st) + Tail(st)), p);
  }

  /** The section number cell appears in the statement as given. */
  lemma RenderHasSection(st: Statement)
    ensures Contains(Render(st), SectionTag(st.section))
  {
    var tag := SectionTag(st.section);
    ContainsMiddle("  '", tag, "' ||\n");
    ContainsSuffix(StatusColumn, SectionCell(st.section), tag);
    var s2 := StatusColumn + SectionCell(st.section);
    ContainsInPrefix(s2, TitleCell(st.auditOption), tag);
    var s3 := s2 + TitleCell(st.auditOption);
    ContainsInPrefix(s3, ResultCell, tag);
    var s4 := s3 + ResultCell;
    ContainsInPrefix(s4, DetailCell(st), tag);
    var s5 := s4 + DetailCell(st);
    ContainsInPrefix(s5, ExpectedCell(st.auditOption), tag);
    var s6 := s5 + ExpectedCell(st.auditOption);
    ContainsInPrefix(s6, RemediationCell(st.remediation), tag);
    SelectListInRender(st, tag);
  }

  /** The remediation cell appears in the statement as given. */
  lemma RenderHasRemediation(st: Statement)
    ensures Contains(Render(st), RemediationTag(st.remediation))
  {
    var tag := RemediationTag(st.remediation);
    ContainsMiddle("  '", tag, "' ||\n  '</tr>'\n");
    var s6 := StatusColumn + SectionCell(st.section) + TitleCell(st.auditOption) + ResultCell
      + DetailCell(st) + ExpectedCell(st.auditOption);
    ContainsSuffix(s6, RemediationCell(st.remediation), tag);
    SelectListInRender(st, tag);
  }

  /** The FROM clause and the WHERE clause appear in the statement. */
  lemma RenderHasClauses(st: Statement)
    ensures Contains(Render(st), FromClause(st.table))
    ensures Contains(Render(st), WhereClause(st.filters))
  {
    var from, where := FromClause(st.table), WhereClause(st.filters);
    ContainsPrefix(from, where);
    ContainsInPrefix(from + where, "\n" + GroupBy, from);
    TailInRender(st, from);
    ContainsPrefix(where, []);
    assert where + [] == where;
    ContainsSuffix(from, where, where);
    ContainsInPrefix(from + where, "\n" + GroupBy, where);
    TailInRender(st, where);
  }

  /** Every WHERE conjunct of the statement appears in its text. */
  lemma RenderFilters(st: Statement, k: nat)
    requires k < |st.filters|
    ensures Contains(Render(st), PredicateText(st.filters[k]))
  {
    var texts := FilterTexts(st.filters);
    JoinContains(texts, AndSep, k);
    ContainsSuffix("WHERE ", Join(texts, AndSep), texts[k]);
    RenderHasClauses(st);
    ContainsTransitive(Render(st), WhereClause(st.filters), texts[k]);
  }

  /** The privilege-audit WHERE clause tests the PRIVILEGE column and none of
      the user, proxy and BY ACCESS conjuncts of the statement-audit one. */
  lemma PrivilegeFiltersShape(option: string)
    ensures OptionEquals("PRIVILEGE", option) in PrivilegeFilters(option)
    ensures UserNameIsNull !in PrivilegeFilters(option)
    ensures ProxyNameIsNull !in PrivilegeFilters(option)
    ensures SuccessByAccess !in PrivilegeFilters(option)
    ensures FailureByAccess !in PrivilegeFilters(option)
    ensures forall p :: p in PrivilegeFilters(option) && p.OptionEquals? ==> p.column == "PRIVILEGE"
  {
  }

  /** The statement-audit WHERE clause holds the null user and proxy tests,
      both BY ACCESS tests and the AUDIT_OPTION test. */
  lemma StatementAuditFiltersShape(option: string)
    ensures UserNameIsNull in StatementAuditFilters(option)
    ensures ProxyNameIsNull in StatementAuditFilters(option)
    ensures SuccessByAccess in StatementAuditFilters(option)
    ensures FailureByAccess in StatementAuditFilters(option)
    ensures OptionEquals("AUDIT_OPTION", option) in StatementAuditFilters(option)
    ensures forall p :: p in StatementAuditFilters(option) && p.OptionEquals? ==> p.column == "AUDIT_OPTION"
  {
  }
}
