/** The pattern-based rewriter: every statement of the old shape (a section
    header comment followed by a row select over the statement-audit view
    that mixes `COUNT(*)` with container subqueries) is replaced by the CTE
    form, built from the section number and the audit option read back from
    the header. Text between matches is copied as it is. */
module Ora937 {
  import opened Text
  import opened CteTemplate
  import opened Matcher

  // ---------------------------------------------------------------------
  // The patterns
  // ---------------------------------------------------------------------

  /** Group 1 of the statement pattern: the header comment line. */
  const HeaderPattern: seq<Segment> := [
    Lit("-- "), Lit("5."), Field(Digit, " Enable '"), Field(NotChar('\''), "'" + AuditTitle + "\n")
  ]

  /** The body of the old statement, up to and including its closing `);`.
      Each stop is written with the character that blocks its field's run
      at the head of a piece of its own (see `BodyPatternBlocked`). */
  const BodyPattern: seq<Segment> := [
    Lit("SELECT '<tr class=\"' ||\n"),
    Lit("  CASE \n    WHEN COUNT(*) > 0 THEN 'pass'\n    ELSE 'fail'\n  END || '\">' ||\n  '<td>5."),
    Field(Digit, "</td>' ||\n  '<td>Enable "),
    Field(NotChar('<'),
      " Audit Option (Scored) - ' || \n    CASE \n"
      + "      WHEN (SELECT CDB FROM V$DATABASE) = 'YES' AND (SELECT SYS_CONTEXT('USERENV', 'CON_NAME') FROM DUAL) != 'CDB$ROOT' \n"
      + "      THEN '12c+ PDB (' || (SELECT SYS_CONTEXT('USERENV', 'CON_NAME') FROM DUAL) || ')'\n"
      + "      ELSE '12c+ Non-MT'\n    END || '" + "</td>' ||\n"
      + "  '<td>' || CASE WHEN COUNT(*) > 0 THEN 'PASS' ELSE 'FAIL' END || '</td>' ||\n"
      + "  '<td>' || \n    CASE WHEN COUNT(*) > 0 THEN \n"
      + "      LISTAGG(AUDIT_OPTION || ' (SUCCESS:' || SUCCESS || ', FAILURE:' || FAILURE || ')', ', ') WITHIN GROUP (ORDER BY AUDIT_OPTION)\n"
      + "    ELSE '"),
    Field(NotChar('\''), "audit not enabled" + "'\n    END || '</td>' ||\n  '<td>"),
    Field(NotChar('<'),
      "audit enabled (SUCCESS=BY ACCESS, FAILURE=BY ACCESS)" + "</td>' ||\n"
      + "  '<td class=\"remediation\">AUDIT "),
    Field(NotChar(';'),
      ";" + "</td>' ||\n  '</tr>'\nFROM DBA_STMT_AUDIT_OPTS\n"
      + "WHERE USER_NAME IS NULL \nAND PROXY_NAME IS NULL\nAND SUCCESS = 'BY ACCESS' \n"
      + "AND FAILURE = 'BY ACCESS'\nAND AUDIT_OPTION='"),
    Field(NotChar('\''),
      "'" + "\nAND TO_NUMBER(SUBSTR((SELECT VERSION FROM V$INSTANCE), 1, 2)) >= 12\nAND (\n"
      + "  -- Non-multitenant database\n  NOT EXISTS (SELECT 1 FROM V$DATABASE WHERE CDB = 'YES')\n  OR \n"
      + "  -- Running from PDB (not CDB$ROOT)\n  (EXISTS (SELECT 1 FROM V$DATABASE WHERE CDB = 'YES') AND \n"
      + "   (SELECT SYS_CONTEXT('USERENV', 'CON_NAME') FROM DUAL) != 'CDB$ROOT')\n);")
  ]

  /** The pattern the callback searches the header with: `-- (5\.\d+) Enable '([^']+)'`. */
  const ParsePattern: seq<Segment> := [
    Lit("-- "), Lit("5."), Field(Digit, " Enable '"), Field(NotChar('\''), "'")
  ]

  /** What a pattern of two literals and two fields stands for. */
  lemma TwoFields(a: string, b: string, c1: CharClass, s1: string, c2: CharClass, s2: string, caps: seq<string>)
    requires Fits([Lit(a), Lit(b), Field(c1, s1), Field(c2, s2)], caps)
    ensures |caps| == 2
    ensures |caps[0]| > 0 && AllIn(c1, caps[0]) && |caps[1]| > 0 && AllIn(c2, caps[1])
    ensures Instantiate([Lit(a), Lit(b), Field(c1, s1), Field(c2, s2)], caps)
         == a + (b + (caps[0] + (s1 + (caps[1] + (s2 + "")))))
  {
    var pat := [Lit(a), Lit(b), Field(c1, s1), Field(c2, s2)];
    var p1, p2, p3 := pat[1..], pat[2..], pat[3..];
    assert p1 == [Lit(b), Field(c1, s1), Field(c2, s2)] && p1[1..] == p2;
    assert p2 == [Field(c1, s1), Field(c2, s2)] && p2[1..] == p3;
    assert p3 == [Field(c2, s2)] && p3[1..] == [];
    assert Fits(p1, caps);
    assert Fits(p2, caps);
    assert Fits(p3, caps[1..]);
    assert Fits([], caps[1..][1..]);
    assert Instantiate(p3, caps[1..]) == caps[1] + (s2 + "");
    assert Instantiate(p2, caps) == caps[0] + (s1 + (caps[1] + (s2 + "")));
  }

  lemma HeaderPatternSeparable()
    ensures Separable(HeaderPattern)
  {
    var p1, p2, p3 := HeaderPattern[1..], HeaderPattern[2..], HeaderPattern[3..];
    assert p1[1..] == p2 && p2[1..] == p3 && p3[1..] == [];
    assert ("'" + AuditTitle + "\n")[0] == '\'';
    assert Separable(p3);
    assert Separable(p2);
  }

  lemma ParsePatternSeparable()
    ensures Separable(ParsePattern)
  {
    var p1, p2, p3 := ParsePattern[1..], ParsePattern[2..], ParsePattern[3..];
    assert p1[1..] == p2 && p2[1..] == p3 && p3[1..] == [];
    assert Separable(p3);
    assert Separable(p2);
  }

  // ---------------------------------------------------------------------
  // Reading the header back
  // ---------------------------------------------------------------------

  /** `5.` followed by one or more ASCII digits. */
  predicate IsSectionNumber(x: string)
  {
    |x| > 2 && x[..2] == "5." && AllIn(Digit, x[2..])
  }

  /** The two groups the callback reads from the header. */
  datatype HeaderFields = HeaderFields(section: string, auditOption: string)

  /** Text of the class `[^']` holds no quote. */
  lemma NoQuote(x: string)
    requires AllIn(NotChar('\''), x)
    ensures '\'' !in x
  {
    forall k | 0 <= k < |x|
      ensures x[k] != '\''
    {
      assert InClass(NotChar('\''), x[k]);
    }
  }

  /** The groups of a match of the header search pattern: group 1 is `5.`
      with the digits of the first field, group 2 the second field. */
  function FieldsOf(caps: seq<string>): (r: HeaderFields)
    requires Fits(ParsePattern, caps)
    ensures IsSectionNumber(r.section)
    ensures |r.auditOption| > 0 && '\'' !in r.auditOption
  {
    TwoFields("-- ", "5.", Digit, " Enable '", NotChar('\''), "'", caps);
    assert ("5." + caps[0])[..2] == "5." && ("5." + caps[0])[2..] == caps[0];
    NoQuote(caps[1]);
    HeaderFields("5." + caps[0], caps[1])
  }

  /** The callback's `re.search` of the header: the groups of the leftmost
      match, when there is one. */
  function ParseHeader(comment: string): (r: Option<HeaderFields>)
    ensures r.Some? ==> IsSectionNumber(r.value.section)
    ensures r.Some? ==> |r.value.auditOption| > 0 && '\'' !in r.value.auditOption
  {
    var m := Search(comment, 0, ParsePattern);
    if m.None? then None else Some(FieldsOf(m.value.caps))
  }

  /** The search pattern with a section's digits and an option filled in. */
  lemma ParseInstance(digits: string, option: string)
    requires |digits| > 0 && AllIn(Digit, digits) && |option| > 0 && AllIn(NotChar('\''), option)
    ensures Fits(ParsePattern, [digits, option])
    ensures Instantiate(ParsePattern, [digits, option])
         == "-- " + ("5." + (digits + (" Enable '" + (option + ("'" + "")))))
  {
    ParseFits(digits, option);
    TwoFields("-- ", "5.", Digit, " Enable '", NotChar('\''), "'", [digits, option]);
  }

  lemma ParseFits(digits: string, option: string)
    requires |digits| > 0 && AllIn(Digit, digits) && |option| > 0 && AllIn(NotChar('\''), option)
    ensures Fits(ParsePattern, [digits, option])
  {
    var caps := [digits, option];
    var p1, p2, p3 := ParsePattern[1..], ParsePattern[2..], ParsePattern[3..];
    assert p1[1..] == p2 && p2[1..] == p3 && p3[1..] == [];
    assert caps[1..] == [option] && caps[1..][1..] == [];
    assert Fits(p3, caps[1..]);
    assert Fits(p2, caps);
    assert Fits(p1, caps);
  }

  /** A comment that starts with the filled-in search pattern is parsed
      into the section number and option filled in. */
  lemma ParseHeaderAt(text: string, digits: string, option: string)
    requires |digits| > 0 && AllIn(Digit, digits) && |option| > 0 && AllIn(NotChar('\''), option)
    requires Fits(ParsePattern, [digits, option])
    requires OccursAt(text, Instantiate(ParsePattern, [digits, option]), 0)
    ensures ParseHeader(text) == Some(HeaderFields("5." + digits, option))
  {
    ParsePatternSeparable();
    SeparableBlocked(ParsePattern);
    BlockedUnambiguous(ParsePattern, [digits, option]);
    MatchInstantiate(text, 0, ParsePattern, [digits, option]);
    assert Search(text, 0, ParsePattern) == MatchAt(text, 0, ParsePattern);
  }

  /** Round trip: the header built from a section number and an option that
      holds no quote is parsed back into those two, whatever follows it. */
  lemma ParseHeaderLine(section: string, option: string, rest: string)
    requires IsSectionNumber(section) && |option| > 0 && '\'' !in option
    ensures ParseHeader(HeaderLine(section, option) + rest) == Some(HeaderFields(section, option))
  {
    var digits := section[2..];
    assert section == "5." + digits by {
      assert section == section[..2] + section[2..];
    }
    assert AllIn(NotChar('\''), option);
    ParseInstance(digits, option);
    HeaderLineStarts(digits, option, rest);
    ParseHeaderAt(HeaderLine(section, option) + rest, digits, option);
  }

  /** A header line opens with the filled-in search pattern. */
  lemma HeaderLineStarts(digits: string, option: string, rest: string)
    ensures OccursAt(HeaderLine("5." + digits, option) + rest,
                     "-- " + ("5." + (digits + (" Enable '" + (option + ("'" + ""))))), 0)
  {
    NestedPrefix("-- ", "5.", digits, " Enable '", option, "'", AuditTitle, rest);
  }

  /** The text of six pieces followed by more opens with the six pieces,
      however they are grouped. */
  lemma NestedPrefix(a: string, b1: string, b2: string, c: string, d: string, e: string, f: string, rest: string)
    ensures OccursAt(a + ((b1 + b2) + (c + (d + (e + f)))) + rest,
                     a + (b1 + (b2 + (c + (d + (e + ""))))), 0)
  {
    var u := a + b1 + b2 + c + d + e;
    assert a + ((b1 + b2) + (c + (d + (e + f)))) + rest == u + (f + rest);
    assert a + (b1 + (b2 + (c + (d + (e + ""))))) == u;
    assert (u + (f + rest))[0..|u|] == u;
  }

  // ---------------------------------------------------------------------
  // Matching old statements
  // ---------------------------------------------------------------------

  /** The statement pattern: group 1 (the header) followed by the body. */
  datatype StatementPattern = StatementPattern(header: seq<Segment>, body: seq<Segment>)

  const OldStatement: StatementPattern := StatementPattern(HeaderPattern, BodyPattern)

  /** A pattern whose first segment is literal text starting with `c`. */
  predicate OpensWith(pat: seq<Segment>, c: char)
  {
    |pat| > 0 && pat[0].Lit? && |pat[0].text| > 0 && pat[0].text[0] == c
  }

  /** The old statement: the header pattern, then a body that opens with
      `SELECT`. */
  lemma OldStatementShape()
    ensures OldStatement.header == HeaderPattern && OpensWith(OldStatement.body, 'S')
  {
  }

  /** A match: the whole old statement (group 0) and its header (group 1). */
  datatype Match = Match(whole: string, comment: string)

  /** The statement pattern matched at position `i` of `s`. */
  function MatchStatementAt(p: StatementPattern, s: string, i: nat): (r: Option<Match>)
    requires i <= |s| && OpensWith(p.header, '-')
  {
    var h := MatchAt(s, i, p.header);
    if h.None? then None
    else
      var b := MatchAt(s, h.value.end, p.body);
      if b.None? then None
      else
        Some(Match(s[i..b.value.end], s[i..h.value.end]))
  }

  lemma MatchStatementBounds(p: StatementPattern, s: string, i: nat)
    requires i <= |s| && OpensWith(p.header, '-') && MatchStatementAt(p, s, i).Some?
    ensures 0 < |MatchStatementAt(p, s, i).value.comment| <= |MatchStatementAt(p, s, i).value.whole| <= |s| - i
  {
    MatchPastLit(s, i, p.header);
  }

  /** Group 0 is the text the statement takes up from `i` on, and group 1
      the header at its start. */
  lemma MatchStatementText(p: StatementPattern, s: string, i: nat)
    requires i <= |s| && OpensWith(p.header, '-') && MatchStatementAt(p, s, i).Some?
    ensures var m := MatchStatementAt(p, s, i).value;
      && OccursAt(s, m.whole, i) && OccursAt(s, m.comment, i)
      && m.comment == m.whole[..|m.comment|]
  {
    var h := MatchAt(s, i, p.header).value.end;
    var b := MatchAt(s, h, p.body).value.end;
    assert i <= h <= b <= |s|;
    assert s[i..b][..h - i] == s[i..h];
  }

  /** The header pattern with its fields filled in is the header line for
      section `5.<digits>` and that option, with its line break. */
  lemma HeaderInstance(caps: seq<string>)
    requires Fits(HeaderPattern, caps)
    ensures |caps| == 2 && IsSectionNumber("5." + caps[0])
    ensures |caps[1]| > 0 && '\'' !in caps[1]
    ensures Instantiate(HeaderPattern, caps) == HeaderLine("5." + caps[0], caps[1]) + "\n"
  {
    TwoFields("-- ", "5.", Digit, " Enable '", NotChar('\''), "'" + AuditTitle + "\n", caps);
    SectionOf(caps[0]);
    NoQuote(caps[1]);
    HeaderRegroup("-- ", "5.", caps[0], " Enable '", caps[1], "'" + AuditTitle, "\n");
  }

  /** `5.` followed by a non-empty run of digits is a section number. */
  lemma SectionOf(digits: string)
    requires |digits| > 0 && AllIn(Digit, digits)
    ensures IsSectionNumber("5." + digits)
  {
    assert ("5." + digits)[..2] == "5." && ("5." + digits)[2..] == digits;
  }

  /** The header pattern's concatenation, regrouped as a header line. */
  lemma HeaderRegroup(a: string, b: string, d: string, e: string, f: string, g: string, h: string)
    ensures a + (b + (d + (e + (f + ((g + h) + ""))))) == a + ((b + d) + (e + (f + g))) + h
  {
  }

  /** Group 1 of a statement match is, on its own, matched in full by the
      header pattern, with the same fields. */
  lemma StatementHeader(p: StatementPattern, s: string, i: nat)
    requires Separable(p.header) && OpensWith(p.header, '-')
    requires i <= |s| && MatchStatementAt(p, s, i).Some?
    ensures var c := MatchStatementAt(p, s, i).value.comment;
      MatchAt(c, 0, p.header) == Some(Hit(|c|, MatchAt(s, i, p.header).value.caps))
  {
    var h := MatchAt(s, i, p.header).value;
    var c := s[i..h.end];
    assert c[0..|c|] == c;
    MatchElsewhere(s, i, p.header, c, 0);
  }

  /** A text the header pattern matches in full is a header line for the
      section number and option found in it, and the callback's search
      reads those back. */
  lemma WholeHeader(comment: string)
    requires MatchAt(comment, 0, HeaderPattern).Some?
    requires MatchAt(comment, 0, HeaderPattern).value.end == |comment|
    ensures ParseHeader(comment).Some?
    ensures comment == HeaderLine(ParseHeader(comment).value.section, ParseHeader(comment).value.auditOption) + "\n"
  {
    var h := MatchAt(comment, 0, HeaderPattern).value;
    MatchSound(comment, 0, HeaderPattern);
    HeaderInstance(h.caps);
    assert comment == comment[0..|comment|];
    assert comment == HeaderLine("5." + h.caps[0], h.caps[1]) + "\n";
    ParseHeaderLine("5." + h.caps[0], h.caps[1], "\n");
  }

  /** The header of every matched statement is a header line for the
      section number and option found in it, and the callback's search
      reads those back. */
  lemma MatchedHeader(p: StatementPattern, s: string, i: nat)
    requires p.header == HeaderPattern
    requires i <= |s| && MatchStatementAt(p, s, i).Some?
    ensures var comment := MatchStatementAt(p, s, i).value.comment;
      && ParseHeader(comment).Some?
      && comment == HeaderLine(ParseHeader(comment).value.section, ParseHeader(comment).value.auditOption) + "\n"
  {
    HeaderPatternSeparable();
    StatementHeader(p, s, i);
    WholeHeader(MatchStatementAt(p, s, i).value.comment);
  }

  /** Every field of the body is blocked by its stop: the digit field and
      the `[^;]+` and `AUDIT_OPTION='[^']+'` fields at the first character
      of their stops, the two `[^<]+` fields at the `<` of the `</td>` in
      their stops, and the `[^']+` field at the quote after
      `audit not enabled`. */
  lemma BodyPatternBlocked()
    ensures Blocked(BodyPattern)
  {
    var b := BodyPattern;
    assert b[2].stop[0] == '<';
    assert b[3].stop[287] == '<';
    assert b[4].stop[17] == '\'';
    assert b[5].stop[52] == '<';
    assert b[6].stop[0] == ';';
    assert b[7].stop[0] == '\'';
    assert b[8..] == [];
    assert Blocked(b[7..]) by { assert b[7..][0] == b[7] && b[7..][1..] == b[8..]; }
    assert Blocked(b[6..]) by { assert b[6..][0] == b[6] && b[6..][1..] == b[7..]; }
    assert Blocked(b[5..]) by { assert b[5..][0] == b[5] && b[5..][1..] == b[6..]; }
    assert Blocked(b[4..]) by { assert b[4..][0] == b[4] && b[4..][1..] == b[5..]; }
    assert Blocked(b[3..]) by { assert b[3..][0] == b[3] && b[3..][1..] == b[4..]; }
    assert Blocked(b[2..]) by { assert b[2..][0] == b[2] && b[2..][1..] == b[3..]; }
    assert Blocked(b[1..]) by { assert b[1..][0] == b[1] && b[1..][1..] == b[2..]; }
    assert b[0..] == b && b[0..][1..] == b[1..];
  }

  /** A statement pattern matches, from its start, every text that is its
      header and then its body, each filled in unambiguously, with the
      header as group 1. */
  lemma StatementInstance(p: StatementPattern, s: string, i: nat, hcaps: seq<string>, bcaps: seq<string>)
    requires OpensWith(p.header, '-')
    requires Fits(p.header, hcaps) && Unambiguous(p.header, hcaps)
    requires Fits(p.body, bcaps) && Unambiguous(p.body, bcaps)
    requires OccursAt(s, Instantiate(p.header, hcaps) + Instantiate(p.body, bcaps), i)
    ensures var h, b := Instantiate(p.header, hcaps), Instantiate(p.body, bcaps);
      MatchStatementAt(p, s, i) == Some(Match(h + b, h))
  {
    var h, b := Instantiate(p.header, hcaps), Instantiate(p.body, bcaps);
    OccursSplit(s, h, b, i);
    MatchInstantiate(s, i, p.header, hcaps);
    MatchInstantiate(s, i + |h|, p.body, bcaps);
    var e := i + |h| + |b|;
    assert MatchAt(s, i, p.header).value.end == i + |h|;
    assert MatchAt(s, i + |h|, p.body).value.end == e;
    assert s[i..e] == h + b && s[i..i + |h|] == h;
  }

  /** Completeness of the rewriter's pattern: every old statement in the
      text, whatever section number, option and audit texts fill its fields,
      is matched where it starts, as a whole, with its header as group 1. */
  lemma OldStatementFound(s: string, i: nat, hcaps: seq<string>, bcaps: seq<string>)
    requires Fits(HeaderPattern, hcaps) && Fits(BodyPattern, bcaps)
    requires OccursAt(s, Instantiate(HeaderPattern, hcaps) + Instantiate(BodyPattern, bcaps), i)
    ensures var h, b := Instantiate(HeaderPattern, hcaps), Instantiate(BodyPattern, bcaps);
      MatchStatementAt(OldStatement, s, i) == Some(Match(h + b, h))
  {
    HeaderPatternSeparable();
    SeparableBlocked(HeaderPattern);
    BlockedUnambiguous(HeaderPattern, hcaps);
    BodyPatternBlocked();
    BlockedUnambiguous(BodyPattern, bcaps);
    assert OpensWith(OldStatement.header, '-');
    StatementInstance(OldStatement, s, i, hcaps, bcaps);
  }

  /** In particular the pattern is not vacuous: it matches an old statement
      whose fields each hold one character of their class. */
  lemma OldStatementMatches()
    ensures MatchStatementAt(OldStatement, Sample(HeaderPattern) + Sample(BodyPattern), 0).Some?
  {
    var s := Sample(HeaderPattern) + Sample(BodyPattern);
    assert s[0..|s|] == s;
    OldStatementFound(s, 0, SampleCaps(HeaderPattern), SampleCaps(BodyPattern));
  }

  // ---------------------------------------------------------------------
  // The callback
  // ---------------------------------------------------------------------

  /** The CTE statement written for a parsed header. */
  function ReplacementStatement(comment: string, h: HeaderFields): Statement
  {
    Statement(comment, h.section, h.auditOption, true, "AUDIT_OPTION",
              "AUDIT " + h.auditOption + ";", "DBA_STMT_AUDIT_OPTS",
              StatementAuditFilters(h.auditOption))
  }

  /** `replace_function`: read the header of the matched statement, then
      build the replacement from what was read. */
  function ReplaceFunction(m: Match): string
  {
    ReplaceWith(m.comment, m.whole, ParseHeader(m.comment))
  }

  /** The replacement once the header has been read: the CTE form of the
      statement, which keeps the comment and ends with the GROUP BY, or the
      matched text itself when the header could not be read. */
  function ReplaceWith(comment: string, whole: string, h: Option<HeaderFields>): (r: string)
    ensures h.None? ==> r == whole
    ensures h.Some? ==> StartsWith(r, comment + CteOpen) && EndsWith(r, GroupBy)
  {
    if h.None? then whole
    else
      RenderFrame(ReplacementStatement(comment, h.value));
      Render(ReplacementStatement(comment, h.value))
  }

  /** The replacement holds the parsed section number in its section cell,
      `AUDIT <option>;` in its remediation cell, and every statement-audit
      filter for the parsed option. */
  lemma ReplacementCells(m: Match)
    requires ParseHeader(m.comment).Some?
    ensures var h := ParseHeader(m.comment).value;
      && Contains(ReplaceFunction(m), SectionTag(h.section))
      && Contains(ReplaceFunction(m), RemediationTag("AUDIT " + h.auditOption + ";"))
      && Contains(ReplaceFunction(m), PredicateText(OptionEquals("AUDIT_OPTION", h.auditOption)))
      && Contains(ReplaceFunction(m), PredicateText(UserNameIsNull))
  {
    ParsedCells(m.comment, m.whole, ParseHeader(m.comment).value);
  }

  /** The same, for a header already read. */
  lemma ParsedCells(comment: string, whole: string, h: HeaderFields)
    ensures var r := ReplaceWith(comment, whole, Some(h));
      && Contains(r, SectionTag(h.section))
      && Contains(r, RemediationTag("AUDIT " + h.auditOption + ";"))
      && Contains(r, PredicateText(OptionEquals("AUDIT_OPTION", h.auditOption)))
      && Contains(r, PredicateText(UserNameIsNull))
  {
    var st := ReplacementStatement(comment, h);
    RenderHasSection(st);
    RenderHasRemediation(st);
    AuditFilterPositions(st.auditOption);
    RenderFilters(st, 4);
    RenderFilters(st, 0);
  }

  /** Where the user-name and audit-option filters stand in the list. */
  lemma AuditFilterPositions(option: string)
    ensures |StatementAuditFilters(option)| > 4
    ensures StatementAuditFilters(option)[0] == UserNameIsNull
    ensures StatementAuditFilters(option)[4] == OptionEquals("AUDIT_OPTION", option)
  {
  }

  /** The old statement continues after its header with `SELECT`. */
  lemma BodyFollowsHeader(p: StatementPattern, s: string, i: nat)
    requires OpensWith(p.header, '-') && OpensWith(p.body, 'S')
    requires i <= |s| && MatchStatementAt(p, s, i).Some?
    ensures var m := MatchStatementAt(p, s, i).value;
      |m.comment| < |m.whole| && m.whole[|m.comment|] == 'S'
  {
    var h := MatchAt(s, i, p.header).value;
    MatchPastLit(s, h.end, p.body);
    var t := p.body[0].text;
    assert s[h.end] == s[h.end..h.end + |t|][0];
  }

  /** On every statement the pattern matches, the header is read and the
      fallback branch of the callback is never taken. */
  lemma NoFallbackOnMatch(p: StatementPattern, s: string, i: nat)
    requires p.header == HeaderPattern && OpensWith(p.body, 'S')
    requires i <= |s| && MatchStatementAt(p, s, i).Some?
    ensures ReplaceFunction(MatchStatementAt(p, s, i).value) != MatchStatementAt(p, s, i).value.whole
  {
    var m := MatchStatementAt(p, s, i).value;
    MatchedHeader(p, s, i);
    BodyFollowsHeader(p, s, i);
    ReplacedDiffers(m);
  }

  /** A readable header followed by `S` in the matched text: the replacement,
      which follows the header with `W`, differs from that text. */
  lemma ReplacedDiffers(m: Match)
    requires ParseHeader(m.comment).Some?
    requires |m.comment| < |m.whole| && m.whole[|m.comment|] == 'S'
    ensures ReplaceFunction(m) != m.whole
  {
    OpeningDiffers(ReplaceFunction(m), m.whole, m.comment);
  }

  lemma OpeningDiffers(r: string, whole: string, comment: string)
    requires StartsWith(r, comment + CteOpen)
    requires |comment| < |whole| && whole[|comment|] == 'S'
    ensures r != whole
  {
    assert r[|comment|] == (comment + CteOpen)[|comment|] == 'W';
  }

  /** After a replacement the pattern no longer matches where the new
      statement stands, whatever surrounds it: the header is now followed by
      `WITH CONTAINER_INFO`, not by the `SELECT` the pattern requires. The
      match `m` is any whose header the header pattern matches in full, as
      every statement match's is (`StatementHeader`). */
  lemma NotRematched(p: StatementPattern, m: Match, t: string, j: nat)
    requires p.header == HeaderPattern && OpensWith(p.body, 'S')
    requires MatchAt(m.comment, 0, p.header).Some?
    requires MatchAt(m.comment, 0, p.header).value.end == |m.comment|
    requires OccursAt(t, ReplaceFunction(m), j)
    ensures MatchStatementAt(p, t, j).None?
  {
    ReplacementOpening(m, t, j);
    HeaderThenW(p, m.comment, t, j);
  }

  /** The statement pattern does not match where a header it matches in
      full occurs followed by `W`. */
  lemma HeaderThenW(p: StatementPattern, c: string, t: string, j: nat)
    requires p.header == HeaderPattern && OpensWith(p.body, 'S')
    requires MatchAt(c, 0, p.header).Some? && MatchAt(c, 0, p.header).value.end == |c|
    requires OccursAt(t, c + "W", j)
    ensures MatchStatementAt(p, t, j).None?
  {
    HeaderPatternSeparable();
    assert Separable(p.header);
    assert OpensWith(p.header, '-');
    HeaderWithoutBody(p, c, 'W', t, j);
  }

  /** Where a text the header pattern matches in full occurs again but is
      followed by a character other than `S`, the statement pattern does
      not match there. */
  lemma HeaderWithoutBody(p: StatementPattern, c: string, x: char, t: string, j: nat)
    requires Separable(p.header) && OpensWith(p.header, '-') && OpensWith(p.body, 'S')
    requires MatchAt(c, 0, p.header).Some? && MatchAt(c, 0, p.header).value.end == |c|
    requires OccursAt(t, c + [x], j) && x != 'S'
    ensures MatchStatementAt(p, t, j).None?
  {
    OccursThenChar(t, c, x, j);
    HeaderBeforeOther(p, c, t, j);
  }

  /** The same, with the character after the header given by position. */
  lemma HeaderBeforeOther(p: StatementPattern, c: string, t: string, j: nat)
    requires Separable(p.header) && OpensWith(p.header, '-') && OpensWith(p.body, 'S')
    requires MatchAt(c, 0, p.header).Some? && MatchAt(c, 0, p.header).value.end == |c|
    requires OccursAt(t, c, j) && j + |c| < |t| && t[j + |c|] != 'S'
    ensures MatchStatementAt(p, t, j).None?
  {
    MatchWhole(c, p.header, t, j);
    assert j <= j + |c|;
    assert j + |c| < |t|;
    assert t[j + |c|] != 'S';
    assert MatchAt(t, j, p.header).Some?;
    assert MatchAt(t, j, p.header).value.end == j + |c|;
    HeaderEndsBeforeOther(p, t, j, j + |c|);
  }

  /** The statement does not match where the header ends just before a
      character that cannot open the body. */
  lemma HeaderEndsBeforeOther(p: StatementPattern, t: string, j: nat, k: nat)
    requires OpensWith(p.header, '-') && OpensWith(p.body, 'S')
    requires j <= k
    requires k < |t|
    requires t[k] != 'S'
    requires MatchAt(t, j, p.header).Some?
    requires MatchAt(t, j, p.header).value.end == k
    ensures MatchStatementAt(p, t, j).None?
  {
    BodyAbsent(t, k, p.body);
    StatementNeedsBody(p, t, j, k);
  }

  /** The statement does not match where the header does but the body
      does not match after it. */
  lemma StatementNeedsBody(p: StatementPattern, t: string, j: nat, k: nat)
    requires OpensWith(p.header, '-') && j <= k <= |t|
    requires MatchAt(t, j, p.header).Some? && MatchAt(t, j, p.header).value.end == k
    requires MatchAt(t, k, p.body).None?
    ensures MatchStatementAt(p, t, j).None?
  {
  }

  /** A body that opens with `S` does not match where another character
      stands. */
  lemma BodyAbsent(t: string, k: nat, body: seq<Segment>)
    requires OpensWith(body, 'S') && k < |t| && t[k] != 'S'
    ensures MatchAt(t, k, body).None?
  {
  }

  /** Where a replacement made for a whole header occurs, the header
      occurs, followed by the `W` of `WITH`. */
  lemma ReplacementOpening(m: Match, t: string, j: nat)
    requires MatchAt(m.comment, 0, HeaderPattern).Some?
    requires MatchAt(m.comment, 0, HeaderPattern).value.end == |m.comment|
    requires OccursAt(t, ReplaceFunction(m), j)
    ensures OccursAt(t, m.comment + "W", j)
  {
    WholeHeader(m.comment);
    NewStatementOpening(t, j, ReplaceFunction(m), m.comment);
  }

  /** Where a text starting with `comment` and the CTE opening occurs, the
      comment occurs and a `W` follows it. */
  lemma NewStatementOpening(t: string, j: nat, r: string, comment: string)
    requires OccursAt(t, r, j) && StartsWith(r, comment + CteOpen)
    ensures OccursAt(t, comment + "W", j)
  {
    assert CteOpen[0] == 'W';
    PrefixThenChar(t, j, r, comment, CteOpen);
  }

  /** Where a text starting with `comment + rest` occurs, `comment` followed
      by the first character of `rest` occurs. */
  lemma PrefixThenChar(t: string, j: nat, r: string, comment: string, rest: string)
    requires OccursAt(t, r, j) && StartsWith(r, comment + rest) && |rest| > 0
    ensures OccursAt(t, comment + [rest[0]], j)
  {
    var n := |comment| + 1;
    assert t[j..j + |r|] == r;
    assert r[..n] == (comment + rest)[..n];
    assert (comment + rest)[..n] == comment + [rest[0]];
    assert t[j..j + n] == r[..n];
  }

  /** A text followed by a character occurs where the text occurs and the
      character stands right after it. */
  lemma OccursThenChar(t: string, c: string, x: char, j: nat)
    requires OccursAt(t, c + [x], j)
    ensures OccursAt(t, c, j) && j + |c| < |t| && t[j + |c|] == x
  {
    assert t[j..j + |c|] == (c + [x])[..|c|];
    assert t[j + |c|] == (c + [x])[|c|];
  }

  // ---------------------------------------------------------------------
  // The substitution over the whole text
  // ---------------------------------------------------------------------

  /** `pattern.sub(repl, s)`: scan left to right; where the pattern matches,
      emit the callback's text and go on after the match, else copy one
      character. */
  function Sub(p: StatementPattern, repl: Match -> string, s: string): string
    requires OpensWith(p.header, '-')
  {
    SubFrom(p, repl, s, 0)
  }

  /** The substitution of the text from position `i` on. */
  function SubFrom(p: StatementPattern, repl: Match -> string, s: string, i: nat): string
    requires i <= |s| && OpensWith(p.header, '-')
    decreases |s| - i
  {
    var m := MatchStatementAt(p, s, i);
    if m.Some? then
      MatchStatementBounds(p, s, i);
      repl(m.value) + SubFrom(p, repl, s, i + |m.value.whole|)
    else if i == |s| then []
    else [s[i]] + SubFrom(p, repl, s, i + 1)
  }

  /** The rewriter on the file's contents. */
  function FixCdbQueries(content: string): string
  {
    Sub(OldStatement, ReplaceFunction, content)
  }

  /** Text where no statement matches is copied unchanged. */
  lemma {:induction false} SubSkip(p: StatementPattern, repl: Match -> string, s: string, i: nat, k: nat)
    requires OpensWith(p.header, '-') && i <= k <= |s|
    requires forall j :: i <= j < k ==> MatchStatementAt(p, s, j).None?
    ensures SubFrom(p, repl, s, i) == s[i..k] + SubFrom(p, repl, s, k)
    decreases k - i
  {
    if i < k {
      assert MatchStatementAt(p, s, i).None?;
      var tail := SubFrom(p, repl, s, k);
      calc {
        SubFrom(p, repl, s, i);
        [s[i]] + SubFrom(p, repl, s, i + 1);
        { SubSkip(p, repl, s, i + 1, k); }
        [s[i]] + (s[i + 1..k] + tail);
        { assert [s[i]] + s[i + 1..k] == s[i..k]; }
        s[i..k] + tail;
      }
    }
  }

  /** Text before the first match is kept, the matched statement becomes
      the callback's text, and substitution goes on after it. */
  lemma SubAtFirstMatch(p: StatementPattern, repl: Match -> string, s: string, i: nat)
    requires OpensWith(p.header, '-') && i <= |s|
    requires forall j :: 0 <= j < i ==> MatchStatementAt(p, s, j).None?
    requires MatchStatementAt(p, s, i).Some?
    ensures var m := MatchStatementAt(p, s, i).value;
      Sub(p, repl, s) == s[..i] + repl(m) + SubFrom(p, repl, s, i + |m.whole|)
  {
    var m := MatchStatementAt(p, s, i).value;
    SubSkip(p, repl, s, 0, i);
    SubFromMatch(p, repl, s, i);
    PrefixRegroup(s, i, repl(m), SubFrom(p, repl, s, i + |m.whole|));
  }

  /** Where the statement matches, the substitution emits the callback's
      text and goes on after the match. */
  lemma SubFromMatch(p: StatementPattern, repl: Match -> string, s: string, i: nat)
    requires OpensWith(p.header, '-') && i <= |s| && MatchStatementAt(p, s, i).Some?
    ensures var m := MatchStatementAt(p, s, i).value;
      SubFrom(p, repl, s, i) == repl(m) + SubFrom(p, repl, s, i + |m.whole|)
  {
  }

  /** Where the pattern matches nowhere, the text is unchanged. */
  lemma SubNoMatch(p: StatementPattern, repl: Match -> string, s: string)
    requires OpensWith(p.header, '-')
    requires forall j :: 0 <= j <= |s| ==> MatchStatementAt(p, s, j).None?
    ensures Sub(p, repl, s) == s
  {
    SubSkip(p, repl, s, 0, |s|);
    assert s[0..|s|] == s;
  }
}
