# CIS audit-section rewriters, modelled in Dafny

Two small scripts repair the Oracle 12c+ audit checks of a CIS benchmark SQL
report. The old form of each check is a report-row `SELECT` that mixes
`COUNT(*)` with scalar container subqueries (the cause of ORA-00937). Both
scripts rewrite it into a CTE form: `WITH CONTAINER_INFO AS (...)`, then the
row select over the audit view, then `GROUP BY CI.container_desc;`.

- `fix_remaining_sections.py` works through a table of eight section
  descriptors (5.15 to 5.22). For each one it finds the section's header
  comment with `str.find`. It scans forward, counting parentheses, to the first
  `;` met at depth zero or below. It builds the new statement, choosing the
  WHERE clause by the audited view. It then replaces the old span with
  `str.replace`.
- `fix_ora937_errors.py` matches every old statement with one regular
  expression. Its callback `replace_function` reads the section number and
  audit option back from the header and emits the CTE form. When the header
  cannot be read, it returns the match unchanged. `pattern.sub` copies the text
  between matches.

The project has five modules:

- `Text` (`text.dfy`) models the Python string operations `find` and
  `replace` (every occurrence, left to right, without overlap). It also has
  `Join`, the model's own way to assemble the WHERE conjuncts with
  `"\nAND "` between them; the scripts write those conjuncts inline.
- `CteTemplate` (`cte_template.dfy`) holds the generated statement, which both
  scripts emit. It is a `Statement` value rendered piece by piece, so its
  frame, cells and WHERE conjuncts can be stated.
- `RemainingSections` (`remaining_sections.dfy`) is the enumerated rewriter,
  written imperatively as in the script:
  - the parenthesis scan is a method with a `while` loop;
  - one descriptor is handled by a method;
  - the descriptor loop is a method that reassigns `content`.

  Each method is proved equal to a specification function (`StatementEnd`,
  `Step`, `ApplyAll` and `Outcomes`), and the script's promises are proved
  about those functions.
- `Matcher` (`matcher.dfy`) is a fixed-shape matcher. A pattern is literal
  segments and fields; a field is a non-empty run of one character class that
  ends where its stop text begins. It has soundness and round-trip lemmas and
  a leftmost `Search`.
- `Ora937` (`ora937.dfy`) is the pattern-based rewriter:
  - the statement pattern, the header reader and the callback;
  - `pattern.sub` as a left-to-right substitution over the whole text.

The file contents are a parameter and the rewritten text is a result. The
progress messages of the enumerated rewriter become one `Outcome` per
descriptor (`PatternNotFound`, `EndNotFound`, `Fixed(oldSection)`).

`content.replace(old_section, new_section)` (fix_remaining_sections.py:199)
replaces every occurrence of the span, not only the first; the model does the
same (`Text.ReplaceAll`, `RemainingSections.StepFixed`).

## Model

| member | source | states |
|---|---|---|
| Text.Find | fix_remaining_sections.py:109 | `find` gives -1 exactly when the header does not occur; otherwise an index where it occurs, with no occurrence before it |
| Text.ReplaceAllAtFirst | fix_remaining_sections.py:199 | `replace` keeps the text before the first occurrence, puts the new text there, and goes on replacing after it, so later occurrences are replaced too |
| Text.ReplaceAllAbsent | fix_remaining_sections.py:199 | `replace` of a text that does not occur leaves the content unchanged |
| Text.ReplaceAllInserts | fix_remaining_sections.py:199 | after `replace` of a text that occurs, the new text is present |
| Text.ReplaceSkip | fix_remaining_sections.py:199 | a stretch where the pattern starts nowhere is copied unchanged by `replace` |
| CteTemplate.HeaderLineNoSemicolon | fix_remaining_sections.py:106 | a header line holds no `;` when its section and option hold none |
| CteTemplate.RenderFrame | fix_remaining_sections.py:140-196 | the generated statement starts with its header comment immediately followed by `WITH CONTAINER_INFO AS (`, and ends with `GROUP BY CI.container_desc;` |
| CteTemplate.RenderHasSection | fix_remaining_sections.py:155 | the statement holds the cell `<td>section</td>` for its section |
| CteTemplate.RenderHasRemediation | fix_remaining_sections.py:167 | the statement holds the remediation cell with its remediation text verbatim |
| CteTemplate.RenderHasClauses | fix_remaining_sections.py:169-184 | the statement holds its FROM clause and its WHERE clause |
| CteTemplate.RenderFilters | fix_remaining_sections.py:180-195 | every WHERE conjunct of the statement appears in its text |
| CteTemplate.PrivilegeFiltersShape | fix_remaining_sections.py:169-170 | the privilege-view WHERE tests `PRIVILEGE='<opt>'`, with no null-user, null-proxy or BY ACCESS conjunct |
| CteTemplate.StatementAuditFiltersShape | fix_remaining_sections.py:179-184 | the statement-view WHERE has the null-user, null-proxy and both BY ACCESS conjuncts, and tests `AUDIT_OPTION='<opt>'` |
| RemainingSections.NewSectionShape | fix_remaining_sections.py:140-196 | a descriptor's new section starts with the same header line, then a newline and the CTE opening; it ends with the GROUP BY and holds the section cell and the descriptor's remediation verbatim |
| RemainingSections.NewSectionFilters | fix_remaining_sections.py:161-195 | every filter chosen for the descriptor's view appears in its new section |
| RemainingSections.FiltersByTable | fix_remaining_sections.py:161-184 | WHERE by view: `PRIVILEGE='<opt>'` and no user/proxy/BY ACCESS tests for `DBA_PRIV_AUDIT_OPTS`, all of those plus `AUDIT_OPTION='<opt>'` otherwise; the version and container gates always |
| RemainingSections.SectionsToFixColumns | fix_remaining_sections.py:17-74 | in the table, each descriptor's `column` is the column the template lists anyway, and only 5.15 reads the privilege view |
| RemainingSections.SectionsToFixHeaders | fix_remaining_sections.py:17-74 | none of the eight header lines holds a `;` |
| RemainingSections.EndFrom | fix_remaining_sections.py:121-130 | the scan from a position gives one past the first stopping `;` at or after it, or -1 when no `;` stops it |
| RemainingSections.StatementEndSpec | fix_remaining_sections.py:116-130 | a successful scan gives `section_end > section_start` with `content[section_end-1] == ';'` at depth ≤ 0; every earlier `;` of the span was at positive depth |
| RemainingSections.ScanStatementEnd | fix_remaining_sections.py:115-130 | the script's `while` loop over `pos` and `brace_count` returns exactly the end the scan specification gives |
| RemainingSections.ScanStatementEndQuoted | fix_remaining_sections.py:115-130 | the same loop, also stepping over `'...'` literals, returns the quote-aware end |
| RemainingSections.ScanStopsInsideLiteral | fix_remaining_sections.py:121-129 | on `'a;';` the script's scan ends after `'a;`, inside the open literal, while the quote-aware scan takes all five characters |
| RemainingSections.ReplaceSection | fix_remaining_sections.py:106-199 | one loop iteration (find, scan, extract, replace) returns exactly the content and outcome of `Step` |
| RemainingSections.StepNotFound | fix_remaining_sections.py:109-112 | the outcome is "pattern not found" exactly when the header is absent, and the content is then unchanged |
| RemainingSections.StepEndNotFound | fix_remaining_sections.py:132-134 | the outcome is "end not found" exactly when the header occurs but no `;` stops the scan, and the content is then unchanged |
| RemainingSections.StepOldSection | fix_remaining_sections.py:137 | the extracted old section begins with the header, ends with `;`, and occurs in the content where the header was found |
| RemainingSections.StepFixed | fix_remaining_sections.py:199 | after a fix the text before the old section is kept, the new section takes its place, every later occurrence is replaced too, and the new section is present |
| RemainingSections.OutcomeAt | fix_remaining_sections.py:76-200 | the report for the k-th descriptor is what its step reports on the content the earlier descriptors left |
| RemainingSections.FixAll | fix_remaining_sections.py:76-200 | the loop reassigning `content` returns the fixes applied in order, and one outcome per fix |
| RemainingSections.FixCisSections | fix_remaining_sections.py:17-200 | the script's result is the eight descriptors' fixes applied in table order, one fix per descriptor (its header and new section), with one outcome per fix |
| RemainingSections.ApplyAllNoHeaders | fix_remaining_sections.py:109-112 | content that holds none of the headers comes through every fix unchanged |
| Matcher.MatchSound | fix_ora937_errors.py:20-59 | a match fills every field with text of its class, and the matched text is the pattern with those fields filled in |
| Matcher.MatchInstantiate | fix_ora937_errors.py:20-59 | wherever a pattern's instantiation occurs with a filling that is unambiguous (each field's stop holds a character outside its class, or its text is one character; every filling of a blocked pattern is), the pattern matches there and gives back the same fields |
| Matcher.MatchElsewhere | fix_ora937_errors.py:20-59 | a separable pattern's match depends only on the text it took up |
| Matcher.SearchNone | fix_ora937_errors.py:66-68 | `re.search` fails exactly when the pattern matches at no position |
| Matcher.SearchFirst | fix_ora937_errors.py:66 | `re.search` returns the match at the leftmost position where the pattern matches |
| Ora937.FieldsOf | fix_ora937_errors.py:66-71 | group 1 is a section number `5.` followed by one or more digits; group 2 is a non-empty option without `'` |
| Ora937.ParseHeader | fix_ora937_errors.py:66-71 | a parsed header yields a section number `5.<digits>` and a non-empty audit option with no `'` |
| Ora937.ParseHeaderLine | fix_ora937_errors.py:66-71 | round trip: the header line built from a section number and an option without `'` is parsed back into those two, whatever follows it |
| Ora937.OldStatementShape | fix_ora937_errors.py:20-57 | the statement pattern is the header group followed by a body that opens with `S`, the first letter of `SELECT` |
| Ora937.BodyPatternBlocked | fix_ora937_errors.py:20-57 | every field of the statement body has a stop holding a character its class excludes, so its run has only one possible end |
| Ora937.StatementInstance | fix_ora937_errors.py:20-57 | a statement pattern matches every text that is its header and then its body, each unambiguously filled in, as a whole and with the header as group 1 |
| Ora937.OldStatementFound | fix_ora937_errors.py:20-57 | every old statement in the text, whatever its section number, option and audit texts, is matched where it starts, as a whole, with its header as group 1 |
| Ora937.OldStatementMatches | fix_ora937_errors.py:20-57 | the rewriter's own pattern matches an old statement whose fields each hold one character, so the lemmas about its matches are not vacuous |
| Ora937.MatchStatementText | fix_ora937_errors.py:20-57 | group 0 is the text the match takes up from its position, and group 1 is its prefix |
| Ora937.StatementHeader | fix_ora937_errors.py:21 | group 1, on its own, is matched in full by the header pattern with the same fields |
| Ora937.WholeHeader | fix_ora937_errors.py:21 | a text the header pattern matches in full is the header line for the section and option it holds, and the callback's search reads those back |
| Ora937.MatchedHeader | fix_ora937_errors.py:21-71 | the header of every matched statement parses, and is the header line of the section and option parsed from it |
| Ora937.ReplaceWith | fix_ora937_errors.py:67-116 | with no parsed header the result is the matched text; otherwise it starts with the comment verbatim, immediately followed by `WITH CONTAINER_INFO AS (`, and ends with `GROUP BY CI.container_desc;` |
| Ora937.ReplacementCells | fix_ora937_errors.py:88-104 | the replacement holds `<td>section</td>`, the remediation `AUDIT <opt>;`, `AUDIT_OPTION='<opt>'` and `USER_NAME IS NULL`, all from the parsed fields |
| Ora937.NoFallbackOnMatch | fix_ora937_errors.py:61-116 | for every statement the pattern matches, the callback's text differs from the match: the fallback is never taken |
| Ora937.NotRematched | fix_ora937_errors.py:21-22 | wherever a replacement occurs in any text, the statement pattern does not match at its start: the header is followed by `W`, not `S` |
| Ora937.SubAtFirstMatch | fix_ora937_errors.py:119 | `pattern.sub` keeps the text before the first match, emits the callback's text for it, and continues after the match |
| Ora937.SubSkip | fix_ora937_errors.py:119 | a stretch where no statement matches is copied unchanged |
| Ora937.SubNoMatch | fix_ora937_errors.py:119 | a text where the pattern matches nowhere comes out unchanged |

## Left out

- File reading and writing, the console messages, and the `sys.argv` / `sys.exit` entry point are left out. The contents are a parameter and the new text is a result. The enumerated rewriter's messages become its list of outcomes.
- The unused `pattern` string of `fix_remaining_sections.py` (lines 85-101) is never consulted by the script, so it is not modelled.
- Each descriptor's `column` field is kept in `Descriptor`. The script reads it into `column` (fix_remaining_sections.py:80) but never uses it. The listed column follows the view (`ListColumn`).
- The string the script builds with `+=` is modelled as a value: a `Statement` rendered from its pieces. There is no in-place buffer.
- Python's regular-expression engine is not modelled. The statement pattern is a fixed sequence of literal segments and fields:
  - a field is the shortest non-empty run of its class (`\d` as ASCII digits, `[^x]` as any character but `x`) up to its stop text, with no backtracking;
  - a field's run cannot reach past a character of its stop that the class excludes, so when the stop holds one, only one run end fits, and the greedy regular expression and the shortest run take the same text (`Matcher.Blocks`);
  - in the header (line 21), the callback's search pattern (line 66) and the body fields `\d+` (line 27), `[^;]+` (line 41) and `AUDIT_OPTION='[^']+'` (line 48), the stop starts with that character;
  - in the body fields `[^<]+` (lines 28 and 40) the stop holds it at the `<` of `</td>`, and in `[^']+` (line 38) at the quote after `audit not enabled` (`Ora937.BodyPatternBlocked`);
  - so on the whole statement the matcher finds what the regular expression finds. The one remaining difference is `\d`, which in Python also matches non-ASCII decimal digits.

  The `MULTILINE` and `DOTALL` flags change nothing, because the pattern has no `^`, `$` or `.`.
- Text.ReplaceAll: requires a non-empty pattern. Python's `replace` with an empty pattern inserts between characters, but an extracted section always ends with `;`, so it is never empty.
- RemainingSections.StepOldSection: requires a header without `;`. Every header of the table has none (`SectionsToFixHeaders`). For a header holding a `;`, the scan could end inside the header.
- RemainingSections.StepFixed: requires a header without `;`, for the same reason.
- Ora937.NotRematched: stated for a match whose header the header pattern matches in full. That holds for every statement match (`StatementHeader`).
- Ora937.ReplaceFunction: has no contract of its own. It reads the header and hands over to `ReplaceWith`, which carries the contract. `ReplacementCells` and `NoFallbackOnMatch` are stated on `ReplaceFunction` itself.
- Ora937.FixCdbQueries: has no contract of its own. It is `Sub` with the old-statement pattern and the callback, so the `Sub` lemmas apply to it once `OldStatementShape` is given.
- Characters are Dafny `char`s: no encoding, normalisation or case folding is modelled.
- The meaning of the generated SQL is left out: it is only text.

## Findings

| source | as written | input that shows it | evidently intended | confidence | as-written member | corrected member |
|---|---|---|---|---|---|---|
| fix_remaining_sections.py:121-130 | the end-of-statement scan counts parentheses and stops at `;` everywhere, including inside SQL string literals | `'a;';` from position 0: the scan stops at the first `;`, inside the open literal (end 3, not 5). In the old statements the remediation cell `'<td class="remediation">AUDIT ...;</td>'` is a literal at depth 0, so the span would end inside it | a `;` or parenthesis inside `'...'` does not count, so the span ends at the statement's own `;` | not executed; medium (the SQL file itself is not part of this model) | RemainingSections.ScanStopsInsideLiteral | RemainingSections.ScanStatementEndQuoted |

The whole of the enumerated rewriter is parameterised by the scan rule
(`Scan`): `AsWritten` follows the script, and `QuoteAware` is the corrected
scan. Every step lemma and the loop hold for both.
