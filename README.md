# A model of `scripts/fix-ts.py`

`scripts/fix-ts.py` is a TypeScript error auto-fixer. It runs the compiler, groups its
diagnostics by file, and patches every file that has a diagnostic. It applies three textual
rewrite functions to each file:

- `fix_supabase_never_types` normalises `const { data: X[, error: Y] } = await supabase.from('T').select(`
  destructurings and appends ` as any` to simple `.insert(...)`/`.update(...)` arguments.
- `fix_any_to_never_errors` appends ` as any` to the bare value of `.eq('c', v)` and `.in('c', v)`.
- `fix_error_handling` puts an `err` narrowing line into catch blocks that pass the caught
  variable to `logger.error`/`console.error`, and makes the call log `err` instead.

Each function writes the file back only when the text changed. It returns its count of fixes
if it wrote the file, and 0 otherwise.

The project models:

- the diagnostic parser and the grouping by file;
- the stable descending ranking of files;
- each regular expression of the three rewrites, as a hand-written matcher anchored at one
  position;
- `re.sub` as a left-to-right scan over those matchers;
- the three fix functions as methods of a `Workspace` class that holds the files as a
  `map<string, string>` and logs every write;
- the patch loop of `main`.

The `.eq`/`.in` rules and the catch rule carry a `Template`. With `AsWritten` they write what
the script's templates and callback produce. With `Intended` they write what those were meant to
produce (see "## Findings"). The fix functions and the `Workspace` methods use `AsWritten`.

The modules are:

- `Text`: character classes, greedy runs, `strip`, and `str.replace`.
- `Diagnostics`: `parse_errors`.
- `Ranking`: the sort and the error total.
- `Rules`: one matcher per pattern, each with a reference rendering and soundness and
  completeness lemmas.
- `CatchRule`: the catch pattern with its two lazy searches, and `fix_catch`. It also holds the
  corrected block search that stops at a nested catch head.
- `Rewrite`: `re.sub`.
- `FilterProperties`, `SupabaseProperties`, `CatchProperties`: what each rewrite does at one
  site, and whether a second pass changes anything.
- `Fixes`: each fix function as a function of the text.
- `Patch`: the loop as a fold over the ranked paths.
- `Patcher`: the imperative class.
- `CatchNesting`: a catch nested in another catch. A second pass over the script's output
  rewrites and counts the inner catch, which the first pass left as it was, and the corrected block search leaves nothing for a second pass.

Regular-expression character classes are taken over ASCII:

- `\w` is `[A-Za-z0-9_]`;
- `\s`, and what `str.strip()` strips, is the ten ASCII characters Python counts as white
  space: space, tab, line feed, carriage return, vertical tab, form feed, and the separators
  U+001C to U+001F.

## Model

| member | source | states |
|---|---|---|
| Diagnostics.ParseLine | scripts/fix-ts.py:33-41 | a record's path is a `.ts`/`.tsx` path without line break that the line starts with; its code is `TS` followed by digits; its message is non-empty and has no line break |
| Diagnostics.ParseLineSound | scripts/fix-ts.py:33 | a parsed line is the rendering of a non-empty stem with `.ts`/`.tsx`, non-empty digit runs for line, column and code, and a non-empty message, with no line break anywhere |
| Diagnostics.ParseLineExact | scripts/fix-ts.py:33-34 | a line yields a record if and only if it has the diagnostic shape |
| Diagnostics.ParseLineRecord | scripts/fix-ts.py:33-41 | for a line of the diagnostic shape, the record's path is the shortest one for which the rest parses (lazy `.+?`); a record with the full path has line and column as decimal values, the `TS` code and the message |
| Diagnostics.TailSound | scripts/fix-ts.py:33 | what the tail parser accepts is well formed and is exactly the text it read |
| Diagnostics.TailComplete | scripts/fix-ts.py:33 | every well-formed `(l,c): error TSd: m` tail is read back as itself |
| Diagnostics.FindPathSound | scripts/fix-ts.py:33 | the path the lazy search settles on, with its tail, renders the line |
| Diagnostics.FindPathComplete | scripts/fix-ts.py:33 | on a line of the diagnostic shape the lazy search finds a path no longer than the true one |
| Diagnostics.AddRecord | scripts/fix-ts.py:36-41 | after one more record the grouping still holds for the longer record list: the key order is the first-seen order of its paths, the keys are exactly those paths, and each list holds that path's records in input order |
| Diagnostics.ParseErrors | scripts/fix-ts.py:28-43 | the key order is the first-seen order of matched paths; the keys are exactly those paths; each list holds that path's records in input order |
| Diagnostics.FirstSeenMembers | scripts/fix-ts.py:36 | a path is a key exactly when some matched line names it |
| Diagnostics.FirstSeenDistinct | scripts/fix-ts.py:36 | no key appears twice |
| Diagnostics.RecordsForAbsent | scripts/fix-ts.py:36 | a path no line names has no records |
| Diagnostics.RecordsForPresent | scripts/fix-ts.py:36 | every key has at least one record |
| Diagnostics.GroupTotalIsCount | scripts/fix-ts.py:171 | the list lengths over all keys add up to the number of matched lines |
| Ranking.RankSorted | scripts/fix-ts.py:179 | the ranking is in descending order of record count |
| Ranking.RankPermutation | scripts/fix-ts.py:179 | the ranking holds the same items, each as often |
| Ranking.RankStable | scripts/fix-ts.py:179 | items with equal counts keep their first-seen order (stable sort with `reverse=True`) |
| Ranking.CountsTotal | scripts/fix-ts.py:171 | `total_errors` equals the number of parsed records |
| Rules.FilterSound | scripts/fix-ts.py:107-109 | the `.eq`/`.in` matcher accepts only well-formed calls, and it consumes exactly their text |
| Rules.FilterComplete | scripts/fix-ts.py:107-109 | every well-formed call is matched, whatever follows it |
| Rules.FilterSite | scripts/fix-ts.py:107-113 | every `.eq`/`.in` site is replaced by the template's text and counted |
| Rules.SelectSound | scripts/fix-ts.py:53 | the destructuring matcher accepts only well-formed destructurings, and it consumes exactly their text |
| Rules.SelectComplete | scripts/fix-ts.py:53 | every well-formed destructuring is matched, whatever follows it |
| Rules.SelectOutIsText | scripts/fix-ts.py:66-68 | the canonical text the callback writes is itself a well-formed destructuring |
| Rules.SelectSite | scripts/fix-ts.py:55-70 | a site the callback does not count is kept unchanged |
| Rules.CallSound | scripts/fix-ts.py:90 | the `.insert`/`.update` matcher takes the argument up to the first `)`, and it is not empty |
| Rules.CallComplete | scripts/fix-ts.py:90 | every call with a non-empty argument free of `)` is matched |
| Rules.CallSite | scripts/fix-ts.py:74-90 | a call the callback does not count is kept unchanged |
| Rewrite.MatchAt | scripts/fix-ts.py:70 | a match spans at least one character of the text; an uncounted site is written back as matched |
| Rewrite.SubUncounted | scripts/fix-ts.py:70 | a substitution whose callback counted nothing leaves the text unchanged |
| Rewrite.SubNoMatch | scripts/fix-ts.py:113 | where the pattern matches nowhere, the substitution keeps the text and counts nothing |
| Rewrite.SubInert | scripts/fix-ts.py:113 | positions where nothing matches are copied, and the scan goes on after them |
| Rewrite.SubAtSite | scripts/fix-ts.py:70 | a site matched at the start is replaced by the callback's text and counted when the callback counted; the scan resumes right after the matched text, without overlap |
| CatchRule.HeadSound | scripts/fix-ts.py:132 | the `catch\s*\((\w+)\)\s*\{` matcher accepts only well-formed heads, and it consumes exactly their text |
| CatchRule.HeadComplete | scripts/fix-ts.py:132 | every well-formed head is matched |
| CatchRule.CatchSound | scripts/fix-ts.py:132 | a catch match is a well-formed head, a block without `}`, and a whole logging call of the caught variable: `logger.error` or `console.error`, blanks, `(`, an argument run without `)` from no earlier position of which `,\s*v\s*\)` matches, then `,`, blanks, the variable, blanks and `)`; the text is the matched span followed by the rest |
| CatchRule.CatchComplete | scripts/fix-ts.py:132 | a well-formed head, a block without `}` at no position of which a logging call of the variable starts, and a whole logging call of the variable with the shortest argument run are matched exactly, whatever follows |
| CatchRule.ArgsEndExact | scripts/fix-ts.py:132 | the end-of-arguments matcher succeeds exactly where `,\s*v\s*\)` matches |
| CatchRule.CallAtSound | scripts/fix-ts.py:132 | what the call matcher takes is a whole logging call of the variable with the shortest argument run |
| CatchRule.CallAtComplete | scripts/fix-ts.py:132 | every whole logging call of the variable with the shortest argument run is taken, and only it, whatever follows |
| CatchRule.CatchSplit | scripts/fix-ts.py:132 | the match consumes exactly the head, the block and the call |
| CatchRule.FindCallBlock | scripts/fix-ts.py:132 | the block the lazy `[^}]*?` settles on holds no `}` |
| CatchRule.FindCallSkips | scripts/fix-ts.py:132 | the lazy block search passes over positions where no call starts |
| CatchRule.CallFound | scripts/fix-ts.py:132 | the call the block search settles on is a whole logging call of the caught variable, with the shortest argument run |
| CatchRule.Indent | scripts/fix-ts.py:144-145 | the indentation is a non-empty blank run |
| CatchRule.IndentFirst | scripts/fix-ts.py:144-145 | the indentation is the blank run after the first line break followed by a blank |
| CatchRule.IndentDefault | scripts/fix-ts.py:145 | without such a line break the indentation is four spaces |
| CatchRule.CatchSite | scripts/fix-ts.py:134-157 | a match spans at least one character; a site the callback does not count is kept unchanged |
| CatchRule.FlatBlock | scripts/fix-ts.py:132 | the block the corrected search settles on holds no `}` and no position where a catch head starts, and a logging call of the variable starts right after it |
| CatchRule.FlatAgree | scripts/fix-ts.py:132 | where the block the pattern settles on holds no catch head, the corrected search settles on the same block and call |
| CatchRule.FlatCatchSite | scripts/fix-ts.py:132-157 | the corrected rule matches at least one character; a site it does not count is kept unchanged |
| CatchProperties.FlatRewriteStable | scripts/fix-ts.py:132-157 | a catch the corrected rule rewrote, followed by anything, is not counted again by the corrected rule: it matches nothing there or keeps the site unchanged |
| CatchNesting.NestedFirstPass | scripts/fix-ts.py:132-157 | on `catch (v) {`, a line break, `catch (w) { console.error('x', w) console.error('x', v)`, one pass of the callback as written counts 1: it adds the handler line after the outer head and retargets the outer call, and it leaves the inner catch, swallowed by the outer block, as it was |
| CatchNesting.NestedSecondPass | scripts/fix-ts.py:132-157 | a second pass over that output counts one more fix, on the inner catch |
| CatchNesting.NestedNotIdempotent | scripts/fix-ts.py:132-163 | on that text the first pass counts 1, and a pass over its output counts 1 more, for the inner catch; so the rewrite of a whole file is not idempotent |
| CatchNesting.NestedFlatStable | scripts/fix-ts.py:132-157 | with the corrected block search, the first pass rewrites the inner catch and counts 1, and a second pass keeps the text and counts nothing |
| CatchRule.CatchSiteOf | scripts/fix-ts.py:139-150 | a catch site is counted exactly when its block does not contain `const err = v instanceof Error` |
| FilterProperties.FilterRewrite | scripts/fix-ts.py:105-113 | a well-formed call is counted and becomes `.eq(\'c\', v as any)` (or `.in`) with the templates as written, `.eq('c', v as any)` with the intended ones |
| FilterProperties.ReplacementDots | scripts/fix-ts.py:107-109 | past its first character a rewritten call holds no `.`, with either template |
| FilterProperties.ReplacementNoRematch | scripts/fix-ts.py:107-109 | a rewritten call no longer matches its pattern, with either template |
| FilterProperties.AsWrittenNoRematch | scripts/fix-ts.py:107-109 | the call the templates write as written does not match the pattern, because a backslash and not a quote follows `(` |
| FilterProperties.FilterOutNoRematch | scripts/fix-ts.py:107-109 | the intended rewritten call no longer matches its pattern |
| FilterProperties.FilterOutInert | scripts/fix-ts.py:105-116 | neither pattern matches at any position of a rewritten call, with either template |
| FilterProperties.FilterNoMatchAfter | scripts/fix-ts.py:112-116 | after a filter substitution, with either template, its pattern matches nowhere in the text; a pattern that matched nowhere before still matches nowhere |
| FilterProperties.FilterIdempotent | scripts/fix-ts.py:113 | a second pass of either substitution, with either template, changes nothing and counts nothing |
| FilterProperties.FilterTemplateBackslash | scripts/fix-ts.py:107-109 | the templates as written leave a backslash before the column's quote, which the intended output never holds |
| SupabaseProperties.CallRewrite | scripts/fix-ts.py:74-90 | an argument holding ` as ` or neither starting with `{` nor a single word when stripped is kept and uncounted; any other gets exactly ` as any` appended and counts once |
| SupabaseProperties.CallRewriteStable | scripts/fix-ts.py:79-90 | what a call becomes is matched again but kept and not counted |
| SupabaseProperties.ParenFree | scripts/fix-ts.py:90 | a text without `)` holds no call and is left as is |
| SupabaseProperties.WriteIdempotent | scripts/fix-ts.py:90 | a second `.insert`/`.update` pass over the whole text changes nothing and counts nothing |
| SupabaseProperties.SelectRewrite | scripts/fix-ts.py:53-70 | a destructuring whose matched text contains ` as ` is kept and not counted; any other becomes the canonical text and counts once |
| SupabaseProperties.SelectFixedPoint | scripts/fix-ts.py:62-68 | the canonical text is a fixed point: a second pass matches exactly it and writes it back unchanged, counted again |
| SupabaseProperties.SelectStable | scripts/fix-ts.py:53-70 | rewriting a destructuring and rewriting the result give the same text |
| CatchProperties.HandlerMarked | scripts/fix-ts.py:140-148 | the inserted line contains the marker that makes the callback skip a block |
| CatchProperties.HandlerInert | scripts/fix-ts.py:132-148 | no logging call and no `}` starts inside the inserted line |
| CatchProperties.CatchOutLayout | scripts/fix-ts.py:143-153 | the intended rewrite of a site is the head as matched, a line break, the indentation, then the marker line |
| CatchProperties.CatchOutAsWrittenLayout | scripts/fix-ts.py:143-153 | the callback's own rewrite has that layout wherever the block is not empty and occurs in the span only as the block |
| CatchProperties.MarkedBodyKept | scripts/fix-ts.py:139-141 | a catch whose block already holds the marker is kept and not counted |
| CatchProperties.CatchRewriteStable | scripts/fix-ts.py:134-157 | a catch rewritten by the intended splice is not counted by a second pass, with either template |
| CatchProperties.CatchRewriteStableAsWritten | scripts/fix-ts.py:134-157 | a catch rewritten by the callback is not counted by a second pass, wherever the block is not empty and occurs in the span only as the block |
| CatchProperties.RetargetCall | scripts/fix-ts.py:153 | the closing `, v)` of the call becomes `, err)`, and nothing before it changes |
| CatchProperties.HeadNoComma | scripts/fix-ts.py:132 | a catch head holds no `,`, so the retargeting leaves it alone |
| CatchProperties.CatchAgree | scripts/fix-ts.py:152-153 | where the block is not empty and its text occurs in the span only as the block, the callback as written and the corrected one agree |
| CatchProperties.CatchAsWrittenBreaksHead | scripts/fix-ts.py:153 | for every variable `v`, `catch (v) { console.error('x', v)` is matched with the single blank as block; the callback as written splits the head into `catch\n…` so its text no longer starts with the head, while the corrected one starts with the head and a line break |
| CatchProperties.AsWrittenSplitsHead | scripts/fix-ts.py:153 | whenever the block is one blank and a blank follows `catch`, the callback as written breaks the head |
| Text.ReplaceAllEmptyPattern | scripts/fix-ts.py:153 | `str.replace` with an empty pattern puts a copy of the replacement before every character and one at the end: the `i`-th character follows the `i`-th copy, and the text ends with the last copy |
| Fixes.ReturnedPositive | scripts/fix-ts.py:92-96 | a fix function returns a positive count exactly when it wrote the file |
| Fixes.SupabaseUncounted | scripts/fix-ts.py:65-96 | when neither callback counted, the text is unchanged |
| Fixes.ErrorHandlingUncounted | scripts/fix-ts.py:150-163 | when the callback counted nothing, the text is unchanged |
| Fixes.ApplyPatternsBound | scripts/fix-ts.py:112-116 | the pattern loop adds at most one per pattern, and counts nothing only if the text is unchanged |
| Fixes.AnyToNeverBound | scripts/fix-ts.py:105-122 | `fix_any_to_never_errors` counts 0, 1 or 2, and counts 0 only when it changed nothing |
| Fixes.ApplyPair | scripts/fix-ts.py:112-116 | the two patterns run one after the other; if neither changes the text, nothing is counted |
| Fixes.AnyToNeverIdempotent | scripts/fix-ts.py:98-122 | running `fix_any_to_never_errors`, with its templates as written, on its own output changes nothing and counts nothing |
| Patch.RankedPathsOrder | scripts/fix-ts.py:171-191 | the loop visits every file a diagnostic names and no other, each with its number of records; more records come first, ties keep first-seen order; without diagnostics it visits nothing |
| Patch.PatchFileStep | scripts/fix-ts.py:191-205 | one iteration changes only its own file, writes only a file that exists, and counts the file as modified exactly when it wrote it, with at least one fix |
| Patch.PatchAllSummary | scripts/fix-ts.py:191-205 | the loop keeps the set of files, changes and writes only visited existing files, and no fix is counted exactly when no file is modified, exactly when nothing is written |
| Patch.PatchFileShift | scripts/fix-ts.py:202-205 | an iteration adds its file's fixes and one modified file to the running totals |
| Patch.RunOutcome | scripts/fix-ts.py:174-205 | without diagnostics nothing is touched; `files_modified` is at most `total_fixes`; no file is modified exactly when no write happened |
| Patcher.Workspace.FixSupabaseNeverTypes | scripts/fix-ts.py:45-96 | the file becomes the select rewrite followed by the call rewrite; it is written once if changed; the return is the callbacks' count if written and 0 otherwise |
| Patcher.Workspace.FixAnyToNeverErrors | scripts/fix-ts.py:98-122 | the loop over the two patterns, with the templates as written, computes the pattern fold; the file is written once if changed; the return is at most 2, and positive exactly when the file changed |
| Patcher.Workspace.FixErrorHandling | scripts/fix-ts.py:124-163 | the file becomes the catch rewrite, with the callback's whole-span `str.replace`; it is written once if changed; the return is the callback's count if written and 0 otherwise |
| Patcher.Workspace.FixFile | scripts/fix-ts.py:197-200 | the three fixes, in order, on an existing file, and the sum of what they returned |
| Patcher.Workspace.Visit | scripts/fix-ts.py:189-205 | one iteration of the loop: a missing file is skipped with nothing changed; otherwise files, writes and both totals become the one-file step of the fold |
| Patcher.Workspace.Run | scripts/fix-ts.py:168-205 | `total_errors` is the number of records; the files, the writes and both totals are the fold over the ranked paths; without diagnostics nothing is written; `files_modified` is at most `total_fixes` and is 0 exactly when nothing was written |

## Left out

- `run_tsc` is not modelled because it runs `npx tsc`. `Run` takes the compiler's output lines
  as its input.
- The second compiler run, all printing, the top-10 report and the before/after summary are not
  modelled. They are I/O or display only.
- The file system is modelled as a map from path to text. `Path.exists` is membership in the
  map. Reading and writing always succeed. Encodings, directories and write errors (which would
  abort the script) are not modelled.
- `main`'s return value is not modelled. `Run` returns `total_errors`, `files_modified` and
  `total_fixes` instead.
- Python regular expressions are not modelled in general. Each of the five patterns is
  hand-matched. `\w` and `\s` are their ASCII parts, so non-ASCII word characters and
  non-ASCII white space (U+0085, U+00A0, U+2028 and the like) are not modelled.
- `\d` is taken as `[0-9]`, and `int()` reads only those digits. Python's `\d` and `int()` also
  accept other Unicode decimal digits, which the model does not.
- `str.strip()` is taken to strip the ten ASCII white-space characters listed above. Python
  also strips non-ASCII white space, which the model does not.
- Paths are compared as the diagnostics spell them. Two spellings of one file (`a.ts` and
  `./a.ts`) are two keys and two map entries, so the model does not capture that the second
  visit of such a file sees what the first visit wrote.
- Patcher.Workspace.FixSupabaseNeverTypes: a second pass over its output is proved stable only
  per call and per destructuring (`SupabaseProperties.SelectStable`,
  `SupabaseProperties.WriteIdempotent`). Idempotence over a whole file is not claimed.
- Patcher.Workspace.FixErrorHandling: the output is proved stable per rewritten catch only
  (`CatchProperties.CatchRewriteStableAsWritten`). Over a whole file it is not: the lazy block
  of an outer catch can run past a nested catch head, so the outer match swallows the inner
  catch, and a second pass matches and counts it (`CatchNesting.NestedNotIdempotent`; see
  "## Findings").
- Text is read and written with Python's universal newlines (scripts/fix-ts.py:47, 93, 100, 119,
  126 and 160). Reading turns `\r\n` and `\r` into `\n`, and writing turns `\n` into the
  platform's line ending. The map holds text as the read returns it, with line endings already
  translated. The model does not capture that a written file's line endings can differ from
  the original's.
- CatchRewriteStable: stated for the intended splice `CatchOut`. For the callback's own
  replace-all output it is proved only where the block is not empty and occurs in the matched
  span only as the block (`CatchProperties.CatchRewriteStableAsWritten`). On other spans the
  callback can break the head (`CatchProperties.CatchAsWrittenBreaksHead`), and nothing is
  claimed there.
- CatchOutLayout: stated for the intended splice `CatchOut`. For the callback's own output the
  layout is proved under the same condition (`CatchProperties.CatchOutAsWrittenLayout`). On a
  one-line catch whose block is a single blank the callback's output starts `catch\n` and does
  not have this layout.
- SupabaseProperties.SelectFixedPoint: the select rewrite emits no ` as `, despite the comment
  at scripts/fix-ts.py:51. So a canonical destructuring is counted again on every pass, and the
  model follows the code. The select pass then changes no text. The fix function returns 0 only
  if the `.insert`/`.update` pass changes nothing too. If that pass changes the text, the file is
  written, and the return adds the destructurings counted again to the calls it rewrote
  (`Fixes.SupabaseFix`).

## Findings

| source | as written | input that shows it | evidently intended | confidence | as-written member | corrected member |
|---|---|---|---|---|---|---|
| scripts/fix-ts.py:107-109 | The replacement templates are raw strings holding `\'`. `re.sub` keeps the backslash of that unknown escape, so `.eq('id', x)` becomes `.eq(\'id\', x as any)`, which is not valid TypeScript. | `.eq('id', x)` | `.eq('id', x as any)` | not executed | Rules.FilterOutAsWritten, FilterProperties.FilterTemplateBackslash | Rules.FilterOut (template `Intended`), FilterProperties.FilterOutNoRematch |
| scripts/fix-ts.py:153 | `str.replace` replaces the block text everywhere in the matched span, not just at the block. An empty block inserts the handler at every position. A one-blank block also replaces the blanks in the head. | `catch (e) { console.error('x', e)` (block `" "`), and the same with any variable name | the handler goes only in front of the block, and the head stays `catch (e) {` | not executed | CatchRule.CatchOutAsWritten, CatchProperties.CatchAsWrittenBreaksHead | CatchRule.CatchOut (template `Intended`), CatchProperties.CatchRewriteStable |
| scripts/fix-ts.py:132 | The lazy block `[^}]*?` excludes only `}`, so it runs past a nested `catch (w) {` head. The outer match then swallows the inner catch, whose call is left unrewritten. A second pass rewrites and counts the inner catch, which the first pass left as it was. | `catch (v) {`, a line break, `catch (w) { console.error('x', w) console.error('x', v)`, for any two names that start with different characters, contain no `h` and are not `err` | the block stops at a nested catch head, so the first pass rewrites the inner catch and a second pass finds nothing | not executed | CatchNesting.NestedNotIdempotent (with CatchNesting.NestedFirstPass and CatchNesting.NestedSecondPass) | CatchRule.FlatCatchSite (rule `FlatCatchBlock`), CatchProperties.FlatRewriteStable, CatchNesting.NestedFlatStable, CatchRule.FlatAgree |
