# TalentBridge skill matching and coaching text: a Dafny model

TalentBridge matches job seekers to job postings through a skills taxonomy
(ESCO URIs). This project models three self-contained pieces of its logic and
proves what they promise:

- **Exact skill matching** (`matchSkills`, `src/lib/matching.ts`). The job's
  essential-skill URIs are split into matched and missing ones by membership
  in the seeker's set. The overlap is scored as a rounded whole percentage.
  Every URI is resolved to a display title through fallback lookups. The
  partition is a loop, so `SkillMatching.MatchSkills` is a method proved
  against the specification function `SkillMatching.Match`. The score and
  title lists are functions.
- **Coaching-text sections** (`parseSections` and the fallback in
  `TransitionResults`, `src/components/transition-results.tsx`). The markdown
  coaching text is cut at every line that starts with `## `. Each piece is
  trimmed, blank pieces are dropped, and each remaining piece becomes a
  section: its first line is the title, the rest is the body. When no section
  comes out, the raw text is shown. `CoachingSections.ParseSections` is a
  method with the source's loop, proved against `CoachingSections.Sections`.
  The split itself follows the ECMAScript `split` loop for the pattern
  `/^## /m`.
- **Deduplication by URI** (`src/app/api/seeker/route.ts:46-49`; the same
  code is at `src/mcp/tools.ts:54-56`). The step
  `Array.from(new Map(skills.map(s => [s.uri, s])).values())` is modelled
  with an insertion-ordered map, as JavaScript's `Map` behaves. Each URI keeps
  the position of its first occurrence and the record of its last one.

`JsText` models the JavaScript string operations these rely on:
`String.prototype.trim` over the exact ECMAScript WhiteSpace and
LineTerminator sets, `indexOf` for one character, and the line terminators
that a multiline `^` recognises.

The wider design also describes a fuzzy, weighted engine
(`matchSkillsEnhanced`). The matching file modelled here contains only the
exact matcher `matchSkills`, and the model follows that code.

## Model

| member | source | states |
|---|---|---|
| `SkillMatching.Match` | src/lib/matching.ts:15-38 | The result of `matchSkills` as a function of its inputs. The two lists' sizes add up to the number of job URIs. Every matched URI is a job URI the seeker has; every missing one is a job URI the seeker lacks. The score is at most 100 and is 0 for a job without skills. There is one title per URI in each list. |
| `SkillMatching.Matched` | src/lib/matching.ts:20-22 | The matched list is no longer than the job list. Membership, order and multiplicity are stated in `ClassifiedMembers`, `ClassifyConcat` and `OccurrencesKept`. |
| `SkillMatching.Missing` | src/lib/matching.ts:20-24 | The missing list is no longer than the job list. Membership, order and multiplicity are stated in the same three lemmas. |
| `SkillMatching.MatchSkills` | src/lib/matching.ts:9-40 | The loop's result is `Match` of the inputs. The two lists' sizes add up to the number of job URIs. The score is at most 100. Every matched URI is one of the seeker's; no missing URI is. |
| `SkillMatching.PartitionSizes` | src/lib/matching.ts:20-26 | Every job URI occurrence lands in exactly one list: the sizes add up, and the two multisets together equal the job's multiset. |
| `SkillMatching.ClassifiedMembers` | src/lib/matching.ts:21-25 | A URI is in the matched list iff it is a job URI the seeker has. It is in the missing list iff it is a job URI the seeker lacks. |
| `SkillMatching.ClassifyConcat` | src/lib/matching.ts:20-26 | Both lists keep the job's order: classifying `a + b` gives the results for `a` followed by those for `b`. |
| `SkillMatching.OccurrencesKept` | src/lib/matching.ts:20-26 | Duplicates are classified once per occurrence. A URI the seeker has occurs in the matched list as often as in the job list, and not at all in the missing list; a URI the seeker lacks, the other way round. |
| `SkillMatching.ClassifyAllOrNone` | src/lib/matching.ts:20-26 | If the seeker has every job URI, all are matched in order and none is missing. If the seeker has none, all are missing and none is matched. |
| `SkillMatching.SeekerOrderIrrelevant` | src/lib/matching.ts:15 | Two seeker lists with the same members give the same result, whatever their order or duplicates. |
| `SkillMatching.EmptyJob` | src/lib/matching.ts:28-31 | A job without skills scores 0, and all four lists are empty. |
| `SkillMatching.RoundedPercent` | src/lib/matching.ts:30 | The score is at most 100. It lies within one half of 100·matched/total, and a half rounds up (`Math.round` in exact arithmetic). |
| `SkillMatching.MatchScore` | src/lib/matching.ts:28-31 | The score lies in [0, 100] and is 0 when the job has no skills. |
| `SkillMatching.ScoreIsRoundedShare` | src/lib/matching.ts:28-31 | For a non-empty job, the result's score is the rounded share of matched job URIs. |
| `SkillMatching.ScoreExtremes` | src/lib/matching.ts:30 | All matched rounds to 100; none matched rounds to 0. |
| `SkillMatching.FullOverlap` | src/lib/matching.ts:20-31 | A seeker with every job skill scores 100. The matched list is the job list and nothing is missing. |
| `SkillMatching.NoOverlap` | src/lib/matching.ts:20-31 | A seeker with none of the job skills scores 0. Nothing is matched and the missing list is the job list. |
| `SkillMatching.ScoreExtremesConverse` | src/lib/matching.ts:30 | Below 200 job skills, a score of 100 means everything matched, and a score of 0 means nothing did. |
| `SkillMatching.ScoreExtremesNotExact` | src/lib/matching.ts:30 | The converse fails from 200 skills on: 199 of 200 scores 100, and 1 of 201 scores 0. |
| `SkillMatching.TitleResolution` | src/lib/matching.ts:37-38 | The title lists are as long as their URI lists. A matched title is the job's title if present and non-empty, else the seeker's title if present and non-empty, else the URI. A missing title is the job's title if present and non-empty, else the URI. |
| `SkillMatching.MissingTitlesIgnoreSeekerTitles` | src/lib/matching.ts:38 | The missing titles do not depend on the seeker's title map. |
| `SkillMatching.TitlesNonEmpty` | src/lib/matching.ts:37-38 | When no job URI is empty, no resolved title is empty. |
| `SkillMatching.MatchedTitle` | src/lib/matching.ts:37 | A matched title is the URI itself or a non-empty title from the job's or the seeker's title map. It is never empty for a non-empty URI. |
| `SkillMatching.MissingTitle` | src/lib/matching.ts:38 | A missing title is the URI itself or a non-empty title from the job's title map. It is never empty for a non-empty URI. |
| `SkillMatching.MatchedTitles` | src/lib/matching.ts:37 | One matched title per matched URI. |
| `SkillMatching.MissingTitles` | src/lib/matching.ts:38 | One missing title per missing URI. |
| `CoachingSections.Sections` | src/components/transition-results.tsx:32-52 | `parseSections` as a function. There is at most one section more than line-start `## ` occurrences. Every title is non-empty, and titles and bodies are trimmed. There is no section iff every piece of the split is blank. |
| `CoachingSections.ParseSections` | src/components/transition-results.tsx:32-52 | The loop's result is `Sections` of the text. There are at most one more sections than line-start `## ` occurrences, and every title is non-empty. |
| `CoachingSections.SplitFrom` | src/components/transition-results.tsx:33 | The split loop from piece start p and match position q always yields at least one piece. |
| `CoachingSections.Split` | src/components/transition-results.tsx:33 | `split` always yields at least one piece, and the empty text yields exactly one empty piece. |
| `CoachingSections.SplitJoin` | src/components/transition-results.tsx:33 | Splitting loses nothing: the pieces joined with `## ` give back the text. |
| `CoachingSections.SplitFromJoin` | src/components/transition-results.tsx:33 | The same, for the split loop started at any piece start. |
| `CoachingSections.SplitCount` | src/components/transition-results.tsx:33 | There is exactly one piece more than there are line-start `## ` occurrences. |
| `CoachingSections.SplitFromCount` | src/components/transition-results.tsx:33 | The same, for the split loop from any position. |
| `CoachingSections.HeadingsApart` | src/components/transition-results.tsx:33 | Two separator matches are never closer than three characters apart, so the split skips none. |
| `CoachingSections.SplitNoHeadingInside` | src/components/transition-results.tsx:33 | No piece contains a line-start `## ` of its own; only the first piece begins at a line start. So the text is cut at every such occurrence and nowhere else. |
| `CoachingSections.SplitFromNoHeadingInside` | src/components/transition-results.tsx:33 | The same, for the split loop from any position. |
| `CoachingSections.PieceHasNoHeading` | src/components/transition-results.tsx:33 | A stretch without a heading position yields a piece with no heading of its own. |
| `CoachingSections.SectionOf` | src/components/transition-results.tsx:40-47 | The title is non-empty and contains no newline. Title and body have no leading or trailing whitespace. A piece without a newline becomes title = the piece, body = "". A piece with a newline has a first newline at some position k > 0: the title is the trimmed text before k, the body the trimmed text after it, and that newline is in neither. |
| `CoachingSections.SectionsOf` | src/components/transition-results.tsx:36-51 | There are at most as many sections as pieces, and every title is non-empty and trimmed. No section comes out iff every piece is blank. |
| `CoachingSections.SectionsOfStep` | src/components/transition-results.tsx:36-48 | One iteration of the loop: a blank piece adds nothing, and any other piece adds exactly its section at the end. |
| `CoachingSections.SectionsOfConcat` | src/components/transition-results.tsx:36-51 | Sections keep the order of their pieces: the pieces `a + b` give the sections of `a` followed by those of `b`. |
| `CoachingSections.BlankHasNoSections` | src/components/transition-results.tsx:37-38 | Blank or whitespace-only text gives zero sections. |
| `CoachingSections.LeadingSection` | src/components/transition-results.tsx:33-47 | The first piece is a prefix of the text. When it is not blank, it becomes the first section. |
| `CoachingSections.Render` | src/components/transition-results.tsx:55-63 | The raw text is shown iff every piece is blank, in particular for blank text. Otherwise the section cards show `Sections` of the text, and there is at least one. |
| `CoachingSections.BareSeparatorShownRaw` | src/components/transition-results.tsx:55-63 | The non-blank text `## ` gives no section and is shown raw. |
| `JsText.Trim` | src/components/transition-results.tsx:37 | `trim` returns a contiguous piece of its input with no trimmable character at either end. Everything dropped around the piece is trimmable, and the result is empty iff the input is blank. |
| `JsText.IndexOf` | src/components/transition-results.tsx:40 | The result is -1 iff the character is absent. Otherwise it is the position of the character's first occurrence. |
| `SkillDedup.DedupByUri` | src/app/api/seeker/route.ts:46-49 | The output URIs are pairwise distinct and are exactly the input's URIs. They come in order of first occurrence, each with the last input record that has it. The output is no longer than the input, and as long exactly when the input URIs were distinct. |
| `SkillDedup.Put` | src/app/api/seeker/route.ts:48 | `Map.prototype.set` keeps every existing key in its place and adds at most one key, at the end. What the value becomes is stated in `PutStep`. |
| `SkillDedup.FromEntries` | src/app/api/seeker/route.ts:48 | The `Map` built from the entries has no more keys than there are entries. What it holds is stated in `FromEntriesRepresents`. |
| `SkillDedup.Values` | src/app/api/seeker/route.ts:47-48 | `Array.from(map.values())` has one value per key, and the value at position i is the one held for the i-th key in insertion order. |
| `SkillDedup.FromEntriesRepresents` | src/app/api/seeker/route.ts:48 | The `Map` built from the entries holds every URI once as a key, in first-occurrence order, each with the last record that has it. |
| `SkillDedup.PutStep` | src/app/api/seeker/route.ts:48 | Setting one more entry (a new key goes to the end; an existing key keeps its place and takes the new value) keeps the map faithful to the longer list. |
| `SkillDedup.DedupOfDistinct` | src/app/api/seeker/route.ts:46-49 | An input whose URIs are already distinct comes out unchanged. |
| `SkillDedup.DedupIdempotent` | src/app/api/seeker/route.ts:46-49 | Deduplicating twice gives the same as deduplicating once. |
| `SkillDedup.FirstPlaceLastRecord` | src/app/api/seeker/route.ts:46-49 | For `[a, b, c]` where `a` and `c` share a URI that `b` lacks, the result is `[c, b]`. |

## Left out

- `matchSkillsEnhanced` (fuzzy matching, title similarity, proficiency weighting, seeker relevance) and the co-occurrence computation: their code is not in the source files modelled here. src/lib/esco.ts is not part of this model.
- Route handlers, Prisma persistence, the cached-match path, the MCP server and tools, and the LLM and web-search calls: these are I/O. The profile builder's loops that collect taxonomy skills before deduplication await network calls. Only the deduplication step is modelled, as a function of the collected list.
- React rendering: the JSX, the accent colours per section title, the training-programme card and the loading state. Only the choice between raw text and section cards is modelled.
- SkillMatching.RoundedPercent: models `Math.round(m / n * 100)` in exact rational arithmetic, as `(200·m + n) div (2·n)`. IEEE double rounding of `m / n * 100` is not modelled. It differs where the double product falls just below a half: `23 / 40 * 100` is `57.49999999999999` in doubles, so `Math.round` gives 57 where the model gives 58; likewise 29 of 200 gives 14 in doubles and 15 in the model.
- Title lookups: `Record<string, string>` is modelled as a map in which an absent key reads as the empty string (`undefined` is falsy like `""`). Keys inherited from `Object.prototype` (such as `toString`) are not modelled; taxonomy URIs never take those names.
- Strings are sequences of Unicode scalar values, not UTF-16 code units. `trim`, `indexOf` for `\n` and slicing give the same strings either way, except on unpaired surrogates, which are not modelled.
- `split`: only the non-empty separator `/^## /m` is modelled. The generic cases of the ECMAScript algorithm (empty matches, the `limit` argument) do not arise here.
