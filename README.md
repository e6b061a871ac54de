# GitHub profile summariser — prompt builder and summary renderer

The application fetches a user's public repositories and asks a language
model for a Markdown summary of the developer. It then shows that summary
with a small renderer of its own. This project models the two pure ends
of that pipeline and proves properties of them.

**The prompt builder** (`buildPrompt`, services/geminiService.ts)
- With no repositories, it asks for an encouraging message that names the user.
- Otherwise it sorts the repositories by descending star count. The sort is stable.
- Each repository becomes one entry: `- **name**: (Language: L, Stars: S) D`. The entry is one line when no name, language or description holds a line break.
- It joins those lines with line breaks and writes the block into a fixed template.
- The template asks for five `### ` sections and shows one `* ` example entry.

The model covers the empty branch, the sort, the line format, the join and the template text. The template is kept line by line, with the source's indentation.

**The summary renderer** (`SummaryRenderer`, components/SummaryDisplay.tsx)
- It splits the text on `\n` and trims every line.
- A `### ` line becomes a heading.
- A `* ` line adds an item to a pending list.
- Any other non-empty line becomes a paragraph.
- A heading or a paragraph first flushes the pending items into one list block. So does the end of the text.
- Inside a bullet item, the text is split on `**`, and every odd-numbered part is bold.
- Inside a paragraph, the global lazy pattern `/\*\*(.*?)\*\*/g` turns each `**x**` into bold `x`.

The renderer is modelled imperatively: `SummaryDisplay.SummaryRenderer` keeps the source's `elements` and `listItems` variables and loop. `SummaryDisplay.RenderLine` is the per-line `forEach` callback, and `SummaryDisplay.FlushList` is the `flushList` closure. The method is proved equal to a declarative reference, `SummaryDisplay.Blocks`. That reference groups each maximal run of bullet and blank lines into one list. The properties of the renderer are then proved about that reference.

The JavaScript string built-ins that both sides rely on are written out in module `JsString`:
- `trim` (the ECMAScript white-space and line-terminator set);
- `startsWith`;
- `indexOf`;
- `replace` with a string pattern (first occurrence only);
- `split` with a string separator;
- `join`;
- the decimal text of an integer.

Files:
- `wrappers.dfy`: `Option`.
- `js_string.dfy`: the string built-ins.
- `types.dfy`: `Repo`.
- `gemini_service.dfy`: `buildPrompt`.
- `summary_display.dfy`: the renderer.
- `prompt_rendering.dfy`: how the renderer reads the conventions the prompt itself uses.

The renderer is modelled as the code behaves, which is narrower than general Markdown:
- Only `**` bold is recognised. There are no code spans, links or italics.
- Heading text is not parsed for bold.
- A blank line does not end a pending list. Bullet lines separated only by blank lines form one list.
- Empty parts of a bullet's `split('**')` are kept as empty fragments.
- `### ` is tested before `* `. Both tests look at the trimmed line, so a bare `###` or `*` is a paragraph.

## Model

| member | source | states |
|---|---|---|
| SummaryDisplay.SummaryRenderer | components/SummaryDisplay.tsx:9-54 | The blocks pushed by the line loop and the final flush are exactly `Blocks(text)`, the reference layout of the trimmed, classified lines. |
| SummaryDisplay.RenderLine | components/SummaryDisplay.tsx:27-49 | One step of the `forEach` callback keeps the layout invariant: the blocks pushed so far, followed by the layout of the pending items and the remaining lines, do not change. A bullet line only appends its item to the pending items. A blank line changes nothing. A heading or paragraph line leaves no items pending. |
| SummaryDisplay.FlushList | components/SummaryDisplay.tsx:14-25 | Afterwards the pending items are empty. One list holding all pending items is appended. Nothing is appended exactly when there were no pending items. |
| SummaryDisplay.Classify | components/SummaryDisplay.tsx:28-48 | The three-way branch of the loop body on one trimmed line. Its contract is carried by `ClassifyCases` and `BareMarkerIsParagraph`. |
| SummaryDisplay.BulletItem | components/SummaryDisplay.tsx:38-42 | The `split('**').map(...)` of a bullet's content. Its contract is carried by `BulletItemShape` and `Alternate`. |
| SummaryDisplay.ScanBold | components/SummaryDisplay.tsx:46 | The global lazy replacement, scanning from one index. Its contract is carried by `ScanBoldFirstMatch` and `ScanBoldUnmatched`, which together fix every scan. |
| SummaryDisplay.ParseBold | components/SummaryDisplay.tsx:46 | The fragments of a paragraph line. Its contract is carried by `ParseBoldFirstMatch`, `ParseBoldUnmatched`, `ParseBoldRoundTrip` and `ParseBoldWellFormed`. |
| SummaryDisplay.ClassifyCases | components/SummaryDisplay.tsx:28-48 | A line is a heading iff its trimmed text starts with `### `, and the heading text is that text without the first four characters. It is a bullet iff the trimmed text starts with `* ` (heading first); the item is built from the text after `* `. Otherwise a non-empty trimmed line is a paragraph. A line is blank iff every character is trimmable. |
| SummaryDisplay.BareMarkerIsParagraph | components/SummaryDisplay.tsx:28-44 | A line that trims to `###` or `*` is a paragraph holding just that marker as plain text. |
| SummaryDisplay.Alternate | components/SummaryDisplay.tsx:40-42 | One fragment per part, carrying that part's text, bold exactly at odd indices. |
| SummaryDisplay.BulletItemShape | components/SummaryDisplay.tsx:38-42 | A bullet item has one fragment more than the content has `**`. Fragments are bold exactly at odd indices, and no fragment holds `**`. The fragments' text is the content with every `**` removed. |
| SummaryDisplay.CloseFrom | components/SummaryDisplay.tsx:46 | The lazy `(.*?)\*\*` finds the first `**` at or after the start, with no line terminator before it. When it fails, every later `**` has a line terminator before it. |
| SummaryDisplay.ParseBoldRoundTrip | components/SummaryDisplay.tsx:46 | Writing a paragraph's fragments back with `**` around the bold ones gives the original line: nothing is lost or reordered. |
| SummaryDisplay.ParseBoldWellFormed | components/SummaryDisplay.tsx:46 | Plain fragments are non-empty and never adjacent. Every bold fragment is the shortest possible inner text: no `**`, no line terminator, not ending in `*`. |
| SummaryDisplay.ParseBoldUnmatched | components/SummaryDisplay.tsx:46 | A line in which no `**` has a closing `**` stays one plain fragment, so an unmatched `**` is literal text. |
| SummaryDisplay.ScanBoldUnmatched | components/SummaryDisplay.tsx:46 | When no match starts at or after the scan position, everything from the last match on stays one plain fragment (or none when that text is empty). |
| SummaryDisplay.ScanBoldFirstMatch | components/SummaryDisplay.tsx:46 | Scanning from any index, the first match (`**`, the shortest inner text, `**`) becomes a bold fragment holding that inner text. The text before it is one plain fragment, and the search resumes right after the closing `**`, as the global regular expression does. With `ScanBoldUnmatched` this fixes the result of every scan. |
| SummaryDisplay.ParseBoldFirstMatch | components/SummaryDisplay.tsx:46 | The first match of a paragraph line becomes `Bold` of its inner text, preceded by the plain text before it; the rest of the line after the closing `**` is scanned afresh. |
| SummaryDisplay.ParseBoldTrailingUnmatched | components/SummaryDisplay.tsx:46 | In `a **b** c **d` the first pair is bold and the trailing unmatched `**` stays literal: the fragments are `a `, bold `b`, and ` c **d`. |
| SummaryDisplay.BulletRunMaximal | components/SummaryDisplay.tsx:37-48 | A pending list collects every line of a run of bullet and blank lines, and the run ends only at a heading, a paragraph or the end of the text. |
| SummaryDisplay.LayoutWellGrouped | components/SummaryDisplay.tsx:14-25 | No list block is empty, and no two list blocks are adjacent. |
| SummaryDisplay.LayoutItems | components/SummaryDisplay.tsx:37-51 | The items of all list blocks, in order, are exactly the items of the bullet lines, in line order. Every bullet item lands in exactly one list, and the final flush loses none. |
| SummaryDisplay.LayoutLineBlocks | components/SummaryDisplay.tsx:30-48 | The heading and paragraph blocks, in order, are exactly one block per heading or paragraph line, in line order. |
| SummaryDisplay.LayoutStartsPlain | components/SummaryDisplay.tsx:30-48 | Lines that start with a heading or paragraph start the output with that block, not with a list. |
| SummaryDisplay.LayoutIgnoresBlanks | components/SummaryDisplay.tsx:44-48 | Removing every blank line does not change the blocks: an empty trimmed line neither flushes nor emits. |
| SummaryDisplay.BlankLineKeepsBlocks | components/SummaryDisplay.tsx:27-49 | Inserting a white-space-only line between two parts of the text does not change the blocks. |
| SummaryDisplay.LinesAround | components/SummaryDisplay.tsx:10 | Splitting `a + "\n" + w + "\n" + b` on `\n` gives the lines of `a`, then `w`, then the lines of `b`. |
| JsString.Trim | components/SummaryDisplay.tsx:28 | The result is the middle part of the input. It neither starts nor ends with a trimmable character, and everything cut off on either side is trimmable. |
| JsString.TrimEmptyIff | components/SummaryDisplay.tsx:44 | A trimmed line is empty iff every character of the line is trimmable. |
| JsString.TrimIdempotent | components/SummaryDisplay.tsx:28 | Trimming a trimmed line changes nothing. |
| JsString.IndexOf | components/SummaryDisplay.tsx:34 | A found index is an occurrence with no occurrence before it. No index is found iff the pattern occurs nowhere. |
| JsString.ReplacePrefix | components/SummaryDisplay.tsx:34 | `replace('### ', '')` on a line starting with `### ` removes exactly that prefix. |
| JsString.SplitJoinRoundTrip | components/SummaryDisplay.tsx:39 | Joining the parts of a split with the separator gives the input back, and no part contains the separator. |
| JsString.SplitPieces | components/SummaryDisplay.tsx:39 | A split gives one part more than the number of non-overlapping occurrences, and the parts concatenate to the input with every occurrence removed. |
| JsString.SplitJoin | services/geminiService.ts:19 | Splitting on a one-character separator undoes joining on it when no piece holds that character. |
| JsString.SplitAppend | components/SummaryDisplay.tsx:10 | Splitting on `\n` around a line break splits the two sides independently. |
| JsString.IntToString | services/geminiService.ts:17 | The decimal text of a number is non-empty and holds no line break. |
| JsString.NatToStringValue | services/geminiService.ts:17 | Reading the digits of a star count back gives the number. |
| GeminiService.BuildPrompt | services/geminiService.ts:5-53 | `buildPrompt` itself. Its contract is carried by `NoReposNamesUser` and `PromptNamesUser` (the username in both branches), `PromptLayout` (the lines of the prompt with repositories), `SectionHeadingLines` and `ExampleEntryLine` (the template). |
| GeminiService.RepoDetails | services/geminiService.ts:14-19 | The sort, map and join that build the repository block. Its contract is carried by `SortByStars`, `SortByStarsStable`, `SortByStarsCharacterised` (the order) and `RepoDetailsLines` (one line per repository). |
| GeminiService.InsertByStars | services/geminiService.ts:15 | Inserting into a sorted list makes it one longer, and the new first element is either the inserted repository or the old first one. |
| GeminiService.InsertByStarsOrdered | services/geminiService.ts:15 | Inserting adds exactly the one repository (as a multiset) and keeps a list in descending star order. |
| GeminiService.SortByStars | services/geminiService.ts:15 | The result is a permutation of the repositories, in descending star order. |
| GeminiService.SortByStarsStable | services/geminiService.ts:15 | For every star count, the repositories with that count keep their input order. |
| GeminiService.StableDescendingUnique | services/geminiService.ts:15 | Two descending lists that agree on the order within each star count are equal. |
| GeminiService.SortByStarsCharacterised | services/geminiService.ts:15 | `SortByStars` is the only descending arrangement that keeps the order within each star count, i.e. what a stable sort with `b - a` gives. |
| GeminiService.RepoLine | services/geminiService.ts:16-18 | A repository's line starts with `- **name**: (Language: `. It holds no line break when no name, language or description does. |
| GeminiService.RepoLineFallbacks | services/geminiService.ts:17 | A missing language, an empty one and `N/A` give the same line. A missing and an empty description give the same line. |
| GeminiService.RepoDetailsLines | services/geminiService.ts:14-19 | When no name, language or description holds a line break, splitting the repository block on `\n` gives one line per repository, and line `i` describes the `i`-th repository of the sorted order. |
| GeminiService.PromptLayout | services/geminiService.ts:21-52 | With repositories, the prompt is the template's head lines (introduction, username line, list header), then the repository lines (the first indented by the template), then the template's tail lines, all joined by `\n`. |
| GeminiService.SectionHeadingLines | services/geminiService.ts:32-48 | The template's tail holds five `### ` heading lines, titled Overall Summary, Key Technical Skills, Common Tools & Platforms, Project Breakdown and Estimated Skill Level, in that order. |
| GeminiService.ExampleEntryLine | services/geminiService.ts:46 | The template's tail holds the example `* **react-dashboard-pro**: …` entry line. |
| GeminiService.PromptNamesUser | services/geminiService.ts:6-25 | In both branches the username occurs verbatim in the prompt. |
| GeminiService.NoReposNamesUser | services/geminiService.ts:6-12 | The message for a user without repositories contains the username verbatim. |
| GeminiService.ReposNamesUser | services/geminiService.ts:25 | The full prompt contains the username verbatim. |
| PromptRendering.TemplateSectionsRender | services/geminiService.ts:32-48 | Each of the five section headings the template asks for is classified by the renderer as a heading with that section's title. |
| PromptRendering.SectionHeadingClassified | components/SummaryDisplay.tsx:28-36 | An indented `### title` line, where the title neither starts nor ends with white space, is a heading whose text is the title. |
| PromptRendering.IndentedBulletClassified | components/SummaryDisplay.tsx:28-43 | An indented `* entry` line, where the entry does not end in white space, is a bullet whose item is built from the entry. |
| PromptRendering.ExampleEntryRenders | services/geminiService.ts:46 | The template's example entry is classified by the renderer as a bullet item. |
| PromptRendering.BoldLead | components/SummaryDisplay.tsx:46 | In a paragraph line opening with `- **name**`, where the name has no `*` and no line terminator, the first two fragments are `- ` and the bold name. |
| PromptRendering.RepoLineRendersBoldName | services/geminiService.ts:17 | A repository line read by the renderer is a paragraph whose first two fragments are `- ` and the repository name in bold, provided the name holds no `*` and no line terminator. |

## Left out

- App.tsx: React state, event handlers and conditional JSX around the asynchronous call are user-interface wiring.
- The `SummaryDisplay` component (components/SummaryDisplay.tsx:57-63) only wraps the renderer in a styled container.
- `summarizeGitHubProfile` (services/geminiService.ts:55-77) is left out. It reads an environment variable and calls the `@google/genai` SDK, both of which are I/O and foreign code.
- services/githubService.ts is left out. It does a `fetch` against the GitHub REST API and decodes the JSON, which is network I/O.
- HTML output is left out. The renderer builds `<h3>`, `<p>`, `<ul>`, `<li>`, `<span>` and `<strong>` elements with React keys and CSS classes; the model keeps the block and fragment structure instead. A paragraph's HTML goes to `dangerouslySetInnerHTML` without escaping. The browser's reading of any HTML already in the text is therefore not modelled.
- `.sort` reorders the caller's array in place. The model returns the sorted sequence and does not model that mutation.
- JavaScript strings are UTF-16 code units; the model uses Unicode characters. The trimmable characters all lie in the Basic Multilingual Plane.
- `stargazers_count` is a JavaScript number. It is modelled as an integer. The text of non-integral or very large numbers (exponent notation) is not modelled.
- `forks_count` is carried in `Repo` but never read by the modelled code.
- Line breaks inside repository fields are not stripped: the source writes `name`, `language` and `description` into the prompt unchanged, so a multi-line description adds lines to the prompt. `RepoDetailsLines` states the one-line-per-repository layout only for fields without line breaks.
- GeminiService.PromptLayout: states the whole prompt as a join of its lines, not as the result of splitting it back on `\n`. The exact split is proved only for the repository block (`RepoDetailsLines`). Splitting the whole prompt would need a proof that the long literal template lines contain no line break, and that proof is out of reach of the verifier's resource limit.
- GeminiService.PromptNamesUser: states that the username occurs in the prompt, not its exact position in each branch.
