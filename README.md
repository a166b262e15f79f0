# Content-based file renaming, modelled in Dafny

The renamer reads the paragraphs of an office document and proposes a file
name from their content. This project models that core. Each paragraph
carries its text, an upper-case flag, a centring flag and a font size.

Scoring adds points:

- for each match keyword the paragraph contains, and minus for each ignore keyword;
- for upper case;
- for the largest font size of the document;
- for centring.

The three best paragraphs are then cleaned of characters that file systems
reserve. The first year of the form 20xx in the text is attached. The name
is assembled as `main year - second - third` and stripped, cut to 200
characters and marked with " ★". Stripping shows at both ends: with no
non-empty secondary the name ends in a bare " -"; with an empty main
fragment it starts at the year, or at the dash when there is no year
("2023 - B", "- B"). Two pieces of path handling are modelled as well: picking
a free name with " (1)", " (2)", … when the proposal is taken, and putting a
prefix and a suffix around a file name's stem.

Modules, one file each:

- `PyStr`: the Python string operations the code relies on: `strip`, `lower`, `isupper`, `in`, `join`, `str(int)`, and deleting characters as `re.sub` with a character class does.
- `Sanitize`: `clean_filename` and `clean_text`.
- `Paragraphs`: the `TextParagraph` class. Its `points` field is mutable; the layout facts are constants.
- `Scoring`: the document's maximum font size and the score one pass adds to a paragraph.
- `Ranking`: the stable descending sort by points, on paragraph positions.
- `Year`: the first match of `\b(20\d{2})\b`.
- `Title`: `process_text`. The scoring loop, the padding loop and the empty-count loop are methods. The name they produce is specified by pure functions.
- `PosixPath`: `splitext`, `split` (that is, `dirname` and `basename`) and `join`.
- `UniqueFilename`: `get_unique_filename`.
- `FileOperations`: `create_new_filename`.
- `Wrappers`: the `Option` type, whose `None` stands for Python's `None` (a missing font size, no year, no title).

Scores are kept in half-points: the code's 0.5 is 1 here, and its 1 is 2. The
file system is a parameter: the set of paths that exist.

## Model

| member | source | states |
|---|---|---|
| Paragraphs.TextParagraph.constructor | dev/test.py:40-45 | the text is stored stripped, points start at 0, upper case is judged on the raw text, and size and centring are kept as given |
| Paragraphs.TextParagraph.AddPoints | dev/test.py:56-57 | the score grows by exactly the given amount and nothing else changes |
| Paragraphs.TextParagraph.MatchesKeyword | dev/test.py:59-60 | true if and only if the lower-cased keyword occurs at some position of the lower-cased text; the empty keyword always matches |
| Paragraphs.TextParagraph.HasMaxFontSize | dev/test.py:62-63 | a paragraph without a font size never qualifies |
| PyStr.Strip | dev/test.py:41 | the result has no whitespace at either end and is a contiguous piece of the input |
| PyStr.StripExact | dev/test.py:41 | strip keeps one contiguous piece of the input, and everything before and after that piece is whitespace |
| PyStr.StripDetermined | dev/test.py:41 | a piece of the input with only whitespace around it and none at its own ends is the result of strip, so strip removes the edge whitespace and nothing else |
| PyStr.CutFacts | dev/test.py:41 | such a piece is empty exactly when the whole string is whitespace, and otherwise starts and ends on a non-whitespace character |
| PyStr.Lower | dev/test.py:60 | same length, each character lower-cased, and no upper-case character left |
| PyStr.IsUpper | dev/test.py:43 | a text that counts as upper case holds an upper-case letter and is changed by lower-casing; all-digit text such as "123" does not count |
| PyStr.JoinWith | dev/test.py:233-239 | the join of an empty list is ""; otherwise it starts with the first part and is as long as the parts plus one separator between each pair |
| PyStr.NonEmpty | dev/test.py:239 | the non-empty entries: every result entry is non-empty and from the list, every non-empty value of the list occurs in it, and the result is empty exactly when every entry is ""; NonEmptyCounts and NonEmptyAppend add counts and order |
| PyStr.NonEmptyCounts | dev/test.py:239 | every non-empty string occurs in the result exactly as often as in the list, and "" never occurs, so equal entries are all kept |
| PyStr.NonEmptyAppend | dev/test.py:239 | filtering a concatenation is the concatenation of the filtered halves, so the kept entries stay in their input order |
| PyStr.StripNoop | dev/test.py:41 | a string without edge whitespace is left as it is |
| PyStr.LStripSuffix | dev/test.py:41 | lstrip keeps a suffix and drops only whitespace |
| PyStr.RStripPrefix | dev/test.py:41 | rstrip keeps a prefix and drops only whitespace |
| PyStr.Contains | dev/test.py:60 | the substring test `needle in hay` is true if and only if the needle occurs at some position |
| PyStr.NatToStringInjective | dev/test.py:267 | different counters print differently |
| PyStr.NatToString | dev/test.py:267 | `str(counter)` has at least one character, and exactly one when the number is below 10 |
| PyStr.KeepDeletesExactly | dev/test.py:254 | a character-class deletion keeps every kept character's count, removes every other one, and keeps the order |
| PyStr.Keep | dev/test.py:181-182 | deleting a character class, as these `re.sub` calls and the one in `clean_text` do, never lengthens the string and leaves only characters of the class |
| PyStr.KeepUnique | dev/test.py:254 | those three facts determine the result of the deletion |
| PyStr.KeepTwice | dev/test.py:181-182 | two deletions in a row equal one deletion by the conjunction of the two classes |
| Sanitize.CleanFilename | dev/test.py:180-182 | no control character (0x00-0x1F), none of the reserved characters (angle brackets, colon, double quote, both slashes, the bar, question mark, asterisk, and the newline, tab and page-control characters), no edge whitespace, and never longer than the input |
| Sanitize.CleanFilenameKeeps | dev/test.py:180-182 | what the cleaner keeps is the deletion's result minus only the whitespace at its two ends |
| Sanitize.CleanFilenameTwoPasses | dev/test.py:180-182 | the single deletion used here equals the code's two `re.sub` passes followed by `strip` |
| Sanitize.CleanFilenameNoop | dev/test.py:180-182 | a fragment that is already safe and stripped is unchanged |
| Sanitize.CleanFilenameIdempotent | dev/test.py:180-182 | cleaning twice equals cleaning once |
| Sanitize.CleanText | dev/test.py:252-254 | only 0x20-0x7E, newline and tab remain; each of them keeps its count and the order is kept |
| Sanitize.CleanTextDetermined | dev/test.py:252-254 | any string with those properties is the result of `clean_text` |
| Scoring.MaxFontSize | dev/test.py:186 | an upper bound of every paragraph's size (missing counted as 0) that some paragraph attains; the empty list is excluded because `max` raises on it |
| Scoring.FontOrZero | dev/test.py:186 | `font_size or 0`: 0 for a paragraph without a size, the size otherwise |
| Scoring.MatchCount | dev/test.py:191-196 | the number of matching keywords in a list is at most the list's length |
| Scoring.ScoreDeltaBounds | dev/test.py:190-208 | one pass changes a paragraph's half-point score by at least minus the number of ignore keywords and at most the number of match keywords plus 6; with no keywords it is 0, 2, 4 or 6 |
| Scoring.ScoreDelta | dev/test.py:190-208 | the matched keywords count +1 and the ignored ones -1; with all three flags set the delta is that difference plus 6, and with none of them it is the difference alone |
| Scoring.MatchCountAppend | dev/test.py:191-196 | keyword counts add up over concatenated lists, so a repeated keyword counts twice |
| Scoring.EmptyKeywordMatches | dev/test.py:191-193 | a list holding "" earns every paragraph at least one match |
| Scoring.FontPointAwarded | dev/test.py:203-204 | when some paragraph reports a font size, some paragraph earns the font point |
| Scoring.NoFontDataNoFontPoint | dev/test.py:186-204 | when no paragraph reports a size, the maximum is 0 and nobody earns the font point |
| Ranking.SortedByScoreCorrect | dev/test.py:216 | the sorted listing holds every paragraph exactly once, ordered by points descending, with ties in document order |
| Ranking.SortedByScore | dev/test.py:216 | the sorted listing has one entry per paragraph and each entry is a paragraph's position |
| Ranking.RankOrderUnique | dev/test.py:216 | any listing with that order and those entries is the same one, so any stable descending sort agrees with this one |
| Ranking.SortedPositionIsRank | dev/test.py:216 | position k holds the paragraph that exactly k paragraphs outrank |
| Ranking.RankFirstCorrect | dev/test.py:216 | the insertion sort of the first n positions lists exactly those positions in rank order |
| Title.ScoreParagraph | dev/test.py:190-208 | one paragraph's score grows by +1 per matched and -1 per ignored keyword occurrence in the lists, and by +2 for each of upper case, the maximum font and centring |
| Title.ScoreParagraphs | dev/test.py:189-208 | every paragraph's new score is its old one plus its score delta, times the number of times it is listed |
| Title.BestCleaned | dev/test.py:217 | as many cleaned fragments as there are paragraphs, but at most three |
| Title.Padded | dev/test.py:221-222 | three entries: the given ones first, then "" |
| Title.TopTexts | dev/test.py:217-222 | `top_texts` has three entries, and those past the number of paragraphs are "" |
| Title.PaddedTopTexts | dev/test.py:217-222 | the two steps, cleaning the best paragraphs and padding, compute TopTexts |
| Title.TopTextsEntry | dev/test.py:216-222 | entry k of `top_texts` is the cleaned text of the k-th best paragraph, or "" past the last paragraph |
| Title.TopTextsAreBest | dev/test.py:216-222 | entry k is the cleaned text of the paragraph that exactly k paragraphs outrank |
| Title.PadWithEmpty | dev/test.py:221-222 | the padding loop appends "" until there are three entries |
| Title.CountEmpty | dev/test.py:224-227 | the count is at most the length, and it equals the length exactly when every entry is "" |
| Title.CountEmptyTexts | dev/test.py:224-227 | the counting loop computes that count |
| Title.SelectTopTexts | dev/test.py:216-229 | gives `top_texts`, and reports "all empty" exactly when all three entries are "" |
| Title.NoTitleIff | dev/test.py:216-229 | the result is None exactly when each of the up to three best paragraphs cleans to "" |
| Year.FindYear | dev/test.py:234 | the leftmost position where `\b20\d\d\b` matches, or none when there is no match |
| Title.YearSuffix | dev/test.py:233-235 | "" exactly when the text has no year; otherwise a space and the four characters of the leftmost year |
| Title.WordBoundaryYear | dev/test.py:234 | a year glued to a letter does not count: "v2023 2024" yields " 2024" |
| Title.CreateFilenameLayout | dev/test.py:237-240 | for a non-empty main fragment the name is main, year and " - " before the joined non-empty secondaries, ending in a bare " -" when there is none; for an empty main fragment it is the left-stripped year and dash, followed by a space and the joined secondaries when there are any |
| Title.NoMainNoYear | dev/test.py:237-240 | with an empty main fragment, no year and secondaries [b, ""], the name is "- " followed by b |
| Title.NoMainWithYear | dev/test.py:237-240 | with an empty main fragment, the four-digit year y and the one secondary b, the name is y, " - " and b |
| Title.TwoSecondaries | dev/test.py:237-240 | with a non-empty main fragment m, a year suffix y and two non-empty secondaries b and c, the name is m, y, " - ", b, " - ", c: both secondaries, in rank order, even when b equals c |
| Title.CreateFilename | dev/test.py:237-240 | the name has no whitespace at either end and is no longer than main, year, " - " and the joined secondaries together |
| Title.Truncate | dev/test.py:248 | a prefix of the input that is exactly 200 characters long when the input is longer, and the whole input otherwise |
| Title.SynthesizedNameShape | dev/test.py:243-248 | every proposed name ends with " ★", is at most 202 characters long, holds no control or reserved character, and starts with the truncated main fragment |
| Title.Synthesize | dev/test.py:216-250 | the steps after scoring never report the empty-input case, and every name they produce ends with " ★" and is at most 202 characters long |
| Title.ProposeName | dev/test.py:216-250 | the steps after scoring compute the specified name from the texts and the final scores |
| Title.ProcessText | dev/test.py:184-250 | raises on an empty list; otherwise it scores every paragraph as ScoreParagraphs states, using the maximum taken before scoring, and returns the name specified for the texts and the new scores |
| PosixPath.SplitExt | src/file_operations.py:17 | stem plus extension is the input, and a non-empty extension starts with "." |
| PosixPath.SplitExtCorrect | src/file_operations.py:17 | an extension is split off exactly when the last "." lies in the last path component and something other than dots precedes it there; otherwise no position qualifies |
| PosixPath.SplitExtAt | src/file_operations.py:17 | wherever an extension begins, splitext cuts there |
| PosixPath.Split | dev/test.py:261-262 | the base name holds no "/" |
| PosixPath.SplitParts | dev/test.py:261-262 | the directory is a prefix of the path, the base name a suffix, and only slashes lie between them; the base name is the whole path or starts right after a "/"; the directory is empty, all slashes (then nothing lies between), or does not end in "/" |
| PosixPath.Dirname | dev/test.py:261 | the directory is a prefix of the path |
| PosixPath.Basename | dev/test.py:262 | the base name is a suffix of the path without any "/" |
| PosixPath.JoinPath | dev/test.py:268 | the joined path is at least as long as its second part |
| PosixPath.JoinPathShape | dev/test.py:268 | an absolute second part replaces the first; a relative one is appended directly when the first part is empty or ends in "/", and after one added "/" otherwise |
| PosixPath.JoinPathInjective | dev/test.py:268 | different relative names joined to the same directory give different paths |
| PosixPath.BasenameOfJoin | dev/test.py:268 | the base name of `join(d, x)` is x when x is a non-empty name without "/" |
| UniqueFilename.CandidateInjective | dev/test.py:266-268 | different counters give different candidate paths |
| UniqueFilename.Candidate | dev/test.py:261-268 | the candidate path starts with the directory of the original path |
| UniqueFilename.CandidateNoDirectory | dev/test.py:261-268 | for a path without a directory the candidate is just `name (k)ext`, with no "/" in front |
| UniqueFilename.ReportCandidates | dev/test.py:261-268 | the candidates for "report.docx" are "report (1).docx" and then "report (2).docx" |
| UniqueFilename.NumberedName | dev/test.py:267 | `name (k)ext` is longer than name and extension together by more than 3, and holds no "/" when they hold none |
| UniqueFilename.CandidateKeepsExtension | dev/test.py:261-268 | the candidate's base name is `name (k)ext`, built from the original name, and its extension is the original one |
| UniqueFilename.RoundsBounded | dev/test.py:266-269 | at most as many rounds can find their candidate taken as there are existing paths, so the search ends |
| UniqueFilename.GetUniqueFilename | dev/test.py:256-271 | the result never exists; a free path is returned unchanged; otherwise the result is the candidate for the least counter k >= 1 whose path is free |
| FileOperations.CreateNewFilename | src/file_operations.py:15-18 | the result starts with the prefix, ends with the suffix followed by the original extension, holds the original stem between them, and its length is the sum of the lengths of prefix, file name and suffix |
| FileOperations.NoAffixesIdentity | src/file_operations.py:15-18 | with an empty prefix and an empty suffix the file name is unchanged |
| FileOperations.ExtensionKept | src/file_operations.py:17-18 | when the name has an extension and the suffix holds no "/", the new name splits into prefix+stem+suffix and the same extension |
| FileOperations.PrefixCreatesExtension | src/file_operations.py:17-18 | without an extension the result can gain one: "README" with prefix "v1." gets ".README" |
| FileOperations.SlashSuffixDropsExtension | src/file_operations.py:17-18 | a "/" in the suffix can lose the extension: "a.txt" with suffix "/" gets none |

## Left out

- Document readers, keyword files, logging, file validation and the renaming I/O in dev/test.py are external. The core receives paragraphs with text, font size and centring already extracted.
- The `pprint` and `print` debug output of `process_text` (dev/test.py:210-213, 219) and `TextParagraph.to_dict`, which only feeds that output, are not modelled.
- `process_text` takes `**kwargs` and ignores them. The model has no such parameter; the 200-character limit is the constant `Title.LengthLimit`.
- Font sizes are natural numbers. The readers report point sizes that can be fractional; the code only compares them for equality and takes their maximum, which natural numbers model faithfully as long as sizes are exact.
- Scores are integers counting half-points, instead of floats. Every score the code forms is a multiple of 0.5, so nothing is lost.
- Case handling (`lower`, `isupper`) and the regular-expression classes `\b`, `\w` and `\d` are ASCII only. Python applies them to all of Unicode. `strip` uses Python's full whitespace set.
- `os.path` is the POSIX version: "/" is the only separator. On Windows `ntpath` also treats "\\" and drive letters, and this model does not.
- `os.path.exists` is a fixed set of paths. Files that appear or vanish during the search are not modelled.
- `isupper` follows the code: a text needs a cased letter, so `"123".isupper()` is False and an all-digit paragraph earns no upper-case point.
- A paragraph without a font size never earns the font point, even when the document-wide maximum is 0: `max_font_size` is then 0 and `None == 0` is False.
- No deduplication of the top texts takes place in the code, so none is modelled: two equal paragraphs both appear in the name (NonEmptyCounts, TwoSecondaries).
- ExtensionKept: states the extension is kept only for names that have one. For a name without an extension a prefix can create one (PrefixCreatesExtension), so the unconditional claim is false. Its condition on the suffix is "no /" alone: a "." in the suffix does no harm.
- rename_files.py:94-95 repeats `create_new_filename`. It is not modelled separately.
