# Markdown Mimic: region replacement, in Dafny

Markdown Mimic is a GitHub Action. It is meant to copy the content of `.mimic`
template files into Markdown files, between the tags `<!--MIMIC_START-->` and
`<!--MIMIC_END-->`. This project models the logic of `mimic.py` that decides
what text a target becomes and how names and messages are derived. It proves
properties of that model.

- `text.dfy` (module `Text`) models, over `seq<char>`, the Python string
  operations the script calls: `endswith`, `replace`, `strip` with one
  character and ASCII `lower`. It also holds substring search, which is how the
  model finds the regex match of mimic.py:13, and `Join`, a reference
  definition used only to state what `replace` does.
- `mimic.dfy` (module `Mimic`) models `generate_new_content`. That function is one
  `re.sub` call with the pattern `<!--MIMIC_START-->[\s\S]+<!--MIMIC_END-->` and the
  replacement `start + "\n" + content + "\n" + end`.
  - `IsMatch` is a direct reading of the pattern.
  - `IsLeftmostLongest` is the match Python's engine reports: leftmost, then longest, because `+` is greedy.
  - `ReSub` is `re.sub`: replace that match, then keep searching after it.
  - `GenerateNewContent` is written with substring search. It takes the first start tag and the last end tag that begins at least one character after that tag ends. It is proved equal to `ReSub`.
- `mimic_main.dfy` (module `MimicMain`) models the pure steps inside `main`:
  - `FolderName` strips `/` from both ends of the folder names.
  - `SelectTemplates` keeps the directory entries that end in `.mimic`.
  - `TargetFileName` replaces `.mimic` in a template's name with the literal `.{file_ext}`.
  - `CommitMessage` appends ` [no ci]` to the commit message.

Three facts about the code shape the model:
- The quantifier `+` is greedy, so a region runs from the first start tag to
  the last end tag after it (`GreedyThroughLastEndTag`).
- One fixed tag pair serves every template.
- The script has no recursive walk that selects files (the only recursion,
  mimic.py:25-32, only logs), no output mirror and no step that writes any
  file. Its per-file loop cannot run as written (see "Left out").

## Model

| member | source | states |
|---|---|---|
| `Text.FirstIndexOf` | mimic.py:13 | the result is an occurrence of the tag with none before it, and it is `None` exactly when the text does not contain the tag |
| `Text.LastIndexOfFrom` | mimic.py:13 | the result is an occurrence at or after `lo` with none after it, and it is `None` only when no occurrence begins at or after `lo` |
| `Mimic.Replacement` | mimic.py:55 | the replacement text: the start tag, a newline, the content, a newline and the end tag; its length is the sum of theirs |
| `Mimic.IsMatch` | mimic.py:11-13 | definition: `s[a..b]` matches the pattern, i.e. it starts with the start tag, ends with the end tag and has at least one character between them; characterised by `FindMatch` and `LeftmostLongestOf` |
| `Mimic.IsLeftmostLongest` | mimic.py:13 | definition: the match Python reports, leftmost first and then longest; `OnlyLeftmostLongest` proves it unique and `LeftmostLongestOf` locates it |
| `Mimic.ReSub` | mimic.py:56 | definition of `re.sub` on this pattern: replace the reported match and go on after it; `GenerateNewContentIsReSub` equates it with `GenerateNewContent` and `NoMatchAfter` shows it replaces once |
| `Mimic.FindMatch` | mimic.py:11-13 | the span made of the first start tag and the last end tag at least one character after it is the leftmost-longest match of the pattern; it is `None` exactly when the pattern matches nowhere |
| `Mimic.LeftmostLongestOf` | mimic.py:13 | the first start tag and the last end tag beginning at least one character after that tag ends delimit the match the greedy pattern reports |
| `Mimic.OnlyLeftmostLongest` | mimic.py:13 | the reported match is unique: any two leftmost-longest matches of one text coincide |
| `Mimic.GenerateNewContent` | mimic.py:53-56 | a target where the pattern matches nowhere comes back unchanged; otherwise the leftmost-longest match is replaced by the start tag, a newline, the content, a newline and the end tag |
| `Mimic.NoMatchAfter` | mimic.py:56 | nothing after the reported match matches again, so `re.sub` replaces one region at most |
| `Mimic.GenerateNewContentIsReSub` | mimic.py:53-56 | the model equals `re.sub`: replace the leftmost-longest match, then continue after it |
| `Mimic.NoStartTagUnchanged` | mimic.py:13 | a target without `<!--MIMIC_START-->` is returned unchanged |
| `Mimic.NoEndTagAfterStartUnchanged` | mimic.py:13 | a target with no end tag beginning at least one character after the first start tag ends is returned unchanged |
| `Mimic.AdjacentTagsUnchanged` | mimic.py:11-13 | `<!--MIMIC_START--><!--MIMIC_END-->` is not replaced, because `[\s\S]+` needs at least one character |
| `Mimic.ReplacedRegion` | mimic.py:55-56 | with `i` the first start tag and `j` the last end tag after it, the result is `target[..i]`, the start tag, a newline, the content, a newline, the end tag, then `target[j + 16..]` |
| `Mimic.OutsideRegionPreserved` | mimic.py:56 | text before the match and after it is kept character for character, and exactly the replacement stands between them |
| `Mimic.StartStaysFirst` | mimic.py:13 | a first start tag stays first in any text that agrees up to its end |
| `Mimic.EndStaysLast` | mimic.py:13 | a last end tag stays last in any text with the same ending from that tag on |
| `Mimic.ReplacedIsLeftmostLongest` | mimic.py:13 | a text that starts with the start tag and ends with the end tag, put in place of the reported match, becomes the new reported match |
| `Mimic.ReplacementIsStable` | mimic.py:53-56 | the text produced by a replacement is mapped to itself |
| `Mimic.Idempotent` | mimic.py:53-56 | applying the replacement twice with the same content gives the same text as applying it once |
| `Mimic.WholeRegionReplaced` | mimic.py:53-56 | a target that is the start tag, at least one character of anything (inner tags included) and the end tag becomes exactly the replacement |
| `Mimic.GreedyThroughLastEndTag` | mimic.py:13 | with two end tags the region runs through the second: `START x END y END` becomes just the replacement, whatever `x` and `y` are |
| `Mimic.ReplacesOldContent` | mimic.py:55 | a block written by an earlier run with other content becomes the block for the new content |
| `Text.TrimStart` | mimic.py:79-80 | the result is a suffix of the input, every character dropped is the stripped one, and the result does not start with it |
| `Text.TrimEnd` | mimic.py:79-80 | the result is a prefix of the input, every character dropped is the stripped one, and the result does not end with it |
| `Text.Strip` | mimic.py:79-80 | the result is a slice of the input whose two edges consist of the stripped character only and whose ends are not that character |
| `Text.StrippedCoreUnique` | mimic.py:79-80 | two such splits of a text leave the same core |
| `Text.StripUnique` | mimic.py:79-80 | `strip` returns the core of any such split |
| `Text.StripIdempotent` | mimic.py:79-80 | stripping twice is stripping once |
| `MimicMain.FolderName` | mimic.py:79-80 | the folder name neither starts nor ends with `/`, and it is what remains once the slashes at both ends are removed |
| `MimicMain.FolderNameIdempotent` | mimic.py:79-80 | a stripped folder name is left as it is |
| `Text.EndsWith` | mimic.py:105 | definition of `endswith`: the text has the suffix as its last characters; used by `IsTemplateName` |
| `MimicMain.IsTemplateName` | mimic.py:105 | definition: the entry name ends with `.mimic`; `SelectTemplates` keeps exactly these names |
| `MimicMain.SelectTemplates` | mimic.py:105 | an entry is selected exactly when it is listed and ends with `.mimic`, and each selected entry appears as often as it is listed |
| `MimicMain.SelectTemplatesAppend` | mimic.py:105 | selection keeps the listing order, because selecting from a concatenation concatenates the selections |
| `Text.ReplaceAll` | mimic.py:110 | definition of `str.replace`: scanning left to right, each occurrence not overlapping one already replaced is replaced; characterised by `ReplaceAllSkip`, `ReplaceAllAbsent`, `ReplaceAllFront` and `TargetFileNameJoin` |
| `MimicMain.TargetFileName` | mimic.py:110 | definition: `replace(".mimic", ".{file_ext}")`; every `.mimic` is replaced by the literal `.{file_ext}`, by `TargetFileNameJoin` |
| `Text.ReplaceAllSkip` | mimic.py:110 | `replace` copies unchanged a prefix where no occurrence begins |
| `Text.ReplaceAllAbsent` | mimic.py:110 | `replace` leaves text without the pattern as it is |
| `Text.ReplaceAllFront` | mimic.py:110 | an occurrence at the front is replaced and the scan resumes after it |
| `MimicMain.NoOccurrenceBeforeTag` | mimic.py:110 | `.mimic` cannot overlap itself, so in `a + ".mimic" + b` no occurrence starts inside `a` when `a` has none |
| `MimicMain.TargetFileNameJoin` | mimic.py:110 | every occurrence of `.mimic` is replaced: pieces joined by `.mimic` become the same pieces joined by the literal `.{file_ext}` |
| `MimicMain.TargetFileNameWithoutTag` | mimic.py:110 | a name without `.mimic` is its own target name |
| `MimicMain.TargetFileNameOfTemplate` | mimic.py:110 | `stem.mimic` targets `stem.{file_ext}` when the stem holds no `.mimic` |
| `MimicMain.TargetFileNameExample` | mimic.py:110 | `HEADER.mimic` targets the file literally named `HEADER.{file_ext}`, because the line is not an f-string |
| `Text.LowerChar` | mimic.py:133 | definition: ASCII lower-casing of one character; used by `Lower` |
| `Text.Lower` | mimic.py:133 | the result has the input's length, holds no ASCII capital, and keeps every character that is not a capital; `LowerIsYes` characterises `Lower(s) == "yes"` |
| `Text.LowerIdempotent` | mimic.py:133 | lower-casing twice is lower-casing once |
| `MimicMain.LowerIsYes` | mimic.py:133 | `skip_ci.lower() == 'yes'` holds exactly for the three letters y, e, s in any case |
| `MimicMain.CommitMessage` | mimic.py:133-134 | ` [no ci]` is appended exactly when `skip_ci` is `yes` in any case; otherwise the message is unchanged |

## Left out

- Git and subprocess calls are foreign process calls and are not modelled. These are the import-time `git config` and `git add` (mimic.py:10, mimic.py:18-23), `git_commit_push` (mimic.py:34-51) and the user configuration (mimic.py:75-76).
- Reads of environment variables and their defaults (mimic.py:64-71) are I/O. The model takes the values as parameters.
- `os.chdir`, `os.makedirs`, the existence check of the input folder, directory listing and logging are not modelled. They are file-system I/O (mimic.py:62, mimic.py:91-102).
- The recursive `log_files_in_directory` (mimic.py:25-32) is file-system I/O and is not modelled.
- The body of the per-template loop (mimic.py:108-127) is not modelled as a driver, because it cannot run. It calls `.decode` on a `str` (mimic.py:113). It reads `.stdout` and `.returncode` from the string returned by `generate_new_content` (mimic.py:122-123). The first template therefore raises, the catch-all at mimic.py:139 logs the error, and `main` ends. Only the pure steps the loop uses are modelled: the target file name and the region replacement. `os.path.join` (mimic.py:109, mimic.py:111) is not modelled.
- The call `git_commit_push(..., branch_name)` uses an undefined name (mimic.py:137). It is not modelled. The commit message it would receive is modelled.
- `Mimic.GenerateNewContent`: requires a source content without a backslash. `re.sub` reads backslashes in the replacement as escapes and group references, and that template language is not modelled.
- `Text.Lower`: lower-cases ASCII letters only. Python's `str.lower` also maps other Unicode letters. The model uses it only to compare with `yes`.
- generate_files.py is not part of this model. It generates random test fixtures and writes them to disk.
