# aircraft-diff: the configuration reader and the diff engine

aircraft-diff compares two trees of aircraft configuration files (`.cfg`,
an INI subset) and reports, for every pair of files with the same name,
each key whose value differs between the two sides. This project models
its core, `src/main.rs`:

- `read_to_map`, which reads one file line by line into a map from
  `Key { section, property }` to value;
- `is_whitespace`, the test that drops blank lines;
- `diff`, which reads both files and yields a `Difference` for each key
  present on both sides with different values.

The model has four modules:

- `Text` (`text.dfy`): the string primitives the reader is built from.
  - `IsSpace` is the Unicode White_Space property, which `char::is_whitespace` and `str::trim` use.
  - `IsWhitespace` is the source's `is_whitespace`.
  - `Find` is `str::find` for one character.
  - `Trim` is `str::trim`. It is specified by what it removes: whitespace margins, and nothing else.
  - The lemmas show that trimming has exactly one possible result.
- `Reader` (`reader.dfy`): reading a file, in two layers.
  - `Classify` states how one line is read: blank or comment, header, entry, or unrecognized.
  - `Run` folds the classified lines into the reader's state, a current section and a map.
  - `ReadSpec` combines the two layers.
  - The method `ReadToMap` is the source's loop, with its early `continue`s. It is proved equal to `ReadSpec`.
  - The lemmas state what the map holds:
    - which keys are in it;
    - which value wins;
    - which section an entry is filed under;
    - what every stored property and value looks like;
    - that blank and unrecognized lines have no effect.
- `DiffEngine` (`diff.dfy`): the differences are specified as a set, `DiffSpec`.
  - The method `DiffMaps` is the source's drain of the right map while it walks the left one. It is proved to yield exactly that set, with each key once.
  - `Diff` reads both files, then calls `DiffMaps`.
- `Scenarios` (`scenarios.dfy`): concrete lines and files, and what the model makes of them.

The input of the reader is the file's lines, already decoded into strings.
Every character the reader searches for (`;`, `=`, `[`, `]`) is one byte
in UTF-8. So the source's byte indices always fall on the same characters
as the model's character indices.

### Where the code departs from what one might expect

The model follows the code.

- **The stored value keeps its `=`.** The source splits an entry line with `split_at(idx)` at the first `=` (`src/main.rs:157`). The right half begins with the `=`, and it is trimmed as it is (`src/main.rs:163`). So:
  - `k = v` stores `= v`, not `v`;
  - `k=v` stores `=v`;
  - `k=` stores `=`.

  A conventional INI reader would store `v` and the empty string. `Scenarios.SpacedEntry`, `Scenarios.EmptyValue` and `Reader.StoredEntriesWellFormed` state the code's behaviour.
- **There is no ignore filter.** The source declares an `--ignore` option (`src/main.rs:22-24`), but never reads it. `diff` reports every difference, and the model has no filter.

## Model

| member | source | states |
|---|---|---|
| Text.IsWhitespace | src/main.rs:171-173 | true exactly when every character of the line is Unicode whitespace (an empty line included) |
| Text.Find | src/main.rs:139 | `None` exactly when the character does not occur; otherwise the index of its first occurrence, with no earlier occurrence |
| Text.Trim | src/main.rs:142-144 | the result is a slice of the input with only whitespace before and after it, and neither of its own ends is whitespace |
| Text.TrimChars | src/main.rs:142-144 | trimming only removes characters |
| Text.TrimKeepsEnds | src/main.rs:142-144 | a non-whitespace first or last character survives trimming, at the same end |
| Text.TrimTrimmed | src/main.rs:142-144 | trimming a string with no whitespace at either end changes nothing, so trimming is idempotent |
| Text.TrimEmpty | src/main.rs:142-147 | trimming leaves nothing exactly when the line is all whitespace |
| Text.MarginsUnique | src/main.rs:142-144 | two splits into whitespace margins around a trimmed middle have the same middle, so trimming has one possible result |
| Text.TrimPadded | src/main.rs:142-144 | trimming whitespace-padded text returns the text, if the text has no whitespace at either end |
| Reader.StripComment | src/main.rs:139-145 | the result has no `;`, no whitespace at either end, and only characters of the line; without a `;` it is the trimmed line |
| Reader.SplitEntry | src/main.rs:156-164 | splitting at the first `=` makes an entry with a trimmed property holding no `=` or `;`, and a trimmed value that starts with `=` |
| Reader.ClassifyStripped | src/main.rs:147-165 | every header name or entry produced from a stripped line is well formed |
| Reader.Classify | src/main.rs:136-165 | every classification of a raw line is well formed: no `;` in a header name, and every entry well formed |
| Reader.ClassifyTrimmed | src/main.rs:136-147 | a non-empty line with no `;` and no whitespace at either end goes straight to the header and entry tests |
| Reader.ClassifyCanonical | src/main.rs:151-164 | every header or entry the reader produces is canonical, so `Render` gives a line that reads back as it |
| Reader.StrippedEntryCanonical | src/main.rs:156-164 | an entry made from a stripped line that is not bracketed is canonical |
| Reader.RenderRoundTrip | src/main.rs:139-164 | reading the rendered line of a canonical header or entry gives that header or entry back |
| Reader.EntryRoundTrip | src/main.rs:156-164 | reading `p + v` of a canonical entry gives property `p` and value `v` back |
| Reader.RenderedEntryShape | src/main.rs:151-157 | the rendered line of a canonical entry has no comment, is not bracketed, and has its first `=` where the value starts |
| Reader.WhitespaceLineIsBlank | src/main.rs:136 | an empty or all-whitespace line is blank |
| Reader.CommentLineIsBlank | src/main.rs:139-149 | a line with only whitespace before its first `;` is blank |
| Reader.CommentCut | src/main.rs:139-145 | everything from the first `;` on is dropped before trimming |
| Reader.ClassifyStripFirst | src/main.rs:136-147 | every line reads as its text with the comment cut and trimmed, so the header and entry lemmas about stripped lines apply to every raw line |
| Reader.CommentIgnored | src/main.rs:136-145 | every line reads as its trimmed text before its first `;`, whatever it starts with |
| Reader.HeaderLine | src/main.rs:151-154 | a stripped line bracketed at both ends is a header named by the untrimmed text between the brackets, even if that text holds `=` |
| Reader.EntryLine | src/main.rs:156-164 | a stripped, unbracketed line with its first `=` at `idx` stores the trimmed text before `idx` as property and the trimmed text from `idx` on as value |
| Reader.EntryNeedsEquals | src/main.rs:156 | a line without `=` never stores an entry |
| Reader.Apply | src/main.rs:151-164 | a header switches the section and keeps the map; an entry inserts its value under (current section, property), overwriting that key only and keeping every other key and the section; any other line changes nothing |
| Reader.Run | src/main.rs:138-166 | applying well-formed lines to a consistent state keeps it consistent |
| Reader.ReadSpec | src/main.rs:128-169 | definition of the map `read_to_map` returns: the lines classified one by one and applied from section `root` and an empty map; its properties are `KeyOrigin`, `LastWriteWins`, `RootSection`, `SectionFromHeader` and `StoredEntriesWellFormed` |
| Reader.ReadSpecOfClassified | src/main.rs:138-168 | rewriting helper: the map read is determined by the classified lines alone |
| Reader.ReadRendered | src/main.rs:138-168 | reading the rendered lines of canonical headers and entries applies exactly those headers and entries |
| Reader.ReadToMap | src/main.rs:128-169 | the loop with its early `continue`s returns exactly the map of `ReadSpec`, the fold of the classified lines from section `root` and an empty map |
| Reader.StoredEntriesWellFormed | src/main.rs:152-164 | no stored section, property or value contains `;`; no stored property contains `=`; every stored value starts with `=` |
| Reader.RunAppend | src/main.rs:138-166 | reading `a + b` is reading `a` and then `b` from the resulting state |
| Reader.SkippedLine | src/main.rs:136-149 | a blank, comment-only or unrecognized line anywhere in the file changes neither the map nor the section |
| Reader.SectionAtPrefix | src/main.rs:151-154 | the section in force at a line does not depend on the lines after it |
| Reader.KeyOrigin | src/main.rs:152-164 | a key is in the map exactly when some entry line writes its property while its section is in force |
| Reader.LastWriteWins | src/main.rs:158-164 | the stored value is that of the last line writing the key, so a reopened section merges with the earlier one |
| Reader.RootSection | src/main.rs:129 | before the first header, entries are filed under section `root` |
| Reader.SectionFromHeader | src/main.rs:151-154 | after a header, and until the next one, entries are filed under the header's name |
| DiffEngine.DiffSpec | src/main.rs:114-125 | definition of what `diff` yields, as a set: one difference per key present in both maps with unequal values, carrying both values; its properties are the `DiffEngine` lemmas below |
| DiffEngine.DiffMaps | src/main.rs:114-125 | the yielded differences are exactly those of `DiffSpec`, one per key |
| DiffEngine.Diff | src/main.rs:110-126 | the differences of two files are exactly `DiffSpec` of the two maps read, one per key |
| DiffEngine.DiffMembership | src/main.rs:114-125 | a difference is reported exactly for a key on both sides with different values, and it carries the left and the right value |
| DiffEngine.OneSidedNotReported | src/main.rs:115 | a key on one side only is never reported |
| DiffEngine.DiffKeysUnique | src/main.rs:114-125 | two reported differences with the same key are the same difference |
| DiffEngine.DiffSymmetric | src/main.rs:114-125 | comparing the other way round reports the same keys, with the two values swapped |
| DiffEngine.DiffEmptyIffAgree | src/main.rs:114-125 | nothing is reported exactly when the two maps agree on every common key |
| Scenarios.SpacedEntryHalves | src/main.rs:157-163 | the two halves of `k = v` trim to `k` and `= v` |
| Scenarios.SpacedEntry | src/main.rs:156-164 | `k = v` is the entry `k` with the value `= v` |
| Scenarios.BracketedAssignment | src/main.rs:151-154 | `[a=b]` is a header named `a=b`, not an entry |
| Scenarios.IndentedComment | src/main.rs:139-149 | `  ; comment` is blank |
| Scenarios.TrailingCommentStripped | src/main.rs:139-145 | `k=v ;c` without its comment is `k=v` |
| Scenarios.CompactEntry | src/main.rs:156-164 | `k=v` is the entry `k` with the value `=v` |
| Scenarios.TrailingComment | src/main.rs:139-164 | `k=v ;c` is the entry `k` with the value `=v` |
| Scenarios.EmptyValue | src/main.rs:156-164 | `k=` is the entry `k` with the value `=` |
| Scenarios.SectionThenEntry | src/main.rs:128-169 | the file `[s]`, `k = v` reads as the single key (`s`, `k`) with the value `= v` |
| Scenarios.EntryWithoutHeader | src/main.rs:129 | a single entry line with no header is filed under `root` |
| Scenarios.RunOverwrites | src/main.rs:158-164 | a header and two entries for one property leave only the second value |
| Scenarios.LaterEntryWins | src/main.rs:128-169 | a file with a header and two entries for the same property keeps the later value |
| Scenarios.OneSidedKeysIgnored | src/main.rs:114-125 | keys on one side only and equal values give no difference |
| Scenarios.DriftReported | src/main.rs:114-125 | a common key with values `1` and `2` gives exactly that one difference |

## Left out

- Reading the input stream is not modelled. This covers `BufReader::lines`, splitting at `\n` and `\r\n`, and dropping lines that are not valid UTF-8 (`src/main.rs:132-135`). The reader takes the already-decoded lines.
- The bumpalo arena that holds section names (`src/main.rs:129, 152`) is not modelled. Sections are strings, and keys compare them by content, as the source's derived equality does.
- DiffEngine.DiffMaps: the source yields differences in hash-map iteration order, which is unspecified. The model states the result as a set of distinct keys, with no order. `DiffMaps` picks keys by arbitrary choice.
- DiffEngine.Diff: the source's `diff` returns a lazy iterator. The model computes the whole sequence at once.
- The `--ignore` option is not modelled: the source parses it (`src/main.rs:22-24`) but never uses it.
- `main` is not modelled. This covers printing the report and the `Display` of `Key` (`src/main.rs:33-37, 45-66`), which is output formatting only.
- The command-line parser `Opts` (`src/main.rs:15-25`) is not modelled. It is argument parsing.
- `read_common_tree` and `read_tree` are not modelled (`src/main.rs:68-98`). They do directory walking and pairing of file names, which is file-system I/O.
- `diff_paths` is not modelled (`src/main.rs:100-108`). It opens files and can fail with an I/O error; that is file-system I/O.
