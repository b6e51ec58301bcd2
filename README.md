# VowelsRUs in Dafny

VowelsRUs reads lines of the form `WORD SUFFIX` and prints, for each, the word,
the suffix, the word's plural and the word with the suffix attached. The rules
live on the planet ACSL, whose four vowels are A, C, S and L. A word is
classified by its last two letters:

- `Two`: both are vowels or both are consonants;
- `OneVowel`: a consonant, then a vowel;
- `OneConsonant`: a vowel, then a consonant.

The class selects the plural and the way the suffix is joined.

The project has two modules:

- `VowelsRUs` (`Vowels.dfy`) holds the pure transformations as functions on
  `seq<char>`. These are the vowel test, the `Ending` classifier, the pluralizer
  and the suffixer. Their contracts give each case exactly: the result is
  written as a concatenation, a one-place update or a one-place deletion. Lemmas
  add that the ending depends only on the last two letters, what ending a plural
  has, and three worked lines.
- `LineInput` (`LineInput.dfy`) holds the main loop over lines that have already
  been read. It covers Java's `\s`, upper-casing, the two-token split of
  `split("\\s+", 2)`, and the per-line processing. `Outcome` is the loop's
  specification. `Run` is the loop itself, proved equal to `Outcome`, and lemmas
  about `Outcome` state the properties of the run:
  - empty lines are skipped and whitespace-only lines are not;
  - the run fails exactly when some line read cannot be processed, and then at
    the first such line, with that line's fault;
  - the entries are those of the lines before the failing line (of all lines,
    when none fails), one per line that emits, in input order;
  - every entry carries a valid word and its transforms.

The Java code crashes in three places: on a line without whitespace, on a word
shorter than two characters, and on an empty suffix whose first letter is
needed. The exception ends the run in `main`. The model turns each crash into a
`Failure` naming the line and its fault. The entries of the lines before it
stay in the report, and no later line is read.

The preconditions of `GetPlural` and `GetSuffixed` are those of the Java index
accesses, and no stronger:
- the plural needs a non-empty word unless the ending is `OneConsonant`;
- the suffixed form needs a non-empty suffix unless the ending is `OneConsonant`;
- the suffixed form needs a word of two or more characters only in the branch
  that deletes the second-to-last letter.

`I` is not an ACSL vowel, so `BAL ING` gives `BLING` (see
`VowelsRUs.WorkedExamples`).

## Model

| member | source | states |
|---|---|---|
| `VowelsRUs.IsVowel` | VowelsRUs/src/com/earth2me/school/vowelsrus/VowelsRUs.java:97-112 | true exactly for A, C, S and L; only upper-case letters can be vowels, so lower-case a, c, s, l are not |
| `VowelsRUs.GetEnding` | VowelsRUs/src/com/earth2me/school/vowelsrus/VowelsRUs.java:121-139 | for a word of two or more characters: `Two` iff the last two characters are of the same kind, `OneVowel` iff the last is a vowel and the one before is not, `OneConsonant` iff the last is a consonant and the one before a vowel |
| `VowelsRUs.EndingDependsOnLastTwo` | VowelsRUs/src/com/earth2me/school/vowelsrus/VowelsRUs.java:123-125 | two words that share their last two characters have the same ending |
| `VowelsRUs.GetPlural` | VowelsRUs/src/com/earth2me/school/vowelsrus/VowelsRUs.java:150-174 | `OneConsonant`: the word followed by "GH"; `OneVowel`: same length, all but the last character kept, last character 'G'; `Two`: the word, then its last character, then 'H'; the plural is two longer, equally long and two longer than the word |
| `VowelsRUs.PluralEnding` | VowelsRUs/src/com/earth2me/school/vowelsrus/VowelsRUs.java:150-174 | the plural of a classified word ends in `Two`, except after `Two` with a vowel last, where it ends in `OneConsonant`; it never ends in `OneVowel` |
| `VowelsRUs.GetSuffixed` | VowelsRUs/src/com/earth2me/school/vowelsrus/VowelsRUs.java:187-215 | the case table: `OneConsonant` gives w + s for any s, the empty suffix included; `OneVowel` with a consonant first and `Two` with a vowel first give w + [s[0]] + s; `OneVowel` with a vowel first gives w + s[1..]; `Two` with a consonant first deletes the second-to-last letter; exact lengths, and everything before the last two letters kept in every case but `OneConsonant` |
| `VowelsRUs.WorkedExamples` | VowelsRUs/src/com/earth2me/school/vowelsrus/VowelsRUs.java:121-215 | CAT/S gives CATGH and CATS; BAL/ING gives BALLH and BLING; ACS/ED gives ACSSH and ASED |
| `LineInput.ToUpper` | VowelsRUs/src/com/earth2me/school/vowelsrus/VowelsRUs.java:57 | same length, each character upper-cased (ASCII), no a-z left, whitespace exactly where it was |
| `LineInput.SplitOnce` | VowelsRUs/src/com/earth2me/school/vowelsrus/VowelsRUs.java:57 | one token (the line itself) iff the line has no whitespace; otherwise two tokens a, b with line = a + a non-empty whitespace run + b, a free of whitespace, b not starting with whitespace |
| `LineInput.SplitOnceUnique` | VowelsRUs/src/com/earth2me/school/vowelsrus/VowelsRUs.java:57 | any decomposition of that shape is exactly the split, so the split is determined by the line |
| `LineInput.SplitKeepsRestOfLine` | VowelsRUs/src/com/earth2me/school/vowelsrus/VowelsRUs.java:57 | limit 2 on three lines: `AB  CD EF` splits into `AB` and `CD EF` (inner space kept), ` AB` into an empty word and `AB`, `AB ` into `AB` and an empty suffix |
| `LineInput.SplitLeadingWhitespace` | VowelsRUs/src/com/earth2me/school/vowelsrus/VowelsRUs.java:57 | every line that starts with whitespace splits into two tokens, the first of them empty |
| `LineInput.SplitTrailingWhitespace` | VowelsRUs/src/com/earth2me/school/vowelsrus/VowelsRUs.java:57 | a text without whitespace followed by one non-empty whitespace run splits into that text and an empty suffix |
| `LineInput.Transform` | VowelsRUs/src/com/earth2me/school/vowelsrus/VowelsRUs.java:73-86 | fails with `WordTooShort` iff the word has fewer than two characters, and with `EmptySuffix` iff the suffix is empty and the ending is not `OneConsonant`; succeeds iff neither applies, with an entry holding the word, the suffix, the plural for its ending and the suffixed form for its ending |
| `LineInput.ProcessLine` | VowelsRUs/src/com/earth2me/school/vowelsrus/VowelsRUs.java:50-61 | skipped iff the line is empty; stops with `MalformedLine` iff it is non-empty with no whitespace |
| `LineInput.EmittedLine` | VowelsRUs/src/com/earth2me/school/vowelsrus/VowelsRUs.java:57-61 | an emitted entry's word and suffix are the two tokens of the upper-cased line, the word has two or more characters, and the entry is their transform |
| `LineInput.ProcessLineBySplit` | VowelsRUs/src/com/earth2me/school/vowelsrus/VowelsRUs.java:50-61 | a non-empty line whose upper-cased text splits as a, whitespace, b emits the entry of (a, b) when its transform succeeds, and otherwise stops with the transform's fault |
| `LineInput.WhitespaceLineStops` | VowelsRUs/src/com/earth2me/school/vowelsrus/VowelsRUs.java:51-61 | a whitespace-only line is not skipped: its word is empty, so it stops the run with `WordTooShort` |
| `LineInput.Step` | VowelsRUs/src/com/earth2me/school/vowelsrus/VowelsRUs.java:48-62 | once a failure has occurred the report no longer changes; before that, an emitting line appends its own entry at the end, a stopping line records a failure at its index with its fault, and a skipped line changes nothing |
| `LineInput.Outcome` | VowelsRUs/src/com/earth2me/school/vowelsrus/VowelsRUs.java:48-62 | no more entries than lines read; a failure names a line read, and that line's result is the failure's fault |
| `LineInput.OutcomeCharacterized` | VowelsRUs/src/com/earth2me/school/vowelsrus/VowelsRUs.java:48-62 | the run has no failure iff no line read stops; a failure is at the first stopping line, with its fault; the entries are exactly those emitted by the lines before the failing line, or by all lines read when none fails, in input order |
| `LineInput.OutcomeNext` | VowelsRUs/src/com/earth2me/school/vowelsrus/VowelsRUs.java:48-61 | one more line read by a run without failure appends that line's entry if it emits, and fails at that line with its fault if it stops |
| `LineInput.LineResultAt` | VowelsRUs/src/com/earth2me/school/vowelsrus/VowelsRUs.java:48-61 | the result recorded for line k is what line k produces on its own |
| `LineInput.ReadLine` | VowelsRUs/src/com/earth2me/school/vowelsrus/VowelsRUs.java:50-61 | the loop body for one line, computed step by step, produces exactly `ProcessLine` of that line |
| `LineInput.Run` | VowelsRUs/src/com/earth2me/school/vowelsrus/VowelsRUs.java:43-63 | the loop, which leaves at the first failing line as the exception does, returns exactly the entries and failure of `Outcome` over the results of all lines |
| `LineInput.FailureIsFinal` | VowelsRUs/src/com/earth2me/school/vowelsrus/VowelsRUs.java:23-63 | once the report of the first n lines has a failure, the report of every longer prefix equals it: lines after the failing one change nothing |
| `LineInput.EntriesInInputOrder` | VowelsRUs/src/com/earth2me/school/vowelsrus/VowelsRUs.java:48-62 | the entries of the first n lines come first in the entries of the first m lines, for n no greater than m |
| `LineInput.SkippedLinesEmitNothing` | VowelsRUs/src/com/earth2me/school/vowelsrus/VowelsRUs.java:50-54 | skipped lines produce no entry and no failure |
| `LineInput.BlankLinesEmitNothing` | VowelsRUs/src/com/earth2me/school/vowelsrus/VowelsRUs.java:50-54 | an input made of empty lines produces no entry and no failure |
| `LineInput.OneEntryPerLine` | VowelsRUs/src/com/earth2me/school/vowelsrus/VowelsRUs.java:48-62 | a run without a failure emits exactly one entry per line it does not skip |
| `LineInput.EntryOrigin` | VowelsRUs/src/com/earth2me/school/vowelsrus/VowelsRUs.java:48-62 | every entry is the entry emitted by one of the lines read |
| `LineInput.EntriesAreTransforms` | VowelsRUs/src/com/earth2me/school/vowelsrus/VowelsRUs.java:57-61 | every entry comes from a non-empty line whose upper-cased text splits into the entry's word and suffix; the word has two or more characters and the entry holds its plural and suffixed forms |

## Left out

- Opening and reading the file (`../vowels.txt`, `BufferedReader.readLine`): this is I/O. The model starts from the sequence of lines already read, without their terminators.
- Printing (`printWord`'s four labelled lines, the blank separator and the `Ending:` label printed with no value): this is presentation. An `Entry` holds the four printed values.
- Partial output: when `getSuffixed` fails on an empty suffix, the Java code has already printed the word, the suffix and the plural for that line. The model emits no entry for that line.
- The stack trace that `main` prints on an exception is left out. A `Failure` in the report stands for it.
- `LineInput.ToUpper`: it models `String.toUpperCase` for ASCII a-z only. Locale rules and other Unicode case mappings are left out, including those that change a string's length.
- Java `char` values are UTF-16 code units. Dafny `char` values are Unicode scalar values, so surrogate pairs are not modelled.
- `LineInput.SplitOnce`: it models `split("\\s+", 2)` only, not regular expressions in general.
- The `assert` on the token count is disabled by default in Java. The model does not use it: a one-token line fails when `tok[1]` is read, as `MalformedLine`.
