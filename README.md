# Text cleaners

This project models the text cleaners of `text/cleaners.py`: the normalisation that
turns raw input text into the text (or, for the English pipelines, the phoneme
string) the speech model consumes. It covers:

- `lowercase`, lowercasing of ASCII letters (`Lowercase.dfy`);
- `collapse_whitespace`, `re.sub(r'\s+', ' ', text)`, and `str.strip()` (`Whitespace.dfy`);
- the `_abbreviations` table, and `expand_abbreviations`, which runs one
  case-insensitive `re.sub` pass per entry, in table order, with the pattern
  `\b<abbreviation>\.` (`Abbreviations.dfy`);
- the pipelines `basic_cleaners`, `transliteration_cleaners`, `english_cleaners`
  and `english_cleaners2` (`Cleaners.dfy`).

The character classes are shared (`TextChars.dfy`). Whitespace is Python's `\s`
and `str.strip()` on ASCII. Word characters are those of `\w` and `\b`. Case
mapping is `str.lower()` restricted to `A`-`Z`.

Everything in the core is pure, so the model is functions and lemmas. Two things
are not modelled but passed in as function parameters:

- `toAscii`, standing for `convert_to_ascii` (unidecode);
- `espeak`, standing for the eSpeak subprocess: it maps the text handed to eSpeak
  to eSpeak's decoded standard output.

One `re.sub` pass is modelled as a left-to-right scan over the pass's input
(`Abbreviations.SubFrom`). A match is replaced and scanning resumes after the
match's `.`; any other character is copied. `\b` is always judged on the pass's
input string, as the regex engine judges it.

Python's `\s` and `str.strip()` treat ten ASCII characters as whitespace:

- tab, line feed, vertical tab, form feed, carriage return;
- the separators 0x1C-0x1F;
- space.

The model uses all ten. Python documents `\s` on ASCII as `[ \t\n\r\f\v]`, but that
class is what `\s` means only under `re.ASCII`. Neither `_whitespace_re` nor
`str.strip()` uses that flag, so the 0x1C-0x1F separators count as whitespace too, and
the model follows the code.

## Model

| member | source | states |
|---|---|---|
| TextChars.IsSpace | text/cleaners.py:23 | defines the whitespace class of `\s` and of `str.strip()` on ASCII: tab, line feed, vertical tab, form feed, carriage return, 0x1C-0x1F and space |
| TextChars.IsWord | text/cleaners.py:26 | defines the word class that `\b` tests on ASCII: letters, digits and `_` |
| TextChars.LowerChar | text/cleaners.py:58-59 | `lower()` on one character: the result is never upper-case; an upper-case letter becomes the lower-case letter 32 code points above it; every other character is unchanged; whitespace and word characters keep their class |
| TextChars.CountAppend | text/cleaners.py:50 | helper for Abbreviations.MatchDots and Abbreviations.SubFromDots: the number of `.` in a concatenation is the sum of the counts of its parts |
| Lowercase.Lower | text/cleaners.py:58-59 | `lowercase` keeps the length, leaves no upper-case letter, leaves every non-upper-case character in place, and shifts every upper-case letter by 32 |
| Lowercase.LowerAt | text/cleaners.py:58-59 | lowercasing works position by position: character `i` of the result is the lowered character `i` of the input |
| Lowercase.LowerIdempotent | text/cleaners.py:58-59 | lowercasing twice is lowercasing once |
| Lowercase.LowerIdentity | text/cleaners.py:58-59 | `lowercase` returns its input exactly when the input has no upper-case letter (both directions) |
| Lowercase.LowerAppend | text/cleaners.py:58-59 | lowercasing distributes over concatenation |
| Whitespace.TrimStartSuffix | text/cleaners.py:96 | cutting leading whitespace leaves a suffix of the input, and what was cut is all whitespace |
| Whitespace.TrimStartEmpty | text/cleaners.py:96 | cutting leading whitespace yields the empty string exactly on all-whitespace input |
| Whitespace.TrimEndPrefix | text/cleaners.py:96 | cutting trailing whitespace leaves a prefix of the input, and what was cut is all whitespace |
| Whitespace.TrimStart | text/cleaners.py:96 | the leading half of `strip()`: never longer than its input, starts with no whitespace, and keeps the input's last character when anything is left |
| Whitespace.TrimEnd | text/cleaners.py:96 | the trailing half of `strip()`: never longer than its input, ends with no whitespace, and keeps the input's first character when anything is left |
| Whitespace.Strip | text/cleaners.py:96 | `strip()` leaves no whitespace at either end |
| Whitespace.StripSlice | text/cleaners.py:96 | `strip()` returns a contiguous slice of its input, and everything cut off on either side is whitespace |
| Whitespace.StripEmpty | text/cleaners.py:96 | `strip()` returns the empty string exactly when the input is all whitespace |
| Whitespace.StripKeepsText | text/cleaners.py:96 | `strip()` keeps every non-whitespace character, in order |
| Whitespace.CollapseWhitespace | text/cleaners.py:62-63 | `re.sub` with the `\s+` pattern of line 23: the result has no whitespace other than `' '` and no two adjacent whitespace characters; it is never longer than the input; it is empty exactly when the input is; it does not trim: it starts with whitespace exactly when the input does, and a non-whitespace first character is kept |
| Whitespace.CollapseKeepsText | text/cleaners.py:62-63 | collapsing keeps every non-whitespace character, in order, and adds none |
| Whitespace.NonSpaceAppend | text/cleaners.py:96 | helper for Whitespace.StripKeepsText, through Whitespace.NonSpaceTrimEnd: the non-whitespace text of a concatenation is that of its parts, concatenated |
| Whitespace.NonSpaceEmpty | text/cleaners.py:96 | helper for Whitespace.StripKeepsText, through Whitespace.NonSpaceTrimEnd: a string has no non-whitespace text exactly when it is all whitespace |
| Whitespace.CollapseRun | text/cleaners.py:62-63 | a non-empty run of whitespace becomes exactly one `' '` |
| Whitespace.CollapseAppend | text/cleaners.py:62-63 | collapsing distributes over a concatenation whose seam is not inside a whitespace run |
| Whitespace.CollapseRunThen | text/cleaners.py:62-63 | a whitespace run followed by text collapses to one `' '` followed by the collapsed text |
| Whitespace.CollapseLast | text/cleaners.py:62-63 | the result ends in whitespace exactly when the input does, so a trailing run is kept as one space and not trimmed |
| Whitespace.CollapseIdentityIff | text/cleaners.py:62-63 | `collapse_whitespace` returns its input exactly when the input is already collapsed (both directions) |
| Whitespace.CollapseIdempotent | text/cleaners.py:62-63 | collapsing twice is collapsing once |
| Abbreviations.ABBREVIATIONS | text/cleaners.py:27-44 | the 18 (abbreviation, expansion) pairs of `_abbreviations`, in the order the passes run |
| Abbreviations.WordBoundary | text/cleaners.py:26 | defines `\b` at a position: a word character on exactly one side of it |
| Abbreviations.CaselessAt | text/cleaners.py:26 | defines the IGNORECASE match of the abbreviation's letters at a position |
| Abbreviations.IsMatchAt | text/cleaners.py:26 | defines a match of the compiled pattern `\b<abbreviation>\.` at a position: a word boundary, the abbreviation ignoring case, then a literal `.` |
| Abbreviations.SubFrom | text/cleaners.py:50 | defines one `re.sub` pass from a position: at a match the expansion is written and scanning resumes after the match's `.`; otherwise the character is copied; matches are judged on the pass's input |
| Abbreviations.Sub | text/cleaners.py:50 | defines `re.sub(regex, replacement, text)` as that scan from the start |
| Abbreviations.ExpandWith | text/cleaners.py:48-51 | defines the loop of `expand_abbreviations`: one pass per table entry, in table order, each on the previous pass's output |
| Abbreviations.CaselessAtIff | text/cleaners.py:26 | an IGNORECASE match of the abbreviation at a position means that every character there lowercases to the abbreviation's character |
| Abbreviations.CaselessAtSame | text/cleaners.py:26 | helper for Abbreviations.ShiftMatch and Abbreviations.PrefixMatch: whether the abbreviation matches at a position depends only on the characters it covers |
| Abbreviations.MatchesFrom | text/cleaners.py:26-50 | the number of match positions is bounded by the remaining length and is zero exactly when the pattern matches nowhere |
| Abbreviations.AbbreviationsWellFormed | text/cleaners.py:26-45 | the table has 18 entries; every abbreviation is non-empty and lower-case letters only, and every expansion is lower-case letters only |
| Abbreviations.NoOverlap | text/cleaners.py:26-50 | two matches of `\b<abbreviation>\.` never overlap, so `re.sub`'s non-overlapping scan sees every match |
| Abbreviations.MatchesFromAtMatch | text/cleaners.py:26-50 | after a match, the next possible match starts past its `.`: skipping the match loses no other match |
| Abbreviations.MatchesFromGap | text/cleaners.py:26-50 | helper for Abbreviations.MatchesFromAtMatch: skipping positions where nothing matches does not change the match count |
| Abbreviations.MatchDots | text/cleaners.py:26 | each match contains exactly one `.`, its last character |
| Abbreviations.SubFromDots | text/cleaners.py:50 | one pass removes exactly one `.` per match (its expansion has none) |
| Abbreviations.SubFromLength | text/cleaners.py:50 | the length after one pass is the input's length plus, per match, the expansion's length minus the matched text's length |
| Abbreviations.SubFromNoMatch | text/cleaners.py:50 | a pass over text where the pattern matches nowhere copies it unchanged |
| Abbreviations.SubUnchangedIff | text/cleaners.py:50 | one pass leaves the text unchanged exactly when the pattern matches nowhere (both directions) |
| Abbreviations.SubDots | text/cleaners.py:50 | one pass never adds a `.`, and it keeps every `.` exactly when nothing matched |
| Abbreviations.NoDotNoMatch | text/cleaners.py:26 | text without a `.` matches no abbreviation pattern |
| Abbreviations.SubFromKeepsLowercase | text/cleaners.py:50 | a pass over lower-case text with a lower-case expansion yields lower-case text |
| Abbreviations.ExpandWithDots | text/cleaners.py:48-51 | the passes over any well-formed table never add a `.` |
| Abbreviations.ExpandWithUnchangedIff | text/cleaners.py:48-51 | the passes leave the text unchanged exactly when no entry's pattern matches it (both directions) |
| Abbreviations.ExpandWithNoDot | text/cleaners.py:48-51 | text without a `.` goes through every pass unchanged |
| Abbreviations.ExpandWithKeepsLowercase | text/cleaners.py:48-51 | lower-case text stays lower-case through every pass |
| Abbreviations.ExpandAbbreviations | text/cleaners.py:48-51 | `expand_abbreviations` returns text without a `.` unchanged, never adds a `.`, and keeps lower-case text lower-case |
| Abbreviations.ExpandUnchangedIff | text/cleaners.py:26-51 | `expand_abbreviations` returns its input exactly when none of the 18 patterns matches it (both directions) |
| Abbreviations.MatchAvoidsSeparator | text/cleaners.py:26 | every character of a match is a letter or its final `.`, so a match never covers a separator (a character that is neither a word character nor `.`, such as whitespace) |
| Abbreviations.ShiftMatch | text/cleaners.py:26 | after a non-word character, matching in a suffix is the same as matching in that suffix alone |
| Abbreviations.SubFromShift | text/cleaners.py:50 | after a non-word character, a pass over a suffix proceeds as it would on the suffix alone |
| Abbreviations.PrefixMatch | text/cleaners.py:26 | when the prefix ends in a separator, a match in the prefix is unaffected by what follows and ends inside the prefix |
| Abbreviations.SubFromPrefix | text/cleaners.py:50 | a pass over a prefix that ends in a separator is unaffected by what follows |
| Abbreviations.SubAppend | text/cleaners.py:50 | one pass distributes over a concatenation whose first part ends in a separator |
| Abbreviations.SubFromKeepsLast | text/cleaners.py:50 | a pass keeps a trailing separator in place |
| Abbreviations.ExpandWithAppend | text/cleaners.py:48-51 | all the passes distribute over a concatenation whose first part ends in a separator: words are expanded independently |
| Abbreviations.ExpandWithFixed | text/cleaners.py:48-51 | text that every pass leaves unchanged comes out unchanged |
| Abbreviations.ExpandWithSplit | text/cleaners.py:48-51 | the passes run in table order: running the whole table is running its first `k` entries, then the rest |
| Abbreviations.ExpandWithStep | text/cleaners.py:48-51 | the first pass runs first and the rest of the table runs on its output |
| Abbreviations.DoctorPasses | text/cleaners.py:27-50 | on `"Dr. "` the `mrs` and `mr` passes change nothing and the `dr` pass yields `"doctor "` |
| Abbreviations.ExpandDoctor | text/cleaners.py:27-51 | a table that starts with `mrs`, `mr`, `dr` expands `"Dr. "` to `"doctor "` |
| Abbreviations.SaintPasses | text/cleaners.py:27-50 | on `"St. "` the first three passes change nothing and the `st` pass yields `"saint "` |
| Abbreviations.ExpandSaint | text/cleaners.py:27-51 | a table that starts with `mrs`, `mr`, `dr`, `st` expands `"St. "` to `"saint "` |
| Abbreviations.ExpandWithPieces | text/cleaners.py:48-51 | text split after separators is expanded piece by piece |
| Abbreviations.ExpandWithExample | text/cleaners.py:27-51 | with such a table, "Dr. Smith visited St. Louis" becomes "doctor Smith visited saint Louis" |
| Abbreviations.ExpandPlainWords | text/cleaners.py:48-51 | words without a `.` go through any table unchanged |
| Abbreviations.ExpandExample | text/cleaners.py:26-51 | `expand_abbreviations` turns "Dr. Smith visited St. Louis" into "doctor Smith visited saint Louis" |
| Abbreviations.WordDotMatch | text/cleaners.py:26 | in a word followed by `.`, a pattern can match only at the word's start, and only when the whole word lowercases to the abbreviation: `\b` rules out a match inside a word |
| Abbreviations.WordDotMatchStart | text/cleaners.py:26 | in a word followed by `.`, a match starts at the word's start and covers the whole word |
| Abbreviations.WordDotCaseless | text/cleaners.py:26 | a case-insensitive match of a whole word means the lowercased word is the abbreviation |
| Abbreviations.LowerMatches | text/cleaners.py:26 | characters that lowercase to a lower-case abbreviation, position by position, form a word that lowercases to it |
| Abbreviations.ExpandWithWordDot | text/cleaners.py:48-51 | a word followed by `.` that lowercases to no abbreviation of the table is left unchanged |
| Abbreviations.ExpandBlockedExample | text/cleaners.py:26-51 | `expand_abbreviations` leaves "xdr." unchanged: `dr.` inside a word is not expanded |
| Cleaners.LowerTrimStart | text/cleaners.py:72-73 | helper for Cleaners.LowerCollapse: lowercasing and cutting leading whitespace commute |
| Cleaners.LowerCollapse | text/cleaners.py:72-73 | lowercasing and collapsing whitespace commute |
| Cleaners.BasicCleaners | text/cleaners.py:70-74 | `basic_cleaners` output is lower-case and collapsed, and equals collapsing first and lowercasing after |
| Cleaners.BasicIdempotent | text/cleaners.py:70-74 | `basic_cleaners` is idempotent |
| Cleaners.BasicKeepsText | text/cleaners.py:70-74 | `basic_cleaners` keeps the lowercased non-whitespace text, in order |
| Cleaners.TransliterationCleaners | text/cleaners.py:77-82 | `transliteration_cleaners` is `basic_cleaners` of the transliterated text, so its output is lower-case and collapsed |
| Cleaners.LowerDots | text/cleaners.py:90 | lowercasing neither adds nor removes a `.` |
| Cleaners.PhonemizerInput | text/cleaners.py:89-91 | the text handed to eSpeak is lower-case, has no more `.` than the transliterated text, and, when that text has no `.`, is just its lowercasing |
| Cleaners.CleanPhonemes | text/cleaners.py:96-98 | stripping then collapsing eSpeak's output gives a collapsed string with no whitespace at either end that keeps the phonemes' non-whitespace text in order; it is empty exactly when eSpeak printed only whitespace |
| Cleaners.EnglishCleaners | text/cleaners.py:87-99 | `english_cleaners` output has no whitespace at either end, no whitespace other than `' '` and no whitespace run longer than one, and keeps eSpeak's non-whitespace output in order |
| Cleaners.EnglishCleaners2 | text/cleaners.py:102-114 | `english_cleaners2` gives the same result as `english_cleaners` on every input |

## Left out

- Unicode: `lower()`, `\s`, `\b`, `\w` and IGNORECASE are modelled on ASCII only. Python's `lower()` can change the length of some non-ASCII strings, and its `\s` and `\w` include non-ASCII characters.
- `convert_to_ascii` (unidecode) is a function parameter `toAscii`; its transliteration table is not modelled.
- The eSpeak call in `english_cleaners` and `english_cleaners2` is a function parameter `espeak`. The hard-coded executable path, the command-line flags, a failing or missing process and UTF-8 decoding errors are not modelled.
- `expand_numbers` is not modelled. It calls `normalize_numbers`, which `text/cleaners.py` never defines or imports, and no pipeline uses it.
- The imports of `phonemize`, `EspeakBackend`, `lazy_pinyin` and `Style` are unused in `text/cleaners.py` and have no model.
- Files other than `text/cleaners.py` (the symbol table, the cleaner dispatch by name) are not part of this model.
- Abbreviations.ExpandAbbreviations: idempotence (a second run changes nothing) is neither stated nor proved. It would need an argument about how every expansion interacts with every later pass.
- Abbreviations.ExpandExample: the sentence is written as a concatenation of its four pieces; the lemma states the same string.
