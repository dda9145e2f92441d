# Voice-command parser of the chess voice listener

The browser chess game listens for a spoken command and hands the lower-cased
transcript to `handleVoiceCommand`. That function searches the transcript for
the first occurrence of the regular expression

    /move (\w+) from (\w)(\d) to (\w)(\d)/

On a match it takes the piece word and two squares in algebraic notation. It
turns each square into zero-based grid indices: row `X = 8 - rank digit`
(rank 8 is row 0) and column `Y = character code of the file - 97` ('a' is
column 0). Without a match the command is "not understood".

This project models that parser as a pure function,
`VoiceCommand.Parse(s: string): Option<ParsedMove>`, and proves it equal to a
declarative reading of the regular expression:

- `wrappers.dfy`: `Option`, the parser's result type.
- `char_classes.dfy`: the `\w` and `\d` classes. Section 22.2 of ECMA-262
  defines them for a pattern without the `u` and `i` flags: `\w` is
  `[A-Za-z0-9_]` and `\d` is `[0-9]`.
- `coordinates.dfy`: the square-to-index conversion, with its inverses and
  its order properties.
- `voice_command.dfy`: `ParsedMove`, the matcher at one start position
  (`MatchAt`), the leftmost scan (`LeftmostStart`) and `Parse`.
- `voice_command_proofs.dfy`: the reference semantics `MatchesAt`. It holds
  when the phrase spelled by the captures, `"move " + piece + " from " + f1 r1
  + " to " + f2 r2`, occurs verbatim at position `i`. The file proves that
  `MatchAt` is sound and complete for it. It also proves that `Parse` reports
  the leftmost match, fails exactly when nothing matches, ignores surrounding
  text in which no earlier match starts, and needs all three literals.
- `voice_command_examples.dfy`: concrete transcripts and what `Parse` makes of
  them.

The matcher can be a per-position check because `(\w+)` is always followed by
a space, and a space is not a word character. So at a given start position
only the maximal word run can be followed by `" from "`, and the regular
expression's backtracking never picks a different capture. `MatchAtComplete`
proves this.

Three facts about the code that the model keeps as they are:
- A square's file is any `\w` character, so a digit or `_` also matches as a
  file. For `_` the column is -2.
- The pattern has no `i` flag, so its literals are case-sensitive. Only the
  caller's `toLowerCase()` lets spoken capitals match.
- The handler only prints the two-character square texts. The model keeps
  them as `Square` values with a `Text()` function.

`Parse` is a pure function, so calling it twice on the same transcript gives
the same result by construction.

## Model

| member | source | states |
|---|---|---|
| Coordinates.RankToX | index.js:47 | The row is 8 minus the rank's digit value. It lies in -1..8, and it lies in 0..7 exactly when the rank is '1'..'8'. |
| Coordinates.FileToY | index.js:48 | The column plus 97 is the file's character code. It lies in 0..7 exactly when the file is 'a'..'h', and in -49..25 for any `\w` file. |
| Coordinates.RankRoundTrip | index.js:47-50 | Rank conversion is a bijection between the ten digits and the rows -1..8, with `XToRank` as its inverse in both directions. |
| Coordinates.FileRoundTrip | index.js:48-50 | File conversion is invertible on word characters, with `YToFile` as its inverse in both directions. |
| Coordinates.RankToXReversesOrder | index.js:47 | A higher rank digit gives a strictly lower row, and only then. |
| Coordinates.FileToYKeepsOrder | index.js:48 | A later file character gives a strictly larger column, and only then. |
| Coordinates.ConversionLandmarks | index.js:47-50 | '1' is row 7 and '8' is row 0; 'a' is column 0 and 'h' is column 7. The unchecked values: '0' is row 8, '9' is row -1, '_' is column -2, 'z' is column 25. |
| Coordinates.DigitValue | index.js:47-49 | The value `parseInt` gives a captured `\d`. Its own contract gives only the bound 0..9; the exact value follows from `RankToX` together with `RankRoundTrip` and `RankToXReversesOrder`. |
| Coordinates.Square.Text | index.js:52 | The square's echoed text is two characters long: the file, then the rank, as in `${matches[2]}${matches[3]}`. |
| VoiceCommand.Convert | index.js:46-50 | The result keeps the piece and both captured squares. Each input square is read back from its pair of indices through the inverses `YToFile` and `XToRank`, so the indices are computed from that square and lose nothing. A square is on the board ('a'..'h', '1'..'8') exactly when both of its indices lie in 0..7. |
| VoiceCommand.WordRunLength | index.js:42 | The greedy `\w+` takes a run of word characters that stays inside the text and ends at a non-word character or at the end of the text. |
| VoiceCommand.MatchAt | index.js:42-50 | A match at one start position has well-formed captures, and its indices are their conversions. |
| VoiceCommand.LeftmostStart | index.js:43 | The scan returns a position where `MatchAt` succeeds with no success before it, or `None` when `MatchAt` fails at every position. |
| VoiceCommand.Parse | index.js:42-57 | A successful parse has a nonempty word-character piece, a `\w`+digit pair for each square, and indices that are their conversions. |
| VoiceCommandProofs.MaximalRunIsUnique | index.js:42 | A word run ended by a non-word character is the only length `\w+` can take there. |
| VoiceCommandProofs.MatchAtComplete | index.js:42-50 | Every match the reference semantics admits at a position is found by `MatchAt`, with the same captures and their converted indices. |
| VoiceCommandProofs.MatchAtSound | index.js:42-50 | Every result of `MatchAt` is a match of the reference semantics at that position, and its indices are the conversions. |
| VoiceCommandProofs.MatchAtNoneIff | index.js:42-43 | `MatchAt` fails at a position exactly when no captures make the pattern match there. |
| VoiceCommandProofs.ParseSound | index.js:42-46 | A parse result is a reference match at some position, and no match of any kind starts earlier. |
| VoiceCommandProofs.ParseLeftmost | index.js:42-46 | If the pattern matches at `i` and nowhere before, `Parse` returns exactly the captures of the match at `i`. |
| VoiceCommandProofs.ParseFindsAnyMatch | index.js:42-45 | The search is unanchored: a match anywhere in the transcript makes `Parse` succeed. |
| VoiceCommandProofs.ParseNoneIff | index.js:43-56 | "Could not understand the command" happens exactly when the pattern matches at no position. |
| VoiceCommandProofs.ParseIgnoresSurroundingText | index.js:42-46 | The phrase embedded between any suffix and a prefix containing no lower-case 'm' parses to exactly the phrase's captures. |
| VoiceCommandProofs.ParsePhrase | index.js:42-50 | A transcript that is exactly the command phrase parses to the phrase's piece and squares, with their converted indices. |
| VoiceCommandProofs.ParsePhrasePrefix | index.js:42-46 | A transcript that starts with the phrase parses to the phrase's captures whatever follows it, so an extra digit after the target square is ignored. |
| VoiceCommandProofs.ParseNeedsLiterals | index.js:42-56 | A successful parse needs `"move "`, `" from "` and `" to "` in the transcript; without any one of them the command is not understood. |
| VoiceCommandProofs.MatchNeedsRoomAndLowerCase | index.js:42 | A match needs at least 20 characters from its start, and it starts with a lower-case "mo": the literals are case-sensitive. |
| VoiceCommandProofs.MultiWordPieceFails | index.js:42 | After "move ", a word followed by a space and then anything other than "from " cannot match there. So a two-word piece name fails at its "move". |
| VoiceCommandExamples.PoliteCommand | index.js:42-50 | "please move knight from a1 to b2 now" gives knight, a1 → (7, 0), b2 → (6, 1). |
| VoiceCommandExamples.TrailingDigitIgnored | index.js:42-50 | "move pawn from a1 to b23" moves to b2. |
| VoiceCommandExamples.OffBoardSquares | index.js:42-50 | "move pawn from _0 to z9" still matches, giving rows 8 and -1 and columns -2 and 25. |
| VoiceCommandExamples.MissingFrom | index.js:42-56 | "move pawn e2 to e4" is not understood. |
| VoiceCommandExamples.MisspelledMove | index.js:42-56 | "mve knight from a1 to b2" is not understood. |
| VoiceCommandExamples.CapitalisedMove | index.js:42-56 | "Move pawn from e2 to e4" already fails at position 0 and is not understood: the literals are case-sensitive. |
| VoiceCommandExamples.TwoWordPieceAtMove | index.js:42 | "move white pawn from e2 to e4" does not match at its "move". |
| VoiceCommandExamples.TwoWordPiece | index.js:42-56 | "move white pawn from e2 to e4" is not understood at all. |

## Left out

- Speech-recognition feature detection, construction and configuration (index.js:1-8, 60-62): they depend on which host APIs exist, not on logic.
- The `onstart`, `onresult`, `onerror` and `onend` callbacks and `recognition.start()` (index.js:11-35): event-driven input from an external speech engine.
- `toLowerCase()` on the transcript (index.js:17): Unicode case mapping is a library call. `Parse` accepts any string.
- All `console.log` and `console.error` output: these are side effects only. `Parse` returns the values the handler prints.
- Any board update: the handler has only a comment there (index.js:54).
- Strings as UTF-16: JavaScript indexes UTF-16 code units, while a Dafny `char` is a Unicode scalar value. The two agree on every character the pattern can match, and only matched characters are captured or converted. A character outside the Basic Multilingual Plane never matches, so the model's results are unchanged.
