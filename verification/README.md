# ASS subtitle requirement extractor, in Dafny

This project models the extractor in `ASSInfoShow.py`. The extractor reads a batch of
Advanced SubStation Alpha (`.ass`) subtitle files. From each file it collects:

- the declared font names, which are the second field of every `Style:` record;
- the characters that the dialogue lines use, which are the free text after the ninth comma of every `Dialogue:` record.

It merges both into two session sets, `font_names` and `characters`. It then writes them to a
text file: the names one per line, a blank line, then every character once.

The model has six modules:

- `Text`: an `Option` type, literal matching at an index, and Python's `str.join` and one-character `str.split`.
- `Regex`: a backtracking matcher for the part of Python's `re` that the two patterns use. It covers literal characters, the lazy `.*?` (where `.` is any character but a line feed) and one capturing group. It also defines `re.findall` for a one-group pattern. This matcher is the reference definition that the scanners are proved against.
- `AssScan`: explicit scanners for `Style:.*?,(.*?),` and `Dialogue:` followed by nine `.*?,` and `(.*?)\n`. `ScanIsFindAll` proves they compute exactly `re.findall` of those patterns. The remaining lemmas describe what one occurrence contributes.
- `AssLines`: both patterns stay within one line. So a file's captures are the captures of its lines, and a last line without a line feed gives no dialogue text.
- `Session`: the two session sets; `process_file` as `Step` over the text as read; a batch as `Run`; and `load_files` as the method `LoadFiles`.
- `Report`: the exported text for any iteration order of the two sets, a reader for that text, and the round trip between them.

Some behaviour of the code that a reader might not expect:

- Names are merged by plain, case-sensitive set union (`ASSInfoShow.py:61`). `Arial` and `arial` both stay (`Session.CaseKept`).
- A capture is not trimmed: the text between the commas is kept as written.
- Files are opened as UTF-8 text and no other encoding is tried (`ASSInfoShow.py:56`). Text mode translates `"\r\n"` and a lone `'\r'` into `'\n'` before either pattern sees the text (`Text.Newlines`, `Text.LineEnding`, `AssLines.DialogueCrlfLines`).
- A file that fails to open or decode is not skipped. The exception leaves `process_file` and the loop in `load_files`, so no later file of the batch is processed (`Session.LoadFiles`).

## Model

| member | source | states |
|---|---|---|
| `Text.JoinMembers` | ASSInfoShow.py:65 | A character is in `sep.join(parts)` exactly when it is in some part, or it is in the separator and there are at least two parts. |
| `Text.SplitJoin` | ASSInfoShow.py:82 | Splitting at `c` a `c`-join of `c`-free parts gives the parts back. |
| `Text.Newlines` | ASSInfoShow.py:56-57 | Reading in text mode leaves no carriage return in the content and never lengthens it. Where each line break goes is stated by `Text.LineEnding`. |
| `Text.NewlinesPlain` | ASSInfoShow.py:56-57 | Text without carriage returns passes through the translation unchanged. |
| `Text.NewlinesIdempotent` | ASSInfoShow.py:56-57 | Translating the newlines of text that was already translated changes nothing. |
| `Text.LineEnding` | ASSInfoShow.py:56-57 | Anywhere in a file, a carriage-return-free stretch ended by `"\r\n"`, or by a lone `'\r'` that no line feed follows, reads as the same stretch ended by one `'\n'`, and the translation carries on with the rest of the file. |
| `Text.BreakAfter` | ASSInfoShow.py:56-57 | A carriage-return-free stretch followed by `"\r\n"`, or by a lone `'\r'` that no line feed follows, reads as the stretch and one `'\n'`, then the translation of the rest. |
| `Text.LineBreak` | ASSInfoShow.py:56-57 | A file that starts with `"\r\n"`, or with a lone `'\r'` that no line feed follows, reads as one `'\n'` followed by the translation of the rest. |
| `Regex.MatchLiteral` | ASSInfoShow.py:60 | A literal prefix such as `Style:` matches exactly when the text carries it at that index, and matching then continues after it. |
| `AssScan.LineEnd` | ASSInfoShow.py:64 | The end of a line: no line feed before it, and a line feed at it unless the text ends there. |
| `AssScan.NthCommaFacts` | ASSInfoShow.py:60 | The point where `n` lazy `.*?,` steps stop crosses no line feed and follows a comma. For one step, no comma comes earlier. |
| `AssScan.NthCommaCount` | ASSInfoShow.py:64 | `n` lazy `.*?,` steps succeed exactly when the rest of the line holds at least `n` commas. |
| `AssScan.NthCommaStep` | ASSInfoShow.py:64 | `n + 1` field steps are one step followed by `n` more from where it stopped. |
| `AssScan.TextAfterMoreFields` | ASSInfoShow.py:64 | If a line yields its text after `n + 1` fields, it also yields text after `n` fields. |
| `AssScan.StyleFieldsClean` | ASSInfoShow.py:60 | A style capture holds neither a comma nor a line feed. |
| `AssScan.TextAfterFieldsClean` | ASSInfoShow.py:64 | A dialogue capture holds no line feed. |
| `AssScan.ScanClean` | ASSInfoShow.py:60-64 | Across a whole scan, no capture holds a line feed, and no style capture holds a comma. |
| `AssScan.ExtractStyles` | ASSInfoShow.py:60 | Every extracted font name is free of commas and line feeds. |
| `AssScan.ExtractDialogues` | ASSInfoShow.py:64 | Every extracted dialogue text is free of line feeds. |
| `AssScan.StyleNameMatch` | ASSInfoShow.py:60 | The group `(.*?),` closes at the first comma of the line and fails when the line has none. |
| `AssScan.StyleTailMatch` | ASSInfoShow.py:60 | After `Style:`, the regex tail `.*?,(.*?),` gives exactly the text between the first and second comma of the line. |
| `AssScan.LineTextMatch` | ASSInfoShow.py:64 | `(.*?)\n` captures the rest of the line and needs the line's line feed. |
| `AssScan.TextTailMatch` | ASSInfoShow.py:64 | `n` copies of `.*?,` followed by `(.*?)\n` give exactly the rest of the line after the `n`-th comma, when the line has a line feed. |
| `AssScan.MatchAtIsRegex` | ASSInfoShow.py:60-64 | At every index, the scanner's match of each record kind is the regex engine's first match of the extractor's pattern. |
| `AssScan.ScanIsFindAll` | ASSInfoShow.py:60-64 | Both scanners compute exactly `re.findall` of the extractor's two patterns, over the whole text. |
| `AssScan.StyleOccurrence` | ASSInfoShow.py:60 | A `Style:` occurrence yields a name exactly when at least two commas follow it on its line. |
| `AssScan.StyleCapture` | ASSInfoShow.py:60 | On `Style:<field>,<name>,…` the capture is `<name>`, untrimmed, and the scan resumes after the second comma. |
| `AssScan.FirstComma` | ASSInfoShow.py:60 | After a comma-free, line-feed-free piece and a comma, the first `.*?,` step stops right after that comma. |
| `AssScan.CommasThenComma` | ASSInfoShow.py:64 | After a line-feed-free piece with `n` commas and then one more comma, the `n + 1`-th step stops right after that comma. |
| `AssScan.DialogueOccurrence` | ASSInfoShow.py:64 | A `Dialogue:` occurrence yields text exactly when at least nine commas follow it on its line and that line ends in a line feed. |
| `AssScan.DialogueCapture` | ASSInfoShow.py:64 | On `Dialogue:<head>,<text>` plus a line feed, with eight commas in `<head>`, the capture is all of `<text>`, commas included. |
| `AssLines.ScanShift` | ASSInfoShow.py:60-64 | Scanning the part `b` of `a + b` gives what scanning `b` alone gives. |
| `AssLines.ScanConcat` | ASSInfoShow.py:60-64 | When `a` ends a line, the captures of `a + b` are those of `a` followed by those of `b`. |
| `AssLines.ExtractByLines` | ASSInfoShow.py:60-64 | Font names and dialogue texts both distribute over a split at a line boundary. |
| `AssLines.NoLineFeedNoDialogue` | ASSInfoShow.py:64 | Text without a line feed yields no dialogue text. |
| `AssLines.FinalLineDropped` | ASSInfoShow.py:64 | In the text as read, a last line without a line feed adds no dialogue text, however many commas it has. A last line ending in a lone `'\r'` is not such a line, because reading turns that `'\r'` into a line feed. |
| `AssLines.DialogueLine` | ASSInfoShow.py:64 | A file that is one line `Dialogue:<head>,<text>` plus a line feed, with eight commas in `<head>`, contributes exactly `[<text>]`. |
| `AssLines.DialogueCrlfLine` | ASSInfoShow.py:56-64 | The same line ended by `"\r\n"` and read in text mode contributes `[<text>]`, without the carriage return. |
| `AssLines.CrlfPair` | ASSInfoShow.py:56-57 | Two lines each ended by `"\r\n"` read as the same two lines each ended by `'\n'`. |
| `AssLines.DialogueCrlfLines` | ASSInfoShow.py:56-64 | A file of two dialogue lines, each ended by `"\r\n"` and read in text mode, contributes both texts in order, neither with a carriage return. |
| `AssLines.StyleLine` | ASSInfoShow.py:60 | A file that is one line `Style:<field>,<name>,` declares exactly `[<name>]`. |
| `Session.Glyphs` | ASSInfoShow.py:65-66 | `set(' '.join(dialogues))` holds exactly the characters of the captures, plus `' '` when there are at least two captures. |
| `Session.FileClean` | ASSInfoShow.py:60-66 | One file contributes no name with a comma or line feed, and no line feed. |
| `Session.Step` | ASSInfoShow.py:54-66 | Processing one file only adds to both sets. The new names are the file's style captures, and the new characters are those of its captures plus the join's space. Validity is kept. |
| `Session.Run` | ASSInfoShow.py:47-48 | A batch only adds to both sets and keeps validity. |
| `Session.RunSnoc` | ASSInfoShow.py:47-48 | Processing one more file after a batch is one more step. |
| `Session.RunUnion` | ASSInfoShow.py:47-48 | A batch adds exactly the union of every file's names (the update at line 61) and characters (the update at line 66) to the starting sets. |
| `Session.RunOrderFree` | ASSInfoShow.py:61-66 | Two batches over the same set of files reach the same state, whatever the order and the repetitions. |
| `Session.StepIdempotent` | ASSInfoShow.py:61-66 | Processing the same file twice is the same as processing it once. |
| `Session.StepCommutes` | ASSInfoShow.py:61-66 | Processing A then B is the same as processing B then A. |
| `Session.TwoStyleLines` | ASSInfoShow.py:60-61 | A file of two style lines declares the two names. |
| `Session.CaseKept` | ASSInfoShow.py:61 | Names that differ only in letter case (`Arial`, `arial`) stay two names. |
| `Session.Reachable` | ASSInfoShow.py:37-38 | Every state reached from the empty sets is valid: no name holds a comma or a line feed, and no character is a line feed. |
| `Session.LoadFiles` | ASSInfoShow.py:47-57 | Files are processed in order until the first that fails to open or decode. The result is the batch over that prefix, each file's text taken after newline translation, and the prefix is as long as it can be. |
| `Report.Export` | ASSInfoShow.py:81-84 | The export ends with a blank line followed by each collected character exactly once. When the state is valid, that tail holds no line feed. |
| `Report.FirstBlank` | ASSInfoShow.py:83 | A blank line found by the reader is a real `"\n\n"` at or after the start. |
| `Report.JoinNoBlank` | ASSInfoShow.py:82 | Non-empty, line-feed-free names joined by line feeds contain no blank line and neither start nor end with a line feed. |
| `Report.ExportBlank` | ASSInfoShow.py:82-83 | In an export, the first blank line is the one written after the names. |
| `Report.GlyphsRecovered` | ASSInfoShow.py:84 | The characters of the written glyph string are exactly the collected set. |
| `Report.NamesRecovered` | ASSInfoShow.py:82 | Splitting the written name block at line feeds recovers exactly the collected names. |
| `Report.ExportRoundTrip` | ASSInfoShow.py:81-84 | For a valid state with no empty name, reading the export back gives exactly the two sets, for every iteration order. |
| `Report.EmptyNameLost` | ASSInfoShow.py:60 | The empty-name proviso is needed: a session whose only name is empty (from `Style:x,,`) reads back with no names. |

## Left out

- The Tk user interface is left out: the window, buttons, scrolled text area, `display_results` and the `__main__` entry (ASSInfoShow.py:8-34, 52, 68-73, 86-91). It only displays results.
- The progress bar updates in `load_files` are left out (ASSInfoShow.py:43-45, 49-50). They do not affect the sets.
- File dialogs, file reading and file writing are I/O:
  - a file's content enters as its decoded characters, and `LoadFiles` applies the text-mode newline translation (`Text.Newlines`) before processing;
  - a file that fails to open or decode is `None`;
  - the export is returned as the text before it is written.
- Writing the export in text mode turns each `'\n'` into the platform's line separator (ASSInfoShow.py:81-84). `Export` is the text before that translation. The round trip reads that same text.
- Text.Newlines: its own contract only says that no carriage return is left and that the text does not grow. The translation of each line break, wherever it sits, is stated by `Text.LineEnding` and `Text.LineBreak` instead, so that the cheaper contract keeps every lemma that mentions the translation small.
- The cancelled save dialog's early return is I/O and is left out (ASSInfoShow.py:78-79).
- Which byte sequences fail UTF-8 decoding is not modelled. Decoding is a parameter of `LoadFiles`.
- Python's iteration order over a set is unspecified. `Export` accepts every enumeration of the two sets instead of one fixed order.
- `FontSlimmer.py` and `OTF&TTC2TTF.py` are not part of this model. They wrap an external font library and Tk state.
