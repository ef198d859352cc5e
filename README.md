# Book scanner decision logic in Dafny

The repository is a pair of camera scripts that read the spine of a library
book. `book_scanner.py` runs Tesseract on a preprocessed frame.
`book_scanner_googlevision.py` sends the frame to a cloud OCR service and then
searches Open Library. This project models the decision logic inside those
scripts and proves what it guarantees:

- **`parse_book_info`** (module `VisionScanner`). It splits the recognised text
  into stripped, non-blank lines. It walks those lines, and each line that
  matches the fiction pattern (`FIC <token>`) or the Dewey pattern (a leading
  digit and a `.` in the first ten characters) overwrites the call number.
  Each fiction line also overwrites the author hint with the first three
  characters of its second token. The first longest line becomes the title
  hint.
- **The Open Library query string** that `lookup_book_openlibrary` builds
  from the two hints (module `VisionScanner`).
- **The Tesseract scan branch** (module `TesseractScanner`). It walks the
  parallel OCR columns and keeps the detections whose confidence is above 40
  and whose stripped text is longer than one character. It maps each kept box
  back to the camera frame with `// 2`, collects the kept texts in order and
  raises the found flag.
- **The key-driven processing-mode loop** (module `TesseractScanner`). Keys
  `1`/`2`/`3` choose a mode, `s` scans in the current mode, `q` quits, and
  every frame is labelled through `mode_names[process_mode]`.
- **The Python string operations these rely on** (module `Strings`):
  `strip`, `split('\n')`, `split()`, `join`, `startswith` and slicing, over
  ASCII.

Imperative parts stay imperative. `ParseBookInfo`, `ScanDetections` and
`RunModeLoop` are methods with the source's loops. Each is proved equal to a
specification function (`HintsOf`, `RegionsOf`/`AcceptedIndices`,
`ModeAfter`/`ScanModes`), and lemmas state the properties of those
functions.

Tesseract returns its columns at equal length. `ScanDetections` needs less:
`conf` as long as `text`, because the loop reads both at every index, and
the box columns long enough to reach every accepted index, because the loop
reads them only for the detections it keeps. Together these make `Covers(d)`.

## Model

| member | source | states |
|---|---|---|
| Strings.IsSpace | book_scanner_googlevision.py:114 | the whitespace `strip()` and `split()` cut: Python's `isspace` on ASCII |
| Strings.IsDigit | book_scanner_googlevision.py:136 | `isdigit()` on ASCII: `0`-`9` |
| Strings.StartsWith | book_scanner_googlevision.py:129 | `s.startswith(prefix)` |
| Strings.TrimLeft | book_scanner_googlevision.py:114 | `lstrip()`, characterised by `TrimLeftSpec` |
| Strings.TrimRight | book_scanner_googlevision.py:114 | `rstrip()`, characterised by `TrimRightSpec` |
| Strings.Strip | book_scanner_googlevision.py:114 | `strip()` as `rstrip()` after `lstrip()`, characterised by `StripSpec` |
| Strings.Join | book_scanner.py:131 | `sep.join(parts)`, inverted by `WordsJoin` and `SplitOnJoin` |
| Strings.Take | book_scanner_googlevision.py:131 | `s[:n]` has length `min(n, len(s))` and is a prefix of `s` |
| Strings.TrimLeftSpec | book_scanner_googlevision.py:114 | `lstrip` leaves a suffix that does not start with whitespace, and cuts only whitespace |
| Strings.TrimRightSpec | book_scanner_googlevision.py:114 | `rstrip` leaves a prefix that does not end with whitespace, and cuts only whitespace |
| Strings.StripSpec | book_scanner_googlevision.py:114 | `strip()` is the contiguous middle left after cutting all-whitespace margins, and it neither starts nor ends with whitespace |
| Strings.StripIdempotent | book_scanner.py:111 | stripping a stripped string changes nothing |
| Strings.StripEmptyIffAllSpace | book_scanner_googlevision.py:114 | a string strips to `''` exactly when it is all whitespace, which is what the comprehension's `if line.strip()` drops |
| Strings.SplitOn | book_scanner_googlevision.py:114 | `split('\n')` yields at least one piece, and no piece contains the separator |
| Strings.JoinSplitOn | book_scanner_googlevision.py:114 | joining the pieces of `split('\n')` with `'\n'` gives back the text |
| Strings.SplitOnJoin | book_scanner_googlevision.py:114 | splitting a join of separator-free pieces gives the pieces back |
| Strings.Words | book_scanner_googlevision.py:129 | every token of `split()` is non-empty and free of whitespace |
| Strings.WordsEmptyIffAllSpace | book_scanner_googlevision.py:129 | `split()` is empty exactly when the string is all whitespace |
| Strings.WordsLeadingWord | book_scanner_googlevision.py:129 | `split()` of a word followed by whitespace or nothing is that word, then the split of the rest |
| Strings.WordsCons | book_scanner_googlevision.py:131 | `split()` of `word + ' ' + rest` is the word, then the split of `rest` |
| Strings.WordsSingle | book_scanner_googlevision.py:129 | `split()` of one whitespace-free word is that word |
| Strings.WordsJoin | book_scanner.py:131 | `split()` undoes a single-space `join` of non-empty, whitespace-free tokens |
| VisionScanner.IsFiction | book_scanner_googlevision.py:129 | the fiction test: the line starts with `FIC` and `split()` gives at least two tokens |
| VisionScanner.IsDewey | book_scanner_googlevision.py:136 | the Dewey test: a non-empty line whose first character is a digit and whose first ten characters contain `.` |
| VisionScanner.IsCallNumber | book_scanner_googlevision.py:129-136 | a line either branch of the loop takes as a call number |
| VisionScanner.Truthy | book_scanner_googlevision.py:30-33 | Python truthiness of a hint: present and non-empty |
| VisionScanner.QueryParams | book_scanner_googlevision.py:28-33 | the `params` list: empty iff neither hint is truthy, and at most one `title=` and one `author=` entry |
| VisionScanner.KeepNonEmpty | book_scanner_googlevision.py:114 | the filtered comprehension keeps at most as many items as it reads, and none of them is empty |
| VisionScanner.Lines | book_scanner_googlevision.py:114 | no parsed line is empty |
| VisionScanner.KeepNonEmptyAppend | book_scanner_googlevision.py:114 | the comprehension over a concatenation is the concatenation of the comprehensions, so order is kept |
| VisionScanner.KeepNonEmptyMembers | book_scanner_googlevision.py:114 | a string is kept iff it is non-empty and the image of some piece |
| VisionScanner.LinesMembers | book_scanner_googlevision.py:114 | a string is a line iff it is the strip of a `\n`-piece that is not all whitespace, and every line is already stripped |
| VisionScanner.LinesHaveNoBreak | book_scanner_googlevision.py:114 | no line contains a line break |
| VisionScanner.AuthorOf | book_scanner_googlevision.py:131 | the author hint of a fiction line is the prefix of its second token of length `min(3, len(token))`, non-empty and free of whitespace |
| VisionScanner.LastIndexWhere | book_scanner_googlevision.py:127-138 | the variable a loop overwrites at every match ends as the last match, and it is absent iff nothing matches |
| VisionScanner.LastCallNumber | book_scanner_googlevision.py:127-138 | the call number is absent iff no line is a fiction or Dewey line; otherwise it is a line that matches, with no match after it |
| VisionScanner.LastAuthorHint | book_scanner_googlevision.py:127-133 | the author hint is absent iff no line is a fiction line; otherwise it comes from a fiction line with no fiction line after it |
| VisionScanner.LastIndexWhereSkips | book_scanner_googlevision.py:127-138 | a line that does not match leaves the last match unchanged |
| VisionScanner.DeweyKeepsAuthorHint | book_scanner_googlevision.py:136-137 | a Dewey line becomes the call number and does not clear or change the author hint |
| VisionScanner.AuthorHintShape | book_scanner_googlevision.py:131 | any author hint is non-empty, at most three characters and whitespace-free |
| VisionScanner.LongestIndex | book_scanner_googlevision.py:141-142 | `max(lines, key=len)` picks a line at least as long as every line, and the first such line |
| VisionScanner.TitleHint | book_scanner_googlevision.py:141-142 | there is a title hint iff there are lines, and then it is one of the lines and no line is longer |
| VisionScanner.HintsOf | book_scanner_googlevision.py:145-149 | the three-field record of the last call number, the title hint and the last fiction author hint |
| VisionScanner.NoLinesNoHints | book_scanner_googlevision.py:123-125 | with no lines all three hints stay `None` |
| VisionScanner.ParseStep | book_scanner_googlevision.py:127-138 | one loop turn: a fiction line sets call number and author hint; otherwise a Dewey line sets only the call number; any other line changes nothing |
| VisionScanner.ParseBookInfo | book_scanner_googlevision.py:106-149 | `None` iff the detection is missing; otherwise the record of the last call number, the first longest line and the last fiction author hint |
| VisionScanner.QueryUrl | book_scanner_googlevision.py:27-38 | no request iff neither hint is truthy; otherwise the base URL, then `title=…` if present, then `author=…` if present, joined by one `&` |
| VisionScanner.ParsedQuery | book_scanner_googlevision.py:187-194 | after parsing, a query is made iff the text has a line; it always has the title part, and has the author part iff some line is a fiction call number |
| VisionScanner.FictionLine | book_scanner_googlevision.py:129-131 | `FIC <word>`, with whitespace or nothing after it, is a fiction call number whose author hint is the word's first three characters |
| VisionScanner.FictionThenPlainLine | book_scanner_googlevision.py:127-142 | `FIC <word>`, followed by a non-call-number line no longer than it, gives the fiction line as call number and title, and the word's first three characters as author |
| VisionScanner.LaterFictionLineWins | book_scanner_googlevision.py:127-133 | of two fiction lines the later one supplies the call number and the author hint |
| VisionScanner.ExampleDewey | book_scanner_googlevision.py:136-142 | a Dewey line before a longer plain line gives the Dewey call number, the longer title and no author |
| TesseractScanner.ToFrame | book_scanner.py:117-118 | `v // 2` recovers the coordinate in the doubled image to within one: `2r <= v <= 2r + 1` |
| TesseractScanner.ToFrameInside | book_scanner.py:117-118 | a box inside the doubled image (book_scanner.py line 17) maps to a box inside the camera frame |
| TesseractScanner.ConfidenceCovers | book_scanner.py:110-112 | `conf` is read at every index of `text`, so it is at least as long |
| TesseractScanner.Covers | book_scanner.py:110-118 | in addition, each box column reaches every index the filter accepts |
| TesseractScanner.Accepted | book_scanner.py:114 | the filter: confidence above 40 and stripped text longer than one character |
| TesseractScanner.RegionAt | book_scanner.py:111-118 | the region drawn for an accepted detection: stripped text, confidence and the box halved |
| TesseractScanner.AcceptedIndices | book_scanner.py:110-114 | the kept indices are in range, pass the filter, and are strictly increasing |
| TesseractScanner.AcceptedIndicesStep | book_scanner.py:110-114 | one more index is appended exactly when it passes the filter |
| TesseractScanner.AcceptedIndicesComplete | book_scanner.py:110-114 | an index is kept iff it is in range, its confidence is above 40 and its stripped text is longer than 1 |
| TesseractScanner.AnyAccepted | book_scanner.py:105-115 | some index is kept iff some detection passes the filter |
| TesseractScanner.RegionsOf | book_scanner.py:111-118 | the regions of the kept indices, in order: the stripped text, the confidence and the halved box of each |
| TesseractScanner.ScanKeeps | book_scanner.py:114-128 | an accepted detection appends its region and text and raises the flag |
| TesseractScanner.ScanSkips | book_scanner.py:110-114 | a rejected detection changes nothing |
| TesseractScanner.ScanComplete | book_scanner.py:130-133 | after the loop the flag is set iff some detection passed the filter, and every kept text has at least two characters |
| TesseractScanner.ScanDetections | book_scanner.py:104-133 | the regions and texts are those of the accepted detections in input order; the flag is set iff the texts are non-empty iff some detection passed; the summary is the texts joined by single spaces |
| TesseractScanner.KeyCode | book_scanner.py:75 | `key & 0xFF` is a byte congruent to the raw code modulo 256 |
| TesseractScanner.ModeOfKey | book_scanner.py:77-85 | each mode key selects a mode that has a label |
| TesseractScanner.NextMode | book_scanner.py:77-85 | a mode key sets its mode; every other key leaves the mode unchanged; a labelled mode stays labelled |
| TesseractScanner.ModeAfter | book_scanner.py:64-85 | starting from `minimal`, the mode after any key sequence is a key of `mode_names`, so the label lookup never fails |
| TesseractScanner.ModeAfterNoModeKey | book_scanner.py:64 | with no mode key pressed the mode is still `minimal` |
| TesseractScanner.ModeAfterLastModeKey | book_scanner.py:77-85 | the last mode key pressed decides the mode |
| TesseractScanner.QuitIndex | book_scanner.py:141-142 | the loop handles keys up to the first `q`, and none before it is `q` |
| TesseractScanner.ScanModes | book_scanner.py:87-91 | the modes of the scans the `s` keys start, in order, at most one per key |
| TesseractScanner.ScanModesKnown | book_scanner.py:87-91 | every scan runs preprocessing in a labelled mode |
| TesseractScanner.RunModeLoop | book_scanner.py:64-91 | each frame up to and including the first `q` is labelled with the current mode, each `s` scans in the current mode, and the final mode is the one the handled keys select and is labelled |

## Left out

- `preprocess_for_ocr` (book_scanner.py:5-47) is not modelled. It is a sequence of OpenCV image operations. Only its ×2 resize appears, as `Upscale`.
- Camera capture, window display, drawing (`rectangle`, `putText`, `imshow`), the `waitKey` timing and the printed messages are I/O. The key events reach `RunModeLoop` as a parameter sequence, and an exhausted sequence stands for a failed frame read.
- `detect_text_vision`, the credential setup and the cloud OCR call are not modelled. `ParseBookInfo` receives the detection as a parameter.
- `requests.get` and the JSON handling in `lookup_book_openlibrary` are not modelled. `QueryUrl` stops at the URL string, and any percent-encoding the HTTP library would apply is not modelled.
- `pytesseract.image_to_data` is the external OCR engine. Its output is the parameter `OcrData`.
- `int(data['conf'][i])` is not modelled. The confidences arrive as integers.
- Python's Unicode behaviour of `strip`, `split`, `split()` and `isdigit` is approximated by ASCII whitespace (space, `\t`, `\n`, `\v`, `\f`, `\r`, `\x1c`-`\x1f`) and the digits `0`-`9`.
- VisionScanner.ParseBookInfo: a truthy detection dictionary without a `full_text` key would raise in the source. The model's detection always carries its text.
- TesseractScanner.ScanDetections: a `conf` column shorter than `text`, or a box column that ends before an accepted index, raises in the source. The model requires `Covers(d)` instead of modelling that exception.
