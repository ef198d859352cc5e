/**
 * The decision logic of the cloud-OCR scanner (book_scanner_googlevision.py):
 * turning the recognised spine text into a call number, a title hint and an
 * author hint, and assembling the Open Library search URL from the hints.
 */
module VisionScanner {
  import opened Optional
  import opened Strings

  /** The part of a Vision API answer the parser reads: the full recognised text. */
  datatype Detection = Detection(fullText: String)

  /** The record `parse_book_info` returns. */
  datatype BookInfo = BookInfo(callNumber: Option<String>, titleHint: Option<String>, authorHint: Option<String>)

  // ---------------------------------------------------------------------------
  // Lines

  /**
   * `[f(p) for p in pieces if f(p)]`: each piece mapped by `f`, the empty
   * results dropped, order kept.
   */
  function KeepNonEmpty(pieces: seq<String>, f: String -> String): (kept: seq<String>)
    ensures |kept| <= |pieces|
    ensures forall k :: 0 <= k < |kept| ==> kept[k] != []
  {
    if pieces == [] then []
    else
      var rest := KeepNonEmpty(pieces[1..], f);
      if f(pieces[0]) != [] then [f(pieces[0])] + rest else rest
  }

  /** `[line.strip() for line in full_text.split('\n') if line.strip()]`. */
  function Lines(fullText: String): (lines: seq<String>)
    ensures forall k :: 0 <= k < |lines| ==> lines[k] != []
  {
    KeepNonEmpty(SplitOn(fullText, '\n'), Strip)
  }

  /** One step of `KeepNonEmpty`: the first piece, kept or dropped, before the rest. */
  lemma KeepNonEmptyStep(pieces: seq<String>, f: String -> String)
    requires pieces != []
    ensures KeepNonEmpty(pieces, f)
      == (if f(pieces[0]) != [] then [f(pieces[0])] else []) + KeepNonEmpty(pieces[1..], f)
  {
  }

  lemma AppendHeadTail(a: seq<String>, b: seq<String>)
    requires a != []
    ensures (a + b)[0] == a[0] && (a + b)[1..] == a[1..] + b
  {
  }

  /** Filtering the pieces of a concatenation filters each part, in order. */
  lemma {:induction false} KeepNonEmptyAppend(a: seq<String>, b: seq<String>, f: String -> String)
    ensures KeepNonEmpty(a + b, f) == KeepNonEmpty(a, f) + KeepNonEmpty(b, f)
  {
    if a == [] {
      assert a + b == b;
    } else {
      var head := if f(a[0]) != [] then [f(a[0])] else [];
      calc {
        KeepNonEmpty(a + b, f);
        { KeepNonEmptyStep(a + b, f); AppendHeadTail(a, b); }
        head + KeepNonEmpty(a[1..] + b, f);
        { KeepNonEmptyAppend(a[1..], b, f); }
        head + (KeepNonEmpty(a[1..], f) + KeepNonEmpty(b, f));
        (head + KeepNonEmpty(a[1..], f)) + KeepNonEmpty(b, f);
        { KeepNonEmptyStep(a, f); }
        KeepNonEmpty(a, f) + KeepNonEmpty(b, f);
      }
    }
  }

  /** A string is kept exactly when it is non-empty and the image of some piece. */
  lemma {:induction false} KeepNonEmptyMembers(pieces: seq<String>, f: String -> String, x: String)
    ensures x in KeepNonEmpty(pieces, f) <==>
      x != [] && exists k :: 0 <= k < |pieces| && f(pieces[k]) == x
  {
    if pieces != [] {
      var rest := pieces[1..];
      KeepNonEmptyMembers(rest, f, x);
      KeepNonEmptyStep(pieces, f);
      if x in KeepNonEmpty(rest, f) {
        var k :| 0 <= k < |rest| && f(rest[k]) == x;
        assert pieces[k + 1] == rest[k];
      }
      if x != [] && exists k :: 0 <= k < |pieces| && f(pieces[k]) == x {
        var k :| 0 <= k < |pieces| && f(pieces[k]) == x;
        if k > 0 {
          assert rest[k - 1] == pieces[k];
        }
      }
    }
  }

  /**
   * The lines of a text are its `\n`-separated pieces, stripped, the blank
   * ones (all whitespace) dropped: a string is a line iff it is the strip of
   * a piece that is not all whitespace, and then stripping it changes nothing.
   */
  lemma LinesMembers(fullText: String, x: String)
    ensures x in Lines(fullText) <==>
      exists k :: (0 <= k < |SplitOn(fullText, '\n')| && !AllSpace(SplitOn(fullText, '\n')[k])
                   && Strip(SplitOn(fullText, '\n')[k]) == x)
    ensures x in Lines(fullText) ==> Strip(x) == x
  {
    var pieces := SplitOn(fullText, '\n');
    KeepNonEmptyMembers(pieces, Strip, x);
    if x in Lines(fullText) {
      var k :| 0 <= k < |pieces| && Strip(pieces[k]) == x;
      StripEmptyIffAllSpace(pieces[k]);
      StripIdempotent(pieces[k]);
      assert !AllSpace(pieces[k]) && Strip(pieces[k]) == x;
      assert exists k :: (0 <= k < |SplitOn(fullText, '\n')| && !AllSpace(SplitOn(fullText, '\n')[k])
                          && Strip(SplitOn(fullText, '\n')[k]) == x);
    } else {
      forall k | 0 <= k < |pieces| && Strip(pieces[k]) == x
        ensures AllSpace(pieces[k])
      {
        StripEmptyIffAllSpace(pieces[k]);
      }
    }
  }

  /** The lines of a text never contain a line break. */
  lemma LinesHaveNoBreak(fullText: String, x: String)
    requires x in Lines(fullText)
    ensures '\n' !in x
  {
    var pieces := SplitOn(fullText, '\n');
    KeepNonEmptyMembers(pieces, Strip, x);
    var k :| 0 <= k < |pieces| && Strip(pieces[k]) == x;
    StripSpec(pieces[k]);
    var i, j :| 0 <= i <= j <= |pieces[k]| && x == pieces[k][i..j];
  }

  // ---------------------------------------------------------------------------
  // Call numbers and the author hint

  /** `line.startswith('FIC') and len(line.split()) >= 2`. */
  predicate IsFiction(line: String) {
    StartsWith(line, "FIC") && |Words(line)| >= 2
  }

  /** `line and line[0].isdigit() and '.' in line[:10]`. */
  predicate IsDewey(line: String) {
    |line| > 0 && IsDigit(line[0]) && '.' in Take(line, 10)
  }

  /** A line the loop takes as a call number, by either branch. */
  predicate IsCallNumber(line: String) {
    IsFiction(line) || IsDewey(line)
  }

  /** `line.split()[1][:3]`: up to three leading characters of the second token. */
  function AuthorOf(line: String): (a: String)
    requires IsFiction(line)
    ensures 0 < |a| <= 3 && StartsWith(Words(line)[1], a)
    ensures |a| == if |Words(line)[1]| < 3 then |Words(line)[1]| else 3
    ensures NoSpace(a)
  {
    Take(Words(line)[1], 3)
  }

  /**
   * Index of the last line satisfying `p`: the line whose assignment survives
   * a loop that overwrites its variable at every match.
   */
  function LastIndexWhere(lines: seq<String>, p: String -> bool): (r: Option<nat>)
    ensures r.None? <==> forall k :: 0 <= k < |lines| ==> !p(lines[k])
    ensures r.Some? ==> (r.value < |lines| && p(lines[r.value])
                         && forall j :: r.value < j < |lines| ==> !p(lines[j]))
  {
    if lines == [] then None
    else
      var n := |lines| - 1;
      if p(lines[n]) then Some(n)
      else
        var r := LastIndexWhere(lines[..n], p);
        assert forall k :: 0 <= k < n ==> lines[..n][k] == lines[k];
        r
  }

  /** The call number after the loop has seen `lines`: the last line matching either pattern. */
  function LastCallNumber(lines: seq<String>): (r: Option<String>)
    ensures r.None? <==> forall k :: 0 <= k < |lines| ==> !IsCallNumber(lines[k])
    ensures r.Some? ==> exists k :: (0 <= k < |lines| && lines[k] == r.value && IsCallNumber(lines[k])
                                     && forall j :: k < j < |lines| ==> !IsCallNumber(lines[j]))
  {
    match LastIndexWhere(lines, IsCallNumber)
    case None => None
    case Some(k) => Some(lines[k])
  }

  /** The author hint after the loop has seen `lines`: taken from the last fiction line. */
  function LastAuthorHint(lines: seq<String>): (r: Option<String>)
    ensures r.None? <==> forall k :: 0 <= k < |lines| ==> !IsFiction(lines[k])
    ensures r.Some? ==> exists k :: (0 <= k < |lines| && IsFiction(lines[k]) && r.value == AuthorOf(lines[k])
                                     && forall j :: k < j < |lines| ==> !IsFiction(lines[j]))
  {
    match LastIndexWhere(lines, IsFiction)
    case None => None
    case Some(k) => Some(AuthorOf(lines[k]))
  }

  /** Appending a line that `p` rejects leaves the last match where it was. */
  lemma LastIndexWhereSkips(lines: seq<String>, line: String, p: String -> bool)
    requires !p(line)
    ensures LastIndexWhere(lines + [line], p) == LastIndexWhere(lines, p)
  {
    assert (lines + [line])[..|lines|] == lines;
  }

  /** A Dewey line after the others becomes the call number and leaves the author hint alone. */
  lemma DeweyKeepsAuthorHint(lines: seq<String>, line: String)
    requires IsDewey(line) && !IsFiction(line)
    ensures LastCallNumber(lines + [line]) == Some(line)
    ensures LastAuthorHint(lines + [line]) == LastAuthorHint(lines)
  {
    LastIndexWhereSkips(lines, line, IsFiction);
  }

  /** Every author hint is a non-empty, whitespace-free prefix of at most three characters. */
  lemma AuthorHintShape(lines: seq<String>)
    requires LastAuthorHint(lines).Some?
    ensures 0 < |LastAuthorHint(lines).value| <= 3 && NoSpace(LastAuthorHint(lines).value)
  {
  }

  // ---------------------------------------------------------------------------
  // The title hint

  /**
   * Index of `max(lines, key=len)`: a longest line, and the first of them,
   * as Python's `max` keeps its current best unless a later item is strictly larger.
   */
  function LongestIndex(lines: seq<String>): (k: nat)
    requires lines != []
    ensures k < |lines|
    ensures forall j :: 0 <= j < |lines| ==> |lines[j]| <= |lines[k]|
    ensures forall j :: 0 <= j < k ==> |lines[j]| < |lines[k]|
  {
    if |lines| == 1 then 0
    else
      var n := |lines| - 1;
      var best := LongestIndex(lines[..n]);
      assert forall j :: 0 <= j < n ==> lines[..n][j] == lines[j];
      if |lines[n]| > |lines[best]| then n else best
  }

  /** `max(lines, key=len)` when there are lines, else `None`. */
  function TitleHint(lines: seq<String>): (title: Option<String>)
    ensures title.None? <==> lines == []
    ensures title.Some? ==> (title.value in lines && forall j :: 0 <= j < |lines| ==> |lines[j]| <= |title.value|)
  {
    if lines == [] then None else Some(lines[LongestIndex(lines)])
  }

  /** The record `parse_book_info` builds from the lines. */
  function HintsOf(lines: seq<String>): BookInfo
  {
    BookInfo(LastCallNumber(lines), TitleHint(lines), LastAuthorHint(lines))
  }

  /** With no lines the loop never runs and the title is never set: all three hints are absent. */
  lemma NoLinesNoHints()
    ensures HintsOf([]) == BookInfo(None, None, None)
  {
  }

  // ---------------------------------------------------------------------------
  // parse_book_info

  /** What one more turn of the parsing loop does to the call number and the author hint. */
  lemma ParseStep(lines: seq<String>, i: nat)
    requires i < |lines|
    ensures LastCallNumber(lines[..i + 1])
      == if IsCallNumber(lines[i]) then Some(lines[i]) else LastCallNumber(lines[..i])
    ensures LastAuthorHint(lines[..i + 1])
      == if IsFiction(lines[i]) then Some(AuthorOf(lines[i])) else LastAuthorHint(lines[..i])
  {
    assert lines[..i + 1][..i] == lines[..i];
    assert lines[..i + 1][i] == lines[i];
  }

  /**
   * `parse_book_info`: `None` for a missing detection; otherwise the loop over
   * the lines overwrites the call number and author hint at each match, and
   * the title hint is the first longest line.
   */
  method ParseBookInfo(detected: Option<Detection>) returns (info: Option<BookInfo>)
    ensures detected.None? <==> info.None?
    ensures detected.Some? ==> info == Some(HintsOf(Lines(detected.value.fullText)))
  {
    if detected.None? {
      return None;
    }
    var lines := Lines(detected.value.fullText);
    var callNumber: Option<String> := None;
    var authorHint: Option<String> := None;
    var titleHint: Option<String> := None;
    for i := 0 to |lines|
      invariant callNumber == LastCallNumber(lines[..i])
      invariant authorHint == LastAuthorHint(lines[..i])
    {
      var line := lines[i];
      ParseStep(lines, i);
      if StartsWith(line, "FIC") && |Words(line)| >= 2 {
        callNumber := Some(line);
        authorHint := Some(Take(Words(line)[1], 3));
      } else if |line| > 0 && IsDigit(line[0]) && '.' in Take(line, 10) {
        callNumber := Some(line);
      }
    }
    assert lines[..|lines|] == lines;
    if lines != [] {
      titleHint := Some(lines[LongestIndex(lines)]);
    }
    info := Some(BookInfo(callNumber, titleHint, authorHint));
  }

  // ---------------------------------------------------------------------------
  // The Open Library query

  /** The search endpoint every query starts with. */
  const SearchUrl: String := "https://openlibrary.org/search.json?"

  /** Python truthiness of an optional string: present and non-empty. */
  predicate Truthy(hint: Option<String>) {
    hint.Some? && hint.value != []
  }

  /** The `params` list: `title=…` if there is a title hint, then `author=…` if there is an author hint. */
  function QueryParams(titleHint: Option<String>, authorHint: Option<String>): (params: seq<String>)
    ensures params == [] <==> !Truthy(titleHint) && !Truthy(authorHint)
    ensures |params| <= 2
  {
    (if Truthy(titleHint) then ["title=" + titleHint.value] else [])
    + (if Truthy(authorHint) then ["author=" + authorHint.value] else [])
  }

  /**
   * The URL `lookup_book_openlibrary` requests, or `None` when it returns
   * without a request because neither hint is usable.
   */
  function QueryUrl(titleHint: Option<String>, authorHint: Option<String>): (url: Option<String>)
    ensures url.None? <==> !Truthy(titleHint) && !Truthy(authorHint)
    ensures Truthy(titleHint) && Truthy(authorHint) ==>
      url == Some(SearchUrl + "title=" + titleHint.value + "&author=" + authorHint.value)
    ensures Truthy(titleHint) && !Truthy(authorHint) ==> url == Some(SearchUrl + "title=" + titleHint.value)
    ensures !Truthy(titleHint) && Truthy(authorHint) ==> url == Some(SearchUrl + "author=" + authorHint.value)
  {
    var params := QueryParams(titleHint, authorHint);
    if params == [] then None
    else
      assert Truthy(titleHint) && Truthy(authorHint) ==>
        SearchUrl + Join(params, "&") == SearchUrl + "title=" + titleHint.value + "&author=" + authorHint.value
      by {
        if Truthy(titleHint) && Truthy(authorHint) {
          JoinStep(params, "&");
          assert "&" + ("author=" + authorHint.value) == "&author=" + authorHint.value;
        }
      }
      assert Truthy(titleHint) && !Truthy(authorHint) ==>
        SearchUrl + Join(params, "&") == SearchUrl + "title=" + titleHint.value
      by {
        if Truthy(titleHint) && !Truthy(authorHint) {
          assert params == ["title=" + titleHint.value];
        }
      }
      assert !Truthy(titleHint) && Truthy(authorHint) ==>
        SearchUrl + Join(params, "&") == SearchUrl + "author=" + authorHint.value
      by {
        if !Truthy(titleHint) && Truthy(authorHint) {
          assert params == ["author=" + authorHint.value];
        }
      }
      Some(SearchUrl + Join(params, "&"))
  }

  /**
   * What the scan branch requests after parsing: no request iff the text has
   * no lines; otherwise the title is the first longest line and the author
   * part is there iff some line is a fiction call number.
   */
  lemma ParsedQuery(fullText: String)
    ensures var lines := Lines(fullText);
      var info := HintsOf(lines);
      QueryUrl(info.titleHint, info.authorHint) ==
        if lines == [] then None
        else if LastAuthorHint(lines).Some? then
          Some(SearchUrl + "title=" + lines[LongestIndex(lines)] + "&author=" + LastAuthorHint(lines).value)
        else Some(SearchUrl + "title=" + lines[LongestIndex(lines)])
  {
    var lines := Lines(fullText);
    if LastAuthorHint(lines).Some? {
      AuthorHintShape(lines);
    }
  }

  // ---------------------------------------------------------------------------
  // Worked examples of the heuristic

  /** `FIC <word>`, optionally followed by whitespace and more, is a fiction call number naming that word. */
  lemma FictionLine(w: String, tail: String)
    requires w != [] && NoSpace(w)
    requires tail == [] || IsSpace(tail[0])
    ensures IsFiction("FIC " + w + tail)
    ensures AuthorOf("FIC " + w + tail) == Take(w, 3)
  {
    var line := "FIC " + w + tail;
    assert StartsWith(line, "FIC") by {
      assert line[..3] == "FIC";
    }
    assert line == "FIC" + " " + (w + tail);
    WordsCons("FIC", w + tail);
    WordsLeadingWord(w, tail);
    assert Words(line) == ["FIC"] + ([w] + Words(tail));
  }

  /**
   * `FIC <word>` followed by a line that is no call number and not longer:
   * the fiction line is both call number and title, and the author hint is
   * the word's first three characters.
   */
  lemma FictionThenPlainLine(w: String, other: String)
    requires w != [] && NoSpace(w)
    requires !IsCallNumber(other) && |other| <= 4 + |w|
    ensures var fic := "FIC " + w;
      HintsOf([fic, other]) == BookInfo(Some(fic), Some(fic), Some(Take(w, 3)))
  {
    var fic := "FIC " + w;
    var lines := [fic, other];
    FictionLine(w, []);
    assert fic + [] == fic;
    assert lines[..1] == [fic];
    assert LastIndexWhere(lines, IsCallNumber) == Some(0);
    assert LastIndexWhere(lines, IsFiction) == Some(0);
    assert LongestIndex(lines) == 0;
  }

  /** Of two fiction lines the later one supplies both the call number and the author hint. */
  lemma LaterFictionLineWins(a: String, b: String, rest: String)
    requires a != [] && NoSpace(a) && b != [] && NoSpace(b)
    requires rest == [] || IsSpace(rest[0])
    ensures var second := "FIC " + b + rest;
      var info := HintsOf(["FIC " + a, second]);
      info.callNumber == Some(second) && info.authorHint == Some(Take(b, 3))
  {
    FictionLine(b, rest);
  }

  /** A Dewey line followed by a longer plain line: the call number comes from the first, the title from the second, no author. */
  lemma ExampleDewey()
    ensures HintsOf(["123.45 Dewey Line", "A Much Longer Title Line Here"])
      == BookInfo(Some("123.45 Dewey Line"), Some("A Much Longer Title Line Here"), None)
  {
    var lines := ["123.45 Dewey Line", "A Much Longer Title Line Here"];
    assert lines[..1] == ["123.45 Dewey Line"];
    assert !StartsWith(lines[0], "FIC") && !StartsWith(lines[1], "FIC");
    assert !IsDigit(lines[1][0]);
    assert Take(lines[0], 10)[3] == '.';
  }
}
