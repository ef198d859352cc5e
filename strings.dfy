/** The optional value used wherever the scripts use Python's `None`. */
module Optional {
  datatype Option<+T> = None | Some(value: T)
}

/**
 * The handful of Python `str` operations the scanners rely on, over ASCII:
 * `strip()`, `split('\n')`, `split()`, `sep.join(parts)`, `startswith`,
 * `isdigit()` and `in`.
 */
module Strings {

  type String = seq<char>

  /** Python's `str.isspace` restricted to ASCII: space, \t \n \v \f \r and \x1c-\x1f. */
  predicate IsSpace(c: char) {
    c == ' ' || c == '\t' || c == '\n' || c == '\r' || c == '\U{0B}' || c == '\U{0C}'
    || ('\U{1C}' <= c <= '\U{1F}')
  }

  /** Python's `str.isdigit` restricted to ASCII. */
  predicate IsDigit(c: char) {
    '0' <= c <= '9'
  }

  predicate AllSpace(s: String) {
    forall i :: 0 <= i < |s| ==> IsSpace(s[i])
  }

  predicate NoSpace(s: String) {
    forall i :: 0 <= i < |s| ==> !IsSpace(s[i])
  }

  predicate StartsWith(s: String, prefix: String) {
    |prefix| <= |s| && s[..|prefix|] == prefix
  }

  /** Python's slice `s[:n]` for n >= 0: at most the first n characters. */
  function Take(s: String, n: nat): (r: String)
    ensures |r| == if n < |s| then n else |s|
    ensures StartsWith(s, r)
  {
    if n < |s| then s[..n] else s
  }

  /** `s.lstrip()`: drops the leading whitespace. */
  function TrimLeft(s: String): String
  {
    if s != [] && IsSpace(s[0]) then TrimLeft(s[1..]) else s
  }

  /** `s.rstrip()`: drops the trailing whitespace. */
  function TrimRight(s: String): String
  {
    if s != [] && IsSpace(s[|s| - 1]) then TrimRight(s[..|s| - 1]) else s
  }

  /** `s.strip()`. */
  function Strip(s: String): String {
    TrimRight(TrimLeft(s))
  }

  /** `lstrip()` leaves a suffix of `s` that does not start with whitespace, and cuts only whitespace. */
  lemma {:induction false} TrimLeftSpec(s: String)
    ensures |TrimLeft(s)| <= |s| && TrimLeft(s) == s[|s| - |TrimLeft(s)|..]
    ensures AllSpace(s[..|s| - |TrimLeft(s)|])
    ensures TrimLeft(s) == [] || !IsSpace(TrimLeft(s)[0])
  {
    if s != [] && IsSpace(s[0]) {
      var r := TrimLeft(s[1..]);
      TrimLeftSpec(s[1..]);
      assert s[1..][..|s| - 1 - |r|] == s[1..|s| - |r|];
    }
  }

  /** `rstrip()` leaves a prefix of `s` that does not end with whitespace, and cuts only whitespace. */
  lemma {:induction false} TrimRightSpec(s: String)
    ensures |TrimRight(s)| <= |s| && TrimRight(s) == s[..|TrimRight(s)|]
    ensures AllSpace(s[|TrimRight(s)|..])
    ensures TrimRight(s) == [] || !IsSpace(TrimRight(s)[|TrimRight(s)| - 1])
  {
    if s != [] && IsSpace(s[|s| - 1]) {
      var r := TrimRight(s[..|s| - 1]);
      TrimRightSpec(s[..|s| - 1]);
      assert s[|r|..] == s[..|s| - 1][|r|..] + [s[|s| - 1]];
    }
  }

  /**
   * What `strip()` means: the result is the contiguous middle of `s` left
   * once all-whitespace margins are cut off, and it neither begins nor ends
   * with whitespace (so the margins are maximal).
   */
  lemma StripSpec(s: String)
    ensures exists i, j :: (0 <= i <= j <= |s| && Strip(s) == s[i..j]
                            && AllSpace(s[..i]) && AllSpace(s[j..]))
    ensures Strip(s) == [] || (!IsSpace(Strip(s)[0]) && !IsSpace(Strip(s)[|Strip(s)| - 1]))
  {
    var t := TrimLeft(s);
    TrimLeftSpec(s);
    TrimRightSpec(t);
    var i := |s| - |t|;
    var j := i + |TrimRight(t)|;
    assert Strip(s) == s[i..j];
    assert s[j..] == t[|TrimRight(t)|..];
  }

  /** Stripping twice is stripping once. */
  lemma StripIdempotent(s: String)
    ensures Strip(Strip(s)) == Strip(s)
  {
    var r := Strip(s);
    StripSpec(s);
    if r != [] {
      assert TrimLeft(r) == r;
    }
  }

  /** A string strips to nothing exactly when it is all whitespace. */
  lemma StripEmptyIffAllSpace(s: String)
    ensures Strip(s) == [] <==> AllSpace(s)
  {
    var t := TrimLeft(s);
    TrimLeftSpec(s);
    TrimRightSpec(t);
    if Strip(s) == [] {
      assert AllSpace(t[..0]);
      assert s == s[..|s| - |t|] + t;
    }
  }

  /** Index of the first occurrence of `c` in `s`. */
  function FirstIndex(s: String, c: char): (k: nat)
    requires c in s
    ensures k < |s| && s[k] == c && c !in s[..k]
  {
    if s[0] == c then 0 else 1 + FirstIndex(s[1..], c)
  }

  /** Python's `sep.join(parts)`. */
  function Join(parts: seq<String>, sep: String): String
  {
    if |parts| == 0 then []
    else if |parts| == 1 then parts[0]
    else parts[0] + sep + Join(parts[1..], sep)
  }

  /** One step of `Join`, kept apart so that callers do not unfold `Join` themselves. */
  lemma JoinStep(parts: seq<String>, sep: String)
    requires |parts| > 1
    ensures Join(parts, sep) == parts[0] + sep + Join(parts[1..], sep)
  {
  }

  /** Python's `s.split(c)` for a one-character separator `c`. */
  function SplitOn(s: String, c: char): (parts: seq<String>)
    ensures |parts| >= 1
    ensures forall k :: 0 <= k < |parts| ==> c !in parts[k]
    decreases |s|
  {
    if c in s then
      var i := FirstIndex(s, c);
      [s[..i]] + SplitOn(s[i + 1..], c)
    else
      [s]
  }

  /** Joining the pieces of `s.split(c)` with `c` gives back `s`. */
  lemma {:induction false} JoinSplitOn(s: String, c: char)
    ensures Join(SplitOn(s, c), [c]) == s
    decreases |s|
  {
    if c in s {
      var i := FirstIndex(s, c);
      var rest := SplitOn(s[i + 1..], c);
      var parts := SplitOn(s, c);
      assert parts == [s[..i]] + rest;
      JoinStep(parts, [c]);
      assert parts[1..] == rest;
      JoinSplitOn(s[i + 1..], c);
      assert s == s[..i] + [c] + s[i + 1..];
    }
  }

  /** Splitting a join of separator-free pieces on the separator gives the pieces back. */
  lemma {:induction false} SplitOnJoin(parts: seq<String>, c: char)
    requires |parts| >= 1
    requires forall k :: 0 <= k < |parts| ==> c !in parts[k]
    ensures SplitOn(Join(parts, [c]), c) == parts
  {
    if |parts| > 1 {
      var p := parts[0];
      var rest := Join(parts[1..], [c]);
      var s := p + [c] + rest;
      assert s[|p|] == c;
      assert c in s;
      var i := FirstIndex(s, c);
      assert i == |p|;
      assert s[..i] == p;
      assert s[i + 1..] == rest;
      SplitOnJoin(parts[1..], c);
    }
  }

  /** Length of the run of non-whitespace characters that starts `s`. */
  function WordEnd(s: String): (k: nat)
    ensures k <= |s| && NoSpace(s[..k]) && (k == |s| || IsSpace(s[k]))
  {
    if s == [] || IsSpace(s[0]) then 0
    else
      var k := 1 + WordEnd(s[1..]);
      assert s[..k] == [s[0]] + s[1..][..k - 1];
      k
  }

  /** Python's `s.split()`: the maximal runs of non-whitespace, in order. */
  function Words(s: String): (ws: seq<String>)
    ensures forall k :: 0 <= k < |ws| ==> ws[k] != [] && NoSpace(ws[k])
    decreases |s|
  {
    TrimLeftSpec(s);
    var t := TrimLeft(s);
    if t == [] then []
    else
      var k := WordEnd(t);
      [t[..k]] + Words(t[k..])
  }

  /** `s.split()` is empty exactly when `s` is all whitespace. */
  lemma WordsEmptyIffAllSpace(s: String)
    ensures Words(s) == [] <==> AllSpace(s)
  {
    var t := TrimLeft(s);
    TrimLeftSpec(s);
    if t == [] {
      assert s == s[..|s|];
    }
  }

  /** Leading whitespace does not change `split()`. */
  lemma WordsSkipsSpace(c: char, s: String)
    requires IsSpace(c)
    ensures Words([c] + s) == Words(s)
  {
    assert ([c] + s)[1..] == s;
  }

  /** `split()` of a word followed by whitespace (or nothing): that word, then the split of the rest. */
  lemma {:induction false} WordsLeadingWord(w: String, t: String)
    requires w != [] && NoSpace(w)
    requires t == [] || IsSpace(t[0])
    ensures Words(w + t) == [w] + Words(t)
  {
    var s := w + t;
    assert s[0] == w[0];
    assert TrimLeft(s) == s;
    WordEndOfWord(w, t);
    assert s[..|w|] == w;
    assert s[|w|..] == t;
  }

  /** `split()` of a word, a space and more text: the word, then the split of the rest. */
  lemma WordsCons(w: String, rest: String)
    requires w != [] && NoSpace(w)
    ensures Words(w + " " + rest) == [w] + Words(rest)
  {
    assert w + " " + rest == w + ([' '] + rest);
    WordsLeadingWord(w, [' '] + rest);
    WordsSkipsSpace(' ', rest);
  }

  /** `split()` of a single non-empty, whitespace-free word is that word. */
  lemma WordsSingle(w: String)
    requires w != [] && NoSpace(w)
    ensures Words(w) == [w]
  {
    assert w + [] == w;
    WordsLeadingWord(w, []);
  }

  /**
   * `split()` undoes a single-space join of non-empty, whitespace-free words:
   * the partner of `Join(_, " ")` for token lists such as the OCR texts.
   */
  lemma {:induction false} WordsJoin(ws: seq<String>)
    requires forall k :: 0 <= k < |ws| ==> ws[k] != [] && NoSpace(ws[k])
    ensures Words(Join(ws, " ")) == ws
  {
    if |ws| == 1 {
      WordsSingle(ws[0]);
    } else if |ws| > 1 {
      WordsJoin(ws[1..]);
      WordsJoinStep(ws);
    }
  }

  lemma WordsJoinStep(ws: seq<String>)
    requires |ws| > 1
    requires ws[0] != [] && NoSpace(ws[0])
    requires Words(Join(ws[1..], " ")) == ws[1..]
    ensures Words(Join(ws, " ")) == ws
  {
    JoinStep(ws, " ");
    WordsCons(ws[0], Join(ws[1..], " "));
    assert ws == [ws[0]] + ws[1..];
  }

  /** A whitespace-free word followed by whitespace (or nothing) ends where the word does. */
  lemma {:induction false} WordEndOfWord(w: String, t: String)
    requires w != [] && NoSpace(w)
    requires t == [] || IsSpace(t[0])
    ensures WordEnd(w + t) == |w|
    decreases |w|
  {
    if |w| > 1 {
      assert (w + t)[1..] == w[1..] + t;
      WordEndOfWord(w[1..], t);
    } else {
      assert (w + t)[1..] == t;
    }
  }
}
