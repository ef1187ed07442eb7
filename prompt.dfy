/**
  What `readline` makes of what the line editor returns: a line is trimmed
  and an empty answer replaced by the prompt's default; an interrupt, end of
  input or editor error aborts. The editor itself is not modelled.
 */
module Prompt {

  /** `char::is_whitespace`: the Unicode `White_Space` property. */
  predicate IsWhitespace(c: char) {
    || ('\U{0009}' <= c <= '\U{000D}')
    || c == ' '
    || c == '\U{0085}'
    || c == '\U{00A0}'
    || c == '\U{1680}'
    || ('\U{2000}' <= c <= '\U{200A}')
    || c == '\U{2028}'
    || c == '\U{2029}'
    || c == '\U{202F}'
    || c == '\U{205F}'
    || c == '\U{3000}'
  }

  /**
    Among ASCII characters the whitespace is tab, line feed, vertical tab,
    form feed, carriage return and space.
   */
  lemma AsciiWhitespace(c: char)
    requires c < '\U{0080}'
    ensures IsWhitespace(c) <==> c in "\t\n\U{000B}\U{000C}\r "
  {
  }

  predicate AllWhitespace(s: string) {
    forall i :: 0 <= i < |s| ==> IsWhitespace(s[i])
  }

  /** Non-empty with no whitespace at either end: what a trimmed, non-empty answer looks like. */
  predicate IsTrimmedAnswer(s: string) {
    s != [] && !IsWhitespace(s[0]) && !IsWhitespace(s[|s| - 1])
  }

  /** Every character of `s` at an index in `[lo, hi)` is whitespace. */
  predicate WhitespaceBetween(s: string, lo: int, hi: int)
    requires 0 <= lo && hi <= |s|
  {
    forall k :: lo <= k < hi ==> IsWhitespace(s[k])
  }

  /** The first index from `i` on that is not whitespace, or `|s|`. */
  function SkipForward(s: string, i: nat): (j: nat)
    requires i <= |s|
    decreases |s| - i
    ensures i <= j <= |s| && WhitespaceBetween(s, i, j)
    ensures j < |s| ==> !IsWhitespace(s[j])
  {
    if i < |s| && IsWhitespace(s[i]) then SkipForward(s, i + 1) else i
  }

  /** The end of `s[lo..j]` once its trailing whitespace is dropped. */
  function SkipBackward(s: string, lo: nat, j: nat): (k: nat)
    requires lo <= j <= |s|
    decreases j - lo
    ensures lo <= k <= j && WhitespaceBetween(s, k, j)
    ensures k > lo ==> !IsWhitespace(s[k - 1])
  {
    if lo < j && IsWhitespace(s[j - 1]) then SkipBackward(s, lo, j - 1) else j
  }

  /**
    `r` is `s` with leading and trailing whitespace removed, starting at
    offset `i`: only whitespace lies before and after it, and it is empty or
    has no whitespace at either end.
   */
  predicate IsTrimOf(s: string, r: string, i: nat) {
    && i + |r| <= |s|
    && r == s[i..i + |r|]
    && WhitespaceBetween(s, 0, i)
    && WhitespaceBetween(s, i + |r|, |s|)
    && (r == [] || IsTrimmedAnswer(r))
  }

  /** `str::trim`: skip whitespace from the front, then from the back of what remains. */
  function Trim(s: string): (r: string)
    ensures IsTrimOf(s, r, SkipForward(s, 0))
  {
    var i := SkipForward(s, 0);
    var k := SkipBackward(s, i, |s|);
    s[i..k]
  }

  /** A text has only one trimmed form: the characterisation determines `Trim`. */
  lemma TrimOfUnique(s: string, r1: string, i1: nat, r2: string, i2: nat)
    requires IsTrimOf(s, r1, i1) && IsTrimOf(s, r2, i2)
    ensures r1 == r2
  {
    if r1 != [] && r2 != [] {
      assert s[i1] == r1[0] && s[i2] == r2[0];
      assert i1 == i2;
      assert s[i1 + |r1| - 1] == r1[|r1| - 1] && s[i2 + |r2| - 1] == r2[|r2| - 1];
      assert |r1| == |r2|;
    } else if r1 != [] {
      assert false;
    } else if r2 != [] {
      assert false;
    }
  }

  /** The trimmed text is empty exactly when the whole text is whitespace. */
  lemma TrimEmptyIffBlank(s: string)
    ensures Trim(s) == [] <==> AllWhitespace(s)
  {
    var i := SkipForward(s, 0);
    if Trim(s) != [] {
      assert s[i] == Trim(s)[0];
    }
  }

  /** Trimming a trimmed answer, or the empty string, changes nothing. */
  lemma TrimKeepsTrimmed(s: string)
    requires s == [] || IsTrimmedAnswer(s)
    ensures Trim(s) == s
  {
    assert IsTrimOf(s, s, 0);
    TrimOfUnique(s, s, 0, Trim(s), SkipForward(s, 0));
  }

  /** Trimming twice is trimming once. */
  lemma TrimIdempotent(s: string)
    ensures Trim(Trim(s)) == Trim(s)
  {
    TrimKeepsTrimmed(Trim(s));
  }

  /** The `Ok(line)` branch: the trimmed line, or the default when nothing is left. */
  function Normalize(line: string, default: string): (r: string)
    ensures AllWhitespace(line) ==> r == default
    ensures !AllWhitespace(line) ==> r == Trim(line) && IsTrimmedAnswer(r)
  {
    var t := Trim(line);
    TrimEmptyIffBlank(line);
    if t == [] then default else t
  }

  /** An answer that is already trimmed and non-empty comes back unchanged, whatever the default. */
  lemma NormalizeKeepsTrimmedAnswer(line: string, default: string)
    requires IsTrimmedAnswer(line)
    ensures Normalize(line, default) == line
  {
    TrimKeepsTrimmed(line);
  }

  /** Normalising the normalised answer to a non-blank line gives it back, whatever the second default. */
  lemma NormalizeIdempotent(line: string, default: string, default': string)
    requires !AllWhitespace(line)
    ensures Normalize(Normalize(line, default), default') == Normalize(line, default)
  {
    NormalizeKeepsTrimmedAnswer(Normalize(line, default), default');
  }

  /** What the line editor returns. */
  datatype LineResult = Line(text: string) | Interrupted | Eof | EditorError(debug: string)

  /** What `readline` does: answer, or abort the process with a message. */
  datatype Reply = Answer(value: string) | Abort(message: string)

  /** `readline` after the editor has returned `res` to a prompt with default `default`. */
  function Readline(res: LineResult, default: string): (r: Reply)
    ensures r.Answer? <==> res.Line?
    ensures res.Line? ==> r.value == Normalize(res.text, default)
    ensures res.Interrupted? ==> r == Abort("Aborting.")
    ensures res.Eof? ==> r == Abort("EOF reached. Aborting.")
    ensures res.EditorError? ==> r == Abort("Error: " + res.debug)
  {
    match res
    case Line(text) => Answer(Normalize(text, default))
    case Interrupted => Abort("Aborting.")
    case Eof => Abort("EOF reached. Aborting.")
    case EditorError(debug) => Abort("Error: " + debug)
  }

  /** An answer comes only from a line, and is that line normalised. */
  lemma AnsweredLine(res: LineResult, default: string, value: string)
    requires Readline(res, default) == Answer(value)
    ensures res.Line? && value == Normalize(res.text, default)
  {
  }
}
