/**
 * `shellwords(line)`: Bash-style word splitting driven by one regular
 * expression,
 *
 *     \s*(?:([^\s\\'"]+)|'((?:[^'\\]|\\.)*)'|"((?:[^"\\]|\\.)*)")
 *
 * that is, optional white space followed by an unquoted run, a single-quoted
 * body or a double-quoted body in which `\x` escapes are allowed.
 *
 * The loop asks `exec` for the leftmost place where the pattern matches,
 * drops `match[0].length` characters from the FRONT of the line (not from
 * where the match was found, since the pattern is not anchored), and pushes
 * the captured text with its first `\x` escape resolved.
 */
module Shellwords {
  import opened Wrappers
  import opened JsText

  /** Which of the three alternatives of the pattern matched. */
  datatype Alternative = Unquoted | SingleQuoted | DoubleQuoted

  /**
   * A match found at index `start` of the line: `match[0]` is
   * `line[start..end]`, and the one capture group that took part
   * (`match[1] || match[2] || match[3] || ''`) is
   * `line[fieldStart..fieldEnd]`.
   */
  datatype Match = Match(start: nat, end: nat, alt: Alternative, fieldStart: nat, fieldEnd: nat)

  /** The text of the capture group of `m`, a match in `s`. */
  function Field(s: string, m: Match): string
    requires m.fieldStart <= m.fieldEnd <= |s|
  {
    s[m.fieldStart..m.fieldEnd]
  }

  /** The class `[^\s\\'"]` of characters that make up an unquoted run. */
  predicate IsUnquoted(c: char) {
    !IsWhiteSpace(c) && c != '\\' && c != '\'' && c != '"'
  }

  /** Only white space, as `\s*` consumes it. */
  predicate Blank(s: string) {
    forall k :: 0 <= k < |s| ==> IsWhiteSpace(s[k])
  }

  /**
   * The body of a quoted span: a sequence of items, each either a character
   * other than the quote and `\`, or `\` followed by a character `.` matches
   * (anything but a line terminator).
   */
  predicate IsQuotedBody(body: string, quote: char) {
    if body == "" then true
    else if body[0] == '\\' then
      |body| >= 2 && !IsLineTerminator(body[1]) && IsQuotedBody(body[2..], quote)
    else
      body[0] != quote && IsQuotedBody(body[1..], quote)
  }

  /** How a token of the given alternative appears in the line. */
  function Delimited(alt: Alternative, field: string): string {
    match alt
    case Unquoted => field
    case SingleQuoted => "'" + field + "'"
    case DoubleQuoted => "\"" + field + "\""
  }

  /** `\s*` from index `i`: the first index at or after `i` that is not white space. */
  function SkipWhiteSpace(s: string, i: nat): (j: nat)
    requires i <= |s|
    ensures i <= j <= |s|
    ensures j == |s| || !IsWhiteSpace(s[j])
    decreases |s| - i
  {
    if i < |s| && IsWhiteSpace(s[i]) then SkipWhiteSpace(s, i + 1) else i
  }

  /** Everything `\s*` passes over is white space. */
  lemma {:induction false} SkipWhiteSpaceSpan(s: string, i: nat)
    requires i <= |s|
    ensures forall k :: i <= k < SkipWhiteSpace(s, i) ==> IsWhiteSpace(s[k])
    decreases |s| - i
  {
    if i < |s| && IsWhiteSpace(s[i]) {
      SkipWhiteSpaceSpan(s, i + 1);
    }
  }

  /** A run of white space ending at the end or before other text is exactly what `\s*` consumes. */
  lemma {:induction false} SkipWhiteSpaceOver(s: string, i: nat, j: nat)
    requires i <= j <= |s|
    requires forall k :: i <= k < j ==> IsWhiteSpace(s[k])
    requires j == |s| || !IsWhiteSpace(s[j])
    ensures SkipWhiteSpace(s, i) == j
    decreases j - i
  {
    if i < j {
      SkipWhiteSpaceOver(s, i + 1, j);
    }
  }

  /** `[^\s\\'"]+` from index `i`, greedily: the end of the unquoted run. */
  function UnquotedEnd(s: string, i: nat): (j: nat)
    requires i <= |s|
    ensures i <= j <= |s|
    ensures j == |s| || !IsUnquoted(s[j])
    decreases |s| - i
  {
    if i < |s| && IsUnquoted(s[i]) then UnquotedEnd(s, i + 1) else i
  }

  /** Everything the unquoted run passes over may appear unquoted. */
  lemma {:induction false} UnquotedSpan(s: string, i: nat)
    requires i <= |s|
    ensures forall k :: i <= k < UnquotedEnd(s, i) ==> IsUnquoted(s[k])
    decreases |s| - i
  {
    if i < |s| && IsUnquoted(s[i]) {
      UnquotedSpan(s, i + 1);
    }
  }

  /** A maximal run of unquoted characters is exactly what the unquoted alternative consumes. */
  lemma {:induction false} UnquotedOver(s: string, i: nat, j: nat)
    requires i <= j <= |s|
    requires forall k :: i <= k < j ==> IsUnquoted(s[k])
    requires j == |s| || !IsUnquoted(s[j])
    ensures UnquotedEnd(s, i) == j
    decreases j - i
  {
    if i < j {
      UnquotedOver(s, i + 1, j);
    }
  }

  /**
   * `(?:[^q\\]|\\.)*` from index `i`, greedily: where the body of a quoted
   * span stops. The items are disjoint, so backtracking never finds a closing
   * quote earlier than this.
   */
  function QuotedBodyEnd(s: string, i: nat, quote: char): (j: nat)
    requires i <= |s|
    ensures i <= j <= |s|
    decreases |s| - i
  {
    if i == |s| || s[i] == quote then i
    else if s[i] == '\\' then
      if i + 1 < |s| && !IsLineTerminator(s[i + 1]) then QuotedBodyEnd(s, i + 2, quote) else i
    else QuotedBodyEnd(s, i + 1, quote)
  }

  /** What the greedy scan passes over is a quoted body. */
  lemma {:induction false} QuotedBodyEndShape(s: string, i: nat, quote: char)
    requires i <= |s|
    ensures IsQuotedBody(s[i..QuotedBodyEnd(s, i, quote)], quote)
    decreases |s| - i
  {
    var j := QuotedBodyEnd(s, i, quote);
    if i < |s| && s[i] != quote {
      if s[i] == '\\' {
        if i + 1 < |s| && !IsLineTerminator(s[i + 1]) {
          QuotedBodyEndShape(s, i + 2, quote);
          assert s[i..j][2..] == s[i + 2..j];
        }
      } else {
        QuotedBodyEndShape(s, i + 1, quote);
        assert s[i..j][1..] == s[i + 1..j];
      }
    }
  }

  /**
   * The pattern tried at index `p` of `s` (what `exec` tries at each index).
   * A match always consumes at least one character: optional white space,
   * then one token in its written form.
   */
  function MatchAt(s: string, p: nat): (m: Option<Match>)
    requires p <= |s|
    ensures m.Some? ==> m.value.start == p < m.value.end <= |s|
    ensures m.Some? ==> p <= m.value.fieldStart <= m.value.fieldEnd <= m.value.end
  {
    var q := SkipWhiteSpace(s, p);
    if q == |s| then None
    else if IsUnquoted(s[q]) then
      var e := UnquotedEnd(s, q);
      Some(Match(p, e, Unquoted, q, e))
    else if s[q] == '\'' || s[q] == '"' then
      var e := QuotedBodyEnd(s, q + 1, s[q]);
      if e < |s| && s[e] == s[q] then
        Some(Match(p, e + 1, if s[q] == '\'' then SingleQuoted else DoubleQuoted, q + 1, e))
      else None
    else None
  }

  /**
   * `match[0]` is optional white space followed by one token in its written
   * form: a nonempty unquoted run, which is the field, or a quoted body
   * between two quotes of the same kind.
   */
  lemma {:induction false} MatchShape(s: string, p: nat)
    requires p <= |s| && MatchAt(s, p).Some?
    ensures var m := MatchAt(s, p).value;
      m.alt == Unquoted ==>
        && m.fieldStart < m.fieldEnd == m.end
        && (forall k :: p <= k < m.fieldStart ==> IsWhiteSpace(s[k]))
        && (forall k :: m.fieldStart <= k < m.end ==> IsUnquoted(s[k]))
    ensures var m := MatchAt(s, p).value;
      m.alt != Unquoted ==>
        && p < m.fieldStart && m.fieldEnd + 1 == m.end
        && (forall k :: p <= k < m.fieldStart - 1 ==> IsWhiteSpace(s[k]))
        && s[m.fieldStart - 1] == s[m.fieldEnd] == (if m.alt == SingleQuoted then '\'' else '"')
        && IsQuotedBody(Field(s, m), s[m.fieldEnd])
  {
    var q := SkipWhiteSpace(s, p);
    SkipWhiteSpaceSpan(s, p);
    if IsUnquoted(s[q]) {
      UnquotedSpan(s, q);
    } else {
      QuotedBodyEndShape(s, q + 1, s[q]);
    }
  }

  /**
   * `SHELLWORDS_PATTERN.exec(s)`: the match at the leftmost index at or after
   * `from` where the pattern matches, if any.
   */
  function Exec(s: string, from: nat): (m: Option<Match>)
    requires from <= |s|
    ensures m.Some? ==> from <= m.value.start < m.value.end <= |s|
    ensures m.Some? ==> m.value.fieldStart <= m.value.fieldEnd <= |s|
    decreases |s| - from
  {
    var here := MatchAt(s, from);
    if here.Some? then here
    else if from == |s| then None
    else Exec(s, from + 1)
  }

  /** `exec` finds the leftmost index at or after `from` where the pattern matches, and only fails when there is none. */
  lemma {:induction false} ExecLeftmost(s: string, from: nat)
    requires from <= |s|
    ensures var m := Exec(s, from);
      m.Some? ==> from <= m.value.start <= |s| && MatchAt(s, m.value.start) == m
    ensures var m := Exec(s, from);
      m.Some? ==> forall p :: from <= p < m.value.start ==> MatchAt(s, p).None?
    ensures Exec(s, from).None? ==> forall p :: from <= p <= |s| ==> MatchAt(s, p).None?
    decreases |s| - from
  {
    if MatchAt(s, from).None? && from < |s| {
      ExecLeftmost(s, from + 1);
    }
  }

  /** `\` followed by a character that `.` matches, at index `i` of `f`. */
  predicate IsEscapeAt(f: string, i: int) {
    0 <= i && i + 1 < |f| && f[i] == '\\' && !IsLineTerminator(f[i + 1])
  }

  /**
   * `f.replace(/\\(.)/, '$1')`: the pattern is not global, so only the first
   * escape, the leftmost one, loses its backslash.
   */
  function Unescape(f: string): (r: string)
    decreases |f|
  {
    if f == "" then ""
    else if IsEscapeAt(f, 0) then f[1..]
    else [f[0]] + Unescape(f[1..])
  }

  /** A field without escapes is pushed as it is. */
  lemma {:induction false} UnescapeNoEscape(f: string)
    requires forall i :: 0 <= i < |f| ==> !IsEscapeAt(f, i)
    ensures Unescape(f) == f
    decreases |f|
  {
    if f != "" {
      assert !IsEscapeAt(f, 0);
      forall i | 0 <= i < |f| - 1 ensures !IsEscapeAt(f[1..], i) {
        assert !IsEscapeAt(f, i + 1);
      }
      UnescapeNoEscape(f[1..]);
    }
  }

  /**
   * Only the first escape is resolved: its backslash goes, and everything
   * after the escaped character, later `\x` pairs included, stays as it was.
   */
  lemma {:induction false} UnescapeFirstOnly(f: string, i: nat)
    requires IsEscapeAt(f, i)
    requires forall j :: 0 <= j < i ==> !IsEscapeAt(f, j)
    ensures Unescape(f) == f[..i] + f[i + 1..]
    ensures forall j :: i < j < |f| ==> Unescape(f)[j - 1] == f[j]
    decreases i
  {
    if i > 0 {
      assert !IsEscapeAt(f, 0);
      forall j | 0 <= j < i - 1 ensures !IsEscapeAt(f[1..], j) {
        assert !IsEscapeAt(f, j + 1);
      }
      assert IsEscapeAt(f[1..], i - 1);
      UnescapeFirstOnly(f[1..], i - 1);
      assert f[..i] + f[i + 1..] == [f[0]] + (f[1..][..i - 1] + f[1..][i..]);
    }
  }

  /** `s[i..j]`, one character at a time. */
  function CopySpan(s: string, i: nat, j: nat): string
    requires i <= j <= |s|
    decreases j - i
  {
    if i == j then "" else [s[i]] + CopySpan(s, i + 1, j)
  }

  /**
   * The field `s[i..j]` with its first escape resolved, read off the line
   * from left to right: characters are copied up to the first `\` that
   * starts an escape, which is dropped, and the rest is copied as it is.
   * It is `Unescape` stated by positions in the line rather than on a slice,
   * so that proofs about `WordsAt` need no slices of the line (slices there
   * set off matching loops in the solver); `UnescapeSpanIsUnescape` shows the
   * two agree.
   */
  function UnescapeSpan(s: string, i: nat, j: nat): string
    requires i <= j <= |s|
    decreases j - i
  {
    if i == j then ""
    else if s[i] == '\\' && i + 1 < j && !IsLineTerminator(s[i + 1]) then CopySpan(s, i + 1, j)
    else [s[i]] + UnescapeSpan(s, i + 1, j)
  }

  lemma {:induction false} CopySpanIsSlice(s: string, i: nat, j: nat)
    requires i <= j <= |s|
    ensures CopySpan(s, i, j) == s[i..j]
    decreases j - i
  {
    if i < j {
      CopySpanIsSlice(s, i + 1, j);
      assert s[i..j] == [s[i]] + s[i + 1..j];
    }
  }

  /** Reading the field off the line is `Unescape` of the field. */
  lemma {:induction false} UnescapeSpanIsUnescape(s: string, i: nat, j: nat)
    requires i <= j <= |s|
    ensures UnescapeSpan(s, i, j) == Unescape(s[i..j])
    decreases j - i
  {
    if i < j {
      var f := s[i..j];
      assert f[0] == s[i] && f[1..] == s[i + 1..j];
      if i + 1 < j {
        assert f[1] == s[i + 1];
      }
      CopySpanIsSlice(s, i + 1, j);
      UnescapeSpanIsUnescape(s, i + 1, j);
    }
  }

  /**
   * The words the loop produces once the line has been cut down to
   * `s[o..]`. The pattern looks neither behind nor at the start of its
   * input, so `exec` on the cut line sees what `exec` from `o` sees on `s`.
   */
  function WordsFrom(s: string, o: nat): (words: seq<string>)
    requires o <= |s|
    decreases |s| - o, 1, 0
  {
    if o == |s| then [] else WordsAt(s, o, o)
  }

  /**
   * `exec` on the cut line `s[o..]` is trying index `p`: on a match the
   * field is the next word and the line loses `match[0].length` characters
   * from its front; at the end of the line nothing matched and the loop stops.
   */
  function WordsAt(s: string, o: nat, p: nat): (words: seq<string>)
    requires o <= p <= |s|
    decreases |s| - o, 0, |s| - p
  {
    match MatchAt(s, p)
    case Some(m) => [UnescapeSpan(s, m.fieldStart, m.fieldEnd)] + WordsFrom(s, o + (m.end - m.start))
    case None => if p == |s| then [] else WordsAt(s, o, p + 1)
  }

  /** The scan in `WordsAt` is `exec`: the loop takes the match `exec` finds, or stops when there is none. */
  lemma {:induction false} WordsAtExec(s: string, o: nat, p: nat)
    requires o <= p <= |s|
    ensures Exec(s, p).None? ==> WordsAt(s, o, p) == []
    ensures Exec(s, p).Some? ==> o + (Exec(s, p).value.end - Exec(s, p).value.start) <= |s|
    ensures Exec(s, p).Some? ==>
      var m := Exec(s, p).value;
      WordsAt(s, o, p) == [UnescapeSpan(s, m.fieldStart, m.fieldEnd)] + WordsFrom(s, o + (m.end - m.start))
    decreases |s| - p
  {
    if MatchAt(s, p).None? && p < |s| {
      WordsAtExec(s, o, p + 1);
    }
  }

  /** Every word costs the line at least one character: there are never more words than characters left. */
  lemma {:induction false} WordsFromBound(s: string, o: nat)
    requires o <= |s|
    ensures |WordsFrom(s, o)| <= |s| - o
    decreases |s| - o, 1, 0
  {
    if o < |s| {
      WordsAtBound(s, o, o);
    }
  }

  lemma {:induction false} WordsAtBound(s: string, o: nat, p: nat)
    requires o <= p <= |s|
    ensures |WordsAt(s, o, p)| <= |s| - o
    decreases |s| - o, 0, |s| - p
  {
    match MatchAt(s, p)
    case Some(m) =>
      WordsFromBound(s, o + (m.end - m.start));
    case None =>
      if p < |s| {
        WordsAtBound(s, o, p + 1);
      }
  }

  /** The words of `line`, as the loop of `shellwords` produces them. */
  function Words(line: string): seq<string> {
    WordsFrom(line, 0)
  }

  /** `t` is `s` with its first `d` characters cut off, position by position. */
  predicate Cut(s: string, d: nat, t: string) {
    |s| == d + |t| && forall k :: 0 <= k < |t| ==> s[d + k] == t[k]
  }

  /** A match moved `d` characters to the right. */
  function Moved(m: Match, d: nat): Match {
    Match(d + m.start, d + m.end, m.alt, d + m.fieldStart, d + m.fieldEnd)
  }

  lemma {:induction false} SkipCut(s: string, d: nat, t: string, i: nat)
    requires Cut(s, d, t) && i <= |t|
    ensures SkipWhiteSpace(s, d + i) == d + SkipWhiteSpace(t, i)
    decreases |t| - i
  {
    if i < |t| {
      assert s[d + i] == t[i];
      if IsWhiteSpace(t[i]) {
        SkipCut(s, d, t, i + 1);
      }
    }
  }

  lemma {:induction false} UnquotedCut(s: string, d: nat, t: string, i: nat)
    requires Cut(s, d, t) && i <= |t|
    ensures UnquotedEnd(s, d + i) == d + UnquotedEnd(t, i)
    decreases |t| - i
  {
    if i < |t| {
      assert s[d + i] == t[i];
      if IsUnquoted(t[i]) {
        UnquotedCut(s, d, t, i + 1);
      }
    }
  }

  lemma {:induction false} QuotedCut(s: string, d: nat, t: string, i: nat, quote: char)
    requires Cut(s, d, t) && i <= |t|
    ensures QuotedBodyEnd(s, d + i, quote) == d + QuotedBodyEnd(t, i, quote)
    decreases |t| - i
  {
    if i < |t| {
      assert s[d + i] == t[i];
      if t[i] != quote {
        if t[i] == '\\' {
          if i + 1 < |t| {
            assert s[d + i + 1] == t[i + 1];
            if !IsLineTerminator(t[i + 1]) {
              QuotedCut(s, d, t, i + 2, quote);
            }
          }
        } else {
          QuotedCut(s, d, t, i + 1, quote);
        }
      }
    }
  }

  /** What comes before index `d` does not change what the pattern matches there. */
  lemma {:induction false} MatchAtCut(s: string, d: nat, t: string, p: nat)
    requires Cut(s, d, t) && p <= |t|
    ensures MatchAt(t, p).None? ==> MatchAt(s, d + p).None?
    ensures MatchAt(t, p).Some? ==> MatchAt(s, d + p) == Some(Moved(MatchAt(t, p).value, d))
  {
    SkipCut(s, d, t, p);
    var q := SkipWhiteSpace(t, p);
    if q < |t| {
      assert s[d + q] == t[q];
      UnquotedCut(s, d, t, q);
      QuotedCut(s, d, t, q + 1, t[q]);
      var e := QuotedBodyEnd(t, q + 1, t[q]);
      if e < |t| {
        assert s[d + e] == t[e];
      }
    }
  }

  lemma {:induction false} CopySpanCut(s: string, d: nat, t: string, i: nat, j: nat)
    requires Cut(s, d, t) && i <= j <= |t|
    ensures CopySpan(s, d + i, d + j) == CopySpan(t, i, j)
  {
    CopySpanIsSlice(s, d + i, d + j);
    CopySpanIsSlice(t, i, j);
    forall k | 0 <= k < j - i ensures s[d + i..d + j][k] == t[i..j][k] {
      assert s[d + i + k] == t[i + k];
    }
  }

  lemma {:induction false} UnescapeSpanCut(s: string, d: nat, t: string, i: nat, j: nat)
    requires Cut(s, d, t) && i <= j <= |t|
    ensures UnescapeSpan(s, d + i, d + j) == UnescapeSpan(t, i, j)
    decreases j - i
  {
    if i < j {
      assert s[d + i] == t[i];
      if i + 1 < j {
        assert s[d + i + 1] == t[i + 1];
        CopySpanCut(s, d, t, i + 1, j);
      }
      UnescapeSpanCut(s, d, t, i + 1, j);
    }
  }

  /** The words from offset `d + o` of `s` are the words from offset `o` of what follows `d`. */
  lemma {:induction false} WordsFromCut(s: string, d: nat, t: string, o: nat)
    requires Cut(s, d, t) && o <= |t|
    ensures WordsFrom(s, d + o) == WordsFrom(t, o)
    decreases |t| - o, 1, 0
  {
    if o < |t| {
      WordsAtCut(s, d, t, o, o);
    }
  }

  lemma {:induction false} WordsAtCut(s: string, d: nat, t: string, o: nat, p: nat)
    requires Cut(s, d, t) && o <= p <= |t|
    ensures WordsAt(s, d + o, d + p) == WordsAt(t, o, p)
    decreases |t| - o, 0, |t| - p
  {
    MatchAtCut(s, d, t, p);
    match MatchAt(t, p)
    case Some(m) =>
      WordsFromCut(s, d, t, o + (m.end - m.start));
      WordsAtCutSome(s, d, t, o, p, m);
    case None =>
      if p < |t| {
        WordsAtCut(s, d, t, o, p + 1);
        WordsAtCutNone(s, d, t, o, p);
      }
  }

  /** `WordsAtCut` where the pattern does not match, given the words from the next position. */
  lemma {:induction false} WordsAtCutNone(s: string, d: nat, t: string, o: nat, p: nat)
    requires |s| == d + |t| && o <= p < |t|
    requires MatchAt(t, p).None? && MatchAt(s, d + p).None?
    requires WordsAt(s, d + o, d + p + 1) == WordsAt(t, o, p + 1)
    ensures WordsAt(s, d + o, d + p) == WordsAt(t, o, p)
  {
  }

  /** `WordsAtCut` where the pattern matches, given the words after the match. */
  lemma {:induction false} WordsAtCutSome(s: string, d: nat, t: string, o: nat, p: nat, m: Match)
    requires Cut(s, d, t) && o <= p <= |t|
    requires MatchAt(t, p) == Some(m)
    requires MatchAt(s, d + p) == Some(Moved(m, d))
    requires o + (m.end - m.start) <= |t|
    requires WordsFrom(s, d + (o + (m.end - m.start))) == WordsFrom(t, o + (m.end - m.start))
    ensures WordsAt(s, d + o, d + p) == WordsAt(t, o, p)
  {
    WordsAtSome(t, o, p, m);
    WordsAtSomeMoved(s, d, o, p, m);
    UnescapeSpanCut(s, d, t, m.fieldStart, m.fieldEnd);
  }

  /** `WordsAtSome` for a match moved `d` characters to the right. */
  lemma {:induction false} WordsAtSomeMoved(s: string, d: nat, o: nat, p: nat, m: Match)
    requires o <= p && d + p <= |s| && MatchAt(s, d + p) == Some(Moved(m, d))
    ensures m.start <= m.end && d + m.fieldStart <= d + m.fieldEnd <= |s| && d + (o + (m.end - m.start)) <= |s|
    ensures WordsAt(s, d + o, d + p) ==
      [UnescapeSpan(s, d + m.fieldStart, d + m.fieldEnd)] + WordsFrom(s, d + (o + (m.end - m.start)))
  {
    var m' := Match(d + m.start, d + m.end, m.alt, d + m.fieldStart, d + m.fieldEnd);
    assert d + o + (m'.end - m'.start) == d + (o + (m.end - m.start));
    WordsAtSome(s, d + o, d + p, m');
  }

  /** When the pattern matches where the scan is, its field is the next word and the cut moves past `match[0]`. */
  lemma {:induction false} WordsAtSome(s: string, o: nat, p: nat, m: Match)
    requires o <= p <= |s| && MatchAt(s, p) == Some(m)
    ensures m.fieldStart <= m.fieldEnd <= |s| && o + (m.end - m.start) <= |s|
    ensures WordsAt(s, o, p) == [UnescapeSpan(s, m.fieldStart, m.fieldEnd)] + WordsFrom(s, o + (m.end - m.start))
  {
  }

  /** When the pattern matches nowhere from the scan on, the loop stops. */
  lemma {:induction false} WordsAtNone(s: string, o: nat, p: nat)
    requires o <= p <= |s|
    requires forall k :: p <= k <= |s| ==> MatchAt(s, k).None?
    ensures WordsAt(s, o, p) == []
    decreases |s| - p
  {
    if p < |s| {
      WordsAtNone(s, o, p + 1);
    }
  }

  /** `exec` finds nothing: the loop ends with no more words. */
  lemma {:induction false} WordsNone(line: string)
    requires line != "" && Exec(line, 0).None?
    ensures Words(line) == []
  {
    WordsAtExec(line, 0, 0);
  }

  /**
   * `exec` finds a match: its field with the first escape resolved is the
   * next word, and the words after it are those of the line with
   * `match[0].length` characters cut off the front.
   */
  lemma {:induction false} WordsNext(line: string, m: Match, field: string, rest: string)
    requires line != "" && Exec(line, 0) == Some(m)
    requires m.end - m.start <= |line| && m.fieldStart <= m.fieldEnd <= |line|
    requires rest == line[m.end - m.start..] && field == Unescape(Field(line, m))
    ensures Words(line) == [field] + Words(rest)
  {
    var n := m.end - m.start;
    WordsAtExec(line, 0, 0);
    UnescapeSpanIsUnescape(line, m.fieldStart, m.fieldEnd);
    assert Cut(line, n, rest);
    WordsFromCut(line, n, rest, 0);
  }

  /**
   * One round of the loop of `shellwords`: `exec` the pattern on `line`;
   * when nothing (or nothing nonempty) matched, stop; otherwise cut
   * `match[0].length` characters off the front and take the field, the one
   * group that took part (`match[1] || match[2] || match[3] || ''`), with
   * its first escape resolved.
   */
  method NextWord(line: string) returns (stop: bool, field: string, rest: string)
    requires line != ""
    ensures stop ==> Words(line) == []
    ensures !stop ==> |rest| < |line| && Words(line) == [field] + Words(rest)
  {
    var found := Exec(line, 0);
    if found.None? || found.value.end == found.value.start {
      if found.Some? {
        // every alternative of the pattern consumes a character
        assert false;
      }
      WordsNone(line);
      return true, "", "";
    }
    var m := found.value;
    rest := line[m.end - m.start..];
    field := Unescape(Field(line, m));
    stop := false;
    WordsNext(line, m, field, rest);
  }

  /**
   * `shellwords(line)`: each round either stops or removes at least one
   * character from the front of `line`, so the loop ends.
   */
  method Shellwords(line0: string) returns (words: seq<string>)
    ensures words == Words(line0)
  {
    words := [];
    var line := line0;
    ghost var all := Words(line0);
    while line != ""
      invariant words + Words(line) == all
      decreases |line|
    {
      var stop, field, rest := NextWord(line);
      if stop {
        // `line = false`: nothing more matches
        assert words + [] == words;
        line := "";
      } else {
        assert (words + [field]) + Words(rest) == words + ([field] + Words(rest));
        line := rest;
        words := words + [field];
      }
    }
    assert words + [] == words;
  }

  /* ---- What the tokenizer does with well-formed input ---- */

  /** A greedy body scan started on `body` stops at the quote that follows it. */
  lemma {:induction false} QuotedBodyEndAt(s: string, i: nat, body: string, quote: char)
    requires i + |body| < |s| && s[i..i + |body|] == body && s[i + |body|] == quote
    requires quote != '\\' && IsQuotedBody(body, quote)
    ensures QuotedBodyEnd(s, i, quote) == i + |body|
    decreases |body|
  {
    if body != "" {
      assert s[i] == body[0];
      if body[0] == '\\' {
        assert s[i + 1] == body[1];
        assert s[i + 2..i + |body|] == body[2..];
        QuotedBodyEndAt(s, i + 2, body[2..], quote);
      } else {
        assert s[i + 1..i + |body|] == body[1..];
        QuotedBodyEndAt(s, i + 1, body[1..], quote);
      }
    }
  }

  /**
   * An unquoted run `s[q..e]` after white space `s[o..q]` becomes one word,
   * verbatim, and tokenizing goes on right after it.
   */
  lemma {:induction false} WordsFromUnquoted(s: string, o: nat, q: nat, e: nat)
    requires o <= q < e <= |s|
    requires forall k :: o <= k < q ==> IsWhiteSpace(s[k])
    requires forall k :: q <= k < e ==> IsUnquoted(s[k])
    requires e == |s| || !IsUnquoted(s[e])
    ensures WordsFrom(s, o) == [s[q..e]] + WordsFrom(s, e)
  {
    SkipWhiteSpaceOver(s, o, q);
    UnquotedOver(s, q, e);
    var m := Match(o, e, Unquoted, q, e);
    assert MatchAt(s, o) == Some(m);
    WordsAtSome(s, o, o, m);
    UnescapeSpanIsUnescape(s, q, e);
    forall i | 0 <= i < e - q ensures !IsEscapeAt(s[q..e], i) {
      assert s[q..e][i] == s[q + i];
    }
    UnescapeNoEscape(s[q..e]);
  }

  /**
   * A quoted span `s[q..e + 1]` after white space `s[o..q]` becomes one
   * word, its body with the first escape resolved and its white space kept;
   * tokenizing goes on right after the closing quote, whatever follows it.
   */
  lemma {:induction false} WordsFromQuoted(s: string, o: nat, q: nat, e: nat)
    requires o <= q < e < |s|
    requires forall k :: o <= k < q ==> IsWhiteSpace(s[k])
    requires (s[q] == '\'' || s[q] == '"') && s[e] == s[q]
    requires IsQuotedBody(s[q + 1..e], s[q])
    ensures WordsFrom(s, o) == [Unescape(s[q + 1..e])] + WordsFrom(s, e + 1)
  {
    SkipWhiteSpaceOver(s, o, q);
    QuotedBodyEndAt(s, q + 1, s[q + 1..e], s[q]);
    var m := Match(o, e + 1, if s[q] == '\'' then SingleQuoted else DoubleQuoted, q + 1, e);
    assert MatchAt(s, o) == Some(m);
    WordsAtSome(s, o, o, m);
    UnescapeSpanIsUnescape(s, q + 1, e);
  }

  /** White space alone, nothing at all included, yields no words. */
  lemma {:induction false} WordsFromBlank(s: string, o: nat)
    requires o <= |s|
    requires forall k :: o <= k < |s| ==> IsWhiteSpace(s[k])
    ensures WordsFrom(s, o) == []
  {
    if o < |s| {
      forall p | o <= p <= |s| ensures MatchAt(s, p).None? {
        SkipWhiteSpaceOver(s, p, |s|);
      }
      WordsAtNone(s, o, o);
    }
  }

  /** White space alone, the empty line included, yields no words. */
  lemma {:induction false} WordsBlank(s: string)
    requires Blank(s)
    ensures Words(s) == []
  {
    WordsFromBlank(s, 0);
  }

  /** A word that can be written with double quotes and no escapes. */
  predicate Plain(w: string) {
    forall k :: 0 <= k < |w| ==> w[k] != '"' && w[k] != '\\'
  }

  /** A word as one would type it: bare when that is possible, else in double quotes. */
  function Quote(w: string): string {
    if w != "" && forall k :: 0 <= k < |w| ==> IsUnquoted(w[k]) then w else "\"" + w + "\""
  }

  /**
   * Words written out one after the other, word `i` followed by `gaps[i]`
   * (white space between words, anything blank after the last).
   */
  function Layout(ws: seq<string>, gaps: seq<string>): string
    requires |gaps| == |ws|
  {
    if ws == [] then "" else Quote(ws[0]) + gaps[0] + Layout(ws[1..], gaps[1..])
  }

  /** Gaps that keep the words apart: blank, and not empty between two words. */
  predicate Separating(gaps: seq<string>) {
    && (forall i :: 0 <= i < |gaps| ==> Blank(gaps[i]))
    && (forall i :: 0 <= i < |gaps| - 1 ==> gaps[i] != "")
  }

  /** Two layouts written one after the other are one layout. */
  lemma {:induction false} LayoutAppend(a: seq<string>, ga: seq<string>, b: seq<string>, gb: seq<string>)
    requires |ga| == |a| && |gb| == |b|
    ensures Layout(a, ga) + Layout(b, gb) == Layout(a + b, ga + gb)
    decreases |a|
  {
    if a == [] {
      assert a + b == b && ga + gb == gb;
    } else {
      LayoutAppend(a[1..], ga[1..], b, gb);
      assert (a + b)[0] == a[0] && (a + b)[1..] == a[1..] + b;
      assert (ga + gb)[0] == ga[0] && (ga + gb)[1..] == ga[1..] + gb;
    }
  }

  /** Text written after the last word becomes part of the last gap. */
  lemma {:induction false} LayoutExtend(ws: seq<string>, gaps: seq<string>, last: string, x: string)
    requires |gaps| + 1 == |ws|
    ensures Layout(ws, gaps + [last]) + x == Layout(ws, gaps + [last + x])
    decreases |ws|
  {
    var g, h := gaps + [last], gaps + [last + x];
    if gaps == [] {
      assert g == [last] && h == [last + x] && ws[1..] == [];
    } else {
      LayoutExtend(ws[1..], gaps[1..], last, x);
      assert g[0] == h[0] == gaps[0];
      assert g[1..] == gaps[1..] + [last] && h[1..] == gaps[1..] + [last + x];
    }
  }

  lemma {:induction false} PlainIsQuotedBody(w: string)
    requires Plain(w)
    ensures IsQuotedBody(w, '"')
    decreases |w|
  {
    if w != "" {
      PlainIsQuotedBody(w[1..]);
    }
  }

  /** `x` appears in `s` from position `g` on, position by position. */
  predicate At(s: string, g: nat, x: string) {
    g + |x| <= |s| && forall k :: 0 <= k < |x| ==> s[g + k] == x[k]
  }

  /** A suffix `x + y + z` of `s`, taken apart. */
  lemma {:induction false} CutSplit(s: string, g: nat, x: string, y: string, z: string)
    requires Cut(s, g, x + y + z)
    ensures At(s, g, x) && At(s, g + |x|, y) && Cut(s, g + |x| + |y|, z)
  {
    var e := g + |x|;
    forall k | 0 <= k < |x| ensures s[g + k] == x[k] {
      assert (x + y + z)[k] == x[k];
    }
    forall k | 0 <= k < |y| ensures s[e + k] == y[k] {
      assert (x + y + z)[|x| + k] == y[k];
    }
    forall k | 0 <= k < |z| ensures s[e + |y| + k] == z[k] {
      assert (x + y + z)[|x| + |y| + k] == z[k];
    }
  }

  /** A bare word at position `g`, after white space `s[o..g]`, comes back unchanged. */
  lemma {:induction false} WordsFromBare(s: string, o: nat, g: nat, w: string)
    requires o <= g && At(s, g, w)
    requires w != "" && forall k :: 0 <= k < |w| ==> IsUnquoted(w[k])
    requires forall k :: o <= k < g ==> IsWhiteSpace(s[k])
    requires g + |w| == |s| || IsWhiteSpace(s[g + |w|])
    ensures WordsFrom(s, o) == [w] + WordsFrom(s, g + |w|)
  {
    var e := g + |w|;
    forall k | g <= k < e ensures IsUnquoted(s[k]) {
      assert s[g + (k - g)] == w[k - g];
    }
    WordsFromUnquoted(s, o, g, e);
    assert s[g..e] == w;
  }

  /** A word in double quotes at position `g`, after white space `s[o..g]`, comes back unchanged. */
  lemma {:induction false} WordsFromDoubleQuoted(s: string, o: nat, g: nat, w: string)
    requires o <= g && At(s, g, "\"" + w + "\"")
    requires Plain(w)
    requires forall k :: o <= k < g ==> IsWhiteSpace(s[k])
    ensures WordsFrom(s, o) == [w] + WordsFrom(s, g + |w| + 2)
  {
    var e := g + |w| + 1;
    assert s[g + 0] == ("\"" + w + "\"")[0];
    assert s[g + (|w| + 1)] == ("\"" + w + "\"")[|w| + 1];
    forall k | 0 <= k < |w| ensures s[g + 1..e][k] == w[k] {
      assert s[g + (k + 1)] == ("\"" + w + "\"")[k + 1];
    }
    assert s[g + 1..e] == w;
    PlainIsQuotedBody(w);
    WordsFromQuoted(s, o, g, e);
    UnescapeNoEscape(w);
  }

  /**
   * One word written out by `Quote` at position `g` of `s`, after white space
   * `s[o..g]` and followed by white space or the end, comes back unchanged.
   */
  lemma {:induction false} WordsFromQuote(s: string, o: nat, g: nat, w: string)
    requires o <= g && At(s, g, Quote(w))
    requires forall k :: o <= k < g ==> IsWhiteSpace(s[k])
    requires Plain(w)
    requires g + |Quote(w)| == |s| || IsWhiteSpace(s[g + |Quote(w)|])
    ensures WordsFrom(s, o) == [w] + WordsFrom(s, g + |Quote(w)|)
  {
    if w != "" && forall k :: 0 <= k < |w| ==> IsUnquoted(w[k]) {
      WordsFromBare(s, o, g, w);
    } else {
      WordsFromDoubleQuoted(s, o, g, w);
    }
  }

  /**
   * The first word of a layout cut from `s` at `g`: where it ends, the white
   * space after it, and the rest of the layout after that white space.
   */
  lemma {:induction false} LayoutHead(s: string, g: nat, ws: seq<string>, gaps: seq<string>)
    requires ws != [] && |gaps| == |ws| && Separating(gaps)
    requires Cut(s, g, Layout(ws, gaps))
    ensures var e := g + |Quote(ws[0])|;
      && At(s, g, Quote(ws[0]))
      && (e == |s| || IsWhiteSpace(s[e]))
      && (forall k :: e <= k < e + |gaps[0]| ==> IsWhiteSpace(s[k]))
      && Cut(s, e + |gaps[0]|, Layout(ws[1..], gaps[1..]))
  {
    var gap := gaps[0];
    CutSplit(s, g, Quote(ws[0]), gap, Layout(ws[1..], gaps[1..]));
    var e := g + |Quote(ws[0])|;
    assert Blank(gap);
    forall k | e <= k < e + |gap| ensures IsWhiteSpace(s[k]) {
      assert s[e + (k - e)] == gap[k - e];
    }
    if gap == "" {
      assert |ws| == 1;
    }
  }

  /** Every word is `Plain`. */
  predicate AllPlain(ws: seq<string>) {
    ws != [] ==> Plain(ws[0]) && AllPlain(ws[1..])
  }

  lemma {:induction false} AllPlainHolds(ws: seq<string>)
    requires forall i :: 0 <= i < |ws| ==> Plain(ws[i])
    ensures AllPlain(ws)
    decreases |ws|
  {
    if ws != [] {
      assert forall i :: 0 <= i < |ws| - 1 ==> ws[1..][i] == ws[i + 1];
      AllPlainHolds(ws[1..]);
    }
  }

  lemma {:induction false} SeparatingTail(gaps: seq<string>)
    requires gaps != [] && Separating(gaps)
    ensures Separating(gaps[1..])
  {
    forall i | 0 <= i < |gaps| - 1 ensures Blank(gaps[1..][i]) {
      assert gaps[1..][i] == gaps[i + 1];
    }
  }

  /**
   * One step of the round trip: the first word comes back, and what follows
   * it is again white space `s[e..g']` and a layout of the other words.
   */
  lemma {:induction false} LayoutNext(s: string, o: nat, g: nat, ws: seq<string>, gaps: seq<string>)
    returns (e: nat, g': nat)
    requires o <= g <= |s| && ws != []
    requires forall k :: o <= k < g ==> IsWhiteSpace(s[k])
    requires AllPlain(ws)
    requires |gaps| == |ws| && Separating(gaps)
    requires Cut(s, g, Layout(ws, gaps))
    ensures g < e <= g' <= |s|
    ensures WordsFrom(s, o) == [ws[0]] + WordsFrom(s, e)
    ensures forall k :: e <= k < g' ==> IsWhiteSpace(s[k])
    ensures AllPlain(ws[1..])
    ensures |gaps[1..]| == |ws[1..]| && Separating(gaps[1..])
    ensures Cut(s, g', Layout(ws[1..], gaps[1..]))
  {
    LayoutHead(s, g, ws, gaps);
    e := g + |Quote(ws[0])|;
    g' := e + |gaps[0]|;
    WordsFromQuote(s, o, g, ws[0]);
    SeparatingTail(gaps);
  }

  /**
   * Tokenizing gives back the words that were written out from position `g`
   * of `s` to its end, after white space `s[o..g]`, whatever white space separates them: one word per
   * unquoted run or quoted span; quoted words keep their white space and may
   * be empty.
   */
  lemma {:induction false} LayoutAt(s: string, o: nat, g: nat, ws: seq<string>, gaps: seq<string>)
    requires o <= g <= |s|
    requires forall k :: o <= k < g ==> IsWhiteSpace(s[k])
    requires AllPlain(ws)
    requires |gaps| == |ws| && Separating(gaps)
    requires Cut(s, g, Layout(ws, gaps))
    ensures WordsFrom(s, o) == ws
    decreases |ws|
  {
    if ws == [] {
      WordsFromBlank(s, o);
    } else {
      var e, g' := LayoutNext(s, o, g, ws, gaps);
      LayoutAt(s, e, g', ws[1..], gaps[1..]);
      assert ws == [ws[0]] + ws[1..];
    }
  }

  /** The round trip for a whole line: blanks, then words written out by `Quote`. */
  lemma {:induction false} LayoutRoundTrip(pre: string, ws: seq<string>, gaps: seq<string>, line: string)
    requires Blank(pre)
    requires forall i :: 0 <= i < |ws| ==> Plain(ws[i])
    requires |gaps| == |ws| && Separating(gaps)
    requires line == pre + Layout(ws, gaps)
    ensures Words(line) == ws
  {
    forall k | 0 <= k < |Layout(ws, gaps)| ensures line[|pre| + k] == Layout(ws, gaps)[k] {
      assert (pre + Layout(ws, gaps))[|pre| + k] == Layout(ws, gaps)[k];
    }
    forall k | 0 <= k < |pre| ensures IsWhiteSpace(line[k]) {
      assert (pre + Layout(ws, gaps))[k] == pre[k];
    }
    AllPlainHolds(ws);
    LayoutAt(line, 0, |pre|, ws, gaps);
  }

  /** Segments with nothing between them are never merged: a bare run then a quoted span give two words. */
  lemma {:induction false} AdjacentSegments(a: string, body: string, line: string)
    requires a != "" && forall k :: 0 <= k < |a| ==> IsUnquoted(a[k])
    requires IsQuotedBody(body, '"')
    requires line == a + "\"" + body + "\""
    ensures Words(line) == [a, Unescape(body)]
  {
    var e := |line| - 1;
    assert line[..|a|] == a && line[|a|] == '"' && line[|a| + 1..e] == body && line[e] == '"';
    WordsFromUnquoted(line, 0, 0, |a|);
    WordsFromQuoted(line, |a|, |a|, e);
    WordsFromBlank(line, |line|);
  }

  /** A quoted span alone gives one word, its body with the first escape resolved. */
  lemma {:induction false} QuotedAlone(quote: char, body: string, line: string)
    requires quote == '\'' || quote == '"'
    requires IsQuotedBody(body, quote)
    requires line == [quote] + body + [quote]
    ensures Words(line) == [Unescape(body)]
  {
    assert line[1..|line| - 1] == body;
    WordsFromQuoted(line, 0, 0, |line| - 1);
    WordsFromBlank(line, |line|);
  }

  /* ---- Examples ---- */

  /** A quoted span keeps its inner white space and its `#`. */
  lemma {:induction false} TitleExample(line: string)
    requires line == "--title \"Foobar #123\""
    ensures Words(line) == ["--title", "Foobar #123"]
  {
    var title := "Foobar #123";
    assert line == "--title" + " " + "\"" + title + "\"";
    var ws, gaps := ["--title", title], [" ", ""];
    assert !IsUnquoted(title[6]);
    assert Quote(title) == "\"" + title + "\"";
    assert Layout(ws[1..], gaps[1..]) == Quote(title) + "";
    assert Layout(ws, gaps) == "--title" + " " + Layout(ws[1..], gaps[1..]);
    assert Plain(ws[0]) && Plain(ws[1]);
    assert Separating(gaps);
    LayoutRoundTrip("", ws, gaps, line);
  }

  /** A bare word alone. */
  lemma {:induction false} LibExample()
    ensures Words("lib") == ["lib"]
  {
    assert Layout(["lib"], [""]) == "lib";
    LayoutRoundTrip("", ["lib"], [""], "lib");
  }

  /** Empty input, white space alone, and empty quotes. */
  lemma {:induction false} EmptyExamples()
    ensures Words("") == []
    ensures Words(" \t\n ") == []
    ensures Words("''") == [""]
    ensures Words("\"\"") == [""]
  {
    WordsBlank("");
    WordsBlank(" \t\n ");
    QuotedAlone('\'', "", "''");
    QuotedAlone('"', "", "\"\"");
  }

  lemma {:induction false} AdjacentSegmentsExample()
    ensures Words("foo\"bar\"") == ["foo", "bar"]
  {
    AdjacentSegments("foo", "bar", "foo\"bar\"");
    UnescapeNoEscape("bar");
  }

  /**
   * An unterminated quote: the pattern first matches at index 1, but only
   * three characters are dropped from the front, so `c` is read again.
   */
  lemma {:induction false} UnterminatedQuoteExample()
    ensures Words("'abc") == ["abc", "c"]
  {
    var s := "'abc";
    UnterminatedQuoteScan(s);
    WordsFromUnquoted(s, 3, 3, 4);
    WordsFromBlank(s, 4);
    assert s[3..4] == "c";
  }

  /** The scan of `'abc`: no match at 0, `abc` at 1, and the next search starts at 3. */
  lemma {:induction false} UnterminatedQuoteScan(s: string)
    requires s == "'abc"
    ensures WordsFrom(s, 0) == ["abc"] + WordsFrom(s, 3)
  {
    assert QuotedBodyEnd(s, 4, '\'') == 4;
    assert QuotedBodyEnd(s, 3, '\'') == 4;
    assert QuotedBodyEnd(s, 2, '\'') == 4;
    assert QuotedBodyEnd(s, 1, '\'') == 4;
    assert MatchAt(s, 0).None?;
    assert WordsAt(s, 0, 0) == WordsAt(s, 0, 1);
    SkipWhiteSpaceOver(s, 1, 1);
    UnquotedOver(s, 1, 4);
    var m := Match(1, 4, Unquoted, 1, 4);
    assert MatchAt(s, 1) == Some(m);
    WordsAtSome(s, 0, 1, m);
    UnescapeSpanIsUnescape(s, 1, 4);
    assert s[1..4] == "abc";
    UnescapeNoEscape("abc");
  }

  /** Only the first escape in a word is resolved; the second keeps its backslash. */
  lemma {:induction false} FirstEscapeOnlyExample()
    ensures Words("\"a\\\"b\\\"c\"") == ["a\"b\\\"c"]
  {
    var body := "a\\\"b\\\"c";
    assert IsQuotedBody(body, '"') by {
      assert body[6..] == "c";
      assert IsQuotedBody(body[6..], '"');
      assert body[4..] == "\\\"c";
      assert IsQuotedBody(body[4..], '"');
      assert IsQuotedBody(body[3..], '"');
      assert IsQuotedBody(body[1..], '"');
    }
    assert Unescape(body) == "a\"b\\\"c" by {
      assert !IsEscapeAt(body, 0);
      UnescapeFirstOnly(body, 1);
      assert body[..1] + body[2..] == "a\"b\\\"c";
    }
    QuotedAlone('"', body, "\"a\\\"b\\\"c\"");
  }
}
