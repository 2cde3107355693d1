/**
 * `cli.readEnvFile(file)`: read a file of command-line arguments, blank every
 * line that starts with `#`, split the rest into words with `shellwords`, and
 * splice the words into `process.argv` at index 2, where the user's own
 * arguments begin.
 */
module EnvFile {
  import opened Wrappers
  import opened JsText
  import Shellwords

  /** Where `.*` stops when started at index `i`: the next line terminator, or the end. */
  function LineEnd(s: string, i: nat): (j: nat)
    requires i <= |s|
    ensures i <= j <= |s|
    ensures forall k :: i <= k < j ==> !IsLineTerminator(s[k])
    ensures j == |s| || IsLineTerminator(s[j])
    decreases |s| - i
  {
    if i == |s| || IsLineTerminator(s[i]) then i else LineEnd(s, i + 1)
  }

  /**
   * `s.replace(/^#.*\/gm, '')`, where `lineStart` says whether index 0 of `s`
   * is the beginning of a line (`^` in multiline mode matches at the start of
   * the text and right after every line terminator).
   */
  function Strip(s: string, lineStart: bool): string
    decreases |s|
  {
    if s == "" then ""
    else if lineStart && s[0] == '#' then Strip(s[LineEnd(s, 0)..], false)
    else [s[0]] + Strip(s[1..], IsLineTerminator(s[0]))
  }

  /** The file text with its comment lines blanked. */
  function StripComments(text: string): string {
    Strip(text, true)
  }

  /** A line without its terminator, after comment stripping. */
  function Blanked(line: string): string {
    if line != "" && line[0] == '#' then "" else line
  }

  /** Inside a line, nothing is removed. */
  lemma {:induction false} StripWithinLine(line: string, rest: string, s: string)
    requires forall k :: 0 <= k < |line| ==> !IsLineTerminator(line[k])
    requires s == line + rest
    ensures Strip(s, false) == line + Strip(rest, false)
    decreases |line|
  {
    if line != "" {
      assert s[0] == line[0] && s[1..] == line[1..] + rest;
      assert !IsLineTerminator(s[0]);
      StripWithinLine(line[1..], rest, s[1..]);
      assert Strip(s, false) == [s[0]] + Strip(s[1..], false);
      assert line + Strip(rest, false) == [line[0]] + (line[1..] + Strip(rest, false));
    } else {
      assert s == rest;
    }
  }

  /**
   * Comment stripping works line by line: a line that starts with `#` becomes
   * empty, any other line (a `#` later in it included) is kept as it is, and
   * the line terminator stays.
   */
  lemma {:induction false} StripLine(line: string, t: char, rest: string, s: string)
    requires forall k :: 0 <= k < |line| ==> !IsLineTerminator(line[k])
    requires IsLineTerminator(t)
    requires s == line + [t] + rest
    ensures Strip(s, true) == Blanked(line) + [t] + Strip(rest, true)
  {
    var tail := [t] + rest;
    assert Strip(tail, false) == [t] + Strip(rest, true) by {
      assert tail[0] == t && tail[1..] == rest;
    }
    if line != "" && line[0] == '#' {
      assert LineEnd(s, 0) == |line| by {
        assert s[|line|] == t;
        assert forall k :: 0 <= k < |line| ==> s[k] == line[k];
      }
      assert s[|line|..] == tail;
    } else if line != "" {
      assert s[0] == line[0] && s[1..] == line[1..] + tail;
      StripWithinLine(line[1..], tail, s[1..]);
    } else {
      assert s == tail;
    }
  }

  /** The last line, with no terminator after it, is stripped the same way. */
  lemma {:induction false} StripLastLine(line: string)
    requires forall k :: 0 <= k < |line| ==> !IsLineTerminator(line[k])
    ensures Strip(line, true) == Blanked(line)
  {
    if line != "" && line[0] == '#' {
      assert LineEnd(line, 0) == |line|;
      assert line[|line|..] == "";
    } else if line != "" {
      StripWithinLine(line[1..], "", line[1..]);
      assert line == [line[0]] + line[1..];
    }
  }

  /** Stripping twice is stripping once: no line of the result starts with `#`. */
  lemma {:induction false} StripIdempotent(s: string, lineStart: bool)
    ensures Strip(Strip(s, lineStart), lineStart) == Strip(s, lineStart)
    decreases |s|
  {
    if s == "" {
    } else if lineStart && s[0] == '#' {
      var s' := s[LineEnd(s, 0)..];
      if s' != "" {
        var r := Strip(s'[1..], true);
        assert Strip(s', false) == [s'[0]] + r;
        StripIdempotent(s'[1..], true);
        assert ([s'[0]] + r)[0] == s'[0] && ([s'[0]] + r)[1..] == r;
      }
    } else {
      var b := IsLineTerminator(s[0]);
      var r := Strip(s[1..], b);
      StripIdempotent(s[1..], b);
      assert ([s[0]] + r)[0] == s[0] && ([s[0]] + r)[1..] == r;
    }
  }

  /** Lines joined with line feeds, as in a text file. */
  function JoinLines(lines: seq<string>): string {
    if lines == [] then ""
    else if |lines| == 1 then lines[0]
    else lines[0] + "\n" + JoinLines(lines[1..])
  }

  predicate NoTerminator(line: string) {
    forall k :: 0 <= k < |line| ==> !IsLineTerminator(line[k])
  }

  function BlankAll(lines: seq<string>): (r: seq<string>)
    ensures |r| == |lines|
    ensures forall i :: 0 <= i < |lines| ==> r[i] == Blanked(lines[i])
  {
    if lines == [] then [] else [Blanked(lines[0])] + BlankAll(lines[1..])
  }

  /**
   * The whole of `/^#.*\/gm` on a text: each line that starts with `#` is
   * emptied, every other line is kept, and the lines stay where they were.
   */
  lemma {:induction false} StripByLines(lines: seq<string>)
    requires forall i :: 0 <= i < |lines| ==> NoTerminator(lines[i])
    ensures StripComments(JoinLines(lines)) == JoinLines(BlankAll(lines))
    decreases |lines|
  {
    if lines == [] {
    } else if |lines| == 1 {
      StripLastLine(lines[0]);
    } else {
      StripLine(lines[0], '\n', JoinLines(lines[1..]), JoinLines(lines));
      StripByLines(lines[1..]);
      assert BlankAll(lines)[1..] == BlankAll(lines[1..]);
    }
  }

  /* ---- The example from the documentation of `readEnvFile` ---- */

  /** A comment line: it starts with `#`, and what follows does not matter. */
  predicate IsComment(line: string) {
    line != "" && line[0] == '#' && NoTerminator(line)
  }

  /** A word that `Shellwords.Quote` writes on one line, not as a comment. */
  predicate Writable(w: string) {
    Shellwords.Plain(w) && NoTerminator(w) && (w == "" || w[0] != '#')
  }

  /** A written word stays on its line, and starts with `#` only when the word itself does. */
  lemma {:induction false} QuotedLine(w: string)
    requires Shellwords.Plain(w) && NoTerminator(w)
    ensures NoTerminator(Shellwords.Quote(w)) && Shellwords.Quote(w) != ""
    ensures (w == "" || w[0] != '#') ==> Shellwords.Quote(w)[0] != '#'
  {
    var q := Shellwords.Quote(w);
    if q != w {
      assert q == "\"" + w + "\"";
      assert forall k :: 1 <= k < |q| - 1 ==> q[k] == w[k - 1];
    }
  }

  /** The file of the example: a comment, an option with its value, an empty line, two comments, an empty line and a path. */
  function RcLines(c1: string, c2: string, c3: string, opt: string, value: string, path: string): seq<string> {
    [c1, Shellwords.Quote(opt) + " " + Shellwords.Quote(value), "", c2, c3, "", Shellwords.Quote(path), ""]
  }

  /** Stripping the example empties its comment lines and keeps everything else. */
  lemma {:induction false} RcBlanked(c1: string, c2: string, c3: string, opt: string, value: string, path: string)
    requires IsComment(c1) && IsComment(c2) && IsComment(c3)
    requires Writable(opt) && Writable(value) && Writable(path)
    ensures StripComments(JoinLines(RcLines(c1, c2, c3, opt, value, path))) ==
      JoinLines(["", Shellwords.Quote(opt) + " " + Shellwords.Quote(value), "", "", "", "", Shellwords.Quote(path), ""])
  {
    var o, v, p := Shellwords.Quote(opt), Shellwords.Quote(value), Shellwords.Quote(path);
    QuotedLine(opt);
    QuotedLine(value);
    QuotedLine(path);
    var l2 := o + " " + v;
    var lines := RcLines(c1, c2, c3, opt, value, path);
    assert NoTerminator(l2) && l2[0] == o[0];
    assert forall i :: 0 <= i < |lines| ==> NoTerminator(lines[i]);
    StripByLines(lines);
    assert BlankAll(lines) == ["", l2, "", "", "", "", p, ""];
  }

  /** The lines left after stripping, joined again: one line, four empty ones, a last one. */
  lemma {:induction false} RcJoined(o: string, v: string, p: string)
    ensures JoinLines(["", o + " " + v, "", "", "", "", p, ""]) == "\n" + (o + " " + (v + "\n\n\n\n\n" + (p + "\n")))
  {
    var tail := p + "\n";
    var blanked := ["", o + " " + v, "", "", "", "", p, ""];
    assert JoinLines(blanked[6..]) == tail by {
      assert blanked[6..][1..] == [""];
    }
    assert JoinLines(blanked[5..]) == "\n" + tail;
    assert JoinLines(blanked[4..]) == "\n\n" + tail;
    assert JoinLines(blanked[3..]) == "\n\n\n" + tail;
    assert JoinLines(blanked[2..]) == "\n\n\n\n" + tail;
    assert JoinLines(blanked[1..]) == o + " " + v + "\n" + ("\n\n\n\n" + tail);
  }

  /** The same text, as three words with white space between them. */
  lemma {:induction false} RcSpaced(opt: string, value: string, path: string)
    ensures Shellwords.Layout([opt, value, path], [" ", "\n\n\n\n\n", "\n"]) ==
      Shellwords.Quote(opt) + " " + (Shellwords.Quote(value) + "\n\n\n\n\n" + (Shellwords.Quote(path) + "\n"))
  {
    var ws, gaps := [opt, value, path], [" ", "\n\n\n\n\n", "\n"];
    assert Shellwords.Layout(ws[2..], gaps[2..]) == Shellwords.Quote(path) + "\n" by {
      assert ws[2..][1..] == [] && gaps[2..][1..] == [];
    }
    assert Shellwords.Layout(ws[1..], gaps[1..]) == Shellwords.Quote(value) + "\n\n\n\n\n" + Shellwords.Layout(ws[2..], gaps[2..]) by {
      assert ws[1..][1..] == ws[2..] && gaps[1..][1..] == gaps[2..];
    }
  }

  /**
   * The words of a file shaped like the example are its option, its value and
   * its path, whatever the comments say.
   */
  lemma {:induction false} RcLayout(c1: string, c2: string, c3: string, opt: string, value: string, path: string, text: string)
    requires IsComment(c1) && IsComment(c2) && IsComment(c3)
    requires Writable(opt) && Writable(value) && Writable(path)
    requires text == JoinLines(RcLines(c1, c2, c3, opt, value, path))
    ensures Shellwords.Words(StripComments(text)) == [opt, value, path]
  {
    RcBlanked(c1, c2, c3, opt, value, path);
    RcJoined(Shellwords.Quote(opt), Shellwords.Quote(value), Shellwords.Quote(path));
    RcSpaced(opt, value, path);
    var ws, gaps := [opt, value, path], [" ", "\n\n\n\n\n", "\n"];
    assert forall i :: 0 <= i < |ws| ==> Shellwords.Plain(ws[i]);
    assert Shellwords.Blank("\n") && Shellwords.Separating(gaps);
    Shellwords.LayoutRoundTrip("\n", ws, gaps, StripComments(text));
  }

  /**
   * The example itself: the file gives the same words as the one-line form
   * `--title "Foobar #123" lib`.
   */
  lemma {:induction false} RcExample(c1: string, c2: string, c3: string, text: string)
    requires IsComment(c1) && IsComment(c2) && IsComment(c3)
    requires text == JoinLines([c1, "--title \"Foobar #123\"", "", c2, c3, "", "lib", ""])
    ensures Shellwords.Words(StripComments(text)) == ["--title", "Foobar #123", "lib"]
  {
    RcExampleWords();
    RcLayout(c1, c2, c3, "--title", "Foobar #123", "lib", text);
  }

  /** The words of the example, written out: the value needs its quotes, the others do not. */
  lemma {:induction false} RcExampleWords()
    ensures Writable("--title") && Writable("Foobar #123") && Writable("lib")
    ensures Shellwords.Quote("--title") + " " + Shellwords.Quote("Foobar #123") == "--title \"Foobar #123\""
    ensures Shellwords.Quote("lib") == "lib"
  {
    BareWord("--title");
    BareWord("lib");
    TitleValue();
  }

  /** A word made only of the characters of an unquoted run is written bare. */
  lemma {:induction false} BareWord(w: string)
    requires w == "--title" || w == "lib"
    ensures Writable(w) && Shellwords.Quote(w) == w
  {
    assert forall k :: 0 <= k < |w| ==> w[k] in "-titlelb";
  }

  /** The value of the example contains a space, so it is written in double quotes. */
  lemma {:induction false} TitleValue()
    ensures Writable("Foobar #123")
    ensures Shellwords.Quote("Foobar #123") == "\"Foobar #123\""
  {
    TitleChars("Foobar #123");
    var q := "\"Foobar #123\"";
    assert "\"" + "Foobar #123" + "\"" == q;
  }

  lemma {:induction false} TitleChars(title: string)
    requires title == "Foobar #123"
    ensures Writable(title) && !Shellwords.IsUnquoted(title[6])
  {
    assert forall k :: 0 <= k < |title| ==> title[k] in "Fobar #123";
  }

  /* ---- Any file of comment lines and argument lines ---- */

  /**
   * A line of an arguments file: a comment, or words written out after some
   * indentation, with white space but no line terminator between them. A
   * line with no words is a blank line.
   */
  datatype RcLine = Comment(text: string) | Arguments(indent: string, words: seq<string>, gaps: seq<string>)

  /** A line that reads back as it was meant: an argument line must not start with `#`. */
  predicate WellFormed(l: RcLine) {
    match l
    case Comment(text) => IsComment(text)
    case Arguments(indent, words, gaps) =>
      && Shellwords.Blank(indent) && NoTerminator(indent)
      && |gaps| == |words| && Shellwords.Separating(gaps)
      && (forall i :: 0 <= i < |gaps| ==> NoTerminator(gaps[i]))
      && (forall i :: 0 <= i < |words| ==> Shellwords.Plain(words[i]) && NoTerminator(words[i]))
      && (indent == "" && words != [] ==> words[0] == "" || words[0][0] != '#')
  }

  predicate AllWellFormed(ls: seq<RcLine>) {
    forall i :: 0 <= i < |ls| ==> WellFormed(ls[i])
  }

  /** The text of a line. */
  function Render(l: RcLine): string
    requires WellFormed(l)
  {
    match l
    case Comment(text) => text
    case Arguments(indent, words, gaps) => indent + Shellwords.Layout(words, gaps)
  }

  function RenderAll(ls: seq<RcLine>): (r: seq<string>)
    requires AllWellFormed(ls)
    ensures |r| == |ls|
    ensures forall i :: 0 <= i < |ls| ==> r[i] == Render(ls[i])
  {
    if ls == [] then [] else [Render(ls[0])] + RenderAll(ls[1..])
  }

  /** The words a line contributes. */
  function Own(l: RcLine): seq<string> {
    if l.Arguments? then l.words else []
  }

  /** The words of the argument lines, line after line. */
  function LineWords(ls: seq<RcLine>): seq<string> {
    if ls == [] then [] else Own(ls[0]) + LineWords(ls[1..])
  }

  lemma {:induction false} NoTerminatorJoin(a: string, b: string)
    requires NoTerminator(a) && NoTerminator(b)
    ensures NoTerminator(a + b)
  {
    forall k | 0 <= k < |a + b| ensures !IsLineTerminator((a + b)[k]) {
      if k >= |a| {
        assert (a + b)[k] == b[k - |a|];
      }
    }
  }

  lemma {:induction false} LayoutNoTerminator(ws: seq<string>, gaps: seq<string>)
    requires |gaps| == |ws|
    requires forall i :: 0 <= i < |ws| ==> Shellwords.Plain(ws[i]) && NoTerminator(ws[i])
    requires forall i :: 0 <= i < |gaps| ==> NoTerminator(gaps[i])
    ensures NoTerminator(Shellwords.Layout(ws, gaps))
    decreases |ws|
  {
    if ws != [] {
      QuotedLine(ws[0]);
      LayoutNoTerminator(ws[1..], gaps[1..]);
      NoTerminatorJoin(Shellwords.Quote(ws[0]), gaps[0]);
      NoTerminatorJoin(Shellwords.Quote(ws[0]) + gaps[0], Shellwords.Layout(ws[1..], gaps[1..]));
    }
  }

  /** A line stays one line, and stripping empties it exactly when it is a comment. */
  lemma {:induction false} LineBlanked(l: RcLine)
    requires WellFormed(l)
    ensures NoTerminator(Render(l))
    ensures Blanked(Render(l)) == if l.Comment? then "" else Render(l)
  {
    if l.Arguments? {
      var layout := Shellwords.Layout(l.words, l.gaps);
      LayoutNoTerminator(l.words, l.gaps);
      NoTerminatorJoin(l.indent, layout);
      if l.indent != "" {
        assert Render(l)[0] == l.indent[0];
      } else if l.words != [] {
        QuotedLine(l.words[0]);
        assert Render(l) == layout;
        assert layout[0] == Shellwords.Quote(l.words[0])[0];
      }
    }
  }

  lemma {:induction false} BlankJoin(a: string, b: string)
    requires Shellwords.Blank(a) && Shellwords.Blank(b)
    ensures Shellwords.Blank(a + b)
  {
    forall k | 0 <= k < |a + b| ensures IsWhiteSpace((a + b)[k]) {
      if k >= |a| {
        assert (a + b)[k] == b[k - |a|];
      }
    }
  }

  /** Gaps that keep words apart still do when white space is added after the last one and more gaps follow. */
  lemma {:induction false} GapsJoin(gs: seq<string>, last: string, x: string, gs': seq<string>)
    requires Shellwords.Separating(gs + [last]) && Shellwords.Blank(x) && x != ""
    requires Shellwords.Separating(gs')
    ensures Shellwords.Separating(gs + [last + x] + gs')
  {
    var gaps := gs + [last + x] + gs';
    var n := |gs|;
    assert (gs + [last])[n] == last;
    BlankJoin(last, x);
    forall i | 0 <= i < |gaps| ensures Shellwords.Blank(gaps[i]) && (i < |gaps| - 1 ==> gaps[i] != "") {
      if i < n {
        assert gaps[i] == (gs + [last])[i];
      } else if i > n {
        assert gaps[i] == gs'[i - n - 1];
      } else {
        assert gaps[i] == last + x;
      }
    }
  }

  /**
   * An argument line followed by a line feed and more white space and words
   * is one layout: the line feed joins the gap after the line's last word.
   */
  lemma {:induction false} PrependWords(indent: string, ws: seq<string>, gs: seq<string>, pre: string, ws': seq<string>, gs': seq<string>)
    returns (gaps: seq<string>)
    requires ws != [] && |gs| == |ws| && Shellwords.Separating(gs)
    requires Shellwords.Blank(pre) && |gs'| == |ws'| && Shellwords.Separating(gs')
    ensures |gaps| == |ws + ws'| && Shellwords.Separating(gaps)
    ensures indent + Shellwords.Layout(ws, gs) + "\n" + (pre + Shellwords.Layout(ws', gs')) ==
      indent + Shellwords.Layout(ws + ws', gaps)
  {
    var n := |gs| - 1;
    var x := "\n" + pre;
    var h := gs[..n] + [gs[n] + x];
    assert gs == gs[..n] + [gs[n]];
    assert Shellwords.Blank(x) by {
      BlankJoin("\n", pre);
    }
    GapsJoin(gs[..n], gs[n], x, gs');
    Shellwords.LayoutExtend(ws, gs[..n], gs[n], x);
    Shellwords.LayoutAppend(ws, h, ws', gs');
    gaps := h + gs';
    LineFeedBetween(indent, Shellwords.Layout(ws, gs), pre, Shellwords.Layout(ws', gs'));
  }

  lemma {:induction false} LineFeedBetween(indent: string, a: string, pre: string, b: string)
    ensures indent + a + "\n" + (pre + b) == indent + ((a + ("\n" + pre)) + b)
  {
  }

  /** Each word of a file can be written without escapes. */
  lemma {:induction false} LineWordsPlain(ls: seq<RcLine>)
    requires AllWellFormed(ls)
    ensures forall i :: 0 <= i < |LineWords(ls)| ==> Shellwords.Plain(LineWords(ls)[i])
    decreases |ls|
  {
    if ls != [] {
      assert AllWellFormed(ls[1..]);
      LineWordsPlain(ls[1..]);
      assert LineWords(ls) == Own(ls[0]) + LineWords(ls[1..]);
      assert WellFormed(ls[0]);
    }
  }

  /** One line after stripping: some white space, then its own words laid out. */
  lemma {:induction false} OneLine(l: RcLine) returns (pre: string, gaps: seq<string>)
    requires WellFormed(l)
    ensures Shellwords.Blank(pre) && |gaps| == |Own(l)| && Shellwords.Separating(gaps)
    ensures Blanked(Render(l)) == pre + Shellwords.Layout(Own(l), gaps)
  {
    LineBlanked(l);
    if l.Comment? {
      pre, gaps := "", [];
    } else {
      pre, gaps := l.indent, l.gaps;
    }
  }

  /** A stripped line, a line feed, and the white space and words that follow. */
  lemma {:induction false} JoinStep(line: string, pre0: string, mine: seq<string>, gaps0: seq<string>,
                                    pre': string, ws': seq<string>, gaps': seq<string>)
    returns (pre: string, gaps: seq<string>)
    requires Shellwords.Blank(pre0) && |gaps0| == |mine| && Shellwords.Separating(gaps0)
    requires line == pre0 + Shellwords.Layout(mine, gaps0)
    requires Shellwords.Blank(pre') && |gaps'| == |ws'| && Shellwords.Separating(gaps')
    ensures Shellwords.Blank(pre) && |gaps| == |mine + ws'| && Shellwords.Separating(gaps)
    ensures line + "\n" + (pre' + Shellwords.Layout(ws', gaps')) == pre + Shellwords.Layout(mine + ws', gaps)
  {
    if mine == [] {
      pre, gaps := pre0 + "\n" + pre', gaps';
      assert line == pre0 && mine + ws' == ws';
      BlankJoin(pre0, "\n");
      BlankJoin(pre0 + "\n", pre');
    } else {
      pre := pre0;
      gaps := PrependWords(pre0, mine, gaps0, pre', ws', gaps');
    }
  }

  /**
   * After stripping, the lines of a file are some leading white space and
   * then the words of its argument lines laid out with white space between
   * them.
   */
  lemma {:induction false} FileLayout(ls: seq<RcLine>) returns (pre: string, gaps: seq<string>)
    requires AllWellFormed(ls)
    ensures Shellwords.Blank(pre) && |gaps| == |LineWords(ls)| && Shellwords.Separating(gaps)
    ensures JoinLines(BlankAll(RenderAll(ls))) == pre + Shellwords.Layout(LineWords(ls), gaps)
    decreases |ls|
  {
    if ls == [] {
      return "", [];
    }
    var b := BlankAll(RenderAll(ls));
    var pre0, gaps0 := OneLine(ls[0]);
    assert LineWords(ls) == Own(ls[0]) + LineWords(ls[1..]);
    if |ls| == 1 {
      assert LineWords(ls[1..]) == [] && LineWords(ls) == Own(ls[0]);
      assert JoinLines(b) == b[0];
      return pre0, gaps0;
    }
    assert AllWellFormed(ls[1..]);
    var pre', gaps' := FileLayout(ls[1..]);
    assert b[1..] == BlankAll(RenderAll(ls[1..]));
    pre, gaps := JoinStep(b[0], pre0, Own(ls[0]), gaps0, pre', LineWords(ls[1..]), gaps');
  }

  /**
   * Arguments may span lines and every line that starts with `#` is a
   * comment: the words of a file are the words of its argument lines, in
   * order, whatever its comments and blank lines say.
   */
  lemma {:induction false} FileWords(ls: seq<RcLine>, text: string)
    requires AllWellFormed(ls)
    requires text == JoinLines(RenderAll(ls))
    ensures Shellwords.Words(StripComments(text)) == LineWords(ls)
  {
    forall i | 0 <= i < |ls| ensures NoTerminator(RenderAll(ls)[i]) {
      LineBlanked(ls[i]);
    }
    StripByLines(RenderAll(ls));
    var pre, gaps := FileLayout(ls);
    LineWordsPlain(ls);
    Shellwords.LayoutRoundTrip(pre, LineWords(ls), gaps, StripComments(text));
  }

  /**
   * `[].splice.apply(argv, [start, 0].concat(items))`: `items` inserted
   * before index `start`, which JavaScript clamps to the length of the array.
   */
  function Splice(argv: seq<string>, start: nat, items: seq<string>): (r: seq<string>)
    ensures |r| == |argv| + |items|
    ensures var k := if start < |argv| then start else |argv|;
      r[..k] == argv[..k] && r[k..k + |items|] == items && r[k + |items|..] == argv[k..]
  {
    var k := if start < |argv| then start else |argv|;
    argv[..k] + items + argv[k..]
  }

  /** The argument vector after the words of `text` have been injected into `argv`. */
  function Injected(argv: seq<string>, text: string): seq<string> {
    Splice(argv, 2, Shellwords.Words(StripComments(text)))
  }

  /** The running process; `argv` is `process.argv`. */
  class Process {
    var argv: seq<string>

    constructor (argv: seq<string>)
      ensures this.argv == argv
    {
      this.argv := argv;
    }

    /**
     * `cli.readEnvFile(file)`, with the files that `fs.readFileSync` can
     * read given as a map from name to text. When the file cannot be read the
     * call throws and `argv` is left alone.
     */
    method ReadEnvFile(files: map<string, string>, file: string) returns (read: bool)
      modifies this
      ensures read <==> file in files
      ensures read ==> argv == Injected(old(argv), files[file])
      ensures !read ==> argv == old(argv)
    {
      if file !in files {
        return false;
      }
      var str := StripComments(files[file]);
      var words := Shellwords.Shellwords(str);
      argv := Splice(argv, 2, words);
      return true;
    }
  }
}
