/**
  Text wrapping for the messages the atf tools print (libs/atfprivate/ui.cpp).
  A paragraph is broken into words on single spaces and the words are laid
  out greedily: a word goes on the current line, after one space, unless
  that would take the line past the terminal width, in which case it starts
  a new line.  Every line begins with a prefix of `col` columns: the tag
  padded with spaces, or plain spaces.  The terminal width is a parameter.
 */
module Ui {
  import opened Strings

  /** `n` blanks. */
  function Spaces(n: nat): (r: string)
    ensures |r| == n && forall i :: 0 <= i < n ==> r[i] == ' '
  {
    seq(n, _ => ' ')
  }

  /** Prefix of a paragraph's first line: the padded tag for the first
      paragraph or when the tag is repeated, otherwise blanks. */
  function FirstPrefix(tag: string, first: bool, repeat: bool, col: nat): (r: string)
    requires |tag| <= col
    ensures |r| == col
  {
    if first || repeat then tag + Spaces(col - |tag|) else Spaces(col)
  }

  /** Prefix of every later line of a paragraph. */
  function ContPrefix(tag: string, repeat: bool, col: nat): (r: string)
    requires |tag| <= col
    ensures |r| == col
  {
    if repeat then tag + Spaces(col - |tag|) else Spaces(col)
  }

  /** All the words of a layout, line after line. */
  function Flatten(ls: seq<seq<string>>): seq<string>
  {
    if |ls| == 0 then [] else ls[0] + Flatten(ls[1..])
  }

  /** The words of each output line when the words are laid out the way
      `format_paragraph` does it.  `line` holds the words already on the
      current line and `curcol` is the column its text reaches. */
  function LayoutFrom(words: seq<string>, col: nat, width: nat, line: seq<string>, curcol: nat)
    : (ls: seq<seq<string>>)
    decreases |words|
    ensures |ls| > 0
  {
    if |words| == 0 then [line]
    else
      var w := words[0];
      if |line| > 0 && curcol + |w| + 1 > width then
        [line] + LayoutFrom(words[1..], col, width, [w], col + |w|)
      else if |line| > 0 then
        LayoutFrom(words[1..], col, width, line + [w], curcol + 1 + |w|)
      else
        LayoutFrom(words[1..], col, width, [w], curcol + |w|)
  }

  function Layout(words: seq<string>, col: nat, width: nat): seq<seq<string>>
  {
    LayoutFrom(words, col, width, [], col)
  }

  /** A line of the layout fits: behind a prefix of `col` columns its words,
      separated by single spaces, end within `width` columns; a line with a
      single word may be longer. */
  predicate Fits(l: seq<string>, col: nat, width: nat) {
    |l| <= 1 || col + |Join(l, " ")| <= width
  }

  /** The break before line `b` was needed: the first word of `b` would not
      have fit, after one space, at the end of line `a`. */
  predicate Forced(a: seq<string>, b: seq<string>, col: nat, width: nat) {
    |b| > 0 && col + |Join(a, " ")| + 1 + |b[0]| > width
  }

  /** `ls` is a greedy layout of `words`: the words in order, no empty line
      (one empty line if there are no words), every line fits and every
      break was needed. */
  ghost predicate IsGreedyLayout(ls: seq<seq<string>>, words: seq<string>, col: nat, width: nat) {
    && |ls| > 0
    && Flatten(ls) == words
    && (|words| == 0 ==> ls == [[]])
    && (|words| > 0 ==> forall k :: 0 <= k < |ls| ==> |ls[k]| > 0)
    && (forall k :: 0 <= k < |ls| ==> Fits(ls[k], col, width))
    && (forall k :: 0 <= k < |ls| - 1 ==> Forced(ls[k], ls[k + 1], col, width))
  }

  lemma FlattenCons(l: seq<string>, ls: seq<seq<string>>)
    ensures Flatten([l] + ls) == l + Flatten(ls)
  {
    assert ([l] + ls)[1..] == ls;
  }

  /** The properties of the layouts built from a line in progress. */
  ghost predicate LayoutProps(ls: seq<seq<string>>, line: seq<string>, words: seq<string>, col: nat, width: nat) {
    && |ls| > 0
    && Flatten(ls) == line + words
    && |line| <= |ls[0]| && ls[0][..|line|] == line
    && (|line| + |words| > 0 ==> |ls[0]| > 0)
    && (forall k :: 1 <= k < |ls| ==> |ls[k]| > 0)
    && (forall k :: 0 <= k < |ls| ==> Fits(ls[k], col, width))
    && (forall k :: 0 <= k < |ls| - 1 ==> Forced(ls[k], ls[k + 1], col, width))
  }

  /** A needed break keeps the layout properties. */
  lemma LayoutBreak(r: seq<seq<string>>, line: seq<string>, w: string, rest: seq<string>, col: nat, width: nat)
    requires LayoutProps(r, [w], rest, col, width)
    requires |line| > 0 && Fits(line, col, width)
    requires col + |Join(line, " ")| + |w| + 1 > width
    ensures LayoutProps([line] + r, line, [w] + rest, col, width)
  {
    var ls := [line] + r;
    FlattenCons(line, r);
    assert r[0][..1] == [w];
    assert Forced(ls[0], ls[1], col, width);
    forall k | 1 <= k < |ls| - 1
      ensures Forced(ls[k], ls[k + 1], col, width)
    {
      assert ls[k] == r[k - 1] && ls[k + 1] == r[k];
    }
    forall k | 1 <= k < |ls|
      ensures |ls[k]| > 0 && Fits(ls[k], col, width)
    {
      assert ls[k] == r[k - 1];
    }
  }

  /** Putting a word on the current line keeps the layout properties. */
  lemma LayoutExtend(r: seq<seq<string>>, line: seq<string>, w: string, rest: seq<string>, col: nat, width: nat)
    requires LayoutProps(r, line + [w], rest, col, width)
    ensures LayoutProps(r, line, [w] + rest, col, width)
  {
    assert (line + [w])[..|line|] == line;
    assert r[0][..|line|] == r[0][..|line| + 1][..|line|];
    assert (line + [w]) + rest == line + ([w] + rest);
  }

  /** The invariant of the layout loop, for any state it can be in. */
  lemma {:induction false} LayoutFromProps(words: seq<string>, col: nat, width: nat, line: seq<string>, curcol: nat)
    requires curcol == col + |Join(line, " ")|
    requires Fits(line, col, width)
    decreases |words|
    ensures LayoutProps(LayoutFrom(words, col, width, line, curcol), line, words, col, width)
  {
    if |words| == 0 {
      FlattenCons(line, []);
    } else {
      var w := words[0];
      var rest := words[1..];
      assert words == [w] + rest;
      if |line| > 0 && curcol + |w| + 1 > width {
        LayoutFromProps(rest, col, width, [w], col + |w|);
        LayoutBreak(LayoutFrom(rest, col, width, [w], col + |w|), line, w, rest, col, width);
      } else if |line| > 0 {
        JoinSnoc(line, w, " ");
        LayoutFromProps(rest, col, width, line + [w], curcol + 1 + |w|);
        LayoutExtend(LayoutFrom(rest, col, width, line + [w], curcol + 1 + |w|), line, w, rest, col, width);
      } else {
        assert Join([w], " ") == w;
        LayoutFromProps(rest, col, width, [w], curcol + |w|);
        LayoutExtend(LayoutFrom(rest, col, width, [w], curcol + |w|), line, w, rest, col, width);
      }
    }
  }

  /** The layout of `format_paragraph` is a greedy layout. */
  lemma LayoutIsGreedy(words: seq<string>, col: nat, width: nat)
    ensures IsGreedyLayout(Layout(words, col, width), words, col, width)
  {
    LayoutFromProps(words, col, width, [], col);
    if |words| == 0 {
      assert Layout(words, col, width) == [[]];
    }
  }

  /** A longer line of words joins to a longer text. */
  lemma JoinLonger(l: seq<string>, m: nat)
    requires 1 <= m < |l|
    ensures |Join(l, " ")| >= |Join(l[..m], " ")| + 1 + |l[m]|
  {
    assert l[..m + 1] == l[..m] + [l[m]];
    JoinSnoc(l[..m], l[m], " ");
    if m + 1 < |l| {
      assert l == l[..m + 1] + l[m + 1..];
      JoinAppend(l[..m + 1], l[m + 1..], " ");
    } else {
      assert l == l[..m + 1];
    }
  }

  /** How the first line of a greedy layout of some words relates to them. */
  lemma FirstLine(ls: seq<seq<string>>, words: seq<string>, col: nat, width: nat)
    requires IsGreedyLayout(ls, words, col, width) && |words| > 0
    ensures |ls[0]| <= |words| && ls[0] == words[..|ls[0]|]
    ensures Flatten(ls[1..]) == words[|ls[0]|..]
    ensures |ls| == 1 ==> ls[0] == words
    ensures |ls| > 1 ==> |ls[0]| < |words| && ls[1][0] == words[|ls[0]|]
  {
    FlattenCons(ls[0], ls[1..]);
    assert ls == [ls[0]] + ls[1..];
    if |ls| > 1 {
      FlattenCons(ls[1], ls[2..]);
      assert ls[1..] == [ls[1]] + ls[2..];
    }
  }

  /** The tail of a greedy layout is a greedy layout of the remaining words. */
  lemma GreedyTail(ls: seq<seq<string>>, words: seq<string>, col: nat, width: nat)
    requires IsGreedyLayout(ls, words, col, width) && |words| > 0 && |ls| > 1
    ensures IsGreedyLayout(ls[1..], words[|ls[0]|..], col, width)
  {
    FirstLine(ls, words, col, width);
    var t := ls[1..];
    forall k | 0 <= k < |t| - 1
      ensures Forced(t[k], t[k + 1], col, width)
    {
      assert t[k] == ls[k + 1] && t[k + 1] == ls[k + 2];
    }
  }

  /** A greedy layout never breaks a line earlier than another greedy
      layout of the same words does. */
  lemma NoEarlierBreak(a: seq<seq<string>>, b: seq<seq<string>>, words: seq<string>, col: nat, width: nat)
    requires IsGreedyLayout(a, words, col, width) && IsGreedyLayout(b, words, col, width)
    requires |words| > 0
    ensures |b[0]| <= |a[0]|
  {
    FirstLine(a, words, col, width);
    FirstLine(b, words, col, width);
    if |a[0]| < |b[0]| {
      var m := |a[0]|;
      assert |a| > 1;
      assert Forced(a[0], a[1], col, width);
      assert b[0][..m] == a[0];
      assert b[0][m] == words[m];
      JoinLonger(b[0], m);
      assert false;
    }
  }

  /** There is only one greedy layout of given words: the one
      `format_paragraph` produces is determined by the greedy rules. */
  lemma {:induction false} GreedyUnique(a: seq<seq<string>>, b: seq<seq<string>>, words: seq<string>, col: nat, width: nat)
    requires IsGreedyLayout(a, words, col, width) && IsGreedyLayout(b, words, col, width)
    decreases |words|
    ensures a == b
  {
    if |words| > 0 {
      NoEarlierBreak(a, b, words, col, width);
      NoEarlierBreak(b, a, words, col, width);
      FirstLine(a, words, col, width);
      FirstLine(b, words, col, width);
      if |a| > 1 {
        GreedyTail(a, words, col, width);
        GreedyTail(b, words, col, width);
        GreedyUnique(a[1..], b[1..], words[|a[0]|..], col, width);
        assert a == [a[0]] + a[1..];
        assert b == [b[0]] + b[1..];
      }
    }
  }

  /** The layout of `format_paragraph` is the one greedy layout. */
  lemma LayoutIsTheGreedyLayout(ls: seq<seq<string>>, words: seq<string>, col: nat, width: nat)
    ensures IsGreedyLayout(ls, words, col, width) <==> ls == Layout(words, col, width)
  {
    LayoutIsGreedy(words, col, width);
    if IsGreedyLayout(ls, words, col, width) {
      GreedyUnique(ls, Layout(words, col, width), words, col, width);
    }
  }

  /** The text of each output line: its prefix, then its words separated by
      single spaces. */
  function LineTexts(first: string, cont: string, ls: seq<seq<string>>): (ts: seq<string>)
    ensures |ts| == |ls|
  {
    seq(|ls|, k requires 0 <= k < |ls| => (if k == 0 then first else cont) + Join(ls[k], " "))
  }

  /** `format_paragraph`: one line of text without newlines, wrapped at
      `width` columns behind prefixes of `col` columns. */
  function Paragraph(text: string, tag: string, first: bool, repeat: bool, col: nat, width: nat): (r: string)
    requires '\n' !in text
    requires |tag| <= col
    requires width > 0
    ensures col <= |r|
    ensures first || repeat ==> r[..|tag|] == tag && forall i :: |tag| <= i < col ==> r[i] == ' '
    ensures !(first || repeat) ==> forall i :: 0 <= i < col ==> r[i] == ' '
  {
    var f := FirstPrefix(tag, first, repeat, col);
    var ts := LineTexts(f, ContPrefix(tag, repeat, col), Layout(Split(text, " "), col, width));
    JoinStarts(ts, "\n");
    assert Join(ts, "\n")[..col] == ts[0][..col] == f;
    Join(ts, "\n")
  }

  /** No word of a layout contains `c` if none of the laid out words does. */
  lemma {:induction false} LinesNoChar(ls: seq<seq<string>>, c: char)
    requires forall i :: 0 <= i < |Flatten(ls)| ==> c !in Flatten(ls)[i]
    ensures forall k, j :: 0 <= k < |ls| && 0 <= j < |ls[k]| ==> c !in ls[k][j]
  {
    if |ls| > 0 {
      assert Flatten(ls) == ls[0] + Flatten(ls[1..]);
      forall i | 0 <= i < |Flatten(ls[1..])|
        ensures c !in Flatten(ls[1..])[i]
      {
        assert Flatten(ls[1..])[i] == Flatten(ls)[|ls[0]| + i];
      }
      LinesNoChar(ls[1..], c);
      forall k, j | 0 <= k < |ls| && 0 <= j < |ls[k]|
        ensures c !in ls[k][j]
      {
        if k == 0 {
          assert ls[k][j] == Flatten(ls)[j];
        } else {
          assert ls[k] == ls[1..][k - 1];
        }
      }
    }
  }

  /** The words of a paragraph contain neither blanks nor newlines. */
  lemma WordsPlain(text: string)
    requires '\n' !in text
    ensures forall i :: 0 <= i < |Split(text, " ")| ==> ' ' !in Split(text, " ")[i] && '\n' !in Split(text, " ")[i]
  {
    var words := Split(text, " ");
    SplitNoChar(text, " ", 0, '\n');
    SplitFree(text, " ", 0);
    forall i | 0 <= i < |words|
      ensures ' ' !in words[i]
    {
      FreeChar(words[i], ' ');
    }
  }

  /** The lines of a wrapped paragraph are exactly the prefixed lines of the
      greedy layout of its words. */
  lemma ParagraphShape(text: string, tag: string, first: bool, repeat: bool, col: nat, width: nat)
    requires '\n' !in text && '\n' !in tag
    requires |tag| <= col && width > 0
    ensures IsGreedyLayout(Layout(Split(text, " "), col, width), Split(text, " "), col, width)
    ensures Pieces(Paragraph(text, tag, first, repeat, col, width), "\n")
      == LineTexts(FirstPrefix(tag, first, repeat, col), ContPrefix(tag, repeat, col),
                   Layout(Split(text, " "), col, width))
  {
    var words := Split(text, " ");
    var ls := Layout(words, col, width);
    var f := FirstPrefix(tag, first, repeat, col);
    var c := ContPrefix(tag, repeat, col);
    var ts := LineTexts(f, c, ls);
    LayoutIsGreedy(words, col, width);
    WordsPlain(text);
    LinesNoChar(ls, '\n');
    LineTextsFree(f, c, ls);
    PiecesJoin(ts, "\n");
  }

  /** A wrapped paragraph begins with its first line's prefix and then its
      first word. */
  lemma ParagraphStart(text: string, tag: string, first: bool, repeat: bool, col: nat, width: nat)
    requires '\n' !in text && |tag| <= col && width > 0
    requires |Split(text, " ")| > 0
    ensures FirstPrefix(tag, first, repeat, col) + Split(text, " ")[0] <= Paragraph(text, tag, first, repeat, col, width)
  {
    var words := Split(text, " ");
    var ls := Layout(words, col, width);
    var f := FirstPrefix(tag, first, repeat, col);
    var ts := LineTexts(f, ContPrefix(tag, repeat, col), ls);
    LayoutIsGreedy(words, col, width);
    FlattenCons(ls[0], ls[1..]);
    assert ls == [ls[0]] + ls[1..];
    assert ls[0][0] == words[0];
    JoinStarts(ls[0], " ");
    JoinStarts(ts, "\n");
    assert ts[0] == f + Join(ls[0], " ");
    assert (f + words[0]) == ts[0][..|f| + |words[0]|];
  }

  /** Line texts built from newline-free prefixes and words hold no newline. */
  lemma LineTextsFree(f: string, c: string, ls: seq<seq<string>>)
    requires '\n' !in f && '\n' !in c
    requires forall k, j :: 0 <= k < |ls| && 0 <= j < |ls[k]| ==> '\n' !in ls[k][j]
    ensures forall k :: 0 <= k < |ls| ==> Free(LineTexts(f, c, ls)[k], "\n")
  {
    var ts := LineTexts(f, c, ls);
    forall k | 0 <= k < |ts|
      ensures Free(ts[k], "\n")
    {
      JoinNoChar(ls[k], " ", '\n');
      FreeChar(ts[k], '\n');
    }
  }

  /** A line of wrapped output is within the width, or holds nothing past
      its prefix, or holds a single word past its prefix. */
  predicate LineOk(line: string, col: nat, width: nat) {
    |line| <= width || |line| <= col || ' ' !in line[col..]
  }

  /** Every line of a wrapped paragraph is within the width unless it is a
      prefix followed by a single word. */
  lemma ParagraphLinesOk(text: string, tag: string, first: bool, repeat: bool, col: nat, width: nat)
    requires '\n' !in text && '\n' !in tag
    requires |tag| <= col && width > 0
    ensures forall k :: 0 <= k < |Pieces(Paragraph(text, tag, first, repeat, col, width), "\n")| ==>
      LineOk(Pieces(Paragraph(text, tag, first, repeat, col, width), "\n")[k], col, width)
  {
    var words := Split(text, " ");
    var ls := Layout(words, col, width);
    var ts := LineTexts(FirstPrefix(tag, first, repeat, col), ContPrefix(tag, repeat, col), ls);
    ParagraphShape(text, tag, first, repeat, col, width);
    WordsPlain(text);
    LinesNoChar(ls, ' ');
    forall k | 0 <= k < |ts|
      ensures LineOk(ts[k], col, width)
    {
      assert ts[k][col..] == Join(ls[k], " ");
      if |ls[k]| == 1 {
        assert Join(ls[k], " ") == ls[k][0];
      }
    }
  }

  /** Adding a line to a layout adds its text at the end. */
  lemma LineTextsLast(f: string, c: string, ls: seq<seq<string>>, l: seq<string>)
    ensures LineTexts(f, c, ls + [l]) == LineTexts(f, c, ls) + [(if |ls| == 0 then f else c) + Join(l, " ")]
  {
  }

  /** Putting a word on the last line extends the output by a separator
      and the word. */
  lemma StepWord(f: string, c: string, done: seq<seq<string>>, line: seq<string>, w: string)
    ensures Join(LineTexts(f, c, done + [line + [w]]), "\n")
      == Join(LineTexts(f, c, done + [line]), "\n") + (if |line| > 0 then " " else "") + w
  {
    var p := if |done| == 0 then f else c;
    LineTextsLast(f, c, done, line + [w]);
    LineTextsLast(f, c, done, line);
    if |line| > 0 {
      JoinSnoc(line, w, " ");
    } else {
      assert line + [w] == [w];
    }
    assert p + Join(line + [w], " ") == (p + Join(line, " ")) + ((if |line| > 0 then " " else "") + w);
    JoinExtendLast(LineTexts(f, c, done), p + Join(line, " "), (if |line| > 0 then " " else "") + w, "\n");
  }

  /** Starting a new line with a word extends the output by a newline, the
      continuation prefix and the word. */
  lemma StepBreak(f: string, c: string, done: seq<seq<string>>, w: string)
    requires |done| > 0
    ensures Join(LineTexts(f, c, done + [[w]]), "\n") == Join(LineTexts(f, c, done), "\n") + "\n" + c + w
  {
    LineTextsLast(f, c, done, [w]);
    assert Join([w], " ") == w;
    JoinSnoc(LineTexts(f, c, done), c + w, "\n");
  }

  /** The state of the `format_paragraph` loop before word `i`: `done` are
      the finished lines, `line` the words of the current line, which
      reaches column `curcol`, and `formatted` is the text so far. */
  ghost predicate ParagraphLoop(words: seq<string>, i: nat, col: nat, width: nat, curcol: nat,
                                done: seq<seq<string>>, line: seq<string>, formatted: string, f: string, c: string) {
    && i <= |words|
    && curcol == col + |Join(line, " ")|
    && (i == 0 <==> |line| == 0)
    && done + LayoutFrom(words[i..], col, width, line, curcol) == Layout(words, col, width)
    && formatted == Join(LineTexts(f, c, done + [line]), "\n")
  }

  /** The loop state after a word that starts a new line. */
  lemma LoopBreak(words: seq<string>, i: nat, col: nat, width: nat, curcol: nat,
                  done: seq<seq<string>>, line: seq<string>, formatted: string, f: string, c: string,
                  brk: string)
    requires ParagraphLoop(words, i, col, width, curcol, done, line, formatted, f, c)
    requires i < |words| && i != 0 && curcol + |words[i]| + 1 > width
    requires brk == "\n" + c
    ensures ParagraphLoop(words, i + 1, col, width, col + |words[i]|, done + [line], [words[i]],
                          formatted + brk + words[i], f, c)
  {
    var w := words[i];
    assert words[i..] == [w] + words[i + 1..];
    assert LayoutFrom(words[i..], col, width, line, curcol)
      == [line] + LayoutFrom(words[i + 1..], col, width, [w], col + |w|);
    assert done + ([line] + LayoutFrom(words[i + 1..], col, width, [w], col + |w|))
      == (done + [line]) + LayoutFrom(words[i + 1..], col, width, [w], col + |w|);
    StepBreak(f, c, done + [line], w);
    assert Join([w], " ") == w;
    assert formatted + brk + w == formatted + "\n" + c + w;
  }

  /** The loop state after a word that goes on the current line. */
  lemma LoopWord(words: seq<string>, i: nat, col: nat, width: nat, curcol: nat,
                 done: seq<seq<string>>, line: seq<string>, formatted: string, f: string, c: string)
    requires ParagraphLoop(words, i, col, width, curcol, done, line, formatted, f, c)
    requires i < |words| && (i == 0 || curcol + |words[i]| + 1 <= width)
    ensures i == 0 ==> ParagraphLoop(words, i + 1, col, width, curcol + |words[i]|,
                                     done, line + [words[i]], formatted + words[i], f, c)
    ensures i != 0 ==> ParagraphLoop(words, i + 1, col, width, curcol + 1 + |words[i]|,
                                     done, line + [words[i]], formatted + " " + words[i], f, c)
  {
    var w := words[i];
    assert words[i..] == [w] + words[i + 1..];
    StepWord(f, c, done, line, w);
    if i == 0 {
      assert line + [w] == [w];
      assert Join([w], " ") == w;
    } else {
      JoinSnoc(line, w, " ");
    }
  }

  /** The loop state before the first word. */
  lemma LoopStart(words: seq<string>, col: nat, width: nat, f: string, c: string)
    ensures ParagraphLoop(words, 0, col, width, col, [], [], f, f, c)
  {
    assert words[0..] == words;
    assert Join([], " ") == [];
    assert f + [] == f;
    assert LineTexts(f, c, [[]]) == [f];
  }

  /** The loop of `format_paragraph` from word `i` on: `formatted` is the
      output so far and `curcol` the column it reaches.  A word goes after
      one blank unless it would pass the width, in which case a newline and
      the continuation prefix `cont` go first; the first word goes right
      after the prefix. */
  function FillFrom(words: seq<string>, i: nat, col: nat, width: nat, cont: string, curcol: nat, formatted: string)
    : string
    requires i <= |words|
    decreases |words| - i
  {
    if i == |words| then formatted
    else
      var word := words[i];
      if i != 0 && curcol + |word| + 1 > width then
        FillFrom(words, i + 1, col, width, cont, col + |word|, formatted + ("\n" + cont) + word)
      else if i != 0 then
        FillFrom(words, i + 1, col, width, cont, curcol + 1 + |word|, formatted + " " + word)
      else
        FillFrom(words, i + 1, col, width, cont, curcol + |word|, formatted + word)
  }

  /** The loop builds the greedy layout's lines, whatever state it is in. */
  lemma {:induction false} FillFromLayout(words: seq<string>, i: nat, col: nat, width: nat, curcol: nat,
                                          done: seq<seq<string>>, line: seq<string>, formatted: string,
                                          f: string, c: string)
    requires ParagraphLoop(words, i, col, width, curcol, done, line, formatted, f, c)
    decreases |words| - i
    ensures FillFrom(words, i, col, width, c, curcol, formatted) == Join(LineTexts(f, c, Layout(words, col, width)), "\n")
  {
    if i == |words| {
      assert words[i..] == [];
    } else {
      var word := words[i];
      if i != 0 && curcol + |word| + 1 > width {
        LoopBreak(words, i, col, width, curcol, done, line, formatted, f, c, "\n" + c);
        FillFromLayout(words, i + 1, col, width, col + |word|, done + [line], [word],
                       formatted + ("\n" + c) + word, f, c);
      } else if i != 0 {
        LoopWord(words, i, col, width, curcol, done, line, formatted, f, c);
        FillFromLayout(words, i + 1, col, width, curcol + 1 + |word|, done, line + [word],
                       formatted + " " + word, f, c);
      } else {
        LoopWord(words, i, col, width, curcol, done, line, formatted, f, c);
        FillFromLayout(words, i + 1, col, width, curcol + |word|, done, line + [word],
                       formatted + word, f, c);
      }
    }
  }

  /** `format_paragraph` as written: the first line's prefix, then the words
      appended one by one. */
  function FormatParagraph(text: string, tag: string, first: bool, repeat: bool, col: nat, width: nat)
    : (r: string)
    requires '\n' !in text
    requires |tag| <= col
    requires width > 0
    ensures r == Paragraph(text, tag, first, repeat, col, width)
  {
    var pad := Spaces(col - |tag|);
    var fullpad := Spaces(col);
    var formatted := if first || repeat then tag + pad else fullpad;
    var cont := if repeat then tag + pad else fullpad;
    var words := Split(text, " ");
    LoopStart(words, col, width, formatted, cont);
    FillFromLayout(words, 0, col, width, col, [], [], formatted, formatted, cont);
    FillFrom(words, 0, col, width, cont, col, formatted)
  }
}
