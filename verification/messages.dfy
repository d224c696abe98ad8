/**
  Whole messages (libs/atfprivate/ui.cpp): a text is cut into paragraphs at
  its newlines, each paragraph is wrapped behind the tag, and the wrapped
  paragraphs are separated by a blank line or by a line holding the tag.
  The error, warning and info messages put the program's name in the tag;
  plain text has no tag at all.
 */
module Messages {
  import opened Strings
  import opened Ui

  /** The lines of a text hold no newline. */
  lemma LinesPlain(text: string)
    ensures forall k :: 0 <= k < |Split(text, "\n")| ==> '\n' !in Split(text, "\n")[k]
  {
    SplitFree(text, "\n", 0);
    forall k | 0 <= k < |Split(text, "\n")|
      ensures '\n' !in Split(text, "\n")[k]
    {
      FreeChar(Split(text, "\n")[k], '\n');
    }
  }

  /** What goes between two wrapped paragraphs: an empty line, or a line
      holding the tag alone when the tag is repeated. */
  function Separator(tag: string, repeat: bool): string
  {
    "\n" + (if repeat then tag else "") + "\n"
  }

  /** Every line wrapped on its own; only the first one is the first
      paragraph of the text. */
  function Wrapped(lines: seq<string>, tag: string, repeat: bool, col: nat, width: nat): (ps: seq<string>)
    requires forall k :: 0 <= k < |lines| ==> '\n' !in lines[k]
    requires |tag| <= col && width > 0
    ensures |ps| == |lines|
  {
    seq(|lines|, k requires 0 <= k < |lines| => Paragraph(lines[k], tag, k == 0, repeat, col, width))
  }

  /** The column the text starts at: `col`, or the tag's length when `col`
      is 0. */
  function Column(tag: string, col: nat): nat
  {
    if col == 0 then |tag| else col
  }

  /** `format_text_with_tag`: the non-empty lines of `text`, each wrapped
      as a paragraph behind `tag`, with separators between them. */
  function FormatTextWithTag(text: string, tag: string, repeat: bool, col: nat, width: nat): (r: string)
    requires col == 0 || col >= |tag|
    requires width > 0
    ensures Split(text, "\n") == [] ==> r == ""
    ensures Split(text, "\n") != [] ==>
      Column(tag, col) <= |r| && r[..|tag|] == tag && forall i :: |tag| <= i < Column(tag, col) ==> r[i] == ' '
  {
    var lines := Split(text, "\n");
    LinesPlain(text);
    var ps := Wrapped(lines, tag, repeat, Column(tag, col), width);
    if |ps| == 0 then ""
    else
      JoinStarts(ps, Separator(tag, repeat));
      assert Join(ps, Separator(tag, repeat))[..Column(tag, col)] == ps[0][..Column(tag, col)];
      Join(ps, Separator(tag, repeat))
  }

  /** A text without newlines is a single line. */
  lemma PiecesPlain(s: string)
    requires '\n' !in s
    ensures Pieces(s, "\n") == [s]
  {
    FreeChar(s, '\n');
    PiecesJoin([s], "\n");
  }

  /** The lines of a wrapped paragraph: the greedy layout of its words,
      each line behind its prefix. */
  function ParaLines(line: string, tag: string, first: bool, repeat: bool, col: nat, width: nat): seq<string>
    requires |tag| <= col
  {
    LineTexts(FirstPrefix(tag, first, repeat, col), ContPrefix(tag, repeat, col), Layout(Split(line, " "), col, width))
  }

  /** The groups of lines, one after the other, with `mid` on a line of
      its own between consecutive groups. */
  function Interleave(ts: seq<seq<string>>, mid: string): seq<string>
  {
    if |ts| == 0 then []
    else if |ts| == 1 then ts[0]
    else ts[0] + [mid] + Interleave(ts[1..], mid)
  }

  /** The lines `format_text_with_tag` should print for some non-empty
      lines of text: each line wrapped as a paragraph, only the first one
      with the first-paragraph prefix, and between two paragraphs an empty
      line, or the tag alone when it is repeated. */
  function TextLines(lines: seq<string>, tag: string, repeat: bool, col: nat, width: nat): seq<string>
    requires |tag| <= col
  {
    Interleave(seq(|lines|, k requires 0 <= k < |lines| => ParaLines(lines[k], tag, k == 0, repeat, col, width)),
               if repeat then tag else "")
  }

  /** Two texts around a line of their own split into their lines with
      that line between. */
  lemma PiecesAround(a: string, mid: string, b: string)
    requires '\n' !in mid
    ensures Pieces(a + ("\n" + mid + "\n") + b, "\n") == Pieces(a, "\n") + [mid] + Pieces(b, "\n")
  {
    assert a + ("\n" + mid + "\n") + b == a + "\n" + (mid + "\n" + b);
    PiecesPlain(mid);
    PiecesConcat(mid, b, "\n");
    PiecesConcat(a, mid + "\n" + b, "\n");
  }

  /** Texts joined with `mid` on a line between them split into their
      lines interleaved with `mid`. */
  lemma {:induction false} JoinInterleave(ps: seq<string>, ts: seq<seq<string>>, mid: string)
    requires '\n' !in mid && |ps| == |ts| > 0
    requires forall k :: 0 <= k < |ps| ==> Pieces(ps[k], "\n") == ts[k]
    ensures Pieces(Join(ps, "\n" + mid + "\n"), "\n") == Interleave(ts, mid)
  {
    if |ps| > 1 {
      JoinInterleave(ps[1..], ts[1..], mid);
      PiecesAround(ps[0], mid, Join(ps[1..], "\n" + mid + "\n"));
    }
  }

  /** The lines of `format_text_with_tag`'s output: nothing but one empty
      line when the text has no non-empty line, and otherwise the wrapped
      paragraphs with the separator line between them. */
  lemma TextShape(text: string, tag: string, repeat: bool, col: nat, width: nat)
    requires col == 0 || col >= |tag|
    requires width > 0
    requires '\n' !in tag
    ensures Split(text, "\n") == [] ==> Pieces(FormatTextWithTag(text, tag, repeat, col, width), "\n") == [""]
    ensures Split(text, "\n") != [] ==>
      Pieces(FormatTextWithTag(text, tag, repeat, col, width), "\n")
        == TextLines(Split(text, "\n"), tag, repeat, Column(tag, col), width)
  {
    var lines := Split(text, "\n");
    LinesPlain(text);
    var c := Column(tag, col);
    if |lines| == 0 {
      PiecesPlain("");
    } else {
      var ps := Wrapped(lines, tag, repeat, c, width);
      var ts := seq(|lines|, k requires 0 <= k < |lines| => ParaLines(lines[k], tag, k == 0, repeat, c, width));
      forall k | 0 <= k < |ps|
        ensures Pieces(ps[k], "\n") == ts[k]
      {
        ParagraphShape(lines[k], tag, k == 0, repeat, c, width);
      }
      JoinInterleave(ps, ts, if repeat then tag else "");
    }
  }

  /** A property of every line of the groups and of `mid` holds for every
      line of their interleaving. */
  lemma {:induction false} InterleaveAll(ts: seq<seq<string>>, mid: string, P: string -> bool)
    requires P(mid)
    requires forall k, j :: 0 <= k < |ts| && 0 <= j < |ts[k]| ==> P(ts[k][j])
    ensures forall i :: 0 <= i < |Interleave(ts, mid)| ==> P(Interleave(ts, mid)[i])
  {
    if |ts| > 1 {
      InterleaveAll(ts[1..], mid, P);
      var rest := Interleave(ts[1..], mid);
      forall i | 0 <= i < |Interleave(ts, mid)|
        ensures P(Interleave(ts, mid)[i])
      {
        if i < |ts[0]| {
          assert Interleave(ts, mid)[i] == ts[0][i];
        } else if i > |ts[0]| {
          assert Interleave(ts, mid)[i] == rest[i - |ts[0]| - 1];
        }
      }
    }
  }

  /** Every line of `s` is within the width, or holds nothing past the
      first `col` columns, or a single word past them. */
  predicate LinesOk(s: string, col: nat, width: nat) {
    forall k :: 0 <= k < |Pieces(s, "\n")| ==> LineOk(Pieces(s, "\n")[k], col, width)
  }

  /** Every line `format_text_with_tag` produces is within the width unless
      it is a prefix followed by a single word. */
  lemma TextLinesOk(text: string, tag: string, repeat: bool, col: nat, width: nat)
    requires col == 0 || col >= |tag|
    requires width > 0
    requires '\n' !in tag
    ensures LinesOk(FormatTextWithTag(text, tag, repeat, col, width), Column(tag, col), width)
  {
    var lines := Split(text, "\n");
    var c := Column(tag, col);
    LinesPlain(text);
    TextShape(text, tag, repeat, col, width);
    if |lines| > 0 {
      var ts := seq(|lines|, k requires 0 <= k < |lines| => ParaLines(lines[k], tag, k == 0, repeat, c, width));
      forall k, j | 0 <= k < |ts| && 0 <= j < |ts[k]|
        ensures LineOk(ts[k][j], c, width)
      {
        ParagraphShape(lines[k], tag, k == 0, repeat, c, width);
        ParagraphLinesOk(lines[k], tag, k == 0, repeat, c, width);
      }
      InterleaveAll(ts, if repeat then tag else "", l => LineOk(l, c, width));
    }
  }

  /** Every line of `s` begins with `tag`. */
  predicate Tagged(s: string, tag: string) {
    forall k :: 0 <= k < |Pieces(s, "\n")| ==> tag <= Pieces(s, "\n")[k]
  }

  /** With the tag repeated, every line of the output begins with the tag,
      the lines between paragraphs included. */
  lemma RepeatTagged(text: string, tag: string, col: nat, width: nat)
    requires col == 0 || col >= |tag|
    requires width > 0
    requires '\n' !in tag
    requires |Split(text, "\n")| > 0
    ensures Tagged(FormatTextWithTag(text, tag, true, col, width), tag)
  {
    var lines := Split(text, "\n");
    var c := Column(tag, col);
    TextShape(text, tag, true, col, width);
    var ts := seq(|lines|, k requires 0 <= k < |lines| => ParaLines(lines[k], tag, k == 0, true, c, width));
    forall k, j | 0 <= k < |ts| && 0 <= j < |ts[k]|
      ensures tag <= ts[k][j]
    {
      assert ts[k][j] == tag + Spaces(c - |tag|) + Join(Layout(Split(lines[k], " "), c, width)[j], " ");
    }
    InterleaveAll(ts, tag, l => tag <= l);
  }

  /** A property of `mid` and of every line of the groups but the very
      first holds for every line of their interleaving but the first. */
  lemma InterleaveTail(ts: seq<seq<string>>, mid: string, P: string -> bool)
    requires |ts| > 0 && |ts[0]| > 0 && P(mid)
    requires forall j :: 1 <= j < |ts[0]| ==> P(ts[0][j])
    requires forall k, j :: 1 <= k < |ts| && 0 <= j < |ts[k]| ==> P(ts[k][j])
    ensures forall i :: 1 <= i < |Interleave(ts, mid)| ==> P(Interleave(ts, mid)[i])
  {
    if |ts| > 1 {
      forall k, j | 0 <= k < |ts[1..]| && 0 <= j < |ts[1..][k]|
        ensures P(ts[1..][k][j])
      {
        assert ts[1..][k] == ts[k + 1];
      }
      InterleaveAll(ts[1..], mid, P);
      var rest := Interleave(ts[1..], mid);
      forall i | 1 <= i < |Interleave(ts, mid)|
        ensures P(Interleave(ts, mid)[i])
      {
        if i < |ts[0]| {
          assert Interleave(ts, mid)[i] == ts[0][i];
        } else if i > |ts[0]| {
          assert Interleave(ts, mid)[i] == rest[i - |ts[0]| - 1];
        }
      }
    }
  }

  /** Without repetition the tag is printed once: every line after the
      first is the empty line between two paragraphs or begins with the
      column's worth of blanks. */
  lemma TagOnce(text: string, tag: string, col: nat, width: nat)
    requires col == 0 || col >= |tag|
    requires width > 0
    requires '\n' !in tag
    ensures forall i :: 1 <= i < |Pieces(FormatTextWithTag(text, tag, false, col, width), "\n")| ==>
      var l := Pieces(FormatTextWithTag(text, tag, false, col, width), "\n")[i];
      l == "" || Spaces(Column(tag, col)) <= l
  {
    var lines := Split(text, "\n");
    var c := Column(tag, col);
    TextShape(text, tag, false, col, width);
    if |lines| > 0 {
      var ts := seq(|lines|, k requires 0 <= k < |lines| => ParaLines(lines[k], tag, k == 0, false, c, width));
      forall k, j | 0 <= k < |ts| && 0 <= j < |ts[k]| && (k, j) != (0, 0)
        ensures ts[k][j] == "" || Spaces(c) <= ts[k][j]
      {
        assert ts[k][j] == Spaces(c) + Join(Layout(Split(lines[k], " "), c, width)[j], " ");
      }
      InterleaveTail(ts, "", l => l == "" || Spaces(c) <= l);
    }
  }

  /** The words of some lines, line after line. */
  function WordsOf(ls: seq<string>): seq<string>
  {
    if |ls| == 0 then [] else Split(ls[0], " ") + WordsOf(ls[1..])
  }

  /** The words of a text: its lines broken at single spaces. */
  function Words(s: string): seq<string>
  {
    WordsOf(Pieces(s, "\n"))
  }

  lemma {:induction false} WordsOfAppend(a: seq<string>, b: seq<string>)
    ensures WordsOf(a + b) == WordsOf(a) + WordsOf(b)
  {
    if |a| > 0 {
      assert (a + b)[1..] == a[1..] + b;
      WordsOfAppend(a[1..], b);
    } else {
      assert a + b == b;
    }
  }

  /** Empty lines hold no words. */
  lemma {:induction false} WordsOfNonEmpty(ls: seq<string>)
    ensures WordsOf(NonEmpty(ls)) == WordsOf(ls)
  {
    if |ls| > 0 {
      WordsOfNonEmpty(ls[1..]);
      if |ls[0]| == 0 {
        assert NonEmpty(ls) == NonEmpty(ls[1..]);
      } else {
        assert NonEmpty(ls) == [ls[0]] + NonEmpty(ls[1..]);
        WordsOfAppend([ls[0]], NonEmpty(ls[1..]));
      }
    }
  }

  /** Breaking the lines of an untagged layout at spaces gives back its words. */
  lemma {:induction false} LineWords(ls: seq<seq<string>>)
    requires forall i :: 0 <= i < |Flatten(ls)| ==> |Flatten(ls)[i]| > 0 && ' ' !in Flatten(ls)[i]
    ensures WordsOf(LineTexts("", "", ls)) == Flatten(ls)
  {
    if |ls| > 0 {
      var ts := LineTexts("", "", ls);
      assert Flatten(ls) == ls[0] + Flatten(ls[1..]);
      forall i | 0 <= i < |Flatten(ls[1..])|
        ensures |Flatten(ls[1..])[i]| > 0 && ' ' !in Flatten(ls[1..])[i]
      {
        assert Flatten(ls[1..])[i] == Flatten(ls)[|ls[0]| + i];
      }
      LineWords(ls[1..]);
      assert ts[1..] == LineTexts("", "", ls[1..]);
      forall j | 0 <= j < |ls[0]|
        ensures |ls[0][j]| > 0 && Free(ls[0][j], " ")
      {
        assert ls[0][j] == Flatten(ls)[j];
        FreeChar(ls[0][j], ' ');
      }
      assert ts[0] == Join(ls[0], " ");
      SplitJoin(ls[0], " ");
    }
  }

  /** An untagged paragraph holds the words of its line, in order. */
  lemma ParagraphWords(text: string, first: bool, width: nat)
    requires '\n' !in text && width > 0
    ensures Words(Paragraph(text, "", first, false, 0, width)) == Split(text, " ")
  {
    var words := Split(text, " ");
    var ls := Layout(words, 0, width);
    ParagraphShape(text, "", first, false, 0, width);
    assert FirstPrefix("", first, false, 0) == "";
    assert ContPrefix("", false, 0) == "";
    WordsPlain(text);
    assert Flatten(ls) == words;
    LineWords(ls);
  }

  /** An empty line between two texts adds no words. */
  lemma WordsAround(a: string, b: string)
    ensures Words(a + "\n\n" + b) == Words(a) + Words(b)
  {
    assert a + "\n\n" + b == a + "\n" + ("" + "\n" + b);
    PiecesConcat(a, "" + "\n" + b, "\n");
    PiecesConcat("", b, "\n");
    PiecesPlain("");
    WordsOfAppend(Pieces(a, "\n"), [""] + Pieces(b, "\n"));
    WordsOfAppend([""], Pieces(b, "\n"));
    assert Split("", " ") == [];
    assert WordsOf([""]) == [];
  }

  /** Joining untagged paragraphs with empty lines between them keeps the
      words of their lines. */
  lemma {:induction false} JoinWords(ps: seq<string>, lines: seq<string>)
    requires |ps| == |lines|
    requires forall k :: 0 <= k < |ps| ==> Words(ps[k]) == Split(lines[k], " ")
    ensures Words(Join(ps, "\n\n")) == WordsOf(lines)
  {
    if |ps| == 0 {
      PiecesPlain("");
      assert Split("", " ") == [];
    } else if |ps| == 1 {
      assert WordsOf(lines) == Split(lines[0], " ") + WordsOf([]);
    } else {
      JoinWords(ps[1..], lines[1..]);
      WordsAround(ps[0], Join(ps[1..], "\n\n"));
    }
  }

  /** `format_text`: the text wrapped with no tag and no indentation.  It
      reflows the text but keeps every word, in order. */
  function FormatText(text: string, width: nat): (r: string)
    requires width > 0
    ensures Words(r) == Words(text)
  {
    var lines := Split(text, "\n");
    LinesPlain(text);
    var ps := Wrapped(lines, "", false, 0, width);
    forall k | 0 <= k < |ps|
      ensures Words(ps[k]) == Split(lines[k], " ")
    {
      ParagraphWords(lines[k], k == 0, width);
    }
    JoinWords(ps, lines);
    SplitIsNonEmptyPieces(text, "\n", 0);
    WordsOfNonEmpty(Pieces(text, "\n"));
    assert Separator("", false) == "\n\n";
    FormatTextWithTag(text, "", false, 0, width)
  }

  /** The text begins with the padded tag and the first word of its first
      line. */
  lemma TextStart(text: string, tag: string, repeat: bool, col: nat, width: nat)
    requires col == 0 || col >= |tag|
    requires width > 0
    requires |Split(text, "\n")| > 0 && |Split(Split(text, "\n")[0], " ")| > 0
    ensures tag + Spaces(Column(tag, col) - |tag|) + Split(Split(text, "\n")[0], " ")[0]
      <= FormatTextWithTag(text, tag, repeat, col, width)
  {
    var lines := Split(text, "\n");
    LinesPlain(text);
    var ps := Wrapped(lines, tag, repeat, Column(tag, col), width);
    ParagraphStart(lines[0], tag, true, repeat, Column(tag, col), width);
    JoinStarts(ps, Separator(tag, repeat));
  }

  /** A text that starts with the word `w` and a blank has `w` as the first
      word of its first line. */
  lemma LeadWord(text: string, w: string)
    requires |w| > 0 && '\n' !in w && ' ' !in w
    requires w + " " <= text
    ensures |Split(text, "\n")| > 0 && |Split(Split(text, "\n")[0], " ")| > 0
    ensures Split(Split(text, "\n")[0], " ")[0] == w
  {
    var p := w + " ";
    NoneBefore(text, p, '\n');
    SplitHead(text, "\n", |p|);
    var line := Split(text, "\n")[0];
    assert p <= line;
    NoneBefore(line, w, ' ');
    SplitFirst(line, " ", w);
  }

  /** `format_error`: the error wrapped behind the program's name, on a
      first line that reads `prog: ERROR: ...`. */
  function FormatError(prog: string, error: string, width: nat): (r: string)
    requires width > 0
    ensures prog + ": " + "ERROR:" <= r
  {
    var text := "ERROR: " + error;
    LeadWord(text, "ERROR:");
    TextStart(text, prog + ": ", true, 0, width);
    FormatTextWithTag(text, prog + ": ", true, 0, width)
  }

  /** `format_warning`: the warning wrapped behind the program's name, on a
      first line that reads `prog: WARNING: ...`. */
  function FormatWarning(prog: string, error: string, width: nat): (r: string)
    requires width > 0
    ensures prog + ": " + "WARNING:" <= r
  {
    var text := "WARNING: " + error;
    LeadWord(text, "WARNING:");
    TextStart(text, prog + ": ", true, 0, width);
    FormatTextWithTag(text, prog + ": ", true, 0, width)
  }

  /** `format_info`: the message wrapped behind the program's name.  A
      message of nothing but newlines gives nothing; any other begins with
      `prog: `. */
  function FormatInfo(prog: string, msg: string, width: nat): (r: string)
    requires width > 0
    ensures r == "" <==> forall i :: 0 <= i < |msg| ==> msg[i] == '\n'
    ensures r != "" ==> prog + ": " <= r
  {
    SplitNothing(msg, '\n', 0);
    FormatTextWithTag(msg, prog + ": ", true, 0, width)
  }
}
