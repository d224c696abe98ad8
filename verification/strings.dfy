/**
  String searching, splitting and joining, as used by the text formatting
  helpers of the atf user interface library (`atf::split` in
  libs/atfprivate/ui.cpp).
 */
module Strings {
  import opened Options

  /** `d` occurs in `s` starting at index `j`. */
  predicate OccursAt(s: string, d: string, j: nat) {
    j + |d| <= |s| && s[j..j + |d|] == d
  }

  /** `s` contains no occurrence of `d`. */
  predicate Free(s: string, d: string) {
    forall j :: 0 <= j <= |s| ==> !OccursAt(s, d, j)
  }

  /** `std::string::find(d, pos)`: the first index at or after `pos` where
      `d` occurs in `s`, or `None` for `npos`. */
  function Find(s: string, d: string, pos: nat): (r: Option<nat>)
    decreases |s| - pos
    ensures r.Some? ==> pos <= r.value && r.value + |d| <= |s|
  {
    if pos + |d| > |s| then None
    else if s[pos..pos + |d|] == d then Some(pos)
    else Find(s, d, pos + 1)
  }

  /** `Find` returns the first occurrence at or after `pos`, and `None`
      exactly when there is none. */
  lemma {:induction false} FindSpec(s: string, d: string, pos: nat)
    decreases |s| - pos
    ensures Find(s, d, pos).Some? ==> OccursAt(s, d, Find(s, d, pos).value)
    ensures Find(s, d, pos).Some? ==>
      forall j: nat :: pos <= j < Find(s, d, pos).value ==> !OccursAt(s, d, j)
    ensures Find(s, d, pos).None? ==> forall j: nat :: pos <= j ==> !OccursAt(s, d, j)
  {
    if pos + |d| <= |s| && s[pos..pos + |d|] != d {
      FindSpec(s, d, pos + 1);
    }
  }

  /** The search result is determined by the first occurrence. */
  lemma FindFirst(s: string, d: string, pos: nat, i: nat)
    requires pos <= i && OccursAt(s, d, i)
    requires forall j: nat :: pos <= j < i ==> !OccursAt(s, d, j)
    ensures Find(s, d, pos) == Some(i)
  {
    FindSpec(s, d, pos);
  }

  lemma OccursAtShift(s: string, d: string, pos: nat, j: nat)
    requires pos <= |s|
    ensures OccursAt(s[pos..], d, j) <==> OccursAt(s, d, pos + j)
  {
    if pos + j + |d| <= |s| {
      assert s[pos..][j..j + |d|] == s[pos + j..pos + j + |d|];
    }
  }

  /** Searching a suffix is searching the whole string from where the
      suffix starts. */
  lemma FindShift(s: string, d: string, pos: nat, k: nat)
    requires pos <= |s|
    ensures Find(s[pos..], d, k).None? <==> Find(s, d, pos + k).None?
    ensures Find(s, d, pos + k).Some? ==>
      Find(s[pos..], d, k).value == Find(s, d, pos + k).value - pos
  {
    var a := Find(s[pos..], d, k);
    var b := Find(s, d, pos + k);
    FindSpec(s[pos..], d, k);
    FindSpec(s, d, pos + k);
    if a.Some? {
      OccursAtShift(s, d, pos, a.value);
    }
    if b.Some? {
      OccursAtShift(s, d, pos, b.value - pos);
    }
  }

  lemma SliceOfSlice<T>(s: seq<T>, i: nat, k: nat, a: nat, b: nat)
    requires i <= k <= |s| && a <= b <= k - i
    ensures s[i..k][a..b] == s[i + a..i + b]
  {
    forall t | 0 <= t < b - a
      ensures s[i..k][a..b][t] == s[i + a..i + b][t]
    {
    }
  }

  /** A slice that ends before the first occurrence of `d` after its start
      contains no `d`. */
  lemma SliceFree(s: string, d: string, i: nat, k: nat)
    requires |d| > 0 && i <= k <= |s|
    requires forall j: nat :: i <= j < k ==> !OccursAt(s, d, j)
    ensures Free(s[i..k], d)
  {
    forall j | 0 <= j <= k - i
      ensures !OccursAt(s[i..k], d, j)
    {
      if j + |d| <= k - i {
        SliceOfSlice(s, i, k, j, j + |d|);
        assert !OccursAt(s, d, i + j);
      }
    }
  }

  /** `atf::split`: the non-empty pieces of `s` between occurrences of `d`.
      The empty string has no pieces whatever the delimiter, since the scan
      stops before its first search. */
  function Split(s: string, d: string): (r: seq<string>)
    requires |d| > 0 || |s| == 0
    ensures |s| == 0 ==> r == []
  {
    SplitFrom(s, d, 0)
  }

  /** The scanning loop of `atf::split`: `pos` is the start of the next
      piece; a search that runs off the end (`npos`) ends the scan with the
      rest of the string as the last piece; a delimiter found right at `pos`
      yields no piece. */
  function SplitFrom(s: string, d: string, pos: nat): (r: seq<string>)
    requires (|d| > 0 || pos == |s|) && pos <= |s|
    decreases |s| - pos
    ensures forall i :: 0 <= i < |r| ==> |r[i]| > 0
    ensures pos == |s| ==> r == []
  {
    if pos == |s| then []
    else match Find(s, d, pos)
      case None => [s[pos..]]
      case Some(np) =>
        (if np == pos then [] else [s[pos..np]]) + SplitFrom(s, d, np + |d|)
  }

  /** With an empty delimiter the search finds it right where it starts,
      so on a non-empty rest of the string the scan of `atf::split` would
      take the position `pos + 0` as the next one and never end: the
      delimiter may be empty only when there is nothing left to scan. */
  lemma {:induction false} SplitEmptyStalls(s: string, pos: nat)
    requires pos <= |s|
    ensures Find(s, [], pos) == Some(pos)
  {
    assert s[pos..pos] == [];
  }

  /** `atf::split` on a one-character delimiter yields nothing exactly when
      the rest of the string is made of that character alone. */
  lemma {:induction false} SplitNothing(s: string, c: char, pos: nat)
    requires pos <= |s|
    decreases |s| - pos
    ensures SplitFrom(s, [c], pos) == [] <==> forall i :: pos <= i < |s| ==> s[i] == c
  {
    if pos < |s| {
      FindSpec(s, [c], pos);
      assert OccursAt(s, [c], pos) <==> s[pos] == c by {
        assert s[pos..pos + 1] == [s[pos]];
      }
      match Find(s, [c], pos)
      case None =>
      case Some(np) =>
        if np == pos {
          SplitNothing(s, c, pos + 1);
        }
    }
  }

  /** A string that starts with `p` has no one-character delimiter `c`
      starting inside `p` when `p` has no `c`. */
  lemma NoneBefore(s: string, p: string, c: char)
    requires p <= s && c !in p
    ensures forall j: nat :: j < |p| ==> !OccursAt(s, [c], j)
  {
    forall j: nat | j < |p|
      ensures !OccursAt(s, [c], j)
    {
      assert s[j..j + 1] == [p[j]];
    }
  }

  /** The first piece `atf::split` returns begins with any non-empty prefix
      of the string in which the delimiter does not start. */
  lemma SplitHead(s: string, d: string, n: nat)
    requires |d| > 0 && 0 < n <= |s|
    requires forall j: nat :: j < n ==> !OccursAt(s, d, j)
    ensures |Split(s, d)| > 0 && n <= |Split(s, d)[0]| && Split(s, d)[0][..n] == s[..n]
  {
    FindSpec(s, d, 0);
    match Find(s, d, 0)
    case None =>
      assert Split(s, d)[0] == s[0..];
    case Some(np) =>
      assert Split(s, d)[0] == s[0..np];
  }

  /** A string that starts with `w` and then the delimiter, with no
      delimiter starting inside `w`, splits into `w` first. */
  lemma SplitFirst(s: string, d: string, w: string)
    requires |d| > 0 && |w| > 0 && w + d <= s
    requires forall j: nat :: j < |w| ==> !OccursAt(s, d, j)
    ensures |Split(s, d)| > 0 && Split(s, d)[0] == w
  {
    assert s[|w|..|w| + |d|] == (w + d)[|w|..];
    FindFirst(s, d, 0, |w|);
    assert s[0..|w|] == w;
  }

  /** No piece returned by `atf::split` contains the delimiter. */
  lemma {:induction false} SplitFree(s: string, d: string, pos: nat)
    requires |d| > 0 && pos <= |s|
    decreases |s| - pos
    ensures forall i :: 0 <= i < |SplitFrom(s, d, pos)| ==> Free(SplitFrom(s, d, pos)[i], d)
  {
    if pos < |s| {
      FindSpec(s, d, pos);
      match Find(s, d, pos)
      case None =>
        SliceFree(s, d, pos, |s|);
        assert s[pos..|s|] == s[pos..];
      case Some(np) =>
        SliceFree(s, d, pos, np);
        SplitFree(s, d, np + |d|);
    }
  }

  /** Joins `ps` with `d` between consecutive elements. */
  function Join(ps: seq<string>, d: string): string
  {
    if |ps| == 0 then []
    else if |ps| == 1 then ps[0]
    else ps[0] + d + Join(ps[1..], d)
  }

  lemma JoinCons(x: string, ps: seq<string>, d: string)
    requires |ps| > 0
    ensures Join([x] + ps, d) == x + d + Join(ps, d)
  {
    assert ([x] + ps)[1..] == ps;
  }

  /** The classic split that keeps empty pieces: the text up to the next
      occurrence of `d`, then the pieces after it. */
  function Pieces(s: string, d: string): (r: seq<string>)
    requires |d| > 0
    ensures |r| > 0
  {
    PiecesFrom(s, d, 0)
  }

  function PiecesFrom(s: string, d: string, pos: nat): (r: seq<string>)
    requires |d| > 0 && pos <= |s|
    decreases |s| - pos
    ensures |r| > 0
  {
    match Find(s, d, pos)
    case None => [s[pos..]]
    case Some(np) => [s[pos..np]] + PiecesFrom(s, d, np + |d|)
  }

  /** No piece of the classic split contains the delimiter. */
  lemma {:induction false} PiecesFree(s: string, d: string, pos: nat)
    requires |d| > 0 && pos <= |s|
    decreases |s| - pos
    ensures forall i :: 0 <= i < |PiecesFrom(s, d, pos)| ==> Free(PiecesFrom(s, d, pos)[i], d)
  {
    FindSpec(s, d, pos);
    match Find(s, d, pos)
    case None =>
      SliceFree(s, d, pos, |s|);
      assert s[pos..|s|] == s[pos..];
    case Some(np) =>
      SliceFree(s, d, pos, np);
      PiecesFree(s, d, np + |d|);
  }

  /** The elements of `ps` that are not empty, in order. */
  function NonEmpty(ps: seq<string>): seq<string>
  {
    if |ps| == 0 then []
    else (if |ps[0]| == 0 then [] else [ps[0]]) + NonEmpty(ps[1..])
  }

  lemma NonEmptyCons(x: string, ps: seq<string>)
    ensures NonEmpty([x] + ps) == (if |x| == 0 then [] else [x]) + NonEmpty(ps)
  {
    assert ([x] + ps)[1..] == ps;
  }

  /** `atf::split` is the classic split with the empty pieces dropped. */
  lemma {:induction false} SplitIsNonEmptyPieces(s: string, d: string, pos: nat)
    requires |d| > 0 && pos <= |s|
    decreases |s| - pos
    ensures SplitFrom(s, d, pos) == NonEmpty(PiecesFrom(s, d, pos))
  {
    match Find(s, d, pos)
    case None =>
      NonEmptyCons(s[pos..], []);
    case Some(np) =>
      SplitIsNonEmptyPieces(s, d, np + |d|);
      NonEmptyCons(s[pos..np], PiecesFrom(s, d, np + |d|));
  }

  lemma Around(s: string, d: string, i: nat, pos: nat)
    requires pos <= i && OccursAt(s, d, i)
    ensures s[pos..] == s[pos..i] + d + s[i + |d|..]
  {
    assert s[pos..] == s[pos..i] + s[i..i + |d|] + s[i + |d|..];
  }

  /** Joining the pieces with the delimiter gives back the string. */
  lemma {:induction false} JoinPieces(s: string, d: string, pos: nat)
    requires |d| > 0 && pos <= |s|
    decreases |s| - pos
    ensures Join(PiecesFrom(s, d, pos), d) == s[pos..]
  {
    FindSpec(s, d, pos);
    match Find(s, d, pos)
    case None =>
    case Some(np) =>
      JoinPieces(s, d, np + |d|);
      JoinCons(s[pos..np], PiecesFrom(s, d, np + |d|), d);
      Around(s, d, np, pos);
  }

  /** Scanning from `pos` is scanning the suffix that starts there. */
  lemma {:induction false} PiecesShift(s: string, d: string, pos: nat, k: nat)
    requires |d| > 0 && pos + k <= |s|
    decreases |s| - pos - k
    ensures PiecesFrom(s, d, pos + k) == PiecesFrom(s[pos..], d, k)
  {
    FindShift(s, d, pos, k);
    match Find(s, d, pos + k)
    case None =>
      assert s[pos..][k..] == s[pos + k..];
    case Some(np) =>
      var t := s[pos..];
      assert t[k..np - pos] == s[pos + k..np];
      assert Find(t, d, k) == Some(np - pos);
      assert PiecesFrom(t, d, k) == [t[k..np - pos]] + PiecesFrom(t, d, np - pos + |d|);
      PiecesShift(s, d, pos, np + |d| - pos);
  }

  /** Splitting a join on a one-character delimiter that none of the parts
      contains gives back the parts. */
  lemma {:induction false} PiecesJoin(ts: seq<string>, d: string)
    requires |d| == 1 && |ts| > 0
    requires forall k :: 0 <= k < |ts| ==> Free(ts[k], d)
    ensures Pieces(Join(ts, d), d) == ts
  {
    var t := ts[0];
    if |ts| == 1 {
      FindSpec(t, d, 0);
      assert Find(t, d, 0).None?;
      assert t[0..] == t;
    } else {
      var rest := Join(ts[1..], d);
      var s := t + d + rest;
      assert Join(ts, d) == s;
      assert s[|t|..|t| + 1] == d;
      forall j: nat | j < |t|
        ensures !OccursAt(s, d, j)
      {
        assert s[j..j + 1] == t[j..j + 1];
        assert !OccursAt(t, d, j);
      }
      FindFirst(s, d, 0, |t|);
      assert s[0..|t|] == t;
      PiecesJoin(ts[1..], d);
      PiecesShift(s, d, |t| + 1, 0);
      assert s[|t| + 1..] == rest;
      assert [t] + ts[1..] == ts;
    }
  }

  lemma {:induction false} NonEmptyKeeps(ps: seq<string>)
    requires forall k :: 0 <= k < |ps| ==> |ps[k]| > 0
    ensures NonEmpty(ps) == ps
  {
    if |ps| > 0 {
      NonEmptyKeeps(ps[1..]);
    }
  }

  /** Splitting a join of non-empty, delimiter-free words on a one-character
      delimiter gives back the words. */
  lemma SplitJoin(ws: seq<string>, d: string)
    requires |d| == 1
    requires forall k :: 0 <= k < |ws| ==> |ws[k]| > 0 && Free(ws[k], d)
    ensures Split(Join(ws, d), d) == ws
  {
    if |ws| > 0 {
      SplitIsNonEmptyPieces(Join(ws, d), d, 0);
      PiecesJoin(ws, d);
      NonEmptyKeeps(ws);
    }
  }

  /** A string is free of a one-character delimiter exactly when it does
      not contain that character. */
  lemma FreeChar(t: string, c: char)
    ensures Free(t, [c]) <==> c !in t
  {
    if c in t {
      var j :| 0 <= j < |t| && t[j] == c;
      assert t[j..j + 1] == [c];
      assert OccursAt(t, [c], j);
    } else {
      forall j | 0 <= j <= |t|
        ensures !OccursAt(t, [c], j)
      {
        if j + 1 <= |t| {
          assert t[j..j + 1][0] == t[j];
        }
      }
    }
  }

  /** Every piece of a split is made of characters of the input. */
  lemma {:induction false} SplitNoChar(s: string, d: string, pos: nat, c: char)
    requires |d| > 0 && pos <= |s| && c !in s
    decreases |s| - pos
    ensures forall i :: 0 <= i < |SplitFrom(s, d, pos)| ==> c !in SplitFrom(s, d, pos)[i]
  {
    if pos < |s| {
      match Find(s, d, pos)
      case None =>
        assert forall t :: 0 <= t < |s[pos..]| ==> s[pos..][t] == s[pos + t];
      case Some(np) =>
        assert forall t :: 0 <= t < |s[pos..np]| ==> s[pos..np][t] == s[pos + t];
        SplitNoChar(s, d, np + |d|, c);
    }
  }

  lemma {:induction false} JoinNoChar(ps: seq<string>, d: string, c: char)
    requires c !in d
    requires forall k :: 0 <= k < |ps| ==> c !in ps[k]
    ensures c !in Join(ps, d)
  {
    if |ps| > 1 {
      JoinNoChar(ps[1..], d, c);
    }
  }

  lemma {:induction false} JoinSnoc(ps: seq<string>, x: string, d: string)
    requires |ps| > 0
    ensures Join(ps + [x], d) == Join(ps, d) + d + x
  {
    if |ps| == 1 {
      assert ps + [x] == [ps[0]] + [x];
    } else {
      assert (ps + [x])[1..] == ps[1..] + [x];
      JoinSnoc(ps[1..], x, d);
    }
  }

  lemma {:induction false} JoinAppend(p: seq<string>, q: seq<string>, d: string)
    requires |p| > 0 && |q| > 0
    ensures Join(p + q, d) == Join(p, d) + d + Join(q, d)
  {
    if |p| == 1 {
      JoinCons(p[0], q, d);
      assert p + q == [p[0]] + q;
    } else {
      assert (p + q)[1..] == p[1..] + q;
      JoinAppend(p[1..], q, d);
    }
  }

  /** Growing the last element of a join grows the join at its end. */
  lemma {:induction false} JoinExtendLast(ps: seq<string>, x: string, y: string, d: string)
    ensures Join(ps + [x + y], d) == Join(ps + [x], d) + y
  {
    if |ps| > 0 {
      JoinSnoc(ps, x + y, d);
      JoinSnoc(ps, x, d);
    }
  }

  /** A join starts with its first element. */
  lemma JoinStarts(ps: seq<string>, d: string)
    requires |ps| > 0
    ensures |ps[0]| <= |Join(ps, d)| && Join(ps, d)[..|ps[0]|] == ps[0]
  {
  }

  /** Splitting on a one-character delimiter distributes over a join with
      that delimiter. */
  lemma PiecesConcat(a: string, b: string, d: string)
    requires |d| == 1
    ensures Pieces(a + d + b, d) == Pieces(a, d) + Pieces(b, d)
  {
    var pa := Pieces(a, d);
    var pb := Pieces(b, d);
    JoinPieces(a, d, 0);
    JoinPieces(b, d, 0);
    assert a[0..] == a && b[0..] == b;
    PiecesFree(a, d, 0);
    PiecesFree(b, d, 0);
    JoinAppend(pa, pb, d);
    PiecesJoin(pa + pb, d);
  }
}
