/**
 Breaking over-long table cells: the pieces of a cell in column j go to columns j, j + w, j + 2w, ...
 of the same row, and get_entire_cell puts them together again.
 */
module LineBreak {
  import opened Basics
  import opened Table

  /** Column of the m-th piece, j + w * m. */
  function Col(j: nat, w: nat, m: nat): nat {
    if m == 0 then j else Col(j, w, m - 1) + w
  }

  lemma {:induction false} ColIsProduct(j: nat, w: nat, m: nat)
    ensures Col(j, w, m) == j + w * m
  {
    if m > 0 {
      ColIsProduct(j, w, m - 1);
      assert w * m == w * (m - 1) + w;
    }
  }

  lemma {:induction false} ColOrder(j: nat, w: nat, m: nat, n: nat)
    requires m < n
    ensures Col(j, w, m) + w <= Col(j, w, n)
    decreases n
  {
    if m < n - 1 {
      ColOrder(j, w, m, n - 1);
    }
  }

  /** Pieces of different columns never meet. */
  lemma {:induction false} ColsApart(j: nat, j': nat, w: nat, m: nat, m': nat)
    requires j < w && j' < w && Col(j, w, m) == Col(j', w, m')
    ensures j == j' && m == m'
  {
    ColShift(j, w, m);
    ColShift(j', w, m');
    if m < m' {
      ColOrder(0, w, m, m');
    } else if m' < m {
      ColOrder(0, w, m', m);
    }
  }

  lemma {:induction false} ColShift(j: nat, w: nat, m: nat)
    ensures Col(j, w, m) == j + Col(0, w, m)
  {
    if m > 0 {
      ColShift(j, w, m - 1);
    }
  }

  function Piece(g: Grid, i: nat, j: nat, w: nat, m: nat): string {
    TextAt(g, i, Col(j, w, m))
  }

  /** The first m pieces, put together. */
  function Pieces(g: Grid, i: nat, j: nat, w: nat, m: nat): string {
    if m == 0 then "" else Pieces(g, i, j, w, m - 1) + Piece(g, i, j, w, m - 1)
  }

  ghost predicate EmptyFrom(g: Grid, i: nat, j: nat, w: nat, n: nat) {
    forall m: nat :: m >= n ==> Piece(g, i, j, w, m) == ""
  }

  /** All the pieces of the cell together are s. */
  ghost predicate Whole(g: Grid, i: nat, j: nat, w: nat, s: string) {
    exists n: nat :: EmptyFrom(g, i, j, w, n) && Pieces(g, i, j, w, n) == s
  }

  lemma {:induction false} PiecesPastEnd(g: Grid, i: nat, j: nat, w: nat, n: nat, m: nat)
    requires n <= m && EmptyFrom(g, i, j, w, n)
    ensures Pieces(g, i, j, w, m) == Pieces(g, i, j, w, n)
    decreases m
  {
    hide Piece;
    if n < m {
      PiecesPastEnd(g, i, j, w, n, m - 1);
      assert Piece(g, i, j, w, m - 1) == "";
    }
  }

  lemma {:induction false} WholeIsUnique(g: Grid, i: nat, j: nat, w: nat, s: string, t: string)
    requires Whole(g, i, j, w, s) && Whole(g, i, j, w, t)
    ensures s == t
  {
    var n: nat :| EmptyFrom(g, i, j, w, n) && Pieces(g, i, j, w, n) == s;
    var m: nat :| EmptyFrom(g, i, j, w, m) && Pieces(g, i, j, w, m) == t;
    if n <= m {
      PiecesPastEnd(g, i, j, w, n, m);
    } else {
      PiecesPastEnd(g, i, j, w, m, n);
    }
  }

  /** Only pieces of the cell (i, j) may differ. */
  ghost predicate SameOff(g: Grid, g': Grid, i: nat, j: nat, w: nat) {
    forall y: nat, x: nat :: y != i || (forall m: nat :: x != Col(j, w, m)) ==> BlockAt(g', y, x) == BlockAt(g, y, x)
  }

  lemma {:induction false} OtherPiecesSame(g: Grid, g': Grid, i: nat, j: nat, w: nat, y: nat, x: nat, m: nat)
    requires SameOff(g, g', i, j, w) && j < w && x < w && (y != i || x != j)
    ensures Piece(g', y, x, w, m) == Piece(g, y, x, w, m)
  {
    var c := Col(x, w, m);
    forall m': nat | y == i
      ensures c != Col(j, w, m')
    {
      if c == Col(j, w, m') {
        ColsApart(x, j, w, m, m');
      }
    }
    assert BlockAt(g', y, c) == BlockAt(g, y, c);
  }

  lemma {:induction false} PiecesSame(g: Grid, g': Grid, i: nat, j: nat, w: nat, y: nat, x: nat, n: nat)
    requires SameOff(g, g', i, j, w) && j < w && x < w && (y != i || x != j)
    ensures Pieces(g', y, x, w, n) == Pieces(g, y, x, w, n)
  {
    hide Piece, SameOff;
    if n > 0 {
      PiecesSame(g, g', i, j, w, y, x, n - 1);
      OtherPiecesSame(g, g', i, j, w, y, x, n - 1);
    }
  }

  lemma {:induction false} OthersKept(g: Grid, g': Grid, i: nat, j: nat, w: nat, y: nat, x: nat, s: string)
    requires SameOff(g, g', i, j, w) && j < w && x < w && (y != i || x != j)
    ensures Whole(g, y, x, w, s) ==> Whole(g', y, x, w, s)
    ensures forall n: nat :: EmptyFrom(g, y, x, w, n) ==> EmptyFrom(g', y, x, w, n)
    ensures TextAt(g', y, x) == TextAt(g, y, x)
  {
    forall n: nat | EmptyFrom(g, y, x, w, n)
      ensures EmptyFrom(g', y, x, w, n)
    {
      forall m: nat | m >= n
        ensures Piece(g', y, x, w, m) == ""
      {
        OtherPiecesSame(g, g', i, j, w, y, x, m);
        assert Piece(g, y, x, w, m) == "";
      }
    }
    if Whole(g, y, x, w, s) {
      var n: nat :| EmptyFrom(g, y, x, w, n) && Pieces(g, y, x, w, n) == s;
      PiecesSame(g, g', i, j, w, y, x, n);
    }
    OtherPiecesSame(g, g', i, j, w, y, x, 0);
  }

  // ---------------------------------------------------------------- breaking one cell

  /**
   The cell holding s has been broken nb times, last at `last`: the finished pieces are s[..last], piece
   nb is the rest, and the block of the cell itself still has the characters past `last`.
   */
  ghost predicate Broken(g: Grid, i: nat, j: nat, w: nat, s: string, last: nat, nb: nat) {
    var f := BlockAt(g, i, j);
    && |s| < |f| && f[|s|] == '\0' && last <= |s|
    && (forall k :: 0 <= k < |s| ==> s[k] != '\0')
    && (nb == 0 <==> last == 0)
    && (forall k :: 0 <= k < |s| && (nb > 0 ==> k > last) ==> f[k] == s[k])
    && Pieces(g, i, j, w, nb) == s[..last] && Piece(g, i, j, w, nb) == s[last..]
    && EmptyFrom(g, i, j, w, nb + 1)
    && (nb > 0 ==> StrLen(f) <= last)
  }

  lemma {:induction false} BrokenIsWhole(g: Grid, i: nat, j: nat, w: nat, s: string, last: nat, nb: nat)
    requires Broken(g, i, j, w, s, last, nb)
    ensures Whole(g, i, j, w, s)
  {
    assert Pieces(g, i, j, w, nb + 1) == s[..last] + s[last..] == s;
  }

  /** The rest of the cell as the code sees it from a break point on. */
  lemma {:induction false} RestOfField(g: Grid, i: nat, j: nat, w: nat, s: string, last: nat, nb: nat, bp: nat)
    requires Broken(g, i, j, w, s, last, nb) && last < bp < |s|
    ensures bp < |BlockAt(g, i, j)| && |BlockAt(g, i, j)| > 1 && CText(BlockAt(g, i, j)[bp..]) == s[bp..]
    ensures forall k :: 0 <= k < |s[bp..]| ==> s[bp..][k] != '\0'
  {
    var f := BlockAt(g, i, j);
    StrLenIs(f[bp..], |s| - bp);
    assert f[bp..][..|s| - bp] == s[bp..];
  }

  lemma {:induction false} PiecesAgree(g: Grid, g': Grid, i: nat, j: nat, w: nat, n: nat)
    requires forall m: nat :: m < n ==> Piece(g', i, j, w, m) == Piece(g, i, j, w, m)
    ensures Pieces(g', i, j, w, n) == Pieces(g, i, j, w, n)
  {
    hide Piece;
    if n > 0 {
      PiecesAgree(g, g', i, j, w, n - 1);
    }
  }

  ghost predicate FirstWrites(g: Grid, g1: Grid, g2: Grid, i: nat, j: nat, w: nat, s: string, nb: nat, bp: nat)
    requires bp <= |s|
  {
    && SameElsewhere(g, g1, i, Col(j, w, nb + 1)) && Piece(g1, i, j, w, nb + 1) == s[bp..]
    && SameElsewhere(g1, g2, i, j) && bp < |BlockAt(g1, i, j)| && BlockAt(g2, i, j) == BlockAt(g1, i, j)[bp := '\0']
  }

  /** What the three writes of a break do: the new piece, the cut in the cell, the cut in the previous piece. */
  ghost predicate BreakWrites(g: Grid, g1: Grid, g2: Grid, g3: Grid, i: nat, j: nat, w: nat, s: string, last: nat, nb: nat, bp: nat)
    requires last < bp <= |s|
  {
    && FirstWrites(g, g1, g2, i, j, w, s, nb, bp)
    && (if nb == 0 then g3 == g2
        else && SameElsewhere(g2, g3, i, Col(j, w, nb))
             && bp - last <= |Piece(g2, i, j, w, nb)|
             && Piece(g3, i, j, w, nb) == Piece(g2, i, j, w, nb)[..bp - last])
  }

  lemma OnlyWrites(g: Grid, g1: Grid, g2: Grid, i: nat, j: nat, w: nat, s: string, last: nat, nb: nat, bp: nat)
    requires last < bp <= |s| && nb == 0 && FirstWrites(g, g1, g2, i, j, w, s, nb, bp)
    ensures BreakWrites(g, g1, g2, g2, i, j, w, s, last, nb, bp)
  {
  }

  lemma LaterWrites(g: Grid, g1: Grid, g2: Grid, g3: Grid, i: nat, j: nat, w: nat, s: string, last: nat, nb: nat, bp: nat)
    requires last < bp <= |s| && nb > 0 && FirstWrites(g, g1, g2, i, j, w, s, nb, bp)
    requires SameElsewhere(g2, g3, i, Col(j, w, nb)) && bp - last <= |Piece(g2, i, j, w, nb)|
    requires Piece(g3, i, j, w, nb) == Piece(g2, i, j, w, nb)[..bp - last]
    ensures BreakWrites(g, g1, g2, g3, i, j, w, s, last, nb, bp)
  {
  }

  lemma {:induction false} PieceElsewhere(g: Grid, g': Grid, i: nat, j: nat, w: nat, m: nat, n: nat)
    requires w > 0 && m != n && SameElsewhere(g, g', i, Col(j, w, n))
    ensures BlockAt(g', i, Col(j, w, m)) == BlockAt(g, i, Col(j, w, m)) && Piece(g', i, j, w, m) == Piece(g, i, j, w, m)
  {
    ColsDistinct(j, w, m, n);
  }

  /** What a break needs to know of the cell before it. */
  ghost predicate Breakable(g: Grid, i: nat, j: nat, w: nat, s: string, last: nat, nb: nat, bp: nat) {
    && last < bp < |s| && w > 0 && (nb == 0 <==> last == 0)
    && Piece(g, i, j, w, nb) == s[last..]
    && StrLen(BlockAt(g, i, j)) < |BlockAt(g, i, j)| && (nb > 0 ==> StrLen(BlockAt(g, i, j)) <= last)
  }

  lemma {:induction false} BreakField(g: Grid, g1: Grid, g2: Grid, g3: Grid, i: nat, j: nat, w: nat, s: string, last: nat, nb: nat, bp: nat)
    requires last < bp <= |s| && w > 0 && BreakWrites(g, g1, g2, g3, i, j, w, s, last, nb, bp)
    ensures bp < |BlockAt(g, i, j)| && BlockAt(g3, i, j) == BlockAt(g, i, j)[bp := '\0']
  {
    hide Piece, StrLen;
    PieceElsewhere(g, g1, i, j, w, 0, nb + 1);
    if nb > 0 {
      PieceElsewhere(g2, g3, i, j, w, 0, nb);
    }
  }

  /** The first piece is the cell itself, and is cut only by the first break. */
  lemma {:induction false} BreakFirst(g: Grid, g1: Grid, g2: Grid, g3: Grid, i: nat, j: nat, w: nat, s: string, last: nat, nb: nat, bp: nat)
    requires Breakable(g, i, j, w, s, last, nb, bp) && BreakWrites(g, g1, g2, g3, i, j, w, s, last, nb, bp)
    ensures Piece(g3, i, j, w, 0) == if nb == 0 then s[..bp] else Piece(g, i, j, w, 0)
  {
    hide BreakWrites, StrLen, BlockAt;
    BreakField(g, g1, g2, g3, i, j, w, s, last, nb, bp);
    CutText(BlockAt(g, i, j), bp);
    if nb == 0 {
      assert s[last..] == s;
    }
  }

  lemma {:induction false} BreakRest(g: Grid, g1: Grid, g2: Grid, g3: Grid, i: nat, j: nat, w: nat, s: string, last: nat, nb: nat, bp: nat, m: nat)
    requires Breakable(g, i, j, w, s, last, nb, bp) && BreakWrites(g, g1, g2, g3, i, j, w, s, last, nb, bp) && m > 0
    ensures Piece(g3, i, j, w, m) == if m == nb then s[last..bp] else if m == nb + 1 then s[bp..] else Piece(g, i, j, w, m)
  {
    hide SameElsewhere, BlockAt, StrLen, Piece;
    assert Col(j, w, 0) == j;
    PieceElsewhere(g1, g2, i, j, w, m, 0);
    if m != nb + 1 {
      PieceElsewhere(g, g1, i, j, w, m, nb + 1);
    }
    if m != nb && nb > 0 {
      PieceElsewhere(g2, g3, i, j, w, m, nb);
    }
    if m == nb {
      assert s[last..][..bp - last] == s[last..bp];
    }
  }

  /** After a break every piece but the last two is as before. */
  lemma {:induction false} BreakPieces(g: Grid, g1: Grid, g2: Grid, g3: Grid, i: nat, j: nat, w: nat, s: string, last: nat, nb: nat, bp: nat, m: nat)
    requires Breakable(g, i, j, w, s, last, nb, bp) && BreakWrites(g, g1, g2, g3, i, j, w, s, last, nb, bp)
    ensures Piece(g3, i, j, w, m) == if m == nb then s[last..bp] else if m == nb + 1 then s[bp..] else Piece(g, i, j, w, m)
  {
    hide BreakWrites, Piece, StrLen;
    if m == 0 {
      BreakFirst(g, g1, g2, g3, i, j, w, s, last, nb, bp);
      assert nb == 0 ==> s[last..bp] == s[..bp];
    } else {
      BreakRest(g, g1, g2, g3, i, j, w, s, last, nb, bp, m);
    }
  }

  lemma {:induction false} ColsDistinct(j: nat, w: nat, m: nat, n: nat)
    requires w > 0
    ensures Col(j, w, m) == Col(j, w, n) <==> m == n
  {
    if m < n {
      ColOrder(j, w, m, n);
    } else if n < m {
      ColOrder(j, w, n, m);
    }
  }

  /** The block of the cell keeps every character past the new break. */
  lemma {:induction false} FieldAfter(f: Block, s: string, last: nat, nb: nat, bp: nat)
    requires last < bp < |s| < |f| && f[|s|] == '\0'
    requires forall k :: 0 <= k < |s| && (nb > 0 ==> k > last) ==> f[k] == s[k]
    ensures var f' := f[bp := '\0'];
            f'[|s|] == '\0' && StrLen(f') <= bp && forall k :: bp < k < |s| ==> f'[k] == s[k]
  {
    assert f[bp := '\0'][bp] == '\0';
  }

  lemma {:induction false} BreakStep(g: Grid, g1: Grid, g2: Grid, g3: Grid, i: nat, j: nat, w: nat, s: string, last: nat, nb: nat, bp: nat)
    requires Broken(g, i, j, w, s, last, nb) && last < bp < |s| && w > 0
    requires BreakWrites(g, g1, g2, g3, i, j, w, s, last, nb, bp)
    ensures Broken(g3, i, j, w, s, bp, nb + 1) && Split(g, g3, i, j, w, s, last, nb, bp)
  {
    hide BreakWrites, Piece, BlockAt, StrLen;
    assert Breakable(g, i, j, w, s, last, nb, bp);
    forall m: nat
      ensures Piece(g3, i, j, w, m) == if m == nb then s[last..bp] else if m == nb + 1 then s[bp..] else Piece(g, i, j, w, m)
    {
      BreakPieces(g, g1, g2, g3, i, j, w, s, last, nb, bp, m);
    }
    BreakField(g, g1, g2, g3, i, j, w, s, last, nb, bp);
    FieldAfter(BlockAt(g, i, j), s, last, nb, bp);
    PiecesAgree(g, g3, i, j, w, nb);
    assert Pieces(g3, i, j, w, nb + 1) == s[..last] + s[last..bp] == s[..bp];
    assert EmptyFrom(g3, i, j, w, nb + 2) by {
      forall m: nat | m >= nb + 2
        ensures Piece(g3, i, j, w, m) == ""
      {
        assert Piece(g, i, j, w, m) == "";
      }
    }
  }

  // ---------------------------------------------------------------- where a cell is broken

  /** Lines are broken before one of these. */
  predicate Breaker(c: char) {
    c == '/' || c == ' ' || c == '-'
  }

  /** Not wider than the column, or without a place to break. */
  predicate Narrow(p: string, width: int) {
    |p| <= width || forall k :: 0 < k < |p| ==> !Breaker(p[k])
  }

  /**
   The cell is broken as it should be: every piece is narrow, every piece but the first begins where a line may
   be broken, and no two neighbours would fit into the column together.
   */
  ghost predicate Fitted(g: Grid, i: nat, j: nat, w: nat, width: int) {
    forall m: nat ::
      && Narrow(Piece(g, i, j, w, m), width)
      && (m > 0 && Piece(g, i, j, w, m) != "" ==> Joint(Piece(g, i, j, w, m - 1), Piece(g, i, j, w, m), width))
  }

  predicate Joint(p: string, q: string, width: int) {
    p != "" && q != "" && Breaker(q[0]) && |p| + |q| > width
  }

  /** Wherever the piece that starts at `last` will end, it does not fit beside one of `before` characters. */
  predicate Reaches(s: string, before: nat, last: nat, width: int) {
    && last < |s| && Breaker(s[last]) && before > 0 && before + |s| - last > width
    && forall x :: last < x < |s| && Breaker(s[x]) ==> before + x - last > width
  }

  /** The same of the finished pieces. */
  ghost predicate FittedSoFar(g: Grid, i: nat, j: nat, w: nat, width: int, s: string, last: nat, nb: nat) {
    && (forall m: nat :: m < nb ==> Narrow(Piece(g, i, j, w, m), width))
    && (forall m: nat :: 0 < m < nb ==> Joint(Piece(g, i, j, w, m - 1), Piece(g, i, j, w, m), width))
    && (nb > 0 ==> Reaches(s, |Piece(g, i, j, w, nb - 1)|, last, width))
  }

  /** The characters before k have been looked at, and no break is due. */
  predicate Scanned(s: string, last: nat, bp: nat, k: nat, width: int) {
    && last <= k <= |s| && (k - last <= width || forall x :: last < x < k ==> !Breaker(s[x]))
    && (bp > last ==> bp < k && Breaker(s[bp])) && (forall x :: last < x < k && Breaker(s[x]) ==> x <= bp)
  }

  /** So has character k, but a break may be due. */
  predicate Looked(s: string, last: nat, bp: nat, k: nat, width: int) {
    && last <= k < |s| && bp <= k && (k - last <= width || forall x :: last < x < k ==> !Breaker(s[x]))
    && (bp > last ==> Breaker(s[bp])) && (forall x :: last < x <= k && Breaker(s[x]) ==> x <= bp)
  }

  lemma ScanStarts(s: string, width: int)
    ensures Scanned(s, 0, 0, 0, width)
  {
  }

  lemma LookAt(s: string, last: nat, bp: nat, k: nat, width: int)
    requires Scanned(s, last, bp, k, width) && k < |s| && bp <= k
    ensures Looked(s, last, if Breaker(s[k]) then k else bp, k, width)
  {
  }

  lemma NoBreakDue(s: string, last: nat, bp: nat, k: nat, width: int)
    requires Looked(s, last, bp, k, width) && !(k - last >= width && bp > last)
    ensures Scanned(s, last, bp, k + 1, width)
  {
  }

  lemma BreakDue(s: string, last: nat, bp: nat, k: nat, width: int)
    requires Looked(s, last, bp, k, width) && k - last >= width && bp > last
    ensures Narrow(s[last..bp], width) && Reaches(s, bp - last, bp, width) && Scanned(s, bp, bp, k + 1, width)
  {
    var p := s[last..bp];
    if |p| > width {
      assert bp == k;
      forall x | 0 < x < |p|
        ensures !Breaker(p[x])
      {
        assert p[x] == s[last + x];
      }
    }
  }

  /** What a break does to the pieces: piece nb is cut, piece nb + 1 is the rest. */
  ghost predicate Split(g: Grid, g': Grid, i: nat, j: nat, w: nat, s: string, last: nat, nb: nat, bp: nat)
    requires last <= bp <= |s|
  {
    forall m: nat ::
      Piece(g', i, j, w, m) == if m == nb then s[last..bp] else if m == nb + 1 then s[bp..] else Piece(g, i, j, w, m)
  }

  lemma {:induction false} FittedStep(g: Grid, g': Grid, i: nat, j: nat, w: nat, width: int, s: string, last: nat, nb: nat, bp: nat)
    requires FittedSoFar(g, i, j, w, width, s, last, nb) && last < bp < |s| && Split(g, g', i, j, w, s, last, nb, bp)
    requires Narrow(s[last..bp], width) && Reaches(s, bp - last, bp, width)
    ensures FittedSoFar(g', i, j, w, width, s, bp, nb + 1)
  {
    hide Piece, Narrow;
    assert Piece(g', i, j, w, nb) == s[last..bp];
    forall m: nat | m < nb
      ensures Piece(g', i, j, w, m) == Piece(g, i, j, w, m)
    {
    }
    forall m: nat | 0 < m < nb + 1
      ensures Joint(Piece(g', i, j, w, m - 1), Piece(g', i, j, w, m), width)
    {
      assert Piece(g', i, j, w, m - 1) == Piece(g, i, j, w, m - 1);
      if m < nb {
        assert Piece(g', i, j, w, m) == Piece(g, i, j, w, m);
      } else {
        assert s[last..bp][0] == s[last];
      }
    }
  }

  lemma {:induction false} FittedAtEnd(g: Grid, i: nat, j: nat, w: nat, width: int, s: string, last: nat, nb: nat, bp: nat)
    requires Broken(g, i, j, w, s, last, nb) && FittedSoFar(g, i, j, w, width, s, last, nb)
    requires Scanned(s, last, bp, |s|, width)
    ensures Fitted(g, i, j, w, width)
  {
    LastIsNarrow(s, last, bp, width);
    assert Piece(g, i, j, w, nb) == s[last..];
    assert EmptyFrom(g, i, j, w, nb + 1);
    hide Piece, Broken, Narrow;
    forall m: nat
      ensures Narrow(Piece(g, i, j, w, m), width)
      ensures m > 0 && Piece(g, i, j, w, m) != "" ==> Joint(Piece(g, i, j, w, m - 1), Piece(g, i, j, w, m), width)
    {
      if m > nb {
        EmptyIsNarrow(width);
      } else if m == nb > 0 {
        assert s[last..][0] == s[last];
      }
    }
  }

  lemma EmptyIsNarrow(width: int)
    ensures Narrow("", width)
  {
  }

  lemma LastIsNarrow(s: string, last: nat, bp: nat, width: int)
    requires Scanned(s, last, bp, |s|, width)
    ensures Narrow(s[last..], width)
  {
    var p := s[last..];
    assert forall x :: 0 < x < |p| ==> p[x] == s[last + x];
  }

  lemma {:induction false} FittedKept(g: Grid, g': Grid, i: nat, j: nat, w: nat, y: nat, x: nat, width: int)
    requires SameOff(g, g', i, j, w) && j < w && x < w && (y != i || x != j) && Fitted(g, y, x, w, width)
    ensures Fitted(g', y, x, w, width)
  {
    hide Piece, SameOff, Narrow, Joint;
    forall m: nat
      ensures Piece(g', y, x, w, m) == Piece(g, y, x, w, m)
    {
      OtherPiecesSame(g, g', i, j, w, y, x, m);
    }
  }

  // ---------------------------------------------------------------- the view

  lemma {:induction false} SameOffStep(g: Grid, g': Grid, g'': Grid, i: nat, j: nat, w: nat, m: nat)
    requires SameOff(g, g', i, j, w) && SameElsewhere(g', g'', i, Col(j, w, m))
    ensures SameOff(g, g'', i, j, w)
  {
  }

  class TextView {
    const t: Table
    /** Width of each original column. */
    var colW: seq<int>
    const numCols: nat

    constructor (t: Table, numCols: nat)
      requires numCols > 0
      ensures this.t == t && this.numCols == numCols && |colW| == numCols
    {
      this.t, this.numCols := t, numCols;
      colW := seq(numCols, _ => 0);
    }

    /** j + w * m */
    method ColumnOf(j: nat, m: nat) returns (c: nat)
      ensures c == Col(j, numCols, m)
    {
      ColIsProduct(j, numCols, m);
      c := j + numCols * m;
    }

    /** table_set of piece m, which is not empty and not too long. */
    method PutPiece(i: nat, j: nat, m: nat, text: string) returns (failed: bool)
      requires t.Valid() && 0 < |text| < MAX_STR_LEN && i < t.height && forall k :: 0 <= k < |text| ==> text[k] != '\0'
      modifies t
      ensures t.Valid() && !failed && t.height == old(t.height) && t.width >= old(t.width)
      ensures SameElsewhere(old(t.r), t.r, i, Col(j, numCols, m)) && Piece(t.r, i, j, numCols, m) == text
    {
      hide Within, BlocksOk, BlockAt;
      var c := ColumnOf(j, m);
      failed := t.Set(i, c, text);
    }

    /** A NUL into piece m. */
    method CutPiece(i: nat, j: nat, m: nat, k: nat)
      requires t.Valid() && k < |BlockAt(t.r, i, Col(j, numCols, m))| && |BlockAt(t.r, i, Col(j, numCols, m))| > 1
      modifies t`r
      ensures t.Valid()
      ensures var c := Col(j, numCols, m);
              SameElsewhere(old(t.r), t.r, i, c) && BlockAt(t.r, i, c) == BlockAt(old(t.r), i, c)[k := '\0']
      ensures k <= |Piece(old(t.r), i, j, numCols, m)| ==>
                Piece(t.r, i, j, numCols, m) == Piece(old(t.r), i, j, numCols, m)[..k]
    {
      hide Within, BlocksOk, BlockAt;
      var c := ColumnOf(j, m);
      t.Cut(i, c, k);
    }

    /** The rest of the field becomes a new piece. */
    method PutRest(i: nat, j: nat, ghost last: nat, nb: nat, bp: nat, ghost s: string) returns (failed: bool)
      requires t.Valid() && j < numCols && |s| < MAX_STR_LEN && i < t.height
      requires Broken(t.r, i, j, numCols, s, last, nb) && last < bp < |s|
      modifies t
      ensures t.Valid() && !failed && t.height == old(t.height) && t.width >= old(t.width)
      ensures SameElsewhere(old(t.r), t.r, i, Col(j, numCols, nb + 1)) && Piece(t.r, i, j, numCols, nb + 1) == s[bp..]
      ensures bp < |BlockAt(t.r, i, j)|
    {
      hide Broken, BlockAt, Piece, StrLen, CText, SameElsewhere, Within, BlocksOk;
      ghost var g := t.r;
      RestOfField(g, i, j, numCols, s, last, nb, bp);
      var rest := CText(BlockAt(t.r, i, j)[bp..]);
      failed := PutPiece(i, j, nb + 1, rest);
      FieldKept(g, t.r, i, j, numCols, nb + 1);
    }

    /** ... and the field is cut. */
    method SplitField(i: nat, j: nat, ghost last: nat, nb: nat, bp: nat, ghost s: string) returns (failed: bool, ghost g1: Grid)
      requires t.Valid() && j < numCols && |s| < MAX_STR_LEN && i < t.height
      requires Broken(t.r, i, j, numCols, s, last, nb) && last < bp < |s|
      modifies t
      ensures t.Valid() && !failed && t.height == old(t.height) && t.width >= old(t.width)
      ensures FirstWrites(old(t.r), g1, t.r, i, j, numCols, s, nb, bp) && SameOff(old(t.r), t.r, i, j, numCols)
    {
      hide Broken, BlockAt, Piece, SameOff, SameElsewhere, Within, BlocksOk, FirstWrites;
      ghost var g := t.r;
      failed := PutRest(i, j, last, nb, bp, s);
      g1 := t.r;
      t.Cut(i, j, bp);
      SameOffTwice(g, g1, t.r, i, j, numCols, nb + 1);
      FirstWritesHold(g, g1, t.r, i, j, numCols, s, nb, bp);
    }

    /** The previous piece ends where the new one begins. */
    method TrimPrevious(i: nat, j: nat, last: nat, nb: nat, bp: nat, ghost g: Grid, ghost g1: Grid, ghost s: string)
      requires t.Valid() && numCols > 0 && 0 < nb && last < bp < |s| && Piece(g, i, j, numCols, nb) == s[last..]
      requires FirstWrites(g, g1, t.r, i, j, numCols, s, nb, bp)
      modifies t`r
      ensures t.Valid() && SameElsewhere(old(t.r), t.r, i, Col(j, numCols, nb))
      ensures bp - last <= |Piece(old(t.r), i, j, numCols, nb)|
      ensures Piece(t.r, i, j, numCols, nb) == Piece(old(t.r), i, j, numCols, nb)[..bp - last]
    {
      LaterPieceKept(g, g1, t.r, i, j, numCols, s, nb, bp, nb);
      PieceInBlock(t.r, i, j, numCols, nb);
      hide BlockAt, Piece, SameElsewhere, Within, BlocksOk, FirstWrites;
      CutPiece(i, j, nb, bp - last);
    }

    /** The writes of one break: the previous piece, if there is one, is cut as well. */
    method WriteBreak(i: nat, j: nat, last: nat, nb: nat, bp: nat, ghost s: string)
      returns (failed: bool, ghost g1: Grid, ghost g2: Grid)
      requires t.Valid() && j < numCols && |s| < MAX_STR_LEN && i < t.height
      requires Broken(t.r, i, j, numCols, s, last, nb) && last < bp < |s|
      modifies t
      ensures t.Valid() && !failed && t.height == old(t.height) && t.width >= old(t.width)
      ensures BreakWrites(old(t.r), g1, g2, t.r, i, j, numCols, s, last, nb, bp) && SameOff(old(t.r), t.r, i, j, numCols)
    {
      ghost var g := t.r;
      BrokenFacts(g, i, j, numCols, s, last, nb);
      hide Broken, BlockAt, Piece, StrLen, SameOff, SameElsewhere, Within, BlocksOk, FirstWrites, Col, TextAt, CText, BreakWrites;
      failed, g1 := SplitField(i, j, last, nb, bp, s);
      g2 := t.r;
      if last != 0 {
        TrimPrevious(i, j, last, nb, bp, g, g1, s);
        SameOffStep(g, g2, t.r, i, j, numCols, nb);
        LaterWrites(g, g1, g2, t.r, i, j, numCols, s, last, nb, bp);
      } else {
        OnlyWrites(g, g1, g2, i, j, numCols, s, last, nb, bp);
      }
    }

    /** One break. */
    method BreakAt(i: nat, j: nat, last: nat, nb: nat, bp: nat, ghost s: string) returns (failed: bool)
      requires t.Valid() && j < numCols && |s| < MAX_STR_LEN && i < t.height
      requires Broken(t.r, i, j, numCols, s, last, nb) && last < bp < |s|
      modifies t
      ensures t.Valid() && !failed && t.height == old(t.height) && t.width >= old(t.width)
      ensures Broken(t.r, i, j, numCols, s, bp, nb + 1) && SameOff(old(t.r), t.r, i, j, numCols)
      ensures Split(old(t.r), t.r, i, j, numCols, s, last, nb, bp)
    {
      hide Split, Broken, SameOff, Within, BlocksOk, BreakWrites;
      ghost var g, g1, g2 := t.r, t.r, t.r;
      failed, g1, g2 := WriteBreak(i, j, last, nb, bp, s);
      BreakStep(g, g1, g2, t.r, i, j, numCols, s, last, nb, bp);
    }

    /** Breaking the cell (i, j), which held s in the grid g, has come as far as `last`. */
    ghost predicate Underway(g: Grid, h: nat, w: nat, i: nat, j: nat, s: string, last: nat, nb: nat)
      reads this, t
    {
      && t.Valid() && i < t.height == h && t.width >= w && |s| < MAX_STR_LEN
      && Broken(t.r, i, j, numCols, s, last, nb) && SameOff(g, t.r, i, j, numCols)
      && j < |colW| && FittedSoFar(t.r, i, j, numCols, colW[j], s, last, nb)
    }

    /** The body of the loop over the characters once a break point is known. */
    method MaybeBreak(i: nat, j: nat, k: nat, last: nat, nb: nat, bp: nat,
                      ghost g: Grid, ghost h: nat, ghost w: nat, ghost s: string) returns (failed: bool, last': nat, nb': nat)
      requires Underway(g, h, w, i, j, s, last, nb) && j < numCols == |colW| && Looked(s, last, bp, k, colW[j])
      modifies t
      ensures !failed && Underway(g, h, w, i, j, s, last', nb') && Scanned(s, last', bp, k + 1, colW[j])
      ensures nb' > 0 ==> last' <= k
    {
      hide Broken, SameOff, FittedSoFar, Reaches, Scanned, Split, Narrow;
      failed, last', nb' := false, last, nb;
      if k - last >= colW[j] && bp > last {
        ghost var before := t.r;
        BreakDue(s, last, bp, k, colW[j]);
        failed := BreakAt(i, j, last, nb, bp, s);
        SameOffJoin(g, before, t.r, i, j, numCols);
        FittedStep(before, t.r, i, j, numCols, colW[j], s, last, nb, bp);
        last', nb' := bp, nb + 1;
      } else {
        NoBreakDue(s, last, bp, k, colW[j]);
      }
    }

    /** Breaks the cell wherever a piece would be wider than its column and there is a place to break. */
    method BreakCell(i: nat, j: nat) returns (failed: bool)
      requires t.Valid() && i < t.height && j < numCols == |colW| && EmptyFrom(t.r, i, j, numCols, 1)
      modifies t
      ensures t.Valid() && !failed && t.height == old(t.height) && t.width >= old(t.width)
      ensures Whole(t.r, i, j, numCols, old(t.Text(i, j))) && SameOff(old(t.r), t.r, i, j, numCols)
      ensures Fitted(t.r, i, j, numCols, colW[j])
    {
      ghost var g, h, w, s := t.r, t.height, t.width, t.Text(i, j);
      StartsUnbroken(g, i, j, numCols);
      failed := false;
      var strlenF := StrLen(BlockAt(t.r, i, j));
      var last: nat, nb: nat, breakpoint: nat := 0, 0, 0;
      assert Underway(g, h, w, i, j, s, last, nb);
      ScanStarts(s, colW[j]);
      hide BlockAt, Broken, SameOff, EmptyFrom, Whole, StrLen, Underway, Scanned, Looked, Fitted;
      var k := 0;
      while k != strlenF
        invariant 0 <= k <= strlenF == |s| && breakpoint <= k && !failed && (nb > 0 ==> last < k)
        invariant Underway(g, h, w, i, j, s, last, nb) && Scanned(s, last, breakpoint, k, colW[j])
        decreases strlenF - k
      {
        LookAt(s, last, breakpoint, k, colW[j]);
        var c := Peek(i, j, k, g, h, w, s, last, nb);
        if c == '/' || c == ' ' || c == '-' {
          breakpoint := k;
        }
        failed, last, nb := MaybeBreak(i, j, k, last, nb, breakpoint, g, h, w, s);
        if failed {
          return;
        }
        k := k + 1;
      }
      Finished(g, h, w, i, j, s, last, nb, breakpoint);
    }

    /** field[k] */
    method Peek(i: nat, j: nat, k: nat, ghost g: Grid, ghost h: nat, ghost w: nat, ghost s: string, ghost last: nat, ghost nb: nat)
      returns (c: char)
      requires Underway(g, h, w, i, j, s, last, nb) && k < |s|
      ensures k > last || nb == 0 ==> c == s[k]
    {
      c := BlockAt(t.r, i, j)[k];
    }

    lemma Finished(g: Grid, h: nat, w: nat, i: nat, j: nat, s: string, last: nat, nb: nat, bp: nat)
      requires Underway(g, h, w, i, j, s, last, nb) && Scanned(s, last, bp, |s|, colW[j])
      ensures t.Valid() && t.height == h && t.width >= w
      ensures Whole(t.r, i, j, numCols, s) && SameOff(g, t.r, i, j, numCols) && Fitted(t.r, i, j, numCols, colW[j])
    {
      hide Broken, FittedSoFar, Whole, Fitted, SameOff;
      BrokenIsWhole(t.r, i, j, numCols, s, last, nb);
      FittedAtEnd(t.r, i, j, numCols, colW[j], s, last, nb, bp);
    }

    /** The line-breaking loop over the columns of a row. */
    method BreakRow(i: nat, ghost orig: Grid) returns (failed: bool)
      requires t.Valid() && 0 < numCols == |colW| && i < t.height && Swept(t.r, orig, t.height, colW, i, 0)
      modifies t
      ensures t.Valid() && !failed && t.height == old(t.height) && t.width >= old(t.width)
      ensures Swept(t.r, orig, t.height, colW, i, numCols)
    {
      hide Swept, Whole, SameOff, EmptyFrom, Within, BlocksOk, Fitted;
      failed := false;
      var j := 0;
      while j != numCols
        invariant 0 <= j <= numCols && t.height == old(t.height) && t.width >= old(t.width) && t.Valid() && !failed
        invariant Swept(t.r, orig, t.height, colW, i, j)
        decreases numCols - j
      {
        ghost var g := t.r;
        NextToBreak(g, orig, t.height, colW, i, j);
        failed := BreakCell(i, j);
        if failed {
          return;
        }
        SweepOne(g, t.r, orig, t.height, colW, i, j);
        j := j + 1;
      }
    }

    /** The line-breaking loops: row by row, column by column. */
    method BreakAll() returns (failed: bool)
      requires t.Valid() && 0 < numCols == |colW| && t.width <= numCols
      modifies t
      ensures t.Valid() && !failed && t.height == old(t.height) && t.width >= old(t.width)
      ensures Swept(t.r, old(t.r), t.height, colW, t.height, 0)
    {
      ghost var orig := t.r;
      SweepStarts(orig, t.height, t.width, colW);
      hide Swept, Within, BlocksOk;
      failed := false;
      var i := 0;
      while i != t.height
        invariant 0 <= i <= t.height == old(t.height) && t.width >= old(t.width) && t.Valid() && !failed
        invariant Swept(t.r, orig, t.height, colW, i, 0)
        decreases t.height - i
      {
        failed := BreakRow(i, orig);
        if failed {
          return;
        }
        RowSwept(t.r, orig, t.height, colW, i);
        i := i + 1;
      }
    }

    /** Above-average columns share the excess evenly; if there are any, the total width shrinks by exactly the excess. */
    method ReduceWidths(excess: nat, avgWidth: int)
      modifies this`colW
      ensures Reduced(old(colW), colW, excess, avgWidth)
    {
      var above := CountAbove(avgWidth);
      var excessWidth := excess;
      ghost var was := colW;
      SharingStarts(was, excess, avgWidth);
      hide Sharing;
      for i := 0 to |colW|
        invariant |colW| == |was| && 0 <= above && 0 <= excessWidth
        invariant Sharing(was, colW, i, excess, excessWidth, above, avgWidth)
      {
        SharingNext(was, colW, i, excess, excessWidth, above, avgWidth);
        if colW[i] > avgWidth {
          var reduceBy := Part(excessWidth, above);
          colW := colW[i := colW[i] - reduceBy];
          above := above - 1;
          excessWidth := excessWidth - reduceBy;
        }
      }
      SharingEnds(was, colW, excess, excessWidth, above, avgWidth);
    }

    method CountAbove(avgWidth: int) returns (above: nat)
      ensures above == Above(colW, avgWidth)
    {
      above := 0;
      for i := 0 to |colW|
        invariant above == Above(colW[..i], avgWidth)
      {
        AboveSnoc(colW, i, avgWidth);
        if colW[i] > avgWidth {
          above := above + 1;
        }
      }
      assert colW[..|colW|] == colW;
    }

    /** adjust_column_widths, given the screen width and the margins; `reduced` are the widths at which cells are broken. */
    method AdjustColumnWidths(screenWidth: int, marginsWidth: int) returns (failed: bool, ghost reduced: seq<int>)
      requires t.Valid() && 0 < numCols == |colW| && t.width == numCols
      modifies this`colW, t
      ensures t.Valid() && !failed && t.height == old(t.height)
      ensures forall i: nat, j: nat :: i < t.height && j < numCols ==> TextKept(t.r, old(t.r), numCols, i, j)
      ensures var excess := old(Sum(colW)) + marginsWidth - screenWidth;
              if screenWidth < 0 || excess <= 0
              then colW == old(colW) && t.r == old(t.r) && t.width == old(t.width)
              else
                && |reduced| == numCols && (old(Sum(colW)) >= 0 ==> Reduced(old(colW), reduced, excess, old(Sum(colW)) / numCols))
                && (forall i: nat, j: nat :: i < t.height && j < numCols ==> Fitted(t.r, i, j, numCols, reduced[j]))
                && (exists q: nat :: t.width == Off(q, numCols))
                && |colW| == t.width && forall c :: 0 <= c < |colW| ==> Widest(t.r, t.width, numCols, t.height, 0, c, colW[c])
    {
      hide Fitted, TextKept, Swept;
      ghost var orig, h := t.r, t.height;
      reduced := colW;
      UnbrokenIsWhole(orig, h, t.width, colW);
      if screenWidth < 0 {
        return false, reduced;
      }
      var tableWidth := TotalWidth();
      if tableWidth + marginsWidth <= screenWidth {
        return false, reduced;
      }
      ReduceWidths(tableWidth + marginsWidth - screenWidth, TruncDiv(tableWidth, numCols));
      reduced := colW;
      failed := BreakAll();
      SweptIsWhole(t.r, orig, h, colW);
      RoundedUp(t.width, numCols);
      OffIsProduct((t.width + numCols - 1) / numCols, numCols);
      t.SetWidth((t.width + numCols - 1) / numCols * numCols);
      SetColumnWidths();
    }

    /** set_column_widths: each column is as wide as the widest piece shown in it. */
    method SetColumnWidths()
      requires t.Valid() && numCols > 0
      modifies this`colW
      ensures |colW| == t.width && forall c :: 0 <= c < |colW| ==> Widest(t.r, t.width, numCols, t.height, 0, c, colW[c])
    {
      hide Widest;
      var w, h := t.width, t.height;
      colW := seq(w, _ => 0);
      NothingSeen(t.r, w, numCols);
      for i := 0 to h
        invariant |colW| == w && forall c :: 0 <= c < w ==> Widest(t.r, w, numCols, i, 0, c, colW[c])
      {
        for j := 0 to w
          invariant |colW| == w && forall c :: 0 <= c < w ==> Widest(t.r, w, numCols, i, j, c, colW[c])
        {
          var c, len := Residue(j, numCols), Shown(TextAt(t.r, i, j));
          WidestNext(t.r, w, numCols, i, j, colW);
          colW := colW[c := if colW[c] < len then len else colW[c]];
        }
        forall c | 0 <= c < w
          ensures Widest(t.r, w, numCols, i + 1, 0, c, colW[c])
        {
          RowDone(t.r, w, numCols, i, c, colW[c]);
        }
      }
    }

    method TotalWidth() returns (total: int)
      ensures total == Sum(colW)
    {
      total := 0;
      for i := 0 to |colW|
        invariant total == Sum(colW[..i])
      {
        assert colW[..i + 1][..i] == colW[..i];
        total := total + colW[i];
      }
      assert colW[..|colW|] == colW;
    }

    /** get_entire_cell */
    method EntireCell(i: nat, j: nat) returns (cell: string)
      requires t.Valid() && i < t.height && numCols > 0
      ensures Whole(t.r, i, j % numCols, numCols, cell)
    {
      cell := "";
      var k := j % numCols;
      ghost var m: nat := 0;
      while k < t.width
        invariant k == Col(j % numCols, numCols, m) && cell == Pieces(t.r, i, j % numCols, numCols, m)
        decreases t.width - k
      {
        cell := cell + TextAt(t.r, i, k);
        k := k + numCols;
        m := m + 1;
      }
      NothingPastWidth(t.r, i, j % numCols, numCols, m, t.height, t.width);
    }
  }

  lemma {:induction false} FieldKept(g: Grid, g1: Grid, i: nat, j: nat, w: nat, n: nat)
    requires w > 0 && n > 0 && SameElsewhere(g, g1, i, Col(j, w, n))
    ensures Col(j, w, 0) == j && BlockAt(g1, i, j) == BlockAt(g, i, j)
  {
    ColsDistinct(j, w, 0, n);
  }

  lemma {:induction false} FirstWritesHold(g: Grid, g1: Grid, g2: Grid, i: nat, j: nat, w: nat, s: string, nb: nat, bp: nat)
    requires bp <= |s| && SameElsewhere(g, g1, i, Col(j, w, nb + 1)) && Piece(g1, i, j, w, nb + 1) == s[bp..]
    requires SameElsewhere(g1, g2, i, j) && bp < |BlockAt(g1, i, j)| && BlockAt(g2, i, j) == BlockAt(g1, i, j)[bp := '\0']
    ensures FirstWrites(g, g1, g2, i, j, w, s, nb, bp)
  {
  }

  lemma {:induction false} SameOffTwice(g: Grid, g1: Grid, g2: Grid, i: nat, j: nat, w: nat, n: nat)
    requires SameElsewhere(g, g1, i, Col(j, w, n)) && SameElsewhere(g1, g2, i, j)
    ensures SameOff(g, g2, i, j, w)
  {
    SameOffStep(g, g, g1, i, j, w, n);
    assert Col(j, w, 0) == j;
    SameOffStep(g, g1, g2, i, j, w, 0);
  }

  lemma {:induction false} LaterPieceKept(g: Grid, g1: Grid, g2: Grid, i: nat, j: nat, w: nat, s: string, nb: nat, bp: nat, m: nat)
    requires bp <= |s| && w > 0 && FirstWrites(g, g1, g2, i, j, w, s, nb, bp) && 0 < m <= nb
    ensures Piece(g2, i, j, w, m) == Piece(g, i, j, w, m)
  {
    PieceElsewhere(g, g1, i, j, w, m, nb + 1);
    PieceElsewhere(g1, g2, i, j, w, m, 0);
  }

  lemma {:induction false} PieceInBlock(g: Grid, i: nat, j: nat, w: nat, m: nat)
    requires BlocksOk(g)
    ensures |Piece(g, i, j, w, m)| < |BlockAt(g, i, Col(j, w, m))|
  {
    TextInBlock(g, i, Col(j, w, m));
  }

  lemma {:induction false} BrokenFacts(g: Grid, i: nat, j: nat, w: nat, s: string, last: nat, nb: nat)
    requires Broken(g, i, j, w, s, last, nb)
    ensures |s| < |BlockAt(g, i, j)| && (nb == 0 <==> last == 0) && last <= |s| && Piece(g, i, j, w, nb) == s[last..]
    ensures forall k :: 0 <= k < |s| ==> s[k] != '\0'
    ensures SameOff(g, g, i, j, w)
  {
  }

  lemma {:induction false} NothingPastWidth(g: Grid, i: nat, j: nat, w: nat, n: nat, height: nat, width: nat)
    requires Within(g, height, width) && Col(j, w, n) >= width
    ensures EmptyFrom(g, i, j, w, n)
  {
    forall m: nat | m >= n
      ensures Piece(g, i, j, w, m) == ""
    {
      if m > n {
        ColOrder(j, w, n, m);
      }
    }
  }

  lemma {:induction false} StartsUnbroken(g: Grid, i: nat, j: nat, w: nat)
    requires BlocksOk(g) && EmptyFrom(g, i, j, w, 1)
    ensures Broken(g, i, j, w, TextAt(g, i, j), 0, 0) && SameOff(g, g, i, j, w)
    ensures StrLen(BlockAt(g, i, j)) == |TextAt(g, i, j)| < MAX_STR_LEN
  {
    TextInBlock(g, i, j);
    var s, f := TextAt(g, i, j), BlockAt(g, i, j);
    assert Col(j, w, 0) == j && s[0..] == s;
    if |f| > 1 {
      assert i < |g| && j < |g[i]|;
    }
  }

  lemma {:induction false} SameOffJoin(g: Grid, g': Grid, g'': Grid, i: nat, j: nat, w: nat)
    requires SameOff(g, g', i, j, w) && SameOff(g', g'', i, j, w)
    ensures SameOff(g, g'', i, j, w)
  {
    forall y: nat, x: nat | y != i || (forall m: nat :: x != Col(j, w, m))
      ensures BlockAt(g'', y, x) == BlockAt(g, y, x)
    {
      assert BlockAt(g', y, x) == BlockAt(g, y, x);
    }
  }

  /** C's integer division by a positive number. */
  /** The width at which a cell is shown: brackets around the whole of it are not. */
  function Shown(s: string): nat {
    if s != "" && s[0] == '[' && s[|s| - 1] == ']' then |s| - 2 else |s|
  }

  /** A cell in brackets is as wide as what they enclose, any other as wide as it is long. */
  lemma ShownIs(s: string)
    ensures Shown("[" + s + "]") == |s|
    ensures s == "" || s[0] != '[' || s[|s| - 1] != ']' ==> Shown(s) == |s|
  {
  }

  /** j % n: the column in which column j is shown. */
  function Residue(j: nat, n: nat): (r: nat)
    requires n > 0
    ensures r <= j && r < n
  {
    j % n
  }

  /** The cells of the rows before i, and those of row i before column j. */
  predicate Before(y: nat, x: nat, i: nat, j: nat, w: nat) {
    x < w && (y < i || (y == i && x < j))
  }

  /** `width` is that of the widest of these cells that is shown in column c, 0 if there is none. */
  ghost predicate Widest(g: Grid, w: nat, n: nat, i: nat, j: nat, c: nat, width: int)
    requires n > 0
  {
    && (forall y: nat, x: nat :: Before(y, x, i, j, w) && Residue(x, n) == c ==> Shown(TextAt(g, y, x)) <= width)
    && (width == 0 || exists y: nat, x: nat :: Before(y, x, i, j, w) && Residue(x, n) == c && Shown(TextAt(g, y, x)) == width)
  }

  lemma NothingSeen(g: Grid, w: nat, n: nat)
    requires n > 0
    ensures forall c: nat :: Widest(g, w, n, 0, 0, c, 0)
  {
  }

  lemma {:induction false} WidestNext(g: Grid, w: nat, n: nat, i: nat, j: nat, ws: seq<int>)
    requires n > 0 && j < w == |ws| && forall c :: 0 <= c < w ==> Widest(g, w, n, i, j, c, ws[c])
    ensures var c, len := Residue(j, n), Shown(TextAt(g, i, j));
      forall d :: 0 <= d < w ==> Widest(g, w, n, i, j + 1, d, if d == c && ws[c] < len then len else ws[d])
  {
    var c, len := Residue(j, n), Shown(TextAt(g, i, j));
    forall d | 0 <= d < w
      ensures Widest(g, w, n, i, j + 1, d, if d == c && ws[c] < len then len else ws[d])
    {
      assert Widest(g, w, n, i, j, d, ws[d]);
      WidestOne(g, w, n, i, j, d, ws[d]);
    }
  }

  lemma {:induction false} WidestOne(g: Grid, w: nat, n: nat, i: nat, j: nat, d: nat, width: int)
    requires n > 0 && j < w && Widest(g, w, n, i, j, d, width)
    ensures var len := Shown(TextAt(g, i, j));
      Widest(g, w, n, i, j + 1, d, if d == Residue(j, n) && width < len then len else width)
  {
    hide Shown, TextAt, Residue;
    assert Before(i, j, i, j + 1, w);
    assert forall y: nat, x: nat :: Before(y, x, i, j + 1, w) ==> Before(y, x, i, j, w) || (y == i && x == j);
    assert forall y: nat, x: nat :: Before(y, x, i, j, w) ==> Before(y, x, i, j + 1, w);
  }

  lemma {:induction false} RowDone(g: Grid, w: nat, n: nat, i: nat, c: nat, width: int)
    requires n > 0 && Widest(g, w, n, i, w, c, width)
    ensures Widest(g, w, n, i + 1, 0, c, width)
  {
    hide Shown, TextAt, Residue;
    assert forall y: nat, x: nat :: Before(y, x, i + 1, 0, w) <==> Before(y, x, i, w, w);
  }

  function TruncDiv(a: int, b: nat): int
    requires b > 0
  {
    if a >= 0 then a / b else -((-a) / b)
  }

  function Sum(xs: seq<int>): int {
    if xs == [] then 0 else Sum(xs[..|xs| - 1]) + xs[|xs| - 1]
  }

  lemma {:induction false} SumUpdate(xs: seq<int>, i: nat, x: int)
    requires i < |xs|
    ensures Sum(xs[i := x]) == Sum(xs) - xs[i] + x
  {
    var last := |xs| - 1;
    if i == last {
      assert xs[i := x][..last] == xs[..last];
    } else {
      assert xs[i := x][..last] == xs[..last][i := x];
      SumUpdate(xs[..last], i, x);
    }
  }

  /** How many are above the average. */
  function Above(xs: seq<int>, avg: int): nat {
    if xs == [] then 0 else Above(xs[..|xs| - 1], avg) + if xs[|xs| - 1] > avg then 1 else 0
  }

  lemma {:induction false} AboveSnoc(xs: seq<int>, i: nat, avg: int)
    requires i < |xs|
    ensures Above(xs[..i + 1], avg) == Above(xs[..i], avg) + if xs[i] > avg then 1 else 0
  {
    assert xs[..i + 1][..i] == xs[..i];
  }

  lemma {:induction false} AboveMonotone(xs: seq<int>, n: nat, avg: int)
    requires n <= |xs|
    ensures Above(xs[..n], avg) <= Above(xs, avg)
    decreases |xs| - n
  {
    if n == |xs| {
      assert xs[..n] == xs;
    } else {
      AboveSnoc(xs, n, avg);
      AboveMonotone(xs, n + 1, avg);
    }
  }

  /** A column no wider than the average is left alone, a wider one loses its part, or one character more. */
  predicate Shrunk(was: int, now: int, part: nat, avg: int) {
    if was > avg then was - now == part || was - now == part + 1 else now == was
  }

  /** The first i columns are shrunk, the others as they were. */
  ghost predicate ShrunkTo(was: seq<int>, now: seq<int>, i: nat, part: nat, avg: int) {
    && i <= |was| == |now| && (forall k :: 0 <= k < i ==> Shrunk(was[k], now[k], part, avg))
    && forall k :: i <= k < |was| ==> now[k] == was[k]
  }

  lemma ShrinkNext(was: seq<int>, now: seq<int>, i: nat, part: nat, avg: int, less: nat)
    requires ShrunkTo(was, now, i, part, avg) && i < |was|
    requires if now[i] > avg then part <= less <= part + 1 else less == 0
    ensures now[i] == was[i] && ShrunkTo(was, now[i := now[i] - less], i + 1, part, avg)
  {
  }

  /** e / n, and 0 if there is nobody to share with. */
  function Part(e: nat, n: nat): nat {
    if n == 0 then 0 else e / n
  }

  /** The excess is taken from the columns above the average, in equal parts up to one character. */
  ghost predicate Reduced(was: seq<int>, now: seq<int>, excess: nat, avg: int) {
    var above := Above(was, avg);
    && |now| == |was| && Sum(now) == Sum(was) - (if above > 0 then excess else 0)
    && forall i :: 0 <= i < |was| ==> Shrunk(was[i], now[i], Part(excess, above), avg)
  }

  /** The loop that shares the excess, at column i with `left` to take from `above` columns. */
  ghost predicate Sharing(was: seq<int>, now: seq<int>, i: nat, excess: nat, left: nat, above: nat, avg: int) {
    var total := Above(was, avg);
    && ShrunkTo(was, now, i, Part(excess, total), avg) && above == total - Above(was[..i], avg)
    && left <= excess && Sum(now) == Sum(was) - (excess - left)
    && if total == 0 then left == excess else Even(left, above, Part(excess, total))
  }

  lemma SharingStarts(was: seq<int>, excess: nat, avg: int)
    ensures Sharing(was, was, 0, excess, excess, Above(was, avg), avg)
  {
    var total := Above(was, avg);
    assert Above(was[..0], avg) == 0;
    if total > 0 {
      PartIs(excess, total);
    }
  }

  lemma {:induction false} SharingNext(was: seq<int>, now: seq<int>, i: nat, excess: nat, left: nat, above: nat, avg: int)
    requires Sharing(was, now, i, excess, left, above, avg) && i < |was| == |now|
    ensures now[i] > avg ==>
      && above > 0 && Part(left, above) <= left
      && Sharing(was, now[i := now[i] - Part(left, above)], i + 1, excess, left - Part(left, above), above - 1, avg)
    ensures now[i] <= avg ==> Sharing(was, now, i + 1, excess, left, above, avg)
  {
    AboveSnoc(was, i, avg);
    AboveMonotone(was, i + 1, avg);
    hide Above, Sum, Part, Even;
    if now[i] > avg {
      assert now[i] == was[i];
      EvenPart(left, above, Part(excess, Above(was, avg)));
      ShrinkNext(was, now, i, Part(excess, Above(was, avg)), avg, Part(left, above));
      SumUpdate(now, i, now[i] - Part(left, above));
    } else {
      ShrinkNext(was, now, i, Part(excess, Above(was, avg)), avg, 0);
      assert now[i := now[i] - 0] == now;
    }
  }

  lemma {:induction false} SharingEnds(was: seq<int>, now: seq<int>, excess: nat, left: nat, above: nat, avg: int)
    requires Sharing(was, now, |was|, excess, left, above, avg)
    ensures Reduced(was, now, excess, avg)
  {
    assert was[..|was|] == was;
  }

  lemma PartIs(e: nat, n: nat)
    requires n > 0
    ensures Off(n, Part(e, n)) <= e < Off(n, Part(e, n)) + n
  {
    OffIsProduct(n, e / n);
    assert e == n * (e / n) + e % n;
  }

  /** n parts of p + 1 are n more than n parts of p. */
  lemma {:induction false} OffNext(n: nat, p: nat)
    ensures Off(n, p + 1) == Off(n, p) + n
  {
    if n > 0 {
      OffNext(n - 1, p);
    }
  }

  lemma {:induction false} OffGrows(n: nat, p: nat, q: nat)
    requires p <= q
    ensures Off(n, p) <= Off(n, q)
  {
    if n > 0 {
      OffGrows(n - 1, p, q);
    }
  }

  /** e can be shared among n in parts of q and q + 1. */
  predicate Even(e: nat, n: nat, q: nat) {
    Off(n, q) <= e <= Off(n, q) + n
  }

  /** The next part is one of the two, and the rest can be shared likewise. */
  lemma {:induction false} EvenPart(e: nat, n: nat, q: nat)
    requires n > 0 && Even(e, n, q)
    ensures q <= Part(e, n) <= q + 1 && Part(e, n) <= e && Even(e - Part(e, n), n - 1, q)
  {
    var p := Part(e, n);
    PartIs(e, n);
    hide Part;
    if p < q {
      OffNext(n, p);
      OffGrows(n, p + 1, q);
    } else if p > q + 1 {
      OffGrows(n, q + 2, p);
      OffNext(n, q + 1);
      OffNext(n, q);
    } else {
      OffNext(n, q);
      assert Off(n, q) == Off(n - 1, q) + q && Off(n, p) == Off(n - 1, p) + p;
    }
  }

  lemma RoundedUp(width: nat, w: nat)
    requires w > 0
    ensures (width + w - 1) / w * w >= width
  {
    var q, r := (width + w - 1) / w, (width + w - 1) % w;
    assert width + w - 1 == q * w + r;
  }

  /** Cells before (i, j) have been broken, and still hold their text in fitting pieces; the others are as they were. */
  ghost predicate Swept(g: Grid, orig: Grid, h: nat, ws: seq<int>, i: nat, j: nat) {
    forall y: nat, x: nat :: y < h && x < |ws| ==> CellSwept(g, orig, ws, i, j, y, x)
  }

  ghost predicate CellSwept(g: Grid, orig: Grid, ws: seq<int>, i: nat, j: nat, y: nat, x: nat)
    requires x < |ws|
  {
    var w := |ws|;
    if y < i || (y == i && x < j) then Whole(g, y, x, w, TextAt(orig, y, x)) && Fitted(g, y, x, w, ws[x])
    else EmptyFrom(g, y, x, w, 1) && TextAt(g, y, x) == TextAt(orig, y, x)
  }

  lemma {:induction false} SweepStarts(g: Grid, h: nat, width: nat, ws: seq<int>)
    requires Within(g, h, width) && width <= |ws|
    ensures Swept(g, g, h, ws, 0, 0)
  {
    var w := |ws|;
    forall y: nat, x: nat | y < h && x < w
      ensures CellSwept(g, g, ws, 0, 0, y, x)
    {
      assert Col(x, w, 1) == Col(x, w, 0) + w == x + w;
      NothingPastWidth(g, y, x, w, 1, h, width);
    }
  }

  lemma {:induction false} NextToBreak(g: Grid, orig: Grid, h: nat, ws: seq<int>, i: nat, j: nat)
    requires Swept(g, orig, h, ws, i, j) && i < h && j < |ws|
    ensures EmptyFrom(g, i, j, |ws|, 1) && TextAt(g, i, j) == TextAt(orig, i, j)
  {
    assert CellSwept(g, orig, ws, i, j, i, j);
  }

  lemma {:induction false} SweepOne(g: Grid, g': Grid, orig: Grid, h: nat, ws: seq<int>, i: nat, j: nat)
    requires Swept(g, orig, h, ws, i, j) && i < h && j < |ws|
    requires Whole(g', i, j, |ws|, TextAt(orig, i, j)) && Fitted(g', i, j, |ws|, ws[j]) && SameOff(g, g', i, j, |ws|)
    ensures Swept(g', orig, h, ws, i, j + 1)
  {
    hide TextAt, Whole, EmptyFrom, SameOff, Fitted;
    var j' := j + 1;
    forall y: nat, x: nat | y < h && x < |ws|
      ensures CellSwept(g', orig, ws, i, j', y, x)
    {
      assert CellSwept(g, orig, ws, i, j, y, x);
      if y != i || x != j {
        OthersKept(g, g', i, j, |ws|, y, x, TextAt(orig, y, x));
        if y < i || (y == i && x < j) {
          FittedKept(g, g', i, j, |ws|, y, x, ws[x]);
        }
      }
    }
  }

  lemma {:induction false} RowSwept(g: Grid, orig: Grid, h: nat, ws: seq<int>, i: nat)
    requires Swept(g, orig, h, ws, i, |ws|)
    ensures Swept(g, orig, h, ws, i + 1, 0)
  {
    var i' := i + 1;
    forall y: nat, x: nat | y < h && x < |ws|
      ensures CellSwept(g, orig, ws, i', 0, y, x)
    {
      assert CellSwept(g, orig, ws, i, |ws|, y, x);
    }
  }

  /** The cell's text is still there, in pieces. */
  ghost predicate TextKept(g: Grid, orig: Grid, w: nat, y: nat, x: nat) {
    Whole(g, y, x, w, TextAt(orig, y, x))
  }

  lemma {:induction false} SweptIsWhole(g: Grid, orig: Grid, h: nat, ws: seq<int>)
    requires Swept(g, orig, h, ws, h, 0)
    ensures forall y: nat, x: nat :: y < h && x < |ws| ==> TextKept(g, orig, |ws|, y, x) && Fitted(g, y, x, |ws|, ws[x])
  {
    hide Fitted;
    forall y: nat, x: nat | y < h && x < |ws|
      ensures TextKept(g, orig, |ws|, y, x) && Fitted(g, y, x, |ws|, ws[x])
    {
      assert CellSwept(g, orig, ws, h, 0, y, x);
    }
  }

  lemma {:induction false} UnbrokenIsWhole(g: Grid, h: nat, width: nat, ws: seq<int>)
    requires Within(g, h, width) && width <= |ws|
    ensures forall y: nat, x: nat :: y < h && x < |ws| ==> TextKept(g, g, |ws|, y, x)
  {
    var w := |ws|;
    SweepStarts(g, h, width, ws);
    forall y: nat, x: nat | y < h && x < w
      ensures TextKept(g, g, w, y, x)
    {
      assert CellSwept(g, g, ws, 0, 0, y, x);
      assert Pieces(g, y, x, w, 1) == Pieces(g, y, x, w, 0) + Piece(g, y, x, w, 0) == TextAt(g, y, x);
    }
  }

  /** Line breaking loses no text: get_entire_cell returns what the cell held before. */
  lemma {:induction false} NoTextLost(g: Grid, orig: Grid, w: nat, y: nat, x: nat, cell: string)
    requires TextKept(g, orig, w, y, x) && Whole(g, y, x, w, cell)
    ensures cell == TextAt(orig, y, x)
  {
    WholeIsUnique(g, y, x, w, cell, TextAt(orig, y, x));
  }
}
