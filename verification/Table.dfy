/** The growable grid of text cells. A cell is an allocated block of characters with a NUL in it. */
module Table {
  import opened Basics

  const MIN_STR_SIZE := 64
  const MAX_STR_LEN := 4096

  type Block = seq<char>
  type Grid = seq<seq<Option<Block>>>

  function StrLen(b: Block): (n: nat)
    ensures n <= |b| && (forall k :: 0 <= k < n ==> b[k] != '\0') && (n < |b| ==> b[n] == '\0')
  {
    if b == [] || b[0] == '\0' then 0 else 1 + StrLen(b[1..])
  }

  function CText(b: Block): string {
    b[..StrLen(b)]
  }

  lemma {:induction false} StrLenIs(b: Block, n: nat)
    requires n < |b| && b[n] == '\0' && forall k :: 0 <= k < n ==> b[k] != '\0'
    ensures StrLen(b) == n
  {
    if n > 0 {
      StrLenIs(b[1..], n - 1);
    }
  }

  /** A NUL written into a cell cuts its text there, or changes nothing if it lies past the end. */
  lemma {:induction false} CutText(b: Block, k: nat)
    requires k < |b| && StrLen(b) < |b|
    ensures StrLen(b[k := '\0']) < |b|
    ensures CText(b[k := '\0']) == if k < StrLen(b) then CText(b)[..k] else CText(b)
  {
    var n := if k < StrLen(b) then k else StrLen(b);
    StrLenIs(b[k := '\0'], n);
    assert b[k := '\0'][..n] == b[..n];
  }

  /** The block of a cell; a cell without one reads as the empty string. */
  function BlockAt(g: Grid, y: nat, x: nat): Block {
    if y < |g| && x < |g[y]| && g[y][x].Some? then g[y][x].value else "\0"
  }

  function TextAt(g: Grid, y: nat, x: nat): string {
    CText(BlockAt(g, y, x))
  }

  ghost predicate BlocksOk(g: Grid) {
    forall y, x :: 0 <= y < |g| && 0 <= x < |g[y]| && g[y][x].Some? ==>
                     |g[y][x].value| >= MIN_STR_SIZE && StrLen(g[y][x].value) < |g[y][x].value|
                     && StrLen(g[y][x].value) < MAX_STR_LEN
  }

  lemma {:induction false} TextInBlock(g: Grid, y: nat, x: nat)
    requires BlocksOk(g)
    ensures |TextAt(g, y, x)| < |BlockAt(g, y, x)|
    ensures forall k :: 0 <= k < |TextAt(g, y, x)| ==> TextAt(g, y, x)[k] != '\0'
  {
  }

  /** No text outside the width and the height in use. */
  ghost predicate Within(g: Grid, h: nat, w: nat) {
    forall y: nat, x: nat :: TextAt(g, y, x) != [] ==> y < h && x < w
  }

  ghost predicate SameTexts(g: Grid, g': Grid) {
    forall y: nat, x: nat :: BlockAt(g', y, x) == BlockAt(g, y, x)
  }

  /** Only the cell (y, x) may differ. */
  ghost predicate SameElsewhere(g: Grid, g': Grid, y: nat, x: nat) {
    forall y': nat, x': nat :: y' != y || x' != x ==> BlockAt(g', y', x') == BlockAt(g, y', x')
  }

  lemma {:induction false} WithinKept(g: Grid, g': Grid, y: nat, x: nat, h: nat, w: nat, h': nat, w': nat)
    requires Within(g, h, w) && h <= h' && w <= w' && SameElsewhere(g, g', y, x)
    requires TextAt(g', y, x) != [] ==> y < h' && x < w'
    ensures Within(g', h', w')
  {
    forall y': nat, x': nat | TextAt(g', y', x') != []
      ensures y' < h' && x' < w'
    {
      if y' != y || x' != x {
        assert TextAt(g, y', x') == TextAt(g', y', x');
      }
    }
  }

  lemma {:induction false} ReplaceCell(g: Grid, y: nat, x: nat, b: Block)
    requires y < |g| && x < |g[y]| && BlocksOk(g)
    requires |b| >= MIN_STR_SIZE && StrLen(b) < |b| && StrLen(b) < MAX_STR_LEN
    ensures var g' := g[y := g[y][x := Some(b)]];
            BlocksOk(g') && BlockAt(g', y, x) == b && SameElsewhere(g, g', y, x)
  {
  }

  function Max(x: nat, y: nat): nat {
    if x > y then x else y
  }

  class Table {
    var width: nat
    var height: nat
    var r: Grid

    ghost predicate Valid()
      reads this
    {
      BlocksOk(r) && Within(r, height, width)
    }

    ghost function Text(y: nat, x: nat): string
      reads this
    {
      TextAt(r, y, x)
    }

    constructor ()
      ensures Valid() && width == 0 && height == 0 && forall y: nat, x: nat :: Text(y, x) == ""
    {
      width, height, r := 0, 0, [];
    }

    /** Step 1 of table_set: room for row y, at least doubling. */
    method EnsureRow(y: nat)
      requires BlocksOk(r)
      modifies this`r
      ensures y < |r| && BlocksOk(r) && SameTexts(old(r), r)
    {
      if |r| == 0 {
        r := seq(y + 1, _ => []);
      } else if |r| <= y {
        var newHeight := |r| * 2;
        if newHeight <= y {
          newHeight := y + 1;
        }
        r := r + seq(newHeight - |r|, _ => []);
      }
    }

    /** Step 2: room for column x in row y. */
    method EnsureColumn(y: nat, x: nat)
      requires BlocksOk(r) && y < |r|
      modifies this`r
      ensures |r| == |old(r)| && x < |r[y]| && BlocksOk(r) && SameTexts(old(r), r)
    {
      var cells := r[y];
      if |cells| == 0 {
        cells := seq(x + 1, _ => None);
      } else if |cells| <= x {
        var newWidth := |cells| * 2;
        if newWidth <= x {
          newWidth := x + 1;
        }
        cells := cells + seq(newWidth - |cells|, _ => None);
      }
      r := r[y := cells];
    }

    /** Steps 3 and 4: the cell's block is allocated, or grown if short, and overwritten. */
    method Overwrite(y: nat, x: nat, c: string)
      requires BlocksOk(r) && y < |r| && x < |r[y]| && |c| < MAX_STR_LEN && forall k :: 0 <= k < |c| ==> c[k] != '\0'
      modifies this`r
      ensures BlocksOk(r) && TextAt(r, y, x) == c
      ensures SameElsewhere(old(r), r, y, x)
    {
      var block: Block;
      if r[y][x].Some? && |c| + 1 > MIN_STR_SIZE {
        block := seq(|c| + 1, _ => '\0');
      } else if r[y][x].None? {
        block := seq(Max(MIN_STR_SIZE, |c| + 1), _ => '\0');
      } else {
        block := r[y][x].value;
      }
      block := c + "\0" + block[|c| + 1..];
      StrLenIs(block, |c|);
      assert CText(block) == c;
      ReplaceCell(r, y, x, block);
      r := r[y := r[y][x := Some(block)]];
    }

    method Set(y: nat, x: nat, c: string) returns (failed: bool)
      requires Valid() && forall k :: 0 <= k < |c| ==> c[k] != '\0'
      modifies this
      ensures Valid() && (failed <==> |c| >= MAX_STR_LEN)
      ensures failed || c == [] ==> r == old(r) && width == old(width) && height == old(height)
      ensures !failed && c != [] ==>
                && Text(y, x) == c && height == Max(old(height), y + 1) && width == Max(old(width), x + 1)
                && SameElsewhere(old(r), r, y, x)
    {
      if |c| >= MAX_STR_LEN {
        return true;
      } else if |c| == 0 {
        return false;
      }
      hide TextAt;
      EnsureRow(y);
      EnsureColumn(y, x);
      Overwrite(y, x, c);
      WithinKept(old(r), r, y, x, height, width, Max(height, y + 1), Max(width, x + 1));
      height := Max(height, y + 1);
      width := Max(width, x + 1);
      failed := false;
    }

    /** table_get(...)[k] = 0 */
    method Cut(y: nat, x: nat, k: nat)
      requires Valid() && k < |BlockAt(r, y, x)| && |BlockAt(r, y, x)| > 1
      modifies this`r
      ensures Valid()
      ensures BlockAt(r, y, x) == old(BlockAt(r, y, x))[k := '\0']
      ensures Text(y, x) == if k < |old(Text(y, x))| then old(Text(y, x))[..k] else old(Text(y, x))
      ensures SameElsewhere(old(r), r, y, x)
    {
      var b := r[y][x].value;
      CutText(b, k);
      ReplaceCell(r, y, x, b[k := '\0']);
      r := r[y := r[y][x := Some(b[k := '\0'])]];
      if TextAt(r, y, x) != [] {
        assert TextAt(old(r), y, x) != [];
      }
      WithinKept(old(r), r, y, x, height, width, height, width);
    }

    /** table_set_width, to something no smaller. */
    method SetWidth(w: nat)
      requires Valid() && w >= width
      modifies this`width
      ensures Valid() && width == w
    {
      width := w;
    }

    /** table_reset: every text is emptied in its place. */
    method Reset()
      requires Valid()
      modifies this
      ensures Valid() && width == 0 && height == 0 && forall y: nat, x: nat :: Text(y, x) == ""
    {
      var i := 0;
      while i < |r|
        invariant 0 <= i <= |r| && BlocksOk(r)
        invariant forall y: nat :: y < i ==> RowEmpty(r, y)
      {
        ghost var was := r;
        ResetRow(i);
        forall y: nat | y < i
          ensures RowEmpty(r, y)
        {
          assert RowEmpty(was, y);
          RowEmptyKept(was, r, y);
        }
        i := i + 1;
      }
      forall y: nat, x: nat
        ensures TextAt(r, y, x) == ""
      {
        assert y < |r| ==> RowEmpty(r, y);
      }
      width, height := 0, 0;
    }

    method ResetRow(i: nat)
      requires BlocksOk(r) && i < |r|
      modifies this`r
      ensures |r| == |old(r)| && BlocksOk(r) && RowEmpty(r, i)
      ensures forall y: nat :: y != i ==> SameRow(old(r), r, y)
    {
      var j := 0;
      while j < |r[i]|
        invariant i < |r| == |old(r)| && 0 <= j <= |r[i]| && BlocksOk(r)
        invariant forall x: nat :: x < j ==> TextAt(r, i, x) == ""
        invariant forall y: nat :: y != i ==> SameRow(old(r), r, y)
      {
        if r[i][j].Some? {
          var b := r[i][j].value;
          CutText(b, 0);
          ReplaceCell(r, i, j, b[0 := '\0']);
          ghost var was := r;
          r := r[i := r[i][j := Some(b[0 := '\0'])]];
          assert forall x: nat :: x < j ==> TextAt(r, i, x) == TextAt(was, i, x);
          forall y: nat | y != i
            ensures SameRow(old(r), r, y)
          {
            assert SameRow(old(r), was, y);
          }
        }
        j := j + 1;
      }
    }
  }

  ghost predicate RowEmpty(g: Grid, y: nat) {
    forall x: nat :: TextAt(g, y, x) == ""
  }

  ghost predicate SameRow(g: Grid, g': Grid, y: nat) {
    forall x: nat :: BlockAt(g', y, x) == BlockAt(g, y, x)
  }

  lemma {:induction false} RowEmptyKept(g: Grid, g': Grid, y: nat)
    requires RowEmpty(g, y) && SameRow(g, g', y)
    ensures RowEmpty(g', y)
  {
    forall x: nat
      ensures TextAt(g', y, x) == ""
    {
      assert TextAt(g', y, x) == TextAt(g, y, x);
    }
  }
}
