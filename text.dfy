/**
 * The printed form of a board, as State.toString() produces it: every cell
 * as "[c]", a newline after every row, and then String.strip(), which takes
 * the final newline off again.
 */
module Text {
  import opened Board

  /** The characters java.lang.Character.isWhitespace accepts, which String.strip() removes. */
  predicate IsWhitespace(c: char) {
    c == ' ' || c == '\t' || c == '\n' || c == '\U{B}' || c == '\U{C}' || c == '\r'
    || ('\U{1C}' <= c <= '\U{1F}')
    || c == '\U{1680}' || ('\U{2000}' <= c <= '\U{2006}') || ('\U{2008}' <= c <= '\U{200A}')
    || c == '\U{2028}' || c == '\U{2029}' || c == '\U{205F}' || c == '\U{3000}'
  }

  function StripLeading(s: string): string {
    if |s| > 0 && IsWhitespace(s[0]) then StripLeading(s[1..]) else s
  }

  function StripTrailing(s: string): string {
    if |s| > 0 && IsWhitespace(s[|s| - 1]) then StripTrailing(s[..|s| - 1]) else s
  }

  /** String.strip(): leading and trailing white space removed. */
  function Strip(s: string): string {
    StripTrailing(StripLeading(s))
  }

  /** One row: "[c]" for every cell, appended left to right. */
  function RowText(row: seq<char>): string {
    if row == [] then "" else RowText(row[..|row| - 1]) + ['[', row[|row| - 1], ']']
  }

  /** The builder's contents after the first n rows, each followed by a newline. */
  function Built(g: Grid, n: int): string
    requires 0 <= n <= |g|
  {
    if n == 0 then "" else Built(g, n - 1) + RowText(g[n - 1]) + "\n"
  }

  /** The first n rows joined by newlines. */
  function JoinRows(g: Grid, n: int): string
    requires 1 <= n <= |g|
  {
    if n == 1 then RowText(g[0]) else JoinRows(g, n - 1) + "\n" + RowText(g[n - 1])
  }

  /** The eight rows joined by newlines, without a trailing newline. */
  function Render(g: Grid): string
    requires IsGrid(g)
  {
    JoinRows(g, Size)
  }

  /** Reads a grid back from its printed form. */
  function Parse(s: string): (g: Grid)
    requires |s| == 25 * Size - 1
    ensures IsGrid(g)
  {
    seq(Size, i requires 0 <= i < Size => seq(Size, j requires 0 <= j < Size => s[25 * i + 3 * j + 1]))
  }

  lemma {:induction false} RowTextLength(row: seq<char>)
    ensures |RowText(row)| == 3 * |row|
  {
    if row != [] {
      RowTextLength(row[..|row| - 1]);
    }
  }

  /** Cell j of a row is printed as "[" row[j] "]" at positions 3j, 3j+1, 3j+2. */
  lemma {:induction false} RowTextAt(row: seq<char>, j: int)
    requires 0 <= j < |row|
    ensures |RowText(row)| == 3 * |row|
    ensures RowText(row)[3 * j] == '[' && RowText(row)[3 * j + 1] == row[j] && RowText(row)[3 * j + 2] == ']'
  {
    RowTextLength(row);
    var front := row[..|row| - 1];
    RowTextLength(front);
    if j < |front| {
      RowTextAt(front, j);
    }
  }

  lemma {:induction false} BuiltIsJoinedPlusNewline(g: Grid, n: int)
    requires 1 <= n <= |g|
    ensures Built(g, n) == JoinRows(g, n) + "\n"
  {
    if n > 1 {
      BuiltIsJoinedPlusNewline(g, n - 1);
    }
  }

  lemma JoinedAt(front: string, last: string, k: int)
    requires 0 <= k < |front| + 1 + |last|
    ensures (front + "\n" + last)[k] ==
            if k < |front| then front[k] else if k == |front| then '\n' else last[k - |front| - 1]
  {
  }

  lemma {:induction false} JoinRowsLength(g: Grid, n: int)
    requires IsGrid(g) && 1 <= n <= Size
    ensures |JoinRows(g, n)| == 25 * n - 1
  {
    RowTextLength(g[n - 1]);
    if n > 1 {
      JoinRowsLength(g, n - 1);
    }
  }

  /** Line i of the first n rows holds "[" g[i][j] "]" at columns 3j, 3j+1, 3j+2. */
  lemma {:induction false} JoinRowsCell(g: Grid, n: int, i: int, j: int)
    requires IsGrid(g) && 1 <= n <= Size && 0 <= i < n && 0 <= j < Size
    ensures |JoinRows(g, n)| == 25 * n - 1
    ensures JoinRows(g, n)[25 * i + 3 * j] == '['
    ensures JoinRows(g, n)[25 * i + 3 * j + 1] == g[i][j]
    ensures JoinRows(g, n)[25 * i + 3 * j + 2] == ']'
  {
    JoinRowsLength(g, n);
    if n == 1 {
      RowTextAt(g[0], j);
    } else {
      var front, last := JoinRows(g, n - 1), RowText(g[n - 1]);
      JoinRowsLength(g, n - 1);
      var k := 25 * i + 3 * j;
      JoinedAt(front, last, k);
      JoinedAt(front, last, k + 1);
      JoinedAt(front, last, k + 2);
      if i < n - 1 {
        JoinRowsCell(g, n - 1, i, j);
      } else {
        assert k - |front| - 1 == 3 * j;
        RowTextAt(g[n - 1], j);
      }
    }
  }

  /** Consecutive lines of the first n rows are separated by a newline. */
  lemma {:induction false} JoinRowsNewline(g: Grid, n: int, i: int)
    requires IsGrid(g) && 1 <= n <= Size && 0 <= i < n - 1
    ensures |JoinRows(g, n)| == 25 * n - 1
    ensures JoinRows(g, n)[25 * i + 24] == '\n'
  {
    JoinRowsLength(g, n);
    var front, last := JoinRows(g, n - 1), RowText(g[n - 1]);
    JoinRowsLength(g, n - 1);
    RowTextLength(g[n - 1]);
    JoinedAt(front, last, 25 * i + 24);
    if i < n - 2 {
      JoinRowsNewline(g, n - 1, i);
    }
  }

  /**
   * The printed board: 8 lines of 24 characters separated by 7 newlines, and
   * line i holds "[" g[i][j] "]" at columns 3j, 3j+1, 3j+2.
   */
  lemma RenderLayout(g: Grid)
    requires IsGrid(g)
    ensures |Render(g)| == 25 * Size - 1
    ensures forall i, j :: InBounds(i, j) ==>
              Render(g)[25 * i + 3 * j] == '['
              && Render(g)[25 * i + 3 * j + 1] == g[i][j]
              && Render(g)[25 * i + 3 * j + 2] == ']'
    ensures forall i :: 0 <= i < Size - 1 ==> Render(g)[25 * i + 24] == '\n'
    ensures Render(g)[0] == '[' && Render(g)[|Render(g)| - 1] == ']'
  {
    JoinRowsLength(g, Size);
    forall i, j | InBounds(i, j)
      ensures Render(g)[25 * i + 3 * j] == '['
      ensures Render(g)[25 * i + 3 * j + 1] == g[i][j]
      ensures Render(g)[25 * i + 3 * j + 2] == ']'
    {
      JoinRowsCell(g, Size, i, j);
    }
    forall i | 0 <= i < Size - 1
      ensures Render(g)[25 * i + 24] == '\n'
    {
      JoinRowsNewline(g, Size, i);
    }
    JoinRowsCell(g, Size, 0, 0);
    JoinRowsCell(g, Size, Size - 1, Size - 1);
  }

  /** The printed form loses nothing: the grid can be read back from it. */
  lemma ParseRender(g: Grid)
    requires IsGrid(g)
    ensures |Render(g)| == 25 * Size - 1 && Parse(Render(g)) == g
  {
    RenderLayout(g);
    GridExtensionality(Parse(Render(g)), g);
  }

  /** strip() removes exactly the newline after the last row. */
  lemma StripBuilt(g: Grid)
    requires IsGrid(g)
    ensures Strip(Built(g, Size)) == Render(g)
  {
    BuiltIsJoinedPlusNewline(g, Size);
    RenderLayout(g);
    var t := Render(g);
    assert StripLeading(t + "\n") == t + "\n";
    assert (t + "\n")[..|t|] == t;
    assert StripTrailing(t + "\n") == StripTrailing(t);
  }
}
