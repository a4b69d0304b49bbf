/**
  The text form of a map (src/grid.rs, load_from_string and pretty_print_grid).

  Reading a text moves a cursor (x, y): a newline sets x to 0 and increments y,
  every other character increments x. Seven characters write `tiles[x][y]` before
  the cursor moves; any other character moves the cursor without writing.
  Everything here is defined on prefixes of the text, in the order the parser
  consumes it.
*/
module TextFormat {
  import opened Tiles
  import opened Board

  datatype Option<T> = None | Some(value: T)

  /** The tile a character stands for; None for every character the parser ignores. */
  function CharTile(c: char): Option<TileType>
  {
    match c
    case '#' => Some(Wall)
    case '.' => Some(Floor)
    case '>' => Some(DownStairs)
    case '<' => Some(UpStairs)
    case 'F' => Some(Fountain)
    case ' ' => Some(Water)
    case 'L' => Some(Lava)
    case _ => None
  }

  /** The character the printer emits for a tile; the parser reads it back as that tile. */
  function Glyph(t: TileType): (c: char)
    ensures CharTile(c) == Some(t)
  {
    match t
    case Wall => '#'
    case Floor => '.'
    case DownStairs => '>'
    case UpStairs => '<'
    case Fountain => 'F'
    case Water => ' '
    case Lava => 'L'
  }

  /** The column x of the cursor after reading `p`. */
  function Column(p: string): nat
    decreases |p|
  {
    if p == [] then 0
    else if p[|p| - 1] == '\n' then 0
    else Column(p[..|p| - 1]) + 1
  }

  /** The row y of the cursor after reading `p`: the number of newlines in it. */
  function Line(p: string): nat
    decreases |p|
  {
    if p == [] then 0
    else Line(p[..|p| - 1]) + (if p[|p| - 1] == '\n' then 1 else 0)
  }

  /** The cursor position after reading `p`. */
  function Cursor(p: string): Coord
  {
    (Column(p), Line(p))
  }

  /**
    No character of `p` that the parser writes lands outside the map;
    reading a text that breaks this indexes the tile array out of bounds.
  */
  predicate Fits(p: string)
    decreases |p|
  {
    p == [] ||
    (Fits(p[..|p| - 1]) && (CharTile(p[|p| - 1]).Some? ==> InBounds(Cursor(p[..|p| - 1]))))
  }

  /** The map the parser has built after reading `p`, starting from an all-Floor map. */
  function Parse(p: string): (m: Matrix)
    requires Fits(p)
    ensures IsGrid(m)
    decreases |p|
  {
    if p == [] then Uniform(Floor)
    else
      var q := p[..|p| - 1];
      match CharTile(p[|p| - 1])
      case None => Parse(q)
      case Some(t) => Write(Parse(q), Cursor(q), t)
  }

  /** Characters per printed row: one per column, then a newline. */
  const LINE_LENGTH: nat := GRID_SIZE + 1

  /** The text the printer emits: rows by y, columns by x, a newline after each row. */
  function Print(m: Matrix): (s: string)
    requires IsGrid(m)
    ensures |s| == GRID_SIZE * LINE_LENGTH
  {
    seq(GRID_SIZE * LINE_LENGTH, k requires 0 <= k < GRID_SIZE * LINE_LENGTH =>
      if k % LINE_LENGTH == GRID_SIZE then '\n' else Glyph(m[k % LINE_LENGTH][k / LINE_LENGTH]))
  }

  lemma {:induction false} FitsPrefix(p: string, k: nat)
    requires Fits(p) && k <= |p|
    ensures Fits(p[..k])
    decreases |p|
  {
    if k < |p| {
      var q := p[..|p| - 1];
      assert q[..k] == p[..k];
      FitsPrefix(q, k);
    } else {
      assert p[..k] == p;
    }
  }

  /** Reading character i: a written character lands on the cursor before it, and the cursor moves on. */
  lemma ParseStep(p: string, i: nat)
    requires Fits(p) && i < |p|
    ensures Fits(p[..i]) && Fits(p[..i + 1])
    ensures CharTile(p[i]).Some? ==> InBounds(Cursor(p[..i]))
    ensures Parse(p[..i + 1]) ==
      if CharTile(p[i]).None? then Parse(p[..i]) else Write(Parse(p[..i]), Cursor(p[..i]), CharTile(p[i]).value)
    ensures Column(p[..i + 1]) == if p[i] == '\n' then 0 else Column(p[..i]) + 1
    ensures Line(p[..i + 1]) == Line(p[..i]) + if p[i] == '\n' then 1 else 0
  {
    var q, r := p[..i + 1], p[..i];
    FitsPrefix(p, i + 1);
    assert q[..|q| - 1] == r;
    assert q[|q| - 1] == p[i];
  }

  /** A cell that no written character of `p` landed on still holds Floor. */
  lemma {:induction false} ParseUnwritten(p: string, c: Coord)
    requires Fits(p) && InBounds(c)
    requires forall i :: 0 <= i < |p| && CharTile(p[i]).Some? ==> Cursor(p[..i]) != c
    ensures At(Parse(p), c) == Floor
    decreases |p|
  {
    if p != [] {
      var q := p[..|p| - 1];
      forall i | 0 <= i < |q| && CharTile(q[i]).Some?
        ensures Cursor(q[..i]) != c
      {
        assert q[i] == p[i] && q[..i] == p[..i];
      }
      ParseUnwritten(q, c);
      assert p[..|p| - 1] == q;
    }
  }

  /**
    A cell holds the tile of the last written character of `p` that landed on it:
    character i wrote `c`, and no later written character landed there.
  */
  lemma {:induction false} ParseLastWrite(p: string, i: nat, c: Coord)
    requires Fits(p) && i < |p| && CharTile(p[i]).Some? && Cursor(p[..i]) == c
    requires forall j :: i < j < |p| && CharTile(p[j]).Some? ==> Cursor(p[..j]) != c
    ensures InBounds(c) && At(Parse(p), c) == CharTile(p[i]).value
    decreases |p|
  {
    var q := p[..|p| - 1];
    if i == |p| - 1 {
      assert p[..i] == q;
    } else {
      assert q[i] == p[i] && q[..i] == p[..i];
      forall j | i < j < |q| && CharTile(q[j]).Some?
        ensures Cursor(q[..j]) != c
      {
        assert q[j] == p[j] && q[..j] == p[..j];
      }
      ParseLastWrite(q, i, c);
      assert p[|p| - 1] == p[|p| - 1] && p[..|p| - 1] == q;
    }
  }

  /** The map the parser has built after the first k characters of a printed map. */
  function PrintedSoFar(g: Matrix, k: nat): (m: Matrix)
    requires IsGrid(g)
    ensures IsGrid(m)
  {
    seq(GRID_SIZE, x requires 0 <= x < GRID_SIZE =>
      seq(GRID_SIZE, y requires 0 <= y < GRID_SIZE =>
        if y * LINE_LENGTH + x < k then g[x][y] else Floor))
  }

  /** A position in a printed row determines its column and row. */
  lemma RowColumnOf(k: nat, x: nat, y: nat)
    requires x < LINE_LENGTH && k == y * LINE_LENGTH + x
    ensures x == k % LINE_LENGTH && y == k / LINE_LENGTH
  {
  }

  /** Row y of the printed text: the glyphs of the cells (0, y) .. (GRID_SIZE - 1, y), then a newline. */
  lemma PrintRowLayout(m: Matrix, y: nat)
    requires IsGrid(m) && y < GRID_SIZE
    ensures forall x :: 0 <= x < LINE_LENGTH ==>
      Print(m)[y * LINE_LENGTH + x] == if x == GRID_SIZE then '\n' else Glyph(m[x][y])
  {
    var s := Print(m);
    forall x | 0 <= x < LINE_LENGTH
      ensures s[y * LINE_LENGTH + x] == if x == GRID_SIZE then '\n' else Glyph(m[x][y])
    {
      var k := y * LINE_LENGTH + x;
      RowColumnOf(k, x, y);
      assert k < GRID_SIZE * LINE_LENGTH;
    }
  }

  /** Appending row y to the first y rows of the printed text gives its first y + 1 rows. */
  lemma PrintAppendRow(m: Matrix, s: string, row: string, y: nat)
    requires IsGrid(m) && y < GRID_SIZE && |s| == y * LINE_LENGTH
    requires forall k :: 0 <= k < |s| ==> s[k] == Print(m)[k]
    requires |row| == LINE_LENGTH && row[GRID_SIZE] == '\n'
    requires forall x :: 0 <= x < GRID_SIZE ==> row[x] == Glyph(m[x][y])
    ensures |s + row| == (y + 1) * LINE_LENGTH
    ensures forall k :: 0 <= k < |s + row| ==> (s + row)[k] == Print(m)[k]
  {
    PrintRowLayout(m, y);
    forall k | |s| <= k < |s + row|
      ensures (s + row)[k] == Print(m)[k]
    {
      var x := k - |s|;
      assert (s + row)[k] == row[x] && k == y * LINE_LENGTH + x;
      assert Print(m)[y * LINE_LENGTH + x] == if x == GRID_SIZE then '\n' else Glyph(m[x][y]);
    }
  }

  /** Reading one more character of a printed map moves to the next column, or to the next row. */
  lemma NextPosition(i: nat)
    ensures i % LINE_LENGTH == GRID_SIZE ==> (i + 1) % LINE_LENGTH == 0 && (i + 1) / LINE_LENGTH == i / LINE_LENGTH + 1
    ensures i % LINE_LENGTH != GRID_SIZE ==> (i + 1) % LINE_LENGTH == i % LINE_LENGTH + 1 && (i + 1) / LINE_LENGTH == i / LINE_LENGTH
  {
    var x, y := i % LINE_LENGTH, i / LINE_LENGTH;
    if x == GRID_SIZE {
      RowColumnOf(i + 1, 0, y + 1);
    } else {
      RowColumnOf(i + 1, x + 1, y);
    }
  }

  /** The cursor after k characters of a printed map. */
  lemma {:induction false} PrintCursor(g: Matrix, k: nat)
    requires IsGrid(g) && k <= GRID_SIZE * LINE_LENGTH
    ensures Cursor(Print(g)[..k]) == (k % LINE_LENGTH, k / LINE_LENGTH)
  {
    var s := Print(g);
    if k == 0 {
      assert s[..0] == [];
    } else {
      var i := k - 1;
      PrintCursor(g, i);
      NextPosition(i);
      var p, q := s[..k], s[..i];
      assert p[..|p| - 1] == q && p[|p| - 1] == s[i];
      if i % LINE_LENGTH == GRID_SIZE {
        assert s[i] == '\n';
      } else {
        assert s[i] != '\n';
      }
    }
  }

  /** A newline of the printed text adds no cell to the map read so far. */
  lemma NewlineAddsNothing(g: Matrix, i: nat)
    requires IsGrid(g) && i % LINE_LENGTH == GRID_SIZE
    ensures PrintedSoFar(g, i) == PrintedSoFar(g, i + 1)
  {
    forall x, y | 0 <= x < GRID_SIZE && 0 <= y < GRID_SIZE
      ensures PrintedSoFar(g, i)[x][y] == PrintedSoFar(g, i + 1)[x][y]
    {
      if y * LINE_LENGTH + x == i {
        RowColumnOf(i, x, y);
      }
    }
    Extensionality(PrintedSoFar(g, i), PrintedSoFar(g, i + 1));
  }

  /** A glyph of the printed text adds exactly the cell it stands for. */
  lemma GlyphAddsCell(g: Matrix, i: nat)
    requires IsGrid(g) && i < GRID_SIZE * LINE_LENGTH && i % LINE_LENGTH != GRID_SIZE
    ensures InBounds((i % LINE_LENGTH, i / LINE_LENGTH))
    ensures Write(PrintedSoFar(g, i), (i % LINE_LENGTH, i / LINE_LENGTH), g[i % LINE_LENGTH][i / LINE_LENGTH])
      == PrintedSoFar(g, i + 1)
  {
    var x0, y0 := i % LINE_LENGTH, i / LINE_LENGTH;
    var w := Write(PrintedSoFar(g, i), (x0, y0), g[x0][y0]);
    forall x, y | 0 <= x < GRID_SIZE && 0 <= y < GRID_SIZE
      ensures w[x][y] == PrintedSoFar(g, i + 1)[x][y]
    {
      if y * LINE_LENGTH + x == i {
        RowColumnOf(i, x, y);
      }
    }
    Extensionality(w, PrintedSoFar(g, i + 1));
  }

  /** Once the whole text is read, every cell has been written. */
  lemma PrintedAll(g: Matrix)
    requires IsGrid(g)
    ensures PrintedSoFar(g, GRID_SIZE * LINE_LENGTH) == g
  {
    forall x, y | 0 <= x < GRID_SIZE && 0 <= y < GRID_SIZE
      ensures PrintedSoFar(g, GRID_SIZE * LINE_LENGTH)[x][y] == g[x][y]
    {
      assert y * LINE_LENGTH + x < GRID_SIZE * LINE_LENGTH;
    }
    Extensionality(PrintedSoFar(g, GRID_SIZE * LINE_LENGTH), g);
  }

  /** Reading the first k characters of a printed map fits in the map and writes the first cells in print order. */
  lemma {:induction false} ParsePrintPrefix(g: Matrix, k: nat)
    requires IsGrid(g) && k <= GRID_SIZE * LINE_LENGTH
    ensures Fits(Print(g)[..k])
    ensures Parse(Print(g)[..k]) == PrintedSoFar(g, k)
  {
    var s := Print(g);
    if k == 0 {
      assert s[..0] == [];
      Extensionality(Parse([]), PrintedSoFar(g, 0));
    } else {
      var i := k - 1;
      ParsePrintPrefix(g, i);
      PrintCursor(g, i);
      var p, q := s[..k], s[..i];
      assert p[..|p| - 1] == q && p[|p| - 1] == s[i];
      if i % LINE_LENGTH == GRID_SIZE {
        assert CharTile(s[i]).None?;
        NewlineAddsNothing(g, i);
      } else {
        GlyphAddsCell(g, i);
        assert CharTile(s[i]) == Some(g[i % LINE_LENGTH][i / LINE_LENGTH]);
      }
    }
  }

  /** Parsing the printed text of a map gives back exactly that map. */
  lemma RoundTrip(g: Matrix)
    requires IsGrid(g)
    ensures Fits(Print(g)) && Parse(Print(g)) == g
  {
    var s := Print(g);
    ParsePrintPrefix(g, GRID_SIZE * LINE_LENGTH);
    assert s[..GRID_SIZE * LINE_LENGTH] == s;
    PrintedAll(g);
  }
}
