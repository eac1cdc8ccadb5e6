/**
 * The word extractor, which pairs every non-blank word cell below the metadata block with its
 * column's normalised id.
 */
module Words {
  import opened Wrappers
  import opened Text
  import opened Cells
  import opened CategoryTree

  /** First row of the word lists. */
  const FirstWordRow: nat := 5

  /** A word found in a category's column, with the column's normalised id. */
  datatype Pair = Pair(word: string, id: string)

  /** The word a cell contributes: its text stripped of surrounding whitespace, unless the cell is
      missing or the stripped text is empty. */
  function CellWord(c: Cell): Option<string> {
    if c.Missing? then None
    else
      var w := Strip(CellText(c));
      if w == [] then None else Some(w)
  }

  /** A missing or blank cell gives no word; any word given is non-empty and already stripped. */
  lemma CellWordShape(c: Cell)
    ensures CellWord(c).None? <==> c.Missing? || forall i :: 0 <= i < |CellText(c)| ==> IsSpace(CellText(c)[i])
    ensures CellWord(c).Some? ==> CellWord(c).value != [] && Strip(CellWord(c).value) == CellWord(c).value
  {
    if !c.Missing? {
      StripSpec(CellText(c));
      StripIdempotent(CellText(c));
    }
  }

  /** The normalised id of every data column (None where the column is skipped), column 1 first. */
  function ColumnIds(grid: Grid): (ids: seq<Option<string>>)
    requires Rectangular(grid) && |grid| > IdRow
    ensures |ids| == DataColumns(grid)
    ensures forall i :: 0 <= i < |ids| ==> ids[i] == NormalizeId(grid[IdRow][i + 1])
  {
    seq(DataColumns(grid), i requires 0 <= i < DataColumns(grid) => NormalizeId(grid[IdRow][i + 1]))
  }

  /** The word (or None) of every cell of column `col` from row 5 down, in row order. */
  function ColumnWords(grid: Grid, col: nat): (words: seq<Option<string>>)
    requires Rectangular(grid) && 1 <= col < Width(grid)
    ensures |words| == if |grid| < FirstWordRow then 0 else |grid| - FirstWordRow
    ensures forall i :: 0 <= i < |words| ==> words[i] == CellWord(grid[FirstWordRow + i][col])
  {
    var n := if |grid| < FirstWordRow then 0 else |grid| - FirstWordRow;
    seq(n, i requires 0 <= i < n => CellWord(grid[FirstWordRow + i][col]))
  }

  /** A column's words in order, each paired with `id`; cells without a word are passed over. */
  function PairsOf(words: seq<Option<string>>, id: string): seq<Pair> {
    if words == [] then []
    else
      var init := words[..|words| - 1];
      match words[|words| - 1]
      case None => PairsOf(init, id)
      case Some(w) => PairsOf(init, id) + [Pair(w, id)]
  }

  /** A column's pairs are exactly its words, each paired with the column's id. */
  lemma {:induction false} PairsOfMembers(words: seq<Option<string>>, id: string, p: Pair)
    ensures p in PairsOf(words, id) <==> p.id == id && Some(p.word) in words
  {
    if words != [] {
      var init := words[..|words| - 1];
      assert words == init + [words[|words| - 1]];
      PairsOfMembers(init, id, p);
    }
  }

  /** Reading one more word of a column appends its pair, if it has a word. */
  lemma PairsOfSnoc(words: seq<Option<string>>, i: nat, id: string)
    requires i < |words|
    ensures PairsOf(words[..i + 1], id) == PairsOf(words[..i], id) + if words[i].Some? then [Pair(words[i].value, id)] else []
  {
    assert words[..i + 1][..i] == words[..i];
  }

  /** The pairs column `col` contributes under the id `id`. */
  function ColumnPairs(grid: Grid, col: nat, id: string): seq<Pair>
    requires Rectangular(grid) && 1 <= col < Width(grid)
  {
    PairsOf(ColumnWords(grid, col), id)
  }

  /** The pairs of every data column, column 1 first: a column whose id does not normalise
      contributes none. */
  function ColumnPairLists(grid: Grid, ids: seq<Option<string>>): (cs: seq<seq<Pair>>)
    requires Rectangular(grid) && |ids| == DataColumns(grid)
    ensures |cs| == |ids|
    ensures forall i :: 0 <= i < |ids| && ids[i].None? ==> cs[i] == []
    ensures forall i :: 0 <= i < |ids| && ids[i].Some? ==> cs[i] == ColumnPairs(grid, i + 1, ids[i].value)
  {
    seq(|ids|, i requires 0 <= i < |ids| => if ids[i].Some? then ColumnPairs(grid, i + 1, ids[i].value) else [])
  }

  /** The lists of `cs` one after the other. */
  function Flatten(cs: seq<seq<Pair>>): seq<Pair> {
    if cs == [] then [] else Flatten(cs[..|cs| - 1]) + cs[|cs| - 1]
  }

  /** A pair of the concatenation is in one of the lists, list `i`. */
  lemma {:induction false} FlattenSound(cs: seq<seq<Pair>>, p: Pair) returns (i: nat)
    requires p in Flatten(cs)
    ensures i < |cs| && p in cs[i]
  {
    var init := cs[..|cs| - 1];
    if p in Flatten(init) {
      i := FlattenSound(init, p);
      assert init[i] == cs[i];
    } else {
      i := |cs| - 1;
    }
  }

  /** A pair of any of the lists is in the concatenation. */
  lemma {:induction false} FlattenComplete(cs: seq<seq<Pair>>, i: nat, p: Pair)
    requires i < |cs| && p in cs[i]
    ensures p in Flatten(cs)
  {
    var init := cs[..|cs| - 1];
    if i < |init| {
      assert init[i] == cs[i];
      FlattenComplete(init, i, p);
    }
  }

  /** What extract_word_category_pairs returns for a grid that has an id row. */
  function WordPairs(grid: Grid): seq<Pair>
    requires Rectangular(grid) && |grid| > IdRow
  {
    Flatten(ColumnPairLists(grid, ColumnIds(grid)))
  }

  /** Cell (row, col) of the word rows holds the word `w` once stripped. */
  predicate WordAt(grid: Grid, col: nat, row: nat, w: string)
    requires Rectangular(grid) && 1 <= col < Width(grid)
  {
    FirstWordRow <= row < |grid| && CellWord(grid[row][col]) == Some(w)
  }

  /** A pair of a column comes from the word cell in row `row`. */
  lemma ColumnPairsSound(grid: Grid, col: nat, id: string, p: Pair) returns (row: nat)
    requires Rectangular(grid) && 1 <= col < Width(grid) && p in ColumnPairs(grid, col, id)
    ensures p.id == id && WordAt(grid, col, row, p.word)
  {
    var words := ColumnWords(grid, col);
    PairsOfMembers(words, id, p);
    var i :| 0 <= i < |words| && words[i] == Some(p.word);
    row := FirstWordRow + i;
  }

  /** Every emitted pair is in the pairs of a data column, `col`, under the column's id `id`. */
  lemma WordPairsColumn(grid: Grid, p: Pair) returns (col: nat, id: string)
    requires Rectangular(grid) && |grid| > IdRow && p in WordPairs(grid)
    ensures 1 <= col < Width(grid) && NormalizeId(grid[IdRow][col]) == Some(id) && p in ColumnPairs(grid, col, id)
  {
    var ids := ColumnIds(grid);
    var cs := ColumnPairLists(grid, ids);
    var i := FlattenSound(cs, p);
    assert ids[i].Some?;
    col, id := i + 1, ids[i].value;
  }

  /** Every emitted pair comes from the word cell (`row`, `col`) of a data column whose id it carries. */
  lemma WordPairsSound(grid: Grid, p: Pair) returns (col: nat, row: nat)
    requires Rectangular(grid) && |grid| > IdRow && p in WordPairs(grid)
    ensures 1 <= col < Width(grid) && NormalizeId(grid[IdRow][col]) == Some(p.id) && WordAt(grid, col, row, p.word)
  {
    var id;
    col, id := WordPairsColumn(grid, p);
    row := ColumnPairsSound(grid, col, id, p);
  }

  /** Every word cell of a column gives a pair with the column's id. */
  lemma ColumnPairsComplete(grid: Grid, col: nat, row: nat, p: Pair)
    requires Rectangular(grid) && 1 <= col < Width(grid) && WordAt(grid, col, row, p.word)
    ensures p in ColumnPairs(grid, col, p.id)
  {
    var words := ColumnWords(grid, col);
    assert words[row - FirstWordRow] == Some(p.word);
    PairsOfMembers(words, p.id, p);
  }

  /** A pair is emitted exactly when some data column's id cell normalises to its id and one of the
      column's word cells strips to its word. The name row plays no part. */
  lemma WordPairsMembers(grid: Grid, p: Pair)
    requires Rectangular(grid) && |grid| > IdRow
    ensures p in WordPairs(grid) <==>
      exists col: nat, row: nat :: 1 <= col < Width(grid) && NormalizeId(grid[IdRow][col]) == Some(p.id) && WordAt(grid, col, row, p.word)
  {
    if p in WordPairs(grid) {
      var col, row := WordPairsSound(grid, p);
    }
    if exists col: nat, row: nat :: 1 <= col < Width(grid) && NormalizeId(grid[IdRow][col]) == Some(p.id) && WordAt(grid, col, row, p.word) {
      var col: nat, row: nat :| 1 <= col < Width(grid) && NormalizeId(grid[IdRow][col]) == Some(p.id) && WordAt(grid, col, row, p.word);
      WordPairsComplete(grid, col, row, p);
    }
  }

  /** The word in a word cell is emitted paired with its column's id. */
  lemma WordPairsComplete(grid: Grid, col: nat, row: nat, p: Pair)
    requires Rectangular(grid) && |grid| > IdRow && 1 <= col < Width(grid)
    requires NormalizeId(grid[IdRow][col]) == Some(p.id) && WordAt(grid, col, row, p.word)
    ensures p in WordPairs(grid)
  {
    var cs := ColumnListHas(grid, col, row, p);
    FlattenComplete(cs, col - 1, p);
  }

  /** The word in a word cell is in its column's list of pairs. */
  lemma ColumnListHas(grid: Grid, col: nat, row: nat, p: Pair) returns (cs: seq<seq<Pair>>)
    requires Rectangular(grid) && |grid| > IdRow && 1 <= col < Width(grid)
    requires NormalizeId(grid[IdRow][col]) == Some(p.id) && WordAt(grid, col, row, p.word)
    ensures Flatten(cs) == WordPairs(grid) && col - 1 < |cs| && p in cs[col - 1]
  {
    ColumnPairsComplete(grid, col, row, p);
    var ids := ColumnIds(grid);
    assert ids[col - 1] == Some(p.id);
    cs := ColumnPairLists(grid, ids);
  }

  /** A pair as extraction emits it: a non-empty word with no surrounding whitespace, and a canonical id. */
  predicate WellFormedPair(p: Pair) {
    p.word != [] && Strip(p.word) == p.word && IsCanonical(p.id)
  }

  /** Every emitted pair has a non-empty stripped word and an id that is a normalised integer string. */
  lemma WordPairsWellFormed(grid: Grid)
    requires Rectangular(grid) && |grid| > IdRow
    ensures forall p :: p in WordPairs(grid) ==> WellFormedPair(p)
  {
    forall p | p in WordPairs(grid) ensures WellFormedPair(p) {
      var col, row := WordPairsSound(grid, p);
      NormalizeIdCanonical(grid[IdRow][col]);
      CellWordShape(grid[row][col]);
    }
  }

  /** Extraction reads only the id row and the word rows: grids that agree there (whatever their
      parent, name and description rows hold) give the same pairs. */
  lemma OnlyIdAndWordRowsMatter(g1: Grid, g2: Grid)
    requires Rectangular(g1) && Rectangular(g2) && |g1| == |g2| > IdRow && Width(g1) == Width(g2)
    requires g1[IdRow] == g2[IdRow]
    requires forall r :: FirstWordRow <= r < |g1| ==> g1[r] == g2[r]
    ensures WordPairs(g1) == WordPairs(g2)
  {
    var ids := ColumnIds(g1);
    assert ids == ColumnIds(g2);
    forall col | 1 <= col < Width(g1) ensures ColumnWords(g1, col) == ColumnWords(g2, col) {
    }
    assert ColumnPairLists(g1, ids) == ColumnPairLists(g2, ids);
  }

  /** The inner loop of extract_word_category_pairs: appends to `pairs` the stripped non-empty words
      of rows 5 onwards of column `col`, in row order, each paired with `id`. */
  method AppendColumnPairs(grid: Grid, col: nat, id: string, pairs: seq<Pair>) returns (r: seq<Pair>)
    requires Rectangular(grid) && 1 <= col < Width(grid)
    ensures r == pairs + ColumnPairs(grid, col, id)
  {
    ghost var words := ColumnWords(grid, col);
    r := pairs;
    var i := 0;
    while FirstWordRow + i < |grid|
      invariant i <= |words|
      invariant r == pairs + PairsOf(words[..i], id)
    {
      var word := CellWord(grid[FirstWordRow + i][col]);
      assert word == words[i];
      PairsOfSnoc(words, i, id);
      if word.Some? {
        r := r + [Pair(word.value, id)];
      }
      i := i + 1;
    }
    assert words[..i] == words;
  }

  /**
   * extract_word_category_pairs: for each data column whose id normalises, the stripped non-empty
   * words of rows 5 onwards, in row order, each paired with that id. Fails when there is no id row.
   */
  method ExtractWordCategoryPairs(grid: Grid) returns (r: Result<seq<Pair>, IndexError>)
    requires Rectangular(grid)
    ensures |grid| <= IdRow ==> r == Failure(RowOutOfBounds(IdRow))
    ensures |grid| > IdRow ==> r == Success(WordPairs(grid))
  {
    if |grid| <= IdRow {
      return Failure(RowOutOfBounds(IdRow));
    }
    ghost var cs := ColumnPairLists(grid, ColumnIds(grid));
    var pairs: seq<Pair> := [];
    var col := 1;
    while col < Width(grid)
      invariant 1 <= col && col - 1 <= DataColumns(grid)
      invariant pairs == Flatten(cs[..col - 1])
    {
      var cid := NormalizeId(grid[IdRow][col]);
      assert cs[..col][..col - 1] == cs[..col - 1];
      if cid.Some? {
        pairs := AppendColumnPairs(grid, col, cid.value, pairs);
      }
      col := col + 1;
    }
    assert cs[..col - 1] == cs;
    r := Success(pairs);
  }
}
