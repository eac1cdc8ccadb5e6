/**
 * The .dic file xlsx_to_liwc_dic writes: the category legend, then one line per word in ascending
 * word order, each holding the word and its category ids in ascending numeric order, tab-separated.
 */
module DicWriter {
  import opened Wrappers
  import opened Seqs
  import opened Text
  import opened Cells
  import opened CategoryTree
  import opened Words
  import opened Grouping
  import opened LegendWriter

  /** Python's `<=` on str. */
  predicate LexLe(a: string, b: string) {
    a == b || LexLess(a, b)
  }

  lemma LexLeTotal(ws: seq<string>)
    ensures TotalOn(ws, LexLe)
  {
    forall i, j | 0 <= i < |ws| && 0 <= j < |ws| ensures LexLe(ws[i], ws[j]) || LexLe(ws[j], ws[i]) {
      if ws[i] != ws[j] {
        LexLessTotal(ws[i], ws[j]);
      }
    }
  }

  lemma {:induction false} LexOrderPairwise(r: seq<string>, i: nat, j: nat)
    requires Sorted(r, LexLe) && NoDup(r) && i < j < |r|
    ensures LexLess(r[i], r[j])
    decreases j - i
  {
    assert LexLe(r[i], r[i + 1]) && r[i] != r[i + 1];
    if i + 1 < j {
      LexOrderPairwise(r, i + 1, j);
      LexLessTransitive(r[i], r[i + 1], r[j]);
    }
  }

  /** Distinct words sorted by `<=` are in strictly ascending order. */
  lemma SortedWordsStrict(r: seq<string>)
    requires Sorted(r, LexLe) && NoDup(r)
    ensures forall i, j :: 0 <= i < j < |r| ==> LexLess(r[i], r[j])
  {
    forall i, j | 0 <= i < j < |r| ensures LexLess(r[i], r[j]) {
      LexOrderPairwise(r, i, j);
    }
  }

  /** The keys of sorted(word_to_cats.items()): a permutation of the words (ordered as
      SortWordsAscending states). The keys are distinct, so the id lists never take part in the
      comparison. */
  function SortWords(ws: seq<string>): (r: seq<string>)
    ensures multiset(r) == multiset(ws)
    ensures forall w :: w in r <==> w in ws
  {
    var r := Sort(ws, LexLe);
    SameElements(ws, r);
    r
  }

  /** Distinct words come out in strictly ascending code-point order. */
  lemma SortWordsAscending(ws: seq<string>)
    requires NoDup(ws)
    ensures var r := SortWords(ws); forall i, j :: 0 <= i < j < |r| ==> LexLess(r[i], r[j])
  {
    LexLeTotal(ws);
    var r := SortWords(ws);
    PermutationNoDup(ws, r);
    SortedWordsStrict(r);
  }

  /** The line written for word `w` with category ids `ids`. */
  function WordLine(w: string, ids: seq<string>): string {
    w + "\t" + Join(SortById(ids), "\t")
  }

  /** A reader splitting a word line at its tabs gets the word back, then the ids in ascending
      numeric order, provided the word holds no tab (stripping removes only surrounding ones). */
  lemma WordLineReadBack(w: string, ids: seq<string>)
    requires '\t' !in w && ids != [] && forall k :: k in ids ==> IsCanonical(k)
    ensures Split(WordLine(w, ids), '\t') == [w] + SortById(ids)
  {
    var sorted := SortById(ids);
    var parts := [w] + sorted;
    assert |sorted| == |ids|;
    assert parts[1..] == sorted;
    assert Join(parts, "\t") == WordLine(w, ids);
    forall i | 0 <= i < |parts| ensures '\t' !in parts[i] {
      if i > 0 {
        assert parts[i] in ids;
        CanonicalIdChars(parts[i]);
      }
    }
    SplitJoin(parts, '\t');
  }

  /** The word lines of the index, in ascending word order. */
  function WordLines(ix: WordIndex): seq<string>
    requires forall w :: w in ix.order ==> w in ix.ids
  {
    var ws := SortWords(ix.order);
    seq(|ws|, i requires 0 <= i < |ws| => WordLine(ws[i], ix.ids[ws[i]]))
  }

  /** The word section has one line per word of the index; the words come in strictly ascending
      order, and the ids on each line in strictly ascending numeric order. */
  lemma WordLinesOrdered(ix: WordIndex)
    requires Valid(ix) && forall w, k :: w in ix.ids && k in ix.ids[w] ==> IsCanonical(k)
    ensures var ws := SortWords(ix.order);
      && |WordLines(ix)| == |ws| == |ix.ids|
      && (forall w :: w in ws <==> w in ix.ids)
      && (forall i, j :: 0 <= i < j < |ws| ==> LexLess(ws[i], ws[j]))
      && (forall i :: 0 <= i < |ws| ==> var sorted := SortById(ix.ids[ws[i]]);
            forall m, n :: 0 <= m < n < |sorted| ==> IdValue(sorted[m]) < IdValue(sorted[n]))
  {
    var ws := SortWords(ix.order);
    assert ix.ids.Keys == set w | w in ix.order;
    NoDupCardinality(ix.order);
    SortWordsAscending(ix.order);
    forall i | 0 <= i < |ws| ensures var sorted := SortById(ix.ids[ws[i]]);
      forall m, n :: 0 <= m < n < |sorted| ==> IdValue(sorted[m]) < IdValue(sorted[n])
    {
      SortByIdStrict(ix.ids[ws[i]]);
    }
  }

  /**
   * The word-line loop of xlsx_to_liwc_dic: for each word in ascending order, the word, a tab and
   * its ids sorted numerically and joined by tabs.
   */
  method WriteWordLines(ix: WordIndex) returns (lines: seq<string>)
    requires forall w :: w in ix.order ==> w in ix.ids
    ensures lines == WordLines(ix)
  {
    var ws := SortWords(ix.order);
    lines := [];
    ghost var all := WordLines(ix);
    for i := 0 to |ws|
      invariant lines == all[..i]
    {
      var catStr := Join(SortById(ix.ids[ws[i]]), "\t");
      assert all[..i + 1] == all[..i] + [WordLine(ws[i], ix.ids[ws[i]])];
      lines := lines + [ws[i] + "\t" + catStr];
    }
    assert all[..|ws|] == all;
  }

  /** The lines of the .dic file for a grid with all metadata rows: the legend, then the word lines. */
  function DicLines(grid: Grid): seq<string>
    requires HasMetadata(grid)
  {
    TreeOfWellLinked(grid);
    GroupedValid(WordPairs(grid));
    Legend(TreeOf(grid)) + WordLines(Grouped(WordPairs(grid)))
  }

  /**
   * xlsx_to_liwc_dic without the file handling: builds the tree, extracts and groups the words,
   * and writes the legend and the word lines. A grid without all metadata rows fails as the
   * tree builder does.
   */
  method XlsxToLiwcDic(grid: Grid) returns (r: Result<seq<string>, IndexError>)
    requires Rectangular(grid)
    ensures |grid| <= DescRow ==> r == Failure(MissingRow(grid))
    ensures HasMetadata(grid) ==> r == Success(DicLines(grid))
  {
    var built := BuildCategoryTree(grid);
    if built.Failure? {
      return Failure(built.error);
    }
    var extracted := ExtractWordCategoryPairs(grid);
    var pairs := extracted.value;
    var ix := GroupWordsByCategories(pairs);
    TreeOfWellLinked(grid);
    GroupedValid(pairs);
    var words := WriteWordLines(ix);
    r := Success(Legend(built.value) + words);
  }

  /** A word gets a line, and an id appears on it, exactly when some data column whose id cell
      normalises to that id holds the word in one of its word cells. */
  lemma WordSectionMeaning(grid: Grid, w: string, id: string)
    requires HasMetadata(grid)
    ensures var ix := Grouped(WordPairs(grid));
      w in ix.ids && id in ix.ids[w] <==>
        exists col: nat, row: nat :: 1 <= col < Width(grid) && NormalizeId(grid[IdRow][col]) == Some(id) && WordAt(grid, col, row, w)
  {
    var pairs := WordPairs(grid);
    GroupedMembers(pairs, w, id);
    WordPairsMembers(grid, Pair(w, id));
    if Pair(w, id) in pairs {
      var i :| 0 <= i < |pairs| && pairs[i] == Pair(w, id);
      assert pairs[i].word == w;
    }
  }
}
