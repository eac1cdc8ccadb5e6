# xlsx_to_liwc_dic in Dafny

A verified model of the converter in `xlsx_to_liwc_dic.py`. It reads a LIWC category sheet and writes a LIWC `.dic` lexicon.

The sheet is a grid of cells:

- Column 0 holds row labels. Every other column describes one category.
- Row 1 holds the parent id. Row 2 holds the category id. Row 3 holds the short name. Row 4 holds the description.
- Rows 5 onwards list the category's words.

The converter runs in four stages:

1. It builds a category tree from the metadata rows.
2. It extracts (word, id) pairs from the word rows.
3. It groups the pairs into a word -> ids index.
4. It writes the `.dic` text. This is a `%`-delimited legend of the categories, depth first, then one line per word with its ids.

Ids go through `str(int(float(x)))`: a cell becomes the decimal string of its value truncated toward zero, or is rejected.

The modules follow the stages:

| file | module | models |
|---|---|---|
| `wrappers.dfy` | `Wrappers` | `Option` and `Result` |
| `seqs.dfy` | `Seqs` | distinctness, the stable insertion sort behind every `sorted(...)`, first occurrences |
| `text.dfy` | `Text` | `str.strip()`, string order, `str()` and `int()` on integers, `'\t'.join` and splitting |
| `cells.dfy` | `Cells` | cells, the grid, and the id normalisation |
| `category_tree.dfy` | `CategoryTree` | `build_category_tree_from_xlsx` |
| `words.dfy` | `Words` | `extract_word_category_pairs` |
| `grouping.dfy` | `Grouping` | `group_words_by_categories` |
| `legend_writer.dfy` | `LegendWriter` | `write_category_tree_section` |
| `dic_writer.dfy` | `DicWriter` | the word-line loop and `xlsx_to_liwc_dic` as a whole |

Python dicts keep insertion order. The `cats` dict and the `defaultdict` are therefore modelled as a map together with the sequence of their keys in insertion order.

Children are kept as ids rather than nested records.

The legend writer is a pure mutual recursion (`Forest`/`Node`) that returns the (id, depth) entries it writes. It terminates because every recursive step adds a category to the chain of ancestors. The set of categories not yet on that chain therefore shrinks (`ChainExtends`). Categories on a parent cycle are never reached from a root, as in the source.

The stages that loop and append are methods proved equal to the specification functions that the lemmas are about:

- `CollectCategories`
- `AssembleTree`
- `AppendColumnPairs`
- `ExtractWordCategoryPairs`
- `GroupWordsByCategories`
- `WriteWordLines`
- `XlsxToLiwcDic`

## Model

| member | source | states |
|---|---|---|
| Cells.Truncate | xlsx_to_liwc_dic.py:24 | `int()` of a float truncates toward zero: the result is within one of the value, on the zero side |
| Cells.NormalizeId | xlsx_to_liwc_dic.py:20-26 | a missing cell gives no id; a number gives the decimal string of its truncated value |
| Cells.ParseTruncatedDecimal | xlsx_to_liwc_dic.py:24 | `int(float(s))` of text that strips to a sign, digits and an optional fractional part is the signed decimal value of those digits truncated toward zero |
| Cells.TruncateDecimal | xlsx_to_liwc_dic.py:24 | truncating a signed decimal toward zero drops its fractional digits, leaving the signed value of its whole-part digits |
| Cells.ParseTruncatedForm | xlsx_to_liwc_dic.py:22-25 | any text the conversion accepts strips to such a signed decimal, and the result is that value truncated; all other text is rejected and its column skipped |
| Cells.NormalizeIdCanonical | xlsx_to_liwc_dic.py:24 | any id the normalisation produces is canonical (`str(int(id)) == id`) |
| Cells.ParseRendered | xlsx_to_liwc_dic.py:24 | `int(float(s))` of a string that `str()` made from an integer gives that integer back |
| Cells.NormalizeIdIdempotent | xlsx_to_liwc_dic.py:24 | normalising the text of a normalised id gives the same id |
| Cells.NumberAndTextAgree | xlsx_to_liwc_dic.py:24 | a whole number and the text of its digits normalise to the same id |
| Text.IdValueOfIntToString | xlsx_to_liwc_dic.py:24 | `int(str(n)) == n`, and `str(n)` is canonical |
| Text.CanonicalIdValueInjective | xlsx_to_liwc_dic.py:60 | distinct canonical ids have distinct `int()` values, so sorting by `int` never ties |
| Text.StripSpec | xlsx_to_liwc_dic.py:82 | `s.strip()` is the infix of `s` left after removing whitespace from both ends, and it neither starts nor ends with whitespace |
| Text.StripIdempotent | xlsx_to_liwc_dic.py:82 | stripping a stripped string changes nothing |
| Text.LexLessTotal | xlsx_to_liwc_dic.py:105 | any two different words are ordered by `<` on str one way or the other |
| Text.LexLessTransitive | xlsx_to_liwc_dic.py:105 | `<` on str is transitive |
| Text.SplitJoin | xlsx_to_liwc_dic.py:106 | splitting `sep.join(parts)` at a one-character separator that no part contains gives back the parts |
| CategoryTree.ScanColumn | xlsx_to_liwc_dic.py:19-45 | a column gives a record exactly when its id cell normalises and its name cell is not missing; the record has the normalised id, `str(name)`, the description or `""` when it is missing, no children, and a parent that is None when the parent cell is missing, does not normalise, or equals the id, and the normalised parent id otherwise |
| CategoryTree.Collected | xlsx_to_liwc_dic.py:18-45 | the dict after inserting every record lists each of its keys exactly once and maps each key to a record with that id |
| CategoryTree.CollectedKeys | xlsx_to_liwc_dic.py:39 | an id is a key exactly when some column's record has that id |
| CategoryTree.CollectedLastWins | xlsx_to_liwc_dic.py:39-45 | the record stored for an id is the one from the last column defining it |
| CategoryTree.ChildrenOf | xlsx_to_liwc_dic.py:48-51 | a category's children are exactly the keys whose parent is that category, without repetitions |
| CategoryTree.RootsOf | xlsx_to_liwc_dic.py:48-53 | the roots are exactly the keys whose parent is None or not a key, without repetitions |
| CategoryTree.TreePlacement | xlsx_to_liwc_dic.py:47-53 | assembly keeps every key and every field but `children`; a key is a root exactly when it is not linked to a known parent; it is a child of `p` exactly when its parent is `p`; roots and child lists have no repetitions |
| CategoryTree.CategoryIffColumn | xlsx_to_liwc_dic.py:20-28 | an id is a category exactly when some data column has an id cell normalising to it and a non-missing name cell |
| CategoryTree.LastColumnWins | xlsx_to_liwc_dic.py:39-45 | when no later column has the same id, the tree holds the column's record, with its name, description and parent, unchanged but for its children |
| CategoryTree.ExactlyOnce | xlsx_to_liwc_dic.py:47-53 | every category is either a root or in the children of some category, never both, and in the children of at most one category |
| CategoryTree.TreeOfComplete | xlsx_to_liwc_dic.py:47-53 | in the built tree every category without a known parent is a root, and every category is in its parent's children |
| CategoryTree.TreeOfWellLinked | xlsx_to_liwc_dic.py:39-53 | the built tree is what the writer needs: ids match keys and are canonical, no category is its own parent, children and roots are known, distinct and placed by their parent link |
| CategoryTree.CollectCategories | xlsx_to_liwc_dic.py:18-45 | the scanning loop produces exactly the collected dict |
| CategoryTree.AssembleTree | xlsx_to_liwc_dic.py:47-53 | the linking loop produces exactly the linked tree |
| CategoryTree.BuildCategoryTree | xlsx_to_liwc_dic.py:5-54 | a grid without rows 2-4 fails with the index of the first missing row read; any other grid gives the tree of its columns |
| Words.CellWordShape | xlsx_to_liwc_dic.py:80-83 | a missing or all-whitespace cell gives no word; every word given is non-empty and stripped |
| Words.PairsOfMembers | xlsx_to_liwc_dic.py:81-84 | a column's pairs are exactly its words paired with the column's id |
| Words.WordPairsMembers | xlsx_to_liwc_dic.py:68-85 | a (word, id) pair is emitted exactly when some data column whose id cell normalises to the id has a cell in rows 5+ that strips to the word |
| Words.WordPairsWellFormed | xlsx_to_liwc_dic.py:75-84 | every emitted pair has a non-empty stripped word and a canonical id |
| Words.OnlyIdAndWordRowsMatter | xlsx_to_liwc_dic.py:70-80 | grids that agree on the id row and the word rows give the same pairs, whatever their parent, name and description rows hold, so a missing name does not suppress a column's words |
| Words.AppendColumnPairs | xlsx_to_liwc_dic.py:80-84 | the inner loop appends the column's pairs in row order |
| Words.ExtractWordCategoryPairs | xlsx_to_liwc_dic.py:68-85 | a grid without an id row fails at row 2; otherwise the result is every column's pairs, column by column |
| Grouping.DedupMembers | xlsx_to_liwc_dic.py:92-93 | keeping only first occurrences gives a list without repetitions that holds the same elements |
| Grouping.DedupFirstSeen | xlsx_to_liwc_dic.py:92-93 | the kept elements are in the order of their first occurrences |
| Grouping.GroupedIsDedup | xlsx_to_liwc_dic.py:88-94 | the index's keys are the distinct words in first-seen order, and each word's list is the distinct ids paired with it in first-seen order |
| Grouping.GroupedMembers | xlsx_to_liwc_dic.py:90-93 | a word is a key exactly when some pair has it, and an id is in its list exactly when the input holds that (word, id) pair |
| Grouping.GroupedValid | xlsx_to_liwc_dic.py:90-94 | the index has distinct keys, and each list is non-empty and free of repetitions |
| Grouping.GroupWordsByCategories | xlsx_to_liwc_dic.py:88-94 | the loop over the pairs produces exactly the grouped index |
| LegendWriter.CategoryLineReadBack | xlsx_to_liwc_dic.py:61 | a reader who counts four spaces per level and reads up to the first tab gets back the written category's id and depth |
| LegendWriter.SortById | xlsx_to_liwc_dic.py:60 | `sorted(..., key=int)` gives a permutation of the ids |
| LegendWriter.SortByIdAscending | xlsx_to_liwc_dic.py:60 | the sorted ids are in ascending numeric order |
| LegendWriter.SortByIdStrict | xlsx_to_liwc_dic.py:60 | distinct canonical ids come out in strictly ascending numeric order |
| LegendWriter.ChainExtends | xlsx_to_liwc_dic.py:62-63 | a category reached below a chain of ancestors is not already on it, and its children are placed below it, so the recursion terminates |
| LegendWriter.ForestIndented | xlsx_to_liwc_dic.py:57-65 | a section written below a chain names known categories, indents them at least to the chain's level, puts only categories placed below the chain at that level, starts with the first sorted id, and indents every deeper entry under its parent's entry |
| LegendWriter.NodeIndented | xlsx_to_liwc_dic.py:60-63 | a category's line comes first, at its level, followed by its children's section, which is indented deeper and writes every child one level below the category |
| LegendWriter.NodeChildWritten | xlsx_to_liwc_dic.py:62-63 | each child of a written category appears in that category's run of entries, after its line and one level deeper |
| LegendWriter.ForestSiblingsOrdered | xlsx_to_liwc_dic.py:60 | siblings, meaning entries at the same depth with no shallower entry between, are in ascending numeric id order |
| LegendWriter.LegendLines | xlsx_to_liwc_dic.py:58-65 | the legend starts and ends with a `%` line, and each line in between reads back as the entry written there |
| LegendWriter.OutlineStructure | xlsx_to_liwc_dic.py:57-65 | every entry names a category; a depth-0 entry has no known parent; a deeper entry's parent is the nearest entry above it that is one level less indented; siblings are in ascending numeric id order |
| LegendWriter.RootsWritten | xlsx_to_liwc_dic.py:60-61 | every root is written at depth 0 |
| LegendWriter.ForestRun | xlsx_to_liwc_dic.py:60-63 | the subtree of each id of a section is written inside that section as one contiguous run |
| LegendWriter.SubtreeWritten | xlsx_to_liwc_dic.py:57-65 | for a chain of parent links that starts at a root, the last category's whole subtree is a contiguous run of the legend |
| LegendWriter.ReachableWritten | xlsx_to_liwc_dic.py:57-65 | every category on a chain of parent links that starts at a root is written, indented one level per ancestor |
| LegendWriter.BuiltTreeReachableWritten | xlsx_to_liwc_dic.py:47-65 | in the legend of the tree built from a grid, every category reached from a root through parent links is written at its depth |
| LegendWriter.BuiltLegendLines | xlsx_to_liwc_dic.py:47-65 | the legend of the tree built from a grid is delimited by `%` lines, and every line in between reads back as the entry written there |
| DicWriter.SortWords | xlsx_to_liwc_dic.py:105 | `sorted(items())` gives a permutation of the words |
| DicWriter.SortWordsAscending | xlsx_to_liwc_dic.py:105 | distinct words come out strictly ascending by `<` on str |
| DicWriter.WordLineReadBack | xlsx_to_liwc_dic.py:106-107 | splitting a word line at its tabs gives the word, then its ids in ascending numeric order |
| DicWriter.WordLinesOrdered | xlsx_to_liwc_dic.py:105-107 | there is one word line per key; the words are strictly ascending, and each line's ids are strictly ascending by value |
| DicWriter.WriteWordLines | xlsx_to_liwc_dic.py:105-107 | the loop writes exactly the word lines, in sorted word order |
| DicWriter.XlsxToLiwcDic | xlsx_to_liwc_dic.py:97-107 | the whole pipeline fails as the tree builder does on a grid without metadata rows, and otherwise yields the legend followed by the word lines |
| DicWriter.WordSectionMeaning | xlsx_to_liwc_dic.py:100-101 | a word has a line listing an id exactly when some column whose id cell normalises to that id holds the word in its word rows |

## Left out

- Loading the workbook (`pd.read_excel`, `iloc`, `dropna`, `astype(str)`) is not modelled. The model's input is the grid of loaded cells. A data frame is rectangular, so every operation requires `Rectangular(grid)`.
- Writing the file is not modelled: opening it, its UTF-8 encoding, and the `\n` after each line. The model yields the sequence of lines the source writes in order.
- The command line is not modelled: argument checks, the usage message, the exit code, and the output-name derivation.
- Floating point is not modelled. A number cell holds its exact value, so infinities and NaN are not representable; pandas reports NaN as a missing cell. For a number, `str()` of the loaded value is taken as given (`shown`), because whether pandas produced an int or a float is outside the model.
- Cells.ParseTruncated: only decimal text is accepted: optional surrounding whitespace, an optional sign, and digits with an optional fractional part. Text that Python's `float()` also accepts but that is not plain decimal is rejected by the model: exponents, underscores and non-ASCII digits. `inf` and `nan` text is rejected, as in the source, where `int()` raises for it and the bare `except` skips the column. The rounding of text with more digits than a double holds is not modelled. Booleans and dates are not modelled as cells.
- LegendWriter.ReadLegendLine: recovers only the id and the depth of a line. A name may itself contain ` (`, so the name and the description cannot be told apart in general.
- DicWriter.WordLineReadBack: holds only for words without an inner tab. Stripping removes only surrounding whitespace, so a word cell with an inner tab yields a line that a reader splits into a different word and ids.
- LegendWriter.OutlineStructure: states where each written entry sits, and `ReachableWritten` states that every category reachable from a root is written, but no lemma states that a category is written at most once.
- CategoryTree.Collected: states which keys the dict holds, each once, but not their order, which the output does not depend on because the writer sorts by id.
