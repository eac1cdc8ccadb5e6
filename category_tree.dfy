/**
 * The category tree builder: metadata rows 1-4 of every data column become category records
 * keyed by normalised id, and each record is then linked under its parent or made a root.
 */
module CategoryTree {
  import opened Wrappers
  import opened Seqs
  import opened Text
  import opened Cells

  /** Row indices of the metadata block (row 0, the word counts, is not read). */
  const ParentRow: nat := 1
  const IdRow: nat := 2
  const NameRow: nat := 3
  const DescRow: nat := 4

  /** A category record; `children` holds the ids of the categories linked under it. */
  datatype Category = Category(id: string, name: string, desc: string, parent: Option<string>, children: seq<string>)

  /** The IndexError pandas raises when a metadata row the converter reads does not exist. */
  datatype IndexError = RowOutOfBounds(row: nat)

  /** The id-to-record dict, with the order in which its keys were first inserted. */
  datatype Cats = Cats(order: seq<string>, byId: map<string, Category>)

  /** The builder's result: every record by id, and the ids of the roots in dict order. */
  datatype Tree = Tree(cats: map<string, Category>, roots: seq<string>)

  /** The grid holds every metadata row the builder reads. */
  predicate HasMetadata(grid: Grid) {
    Rectangular(grid) && |grid| > DescRow
  }

  /** The record column `col` contributes, or None when the column is skipped. */
  function ScanColumn(grid: Grid, col: nat): (r: Option<Category>)
    requires HasMetadata(grid) && 1 <= col < Width(grid)
    ensures r.Some? <==> NormalizeId(grid[IdRow][col]).Some? && !grid[NameRow][col].Missing?
    ensures r.Some? ==> Some(r.value.id) == NormalizeId(grid[IdRow][col])
    ensures r.Some? ==> r.value.name == CellText(grid[NameRow][col])
    ensures r.Some? ==> r.value.desc == if grid[DescRow][col].Missing? then "" else CellText(grid[DescRow][col])
    ensures r.Some? ==> r.value.parent != Some(r.value.id)
    ensures r.Some? ==> (r.value.parent.None? <==> NormalizeId(grid[ParentRow][col]) in {None, Some(r.value.id)})
    ensures r.Some? && r.value.parent.Some? ==> r.value.parent == NormalizeId(grid[ParentRow][col])
    ensures r.Some? ==> r.value.children == []
  {
    match NormalizeId(grid[IdRow][col])
    case None => None
    case Some(cid) =>
      if grid[NameRow][col].Missing? then None
      else
        var parent := NormalizeId(grid[ParentRow][col]);
        var desc := if grid[DescRow][col].Missing? then "" else CellText(grid[DescRow][col]);
        Some(Category(cid, CellText(grid[NameRow][col]), desc, if parent == Some(cid) then None else parent, []))
  }

  /** A record as the scan produces it: no children yet, and not its own parent. */
  predicate Fresh(c: Category) {
    c.children == [] && c.parent != Some(c.id)
  }

  /** The scan result of every data column, column 1 first. */
  function Scans(grid: Grid): (s: seq<Option<Category>>)
    requires HasMetadata(grid)
    ensures |s| == DataColumns(grid)
    ensures forall i :: 0 <= i < |s| ==> s[i] == ScanColumn(grid, i + 1)
  {
    seq(DataColumns(grid), i requires 0 <= i < DataColumns(grid) => ScanColumn(grid, i + 1))
  }

  /** Some scan in `scans` yields a record with id `k`. */
  predicate Defines(scans: seq<Option<Category>>, i: nat, k: string)
    requires i < |scans|
  {
    scans[i].Some? && scans[i].value.id == k
  }

  /** The dict after the scans of `scans` have been inserted in turn; a later record overwrites an earlier one. */
  function Collected(scans: seq<Option<Category>>): (d: Cats)
    requires forall i :: 0 <= i < |scans| && scans[i].Some? ==> Fresh(scans[i].value)
    ensures NoDup(d.order)
    ensures forall k :: k in d.order <==> k in d.byId
    ensures forall k :: k in d.byId ==> d.byId[k].id == k && Fresh(d.byId[k])
  {
    if scans == [] then Cats([], map[])
    else
      var prev := Collected(scans[..|scans| - 1]);
      match scans[|scans| - 1]
      case None => prev
      case Some(c) =>
        Cats(if c.id in prev.byId then prev.order else prev.order + [c.id], prev.byId[c.id := c])
  }

  /** Inserting one more scan result into the dict. */
  lemma CollectedStep(scans: seq<Option<Category>>, n: nat)
    requires forall i :: 0 <= i < |scans| && scans[i].Some? ==> Fresh(scans[i].value)
    requires n < |scans|
    ensures var prev := Collected(scans[..n]);
      Collected(scans[..n + 1]) == match scans[n]
        case None => prev
        case Some(c) => Cats(if c.id in prev.byId then prev.order else prev.order + [c.id], prev.byId[c.id := c])
  {
    assert scans[..n + 1][..n] == scans[..n];
  }

  /** A category exists exactly when some scan defines its id. */
  lemma {:induction false} CollectedKeys(scans: seq<Option<Category>>, k: string)
    requires forall i :: 0 <= i < |scans| && scans[i].Some? ==> Fresh(scans[i].value)
    ensures k in Collected(scans).byId <==> exists i :: 0 <= i < |scans| && Defines(scans, i, k)
  {
    if scans != [] {
      var n := |scans| - 1;
      var init := scans[..n];
      CollectedKeys(init, k);
      assert forall i :: 0 <= i < n ==> Defines(init, i, k) == Defines(scans, i, k);
      if k in Collected(scans).byId && k !in Collected(init).byId {
        assert Defines(scans, n, k);
      }
    }
  }

  /** Last write wins: the record stored for an id is the one of the last scan defining it. */
  lemma {:induction false} CollectedLastWins(scans: seq<Option<Category>>, i: nat)
    requires forall j :: 0 <= j < |scans| && scans[j].Some? ==> Fresh(scans[j].value)
    requires i < |scans| && scans[i].Some?
    requires forall j :: i < j < |scans| ==> !Defines(scans, j, scans[i].value.id)
    ensures scans[i].value.id in Collected(scans).byId
    ensures Collected(scans).byId[scans[i].value.id] == scans[i].value
  {
    var n := |scans| - 1;
    if i < n {
      assert !Defines(scans, n, scans[i].value.id);
      assert forall j :: i < j < n ==> Defines(scans[..n], j, scans[i].value.id) == Defines(scans, j, scans[i].value.id);
      CollectedLastWins(scans[..n], i);
    }
  }

  /** Python's `if parent_id and parent_id in cats`: the record is linked under a known parent. */
  predicate Linked(byId: map<string, Category>, k: string)
    requires k in byId
  {
    byId[k].parent.Some? && byId[k].parent.value in byId
  }

  /** The ids in `order`, in that order, whose parent is `p`. */
  function ChildrenOf(order: seq<string>, byId: map<string, Category>, p: string): (r: seq<string>)
    requires forall k :: k in order ==> k in byId
    ensures forall k :: k in r <==> k in order && byId[k].parent == Some(p)
    ensures NoDup(order) ==> NoDup(r)
  {
    if order == [] then []
    else
      var last := order[|order| - 1];
      var prev := ChildrenOf(order[..|order| - 1], byId, p);
      assert forall k :: k in order <==> k in order[..|order| - 1] || k == last;
      if byId[last].parent == Some(p) then prev + [last] else prev
  }

  /** The ids in `order`, in that order, that are not linked under a known parent. */
  function RootsOf(order: seq<string>, byId: map<string, Category>): (r: seq<string>)
    requires forall k :: k in order ==> k in byId
    ensures forall k :: k in r <==> k in order && !Linked(byId, k)
    ensures NoDup(order) ==> NoDup(r)
  {
    if order == [] then []
    else
      var last := order[|order| - 1];
      var prev := RootsOf(order[..|order| - 1], byId);
      assert forall k :: k in order <==> k in order[..|order| - 1] || k == last;
      if !Linked(byId, last) then prev + [last] else prev
  }

  /** Every record of `byId` with the ids of `prefix` whose parent it is as its children. */
  function WithChildren(prefix: seq<string>, byId: map<string, Category>): (m: map<string, Category>)
    requires forall k :: k in prefix ==> k in byId
    ensures m.Keys == byId.Keys
  {
    map k | k in byId :: byId[k].(children := ChildrenOf(prefix, byId, k))
  }

  /** Taking one more id of `order` appends it to its parent's children. */
  lemma LinkStep(order: seq<string>, byId: map<string, Category>, i: nat)
    requires i < |order| && forall k :: k in order ==> k in byId
    ensures var k := order[i]; var before := WithChildren(order[..i], byId);
      WithChildren(order[..i + 1], byId)
        == if Linked(byId, k) then before[byId[k].parent.value := before[byId[k].parent.value].(children := before[byId[k].parent.value].children + [k])]
           else before
  {
    var k := order[i];
    assert order[..i + 1][..i] == order[..i];
    forall q | q in byId
      ensures ChildrenOf(order[..i + 1], byId, q) == ChildrenOf(order[..i], byId, q) + if byId[k].parent == Some(q) then [k] else []
    {
    }
  }

  /** Taking one more id of `order` appends it to the roots unless it is linked. */
  lemma RootsStep(order: seq<string>, byId: map<string, Category>, i: nat)
    requires i < |order| && forall k :: k in order ==> k in byId
    ensures RootsOf(order[..i + 1], byId) == RootsOf(order[..i], byId) + if Linked(byId, order[i]) then [] else [order[i]]
  {
    assert order[..i + 1][..i] == order[..i];
  }

  /** Tree assembly: each record gets the ids linked under it, in dict order; the rest are roots. */
  function Link(d: Cats): Tree
    requires forall k :: k in d.order <==> k in d.byId
  {
    Tree(WithChildren(d.order, d.byId), RootsOf(d.order, d.byId))
  }

  /** What build_category_tree_from_xlsx returns for a grid with all metadata rows. */
  function TreeOf(grid: Grid): Tree
    requires HasMetadata(grid)
  {
    Link(Collected(Scans(grid)))
  }

  /** The failure build_category_tree_from_xlsx raises for a grid without all metadata rows. */
  function MissingRow(grid: Grid): IndexError
    requires |grid| <= DescRow
  {
    RowOutOfBounds(if |grid| < IdRow then IdRow else |grid|)
  }

  /** Where tree assembly puts each record: under the parent it names when that parent is a key,
      among the roots otherwise; every other field is the scanned record's. */
  lemma TreePlacement(grid: Grid)
    requires HasMetadata(grid)
    ensures var d, t := Collected(Scans(grid)), TreeOf(grid);
      && t.cats.Keys == d.byId.Keys
      && (forall k :: k in t.cats ==> t.cats[k] == d.byId[k].(children := t.cats[k].children))
      && (forall k :: k in t.roots <==> k in t.cats && !Linked(t.cats, k))
      && (forall p, k :: p in t.cats ==> (k in t.cats[p].children <==> k in t.cats && t.cats[k].parent == Some(p)))
      && NoDup(t.roots)
      && (forall p :: p in t.cats ==> NoDup(t.cats[p].children))
  {
    var d, t := Collected(Scans(grid)), TreeOf(grid);
    forall k | k in t.roots ensures k in t.cats && !Linked(t.cats, k) {
      assert Linked(t.cats, k) <==> Linked(d.byId, k);
    }
    forall k | k in t.cats && !Linked(t.cats, k) ensures k in t.roots {
      assert Linked(t.cats, k) <==> Linked(d.byId, k);
    }
  }

  /** Column `col` has an id cell normalising to `k` and a name cell that is not missing. */
  predicate Accepts(grid: Grid, col: nat, k: string)
    requires HasMetadata(grid) && 1 <= col < Width(grid)
  {
    NormalizeId(grid[IdRow][col]) == Some(k) && !grid[NameRow][col].Missing?
  }

  /** A column whose id normalises and whose name is present yields a category with that id. */
  lemma ColumnGivesCategory(grid: Grid, col: nat, k: string)
    requires HasMetadata(grid) && 1 <= col < Width(grid) && Accepts(grid, col, k)
    ensures k in TreeOf(grid).cats
  {
    var scans := Scans(grid);
    assert Defines(scans, col - 1, k);
    CollectedKeys(scans, k);
  }

  /** Every category comes from a column whose id normalises to its id and whose name is present. */
  lemma CategoryHasColumn(grid: Grid, k: string)
    requires HasMetadata(grid) && k in TreeOf(grid).cats
    ensures exists col :: 1 <= col < Width(grid) && Accepts(grid, col, k)
  {
    var scans := Scans(grid);
    CollectedKeys(scans, k);
    var i :| 0 <= i < |scans| && Defines(scans, i, k);
    assert Accepts(grid, i + 1, k);
  }

  /** A category with id `k` exists exactly when some data column has an id cell normalising to `k`
      and a name cell that is not missing. */
  lemma CategoryIffColumn(grid: Grid, k: string)
    requires HasMetadata(grid)
    ensures k in TreeOf(grid).cats <==> exists col :: 1 <= col < Width(grid) && Accepts(grid, col, k)
  {
    if k in TreeOf(grid).cats {
      CategoryHasColumn(grid, k);
    }
    if exists col :: 1 <= col < Width(grid) && Accepts(grid, col, k) {
      var col :| 1 <= col < Width(grid) && Accepts(grid, col, k);
      ColumnGivesCategory(grid, col, k);
    }
  }

  /** When two columns normalise to the same id, the category holds the later column's record:
      the stored record is the one of the last column defining its id. */
  lemma LastColumnWins(grid: Grid, col: nat)
    requires HasMetadata(grid) && 1 <= col < Width(grid) && ScanColumn(grid, col).Some?
    requires forall c :: col < c < Width(grid) ==> ScanColumn(grid, c).None? || ScanColumn(grid, c).value.id != ScanColumn(grid, col).value.id
    ensures var c, t := ScanColumn(grid, col).value, TreeOf(grid);
      c.id in t.cats && t.cats[c.id] == c.(children := t.cats[c.id].children)
  {
    var scans := Scans(grid);
    var c := ScanColumn(grid, col).value;
    forall j | col - 1 < j < |scans| ensures !Defines(scans, j, c.id) {
      assert scans[j] == ScanColumn(grid, j + 1);
    }
    CollectedLastWins(scans, col - 1);
    TreePlacement(grid);
  }

  /** The assembled tree is a forest over the records: every record is either a root or in
      exactly one children list, and never both. */
  lemma ExactlyOnce(grid: Grid, k: string)
    requires HasMetadata(grid) && k in TreeOf(grid).cats
    ensures var t := TreeOf(grid);
      && (k in t.roots <==> !exists p :: p in t.cats && k in t.cats[p].children)
      && forall p, q :: p in t.cats && q in t.cats && k in t.cats[p].children && k in t.cats[q].children ==> p == q
  {
    TreePlacement(grid);
  }

  /** What the writer relies on: ids match keys, no record is its own parent, children and roots
      are distinct known ids placed by their parent link. */
  predicate WellLinked(t: Tree) {
    && (forall k :: k in t.cats ==> t.cats[k].id == k && t.cats[k].parent != Some(k))
    && (forall p, c :: p in t.cats && c in t.cats[p].children ==> c in t.cats && t.cats[c].parent == Some(p))
    && (forall k :: k in t.roots ==> k in t.cats && !Linked(t.cats, k))
    && NoDup(t.roots)
    && (forall p :: p in t.cats ==> NoDup(t.cats[p].children))
  }

  /** Nothing is left out of the tree's links: every category without a known parent is a root,
      and every category with a known parent is in that parent's children. */
  ghost predicate Complete(t: Tree) {
    && (forall k :: k in t.cats && !Linked(t.cats, k) ==> k in t.roots)
    && (forall p, c :: p in t.cats && c in t.cats && t.cats[c].parent == Some(p) ==> c in t.cats[p].children)
  }

  /** The builder places every category: as a root or under its parent. */
  lemma TreeOfComplete(grid: Grid)
    requires HasMetadata(grid)
    ensures Complete(TreeOf(grid))
  {
    TreePlacement(grid);
  }

  /** Every category id is the str() of an integer. */
  ghost predicate CanonicalKeys(t: Tree) {
    forall k :: k in t.cats ==> IsCanonical(k)
  }

  lemma TreeOfWellLinked(grid: Grid)
    requires HasMetadata(grid)
    ensures WellLinked(TreeOf(grid)) && CanonicalKeys(TreeOf(grid))
  {
    TreePlacement(grid);
    forall k | k in TreeOf(grid).cats ensures IsCanonical(k) {
      CategoryHasColumn(grid, k);
      var col :| 1 <= col < Width(grid) && Accepts(grid, col, k);
      NormalizeIdCanonical(grid[IdRow][col]);
    }
  }

  /** The scanning loop of build_category_tree_from_xlsx: one record per accepted column, later columns overwriting earlier ones. */
  method CollectCategories(grid: Grid) returns (d: Cats)
    requires HasMetadata(grid)
    ensures d == Collected(Scans(grid))
  {
    ghost var scans := Scans(grid);
    var order: seq<string> := [];
    var cats: map<string, Category> := map[];
    var col := 1;
    while col < Width(grid)
      invariant 1 <= col && col - 1 <= DataColumns(grid)
      invariant Cats(order, cats) == Collected(scans[..col - 1])
    {
      var scanned := ScanColumn(grid, col);
      CollectedStep(scans, col - 1);
      if scanned.Some? {
        var c := scanned.value;
        if c.id !in cats {
          order := order + [c.id];
        }
        cats := cats[c.id := c];
      }
      col := col + 1;
    }
    assert scans[..col - 1] == scans;
    d := Cats(order, cats);
  }

  /** The linking loop of build_category_tree_from_xlsx: walks the dict in insertion order and appends
      each id to its parent's children when the parent is a key, to the roots otherwise. */
  method AssembleTree(d: Cats) returns (t: Tree)
    requires forall k :: k in d.order <==> k in d.byId
    requires forall k :: k in d.byId ==> d.byId[k].children == []
    ensures t == Link(d)
  {
    var cats := d.byId;
    var roots: seq<string> := [];
    assert cats == WithChildren([], d.byId);
    var i := 0;
    while i < |d.order|
      invariant 0 <= i <= |d.order|
      invariant cats == WithChildren(d.order[..i], d.byId)
      invariant roots == RootsOf(d.order[..i], d.byId)
    {
      var k := d.order[i];
      LinkStep(d.order, d.byId, i);
      RootsStep(d.order, d.byId, i);
      var parent := cats[k].parent;
      if parent.Some? && parent.value in cats {
        cats := cats[parent.value := cats[parent.value].(children := cats[parent.value].children + [k])];
      } else {
        roots := roots + [k];
      }
      i := i + 1;
    }
    assert d.order[..i] == d.order;
    t := Tree(cats, roots);
  }

  /** build_category_tree_from_xlsx: fails when a metadata row is missing, else scans and links. */
  method BuildCategoryTree(grid: Grid) returns (r: Result<Tree, IndexError>)
    requires Rectangular(grid)
    ensures |grid| <= DescRow ==> r == Failure(MissingRow(grid))
    ensures HasMetadata(grid) ==> r == Success(TreeOf(grid))
  {
    if |grid| <= DescRow {
      return Failure(MissingRow(grid));
    }
    var d := CollectCategories(grid);
    var t := AssembleTree(d);
    r := Success(t);
  }
}
