/**
 * The category legend that write_category_tree_section produces: a `%` line, then every category
 * reachable from a root, depth first, siblings in ascending numeric id order, each on a line
 * indented by four spaces per level, then a closing `%` line.
 */
module LegendWriter {
  import opened Wrappers
  import opened Seqs
  import opened Text
  import opened Cells
  import opened CategoryTree

  /** The line that opens and closes the legend. */
  const Delimiter: string := "%"

  /** `n` spaces. */
  function Spaces(n: nat): (s: string)
    ensures |s| == n
    ensures forall i :: 0 <= i < n ==> s[i] == ' '
  {
    if n == 0 then "" else " " + Spaces(n - 1)
  }

  /** A category's legend line at nesting depth `depth`. */
  function CategoryLine(c: Category, depth: nat): string {
    Spaces(4 * depth) + c.id + "\t" + c.name + " (" + c.desc + ")"
  }

  /** A legend line as a reader sees it: the category id it names and its nesting depth. */
  datatype Entry = Entry(id: string, depth: nat)

  /** One level of legend indentation. */
  const Indent: string := "    "

  /** How a reader of the legend recovers a line's entry: one level per four leading spaces (a
      partial level is malformed), then the id up to the first tab. */
  function ReadLegendLine(line: string): Option<Entry> {
    ReadIndented(line, 0)
  }

  /** Reads the rest of a legend line, `depth` levels having been read already. */
  function ReadIndented(line: string, depth: nat): Option<Entry>
    decreases |line|
  {
    if |line| >= 4 && line[..4] == Indent then ReadIndented(line[4..], depth + 1)
    else if line != [] && line[0] == ' ' then None
    else if '\t' !in line then None
    else Some(Entry(line[..FirstIndex(line, '\t')], depth))
  }

  /** Reading past `depth` levels of indentation adds `depth` levels. */
  lemma {:induction false} ReadIndentedSpaces(depth: nat, read: nat, rest: string)
    ensures ReadIndented(Spaces(4 * depth) + rest, read) == ReadIndented(rest, read + depth)
  {
    if depth > 0 {
      var line := Spaces(4 * depth) + rest;
      assert line[..4] == Indent;
      assert line[4..] == Spaces(4 * (depth - 1)) + rest;
      ReadIndentedSpaces(depth - 1, read + 1, rest);
    } else {
      assert Spaces(0) + rest == rest;
    }
  }

  /** An id a reader can find on a legend line: non-empty, not starting with a space, free of tabs. */
  predicate Readable(id: string) {
    id != [] && id[0] != ' ' && '\t' !in id
  }

  /** A canonical id is non-empty and made of digits and a leading minus sign only, so it is readable. */
  lemma CanonicalIdChars(id: string)
    requires IsCanonical(id)
    ensures Readable(id)
  {
    var v := IdValue(id);
    assert IntToString(v) == id;
    forall i | 0 <= i < |id| ensures id[i] != '\t' && id[i] != ' ' {
      if v < 0 && i > 0 {
        assert id[i] == id[1..][i - 1];
      }
    }
  }

  /** The first tab after a tab-free id is the one right after it. */
  lemma FirstTabAfter(id: string, tail: string)
    requires '\t' !in id
    ensures FirstIndex(id + "\t" + tail, '\t') == |id|
  {
    var rest := id + "\t" + tail;
    assert rest[|id|] == '\t';
    var i := FirstIndex(rest, '\t');
    assert i <= |id| by {
      assert '\t' in rest[..|id| + 1];
    }
    assert i >= |id| by {
      assert forall k :: 0 <= k < |id| ==> rest[k] == id[k];
    }
  }

  /** A line of indentation, an id free of tabs and not starting with a space, a tab and any tail
      reads back as that id at that depth. */
  lemma ReadLegendLineOf(depth: nat, id: string, tail: string)
    requires Readable(id)
    ensures ReadLegendLine(Spaces(4 * depth) + id + "\t" + tail) == Some(Entry(id, depth))
  {
    var rest := id + "\t" + tail;
    assert Spaces(4 * depth) + id + "\t" + tail == Spaces(4 * depth) + rest;
    ReadIndentedSpaces(depth, 0, rest);
    assert rest[0] == id[0] && rest[|id|] == '\t';
    FirstTabAfter(id, tail);
    assert rest[..|id|] == id;
  }

  /** A reader recovers the id and the depth from every line the writer emits. */
  lemma CategoryLineReadBack(c: Category, depth: nat)
    requires Readable(c.id)
    ensures ReadLegendLine(CategoryLine(c, depth)) == Some(Entry(c.id, depth))
  {
    var tail := c.name + " (" + c.desc + ")";
    assert CategoryLine(c, depth) == Spaces(4 * depth) + c.id + "\t" + tail;
    ReadLegendLineOf(depth, c.id, tail);
  }

  /** The ordering key of sorted(..., key=int). */
  predicate IdLe(a: string, b: string) {
    IdValue(a) <= IdValue(b)
  }

  lemma {:induction false} IdOrderPairwise(r: seq<string>, i: nat, j: nat)
    requires Sorted(r, IdLe) && i < j < |r|
    ensures IdValue(r[i]) <= IdValue(r[j])
    decreases j - i
  {
    assert IdLe(r[i], r[i + 1]);
    if i + 1 < j {
      IdOrderPairwise(r, i + 1, j);
    }
  }

  /** Python's sorted(ids, key=int): a permutation of the ids (ordered as SortByIdAscending states). */
  function SortById(ids: seq<string>): (r: seq<string>)
    ensures multiset(r) == multiset(ids)
    ensures forall k :: k in r <==> k in ids
  {
    var r := Sort(ids, IdLe);
    SameElements(ids, r);
    r
  }

  /** sorted(ids, key=int) lists the ids in ascending numeric order. */
  lemma SortByIdAscending(ids: seq<string>)
    ensures IdsAscending(SortById(ids))
  {
    assert TotalOn(ids, IdLe);
    SortedByIdPairwise(SortById(ids));
  }

  lemma SortedByIdPairwise(r: seq<string>)
    requires Sorted(r, IdLe)
    ensures forall i, j :: 0 <= i < j < |r| ==> IdValue(r[i]) <= IdValue(r[j])
  {
    forall i, j | 0 <= i < j < |r| ensures IdValue(r[i]) <= IdValue(r[j]) {
      IdOrderPairwise(r, i, j);
    }
  }

  /** Distinct canonical ids come out in strictly ascending numeric order. */
  lemma SortByIdStrict(ids: seq<string>)
    requires NoDup(ids) && forall k :: k in ids ==> IsCanonical(k)
    ensures var r := SortById(ids); forall i, j :: 0 <= i < j < |r| ==> IdValue(r[i]) < IdValue(r[j])
  {
    var r := SortById(ids);
    SortByIdAscending(ids);
    PermutationNoDup(ids, r);
    forall i, j | 0 <= i < j < |r| ensures IdValue(r[i]) < IdValue(r[j]) {
      CanonicalIdValueInjective(r[i], r[j]);
    }
  }

  /** `path` is a chain of ancestors from a root down: known, distinct ids, each the parent of the next. */
  ghost predicate Chain(t: Tree, path: seq<string>) {
    && (forall i :: 0 <= i < |path| ==> path[i] in t.cats)
    && NoDup(path)
    && (|path| > 0 ==> !Linked(t.cats, path[0]))
    && (forall i :: 0 < i < |path| ==> t.cats[path[i]].parent == Some(path[i - 1]))
  }

  /** `k` belongs one level below `path`: a root when `path` is empty, a child of its last id otherwise. */
  ghost predicate PlacedUnder(t: Tree, path: seq<string>, k: string) {
    k in t.cats && if path == [] then !Linked(t.cats, k) else t.cats[k].parent == Some(path[|path| - 1])
  }

  /** A category placed below a chain is not on it, so the chain grows by it and the set of
      categories not yet on the chain shrinks: the writer's recursion ends even when the parent
      links elsewhere form a cycle. */
  lemma ChainExtends(t: Tree, path: seq<string>, k: string)
    requires WellLinked(t) && Chain(t, path) && PlacedUnder(t, path, k)
    ensures k !in path && Chain(t, path + [k])
    ensures forall c :: c in t.cats[k].children ==> PlacedUnder(t, path + [k], c)
    ensures t.cats.Keys - (set x | x in path + [k]) < t.cats.Keys - (set x | x in path)
  {
    forall i | 0 <= i < |path| ensures path[i] != k {
      if i == 0 {
        assert Linked(t.cats, k);
      } else {
        assert path[i - 1] != path[|path| - 1];
      }
    }
    assert (set x | x in path + [k]) == (set x | x in path) + {k};
  }

  /** The entries written for the categories `ids` (already sorted) and their descendants, below `path`. */
  function Forest(t: Tree, ids: seq<string>, path: seq<string>): seq<Entry>
    requires WellLinked(t) && Chain(t, path)
    requires forall i :: 0 <= i < |ids| ==> PlacedUnder(t, path, ids[i])
    decreases t.cats.Keys - (set x | x in path), 1, |ids|
  {
    if ids == [] then [] else Node(t, ids[0], path) + Forest(t, ids[1..], path)
  }

  /** The entries written for category `k` below `path`: its own line, then, when it has children,
      the section for them sorted by id one level deeper. */
  function Node(t: Tree, k: string, path: seq<string>): seq<Entry>
    requires WellLinked(t) && Chain(t, path) && PlacedUnder(t, path, k)
    decreases t.cats.Keys - (set x | x in path), 0, 0
  {
    ChainExtends(t, path, k);
    var children := t.cats[k].children;
    [Entry(k, |path|)] + if children == [] then [] else Forest(t, SortById(children), path + [k])
  }

  /** Entry `j` is the one a reader takes as the parent of entry `i`: the nearest entry before `i`
      that is less deeply indented, exactly one level up. Here it is also the category's parent. */
  ghost predicate EnclosedBy(t: Tree, o: seq<Entry>, j: nat, i: nat)
    requires j < i < |o|
  {
    && o[j].depth + 1 == o[i].depth
    && o[i].id in t.cats && t.cats[o[i].id].parent == Some(o[j].id)
    && forall m :: j < m < i ==> o[i].depth <= o[m].depth
  }

  /** Every entry names a category and is indented at least `base` levels, and every entry deeper
      than `base` is enclosed by its parent's entry. */
  ghost predicate Indented(t: Tree, o: seq<Entry>, base: nat) {
    && (forall i :: 0 <= i < |o| ==> o[i].id in t.cats && base <= o[i].depth)
    && (forall i :: 0 <= i < |o| && Deeper(o, i, base) ==> exists j :: 0 <= j < i && EnclosedBy(t, o, j, i))
  }

  /** Entry `i` is indented beyond `base` levels. (Kept as a predicate so that the enclosure
      fact above is instantiated only where a proof asks for it.) */
  ghost predicate Deeper(o: seq<Entry>, i: nat, base: nat)
    requires i < |o|
  {
    base < o[i].depth
  }

  /** The entries at the level of `path` name categories placed below `path`. */
  ghost predicate TopUnder(t: Tree, o: seq<Entry>, path: seq<string>) {
    forall i :: 0 <= i < |o| && o[i].depth == |path| ==> PlacedUnder(t, path, o[i].id)
  }

  /** Entries at the same depth with no shallower entry between them (siblings) are in ascending
      numeric id order. */
  ghost predicate SiblingsOrdered(o: seq<Entry>) {
    forall i, j :: 0 <= i < j < |o| && Siblings(o, i, j) ==> IdValue(o[i].id) <= IdValue(o[j].id)
  }

  /** Entries `i` and `j` are at the same depth with no shallower entry between them. */
  ghost predicate Siblings(o: seq<Entry>, i: nat, j: nat)
    requires i < j < |o|
  {
    o[i].depth == o[j].depth && forall m :: i < m < j ==> o[i].depth <= o[m].depth
  }

  /** Ids sorted in ascending numeric order. */
  ghost predicate IdsAscending(ids: seq<string>) {
    forall i, j :: 0 <= i < j < |ids| ==> IdValue(ids[i]) <= IdValue(ids[j])
  }

  lemma IndentedConcat(t: Tree, a: seq<Entry>, b: seq<Entry>, base: nat)
    requires Indented(t, a, base) && Indented(t, b, base)
    ensures Indented(t, a + b, base)
  {
    var o := a + b;
    forall i | 0 <= i < |o| && Deeper(o, i, base) ensures exists j :: 0 <= j < i && EnclosedBy(t, o, j, i) {
      if i < |a| {
        assert Deeper(a, i, base);
        var j :| 0 <= j < i && EnclosedBy(t, a, j, i);
        assert EnclosedBy(t, o, j, i);
      } else {
        assert Deeper(b, i - |a|, base);
        var j :| 0 <= j < i - |a| && EnclosedBy(t, b, j, i - |a|);
        assert EnclosedBy(t, o, j + |a|, i);
      }
    }
  }

  /** The section the writer emits below a chain is indented under it: every entry names a
      category, those at the chain's level are placed below it, deeper ones are enclosed by their
      parent's entry, and each sibling list starts with its first id. */
  lemma {:induction false} ForestIndented(t: Tree, ids: seq<string>, path: seq<string>)
    requires WellLinked(t) && Chain(t, path)
    requires forall i :: 0 <= i < |ids| ==> PlacedUnder(t, path, ids[i])
    ensures var o := Forest(t, ids, path);
      && Indented(t, o, |path|) && TopUnder(t, o, path)
      && (forall i :: 0 <= i < |o| && o[i].depth == |path| ==> o[i].id in ids)
      && (ids != [] ==> o != [] && o[0] == Entry(ids[0], |path|))
    decreases t.cats.Keys - (set x | x in path), 1, |ids|
  {
    if ids != [] {
      var a, b := Node(t, ids[0], path), Forest(t, ids[1..], path);
      NodeIndented(t, ids[0], path);
      ForestIndented(t, ids[1..], path);
      IndentedConcat(t, a, b, |path|);
      var o := a + b;
      forall i | 0 <= i < |o| && o[i].depth == |path| ensures PlacedUnder(t, path, o[i].id) && o[i].id in ids {
        if i >= |a| {
          assert o[i] == b[i - |a|];
        }
      }
    }
  }

  /** A category's entry followed by its children's section, which is indented one level deeper
      and whose top entries name its children, is indented at the category's level. */
  lemma IndentedCons(t: Tree, k: string, base: nat, f: seq<Entry>)
    requires k in t.cats && Indented(t, f, base + 1)
    requires forall i :: 0 <= i < |f| && f[i].depth == base + 1 ==> t.cats[f[i].id].parent == Some(k)
    ensures Indented(t, [Entry(k, base)] + f, base)
  {
    var o := [Entry(k, base)] + f;
    forall i | 0 <= i < |o| && Deeper(o, i, base) ensures exists j :: 0 <= j < i && EnclosedBy(t, o, j, i) {
      assert o[i] == f[i - 1];
      if f[i - 1].depth == base + 1 {
        EnclosedByHead(t, k, base, f, i - 1);
      } else {
        assert Deeper(f, i - 1, base + 1);
        var j :| 0 <= j < i - 1 && EnclosedBy(t, f, j, i - 1);
        EnclosedByShift(t, Entry(k, base), f, j, i - 1);
      }
    }
  }

  /** A child's entry in the section after its parent's entry is enclosed by it. */
  lemma EnclosedByHead(t: Tree, k: string, base: nat, f: seq<Entry>, i: nat)
    requires i < |f| && f[i].depth == base + 1 && f[i].id in t.cats && t.cats[f[i].id].parent == Some(k)
    requires forall m :: 0 <= m < i ==> base + 1 <= f[m].depth
    ensures EnclosedBy(t, [Entry(k, base)] + f, 0, i + 1)
  {
    var o := [Entry(k, base)] + f;
    forall m | 0 < m < i + 1 ensures o[i + 1].depth <= o[m].depth {
      assert o[m] == f[m - 1];
    }
  }

  /** Putting an entry in front keeps every enclosure, one place later. */
  lemma EnclosedByShift(t: Tree, e: Entry, f: seq<Entry>, j: nat, i: nat)
    requires j < i < |f| && EnclosedBy(t, f, j, i)
    ensures EnclosedBy(t, [e] + f, j + 1, i + 1)
  {
    var o := [e] + f;
    forall m | j + 1 < m < i + 1 ensures o[i + 1].depth <= o[m].depth {
      assert o[m] == f[m - 1];
    }
  }

  lemma {:induction false} NodeIndented(t: Tree, k: string, path: seq<string>)
    requires WellLinked(t) && Chain(t, path) && PlacedUnder(t, path, k)
    ensures var o := Node(t, k, path);
      && o[0] == Entry(k, |path|)
      && Indented(t, o, |path|) && TopUnder(t, o, path)
      && (forall i :: 0 < i < |o| ==> |path| < o[i].depth)
      && (forall c :: c in t.cats[k].children ==> Entry(c, |path| + 1) in o)
    decreases t.cats.Keys - (set x | x in path), 0, 0
  {
    ChainExtends(t, path, k);
    var children := t.cats[k].children;
    NodeChildrenWritten(t, k, path);
    if children != [] {
      var sub := path + [k];
      var f := Forest(t, SortById(children), sub);
      NodeCons(t, k, path);
      ForestIndented(t, SortById(children), sub);
      forall i | 0 <= i < |f| && f[i].depth == |path| + 1 ensures t.cats[f[i].id].parent == Some(k) {
        assert PlacedUnder(t, sub, f[i].id);
      }
      ConsOutline(t, path, k, f);
    }
  }

  /** A category's entry followed by its children's section, one level deeper, is indented at the
      category's level, with that category alone at the top. */
  lemma ConsOutline(t: Tree, path: seq<string>, k: string, f: seq<Entry>)
    requires PlacedUnder(t, path, k) && Indented(t, f, |path| + 1)
    requires forall i :: 0 <= i < |f| && f[i].depth == |path| + 1 ==> t.cats[f[i].id].parent == Some(k)
    ensures var o := [Entry(k, |path|)] + f;
      Indented(t, o, |path|) && TopUnder(t, o, path) && forall i :: 0 < i < |o| ==> |path| < o[i].depth
  {
    var o := [Entry(k, |path|)] + f;
    IndentedCons(t, k, |path|, f);
    forall i | 0 < i < |o| ensures |path| < o[i].depth {
      assert o[i] == f[i - 1];
    }
  }

  /** A category's entry followed by its deeper children's section keeps siblings ordered. */
  lemma SiblingsCons(k: string, base: nat, f: seq<Entry>)
    requires SiblingsOrdered(f) && forall i :: 0 <= i < |f| ==> base < f[i].depth
    ensures SiblingsOrdered([Entry(k, base)] + f)
  {
    var o := [Entry(k, base)] + f;
    forall i, j | 0 <= i < j < |o| && Siblings(o, i, j) ensures IdValue(o[i].id) <= IdValue(o[j].id) {
      assert o[j] == f[j - 1];
      assert 0 < i;
      assert o[i] == f[i - 1];
      forall m | i - 1 < m < j - 1 ensures f[i - 1].depth <= f[m].depth {
        assert o[m + 1] == f[m];
      }
      assert Siblings(f, i - 1, j - 1);
    }
  }

  /** One subtree, headed by its root at `base`, followed by the rest of its sibling section keeps
      siblings ordered when its root's id is at most those of the later siblings. */
  lemma SiblingsConcat(a: seq<Entry>, b: seq<Entry>, base: nat)
    requires SiblingsOrdered(a) && SiblingsOrdered(b)
    requires a != [] && a[0].depth == base && forall i :: 0 < i < |a| ==> base < a[i].depth
    requires b != [] ==> b[0].depth == base
    requires forall i :: 0 <= i < |b| ==> base <= b[i].depth
    requires forall i :: 0 <= i < |b| && b[i].depth == base ==> IdValue(a[0].id) <= IdValue(b[i].id)
    ensures SiblingsOrdered(a + b)
  {
    var o := a + b;
    forall i, j | 0 <= i < j < |o| && Siblings(o, i, j) ensures IdValue(o[i].id) <= IdValue(o[j].id) {
      if j < |a| {
        forall m | i < m < j ensures a[i].depth <= a[m].depth {
          assert o[m] == a[m];
        }
        assert o[i] == a[i] && o[j] == a[j];
        assert Siblings(a, i, j);
      } else if |a| <= i {
        var n := |a|;
        forall m | i - n < m < j - n ensures b[i - n].depth <= b[m].depth {
          assert o[m + n] == b[m];
        }
        assert o[i] == b[i - n] && o[j] == b[j - n];
        assert Siblings(b, i - n, j - n);
      } else {
        assert o[|a|] == b[0];
        assert o[i].depth == base;
        assert o[j] == b[j - |a|];
      }
    }
  }

  /** Siblings in the section below a chain are written in ascending numeric id order. */
  lemma {:induction false} ForestSiblingsOrdered(t: Tree, ids: seq<string>, path: seq<string>)
    requires WellLinked(t) && Chain(t, path)
    requires forall i :: 0 <= i < |ids| ==> PlacedUnder(t, path, ids[i])
    requires IdsAscending(ids)
    ensures SiblingsOrdered(Forest(t, ids, path))
    decreases t.cats.Keys - (set x | x in path), 1, |ids|
  {
    if ids != [] {
      var a, b := Node(t, ids[0], path), Forest(t, ids[1..], path);
      NodeSiblingsOrdered(t, ids[0], path);
      ForestSiblingsOrdered(t, ids[1..], path);
      NodeIndented(t, ids[0], path);
      ForestIndented(t, ids[1..], path);
      forall i | 0 <= i < |b| && b[i].depth == |path| ensures IdValue(ids[0]) <= IdValue(b[i].id) {
        var n :| 0 <= n < |ids[1..]| && ids[1..][n] == b[i].id;
        assert ids[n + 1] == b[i].id;
      }
      SiblingsConcat(a, b, |path|);
      assert Forest(t, ids, path) == a + b;
    }
  }

  lemma {:induction false} NodeSiblingsOrdered(t: Tree, k: string, path: seq<string>)
    requires WellLinked(t) && Chain(t, path) && PlacedUnder(t, path, k)
    ensures SiblingsOrdered(Node(t, k, path))
    decreases t.cats.Keys - (set x | x in path), 0, 0
  {
    ChainExtends(t, path, k);
    var children := t.cats[k].children;
    if children != [] {
      var sub := path + [k];
      var f := Forest(t, SortById(children), sub);
      SortByIdAscending(children);
      ForestSiblingsOrdered(t, SortById(children), sub);
      ForestIndented(t, SortById(children), sub);
      SiblingsCons(k, |path|, f);
      assert Node(t, k, path) == [Entry(k, |path|)] + f;
    }
  }

  /** The entries write_category_tree_section emits between the delimiters, roots first sorted by id. */
  function Outline(t: Tree): seq<Entry>
    requires WellLinked(t)
  {
    Forest(t, SortById(t.roots), [])
  }

  /** Every entry of the outline names a category. */
  lemma OutlineKnown(t: Tree)
    requires WellLinked(t)
    ensures forall i :: 0 <= i < |Outline(t)| ==> Outline(t)[i].id in t.cats
  {
    ForestIndented(t, SortById(t.roots), []);
  }

  /** The category legend: the delimiter, one line per entry, the delimiter. */
  function Legend(t: Tree): (lines: seq<string>)
    requires WellLinked(t)
  {
    OutlineKnown(t);
    [Delimiter] + EntryLines(t.cats, Outline(t)) + [Delimiter]
  }

  /** The line of every entry, in order. */
  function EntryLines(cats: map<string, Category>, o: seq<Entry>): (lines: seq<string>)
    requires forall i :: 0 <= i < |o| ==> o[i].id in cats
  {
    seq(|o|, i requires 0 <= i < |o| => CategoryLine(cats[o[i].id], o[i].depth))
  }

  /** A reader recovers every entry from its line when the records carry their own readable ids. */
  lemma EntryLinesReadBack(cats: map<string, Category>, o: seq<Entry>)
    requires forall i :: 0 <= i < |o| ==> o[i].id in cats
    requires forall k :: k in cats ==> cats[k].id == k && Readable(k)
    ensures var lines := EntryLines(cats, o);
      |lines| == |o| && forall i :: 0 <= i < |o| ==> ReadLegendLine(lines[i]) == Some(o[i])
  {
    var lines := EntryLines(cats, o);
    forall i | 0 <= i < |o| ensures ReadLegendLine(lines[i]) == Some(o[i]) {
      CategoryLineReadBack(cats[o[i].id], o[i].depth);
    }
  }

  /** Every id of a tree with canonical ids is readable. */
  lemma CanonicalKeysReadable(t: Tree)
    requires CanonicalKeys(t)
    ensures forall k :: k in t.cats ==> Readable(k)
  {
    forall k | k in t.cats ensures Readable(k) {
      CanonicalIdChars(k);
    }
  }

  /** Lines that `read` maps to the entries still do between two delimiters, one place later. */
  lemma DelimitedReadBack(body: seq<string>, o: seq<Entry>, read: string -> Option<Entry>)
    requires |body| == |o| && forall i :: 0 <= i < |o| ==> read(body[i]) == Some(o[i])
    ensures var lines := [Delimiter] + body + [Delimiter];
      && |lines| == |o| + 2 && lines[0] == Delimiter && lines[|lines| - 1] == Delimiter
      && forall i :: 0 <= i < |o| ==> read(lines[i + 1]) == Some(o[i])
  {
    var lines := [Delimiter] + body + [Delimiter];
    forall i | 0 <= i < |o| ensures read(lines[i + 1]) == Some(o[i]) {
      assert lines[i + 1] == body[i];
    }
  }

  /** The legend is delimited by `%` lines, and a reader recovers from each line in between the
      entry written there. */
  lemma LegendLines(t: Tree)
    requires WellLinked(t) && forall k :: k in t.cats ==> Readable(k)
    ensures var lines, o := Legend(t), Outline(t);
      && |lines| == |o| + 2 && lines[0] == Delimiter && lines[|lines| - 1] == Delimiter
      && forall i :: 0 <= i < |o| ==> ReadLegendLine(lines[i + 1]) == Some(o[i])
  {
    var o := Outline(t);
    OutlineKnown(t);
    EntryLinesReadBack(t.cats, o);
    DelimitedReadBack(EntryLines(t.cats, o), o, ReadLegendLine);
  }

  /** What the entries tell a reader: each names a category; one at depth 0 names a category without
      a known parent; a deeper one's parent is the nearest entry above it one level less indented;
      and siblings are in ascending numeric id order. */
  lemma OutlineStructure(t: Tree)
    requires WellLinked(t)
    ensures var o := Outline(t);
      && (forall i :: 0 <= i < |o| ==> o[i].id in t.cats)
      && (forall i :: 0 <= i < |o| && o[i].depth == 0 ==> !Linked(t.cats, o[i].id))
      && (forall i :: 0 <= i < |o| && 0 < o[i].depth ==> exists j :: 0 <= j < i && EnclosedBy(t, o, j, i))
      && SiblingsOrdered(o)
  {
    var o := Outline(t);
    ForestIndented(t, SortById(t.roots), []);
    forall i | 0 <= i < |o| && 0 < o[i].depth ensures exists j :: 0 <= j < i && EnclosedBy(t, o, j, i) {
      assert Deeper(o, i, 0);
    }
    SortByIdAscending(t.roots);
    ForestSiblingsOrdered(t, SortById(t.roots), []);
  }

  /** Every root is written, at depth 0. */
  lemma RootsWritten(t: Tree, k: string)
    requires WellLinked(t) && k in t.roots
    ensures exists i :: 0 <= i < |Outline(t)| && Outline(t)[i] == Entry(k, 0)
  {
    var ids := SortById(t.roots);
    assert k in ids;
    var n :| 0 <= n < |ids| && ids[n] == k;
    var i := ForestContains(t, ids, [], n);
    assert Outline(t) == Forest(t, ids, []);
  }

  /** The section below a chain holds an entry for each of its ids, at the chain's level; `i` is
      where the entry for `ids[n]` is. */
  lemma {:induction false} ForestContains(t: Tree, ids: seq<string>, path: seq<string>, n: nat) returns (i: nat)
    requires WellLinked(t) && Chain(t, path)
    requires forall i :: 0 <= i < |ids| ==> PlacedUnder(t, path, ids[i])
    requires n < |ids|
    ensures i < |Forest(t, ids, path)| && Forest(t, ids, path)[i] == Entry(ids[n], |path|)
  {
    ForestCons(t, ids, path);
    if n == 0 {
      i := 0;
    } else {
      var j := ForestContains(t, ids[1..], path, n - 1);
      assert ids[1..][n - 1] == ids[n];
      i := |Node(t, ids[0], path)| + j;
    }
  }

  /** A non-empty section is its first id's subtree, which starts with that id's entry, followed
      by the section of the remaining ids. */
  lemma ForestCons(t: Tree, ids: seq<string>, path: seq<string>)
    requires WellLinked(t) && Chain(t, path)
    requires forall i :: 0 <= i < |ids| ==> PlacedUnder(t, path, ids[i])
    requires ids != []
    ensures Forest(t, ids, path) == Node(t, ids[0], path) + Forest(t, ids[1..], path)
    ensures Node(t, ids[0], path) != [] && Node(t, ids[0], path)[0] == Entry(ids[0], |path|)
  {
  }

  /** Every child of a written category is written in its subtree, one level deeper; `i` is where. */
  lemma NodeChildWritten(t: Tree, k: string, path: seq<string>, c: string) returns (i: nat)
    requires WellLinked(t) && Chain(t, path) && PlacedUnder(t, path, k) && c in t.cats[k].children
    ensures 0 < i < |Node(t, k, path)| && Node(t, k, path)[i] == Entry(c, |path| + 1)
  {
    NodeCons(t, k, path);
    var ids := SortById(t.cats[k].children);
    var j := ForestContains(t, ids, path + [k], IndexOf(ids, c));
    i := j + 1;
  }

  /** Every child of a written category is written in its subtree, one level deeper. */
  lemma NodeChildrenWritten(t: Tree, k: string, path: seq<string>)
    requires WellLinked(t) && Chain(t, path) && PlacedUnder(t, path, k)
    ensures forall c :: c in t.cats[k].children ==> Entry(c, |path| + 1) in Node(t, k, path)
  {
    forall c | c in t.cats[k].children ensures Entry(c, |path| + 1) in Node(t, k, path) {
      var i := NodeChildWritten(t, k, path, c);
    }
  }

  /** The subtree of each of a section's ids is written in that section as one contiguous run. */
  lemma {:induction false} ForestRun(t: Tree, ids: seq<string>, path: seq<string>, n: nat) returns (off: nat)
    requires WellLinked(t) && Chain(t, path)
    requires forall i :: 0 <= i < |ids| ==> PlacedUnder(t, path, ids[i])
    requires n < |ids|
    ensures RunAt(Forest(t, ids, path), off, Node(t, ids[n], path))
  {
    if n == 0 {
      ForestHeadRun(t, ids, path);
      off := 0;
    } else {
      var j := ForestRun(t, ids[1..], path, n - 1);
      assert ids[1..][n - 1] == ids[n];
      off := ForestAfterHead(t, ids, path, j, Node(t, ids[n], path));
    }
  }

  /** The first id's subtree opens the section. */
  lemma ForestHeadRun(t: Tree, ids: seq<string>, path: seq<string>)
    requires WellLinked(t) && Chain(t, path)
    requires forall i :: 0 <= i < |ids| ==> PlacedUnder(t, path, ids[i])
    requires ids != []
    ensures RunAt(Forest(t, ids, path), 0, Node(t, ids[0], path))
  {
    ForestCons(t, ids, path);
    RunInPrefix(Forest(t, ids, path), Node(t, ids[0], path), Forest(t, ids[1..], path));
  }

  /** A run of the section after the first id's subtree is a run of the whole section. */
  lemma ForestAfterHead(t: Tree, ids: seq<string>, path: seq<string>, j: nat, c: seq<Entry>) returns (off: nat)
    requires WellLinked(t) && Chain(t, path)
    requires forall i :: 0 <= i < |ids| ==> PlacedUnder(t, path, ids[i])
    requires ids != [] && RunAt(Forest(t, ids[1..], path), j, c)
    ensures RunAt(Forest(t, ids, path), off, c)
  {
    ForestCons(t, ids, path);
    RunInSuffix(Forest(t, ids, path), Node(t, ids[0], path), Forest(t, ids[1..], path), j, c);
    off := |Node(t, ids[0], path)| + j;
  }

  /** The subtree of any id of a section is a run of it. */
  lemma SectionRun(t: Tree, ids: seq<string>, path: seq<string>, k: string) returns (off: nat)
    requires WellLinked(t) && Chain(t, path)
    requires forall i :: 0 <= i < |ids| ==> PlacedUnder(t, path, ids[i])
    requires k in ids
    ensures PlacedUnder(t, path, k) && RunAt(Forest(t, ids, path), off, Node(t, k, path))
  {
    off := ForestRun(t, ids, path, IndexOf(ids, k));
  }

  /** A chain without its last id is still a chain, and its last id is placed below the rest. */
  lemma ChainInit(t: Tree, path: seq<string>)
    requires Chain(t, path) && path != []
    ensures Chain(t, path[..|path| - 1]) && PlacedUnder(t, path[..|path| - 1], path[|path| - 1])
  {
    var init := path[..|path| - 1];
    assert forall i :: 0 <= i < |init| ==> init[i] == path[i];
  }

  /** A root's subtree is a contiguous run of the outline. */
  lemma RootSubtreeWritten(t: Tree, k: string) returns (off: nat)
    requires WellLinked(t) && k in t.roots
    ensures Chain(t, []) && PlacedUnder(t, [], k)
    ensures RunAt(Outline(t), off, Node(t, k, []))
  {
    off := SectionRun(t, SortById(t.roots), [], k);
  }

  /** A category with children is written as its own entry followed by its children's section. */
  lemma NodeCons(t: Tree, p: string, pre: seq<string>)
    requires WellLinked(t) && Chain(t, pre) && PlacedUnder(t, pre, p) && t.cats[p].children != []
    ensures Chain(t, pre + [p])
    ensures var ids := SortById(t.cats[p].children);
      && (forall i :: 0 <= i < |ids| ==> PlacedUnder(t, pre + [p], ids[i]))
      && Node(t, p, pre) == [Entry(p, |pre|)] + Forest(t, ids, pre + [p])
  {
    ChainExtends(t, pre, p);
  }

  /** The subtree of each child of `p` is a run of the subtree of `p`. */
  lemma ChildRun(t: Tree, pre: seq<string>, p: string, k: string) returns (j: nat)
    requires WellLinked(t) && Chain(t, pre) && PlacedUnder(t, pre, p) && k in t.cats[p].children
    ensures Chain(t, pre + [p]) && PlacedUnder(t, pre + [p], k)
    ensures RunAt(Node(t, p, pre), j, Node(t, k, pre + [p]))
  {
    NodeCons(t, p, pre);
    var ids := SortById(t.cats[p].children);
    var m := SectionRun(t, ids, pre + [p], k);
    RunInSuffix(Node(t, p, pre), [Entry(p, |pre|)], Forest(t, ids, pre + [p]), m, Node(t, k, pre + [p]));
    j := 1 + m;
  }

  /** When the subtree of `p` below `pre` is a run of `o`, so is the subtree of each child of `p`. */
  lemma ChildSubtreeWritten(t: Tree, pre: seq<string>, p: string, k: string, o: seq<Entry>, above: nat) returns (off: nat)
    requires WellLinked(t) && Chain(t, pre) && PlacedUnder(t, pre, p) && k in t.cats[p].children
    requires RunAt(o, above, Node(t, p, pre))
    ensures Chain(t, pre + [p]) && PlacedUnder(t, pre + [p], k)
    ensures RunAt(o, off, Node(t, k, pre + [p]))
  {
    var j := ChildRun(t, pre, p, k);
    RunOfRun(o, above, Node(t, p, pre), j, Node(t, k, pre + [p]));
    off := above + j;
  }

  /** The subtree of the last category of a chain from a root is written in the outline as one
      contiguous run starting at `off`: the category's entry, then its descendants. */
  lemma {:induction false} SubtreeWritten(t: Tree, path: seq<string>) returns (off: nat)
    requires WellLinked(t) && Complete(t) && Chain(t, path) && path != []
    ensures Chain(t, path[..|path| - 1]) && PlacedUnder(t, path[..|path| - 1], path[|path| - 1])
    ensures RunAt(Outline(t), off, Node(t, path[|path| - 1], path[..|path| - 1]))
    decreases |path|
  {
    var init, k := path[..|path| - 1], path[|path| - 1];
    ChainInit(t, path);
    if init == [] {
      off := RootSubtreeWritten(t, k);
    } else {
      var above := SubtreeWritten(t, init);
      var pre, p := init[..|init| - 1], init[|init| - 1];
      assert pre + [p] == init;
      off := ChildSubtreeWritten(t, pre, p, k, Outline(t), above);
    }
  }

  /** Every category reached from a root through its children is written, indented one level per
      ancestor; with the run above, its children follow it in pre-order. */
  lemma ReachableWritten(t: Tree, path: seq<string>)
    requires WellLinked(t) && Complete(t) && Chain(t, path) && path != []
    ensures Entry(path[|path| - 1], |path| - 1) in Outline(t)
  {
    var off := SubtreeWritten(t, path);
    var init, k := path[..|path| - 1], path[|path| - 1];
    assert Node(t, k, init)[0] == Entry(k, |path| - 1);
    assert Outline(t)[off] == Node(t, k, init)[0];
  }

  /** For the tree the builder produces: every category on a chain of parent links that starts at a
      root is written, at the chain's depth. */
  lemma BuiltTreeReachableWritten(grid: Grid, path: seq<string>)
    requires HasMetadata(grid) && path != []
    requires Chain(TreeOf(grid), path)
    ensures WellLinked(TreeOf(grid)) && Entry(path[|path| - 1], |path| - 1) in Outline(TreeOf(grid))
  {
    TreeOfWellLinked(grid);
    TreeOfComplete(grid);
    ReachableWritten(TreeOf(grid), path);
  }

  /** For the tree the builder produces: the legend is delimited by `%` lines and every line in
      between reads back as the entry written there. */
  lemma BuiltLegendLines(grid: Grid)
    requires HasMetadata(grid)
    ensures WellLinked(TreeOf(grid)) && var lines, o := Legend(TreeOf(grid)), Outline(TreeOf(grid));
      && |lines| == |o| + 2 && lines[0] == Delimiter && lines[|lines| - 1] == Delimiter
      && forall i :: 0 <= i < |o| ==> ReadLegendLine(lines[i + 1]) == Some(o[i])
  {
    TreeOfWellLinked(grid);
    CanonicalKeysReadable(TreeOf(grid));
    LegendLines(TreeOf(grid));
  }
}
