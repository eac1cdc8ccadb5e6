/**
 * The aggregator group_words_by_categories: inverts the (word, id) pairs into a word -> ids index
 * held in a defaultdict(list), keeping each word's ids distinct and in first-seen order.
 */
module Grouping {
  import opened Seqs
  import opened Words

  /** The defaultdict the aggregator returns: its keys in insertion order, and each key's id list. */
  datatype WordIndex = WordIndex(order: seq<string>, ids: map<string, seq<string>>)

  /** The shape of every index the aggregator builds: distinct keys listed once each, and every
      id list non-empty and free of repetitions. */
  ghost predicate Valid(ix: WordIndex) {
    && NoDup(ix.order)
    && (forall w :: w in ix.order <==> w in ix.ids)
    && (forall w :: w in ix.ids ==> ix.ids[w] != [] && NoDup(ix.ids[w]))
  }

  /** One iteration of the aggregator's loop: reading word_to_cats[word] creates an empty list for
      a new word, and the id is appended unless the list already holds it. */
  function Add(ix: WordIndex, p: Pair): WordIndex {
    var known := p.word in ix.ids;
    var current := if known then ix.ids[p.word] else [];
    WordIndex(
      if known then ix.order else ix.order + [p.word],
      ix.ids[p.word := if p.id in current then current else current + [p.id]])
  }

  /** The index the aggregator returns for `pairs`. */
  function Grouped(pairs: seq<Pair>): WordIndex {
    if pairs == [] then WordIndex([], map[])
    else Add(Grouped(pairs[..|pairs| - 1]), pairs[|pairs| - 1])
  }

  /** The distinct elements of `s`, each kept at its first occurrence. */
  function Dedup(s: seq<string>): seq<string> {
    if s == [] then []
    else
      var d := Dedup(s[..|s| - 1]);
      if s[|s| - 1] in d then d else d + [s[|s| - 1]]
  }

  /** Dedup lists every element of `s` and nothing else, once each. */
  lemma {:induction false} DedupMembers(s: seq<string>)
    ensures NoDup(Dedup(s))
    ensures forall x :: x in Dedup(s) <==> x in s
  {
    if s != [] {
      var init := s[..|s| - 1];
      assert s == init + [s[|s| - 1]];
      DedupMembers(init);
    }
  }

  /** One instance of DedupMembers. */
  lemma DedupHolds(s: seq<string>, x: string)
    ensures x in Dedup(s) <==> x in s
  {
    DedupMembers(s);
  }

  /** Dedup keeps the order of first occurrences: an element listed before another first occurs
      before it in `s`. */
  lemma {:induction false} DedupFirstSeen(s: seq<string>, i: nat, j: nat)
    requires i < j < |Dedup(s)|
    ensures Dedup(s)[i] in s && Dedup(s)[j] in s && IndexOf(s, Dedup(s)[i]) < IndexOf(s, Dedup(s)[j])
    decreases |s|, 1
  {
    if j < |Dedup(s[..|s| - 1])| {
      DedupFirstSeenInit(s, i, j);
    } else {
      DedupFirstSeenLast(s, i, j);
    }
  }

  /** Two elements both kept before the last element of `s` is seen keep their order. */
  lemma {:induction false} DedupFirstSeenInit(s: seq<string>, i: nat, j: nat)
    requires s != [] && i < j < |Dedup(s[..|s| - 1])|
    ensures Dedup(s)[i] in s && Dedup(s)[j] in s && IndexOf(s, Dedup(s)[i]) < IndexOf(s, Dedup(s)[j])
    decreases |s|, 0
  {
    var init := s[..|s| - 1];
    var d, r := Dedup(init), Dedup(s);
    assert r[..|d|] == d;
    assert r[i] == d[i] && r[j] == d[j];
    DedupFirstSeen(init, i, j);
    IndexOfPrefix(s, |s| - 1, d[i]);
    IndexOfPrefix(s, |s| - 1, d[j]);
  }

  /** The last element of `s`, when it is kept, is first seen after every element kept before it. */
  lemma DedupFirstSeenLast(s: seq<string>, i: nat, j: nat)
    requires s != [] && i < j && |Dedup(s[..|s| - 1])| <= j < |Dedup(s)|
    ensures Dedup(s)[i] in s && Dedup(s)[j] in s && IndexOf(s, Dedup(s)[i]) < IndexOf(s, Dedup(s)[j])
  {
    var init, last := s[..|s| - 1], s[|s| - 1];
    var d, r := Dedup(init), Dedup(s);
    assert last !in d && r == d + [last];
    DedupHolds(init, d[i]);
    DedupHolds(init, last);
    assert r[i] == d[i] && r[j] == last;
    IndexOfPrefix(s, |s| - 1, d[i]);
    IndexOfLast(s);
  }

  /** The words of `pairs`, in order. */
  function WordsIn(pairs: seq<Pair>): (ws: seq<string>)
    ensures |ws| == |pairs|
    ensures forall i :: 0 <= i < |pairs| ==> ws[i] == pairs[i].word
  {
    seq(|pairs|, i requires 0 <= i < |pairs| => pairs[i].word)
  }

  /** The ids paired with `w` in `pairs`, in order and with repetitions. */
  function IdsOf(pairs: seq<Pair>, w: string): (r: seq<string>)
    ensures forall id :: id in r <==> Pair(w, id) in pairs
  {
    if pairs == [] then []
    else
      var init, last := pairs[..|pairs| - 1], pairs[|pairs| - 1];
      assert pairs == init + [last];
      IdsOf(init, w) + if last.word == w then [last.id] else []
  }

  /** A word that occurs in no pair has no ids. */
  lemma {:induction false} IdsOfAbsent(pairs: seq<Pair>, w: string)
    requires w !in WordsIn(pairs)
    ensures IdsOf(pairs, w) == []
  {
    if pairs != [] {
      var init := pairs[..|pairs| - 1];
      assert WordsIn(pairs) == WordsIn(init) + [pairs[|pairs| - 1].word];
      IdsOfAbsent(init, w);
    }
  }

  /** The aggregator's keys are the distinct words of the pairs, in first-seen order. */
  lemma {:induction false} GroupedKeys(pairs: seq<Pair>)
    ensures Grouped(pairs).order == Dedup(WordsIn(pairs))
    ensures forall w :: w in Grouped(pairs).ids <==> w in WordsIn(pairs)
  {
    if pairs != [] {
      var init := pairs[..|pairs| - 1];
      GroupedKeys(init);
      DedupMembers(WordsIn(init));
      assert WordsIn(pairs)[..|pairs| - 1] == WordsIn(init);
    }
  }

  /** The aggregator's list for a word is the distinct ids paired with it, in first-seen order. */
  lemma {:induction false} GroupedIds(pairs: seq<Pair>, w: string)
    requires w in Grouped(pairs).ids
    ensures Grouped(pairs).ids[w] == Dedup(IdsOf(pairs, w))
  {
    var init, last := pairs[..|pairs| - 1], pairs[|pairs| - 1];
    var ids := IdsOf(init, w);
    if w == last.word {
      assert IdsOf(pairs, w) == ids + [last.id];
      assert (ids + [last.id])[..|ids|] == ids;
      if w in Grouped(init).ids {
        GroupedIds(init, w);
      } else {
        GroupedKeys(init);
        IdsOfAbsent(init, w);
      }
    } else {
      assert IdsOf(pairs, w) == ids;
      GroupedIds(init, w);
    }
  }

  /** The aggregator's result, against an independent definition: its keys are the distinct words
      in first-seen order, and each word's list is the distinct ids paired with it, in first-seen order. */
  lemma GroupedIsDedup(pairs: seq<Pair>)
    ensures Grouped(pairs).order == Dedup(WordsIn(pairs))
    ensures forall w :: w in Grouped(pairs).ids <==> w in WordsIn(pairs)
    ensures forall w :: w in Grouped(pairs).ids ==> Grouped(pairs).ids[w] == Dedup(IdsOf(pairs, w))
  {
    GroupedKeys(pairs);
    forall w | w in Grouped(pairs).ids ensures Grouped(pairs).ids[w] == Dedup(IdsOf(pairs, w)) {
      GroupedIds(pairs, w);
    }
  }

  /** What each word is mapped to: exactly the ids it is paired with somewhere in the input. */
  lemma GroupedMembers(pairs: seq<Pair>, w: string, id: string)
    ensures w in Grouped(pairs).ids <==> exists i :: 0 <= i < |pairs| && pairs[i].word == w
    ensures w in Grouped(pairs).ids ==> (id in Grouped(pairs).ids[w] <==> Pair(w, id) in pairs)
  {
    GroupedIsDedup(pairs);
    var ws := WordsIn(pairs);
    DedupMembers(ws);
    if w in Grouped(pairs).ids {
      DedupMembers(IdsOf(pairs, w));
    }
    if w in ws {
      var i :| 0 <= i < |ws| && ws[i] == w;
      assert pairs[i].word == w;
    }
    if exists i :: 0 <= i < |pairs| && pairs[i].word == w {
      var i :| 0 <= i < |pairs| && pairs[i].word == w;
      assert ws[i] == w;
    }
  }

  /** Every index the aggregator returns is valid: no word twice, and each id list non-empty and
      without duplicates. */
  lemma GroupedValid(pairs: seq<Pair>)
    ensures Valid(Grouped(pairs))
  {
    GroupedIsDedup(pairs);
    var ix := Grouped(pairs);
    DedupMembers(WordsIn(pairs));
    forall w | w in ix.ids ensures ix.ids[w] != [] && NoDup(ix.ids[w]) {
      DedupMembers(IdsOf(pairs, w));
      var ws := WordsIn(pairs);
      var i :| 0 <= i < |ws| && ws[i] == w;
      assert pairs[i] == Pair(w, pairs[i].id);
      assert pairs[i].id in IdsOf(pairs, w);
    }
  }

  /**
   * group_words_by_categories: one pass over the pairs, creating a word's list on first sight and
   * appending an id only when the list does not hold it yet.
   */
  method GroupWordsByCategories(pairs: seq<Pair>) returns (ix: WordIndex)
    ensures ix == Grouped(pairs)
  {
    var order: seq<string> := [];
    var ids: map<string, seq<string>> := map[];
    for i := 0 to |pairs|
      invariant WordIndex(order, ids) == Grouped(pairs[..i])
    {
      var p := pairs[i];
      assert pairs[..i + 1][..i] == pairs[..i];
      if p.word !in ids {
        ids := ids[p.word := []];
        order := order + [p.word];
      }
      if p.id !in ids[p.word] {
        ids := ids[p.word := ids[p.word] + [p.id]];
      }
    }
    assert pairs[..|pairs|] == pairs;
    ix := WordIndex(order, ids);
  }
}
