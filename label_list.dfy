/**
 * The label bar of the print list: every distinct label of every print, ranked by how
 * often it is used, most used first; labels used equally often keep the order in which
 * they were first met.
 */
module LabelList {
  import opened Seqs
  import opened PrintTypes

  /** The labels of all prints, print by print, each print's labels in order. */
  function AllLabels(prints: seq<Print>): seq<string>
  {
    if prints == [] then [] else AllLabels(prints[..|prints| - 1]) + prints[|prints| - 1].labels
  }

  /** How many times `name` occurs over all prints, repeats within one print included. */
  function Occurrences(prints: seq<Print>, name: string): nat
  {
    multiset(AllLabels(prints))[name]
  }

  /** The label counts of the `Map` once every label in `s` has been counted. */
  function CountMap(s: seq<string>): map<string, nat>
  {
    map l | l in s :: multiset(s)[l]
  }

  /** One `[label, count]` pair of `labelCount.entries()`. */
  datatype Entry = Entry(key: string, count: nat)

  /** `Array.from(labelCount.entries())`: the pairs in key insertion order. */
  function Entries(keys: seq<string>, counts: map<string, nat>): (es: seq<Entry>)
    requires forall k :: k in keys ==> k in counts
    ensures |es| == |keys|
    ensures forall i :: 0 <= i < |es| ==> es[i] == Entry(keys[i], counts[keys[i]])
  {
    if keys == [] then [] else [Entry(keys[0], counts[keys[0]])] + Entries(keys[1..], counts)
  }

  /** `.map(([label]) => label)` */
  function LabelsOf(es: seq<Entry>): (ls: seq<string>)
    ensures |ls| == |es|
    ensures forall i :: 0 <= i < |es| ==> ls[i] == es[i].key
  {
    if es == [] then [] else [es[0].key] + LabelsOf(es[1..])
  }

  // ---------------------------------------------------------------- the sort

  predicate NonIncreasing(es: seq<Entry>)
  {
    forall i, j :: 0 <= i < j < |es| ==> es[i].count >= es[j].count
  }

  /** Put `e` after every entry whose count is at least its own. */
  function Insert(e: Entry, sorted: seq<Entry>): seq<Entry>
  {
    if sorted == [] then [e]
    else if sorted[0].count >= e.count then [sorted[0]] + Insert(e, sorted[1..])
    else [e] + sorted
  }

  /**
   * `.sort((a, b) => b[1] - a[1])`: a stable sort by decreasing count (ECMAScript 2019
   * requires `Array.prototype.sort` to be stable), here an insertion sort.
   */
  function SortByCount(es: seq<Entry>): seq<Entry>
  {
    if es == [] then [] else Insert(es[|es| - 1], SortByCount(es[..|es| - 1]))
  }

  function HasCount(k: nat): Entry -> bool
  {
    (e: Entry) => e.count == k
  }

  lemma {:induction false} InsertPermutes(e: Entry, sorted: seq<Entry>)
    ensures multiset(Insert(e, sorted)) == multiset(sorted) + multiset{e}
  {
    if sorted != [] && sorted[0].count >= e.count {
      InsertPermutes(e, sorted[1..]);
      assert sorted == [sorted[0]] + sorted[1..];
    }
  }

  lemma ConsSorted(head: Entry, rest: seq<Entry>)
    requires NonIncreasing(rest)
    requires forall i :: 0 <= i < |rest| ==> head.count >= rest[i].count
    ensures NonIncreasing([head] + rest)
  {
    var s := [head] + rest;
    forall i, j | 0 <= i < j < |s|
      ensures s[i].count >= s[j].count
    {
      assert s[j] == rest[j - 1];
      if i > 0 {
        assert s[i] == rest[i - 1];
      }
    }
  }

  lemma {:induction false} InsertSorts(e: Entry, sorted: seq<Entry>)
    requires NonIncreasing(sorted)
    ensures NonIncreasing(Insert(e, sorted))
  {
    if sorted == [] {
    } else if sorted[0].count >= e.count {
      var rest := Insert(e, sorted[1..]);
      InsertSorts(e, sorted[1..]);
      InsertPermutes(e, sorted[1..]);
      forall i | 0 <= i < |rest|
        ensures sorted[0].count >= rest[i].count
      {
        assert rest[i] in multiset(rest);
        if rest[i] != e {
          assert rest[i] in sorted[1..];
        }
      }
      ConsSorted(sorted[0], rest);
    } else {
      ConsSorted(e, sorted);
    }
  }

  /** The sort orders by count, most first. */
  lemma {:induction false} SortByCountSorts(es: seq<Entry>)
    ensures NonIncreasing(SortByCount(es))
  {
    if es != [] {
      SortByCountSorts(es[..|es| - 1]);
      InsertSorts(es[|es| - 1], SortByCount(es[..|es| - 1]));
    }
  }

  /** The sort is a permutation of its input. */
  lemma {:induction false} SortByCountPermutes(es: seq<Entry>)
    ensures multiset(SortByCount(es)) == multiset(es)
  {
    if es != [] {
      var init, last := es[..|es| - 1], es[|es| - 1];
      assert es == init + [last];
      SortByCountPermutes(init);
      InsertPermutes(last, SortByCount(init));
    }
  }

  lemma {:induction false} FilterNone(k: nat, s: seq<Entry>)
    requires forall i :: 0 <= i < |s| ==> s[i].count < k
    ensures Filter(HasCount(k), s) == []
  {
    if s != [] {
      FilterNone(k, s[1..]);
    }
  }

  lemma {:induction false} InsertStable(e: Entry, sorted: seq<Entry>, k: nat)
    requires NonIncreasing(sorted)
    ensures Filter(HasCount(k), Insert(e, sorted)) == Filter(HasCount(k), sorted + [e])
  {
    var f := HasCount(k);
    if sorted == [] {
      assert sorted + [e] == [e];
    } else if sorted[0].count >= e.count {
      var head, tail := [sorted[0]], sorted[1..];
      InsertStable(e, tail, k);
      assert Insert(e, sorted) == head + Insert(e, tail);
      assert sorted + [e] == head + (tail + [e]);
      FilterConcat(f, head, Insert(e, tail));
      FilterConcat(f, head, tail + [e]);
    } else {
      InsertStableFront(e, sorted, k);
    }
  }

  lemma InsertStableFront(e: Entry, sorted: seq<Entry>, k: nat)
    requires NonIncreasing(sorted) && sorted != [] && sorted[0].count < e.count
    ensures Filter(HasCount(k), [e] + sorted) == Filter(HasCount(k), sorted + [e])
  {
    var f := HasCount(k);
    FilterConcat(f, [e], sorted);
    FilterConcat(f, sorted, [e]);
    if e.count == k {
      FilterNone(k, sorted);
    }
  }

  /** Stability: for every count, the entries with that count keep their input order. */
  lemma {:induction false} SortByCountIsStable(es: seq<Entry>, k: nat)
    ensures Filter(HasCount(k), SortByCount(es)) == Filter(HasCount(k), es)
  {
    if es != [] {
      var init, last := es[..|es| - 1], es[|es| - 1];
      assert es == init + [last];
      SortByCountSorts(init);
      SortByCountIsStable(init, k);
      InsertStable(last, SortByCount(init), k);
      FilterConcat(HasCount(k), SortByCount(init), [last]);
      FilterConcat(HasCount(k), init, [last]);
    }
  }

  // ---------------------------------------------------------------- the ranking

  /** The entries of the `Map` after counting every label of `prints`, in key insertion order. */
  function CountedEntries(prints: seq<Print>): seq<Entry>
  {
    var all := AllLabels(prints);
    Entries(Dedup(all), CountMap(all))
  }

  /** The label order the component displays, stated on whole sequences. */
  function Ranking(prints: seq<Print>): seq<string>
  {
    LabelsOf(SortByCount(CountedEntries(prints)))
  }

  /** The labels of `s` that occur exactly `k` times over all prints, in the order of `s`. */
  function WithOccurrences(prints: seq<Print>, k: nat, s: seq<string>): seq<string>
  {
    Filter((l: string) => Occurrences(prints, l) == k, s)
  }

  /** A print label is counted: it occurs in some print's labels. */
  lemma {:induction false} AllLabelsMembers(prints: seq<Print>, l: string)
    ensures l in AllLabels(prints) <==> exists i :: 0 <= i < |prints| && l in prints[i].labels
  {
    if prints != [] {
      var init := prints[..|prints| - 1];
      AllLabelsMembers(init, l);
      if l in AllLabels(init) {
        var i :| 0 <= i < |init| && l in init[i].labels;
        assert prints[i] == init[i];
      }
      forall i | 0 <= i < |init| && l in prints[i].labels
        ensures l in AllLabels(init)
      {
        assert prints[i] == init[i];
      }
    }
  }

  lemma {:induction false} AllLabelsEmpty(prints: seq<Print>)
    ensures AllLabels(prints) == [] <==> forall i :: 0 <= i < |prints| ==> prints[i].labels == []
  {
    if prints != [] {
      var init := prints[..|prints| - 1];
      AllLabelsEmpty(init);
      forall i | 0 <= i < |init|
        ensures prints[i] == init[i]
      {
      }
    }
  }

  /** Each counted entry pairs a label with its number of occurrences, and no label comes twice. */
  lemma CountedEntriesSpec(prints: seq<Print>)
    ensures forall i :: 0 <= i < |CountedEntries(prints)| ==>
              CountedEntries(prints)[i].count == Occurrences(prints, CountedEntries(prints)[i].key)
    ensures LabelsOf(CountedEntries(prints)) == Dedup(AllLabels(prints))
  {
    var es := CountedEntries(prints);
    assert LabelsOf(es) == Dedup(AllLabels(prints));
  }

  /** After sorting, too, each entry carries its label's number of occurrences. */
  lemma SortedEntriesCounted(prints: seq<Print>)
    ensures forall i :: 0 <= i < |SortByCount(CountedEntries(prints))| ==>
              SortByCount(CountedEntries(prints))[i].count == Occurrences(prints, SortByCount(CountedEntries(prints))[i].key)
  {
    var es := CountedEntries(prints);
    var sorted := SortByCount(es);
    CountedEntriesSpec(prints);
    SortByCountPermutes(es);
    forall i | 0 <= i < |sorted|
      ensures sorted[i].count == Occurrences(prints, sorted[i].key)
    {
      assert sorted[i] in multiset(es);
    }
  }

  lemma LabelsOfFilter(prints: seq<Print>, es: seq<Entry>, k: nat)
    requires forall i :: 0 <= i < |es| ==> es[i].count == Occurrences(prints, es[i].key)
    ensures LabelsOf(Filter(HasCount(k), es)) == WithOccurrences(prints, k, LabelsOf(es))
  {
    if es != [] {
      LabelsOfFilter(prints, es[1..], k);
      assert LabelsOf(es)[1..] == LabelsOf(es[1..]);
      FilterConcat(HasCount(k), [es[0]], es[1..]);
      assert es == [es[0]] + es[1..];
      if es[0].count == k {
        assert LabelsOf([es[0]] + Filter(HasCount(k), es[1..])) == [es[0].key] + LabelsOf(Filter(HasCount(k), es[1..]));
      }
    }
  }

  lemma MultisetTwo<T>(s: seq<T>, i: nat, j: nat)
    requires i < j < |s| && s[i] == s[j]
    ensures multiset(s)[s[i]] >= 2
  {
    assert s == s[..i] + [s[i]] + s[i + 1..j] + [s[j]] + s[j + 1..];
  }

  lemma DistinctOnce<T>(s: seq<T>, a: nat)
    requires Distinct(s) && a < |s|
    ensures multiset(s)[s[a]] == 1
  {
    assert s == s[..a] + [s[a]] + s[a + 1..];
    assert s[a] !in s[..a] by {
      forall b | 0 <= b < a ensures s[b] != s[a] { }
    }
    assert s[a] !in s[a + 1..] by {
      forall b | a < b < |s| ensures s[b] != s[a] { }
    }
  }

  /** The ranking lists no label twice. */
  lemma RankingDistinct(prints: seq<Print>)
    ensures Distinct(Ranking(prints))
  {
    var es := CountedEntries(prints);
    var sorted := SortByCount(es);
    var r := Ranking(prints);
    CountedEntriesSpec(prints);
    SortedEntriesCounted(prints);
    SortByCountPermutes(es);
    forall i, j | 0 <= i < j < |r|
      ensures r[i] != r[j]
    {
      if r[i] == r[j] {
        assert sorted[i] == sorted[j];
        MultisetTwo(sorted, i, j);
        assert sorted[i] in multiset(es);
        var a :| 0 <= a < |es| && es[a] == sorted[i];
        assert LabelsOf(es)[a] == sorted[i].key;
        DistinctOnce(LabelsOf(es), a);
        EntriesOnce(es, a);
      }
    }
  }

  /** Entries with distinct labels are distinct entries. */
  lemma DistinctEntries(es: seq<Entry>)
    requires Distinct(LabelsOf(es))
    ensures Distinct(es)
  {
    var ls := LabelsOf(es);
    forall i, j | 0 <= i < j < |es|
      ensures es[i] != es[j]
    {
      assert ls[i] == es[i].key && ls[j] == es[j].key;
    }
  }

  /** An entry list with distinct labels holds each entry once. */
  lemma EntriesOnce(es: seq<Entry>, a: nat)
    requires Distinct(LabelsOf(es)) && a < |es|
    ensures multiset(es)[es[a]] == 1
  {
    DistinctEntries(es);
    DistinctOnce(es, a);
  }

  /** A string is ranked iff it is a label of some print. */
  lemma RankingMembers(prints: seq<Print>, l: string)
    ensures l in Ranking(prints) <==> exists i :: 0 <= i < |prints| && l in prints[i].labels
  {
    var es := CountedEntries(prints);
    var sorted := SortByCount(es);
    CountedEntriesSpec(prints);
    SortByCountPermutes(es);
    AllLabelsMembers(prints, l);
    if l in Ranking(prints) {
      var i :| 0 <= i < |sorted| && Ranking(prints)[i] == l;
      assert sorted[i] in multiset(es);
      var a :| 0 <= a < |es| && es[a] == sorted[i];
      assert LabelsOf(es)[a] == l;
    }
    if l in AllLabels(prints) {
      var a :| 0 <= a < |es| && LabelsOf(es)[a] == l;
      assert es[a] in multiset(sorted);
      var i :| 0 <= i < |sorted| && sorted[i] == es[a];
      assert Ranking(prints)[i] == l;
    }
  }

  /** The ranking is ordered by non-increasing number of occurrences. */
  lemma RankingOrdered(prints: seq<Print>)
    ensures forall i, j :: 0 <= i < j < |Ranking(prints)| ==>
              Occurrences(prints, Ranking(prints)[i]) >= Occurrences(prints, Ranking(prints)[j])
  {
    SortByCountSorts(CountedEntries(prints));
    SortedEntriesCounted(prints);
  }

  /** Labels with the same number of occurrences appear in the order in which they were first met. */
  lemma RankingStable(prints: seq<Print>, k: nat)
    ensures WithOccurrences(prints, k, Ranking(prints)) == WithOccurrences(prints, k, Dedup(AllLabels(prints)))
  {
    var es := CountedEntries(prints);
    CountedEntriesSpec(prints);
    SortedEntriesCounted(prints);
    SortByCountIsStable(es, k);
    LabelsOfFilter(prints, SortByCount(es), k);
    LabelsOfFilter(prints, es, k);
  }

  /** The properties of the ranking that `RankLabels` promises, together. */
  lemma RankingSpec(prints: seq<Print>)
    ensures Distinct(Ranking(prints))
    ensures forall l :: l in Ranking(prints) <==> exists i :: 0 <= i < |prints| && l in prints[i].labels
    ensures forall i, j :: 0 <= i < j < |Ranking(prints)| ==>
              Occurrences(prints, Ranking(prints)[i]) >= Occurrences(prints, Ranking(prints)[j])
  {
    RankingDistinct(prints);
    forall l
      ensures l in Ranking(prints) <==> exists i :: 0 <= i < |prints| && l in prints[i].labels
    {
      RankingMembers(prints, l);
    }
    RankingOrdered(prints);
  }

  /** The bar renders nothing exactly when no print carries a label. */
  lemma RankingEmpty(prints: seq<Print>)
    ensures !RendersLabelBar(Ranking(prints)) <==> forall i :: 0 <= i < |prints| ==> prints[i].labels == []
  {
    AllLabelsEmpty(prints);
    var es := CountedEntries(prints);
    CountedEntriesSpec(prints);
    SortByCountPermutes(es);
    if AllLabels(prints) != [] {
      assert AllLabels(prints)[0] in Dedup(AllLabels(prints));
      assert |multiset(SortByCount(es))| > 0;
    }
  }

  // ---------------------------------------------------------------- the computation

  lemma CountMapAppend(s: seq<string>, l: string)
    ensures CountMap(s + [l]) == CountMap(s)[l := (if l in CountMap(s) then CountMap(s)[l] else 0) + 1]
  {
    assert multiset(s + [l]) == multiset(s) + multiset{l};
  }

  /** Counting label `j` of a print: the count map and the key order after `labelCount.set`. */
  lemma CountStep(seen: seq<string>, labels: seq<string>, j: nat, counts: map<string, nat>, keys: seq<string>)
    requires j < |labels|
    requires counts == CountMap(seen + labels[..j]) && keys == Dedup(seen + labels[..j])
    ensures counts[labels[j] := (if labels[j] in counts then counts[labels[j]] else 0) + 1] ==
              CountMap(seen + labels[..j + 1])
    ensures (if labels[j] in counts then keys else keys + [labels[j]]) == Dedup(seen + labels[..j + 1])
  {
    var before := seen + labels[..j];
    assert seen + labels[..j + 1] == before + [labels[j]];
    CountMapAppend(before, labels[j]);
    assert (before + [labels[j]])[..|before|] == before;
  }

  lemma AllLabelsStep(prints: seq<Print>, i: nat)
    requires i < |prints|
    ensures AllLabels(prints[..i + 1]) == AllLabels(prints[..i]) + prints[i].labels
  {
    assert prints[..i + 1][..i] == prints[..i];
  }

  /**
   * The inner `print.labels.forEach`: add one print's labels to the counts. The `Map` is the
   * pair of `counts` and `keys`, the order in which its keys were first set, which a Dafny
   * `map` does not keep.
   */
  method CountPrintLabels(labels: seq<string>, counts: map<string, nat>, keys: seq<string>, ghost seen: seq<string>)
    returns (counts': map<string, nat>, keys': seq<string>)
    requires counts == CountMap(seen) && keys == Dedup(seen)
    ensures counts' == CountMap(seen + labels) && keys' == Dedup(seen + labels)
  {
    counts', keys' := counts, keys;
    assert seen + labels[..0] == seen;
    for j := 0 to |labels|
      invariant counts' == CountMap(seen + labels[..j])
      invariant keys' == Dedup(seen + labels[..j])
    {
      var name := labels[j];
      CountStep(seen, labels, j, counts', keys');
      var count := if name in counts' then counts'[name] else 0;
      if name !in counts' {
        keys' := keys' + [name];
      }
      counts' := counts'[name := count + 1];
    }
    assert labels[..|labels|] == labels;
  }

  /**
   * `labels` in `LabelList`: count every label of every print, then sort the `[label, count]`
   * entries by count, most first, and keep the labels.
   */
  method RankLabels(prints: seq<Print>) returns (ranked: seq<string>)
    ensures ranked == Ranking(prints)
    ensures Distinct(ranked)
    ensures forall l :: l in ranked <==> exists i :: 0 <= i < |prints| && l in prints[i].labels
    ensures forall i, j :: 0 <= i < j < |ranked| ==> Occurrences(prints, ranked[i]) >= Occurrences(prints, ranked[j])
  {
    var labelCount: map<string, nat> := map[];
    var keys: seq<string> := [];
    for i := 0 to |prints|
      invariant labelCount == CountMap(AllLabels(prints[..i]))
      invariant keys == Dedup(AllLabels(prints[..i]))
    {
      AllLabelsStep(prints, i);
      labelCount, keys := CountPrintLabels(prints[i].labels, labelCount, keys, AllLabels(prints[..i]));
    }
    assert prints[..|prints|] == prints;
    ranked := LabelsOf(SortByCount(Entries(keys, labelCount)));
    RankingSpec(prints);
  }

  /** `if (labels.length === 0) return null`: whether the label bar is rendered at all. */
  function RendersLabelBar(ranked: seq<string>): bool
  {
    |ranked| != 0
  }
}
