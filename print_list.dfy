/**
 * The print list: which prints are shown for the current search text and selected label,
 * and the two handlers that change that selection or delete a print.
 */
module PrintList {
  import opened Wrappers
  import opened Seqs
  import opened Text
  import opened PrintTypes
  import opened Storage
  import opened UsePrints

  /** `matchesSearch`: empty search, or the lower-cased title or some lower-cased label includes it. */
  predicate MatchesSearch(p: Print, searchTerm: string)
  {
    var searchLower := Lower(searchTerm);
    searchTerm == "" ||
    Includes(Lower(p.title), searchLower) ||
    exists i :: 0 <= i < |p.labels| && Includes(Lower(p.labels[i]), searchLower)
  }

  /** `matchesLabel`: no label selected, or the print carries exactly that label. */
  predicate MatchesLabel(p: Print, selectedLabel: Option<string>)
  {
    selectedLabel.None? || selectedLabel.value in p.labels
  }

  /** `filteredPrints` */
  function FilterPrints(prints: seq<Print>, searchTerm: string, selectedLabel: Option<string>): seq<Print>
  {
    Filter((p: Print) => MatchesSearch(p, searchTerm) && MatchesLabel(p, selectedLabel), prints)
  }

  /** `t` occurs in `s` when case is ignored, by position. */
  ghost predicate OccursIgnoringCase(s: string, t: string)
  {
    exists i :: OccursAt(Lower(s), Lower(t), i)
  }

  /**
   * A print is shown iff the search text is empty or occurs, ignoring case, in its title or
   * in one of its labels, and no label is selected or the selected label is one of its
   * labels, compared exactly. What is shown is a subsequence of the prints, each shown print
   * as often as it occurs.
   */
  lemma FilterPrintsSpec(prints: seq<Print>, searchTerm: string, selectedLabel: Option<string>)
    ensures forall p :: p in FilterPrints(prints, searchTerm, selectedLabel) <==>
              p in prints &&
              (searchTerm == "" || OccursIgnoringCase(p.title, searchTerm) ||
               exists i :: 0 <= i < |p.labels| && OccursIgnoringCase(p.labels[i], searchTerm)) &&
              (selectedLabel.None? || selectedLabel.value in p.labels)
    ensures IsSubseq(FilterPrints(prints, searchTerm, selectedLabel), prints)
    ensures forall p :: p in FilterPrints(prints, searchTerm, selectedLabel) ==>
              multiset(FilterPrints(prints, searchTerm, selectedLabel))[p] == multiset(prints)[p]
  {
    var keep := (p: Print) => MatchesSearch(p, searchTerm) && MatchesLabel(p, selectedLabel);
    forall p: Print
      ensures MatchesSearch(p, searchTerm) <==>
              searchTerm == "" || OccursIgnoringCase(p.title, searchTerm) ||
              exists i :: 0 <= i < |p.labels| && OccursIgnoringCase(p.labels[i], searchTerm)
    {
      IncludesIffOccurs(Lower(p.title), Lower(searchTerm));
      forall i | 0 <= i < |p.labels|
        ensures Includes(Lower(p.labels[i]), Lower(searchTerm)) <==> OccursIgnoringCase(p.labels[i], searchTerm)
      {
        IncludesIffOccurs(Lower(p.labels[i]), Lower(searchTerm));
      }
    }
    FilterIsSubseq(keep, prints);
    FilterCounts(keep, prints);
  }

  /** With no search text and no selected label every print is shown, in order. */
  lemma NoFilterShowsAll(prints: seq<Print>)
    ensures FilterPrints(prints, "", None) == prints
  {
    FilterAll((p: Print) => MatchesSearch(p, "") && MatchesLabel(p, None), prints);
  }

  function CarriesLabel(name: string): Print -> bool
  {
    (p: Print) => name in p.labels
  }

  /**
   * Selecting a label only narrows the list: the result is what the same search shows
   * without a label, restricted to prints carrying the label.
   */
  lemma SelectingLabelNarrows(prints: seq<Print>, searchTerm: string, name: string)
    ensures FilterPrints(prints, searchTerm, Some(name)) ==
            Filter(CarriesLabel(name), FilterPrints(prints, searchTerm, None))
    ensures IsSubseq(FilterPrints(prints, searchTerm, Some(name)), FilterPrints(prints, searchTerm, None))
  {
    FilterFilter((p: Print) => MatchesSearch(p, searchTerm) && MatchesLabel(p, None), CarriesLabel(name),
                 (p: Print) => MatchesSearch(p, searchTerm) && MatchesLabel(p, Some(name)), prints);
    FilterIsSubseq(CarriesLabel(name), FilterPrints(prints, searchTerm, None));
  }

  /** After a label is clicked (search cleared) exactly the prints carrying it are shown. */
  lemma ClickedLabelShowsItsPrints(prints: seq<Print>, name: string)
    ensures FilterPrints(prints, "", Some(name)) == Filter(CarriesLabel(name), prints)
  {
    SelectingLabelNarrows(prints, "", name);
    NoFilterShowsAll(prints);
  }

  /** The search ignores case but the label filter does not: a print labelled "A" ... */
  lemma CaseSensitivity()
    ensures var p := Print("1", "", "", ["A"], Timestamp(0));
            // ... is found by searching "a" ...
            FilterPrints([p], "a", None) == [p] &&
            // ... but not by selecting the label "a".
            FilterPrints([p], "", Some("a")) == []
  {
    var p := Print("1", "", "", ["A"], Timestamp(0));
    assert Lower("A") == "a";
    assert Includes(Lower(p.labels[0]), Lower("a"));
    assert "a" !in p.labels;
  }

  /** The state of `PrintList`: the search text, the selected label and the `onDelete` callback. */
  class PrintListView {
    var searchTerm: string
    var selectedLabel: Option<string>
    /** `onDelete`, when given: the hook's `deletePrint`. */
    const onDelete: PrintsHook?

    constructor (onDelete: PrintsHook?)
      ensures searchTerm == "" && selectedLabel == None && this.onDelete == onDelete
    {
      this.onDelete := onDelete;
      searchTerm := "";
      selectedLabel := None;
    }

    /** The prints shown for the current state. */
    function Shown(prints: seq<Print>): seq<Print>
      reads this
    {
      FilterPrints(prints, searchTerm, selectedLabel)
    }

    /** The search box's `onChange`. */
    method SetSearchTerm(value: string)
      modifies this`searchTerm
      ensures searchTerm == value
    {
      searchTerm := value;
    }

    /** `handleLabelClick`: select `name` (None: "all") and clear the search text. */
    method HandleLabelClick(name: Option<string>)
      modifies this`selectedLabel, this`searchTerm
      ensures selectedLabel == name && searchTerm == ""
      ensures forall prints: seq<Print> {:trigger Shown(prints)} ::
                Shown(prints) == if name.None? then prints else Filter(CarriesLabel(name.value), prints)
    {
      selectedLabel := name;
      searchTerm := "";
      forall prints: seq<Print>
        ensures Shown(prints) == if name.None? then prints else Filter(CarriesLabel(name.value), prints)
      {
        if name.None? {
          NoFilterShowsAll(prints);
        } else {
          ClickedLabelShowsItsPrints(prints, name.value);
        }
      }
    }

    /**
     * `handleDelete`: only if the user confirms (`confirmed`, the answer to `confirm`) and
     * an `onDelete` is given is the print deleted; otherwise nothing changes.
     */
    method HandleDelete(id: string, title: string, confirmed: bool, writeOk: bool)
      modifies if onDelete == null then {} else {onDelete, onDelete.store}
      ensures onDelete != null && confirmed ==>
                onDelete.prints == WithoutId(old(onDelete.prints), id) &&
                onDelete.store.stored ==
                  if writeOk then Encode(WithoutId(Decode(old(onDelete.store.stored)), id))
                  else old(onDelete.store.stored)
      ensures onDelete != null && !confirmed ==>
                onDelete.prints == old(onDelete.prints) && onDelete.store.stored == old(onDelete.store.stored)
      ensures onDelete != null ==>
                onDelete.loading == old(onDelete.loading) && onDelete.uploading == old(onDelete.uploading)
      ensures onDelete != null && old(onDelete.InStep()) && (writeOk || !confirmed) ==> onDelete.InStep()
    {
      if confirmed && onDelete != null {
        onDelete.DeletePrint(id, writeOk);
      }
    }
  }
}
