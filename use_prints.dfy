/**
 * The `usePrints` hook: the in-memory print list with its `loading` and `uploading` flags,
 * kept in step with the store, and the parsing of the comma-separated label field.
 */
module UsePrints {
  import opened Wrappers
  import opened Seqs
  import opened Text
  import opened PrintTypes
  import opened Storage

  // ---------------------------------------------------------------- label parsing

  /** What parsing yields: a non-empty, trimmed, comma-free label. */
  predicate IsLabel(s: string)
  {
    s != "" && NoComma(s) && IsTrimmed(s)
  }

  /** `.map((label) => label.trim())` */
  function TrimAll(pieces: seq<string>): (trimmed: seq<string>)
    ensures |trimmed| == |pieces|
  {
    if pieces == [] then [] else [Trim(pieces[0])] + TrimAll(pieces[1..])
  }

  /** A trimmed piece is a slice of the piece, so it has no comma when the piece has none. */
  lemma TrimmedIsLabelOrEmpty(piece: string)
    requires NoComma(piece)
    ensures NoComma(Trim(piece)) && IsTrimmed(Trim(piece))
  {
    var lead, trail := TrimSplits(piece);
    forall k | 0 <= k < |Trim(piece)|
      ensures Trim(piece)[k] != ','
    {
      assert Trim(piece)[k] == piece[|lead| + k];
    }
  }

  lemma {:induction false} TrimAllPieces(pieces: seq<string>)
    requires forall i :: 0 <= i < |pieces| ==> NoComma(pieces[i])
    ensures forall i :: 0 <= i < |pieces| ==> TrimAll(pieces)[i] == Trim(pieces[i])
    ensures forall x :: x in TrimAll(pieces) ==> NoComma(x) && IsTrimmed(x)
  {
    if pieces != [] {
      TrimAllPieces(pieces[1..]);
      TrimmedIsLabelOrEmpty(pieces[0]);
    }
  }

  /**
   * `formData.labels.split(",").map((label) => label.trim()).filter((label) => label)`:
   * only non-empty, trimmed, comma-free labels come out.
   */
  function ParseLabels(input: string): (labels: seq<string>)
    ensures forall i :: 0 <= i < |labels| ==> IsLabel(labels[i])
  {
    SplitPiecesHaveNoComma(input);
    TrimAllPieces(SplitComma(input));
    var labels := Filter((l: string) => l != "", TrimAll(SplitComma(input)));
    assert forall i :: 0 <= i < |labels| ==> labels[i] in labels;
    labels
  }

  /**
   * Labels written out joined by commas parse back to themselves, in order and with
   * repeats kept.
   */
  lemma ParseJoinRoundTrip(labels: seq<string>)
    requires forall i :: 0 <= i < |labels| ==> IsLabel(labels[i])
    ensures ParseLabels(JoinComma(labels)) == labels
  {
    if labels == [] {
      assert SplitComma("") == [""];
      assert TrimAll([""]) == [""];
      return;
    }
    SplitJoin(labels);
    TrimAllPieces(labels);
    forall i | 0 <= i < |labels|
      ensures TrimAll(labels)[i] == labels[i]
    {
      TrimOfTrimmed(labels[i]);
    }
    assert TrimAll(labels) == labels;
    FilterAll((l: string) => l != "", labels);
  }

  /** Parsing what parsing produced, joined again, changes nothing. */
  lemma ParseLabelsIdempotent(input: string)
    ensures ParseLabels(JoinComma(ParseLabels(input))) == ParseLabels(input)
  {
    ParseJoinRoundTrip(ParseLabels(input));
  }

  // ---------------------------------------------------------------- the hook

  /** How a call of `addPrint` ends: no image, the image could not be read (it throws), or added. */
  datatype AddOutcome = NoImage | Failed | Added(record: Print)

  /** The record `addPrint` builds before the store gives it an id. */
  function PrintDataOf(form: PrintFormData, imageUrl: string, now: Timestamp): PrintData
  {
    PrintData(imageUrl, form.title, ParseLabels(form.labels), now)
  }

  class PrintsHook {
    var prints: seq<Print>
    var loading: bool
    var uploading: bool
    /** `localStorageUtils`, the store the hook reads and writes. */
    const store: LocalStore

    /**
     * The in-memory list is the stored one: the store is the source of truth, and every
     * successful write keeps the hook in step with it.
     */
    predicate InStep()
      reads this, store
    {
      prints == Decode(store.stored)
    }

    /** The initial state: no prints, loading, not uploading. */
    constructor (store: LocalStore)
      ensures this.store == store
      ensures prints == [] && loading && !uploading
    {
      this.store := store;
      prints := [];
      loading := true;
      uploading := false;
    }

    /** `fetchPrints` (also `refetch`): load the stored list; loading is over whichever way it goes. */
    method FetchPrints()
      modifies this`prints, this`loading
      ensures prints == Decode(store.stored)
      ensures !loading
      ensures !store.stored.Json? ==> prints == []
      ensures InStep()
    {
      // `getPrints` never throws, so the hook's own `catch` (setPrints([])) cannot run
      var storedPrints := store.GetPrints();
      prints := storedPrints;
      loading := false;
    }

    /**
     * The part of `addPrint` before the `await`: without an image nothing happens;
     * otherwise `uploading` is set, and stays set while the image is read.
     */
    method BeginAdd(form: PrintFormData) returns (started: bool)
      modifies this`uploading
      ensures started <==> form.image.Some?
      ensures uploading == if started then true else old(uploading)
    {
      if form.image.None? {
        return false;
      }
      uploading := true;
      started := true;
    }

    /**
     * The part of `addPrint` after the `await`. `encoded` is what `convertImageToBase64`
     * resolved to (None: it rejected, and the error is rethrown); `now` is `new Date()`,
     * `clock` is the store's `Date.now()` and `writeOk` whether `setItem` succeeded.
     * The `finally` clears `uploading` on both paths.
     */
    method FinishAdd(form: PrintFormData, encoded: Option<string>, now: Timestamp, clock: nat, writeOk: bool)
      returns (outcome: AddOutcome)
      requires form.image.Some?
      modifies this`prints, this`uploading, store
      ensures !uploading
      ensures encoded.None? ==> outcome == Failed && prints == old(prints) && store.stored == old(store.stored)
      ensures encoded.Some? ==>
                outcome == Added(WithId(PrintDataOf(form, encoded.value, now), IdFor(clock))) &&
                prints == [outcome.record] + old(prints) &&
                store.stored == if writeOk then Encode([outcome.record] + Decode(old(store.stored)))
                                else old(store.stored)
      ensures old(InStep()) && (encoded.None? || writeOk) ==> InStep()
      ensures old(InStep()) && encoded.Some? && !writeOk ==> prints == [outcome.record] + Decode(store.stored)
    {
      if encoded.None? {
        uploading := false;
        return Failed;
      }
      var printData := PrintDataOf(form, encoded.value, now);
      var newPrint := store.AddPrint(printData, clock, writeOk);
      prints := [newPrint] + prints;
      uploading := false;
      outcome := Added(newPrint);
      DecodeEncode([newPrint] + Decode(old(store.stored)));
    }

    /** `addPrint`: the two parts in sequence. */
    method AddPrint(form: PrintFormData, encoded: Option<string>, now: Timestamp, clock: nat, writeOk: bool)
      returns (outcome: AddOutcome)
      modifies this`prints, this`uploading, store
      ensures form.image.None? ==>
                outcome == NoImage && prints == old(prints) && uploading == old(uploading) &&
                store.stored == old(store.stored)
      ensures form.image.Some? ==> !uploading
      ensures form.image.Some? && encoded.None? ==>
                outcome == Failed && prints == old(prints) && store.stored == old(store.stored)
      ensures form.image.Some? && encoded.Some? ==>
                outcome == Added(WithId(PrintDataOf(form, encoded.value, now), IdFor(clock))) &&
                outcome.record.title == form.title &&
                prints == [outcome.record] + old(prints) &&
                store.stored == if writeOk then Encode([outcome.record] + Decode(old(store.stored)))
                                else old(store.stored)
      ensures old(InStep()) && (form.image.None? || encoded.None? || writeOk) ==> InStep()
      ensures old(InStep()) && form.image.Some? && encoded.Some? && !writeOk ==>
                prints == [outcome.record] + Decode(store.stored)
    {
      var started := BeginAdd(form);
      if !started {
        return NoImage;
      }
      outcome := FinishAdd(form, encoded, now, clock, writeOk);
    }

    /**
     * `deletePrint`: delete from the store, then drop every in-memory record with the id,
     * keeping the rest in order.
     */
    method DeletePrint(id: string, writeOk: bool)
      modifies this`prints, store
      ensures prints == WithoutId(old(prints), id)
      ensures store.stored == if writeOk then Encode(WithoutId(Decode(old(store.stored)), id))
                              else old(store.stored)
      ensures !HasId(prints, id)
      ensures old(InStep()) && writeOk ==> InStep()
      ensures old(InStep()) && !writeOk ==> prints == WithoutId(Decode(store.stored), id)
    {
      store.DeletePrint(id, writeOk);
      prints := WithoutId(prints, id);
      WithoutIdSpec(old(prints), id);
      DecodeEncode(WithoutId(Decode(old(store.stored)), id));
    }
  }
}
