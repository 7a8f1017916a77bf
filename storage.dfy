/**
 * `localStorageUtils`: the print list kept as JSON under one browser storage key.
 * Reading is fail-soft (absent or unreadable data reads as the empty list) and failed
 * writes are swallowed, leaving the key as it was.
 */
module Storage {
  import opened Text
  import opened PrintTypes

  /** The one storage key the list lives under. */
  const StorageKey := "prints_data"

  /** A `Date` after `JSON.stringify`: its date-time text, which still names the same instant. */
  datatype DateText = DateText(epochMillis: int)

  /** One element of the stored JSON array. */
  datatype StoredPrint = StoredPrint(id: string, imageUrl: string, title: string, labels: seq<string>, createdAt: DateText)

  /**
   * What `localStorage.getItem(StorageKey)` yields: nothing (null or the empty string),
   * text that `JSON.parse` or the `map` over its result rejects, or a JSON array of records.
   */
  datatype StoredValue = Absent | Corrupt | Json(records: seq<StoredPrint>)

  /** `JSON.stringify` of one record: the date becomes text. */
  function Serialize(p: Print): StoredPrint
  {
    StoredPrint(p.id, p.imageUrl, p.title, p.labels, DateText(p.createdAt.epochMillis))
  }

  /** `{ ...print, createdAt: new Date(print.createdAt) }` */
  function Reconstruct(r: StoredPrint): Print
  {
    Print(r.id, r.imageUrl, r.title, r.labels, Timestamp(r.createdAt.epochMillis))
  }

  function SerializeAll(ps: seq<Print>): (rs: seq<StoredPrint>)
    ensures |rs| == |ps|
  {
    if ps == [] then [] else [Serialize(ps[0])] + SerializeAll(ps[1..])
  }

  function ReconstructAll(rs: seq<StoredPrint>): (ps: seq<Print>)
    ensures |ps| == |rs|
  {
    if rs == [] then [] else [Reconstruct(rs[0])] + ReconstructAll(rs[1..])
  }

  /** The value `savePrints` writes. */
  function Encode(ps: seq<Print>): StoredValue
  {
    Json(SerializeAll(ps))
  }

  /** The list `getPrints` returns for a stored value. */
  function Decode(v: StoredValue): (ps: seq<Print>)
    ensures !v.Json? ==> ps == []
    ensures v.Json? ==> |ps| == |v.records|
  {
    match v
    case Absent => []
    case Corrupt => []
    case Json(rs) => ReconstructAll(rs)
  }

  /** Every record, its timestamp included, survives serialisation and reconstruction. */
  lemma {:induction false} DecodeEncode(ps: seq<Print>)
    ensures Decode(Encode(ps)) == ps
  {
    if ps != [] {
      DecodeEncode(ps[1..]);
      assert SerializeAll(ps)[1..] == SerializeAll(ps[1..]);
    }
  }

  /** `Date.now().toString()` */
  function IdFor(clock: nat): string
  {
    NatToString(clock)
  }

  /**
   * Adding a record keeps ids unique exactly when they were unique and the new id is new;
   * the store itself never checks this.
   */
  lemma AddKeepsIdsUnique(ps: seq<Print>, data: PrintData, clock: nat)
    ensures UniqueIds([WithId(data, IdFor(clock))] + ps) <==> UniqueIds(ps) && !HasId(ps, IdFor(clock))
  {
    UniqueIdsCons(WithId(data, IdFor(clock)), ps);
  }

  /**
   * If every stored id was made from an earlier clock reading, the id made now is new.
   * `clocks[i]` is the reading that produced `ps[i].id`.
   */
  lemma LaterClockGivesFreshId(ps: seq<Print>, clocks: seq<nat>, clock: nat)
    requires |clocks| == |ps|
    requires forall i :: 0 <= i < |ps| ==> ps[i].id == IdFor(clocks[i]) && clocks[i] < clock
    ensures !HasId(ps, IdFor(clock))
  {
    forall i | 0 <= i < |ps|
      ensures ps[i].id != IdFor(clock)
    {
      NatToStringInjective(clocks[i], clock);
    }
  }

  /**
   * Two successful adds within the same millisecond, starting from any stored value `s`,
   * leave a stored list holding two records with one id.
   */
  lemma {:induction false} SameMillisecondCollides(s: StoredValue, first: PrintData, second: PrintData, clock: nat)
    ensures var afterFirst := Encode([WithId(first, IdFor(clock))] + Decode(s));
            !UniqueIds(Decode(Encode([WithId(second, IdFor(clock))] + Decode(afterFirst))))
  {
    var firstList := [WithId(first, IdFor(clock))] + Decode(s);
    DecodeEncode(firstList);
    var secondList := [WithId(second, IdFor(clock))] + firstList;
    DecodeEncode(secondList);
    assert secondList[0].id == secondList[1].id;
  }

  /** The browser's storage slot for `StorageKey`. */
  class LocalStore {
    var stored: StoredValue

    constructor (initial: StoredValue)
      ensures stored == initial
    {
      stored := initial;
    }

    /** `getPrints`: the stored list, or the empty list when it is absent or unreadable. */
    method GetPrints() returns (ps: seq<Print>)
      ensures ps == Decode(stored)
      ensures stored.Absent? || stored.Corrupt? ==> ps == []
    {
      ps := Decode(stored);
    }

    /**
     * `savePrints`: overwrite the key with the list; `writeOk` is false when `setItem`
     * throws (quota exceeded), and then the key keeps its old value.
     */
    method SavePrints(ps: seq<Print>, writeOk: bool)
      modifies this
      ensures stored == if writeOk then Encode(ps) else old(stored)
    {
      if writeOk {
        stored := Encode(ps);
      }
    }

    /**
     * `addPrint`: give the record the id `clock.toString()` and put it in front of the stored
     * list (of the empty list when that was absent or unreadable).
     */
    method AddPrint(data: PrintData, clock: nat, writeOk: bool) returns (p: Print)
      modifies this
      ensures p == WithId(data, IdFor(clock))
      ensures stored == if writeOk then Encode([p] + Decode(old(stored))) else old(stored)
      ensures writeOk ==> Decode(stored) == [p] + Decode(old(stored))
      ensures writeOk && !old(stored).Json? ==> Decode(stored) == [p]
    {
      var prints := GetPrints();
      p := WithId(data, IdFor(clock));
      SavePrints([p] + prints, writeOk);
      DecodeEncode([p] + prints);
    }

    /**
     * `deletePrint`: write back the stored list without the records carrying `id`; when no
     * record has it, the list written is the one read.
     */
    method DeletePrint(id: string, writeOk: bool)
      modifies this
      ensures stored == if writeOk then Encode(WithoutId(Decode(old(stored)), id)) else old(stored)
      ensures writeOk ==> !HasId(Decode(stored), id)
      ensures writeOk && !HasId(Decode(old(stored)), id) ==> Decode(stored) == Decode(old(stored))
    {
      var prints := GetPrints();
      SavePrints(WithoutId(prints, id), writeOk);
      DecodeEncode(WithoutId(prints, id));
      WithoutIdSpec(prints, id);
    }
  }

  /**
   * The same collision observed through the store: two `addPrint` calls with one clock
   * reading and successful writes return records with equal ids, and the stored list no
   * longer has unique ids.
   */
  method AddTwiceInOneMillisecond(store: LocalStore, first: PrintData, second: PrintData, clock: nat)
    returns (p: Print, q: Print)
    modifies store
    ensures p.id == q.id
    ensures |Decode(store.stored)| >= 2 && Decode(store.stored)[..2] == [q, p]
    ensures !UniqueIds(Decode(store.stored))
  {
    p := store.AddPrint(first, clock, true);
    q := store.AddPrint(second, clock, true);
    assert Decode(store.stored)[0].id == Decode(store.stored)[1].id;
  }
}
