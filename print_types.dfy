/** The `Print` record and the form data it is made from. */
module PrintTypes {
  import opened Wrappers
  import opened Seqs

  /** A JavaScript `Date`: an instant, in milliseconds since the epoch. */
  datatype Timestamp = Timestamp(epochMillis: int)

  /** One catalogued document. `imageUrl` is an opaque data-URI string. */
  datatype Print = Print(id: string, imageUrl: string, title: string, labels: seq<string>, createdAt: Timestamp)

  /** `Omit<Print, "id">`: a record before the store assigns its id. */
  datatype PrintData = PrintData(imageUrl: string, title: string, labels: seq<string>, createdAt: Timestamp)

  /** `{ ...data, id }` */
  function WithId(data: PrintData, id: string): Print
  {
    Print(id, data.imageUrl, data.title, data.labels, data.createdAt)
  }

  /** A browser `File`, known only by identity. */
  datatype ImageFile = ImageFile(handle: nat)

  /** What the form submits: a title, a comma-separated label string and an optional image. */
  datatype PrintFormData = PrintFormData(title: string, labels: string, image: Option<ImageFile>)

  /** No two records share an id. */
  predicate UniqueIds(ps: seq<Print>)
  {
    forall i, j :: 0 <= i < j < |ps| ==> ps[i].id != ps[j].id
  }

  predicate HasId(ps: seq<Print>, id: string)
  {
    exists i :: 0 <= i < |ps| && ps[i].id == id
  }

  /** `ps.filter((print) => print.id !== id)` */
  function WithoutId(ps: seq<Print>, id: string): seq<Print>
  {
    Filter((p: Print) => p.id != id, ps)
  }

  /**
   * Removing by id drops exactly the records with that id: none is left, every other record
   * stays as often as it was there and in the same relative order, and an absent id changes
   * nothing.
   */
  lemma WithoutIdSpec(ps: seq<Print>, id: string)
    ensures !HasId(WithoutId(ps, id), id)
    ensures forall p :: multiset(WithoutId(ps, id))[p] == if p.id != id then multiset(ps)[p] else 0
    ensures IsSubseq(WithoutId(ps, id), ps)
    ensures !HasId(ps, id) ==> WithoutId(ps, id) == ps
  {
    var keep := (p: Print) => p.id != id;
    var r := WithoutId(ps, id);
    forall i | 0 <= i < |r|
      ensures r[i].id != id
    {
      assert r[i] in r;
    }
    FilterCounts(keep, ps);
    FilterIsSubseq(keep, ps);
    if !HasId(ps, id) {
      forall p | p in ps
        ensures keep(p)
      {
        var i :| 0 <= i < |ps| && ps[i] == p;
      }
      FilterAll(keep, ps);
    }
  }

  /** A list headed by `p` has unique ids iff its tail does and no record in the tail has `p`'s id. */
  lemma UniqueIdsCons(p: Print, rest: seq<Print>)
    ensures UniqueIds([p] + rest) <==> UniqueIds(rest) && !HasId(rest, p.id)
  {
    var ps := [p] + rest;
    if UniqueIds(ps) {
      forall i | 0 <= i < |rest|
        ensures rest[i].id != p.id
      {
        assert ps[0] == p && ps[i + 1] == rest[i];
      }
      forall i, j | 0 <= i < j < |rest|
        ensures rest[i].id != rest[j].id
      {
        assert ps[i + 1] == rest[i] && ps[j + 1] == rest[j];
      }
    }
    if UniqueIds(rest) && !HasId(rest, p.id) {
      forall i, j | 0 <= i < j < |ps|
        ensures ps[i].id != ps[j].id
      {
        assert ps[j] == rest[j - 1];
        if i > 0 {
          assert ps[i] == rest[i - 1];
        }
      }
    }
  }

  /** Removing records never creates a duplicate id. */
  lemma {:induction false} WithoutIdKeepsUnique(ps: seq<Print>, id: string)
    requires UniqueIds(ps)
    ensures UniqueIds(WithoutId(ps, id))
  {
    if ps != [] {
      var rest := ps[1..];
      assert ps == [ps[0]] + rest;
      UniqueIdsCons(ps[0], rest);
      WithoutIdKeepsUnique(rest, id);
      if ps[0].id != id {
        var kept := WithoutId(rest, id);
        assert WithoutId(ps, id) == [ps[0]] + kept;
        forall i | 0 <= i < |kept|
          ensures kept[i].id != ps[0].id
        {
          assert kept[i] in rest;
          var k :| 0 <= k < |rest| && rest[k] == kept[i];
        }
        UniqueIdsCons(ps[0], WithoutId(rest, id));
      } else {
        assert WithoutId(ps, id) == WithoutId(rest, id);
      }
    }
  }
}
