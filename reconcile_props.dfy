/**
 * What the upsert-by-`svgId` rule of index.js:157-209 guarantees over a whole
 * run: no id ever gets a second piece, the store grows by exactly the new
 * ids, the last record for an id decides its fields, untouched fields stay,
 * and running the same records again changes nothing.
 */
module ReconcileProps {
  import opened Common
  import opened Tree
  import opened Extract
  import opened Store

  /** The number of pieces whose `svgId` is `id`. */
  function Count(docs: seq<Doc>, id: Option<Node>): nat
  {
    if docs == [] then 0
    else (if docs[0].svgId == id then 1 else 0) + Count(docs[1..], id)
  }

  /** The ids of a list of records. */
  function RecordIds(svgs: seq<Svg>): set<Option<Node>>
  {
    set j | 0 <= j < |svgs| :: SvgId(svgs[j])
  }

  /** The last record with the given id, if any. */
  function LastWith(svgs: seq<Svg>, id: Option<Node>): (r: Option<Svg>)
    ensures r.Some? ==> SvgId(r.value) == id
    decreases |svgs|
  {
    if svgs == [] then None
    else if SvgId(svgs[|svgs| - 1]) == id then Some(svgs[|svgs| - 1])
    else LastWith(svgs[..|svgs| - 1], id)
  }

  /** The record `LastWith` picks is one of the records. */
  lemma {:induction false} LastWithIn(svgs: seq<Svg>, id: Option<Node>)
    requires LastWith(svgs, id).Some?
    ensures LastWith(svgs, id).value in svgs
    decreases |svgs|
  {
    if SvgId(svgs[|svgs| - 1]) != id {
      LastWithIn(svgs[..|svgs| - 1], id);
    }
  }

  // ---------------------------------------------------------------------
  // Bookkeeping about ids and counts

  lemma RecordIdsSnoc(svgs: seq<Svg>)
    requires svgs != []
    ensures RecordIds(svgs) == RecordIds(svgs[..|svgs| - 1]) + {SvgId(svgs[|svgs| - 1])}
  {
    var p := svgs[..|svgs| - 1];
    forall x | x in RecordIds(svgs) ensures x in RecordIds(p) + {SvgId(svgs[|svgs| - 1])} {
      var j :| 0 <= j < |svgs| && SvgId(svgs[j]) == x;
      if j < |p| { assert SvgId(p[j]) == x; }
    }
    forall x | x in RecordIds(p) ensures x in RecordIds(svgs) {
      var j :| 0 <= j < |p| && SvgId(p[j]) == x;
      assert SvgId(svgs[j]) == x;
    }
  }

  /** There is a last record for `id` exactly when some record has that id. */
  lemma {:induction false} LastWithSome(svgs: seq<Svg>, id: Option<Node>)
    ensures LastWith(svgs, id).Some? <==> id in RecordIds(svgs)
    decreases |svgs|
  {
    if svgs != [] {
      RecordIdsSnoc(svgs);
      LastWithSome(svgs[..|svgs| - 1], id);
    }
  }

  lemma IdSetSnoc(docs: seq<Doc>, d: Doc)
    ensures IdSet(docs + [d]) == IdSet(docs) + {d.svgId}
  {
    var e := docs + [d];
    forall x | x in IdSet(e) ensures x in IdSet(docs) + {d.svgId} {
      var j :| 0 <= j < |e| && e[j].svgId == x;
      if j < |docs| { assert docs[j].svgId == x; }
    }
    forall x | x in IdSet(docs) ensures x in IdSet(e) {
      var j :| 0 <= j < |docs| && docs[j].svgId == x;
      assert e[j].svgId == x;
    }
    assert e[|docs|].svgId == d.svgId;
  }

  lemma IdSetSameIds(a: seq<Doc>, b: seq<Doc>)
    requires |a| == |b|
    requires forall j :: 0 <= j < |a| ==> a[j].svgId == b[j].svgId
    ensures IdSet(a) == IdSet(b)
  {
    forall x | x in IdSet(a) ensures x in IdSet(b) {
      var j :| 0 <= j < |a| && a[j].svgId == x;
      assert b[j].svgId == x;
    }
    forall x | x in IdSet(b) ensures x in IdSet(a) {
      var j :| 0 <= j < |b| && b[j].svgId == x;
      assert a[j].svgId == x;
    }
  }

  lemma {:induction false} CountSnoc(docs: seq<Doc>, d: Doc, id: Option<Node>)
    ensures Count(docs + [d], id) == Count(docs, id) + if d.svgId == id then 1 else 0
    decreases |docs|
  {
    if docs != [] {
      assert (docs + [d])[1..] == docs[1..] + [d];
      CountSnoc(docs[1..], d, id);
    }
  }

  lemma {:induction false} CountSameIds(a: seq<Doc>, b: seq<Doc>, id: Option<Node>)
    requires |a| == |b|
    requires forall j :: 0 <= j < |a| ==> a[j].svgId == b[j].svgId
    ensures Count(a, id) == Count(b, id)
    decreases |a|
  {
    if a != [] {
      CountSameIds(a[1..], b[1..], id);
    }
  }

  /** A positive count is the same as the id being present. */
  lemma {:induction false} CountPositive(docs: seq<Doc>, id: Option<Node>)
    ensures Count(docs, id) > 0 <==> id in IdSet(docs)
    decreases |docs|
  {
    if docs != [] {
      CountPositive(docs[1..], id);
      if id in IdSet(docs[1..]) {
        var j :| 0 <= j < |docs[1..]| && docs[1..][j].svgId == id;
        assert docs[j + 1].svgId == id;
      }
      if id in IdSet(docs) && docs[0].svgId != id {
        var j :| 0 <= j < |docs| && docs[j].svgId == id;
        assert docs[1..][j - 1].svgId == id;
      }
    }
  }

  // ---------------------------------------------------------------------
  // One record

  /** Handling one record adds its id to the store's ids and no other. */
  lemma UpsertIds(docs: seq<Doc>, svg: Svg, apos: Apos)
    ensures IdSet(Upsert(docs, svg, apos)) == IdSet(docs) + {SvgId(svg)}
  {
    var r := Upsert(docs, svg, apos);
    if SvgId(svg) in IdSet(docs) {
      IdSetSameIds(docs, r);
    } else {
      assert r == r[..|docs|] + [r[|docs|]];
      IdSetSameIds(docs, r[..|docs|]);
      IdSetSnoc(r[..|docs|], r[|docs|]);
      var k :| 0 <= k < |r| && FirstIndex(r, SvgId(svg)) == Some(k);
      assert r[k].svgId == SvgId(svg);
      assert SvgId(svg) !in IdSet(r[..|docs|]);
      assert k == |docs|;
    }
  }

  /** Handling one record creates a piece for its id only when the id had none. */
  lemma UpsertCount(docs: seq<Doc>, svg: Svg, apos: Apos, id: Option<Node>)
    ensures Count(Upsert(docs, svg, apos), id) ==
      if id == SvgId(svg) && Count(docs, id) == 0 then 1 else Count(docs, id)
  {
    var r := Upsert(docs, svg, apos);
    CountPositive(docs, SvgId(svg));
    if SvgId(svg) in IdSet(docs) {
      CountSameIds(docs, r, id);
    } else {
      assert r == r[..|docs|] + [r[|docs|]];
      CountSameIds(docs, r[..|docs|], id);
      CountSnoc(r[..|docs|], r[|docs|], id);
      UpsertIds(docs, svg, apos);
      IdSetSameIds(docs, r[..|docs|]);
      IdSetSnoc(r[..|docs|], r[|docs|]);
      assert r[|docs|].svgId == SvgId(svg);
      CountPositive(docs, id);
    }
  }

  // ---------------------------------------------------------------------
  // A whole list of records

  /** After a run the store holds exactly the old ids and the records' ids. */
  lemma {:induction false} ReconcileIds(docs: seq<Doc>, svgs: seq<Svg>, apos: Apos)
    ensures IdSet(Reconcile(docs, svgs, apos)) == IdSet(docs) + RecordIds(svgs)
    decreases |svgs|
  {
    if svgs != [] {
      var p := svgs[..|svgs| - 1];
      ReconcileIds(docs, p, apos);
      UpsertIds(Reconcile(docs, p, apos), svgs[|svgs| - 1], apos);
      RecordIdsSnoc(svgs);
    }
  }

  /**
   * No run creates a second piece for an id: an id that had pieces keeps
   * exactly as many, and an id that had none gets exactly one when some
   * record carries it.
   */
  lemma {:induction false} ReconcileCount(docs: seq<Doc>, svgs: seq<Svg>, apos: Apos, id: Option<Node>)
    ensures Count(Reconcile(docs, svgs, apos), id) ==
      if Count(docs, id) == 0 && id in RecordIds(svgs) then 1 else Count(docs, id)
    decreases |svgs|
  {
    if svgs != [] {
      var p := svgs[..|svgs| - 1];
      ReconcileCount(docs, p, apos, id);
      UpsertCount(Reconcile(docs, p, apos), svgs[|svgs| - 1], apos, id);
      RecordIdsSnoc(svgs);
    }
  }

  /** A store with at most one piece per id keeps that property through a run. */
  lemma ReconcileKeepsIdsUnique(docs: seq<Doc>, svgs: seq<Svg>, apos: Apos)
    requires forall id :: Count(docs, id) <= 1
    ensures forall id :: Count(Reconcile(docs, svgs, apos), id) <= 1
  {
    forall id ensures Count(Reconcile(docs, svgs, apos), id) <= 1 {
      ReconcileCount(docs, svgs, apos, id);
    }
  }

  /** The store grows by exactly the number of record ids it did not hold yet. */
  lemma {:induction false} ReconcileLength(docs: seq<Doc>, svgs: seq<Svg>, apos: Apos)
    ensures |Reconcile(docs, svgs, apos)| == |docs| + |RecordIds(svgs) - IdSet(docs)|
    decreases |svgs|
  {
    if svgs == [] {
      assert RecordIds(svgs) == {};
    } else {
      var p := svgs[..|svgs| - 1];
      var svg := svgs[|svgs| - 1];
      ReconcileLength(docs, p, apos);
      ReconcileIds(docs, p, apos);
      RecordIdsSnoc(svgs);
      var before := RecordIds(p) - IdSet(docs);
      if SvgId(svg) in IdSet(docs) + RecordIds(p) {
        assert RecordIds(svgs) - IdSet(docs) == before;
      } else {
        assert RecordIds(svgs) - IdSet(docs) == before + {SvgId(svg)};
      }
    }
  }

  /** Re-running the same records leaves the number of pieces unchanged. */
  lemma RerunKeepsCount(docs: seq<Doc>, svgs: seq<Svg>, apos: Apos)
    ensures |Reconcile(Reconcile(docs, svgs, apos), svgs, apos)| == |Reconcile(docs, svgs, apos)|
  {
    var e := Reconcile(docs, svgs, apos);
    ReconcileIds(docs, svgs, apos);
    ReconcileLength(e, svgs, apos);
    assert RecordIds(svgs) - IdSet(e) == {};
  }

  /**
   * The last record for an id decides the title, file and map of the first
   * piece with that id.
   */
  lemma {:induction false} ReconcileLastWins(docs: seq<Doc>, svgs: seq<Svg>, apos: Apos, id: Option<Node>)
    requires id in RecordIds(svgs)
    ensures LastWith(svgs, id).Some?
    ensures var e := Reconcile(docs, svgs, apos);
      && FirstIndex(e, id).Some?
      && DocFields(e[FirstIndex(e, id).value]) == FieldsOf(LastWith(svgs, id).value, apos)
    decreases |svgs|
  {
    LastWithSome(svgs, id);
    var p := svgs[..|svgs| - 1];
    var svg := svgs[|svgs| - 1];
    var before := Reconcile(docs, p, apos);
    var e := Reconcile(docs, svgs, apos);
    assert e == Upsert(before, svg, apos);
    RecordIdsSnoc(svgs);
    if SvgId(svg) != id {
      ReconcileLastWins(docs, p, apos, id);
      FirstIndexAgree(before, e, id);
    }
  }

  /**
   * The store after re-applying records whose ids are all present: the first
   * piece of each id gets the fields of the last record with that id, and
   * every other piece is as it was.
   */
  function Overlay(docs: seq<Doc>, svgs: seq<Svg>, apos: Apos): (r: seq<Doc>)
    ensures |r| == |docs|
  {
    seq(|docs|, k requires 0 <= k < |docs| =>
      var last := LastWith(svgs, docs[k].svgId);
      if FirstIndex(docs, docs[k].svgId) == Some(k) && last.Some?
      then SetFields(docs[k], FieldsOf(last.value, apos))
      else docs[k])
  }

  /** Where the first piece of the record's id sits after re-applying the earlier records. */
  lemma OverlayFirstIndex(docs: seq<Doc>, svgs: seq<Svg>, apos: Apos, id: Option<Node>)
    requires id in IdSet(docs)
    ensures FirstIndex(docs, id).Some?
    ensures FirstIndex(Overlay(docs, svgs, apos), id) == FirstIndex(docs, id)
  {
    var j0 :| 0 <= j0 < |docs| && docs[j0].svgId == id;
    FirstIndexAgree(docs, Overlay(docs, svgs, apos), id);
  }

  lemma OverlaySnocAt(docs: seq<Doc>, svgs: seq<Svg>, apos: Apos, j: nat)
    requires svgs != [] && SvgId(svgs[|svgs| - 1]) in IdSet(docs)
    requires j < |docs|
    ensures |Upsert(Overlay(docs, svgs[..|svgs| - 1], apos), svgs[|svgs| - 1], apos)| == |docs|
    ensures Upsert(Overlay(docs, svgs[..|svgs| - 1], apos), svgs[|svgs| - 1], apos)[j]
         == Overlay(docs, svgs, apos)[j]
  {
    var p := svgs[..|svgs| - 1];
    var svg := svgs[|svgs| - 1];
    var id := SvgId(svg);
    var o := Overlay(docs, p, apos);
    OverlayFirstIndex(docs, p, apos, id);
    var k := FirstIndex(docs, id).value;
    assert id in IdSet(o) by { assert o[k].svgId == id; }
    var u := Upsert(o, svg, apos);
    if j == k {
      FirstIndexAgree(o, u, id);
      assert LastWith(svgs, id) == Some(svg);
    } else {
      assert u[j] == o[j];
      if docs[j].svgId != id {
        assert LastWith(svgs, docs[j].svgId) == LastWith(p, docs[j].svgId);
      }
    }
  }

  /** Re-applying one more record whose id is stored overwrites the first piece of that id. */
  lemma OverlaySnoc(docs: seq<Doc>, svgs: seq<Svg>, apos: Apos)
    requires svgs != [] && SvgId(svgs[|svgs| - 1]) in IdSet(docs)
    ensures Upsert(Overlay(docs, svgs[..|svgs| - 1], apos), svgs[|svgs| - 1], apos) == Overlay(docs, svgs, apos)
  {
    var u := Upsert(Overlay(docs, svgs[..|svgs| - 1], apos), svgs[|svgs| - 1], apos);
    var full := Overlay(docs, svgs, apos);
    if |docs| > 0 { OverlaySnocAt(docs, svgs, apos, 0); }
    forall j | 0 <= j < |docs| ensures u[j] == full[j] {
      OverlaySnocAt(docs, svgs, apos, j);
    }
  }

  /** When every record's id is already stored, a run only overwrites fields, as `Overlay` says. */
  lemma {:induction false} ReconcilePresent(docs: seq<Doc>, svgs: seq<Svg>, apos: Apos)
    requires RecordIds(svgs) <= IdSet(docs)
    ensures Reconcile(docs, svgs, apos) == Overlay(docs, svgs, apos)
    decreases |svgs|
  {
    if svgs == [] {
      assert Overlay(docs, svgs, apos) == docs;
    } else {
      RecordIdsSnoc(svgs);
      ReconcilePresent(docs, svgs[..|svgs| - 1], apos);
      OverlaySnoc(docs, svgs, apos);
    }
  }

  /** Running the same records twice leaves the store as one run left it. */
  lemma ReconcileIdempotent(docs: seq<Doc>, svgs: seq<Svg>, apos: Apos)
    ensures Reconcile(Reconcile(docs, svgs, apos), svgs, apos) == Reconcile(docs, svgs, apos)
  {
    var e := Reconcile(docs, svgs, apos);
    ReconcileIds(docs, svgs, apos);
    ReconcilePresent(e, svgs, apos);
    var o := Overlay(e, svgs, apos);
    forall k | 0 <= k < |e| ensures o[k] == e[k] {
      var id := e[k].svgId;
      LastWithSome(svgs, id);
      if FirstIndex(e, id) == Some(k) && LastWith(svgs, id).Some? {
        ReconcileLastWins(docs, svgs, apos, id);
      }
    }
  }

  // ---------------------------------------------------------------------
  // Records with distinct ids

  /** With distinct ids, the last record carrying a record's id is that record. */
  lemma {:induction false} LastWithUnique(svgs: seq<Svg>, j: nat)
    requires forall a, b :: 0 <= a < b < |svgs| ==> SvgId(svgs[a]) != SvgId(svgs[b])
    requires j < |svgs|
    ensures LastWith(svgs, SvgId(svgs[j])) == Some(svgs[j])
    decreases |svgs|
  {
    if j < |svgs| - 1 {
      var p := svgs[..|svgs| - 1];
      assert p[j] == svgs[j];
      LastWithUnique(p, j);
    }
  }

  /**
   * Records with distinct ids, run against a store holding at most one piece
   * per id, leave exactly one piece per record, whose title, file and map
   * are that record's.
   */
  lemma ReconcileOnePiecePerRecord(docs: seq<Doc>, svgs: seq<Svg>, apos: Apos)
    requires forall id :: Count(docs, id) <= 1
    requires forall a, b :: 0 <= a < b < |svgs| ==> SvgId(svgs[a]) != SvgId(svgs[b])
    ensures var e := Reconcile(docs, svgs, apos);
      forall j :: 0 <= j < |svgs| ==>
        && Count(e, SvgId(svgs[j])) == 1
        && FirstIndex(e, SvgId(svgs[j])).Some?
        && DocFields(e[FirstIndex(e, SvgId(svgs[j])).value]) == FieldsOf(svgs[j], apos)
  {
    var e := Reconcile(docs, svgs, apos);
    forall j | 0 <= j < |svgs|
      ensures && Count(e, SvgId(svgs[j])) == 1
              && FirstIndex(e, SvgId(svgs[j])).Some?
              && DocFields(e[FirstIndex(e, SvgId(svgs[j])).value]) == FieldsOf(svgs[j], apos)
    {
      var id := SvgId(svgs[j]);
      assert id in RecordIds(svgs);
      ReconcileCount(docs, svgs, apos, id);
      ReconcileLastWins(docs, svgs, apos, id);
      LastWithUnique(svgs, j);
    }
  }

  /** The elements of `b` outside `a` are those of `b` less those shared with `a`. */
  lemma DifferenceSize<T>(a: set<T>, b: set<T>)
    ensures |b - a| == |b| - |a * b|
  {
    assert b == (b - a) + (a * b);
    assert (b - a) * (a * b) == {};
  }

  /**
   * When every record of a run comes from the same map, each of their ids
   * ends up on a piece that names that map, whatever the store held before.
   */
  lemma LaterMapOwnsItsIds(docs: seq<Doc>, svgs: seq<Svg>, apos: Apos, name: string, id: Option<Node>)
    requires forall j :: 0 <= j < |svgs| ==> svgs[j].mapName == Some(name)
    requires id in RecordIds(svgs)
    ensures var e := Reconcile(docs, svgs, apos);
      FirstIndex(e, id).Some? && e[FirstIndex(e, id).value].mapName == Some(name)
  {
    ReconcileLastWins(docs, svgs, apos, id);
    LastWithIn(svgs, id);
  }

  /**
   * Two maps imported into an empty store, the first with two ids and the
   * second with three, one of them shared: the first import leaves two
   * pieces and importing it again keeps two; after the second there are
   * four, and the shared piece belongs to the second map.
   */
  lemma TwoMapsScenario(first: seq<Svg>, second: seq<Svg>, apos: Apos, secondName: string)
    requires |RecordIds(first)| == 2 && |RecordIds(second)| == 3
    requires |RecordIds(first) * RecordIds(second)| == 1
    requires forall j :: 0 <= j < |second| ==> second[j].mapName == Some(secondName)
    ensures var one := Reconcile([], first, apos);
      var two := Reconcile(one, second, apos);
      && |one| == 2
      && |Reconcile(one, first, apos)| == 2
      && |two| == 4
      && forall id :: id in RecordIds(first) * RecordIds(second) ==>
           FirstIndex(two, id).Some? && two[FirstIndex(two, id).value].mapName == Some(secondName)
  {
    var one := Reconcile([], first, apos);
    TwoMapsSizes(first, second, apos);
    forall id | id in RecordIds(first) * RecordIds(second)
      ensures var two := Reconcile(one, second, apos);
        FirstIndex(two, id).Some? && two[FirstIndex(two, id).value].mapName == Some(secondName)
    {
      LaterMapOwnsItsIds(one, second, apos, secondName, id);
    }
  }

  /** The piece counts of the two-map import. */
  lemma TwoMapsSizes(first: seq<Svg>, second: seq<Svg>, apos: Apos)
    requires |RecordIds(first)| == 2 && |RecordIds(second)| == 3
    requires |RecordIds(first) * RecordIds(second)| == 1
    ensures var one := Reconcile([], first, apos);
      && |one| == 2
      && |Reconcile(one, first, apos)| == 2
      && |Reconcile(one, second, apos)| == 4
  {
    var one := Reconcile([], first, apos);
    assert IdSet([]) == {};
    ReconcileLength([], first, apos);
    assert RecordIds(first) - {} == RecordIds(first);
    RerunKeepsCount([], first, apos);
    ReconcileIds([], first, apos);
    ReconcileLength(one, second, apos);
    DifferenceSize(RecordIds(first), RecordIds(second));
  }
}
