/**
 * The reconciliation step `evaluateForUpsert` / `insertPiece` / `updatePiece`
 * (index.js:157-209): for each extracted symbol, update the first sprite
 * piece with the same `svgId`, or insert a new piece when there is none.
 */
module Store {
  import opened Common
  import opened Tree
  import opened Extract

  /**
   * A persisted sprite piece. `extra` stands for every other field of the
   * document (slug, type, flags set by other code), which the import never
   * writes once the piece exists.
   */
  datatype Doc = Doc(
    svgId: Option<Node>,
    title: string,
    file: Option<string>,
    mapName: Option<string>,
    extra: map<string, Node>)

  /**
   * The framework services the step relies on: `self.apos.launder.string`,
   * kept uninterpreted, and the fields of `self.newInstance()` other than the
   * four the import sets.
   */
  datatype Apos = Apos(launder: Option<Node> -> string, blank: map<string, Node>)

  /** The three fields an import writes. */
  datatype Fields = Fields(title: string, file: Option<string>, mapName: Option<string>)

  /** `svg.symbol.id`, the key pieces are looked up by. */
  function SvgId(svg: Svg): Option<Node>
  {
    Attr(svg.symbol, "id")
  }

  /** The stored title: the laundered `title` attribute when it is truthy, else the laundered `id`. */
  function StoredTitle(svg: Svg, launder: Option<Node> -> string): string
  {
    match Attr(svg.symbol, "title")
    case Some(t) => if Truthy(t) then launder(Some(t)) else launder(SvgId(svg))
    case None => launder(SvgId(svg))
  }

  function FieldsOf(svg: Svg, apos: Apos): Fields
  {
    Fields(StoredTitle(svg, apos.launder), svg.file, svg.mapName)
  }

  function DocFields(d: Doc): Fields
  {
    Fields(d.title, d.file, d.mapName)
  }

  /** The document after `$set` of the three import fields. */
  function SetFields(d: Doc, f: Fields): (r: Doc)
    ensures DocFields(r) == f
    ensures r.svgId == d.svgId && r.extra == d.extra
  {
    d.(title := f.title, file := f.file, mapName := f.mapName)
  }

  /** The piece `insertPiece` builds from a fresh instance. */
  function NewPiece(svg: Svg, apos: Apos): (r: Doc)
    ensures r.svgId == SvgId(svg) && DocFields(r) == FieldsOf(svg, apos) && r.extra == apos.blank
  {
    Doc(SvgId(svg), StoredTitle(svg, apos.launder), svg.file, svg.mapName, apos.blank)
  }

  /** The `svgId` values present in the store. */
  function IdSet(docs: seq<Doc>): set<Option<Node>>
  {
    set j | 0 <= j < |docs| :: docs[j].svgId
  }

  /** The position of the first document with the given `svgId`. */
  function FirstIndex(docs: seq<Doc>, id: Option<Node>): (r: Option<nat>)
    ensures r.Some? ==>
      && r.value < |docs|
      && docs[r.value].svgId == id
      && forall j :: 0 <= j < r.value ==> docs[j].svgId != id
    ensures r.None? ==> forall j :: 0 <= j < |docs| ==> docs[j].svgId != id
  {
    if docs == [] then None
    else if docs[0].svgId == id then Some(0)
    else match FirstIndex(docs[1..], id)
      case None => None
      case Some(k) => Some(k + 1)
  }

  /**
   * The store after handling one record: when a piece with the record's id
   * exists, only the title, file and map of the first such piece change;
   * otherwise exactly one piece with that id is appended.
   */
  function Upsert(docs: seq<Doc>, svg: Svg, apos: Apos): (r: seq<Doc>)
    ensures |r| == if SvgId(svg) in IdSet(docs) then |docs| else |docs| + 1
    ensures forall j :: 0 <= j < |docs| ==> r[j].svgId == docs[j].svgId && r[j].extra == docs[j].extra
    ensures forall j :: 0 <= j < |docs| && FirstIndex(docs, SvgId(svg)) != Some(j) ==> r[j] == docs[j]
    ensures exists k ::
      && 0 <= k < |r|
      && FirstIndex(r, SvgId(svg)) == Some(k)
      && DocFields(r[k]) == FieldsOf(svg, apos)
  {
    var id := SvgId(svg);
    match FirstIndex(docs, id)
    case Some(k) =>
      assert id in IdSet(docs);
      var r := docs[k := SetFields(docs[k], FieldsOf(svg, apos))];
      assert FirstIndex(r, id) == Some(k) by { FirstIndexAgree(docs, r, id); }
      r
    case None =>
      assert id !in IdSet(docs);
      var r := docs + [NewPiece(svg, apos)];
      assert r[|docs|].svgId == id;
      r
  }

  /**
   * Two stores that agree on the `svgId` of every position of the shorter
   * one agree on where a key first occurs, when it occurs in the shorter one.
   */
  lemma FirstIndexAgree(a: seq<Doc>, b: seq<Doc>, id: Option<Node>)
    requires |a| <= |b|
    requires forall j :: 0 <= j < |a| ==> a[j].svgId == b[j].svgId
    requires FirstIndex(a, id).Some?
    ensures FirstIndex(b, id) == FirstIndex(a, id)
  {
    var k := FirstIndex(a, id).value;
    assert b[k].svgId == id;
    var kb := FirstIndex(b, id).value;
    assert kb <= k;
    assert a[kb].svgId == id;
  }

  /** The first of the positions `Find` returns is where the key first occurs. */
  lemma FirstMatchIsFirstIndex(docs: seq<Doc>, id: Option<Node>, found: seq<nat>)
    requires forall j: nat :: j in found <==> j < |docs| && docs[j].svgId == id
    requires forall a, b :: 0 <= a < b < |found| ==> found[a] < found[b]
    ensures FirstIndex(docs, id) == if |found| > 0 then Some(found[0]) else None
  {
    if |found| > 0 {
      assert found[0] in found;
      var k := FirstIndex(docs, id).value;
      assert k in found;
      var m :| 0 <= m < |found| && found[m] == k;
      assert found[0] <= k;
    } else {
      assert forall j :: 0 <= j < |docs| ==> docs[j].svgId != id by {
        assert forall j: nat :: j !in found;
      }
    }
  }

  /** The store after handling the records in order. */
  function Reconcile(docs: seq<Doc>, svgs: seq<Svg>, apos: Apos): (r: seq<Doc>)
    ensures |docs| <= |r| <= |docs| + |svgs|
    ensures forall j :: 0 <= j < |docs| ==> r[j].svgId == docs[j].svgId && r[j].extra == docs[j].extra
    decreases |svgs|
  {
    if svgs == [] then docs
    else Upsert(Reconcile(docs, svgs[..|svgs| - 1], apos), svgs[|svgs| - 1], apos)
  }

  /**
   * Whether the record's piece is inserted or updated, its title is the
   * laundered `title` attribute when that is truthy and the laundered `id`
   * otherwise, and its file and map are the record's.
   */
  lemma TitleOnInsertAndUpdate(docs: seq<Doc>, svg: Svg, apos: Apos)
    ensures var r := Upsert(docs, svg, apos);
      var title := Attr(svg.symbol, "title");
      && FirstIndex(r, SvgId(svg)).Some?
      && r[FirstIndex(r, SvgId(svg)).value].title ==
           (if title.Some? && Truthy(title.value) then apos.launder(title) else apos.launder(Attr(svg.symbol, "id")))
      && r[FirstIndex(r, SvgId(svg)).value].file == svg.file
      && r[FirstIndex(r, SvgId(svg)).value].mapName == svg.mapName
  {
    var r := Upsert(docs, svg, apos);
    var k :| 0 <= k < |r| && FirstIndex(r, SvgId(svg)) == Some(k) && DocFields(r[k]) == FieldsOf(svg, apos);
  }

  /** What `Upsert` does, read off the positions `Find` returns. */
  lemma UpsertByFind(docs: seq<Doc>, svg: Svg, apos: Apos, found: seq<nat>)
    requires forall j: nat :: j in found <==> j < |docs| && docs[j].svgId == SvgId(svg)
    requires forall a, b :: 0 <= a < b < |found| ==> found[a] < found[b]
    ensures |found| > 0 ==>
      && found[0] < |docs|
      && Upsert(docs, svg, apos) == docs[found[0] := SetFields(docs[found[0]], FieldsOf(svg, apos))]
    ensures |found| == 0 ==> Upsert(docs, svg, apos) == docs + [NewPiece(svg, apos)]
  {
    FirstMatchIsFirstIndex(docs, SvgId(svg), found);
  }

  /** Handling one more record is one more `Upsert`. */
  lemma ReconcileNext(docs: seq<Doc>, svgs: seq<Svg>, apos: Apos, i: nat)
    requires i < |svgs|
    ensures Reconcile(docs, svgs[..i + 1], apos) == Upsert(Reconcile(docs, svgs[..i], apos), svgs[i], apos)
  {
    assert svgs[..i + 1][..i] == svgs[..i];
  }

  /** The persisted pieces, updated in place by the import. */
  class DocStore {
    var docs: seq<Doc>

    constructor (docs: seq<Doc>)
      ensures this.docs == docs
    {
      this.docs := docs;
    }

    /**
     * `self.find(req, { svgId: id }).toArray()`: the positions of every piece
     * whose `svgId` is `id`, in store order.
     */
    method Find(id: Option<Node>) returns (matches: seq<nat>)
      ensures forall j: nat :: j in matches <==> j < |docs| && docs[j].svgId == id
      ensures forall a, b :: 0 <= a < b < |matches| ==> matches[a] < matches[b]
    {
      matches := [];
      var i := 0;
      while i < |docs|
        invariant 0 <= i <= |docs|
        invariant forall j: nat :: j in matches <==> j < i && docs[j].svgId == id
        invariant forall a, b :: 0 <= a < b < |matches| ==> matches[a] < matches[b]
        invariant forall a :: 0 <= a < |matches| ==> matches[a] < i
      {
        if docs[i].svgId == id {
          matches := matches + [i];
        }
        i := i + 1;
      }
    }

    /** `insertPiece(svg)`: appends a fresh piece for the record. */
    method InsertPiece(svg: Svg, apos: Apos)
      modifies this
      ensures docs == old(docs) + [NewPiece(svg, apos)]
    {
      docs := docs + [NewPiece(svg, apos)];
    }

    /** `updatePiece(doc, svg)`: `$set` of title, file and map on the piece at position `k`. */
    method UpdatePiece(k: nat, svg: Svg, apos: Apos)
      requires k < |docs|
      modifies this
      ensures docs == old(docs)[k := SetFields(old(docs)[k], FieldsOf(svg, apos))]
    {
      var title := StoredTitle(svg, apos.launder);
      docs := docs[k := docs[k].(title := title, file := svg.file, mapName := svg.mapName)];
    }

    /** `evaluateForUpsert(svgs)`: handles the records one after another. */
    method EvaluateForUpsert(svgs: seq<Svg>, apos: Apos)
      modifies this
      ensures docs == Reconcile(old(docs), svgs, apos)
    {
      var i := 0;
      while i < |svgs|
        invariant 0 <= i <= |svgs|
        invariant docs == Reconcile(old(docs), svgs[..i], apos)
      {
        var svg := svgs[i];
        var found := Find(SvgId(svg));
        UpsertByFind(docs, svg, apos, found);
        ReconcileNext(old(docs), svgs, apos, i);
        if |found| > 0 {
          UpdatePiece(found[0], svg, apos);
        } else {
          InsertPiece(svg, apos);
        }
        i := i + 1;
      }
      assert svgs[..i] == svgs;
    }
  }
}
