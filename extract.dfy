/**
 * `parseMap` (index.js:119-155) from the parsed tree on: locates the list of
 * `<symbol>` elements and turns each into a record carrying the map's served
 * file and name.
 */
module Extract {
  import opened Common
  import opened Tree

  /**
   * The two properties of the `map` argument that `parseMap` copies into each
   * record: `map.finalFile` and `map.name`, `undefined` when absent.
   */
  datatype Origin = Origin(finalFile: Option<string>, name: Option<string>)

  /**
   * One extracted symbol, `{ symbol: symbol.$, file, map }`: `symbol` is the
   * element's attribute object.
   */
  datatype Svg = Svg(symbol: Node, file: Option<string>, mapName: Option<string>)

  /**
   * The list of symbol elements: the `symbol` property of the first node
   * `findInObj` returns. No such node is "invalid"; a falsy value is "error";
   * a truthy value that is not an array makes `forEach` throw a TypeError.
   */
  function SymbolList(tree: Node): (r: Result<seq<Node>>)
    ensures FindInObj(tree, "symbol") == [] ==> r == Err(Invalid)
    ensures r.Ok? ==> Attr(FindInObj(tree, "symbol")[0], "symbol") == Some(Arr(r.value))
  {
    var containers := FindInObj(tree, "symbol");
    if |containers| == 0 then Err(Invalid)
    else match Attr(containers[0], "symbol")
      case None => Err(Error)
      case Some(v) =>
        if !Truthy(v) then Err(Error)
        else if v.Arr? then Ok(v.items)
        else Err(TypeError)
  }

  /**
   * The attribute object `symbol.$` of one element, provided its `id` is
   * truthy. A missing `$` makes reading `.id` throw a TypeError; a missing or
   * empty `id` is "invalid".
   */
  function SymbolAttrs(item: Node): (r: Result<Node>)
    ensures r.Ok? ==> Attr(item, "$") == Some(r.value)
    ensures r.Err? ==> r.failure in {TypeError, Invalid}
  {
    match Attr(item, "$")
    case None => Err(TypeError)
    case Some(attrs) =>
      match Attr(attrs, "id")
      case None => Err(Invalid)
      case Some(id) => if Truthy(id) then Ok(attrs) else Err(Invalid)
  }

  /**
   * An element is usable exactly when it has attributes with a truthy `id`;
   * one without attributes is a TypeError, one with a missing or empty `id`
   * is "invalid".
   */
  lemma UsableSymbolIff(item: Node)
    ensures SymbolAttrs(item).Ok? <==>
      exists attrs, id :: Attr(item, "$") == Some(attrs) && Attr(attrs, "id") == Some(id) && Truthy(id)
    ensures SymbolAttrs(item) == Err(TypeError) <==> Attr(item, "$").None?
  {
    if SymbolAttrs(item).Ok? {
      var attrs := Attr(item, "$").value;
      var id := Attr(attrs, "id").value;
      assert Attr(item, "$") == Some(attrs) && Attr(attrs, "id") == Some(id) && Truthy(id);
    }
  }

  /**
   * The records for a list of symbol elements: one per element, in order,
   * or the failure of the first element without a usable `id`.
   */
  function Records(items: seq<Node>, origin: Origin): (r: Result<seq<Svg>>)
    ensures r.Ok? <==> forall j :: 0 <= j < |items| ==> SymbolAttrs(items[j]).Ok?
    ensures r.Ok? ==>
      && |r.value| == |items|
      && forall j :: 0 <= j < |items| ==>
           r.value[j] == Svg(SymbolAttrs(items[j]).value, origin.finalFile, origin.name)
  {
    if items == [] then Ok([])
    else match SymbolAttrs(items[0])
      case Err(e) => Err(e)
      case Ok(attrs) =>
        var tail := Records(items[1..], origin);
        assert forall j :: 1 <= j < |items| ==> items[j] == items[1..][j - 1];
        if tail.Err? then Err(tail.failure)
        else Ok([Svg(attrs, origin.finalFile, origin.name)] + tail.value)
  }

  /** A failed extraction reports the failure of the first element without a usable `id`. */
  lemma {:induction false} RecordsFailAtFirstBadSymbol(items: seq<Node>, origin: Origin)
    requires Records(items, origin).Err?
    ensures exists k ::
      && 0 <= k < |items|
      && SymbolAttrs(items[k]) == Err(Records(items, origin).failure)
      && forall j :: 0 <= j < k ==> SymbolAttrs(items[j]).Ok?
  {
    if SymbolAttrs(items[0]).Ok? {
      RecordsFailAtFirstBadSymbol(items[1..], origin);
      var k :| && 0 <= k < |items| - 1
               && SymbolAttrs(items[1..][k]) == Err(Records(items[1..], origin).failure)
               && forall j :: 0 <= j < k ==> SymbolAttrs(items[1..][j]).Ok?;
      assert forall j :: 1 <= j <= k + 1 ==> items[j] == items[1..][j - 1];
      assert SymbolAttrs(items[k + 1]) == Err(Records(items, origin).failure);
    } else {
      assert SymbolAttrs(items[0]) == Err(Records(items, origin).failure);
    }
  }

  /** The first element without a usable `id` decides the failure. */
  lemma {:induction false} RecordsStopAt(items: seq<Node>, origin: Origin, k: nat)
    requires k < |items| && SymbolAttrs(items[k]).Err?
    requires forall j :: 0 <= j < k ==> SymbolAttrs(items[j]).Ok?
    ensures Records(items, origin) == Err(SymbolAttrs(items[k]).failure)
    decreases k
  {
    if k > 0 {
      assert forall j :: 0 <= j < k - 1 ==> items[1..][j] == items[j + 1];
      RecordsStopAt(items[1..], origin, k - 1);
    }
  }

  /** What `parseMap` returns for a parsed document. */
  function ParseResult(tree: Node, origin: Origin): Result<seq<Svg>>
  {
    match SymbolList(tree)
    case Err(e) => Err(e)
    case Ok(items) => Records(items, origin)
  }

  /**
   * The first container decides: a missing or falsy `symbol` value is
   * "error", a truthy value that is not an array is a TypeError, and an
   * array is handed on element by element.
   */
  lemma FirstContainerChecks(tree: Node, origin: Origin)
    requires FindInObj(tree, "symbol") != []
    ensures var v := Attr(FindInObj(tree, "symbol")[0], "symbol");
      && (v.None? || !Truthy(v.value) ==> ParseResult(tree, origin) == Err(Error))
      && (v.Some? && Truthy(v.value) && !v.value.Arr? ==> ParseResult(tree, origin) == Err(TypeError))
      && (v.Some? && v.value.Arr? ==> ParseResult(tree, origin) == Records(v.value.items, origin))
  {
  }

  /** A document in which no node has a `symbol` property is "invalid". */
  lemma NoSymbolIsInvalid(tree: Node, origin: Origin)
    requires !Occurs(tree, "symbol")
    ensures ParseResult(tree, origin) == Err(Invalid)
  {
    FindInObjEmptyIff(tree, "symbol");
  }

  /**
   * Only the first container's symbols are used: a successful parse yields
   * exactly one record per element of that container's `symbol` array, in
   * document order, each carrying the map's served file and name.
   */
  lemma ParseUsesFirstContainer(tree: Node, origin: Origin, items: seq<Node>)
    requires FindInObj(tree, "symbol") != []
    requires Attr(FindInObj(tree, "symbol")[0], "symbol") == Some(Arr(items))
    ensures ParseResult(tree, origin).Ok? <==> forall j :: 0 <= j < |items| ==> SymbolAttrs(items[j]).Ok?
    ensures ParseResult(tree, origin).Ok? ==>
      var svgs := ParseResult(tree, origin).value;
      |svgs| == |items| &&
      forall j :: 0 <= j < |items| ==>
        && Attr(items[j], "$") == Some(svgs[j].symbol)
        && svgs[j].file == origin.finalFile
        && svgs[j].mapName == origin.name
  {
  }

  /**
   * `parseMap(xml, map)` after parsing: pushes one record per symbol element
   * and throws on the first element without an `id`, so no partial list is
   * ever returned.
   */
  method ParseMap(tree: Node, origin: Origin) returns (r: Result<seq<Svg>>)
    ensures r == ParseResult(tree, origin)
  {
    var list := SymbolList(tree);
    if list.Err? {
      return Err(list.failure);
    }
    var symbols := list.value;
    var svgs: seq<Svg> := [];
    var i := 0;
    while i < |symbols|
      invariant 0 <= i <= |symbols|
      invariant forall j :: 0 <= j < i ==> SymbolAttrs(symbols[j]).Ok?
      invariant |svgs| == i
      invariant forall j :: 0 <= j < i ==>
        svgs[j] == Svg(SymbolAttrs(symbols[j]).value, origin.finalFile, origin.name)
    {
      var attrs := SymbolAttrs(symbols[i]);
      if attrs.Err? {
        RecordsStopAt(symbols, origin, i);
        return Err(attrs.failure);
      }
      svgs := svgs + [Svg(attrs.value, origin.finalFile, origin.name)];
      i := i + 1;
    }
    assert Records(symbols, origin).Ok?;
    assert Records(symbols, origin).value == svgs;
    return Ok(svgs);
  }
}
