/**
 * The generic object tree that the XML parser produces (strings, arrays and
 * plain objects), JavaScript truthiness and property access on it, and the
 * recursive key search `findInObj` (index.js:219-228).
 */
module Tree {
  import opened Common

  /**
   * A parsed value: a string, an array, or an object whose own enumerable
   * properties are listed in enumeration order.
   */
  datatype Node = Scalar(text: string) | Arr(items: seq<Node>) | Obj(fields: seq<Field>)

  datatype Field = Field(key: string, value: Node)

  /** The object has an own property called `key` (lodash `_.has`). */
  predicate HasKey(fields: seq<Field>, key: string)
  {
    exists i :: 0 <= i < |fields| && fields[i].key == key
  }

  predicate Has(node: Node, key: string)
  {
    node.Obj? && HasKey(node.fields, key)
  }

  /** The value of property `key` of an object's field list, if there is one. */
  function Lookup(fields: seq<Field>, key: string): Option<Node>
  {
    if fields == [] then None
    else if fields[0].key == key then Some(fields[0].value)
    else Lookup(fields[1..], key)
  }

  /**
   * Property access `node[key]`: an object's own property, `undefined` for
   * strings and arrays (array indices and `length` are not modelled).
   */
  function Attr(node: Node, key: string): Option<Node>
  {
    if node.Obj? then Lookup(node.fields, key) else None
  }

  /**
   * A lookup succeeds exactly when the object owns the key, and then yields
   * the value of the first field with that key.
   */
  lemma {:induction false} LookupIff(fields: seq<Field>, key: string)
    ensures Lookup(fields, key).Some? <==> HasKey(fields, key)
    ensures Lookup(fields, key).Some? ==>
      exists i :: && 0 <= i < |fields|
                  && fields[i] == Field(key, Lookup(fields, key).value)
                  && forall j :: 0 <= j < i ==> fields[j].key != key
  {
    if fields != [] && fields[0].key != key {
      LookupIff(fields[1..], key);
      if HasKey(fields, key) {
        var i :| 0 <= i < |fields| && fields[i].key == key;
        assert fields[1..][i - 1].key == key;
      }
      if Lookup(fields, key).Some? {
        var i :| && 0 <= i < |fields[1..]|
                 && fields[1..][i] == Field(key, Lookup(fields, key).value)
                 && forall j :: 0 <= j < i ==> fields[1..][j].key != key;
        assert fields[i + 1] == Field(key, Lookup(fields, key).value);
        assert forall j :: 1 <= j < i + 1 ==> fields[j] == fields[1..][j - 1];
      }
    } else if fields != [] {
      assert HasKey(fields, key) by { assert fields[0].key == key; }
    }
  }

  /** Property access yields a value exactly when `_.has` holds. */
  lemma AttrIff(node: Node, key: string)
    ensures Attr(node, key).Some? <==> Has(node, key)
  {
    if node.Obj? {
      LookupIff(node.fields, key);
    }
  }

  /** JavaScript truthiness: only the empty string is falsy among these values. */
  predicate Truthy(node: Node)
  {
    !(node.Scalar? && node.text == "")
  }

  /** One-level flattening of a list of lists (`_.flatten`). */
  function Flatten<T>(ss: seq<seq<T>>): (r: seq<T>)
  {
    if ss == [] then [] else ss[0] + Flatten(ss[1..])
  }

  /**
   * `findInObj(obj, key)`: `[obj]` when `obj` itself owns `key`; otherwise the
   * concatenation, in enumeration order, of the searches of the children
   * whose `typeof` is `'object'` (arrays and objects); strings contribute
   * nothing. A node that owns the key is returned without looking inside it.
   */
  function FindInObj(node: Node, key: string): (r: seq<Node>)
    ensures Has(node, key) ==> r == [node]
    decreases node
  {
    if Has(node, key) then [node]
    else match node
      case Scalar(_) => []
      case Arr(items) =>
        Flatten(seq(|items|, i requires 0 <= i < |items| =>
          if items[i].Scalar? then [] else FindInObj(items[i], key)))
      case Obj(fields) =>
        Flatten(seq(|fields|, i requires 0 <= i < |fields| =>
          if fields[i].value.Scalar? then [] else FindInObj(fields[i].value, key)))
  }

  /** Some node of the tree (the root included) owns `key`. */
  predicate Occurs(node: Node, key: string)
    decreases node
  {
    match node
    case Scalar(_) => false
    case Arr(items) => exists i :: 0 <= i < |items| && Occurs(items[i], key)
    case Obj(fields) =>
      HasKey(fields, key) || exists i :: 0 <= i < |fields| && Occurs(fields[i].value, key)
  }

  /** `x` is `node` or a node nested somewhere inside it. */
  ghost predicate Within(x: Node, node: Node)
    decreases node
  {
    x == node ||
    match node
    case Scalar(_) => false
    case Arr(items) => exists i :: 0 <= i < |items| && Within(x, items[i])
    case Obj(fields) => exists i :: 0 <= i < |fields| && Within(x, fields[i].value)
  }

  /**
   * `x` is `node`, or is reached from it through children of nodes that do
   * not own `key`: the nodes `findInObj` visits.
   */
  ghost predicate Reach(x: Node, node: Node, key: string)
    decreases node
  {
    x == node ||
    (!Has(node, key) &&
     match node
     case Scalar(_) => false
     case Arr(items) => exists i :: 0 <= i < |items| && Reach(x, items[i], key)
     case Obj(fields) => exists i :: 0 <= i < |fields| && Reach(x, fields[i].value, key))
  }

  lemma {:induction false} FlattenMember<T>(ss: seq<seq<T>>, x: T)
    ensures x in Flatten(ss) <==> exists i :: 0 <= i < |ss| && x in ss[i]
  {
    if ss != [] {
      FlattenMember(ss[1..], x);
      if x in Flatten(ss[1..]) {
        var i :| 0 <= i < |ss[1..]| && x in ss[1..][i];
        assert x in ss[i + 1];
      }
      if exists i :: 0 <= i < |ss| && x in ss[i] {
        var i :| 0 <= i < |ss| && x in ss[i];
        if i > 0 { assert x in ss[1..][i - 1]; }
      }
    }
  }

  lemma {:induction false} FlattenEmpty<T>(ss: seq<seq<T>>)
    ensures Flatten(ss) == [] <==> forall i :: 0 <= i < |ss| ==> ss[i] == []
  {
    if ss != [] {
      FlattenEmpty(ss[1..]);
      assert forall i :: 1 <= i < |ss| ==> ss[i] == ss[1..][i - 1];
    }
  }

  /** Every node `findInObj` returns owns the key and lies inside the searched tree. */
  lemma {:induction false} FindInObjSound(node: Node, key: string)
    ensures forall x :: x in FindInObj(node, key) ==> Has(x, key) && Within(x, node)
    decreases node
  {
    if !Has(node, key) {
      match node
      case Scalar(_) =>
      case Arr(items) =>
        var ss := seq(|items|, i requires 0 <= i < |items| =>
          if items[i].Scalar? then [] else FindInObj(items[i], key));
        assert FindInObj(node, key) == Flatten(ss);
        forall x | x in Flatten(ss) ensures Has(x, key) && Within(x, node) {
          FlattenMember(ss, x);
          var i :| 0 <= i < |ss| && x in ss[i];
          FindInObjSound(items[i], key);
        }
      case Obj(fields) =>
        var ss := seq(|fields|, i requires 0 <= i < |fields| =>
          if fields[i].value.Scalar? then [] else FindInObj(fields[i].value, key));
        assert FindInObj(node, key) == Flatten(ss);
        forall x | x in Flatten(ss) ensures Has(x, key) && Within(x, node) {
          FlattenMember(ss, x);
          var i :| 0 <= i < |ss| && x in ss[i];
          FindInObjSound(fields[i].value, key);
        }
    }
  }

  /** `findInObj` finds nothing exactly when no node of the tree owns the key. */
  lemma {:induction false} FindInObjEmptyIff(node: Node, key: string)
    ensures FindInObj(node, key) == [] <==> !Occurs(node, key)
    decreases node
  {
    match node
    case Scalar(_) =>
    case Arr(items) =>
      var ss := seq(|items|, i requires 0 <= i < |items| =>
        if items[i].Scalar? then [] else FindInObj(items[i], key));
      FlattenEmpty(ss);
      forall i | 0 <= i < |items| ensures ss[i] == [] <==> !Occurs(items[i], key) {
        FindInObjEmptyIff(items[i], key);
      }
    case Obj(fields) =>
      if !HasKey(fields, key) {
        var ss := seq(|fields|, i requires 0 <= i < |fields| =>
          if fields[i].value.Scalar? then [] else FindInObj(fields[i].value, key));
        FlattenEmpty(ss);
        forall i | 0 <= i < |fields| ensures ss[i] == [] <==> !Occurs(fields[i].value, key) {
          FindInObjEmptyIff(fields[i].value, key);
        }
      }
  }

  /**
   * Every node the search visits that owns the key is returned: no owner
   * outside another owner is missed.
   */
  lemma {:induction false} FindInObjComplete(x: Node, node: Node, key: string)
    requires Reach(x, node, key) && Has(x, key)
    ensures x in FindInObj(node, key)
    decreases node
  {
    if x != node {
      match node
      case Scalar(_) =>
      case Arr(items) =>
        var i :| 0 <= i < |items| && Reach(x, items[i], key);
        FindInObjComplete(x, items[i], key);
        var ss := seq(|items|, i requires 0 <= i < |items| =>
          if items[i].Scalar? then [] else FindInObj(items[i], key));
        assert x in ss[i];
        FlattenMember(ss, x);
      case Obj(fields) =>
        var i :| 0 <= i < |fields| && Reach(x, fields[i].value, key);
        FindInObjComplete(x, fields[i].value, key);
        var ss := seq(|fields|, i requires 0 <= i < |fields| =>
          if fields[i].value.Scalar? then [] else FindInObj(fields[i].value, key));
        assert x in ss[i];
        FlattenMember(ss, x);
    }
  }

  /**
   * Every node the search returns is an outermost owner: it owns the key and
   * is reached without passing through another node that owns it.
   */
  lemma {:induction false} FindInObjOutermost(x: Node, node: Node, key: string)
    requires x in FindInObj(node, key)
    ensures Reach(x, node, key) && Has(x, key)
    decreases node
  {
    if !Has(node, key) {
      match node
      case Scalar(_) =>
      case Arr(items) =>
        var ss := seq(|items|, i requires 0 <= i < |items| =>
          if items[i].Scalar? then [] else FindInObj(items[i], key));
        assert FindInObj(node, key) == Flatten(ss);
        FlattenMember(ss, x);
        var i :| 0 <= i < |ss| && x in ss[i];
        FindInObjOutermost(x, items[i], key);
      case Obj(fields) =>
        var ss := seq(|fields|, i requires 0 <= i < |fields| =>
          if fields[i].value.Scalar? then [] else FindInObj(fields[i].value, key));
        assert FindInObj(node, key) == Flatten(ss);
        FlattenMember(ss, x);
        var i :| 0 <= i < |ss| && x in ss[i];
        FindInObjOutermost(x, fields[i].value, key);
    }
  }

  /** After empty lists only, the flattening starts with the first element of the first non-empty list. */
  lemma {:induction false} FlattenFirst<T>(ss: seq<seq<T>>, i: nat)
    requires i < |ss| && ss[i] != []
    requires forall j :: 0 <= j < i ==> ss[j] == []
    ensures Flatten(ss) != [] && Flatten(ss)[0] == ss[i][0]
    decreases i
  {
    if i > 0 {
      assert forall j :: 0 <= j < i - 1 ==> ss[1..][j] == ss[j + 1];
      FlattenFirst(ss[1..], i - 1);
    }
  }

  /**
   * In an object that does not own the key, the first node found is the
   * first one found in the first property whose value contains an owner.
   */
  lemma FindInObjFirstIsLeftmost(fields: seq<Field>, key: string, i: nat)
    requires !HasKey(fields, key)
    requires i < |fields| && Occurs(fields[i].value, key)
    requires forall j :: 0 <= j < i ==> !Occurs(fields[j].value, key)
    ensures FindInObj(fields[i].value, key) != []
    ensures FindInObj(Obj(fields), key) != []
    ensures FindInObj(Obj(fields), key)[0] == FindInObj(fields[i].value, key)[0]
  {
    var ss := seq(|fields|, j requires 0 <= j < |fields| =>
      if fields[j].value.Scalar? then [] else FindInObj(fields[j].value, key));
    assert FindInObj(Obj(fields), key) == Flatten(ss);
    FindInObjEmptyIff(fields[i].value, key);
    forall j | 0 <= j < i ensures ss[j] == [] {
      FindInObjEmptyIff(fields[j].value, key);
    }
    FlattenFirst(ss, i);
  }

  /**
   * In an array, the first node found is the first one found in the first
   * element that contains an owner.
   */
  lemma FindInArrFirstIsLeftmost(items: seq<Node>, key: string, i: nat)
    requires i < |items| && Occurs(items[i], key)
    requires forall j :: 0 <= j < i ==> !Occurs(items[j], key)
    ensures FindInObj(items[i], key) != []
    ensures FindInObj(Arr(items), key) != []
    ensures FindInObj(Arr(items), key)[0] == FindInObj(items[i], key)[0]
  {
    var ss := seq(|items|, j requires 0 <= j < |items| =>
      if items[j].Scalar? then [] else FindInObj(items[j], key));
    assert FindInObj(Arr(items), key) == Flatten(ss);
    FindInObjEmptyIff(items[i], key);
    forall j | 0 <= j < i ensures ss[j] == [] {
      FindInObjEmptyIff(items[j], key);
    }
    FlattenFirst(ss, i);
  }
}
