/**
 * Serialization: walking a schema alongside a cstruct and building an element.
 * `Serialized`, `MappingElement` and `WithChild` are the specification; the methods
 * `SerializeNode` and `SerializeMapping` build the element step by step as the source
 * does and are proved to produce exactly the specified element.
 */
module Serializer {
  import opened Wrappers
  import opened Schema
  import opened Cstruct
  import opened ElementTree

  /** A freshly built element with the node's tag and nothing else. */
  function EmptyElement(node: SchemaNode): (r: Element)
    ensures r.tag == Tag(node)
    ensures r.attrib == map[] && r.children == [] && r.text.None?
  {
    Element(Tag(node), map[], [], None)
  }

  /** The element a value serializes to; null produces no element. */
  function Serialized(node: SchemaNode, v: CValue): (r: Option<Element>)
    requires Fits(node, v)
    decreases node, Width(node) + 1
    ensures r.None? <==> v.Null?
    ensures r.Some? ==> r.value.tag == Tag(node)
    ensures r.Some? && node.Scalar? ==> r.value == Element(Tag(node), map[], [], Some(v.s))
  {
    if v.Null? then None
    else if node.Mapping? then Some(MappingElement(node, v.fields, |node.children|))
    else Some(Element(Tag(node), map[], [], Some(v.s)))
  }

  /** The element after the first k children of a mapping node have been placed. */
  function MappingElement(node: SchemaNode, fields: map<string, CValue>, k: nat): (r: Element)
    requires node.Mapping? && k <= |node.children| && ChildrenFit(node.children, fields)
    decreases node, k
    ensures r.tag == Tag(node) && r.text.None?
  {
    if k == 0 then EmptyElement(node)
    else
      var child := node.children[k - 1];
      WithChild(MappingElement(node, fields, k - 1), child, Lookup(fields, child.name))
  }

  /** One step of the mapping loop: a null value is skipped, an attribute-kind child sets
      an attribute under its tag, any other child appends its serialized element. */
  function WithChild(e: Element, child: SchemaNode, v: CValue): (r: Element)
    requires Fits(child, v)
    decreases child, Width(child) + 2
    ensures r.tag == e.tag && r.text == e.text
  {
    if v.Null? then e
    else if IsAttrib(child) then e.(attrib := e.attrib[Tag(child) := v.s])
    else
      match Serialized(child, v)
      case None => e
      case Some(sub) => e.(children := e.children + [sub])
  }

  /** `serialize`: the tree whose root is the serialized element (no root for null). */
  method Serialize(node: SchemaNode, v: CValue) returns (tree: Tree)
    requires Fits(node, v)
    ensures tree == Tree(Serialized(node, v))
  {
    var element := SerializeNode(node, v);
    tree := Tree(element);
  }

  /** `_serialize`: dispatch on the null sentinel and on the schema kind. */
  method SerializeNode(node: SchemaNode, v: CValue) returns (element: Option<Element>)
    requires Fits(node, v)
    decreases node, 1
    ensures element == Serialized(node, v)
  {
    if v.Null? {
      return None;
    }
    if node.Mapping? {
      var e := SerializeMapping(node, v.fields);
      element := Some(e);
    } else {
      element := Some(Element(Tag(node), map[], [], Some(v.s)));
    }
  }

  /** `_serialize_mapping`: one pass over the declared children, in order, setting
      attributes and appending sub-elements. */
  method SerializeMapping(node: SchemaNode, fields: map<string, CValue>) returns (element: Element)
    requires node.Mapping? && ChildrenFit(node.children, fields)
    decreases node, 0
    ensures element == MappingElement(node, fields, |node.children|)
  {
    element := EmptyElement(node);
    for i := 0 to |node.children|
      invariant element == MappingElement(node, fields, i)
    {
      var child := node.children[i];
      var subtag := Tag(child);
      var subvalue := Lookup(fields, child.name);
      if subvalue.Null? {
        continue;
      }
      if IsAttrib(child) {
        element := element.(attrib := element.attrib[subtag := subvalue.s]);
      } else {
        var subelement := SerializeNode(child, subvalue);
        if subelement.Some? {
          element := element.(children := element.children + [subelement.value]);
        }
      }
    }
  }

  /** Reference definition of a mapping element's children: the serialized non-null,
      element-kind children, in declared order. */
  function SubElements(cs: seq<SchemaNode>, fields: map<string, CValue>): seq<Element>
    requires ChildrenFit(cs, fields)
  {
    if cs == [] then []
    else
      (if !IsAttrib(cs[0]) && Present(cs[0], fields)
       then [Serialized(cs[0], fields[cs[0].name]).value] else [])
      + SubElements(cs[1..], fields)
  }

  lemma {:induction false} SubElementsAppend(cs: seq<SchemaNode>, c: SchemaNode, fields: map<string, CValue>)
    requires ChildrenFit(cs + [c], fields)
    ensures ChildrenFit(cs, fields) && ChildrenFit([c], fields)
    ensures SubElements(cs + [c], fields) == SubElements(cs, fields) + SubElements([c], fields)
  {
    assert forall i | 0 <= i < |cs| :: (cs + [c])[i] == cs[i];
    assert (cs + [c])[|cs|] == c;
    if cs != [] {
      assert (cs + [c])[1..] == cs[1..] + [c];
      SubElementsAppend(cs[1..], c, fields);
    }
  }

  /** Order and placement of sub-elements: the children of a mapping element are exactly
      the serialized non-null element-kind children, in declared order; attribute-kind
      and null children contribute none. */
  lemma {:induction false} MappingChildren(node: SchemaNode, fields: map<string, CValue>, k: nat)
    requires node.Mapping? && k <= |node.children| && ChildrenFit(node.children, fields)
    ensures ChildrenFit(node.children[..k], fields)
    ensures MappingElement(node, fields, k).children == SubElements(node.children[..k], fields)
  {
    if k > 0 {
      MappingChildren(node, fields, k - 1);
      var cs := node.children;
      assert cs[..k] == cs[..k - 1] + [cs[k - 1]];
      SubElementsAppend(cs[..k - 1], cs[k - 1], fields);
      assert [cs[k - 1]][1..] == [];
    }
  }

  /** Placement of attributes: the attribute keys of a mapping element are exactly the tags
      of its non-null attribute-kind children, and each such tag holds the value of the last
      of them that carries it (a later child with the same tag overwrites). */
  lemma {:induction false} MappingAttributes(node: SchemaNode, fields: map<string, CValue>, k: nat)
    requires node.Mapping? && k <= |node.children| && ChildrenFit(node.children, fields)
    ensures MappingElement(node, fields, k).attrib.Keys ==
      set i | 0 <= i < k && IsAttrib(node.children[i]) && Present(node.children[i], fields) :: Tag(node.children[i])
    ensures forall i | 0 <= i < k && IsAttrib(node.children[i]) && Present(node.children[i], fields) &&
                       (forall j | i < j < k && IsAttrib(node.children[j]) && Present(node.children[j], fields) ::
                          Tag(node.children[j]) != Tag(node.children[i])) ::
      Str(MappingElement(node, fields, k).attrib[Tag(node.children[i])]) == fields[node.children[i].name]
  {
    if k > 0 {
      MappingAttributes(node, fields, k - 1);
      var cs := node.children;
      var c := cs[k - 1];
      var prev := MappingElement(node, fields, k - 1);
      var e := MappingElement(node, fields, k);
      if IsAttrib(c) && Present(c, fields) {
        assert Fits(c, fields[c.name]);
        assert e.attrib == prev.attrib[Tag(c) := fields[c.name].s];
      } else if Present(c, fields) {
        assert Serialized(c, fields[c.name]).Some?;
        assert e.attrib == prev.attrib;
      }
    }
  }

  /** A null value and a missing key are the same to the serializer. */
  lemma {:induction false} NullIsMissing(node: SchemaNode, fields: map<string, CValue>, name: string, k: nat)
    requires node.Mapping? && k <= |node.children| && ChildrenFit(node.children, fields)
    ensures ChildrenFit(node.children, fields[name := Null]) && ChildrenFit(node.children, fields - {name})
    ensures MappingElement(node, fields[name := Null], k) == MappingElement(node, fields - {name}, k)
  {
    var cs := node.children;
    forall i | 0 <= i < |cs|
      ensures Fits(cs[i], Lookup(fields[name := Null], cs[i].name))
      ensures Fits(cs[i], Lookup(fields - {name}, cs[i].name))
    {
      assert Fits(cs[i], Lookup(fields, cs[i].name));
      assert Fits(cs[i], Null);
    }
    if k > 0 {
      NullIsMissing(node, fields, name, k - 1);
    }
  }
}
