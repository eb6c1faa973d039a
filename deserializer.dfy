/**
 * Deserialization: walking a schema alongside an element and building a cstruct.
 * `Deserialized`, `MappingValue` and `FieldValue` are the specification; the methods
 * `DeserializeNode` and `DeserializeMapping` fill the result step by step as the source
 * does and are proved to produce exactly the specified value.
 */
module Deserializer {
  import opened Wrappers
  import opened Schema
  import opened Cstruct
  import opened ElementTree

  /** The cstruct an element deserializes to. A mapping always yields every declared key;
      a scalar yields its text verbatim, or null when the element has no text. */
  function Deserialized(node: SchemaNode, e: Element): (r: CValue)
    decreases node, Width(node) + 1
    ensures node.Mapping? ==> r.Map? && r.fields.Keys == Names(node)
    ensures node.Scalar? ==> (r.Null? <==> e.text.None?)
    ensures node.Scalar? && e.text.Some? ==> r == Str(e.text.value)
  {
    if node.Mapping? then Map(MappingValue(node, e, |node.children|))
    else if e.text.None? then Null
    else Str(e.text.value)
  }

  /** The result map after the first k declared children have been stored. */
  function MappingValue(node: SchemaNode, e: Element, k: nat): (r: map<string, CValue>)
    requires node.Mapping? && k <= |node.children|
    decreases node, k
    ensures r.Keys == set i | 0 <= i < k :: node.children[i].name
  {
    if k == 0 then map[]
    else
      var child := node.children[k - 1];
      MappingValue(node, e, k - 1)[child.name := FieldValue(child, e)]
  }

  /** The value one declared child reads from its parent element: the attribute under its
      tag, or the deserialized first child element with its tag; null when absent. */
  function FieldValue(child: SchemaNode, e: Element): (r: CValue)
    decreases child, Width(child) + 2
    ensures IsAttrib(child) ==> (r.Null? <==> Tag(child) !in e.attrib)
    ensures IsAttrib(child) && Tag(child) in e.attrib ==> r == Str(e.attrib[Tag(child)])
    ensures !IsAttrib(child) && (forall i | 0 <= i < |e.children| :: e.children[i].tag != Tag(child)) ==> r.Null?
  {
    if IsAttrib(child) then
      if Tag(child) in e.attrib then Str(e.attrib[Tag(child)]) else Null
    else
      match FindFirst(e.children, Tag(child))
      case None => Null
      case Some(sub) => Deserialized(child, sub)
  }

  /** With duplicate tags, the first matching child element is the one deserialized. */
  lemma FieldValueFirstMatch(child: SchemaNode, e: Element, i: nat)
    requires !IsAttrib(child) && i < |e.children| && e.children[i].tag == Tag(child)
    requires forall j | 0 <= j < i :: e.children[j].tag != Tag(child)
    ensures FieldValue(child, e) == Deserialized(child, e.children[i])
  {
    var r := FindFirst(e.children, Tag(child));
    var k :| 0 <= k < |e.children| && e.children[k] == r.value && e.children[k].tag == Tag(child) &&
             forall j | 0 <= j < k :: e.children[j].tag != Tag(child);
    assert k == i;
  }

  /** `deserialize`: deserialize the root element of a tree. Without a root the source
      raises, shown as `None`, except for a mapping with no children, whose loop never
      touches the element and yields an empty map. */
  method Deserialize(node: SchemaNode, tree: Tree) returns (r: Option<CValue>)
    ensures tree.root.Some? ==> r == Some(Deserialized(node, tree.root.value))
    ensures tree.root.None? ==> (r.Some? <==> node.Mapping? && node.children == [])
    ensures tree.root.None? && r.Some? ==> r.value == Map(map[])
  {
    match tree.root
    case Some(e) =>
      var v := DeserializeNode(node, e);
      r := Some(v);
    case None =>
      if node.Mapping? && node.children == [] {
        r := Some(Map(map[]));
      } else {
        r := None;
      }
  }

  /** `_deserialize`: dispatch on the schema kind; a scalar reads the element's text. */
  method DeserializeNode(node: SchemaNode, e: Element) returns (v: CValue)
    decreases node, 1
    ensures v == Deserialized(node, e)
  {
    if node.Mapping? {
      var fields := DeserializeMapping(node, e);
      return Map(fields);
    }
    if e.text.None? {
      return Null;
    }
    v := Str(e.text.value);
  }

  /** `_deserialize_mapping`: store one value per declared child, in order. */
  method DeserializeMapping(node: SchemaNode, e: Element) returns (cstruct: map<string, CValue>)
    requires node.Mapping?
    decreases node, 0
    ensures cstruct == MappingValue(node, e, |node.children|)
  {
    cstruct := map[];
    for i := 0 to |node.children|
      invariant cstruct == MappingValue(node, e, i)
    {
      var child := node.children[i];
      var tag := Tag(child);
      var value;
      if IsAttrib(child) {
        value := if tag in e.attrib then Str(e.attrib[tag]) else Null;
      } else {
        var subelement := FindFirst(e.children, tag);
        if subelement.None? {
          value := Null;
        } else {
          value := DeserializeNode(child, subelement.value);
        }
      }
      cstruct := cstruct[child.name := value];
    }
  }

  /** The value stored under a declared name is the one read for the last child declaring it. */
  lemma {:induction false} MappingValueAt(node: SchemaNode, e: Element, k: nat, i: nat)
    requires node.Mapping? && i < k <= |node.children|
    requires forall j | i < j < k :: node.children[j].name != node.children[i].name
    ensures MappingValue(node, e, k)[node.children[i].name] == FieldValue(node.children[i], e)
  {
    if i < k - 1 {
      MappingValueAt(node, e, k - 1, i);
    }
  }

  /** Inserting a child element whose tag differs from the looked-up one does not change the lookup. */
  lemma {:induction false} FindFirstInsert(cs: seq<Element>, at: nat, x: Element, tag: string)
    requires at <= |cs| && x.tag != tag
    ensures FindFirst(cs[..at] + [x] + cs[at..], tag) == FindFirst(cs, tag)
  {
    var ds := cs[..at] + [x] + cs[at..];
    if at == 0 {
      assert ds == [x] + cs;
      assert ds[1..] == cs;
    } else {
      assert ds[0] == cs[0];
      assert ds[1..] == cs[1..][..at - 1] + [x] + cs[1..][at - 1..];
      FindFirstInsert(cs[1..], at - 1, x, tag);
    }
  }

  /** A child's value depends only on the two lookups the source makes for it. */
  lemma FieldValueFromLookups(child: SchemaNode, e1: Element, e2: Element)
    requires IsAttrib(child) ==> (Tag(child) in e1.attrib <==> Tag(child) in e2.attrib)
    requires IsAttrib(child) && Tag(child) in e1.attrib ==> e1.attrib[Tag(child)] == e2.attrib[Tag(child)]
    requires !IsAttrib(child) ==> FindFirst(e1.children, Tag(child)) == FindFirst(e2.children, Tag(child))
    ensures FieldValue(child, e1) == FieldValue(child, e2)
  {
  }

  /** The mapping value depends only on the values its declared children read. */
  lemma {:induction false} MappingValueFromFields(node: SchemaNode, e1: Element, e2: Element, k: nat)
    requires node.Mapping? && k <= |node.children|
    requires forall i {:trigger FieldValue(node.children[i], e1)} | 0 <= i < k :: FieldValue(node.children[i], e1) == FieldValue(node.children[i], e2)
    ensures MappingValue(node, e1, k) == MappingValue(node, e2, k)
  {
    if k > 0 {
      MappingValueFromFields(node, e1, e2, k - 1);
    }
  }

  /** Unknown attributes are ignored: adding one whose tag no attribute-kind child declares
      leaves the deserialized value unchanged. */
  lemma IgnoresUndeclaredAttribute(node: SchemaNode, e: Element, tag: string, value: string)
    requires tag !in AttribTags(node)
    ensures Deserialized(node, e.(attrib := e.attrib[tag := value])) == Deserialized(node, e)
  {
    if node.Mapping? {
      var e' := e.(attrib := e.attrib[tag := value]);
      var cs := node.children;
      forall i | 0 <= i < |cs|
        ensures FieldValue(cs[i], e') == FieldValue(cs[i], e)
      {
        if IsAttrib(cs[i]) {
          assert Tag(cs[i]) in AttribTags(node);
        }
        FieldValueFromLookups(cs[i], e', e);
      }
      MappingValueFromFields(node, e', e, |cs|);
    }
  }

  /** Unknown elements are ignored: inserting, anywhere among the children, an element whose
      tag no element-kind child declares leaves the deserialized value unchanged. */
  lemma IgnoresUndeclaredElement(node: SchemaNode, e: Element, at: nat, x: Element)
    requires at <= |e.children| && x.tag !in ElementTags(node)
    ensures Deserialized(node, e.(children := e.children[..at] + [x] + e.children[at..])) == Deserialized(node, e)
  {
    if node.Mapping? {
      var e' := e.(children := e.children[..at] + [x] + e.children[at..]);
      var cs := node.children;
      forall i | 0 <= i < |cs|
        ensures FieldValue(cs[i], e') == FieldValue(cs[i], e)
      {
        if !IsAttrib(cs[i]) {
          assert Tag(cs[i]) in ElementTags(node);
          FindFirstInsert(e.children, at, x, Tag(cs[i]));
        }
        FieldValueFromLookups(cs[i], e', e);
      }
      MappingValueFromFields(node, e', e, |cs|);
    }
  }
}
