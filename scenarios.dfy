/**
 * Worked instances of the serializer and deserializer on small schemas.
 */
module Scenarios {
  import opened Wrappers
  import opened Schema
  import opened Cstruct
  import opened ElementTree
  import opened Serializer
  import opened Deserializer

  /** An `item` mapping with an attribute-kind `id` and an element-kind `label`. */
  function ItemSchema(): SchemaNode
  {
    Mapping("item", None, [Scalar("id", None, true), Scalar("label", None, false)])
  }

  /** A scalar serializes to one element whose text is the value, and reads back. */
  lemma ScalarExample()
    ensures Serialized(Scalar("x", None, false), Str("5")) == Some(Element("x", map[], [], Some("5")))
    ensures Deserialized(Scalar("x", None, false), Element("x", map[], [], Some("5"))) == Str("5")
  {
  }

  /** The attribute-kind child lands in the attributes, the other child as a sub-element. */
  lemma MappingExample()
    ensures Fits(ItemSchema(), Map(map["id" := Str("7"), "label" := Str("foo")]))
    ensures Serialized(ItemSchema(), Map(map["id" := Str("7"), "label" := Str("foo")])) ==
            Some(Element("item", map["id" := "7"], [Element("label", map[], [], Some("foo"))], None))
  {
    var fields := map["id" := Str("7"), "label" := Str("foo")];
    var s := ItemSchema();
    assert Fits(s.children[0], Lookup(fields, "id"));
    assert Fits(s.children[1], Lookup(fields, "label"));
    assert MappingElement(s, fields, 1) == Element("item", map["id" := "7"], [], None);
    var sub := Element("label", map[], [], Some("foo"));
    assert Serialized(s.children[1], Str("foo")) == Some(sub);
    assert MappingElement(s, fields, 2) == Element("item", map["id" := "7"], [] + [sub], None);
    assert [] + [sub] == [sub];
  }

  /** A mapping whose names are all missing, or all null, serializes to an empty element,
      and an empty element deserializes to a map with every declared name bound to null. */
  lemma EmptyMappingExample()
    ensures Serialized(ItemSchema(), Map(map[])) == Some(Element("item", map[], [], None))
    ensures Serialized(ItemSchema(), Map(map["id" := Null, "label" := Null])) ==
            Some(Element("item", map[], [], None))
    ensures Deserialized(ItemSchema(), Element("item", map[], [], None)) == Map(map["id" := Null, "label" := Null])
  {
    var s := ItemSchema();
    assert Fits(s, Map(map[]));
    assert MappingElement(s, map[], 1) == Element("item", map[], [], None);
    var nulls := map["id" := Null, "label" := Null];
    assert Fits(s.children[0], Lookup(nulls, "id"));
    assert Fits(s.children[1], Lookup(nulls, "label"));
    assert MappingElement(s, nulls, 1) == Element("item", map[], [], None);
  }
}
