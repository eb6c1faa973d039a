/**
 * Serializing and then deserializing gives back the value, cut down to the schema's
 * names, provided the schema's siblings are distinguishable and no declared field is null.
 */
module RoundTrip {
  import opened Wrappers
  import opened Schema
  import opened Cstruct
  import opened ElementTree
  import opened Serializer
  import opened Deserializer

  /** In the sub-element list, the first element carrying a child's tag is that child's own
      element when no earlier element-kind sibling shares its tag. */
  lemma {:induction false} FindInSubElements(cs: seq<SchemaNode>, fields: map<string, CValue>, i: nat)
    requires ChildrenFit(cs, fields) && i < |cs|
    requires !IsAttrib(cs[i]) && Present(cs[i], fields)
    requires forall j | 0 <= j < i && !IsAttrib(cs[j]) :: Tag(cs[j]) != Tag(cs[i])
    ensures FindFirst(SubElements(cs, fields), Tag(cs[i])) == Serialized(cs[i], fields[cs[i].name])
  {
    var head := if !IsAttrib(cs[0]) && Present(cs[0], fields)
                then [Serialized(cs[0], fields[cs[0].name]).value] else [];
    var rest := SubElements(cs[1..], fields);
    assert SubElements(cs, fields) == head + rest;
    if i == 0 {
      assert (head + rest)[0] == Serialized(cs[0], fields[cs[0].name]).value;
    } else {
      assert forall j | 0 <= j < |cs| - 1 :: cs[1..][j] == cs[j + 1];
      FindInSubElements(cs[1..], fields, i - 1);
      if head == [] {
        assert head + rest == rest;
      } else {
        assert (head + rest)[0].tag == Tag(cs[0]) != Tag(cs[i]);
        assert (head + rest)[1..] == rest;
      }
    }
  }

  /** Round trip: for a well-formed schema and a value with every declared field non-null,
      deserializing the serialized element yields the value restricted to the schema. */
  lemma {:induction false} RoundTrip(node: SchemaNode, v: CValue)
    requires WellFormed(node) && Complete(node, v)
    decreases node, 2
    ensures Serialized(node, v).Some?
    ensures Deserialized(node, Serialized(node, v).value) == Restrict(node, v)
  {
    if node.Mapping? {
      RoundTripMapping(node, v);
    }
  }

  /** The deserialized map of a complete mapping value equals its restriction, key by key. */
  lemma {:induction false} RoundTripMapping(node: SchemaNode, v: CValue)
    requires WellFormed(node) && Complete(node, v) && node.Mapping?
    decreases node, 1
    ensures MappingValue(node, Serialized(node, v).value, |node.children|) == Restrict(node, v).fields
  {
    var cs := node.children;
    var e := Serialized(node, v).value;
    var m := MappingValue(node, e, |cs|);
    var want := Restrict(node, v).fields;
    RestrictKeys(node, v);
    forall n | n in m
      ensures m[n] == want[n]
    {
      var i :| 0 <= i < |cs| && cs[i].name == n;
      assert SiblingsDistinct(cs);
      RoundTripField(node, v, i);
      MappingValueAt(node, e, |cs|, i);
      RestrictAt(node, v, i);
    }
  }

  /** One declared child of a complete mapping value reads back its own value. */
  lemma {:induction false} RoundTripField(node: SchemaNode, v: CValue, i: nat)
    requires WellFormed(node) && Complete(node, v) && node.Mapping? && i < |node.children|
    decreases node, 0
    ensures FieldValue(node.children[i], Serialized(node, v).value) ==
            Restrict(node.children[i], v.fields[node.children[i].name])
  {
    var cs := node.children;
    var fields := v.fields;
    var c := cs[i];
    var e := Serialized(node, v).value;
    assert e == MappingElement(node, fields, |cs|);
    assert Complete(c, fields[c.name]);
    if IsAttrib(c) {
      MappingAttributes(node, fields, |cs|);
      assert Tag(c) in e.attrib;
    } else {
      MappingChildren(node, fields, |cs|);
      assert cs[..|cs|] == cs;
      FindInSubElements(cs, fields, i);
      RoundTrip(c, fields[c.name]);
    }
  }
}
