/**
 * The cstruct: the schema-shaped data value the serializer consumes and the
 * deserializer produces. `Null` is the "no value" sentinel, distinct from the empty string.
 */
module Cstruct {
  import opened Schema

  datatype CValue =
    | Null
    | Str(s: string)
    | Map(fields: map<string, CValue>)

  /** `cstruct.get(name, null)`: a missing key reads as the null sentinel. */
  function Lookup(fields: map<string, CValue>, name: string): CValue
  {
    if name in fields then fields[name] else Null
  }

  /** The child has a non-null value in `fields`. */
  predicate Present(child: SchemaNode, fields: map<string, CValue>)
  {
    child.name in fields && !fields[child.name].Null?
  }

  /** The value has the shape the schema expects: a string for a scalar, a map for a
      mapping, recursively, with null allowed anywhere. Anything else is a caller error
      that the source does not check. */
  predicate Fits(node: SchemaNode, v: CValue)
    decreases node
  {
    match v
    case Null => true
    case Str(_) => node.Scalar?
    case Map(fields) =>
      node.Mapping? && forall i | 0 <= i < |node.children| ::
        Fits(node.children[i], Lookup(fields, node.children[i].name))
  }

  /** Every child's looked-up value fits that child. */
  predicate ChildrenFit(cs: seq<SchemaNode>, fields: map<string, CValue>)
  {
    forall i | 0 <= i < |cs| :: Fits(cs[i], Lookup(fields, cs[i].name))
  }

  /** Every declared field at every level holds a non-null value of the right shape. */
  predicate Complete(node: SchemaNode, v: CValue)
    decreases node
    ensures Complete(node, v) ==> Fits(node, v)
  {
    match node
    case Scalar(_, _, _) => v.Str?
    case Mapping(_, _, cs) =>
      v.Map? && forall i | 0 <= i < |cs| ::
        cs[i].name in v.fields && Complete(cs[i], v.fields[cs[i].name])
  }

  /** The value cut down, at every level, to the names the schema declares. */
  function Restrict(node: SchemaNode, v: CValue): CValue
    requires WellFormed(node)
    decreases node
  {
    match node
    case Scalar(_, _, _) => v
    case Mapping(_, _, cs) =>
      if v.Map? then
        Map(map n | n in v.fields && n in Names(node) :: Restrict(cs[NameIndex(cs, n)], v.fields[n]))
      else v
  }

  /** The restricted map holds, under each declared name present in the value, that
      child's restricted value. */
  lemma RestrictAt(node: SchemaNode, v: CValue, i: nat)
    requires WellFormed(node) && node.Mapping? && v.Map? && i < |node.children|
    requires node.children[i].name in v.fields
    ensures node.children[i].name in Restrict(node, v).fields
    ensures Restrict(node, v).fields[node.children[i].name] ==
            Restrict(node.children[i], v.fields[node.children[i].name])
  {
    var cs := node.children;
    assert cs[i].name in Names(node);
    assert SiblingsDistinct(cs);
    assert NameIndex(cs, cs[i].name) == i;
  }

  /** A complete mapping value restricts to a map with exactly the declared names. */
  lemma RestrictKeys(node: SchemaNode, v: CValue)
    requires WellFormed(node) && node.Mapping? && Complete(node, v)
    ensures Restrict(node, v).fields.Keys == Names(node)
  {
  }
}
