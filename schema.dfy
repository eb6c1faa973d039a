/**
 * Schema nodes and the two facts the serializer and deserializer ask of them:
 * the tag a node is rendered under, and whether it is rendered as an XML attribute.
 * The schema library itself (colander) is not part of this model; a node is a plain value.
 */
module Schema {
  import opened Wrappers

  /** A Scalar is a leaf field; a Mapping has an ordered list of child fields.
      `tagOverride` is the optional rendering tag; `attrib` marks an attribute-kind scalar. */
  datatype SchemaNode =
    | Scalar(name: string, tagOverride: Option<string>, attrib: bool)
    | Mapping(name: string, tagOverride: Option<string>, children: seq<SchemaNode>)

  /** The element or attribute name a node renders under: its override, else its name. */
  function Tag(node: SchemaNode): string
  {
    match node.tagOverride
    case Some(t) => t
    case None => node.name
  }

  /** Only scalars explicitly marked as attributes are rendered as attributes. */
  predicate IsAttrib(node: SchemaNode)
  {
    node.Scalar? && node.attrib
  }

  /** Number of children; used as the second component of termination measures. */
  function Width(node: SchemaNode): nat
  {
    if node.Mapping? then |node.children| else 0
  }

  /** The data-model keys a mapping node declares. */
  function Names(node: SchemaNode): set<string>
  {
    if node.Mapping? then set i | 0 <= i < |node.children| :: node.children[i].name else {}
  }

  /** Position of the first child declaring a name. */
  function NameIndex(cs: seq<SchemaNode>, name: string): (i: nat)
    requires exists j | 0 <= j < |cs| :: cs[j].name == name
    ensures i < |cs| && cs[i].name == name
    ensures forall j | 0 <= j < i :: cs[j].name != name
  {
    if cs[0].name == name then 0
    else
      assert exists j | 0 <= j < |cs[1..]| :: cs[1..][j].name == name by {
        var j :| 0 <= j < |cs| && cs[j].name == name;
        assert cs[1..][j - 1].name == name;
      }
      1 + NameIndex(cs[1..], name)
  }

  /** Tags of the attribute-kind children of a node. */
  function AttribTags(node: SchemaNode): set<string>
  {
    if node.Mapping? then
      set i | 0 <= i < |node.children| && IsAttrib(node.children[i]) :: Tag(node.children[i])
    else {}
  }

  /** Tags of the element-kind children of a node. */
  function ElementTags(node: SchemaNode): set<string>
  {
    if node.Mapping? then
      set i | 0 <= i < |node.children| && !IsAttrib(node.children[i]) :: Tag(node.children[i])
    else {}
  }

  /** Siblings have distinct names, attribute-kind siblings distinct tags and
      element-kind siblings distinct tags (an attribute may share a tag with an element). */
  predicate SiblingsDistinct(cs: seq<SchemaNode>)
  {
    && (forall i, j | 0 <= i < j < |cs| :: cs[i].name != cs[j].name)
    && (forall i, j | 0 <= i < j < |cs| && IsAttrib(cs[i]) && IsAttrib(cs[j]) :: Tag(cs[i]) != Tag(cs[j]))
    && (forall i, j | 0 <= i < j < |cs| && !IsAttrib(cs[i]) && !IsAttrib(cs[j]) :: Tag(cs[i]) != Tag(cs[j]))
  }

  /** SiblingsDistinct at every level of the schema tree. */
  predicate WellFormed(node: SchemaNode)
  {
    match node
    case Scalar(_, _, _) => true
    case Mapping(_, _, cs) =>
      SiblingsDistinct(cs) && forall i | 0 <= i < |cs| :: WellFormed(cs[i])
  }
}
