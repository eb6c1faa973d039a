# bbe.cielo message mapping, modelled in Dafny

This project models `bbe/cielo/message.py`, the schema-driven mapping between a
cstruct and an XML element tree:

- A cstruct is a nested value: the `null` sentinel, a string, or a map from field
  name to cstruct.
- A schema node is a `Scalar` or a `Mapping` with ordered children. It carries a
  name, an optional tag override and, for scalars, an attribute flag.
- An element has a tag, a string-to-string attribute map, ordered children and
  optional text.

The modules follow the parts of the file:

- `Schema` (schema.dfy): schema nodes. `Tag` is the override or else the name.
  `IsAttrib` holds only for scalars marked as attributes.
- `Cstruct` (cstruct.dfy): the null sentinel, `Lookup` (`dict.get(name, null)`),
  the shape a value must have for a schema (`Fits`), completeness and restriction
  to the schema's names.
- `ElementTree` (element_tree.dfy): elements, trees and `element.find` for a plain tag.
- `Serializer` (serializer.dfy): `serialize`, `_serialize` and `_serialize_mapping`.
  The spec functions are `Serialized`, `MappingElement` and `WithChild`. The methods
  `SerializeNode` and `SerializeMapping` build the element step by step in the same
  loop as the source, and are proved equal to those functions.
- `Deserializer` (deserializer.dfy): `deserialize`, `_deserialize` and
  `_deserialize_mapping`, in the same two layers.
- `RoundTrip` (round_trip.dfy): deserializing a serialized value gives it back,
  restricted to the schema's names.
- `Namespaces` (namespaces.dfy): `remove_namespaces` and its prefix regular expression.
- `Documents` (documents.dfy): the `' />'` to `'/>'` rewrite in `dumps`, `loads`
  after the parse, and `get_root_tag`.
- `Scenarios` (scenarios.dfy): small worked instances.

Namespace stripping is sometimes described as idempotent. The pattern
`^\{[^\}]+\}` in message.py:102 is not: `{a}{b}c` becomes `{b}c`, and a second pass
gives `c`. The model follows the code (`Namespaces.StripTwiceDiffers`).

## Model

| member | source | states |
|---|---|---|
| `Serializer.EmptyElement` | bbe/cielo/message.py:11-12 | A freshly built element carries the node's tag (its override, else its name) and has no attributes, children or text. |
| `Serializer.Serialized` | bbe/cielo/message.py:20-29 | No element exists exactly when the value is null. Any element carries the node's tag. A scalar's element has no attributes or children, and its text is the value unchanged. |
| `Serializer.MappingElement` | bbe/cielo/message.py:32-50 | After any number of children are placed, a mapping element keeps the mapping's tag and has no text. |
| `Serializer.WithChild` | bbe/cielo/message.py:36-48 | Placing one child never changes the parent's tag or text. |
| `Serializer.Serialize` | bbe/cielo/message.py:15-17 | The tree's root is the serialized element, and absent for a null value. |
| `Serializer.SerializeNode` | bbe/cielo/message.py:20-29 | The dispatch returns exactly the specified element, or none for null. |
| `Serializer.SerializeMapping` | bbe/cielo/message.py:32-50 | The loop over the declared children builds exactly the specified mapping element. |
| `Serializer.MappingChildren` | bbe/cielo/message.py:43-48 | The sub-elements are exactly the serialized non-null element-kind children, in declared order. Attribute-kind and null children add no sub-element. |
| `Serializer.MappingAttributes` | bbe/cielo/message.py:43-44 | The attribute keys are exactly the tags of the non-null attribute-kind children. Each key holds the value of the last such child with that tag. |
| `Serializer.NullIsMissing` | bbe/cielo/message.py:37-41 | A child set to null and a child whose name is missing produce the same element. |
| `ElementTree.FindFirst` | bbe/cielo/message.py:75 | The lookup finds nothing exactly when no child has the tag. Otherwise it returns a child with that tag that has no earlier child with the same tag. |
| `Deserializer.Deserialized` | bbe/cielo/message.py:58-65 | A mapping yields a map whose keys are exactly the declared names. A scalar yields null exactly when the element has no text, and otherwise the text verbatim. |
| `Deserializer.MappingValue` | bbe/cielo/message.py:68-81 | After k children are stored, the keys are exactly the names of those k children, null values included. |
| `Deserializer.FieldValue` | bbe/cielo/message.py:71-79 | An attribute-kind child reads null exactly when its tag is not an attribute, and otherwise the attribute string. An element-kind child with no matching child element reads null. |
| `Deserializer.FieldValueFirstMatch` | bbe/cielo/message.py:75-79 | With duplicate tags, the first matching child element is the one deserialized. |
| `Deserializer.MappingValueAt` | bbe/cielo/message.py:69-81 | The value stored under a name is the one read for the last declared child with that name. |
| `Deserializer.IgnoresUndeclaredAttribute` | bbe/cielo/message.py:72-73 | Adding an attribute whose tag no attribute-kind child declares leaves the result unchanged. |
| `Deserializer.IgnoresUndeclaredElement` | bbe/cielo/message.py:74-79 | Inserting, at any position, a child element whose tag no element-kind child declares leaves the result unchanged. |
| `Deserializer.Deserialize` | bbe/cielo/message.py:53-81 | A tree with a root gives exactly the value specified for its root element. A tree without a root fails (`None`), except under a mapping with no children, which gives an empty map because its loop never touches the element. |
| `Deserializer.DeserializeNode` | bbe/cielo/message.py:58-65 | The dispatch returns exactly the specified value. |
| `Deserializer.DeserializeMapping` | bbe/cielo/message.py:68-81 | The loop that fills the result map returns exactly the specified map. |
| `RoundTrip.RoundTrip` | bbe/cielo/message.py:15-81 | Assume sibling names are distinct, attribute tags are distinct, element tags are distinct, and every declared field at every level is non-null. Then serializing gives an element, and deserializing it gives the value restricted to the schema's names. |
| `Namespaces.StrippedTag` | bbe/cielo/message.py:102 | When the tag starts with `{`, then one or more characters other than `}`, then `}`, the result is the rest after that `}`. Every other tag is unchanged. |
| `Namespaces.RemoveNamespaces` | bbe/cielo/message.py:99-102 | The walk over every element of the subtree returns exactly the stripped tree. |
| `Namespaces.StrippedEveryTag` | bbe/cielo/message.py:101-102 | The tags in document order after stripping are the original tags, each stripped, in the same order. |
| `Namespaces.StrippedKeepsShape` | bbe/cielo/message.py:101-102 | Stripping changes only tags. Attributes, text and tree shape are kept. |
| `Namespaces.StripTwiceDiffers` | bbe/cielo/message.py:102 | `{a}{b}c` strips to `{b}c`, and a second pass gives `c`, so stripping is not idempotent. |
| `Namespaces.StripExamples` | bbe/cielo/message.py:102 | `{}x` and `a{b}c` are unchanged, and `{urn:x}root` becomes `root`. |
| `Documents.NormalizeSelfClosing` | bbe/cielo/message.py:89 | The rewrite never lengthens the text. |
| `Documents.NormalizeLength` | bbe/cielo/message.py:89 | The text shrinks by exactly one character per occurrence of `' />'`. |
| `Documents.NormalizeUnchangedIff` | bbe/cielo/message.py:89 | The text is unchanged exactly when it contains no `' />'`. |
| `Documents.NormalizeDeletesOnlySpaces` | bbe/cielo/message.py:89 | With spaces removed, the output equals the input, so only spaces are deleted. |
| `Documents.NormalizeSplit` | bbe/cielo/message.py:89 | For a text whose prefix has no `' />'`, the prefix is kept, the first occurrence becomes `'/>'`, and the rewrite continues on the rest. This fixes which space is deleted. |
| `Documents.NormalizeTwiceDiffers` | bbe/cielo/message.py:89 | `'  />'` becomes `' />'`, which a second pass changes again. |
| `Documents.Loads` | bbe/cielo/message.py:92-96 | The loaded tree's root is the parsed root with every tag stripped. |
| `Documents.RootTag` | bbe/cielo/message.py:105-106 | A tree has a root tag exactly when it has a root, and the tag is the root element's tag. A rootless tree gives `None`. |
| `Documents.SerializedRootTag` | bbe/cielo/message.py:105-106 | A serialized non-null value's root tag is the schema node's tag. A null value gives a rootless tree with no root tag. |
| `Documents.LoadedRootTag` | bbe/cielo/message.py:105-106 | A loaded tree has a root tag, and it is the parsed root tag, stripped. |
| `Scenarios.ScalarExample` | bbe/cielo/message.py:20-29 | Scalar `x` with `"5"` becomes `<x>5</x>`, which reads back as `"5"`. |
| `Scenarios.MappingExample` | bbe/cielo/message.py:32-50 | `item` with attribute `id` = `"7"` and element `label` = `"foo"` becomes `<item id="7"><label>foo</label></item>`. |
| `Scenarios.EmptyMappingExample` | bbe/cielo/message.py:32-81 | An `item` with every name missing, or with every name null, becomes an empty element. An empty element reads back with every name null. |

## Left out

- Printing and parsing (`etree.tostring`, `etree.fromstring`, `ElementTree`
  construction, `getiterator`) belong to the XML library. `Documents.NormalizeSelfClosing`
  takes the printed text as input and `Documents.Loads` takes the parsed root.
  Parse errors, encodings (the `encoding` argument of `dumps`) and whitespace are not modelled.
- A real print-and-parse round trip is not covered: `RoundTrip.RoundTrip` goes from
  element to element. After a real parse, empty text comes back as no text, so `""` would read back as null.
- The regular-expression engine is not modelled. Only the one pattern in
  message.py:102 is written out by hand (`Namespaces.StrippedTag`).
- `bbe/cielo/schema.py` (`gettag`, `isattrib`) and colander are not part of this model.
  A tag override and an attribute flag are fields of the schema node.
- Serializer.Serialized: requires the value to fit the schema (`Cstruct.Fits`): a string for a
  scalar and a map for a mapping. The source does not check this and fails or misbehaves on
  such input (a map given where a scalar is expected, or a non-string attribute value).
- Deserializer.Deserialize: where the source raises on a rootless tree (`None` has no `attrib`, `find` or `text`), the model returns `None`. The exception itself is not modelled.
- Documents.RootTag: returns `None` for a rootless tree, where `tree.getroot().tag` raises `AttributeError`. The exception itself is not modelled.
- RoundTrip.RoundTrip: also requires distinct sibling names. With a repeated name,
  "restricted to the schema" is ambiguous; the deserializer keeps the last child's value
  (`Deserializer.MappingValueAt`).
- `element.find` is modelled for plain tag names. Path syntax in a tag (`/`, `*`, `.`) is not modelled.
- Elements are values. The source changes them in place: it sets attributes, appends
  children and reassigns tags. `Serializer.SerializeMapping` and `Namespaces.RemoveNamespaces`
  instead reassign element values in their loops. Sharing between element objects
  (aliasing) is not captured.
- Scalar values are strings. The source would store a number or other non-string value
  as given, and the model does not cover that.
