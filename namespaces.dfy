/**
 * Namespace stripping after a parse: every element's tag loses one leading
 * `{uri}` prefix, the Clark notation the XML library uses for namespaced names.
 */
module Namespaces {
  import opened Wrappers
  import opened ElementTree

  /** Position of the first '}' at or after `from`, or |t| when there is none. */
  function CloseBrace(t: string, from: nat): (j: nat)
    requires from <= |t|
    decreases |t| - from
    ensures from <= j <= |t|
    ensures j < |t| ==> t[j] == '}'
    ensures forall m | from <= m < j :: t[m] != '}'
  {
    if from == |t| then |t|
    else if t[from] == '}' then from
    else CloseBrace(t, from + 1)
  }

  /** The pattern `^\{[^\}]+\}` matches exactly the first j + 1 characters of t:
      an opening brace, at least one character other than '}', then '}'. */
  predicate NamespacePrefix(t: string, j: int)
  {
    2 <= j < |t| && t[0] == '{' && t[j] == '}' && forall m | 1 <= m < j :: t[m] != '}'
  }

  /** One tag with its namespace prefix deleted; a tag the pattern does not match is kept. */
  function StrippedTag(t: string): (r: string)
    ensures forall j | NamespacePrefix(t, j) :: r == t[j + 1..]
    ensures (forall j :: !NamespacePrefix(t, j)) ==> r == t
  {
    if |t| > 0 && t[0] == '{' then
      var j := CloseBrace(t, 1);
      if 2 <= j < |t| then
        assert NamespacePrefix(t, j);
        t[j + 1..]
      else t
    else t
  }

  /** The element with every tag in its subtree stripped; nothing else changes. */
  function Stripped(e: Element): Element
    decreases e
  {
    Element(StrippedTag(e.tag), e.attrib,
            seq(|e.children|, i requires 0 <= i < |e.children| => Stripped(e.children[i])),
            e.text)
  }

  /** `remove_namespaces`: visit every element of the subtree and rewrite its tag. */
  method RemoveNamespaces(e: Element) returns (r: Element)
    decreases e
    ensures r == Stripped(e)
  {
    var children: seq<Element> := [];
    for i := 0 to |e.children|
      invariant |children| == i
      invariant forall j | 0 <= j < i :: children[j] == Stripped(e.children[j])
    {
      var child := RemoveNamespaces(e.children[i]);
      children := children + [child];
    }
    r := Element(StrippedTag(e.tag), e.attrib, children, e.text);
  }

  /** The tags of a subtree in document order, the order `getiterator` visits them. */
  function Tags(e: Element): seq<string>
    decreases e, 1
  {
    [e.tag] + TagsOf(e.children)
  }

  function TagsOf(cs: seq<Element>): seq<string>
    decreases cs, 0
  {
    if cs == [] then [] else Tags(cs[0]) + TagsOf(cs[1..])
  }

  /** The element with every tag blanked: what namespace stripping must leave alone. */
  function Untagged(e: Element): Element
    decreases e
  {
    Element("", e.attrib,
            seq(|e.children|, i requires 0 <= i < |e.children| => Untagged(e.children[i])),
            e.text)
  }

  function StrippedTags(ts: seq<string>): (rs: seq<string>)
  {
    seq(|ts|, i requires 0 <= i < |ts| => StrippedTag(ts[i]))
  }

  lemma StrippedTagsAppend(a: seq<string>, b: seq<string>)
    ensures StrippedTags(a + b) == StrippedTags(a) + StrippedTags(b)
  {
  }

  /** Every element's tag is rewritten, in document order, and no tag is added or lost. */
  lemma {:induction false} StrippedEveryTag(e: Element)
    decreases e, 1
    ensures Tags(Stripped(e)) == StrippedTags(Tags(e))
  {
    var cs := e.children;
    StrippedEveryTagOf(cs);
    assert Stripped(e).children == seq(|cs|, i requires 0 <= i < |cs| => Stripped(cs[i]));
    StrippedTagsAppend([e.tag], TagsOf(cs));
  }

  lemma {:induction false} StrippedEveryTagOf(cs: seq<Element>)
    decreases cs, 0
    ensures TagsOf(seq(|cs|, i requires 0 <= i < |cs| => Stripped(cs[i]))) == StrippedTags(TagsOf(cs))
  {
    if cs != [] {
      var ss := seq(|cs|, i requires 0 <= i < |cs| => Stripped(cs[i]));
      assert ss[1..] == seq(|cs[1..]|, i requires 0 <= i < |cs[1..]| => Stripped(cs[1..][i]));
      StrippedEveryTag(cs[0]);
      StrippedEveryTagOf(cs[1..]);
      StrippedTagsAppend(Tags(cs[0]), TagsOf(cs[1..]));
    }
  }

  /** Only tags change: attributes, text and the shape of the tree are kept. */
  lemma {:induction false} StrippedKeepsShape(e: Element)
    decreases e
    ensures Untagged(Stripped(e)) == Untagged(e)
  {
    var cs := e.children;
    forall i | 0 <= i < |cs|
      ensures Untagged(Stripped(cs[i])) == Untagged(cs[i])
    {
      StrippedKeepsShape(cs[i]);
    }
    assert Untagged(Stripped(e)).children == Untagged(e).children;
  }

  /** Stripping is not idempotent: a second pass removes a second braced prefix. */
  lemma StripTwiceDiffers()
    ensures StrippedTag("{a}{b}c") == "{b}c"
    ensures StrippedTag(StrippedTag("{a}{b}c")) == "c"
  {
    assert NamespacePrefix("{a}{b}c", 2);
    assert NamespacePrefix("{b}c", 2);
  }

  /** Tags the pattern does not match are kept: an empty braced prefix, a brace not at the
      start; a Clark-notation tag loses its namespace. */
  lemma StripExamples()
    ensures StrippedTag("{}x") == "{}x"
    ensures StrippedTag("a{b}c") == "a{b}c"
    ensures StrippedTag("{urn:x}root") == "root"
  {
    assert forall j :: !NamespacePrefix("{}x", j);
    assert NamespacePrefix("{urn:x}root", 6);
  }
}
