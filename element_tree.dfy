/**
 * The element tree the XML library builds: a tag, a string-to-string attribute
 * map, ordered children and optional text. A tree wraps an optional root.
 */
module ElementTree {
  import opened Wrappers

  datatype Element = Element(tag: string, attrib: map<string, string>, children: seq<Element>, text: Option<string>)

  datatype Tree = Tree(root: Option<Element>)

  /** `element.find(tag)` for a plain tag name: the first direct child carrying that tag. */
  function FindFirst(cs: seq<Element>, tag: string): (r: Option<Element>)
    ensures r.None? <==> forall i | 0 <= i < |cs| :: cs[i].tag != tag
    ensures r.Some? ==> exists i | 0 <= i < |cs| :: cs[i] == r.value && cs[i].tag == tag &&
                          forall j | 0 <= j < i :: cs[j].tag != tag
  {
    if cs == [] then None
    else if cs[0].tag == tag then Some(cs[0])
    else
      var r := FindFirst(cs[1..], tag);
      assert r.Some? ==> exists i | 0 <= i < |cs| :: cs[i] == r.value && cs[i].tag == tag &&
                          forall j | 0 <= j < i :: cs[j].tag != tag by {
        if r.Some? {
          var k :| 0 <= k < |cs[1..]| && cs[1..][k] == r.value && cs[1..][k].tag == tag &&
                   forall j | 0 <= j < k :: cs[1..][j].tag != tag;
          assert cs[k + 1] == r.value;
        }
      }
      r
  }
}
