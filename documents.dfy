/**
 * The document-level helpers: the output rewrite `dumps` applies to the printed text,
 * `loads` after the parse, and the root tag accessor. Printing and parsing themselves
 * belong to the XML library and appear here only as the text or element they produce.
 */
module Documents {
  import opened Wrappers
  import opened Schema
  import opened Cstruct
  import opened ElementTree
  import opened Serializer
  import opened Namespaces

  /** " />" starts at position i of s. */
  predicate MatchAt(s: string, i: nat)
  {
    i + 3 <= |s| && s[i] == ' ' && s[i + 1] == '/' && s[i + 2] == '>'
  }

  /** The rewrite `dumps` applies to the printed text, `s.replace(' />', '/>')`:
      scan left to right, replacing each occurrence and resuming after it. */
  function NormalizeSelfClosing(s: string): (r: string)
    ensures |r| <= |s|
  {
    if |s| < 3 then s
    else if MatchAt(s, 0) then "/>" + NormalizeSelfClosing(s[3..])
    else [s[0]] + NormalizeSelfClosing(s[1..])
  }

  /** `s` contains " />" somewhere. */
  predicate HasSpaceSlash(s: string)
  {
    exists i: nat | i < |s| :: MatchAt(s, i)
  }

  /** The number of positions at which " />" starts. */
  function Occurrences(s: string): nat
  {
    if |s| < 3 then 0
    else (if MatchAt(s, 0) then 1 else 0) + Occurrences(s[1..])
  }

  /** The text without its spaces. */
  function WithoutSpaces(s: string): string
  {
    if s == [] then [] else (if s[0] == ' ' then [] else [s[0]]) + WithoutSpaces(s[1..])
  }

  /** `loads` after parsing: a tree over the parsed root with namespaces removed. */
  method Loads(parsed: Element) returns (tree: Tree)
    ensures tree == Tree(Some(Stripped(parsed)))
  {
    var root := RemoveNamespaces(parsed);
    tree := Tree(Some(root));
  }

  /** `get_root_tag`: the tag of the tree's root element. A tree without a root has no
      tag to give (the source raises there), which is `None` here. */
  function RootTag(tree: Tree): (r: Option<string>)
    ensures r.None? <==> tree.root.None?
    ensures r.Some? ==> r.value == tree.root.value.tag
  {
    match tree.root
    case None => None
    case Some(e) => Some(e.tag)
  }

  lemma MatchShiftAt(s: string, i: nat)
    requires s != []
    ensures MatchAt(s[1..], i) <==> MatchAt(s, i + 1)
  {
    if i + 3 <= |s[1..]| {
      assert s[1..][i] == s[i + 1] && s[1..][i + 1] == s[i + 2] && s[1..][i + 2] == s[i + 3];
    }
  }

  lemma MatchShift(s: string)
    requires s != []
    ensures HasSpaceSlash(s) <==> MatchAt(s, 0) || HasSpaceSlash(s[1..])
  {
    if HasSpaceSlash(s) && !MatchAt(s, 0) {
      var i: nat :| i < |s| && MatchAt(s, i);
      MatchShiftAt(s, i - 1);
    }
    if HasSpaceSlash(s[1..]) {
      var i: nat :| i < |s[1..]| && MatchAt(s[1..], i);
      MatchShiftAt(s, i);
    }
  }

  lemma OccurrencesAfterMatch(s: string)
    requires MatchAt(s, 0)
    ensures Occurrences(s) == 1 + Occurrences(s[3..])
  {
    var t := s[1..];
    assert Occurrences(s) == 1 + Occurrences(t);
    if |t| >= 3 {
      assert t[0] == '/';
      var u := t[1..];
      assert Occurrences(t) == Occurrences(u);
      assert u[1..] == s[3..];
      if |u| >= 3 {
        assert u[0] == '>';
        assert Occurrences(u) == Occurrences(s[3..]);
      }
    }
  }

  /** Each replacement shortens the text by exactly one character. */
  lemma {:induction false} NormalizeLength(s: string)
    ensures |NormalizeSelfClosing(s)| == |s| - Occurrences(s)
  {
    if |s| >= 3 {
      if MatchAt(s, 0) {
        OccurrencesAfterMatch(s);
        NormalizeLength(s[3..]);
      } else {
        NormalizeLength(s[1..]);
      }
    }
  }

  lemma {:induction false} OccurrencesPositive(s: string)
    ensures Occurrences(s) > 0 <==> HasSpaceSlash(s)
  {
    if |s| >= 3 {
      OccurrencesPositive(s[1..]);
      MatchShift(s);
    }
  }

  lemma {:induction false} NormalizeWithoutMatch(s: string)
    requires !HasSpaceSlash(s)
    ensures NormalizeSelfClosing(s) == s
  {
    if |s| >= 3 {
      MatchShift(s);
      NormalizeWithoutMatch(s[1..]);
    }
  }

  /** The rewrite changes the text exactly when the text contains " />". */
  lemma NormalizeUnchangedIff(s: string)
    ensures NormalizeSelfClosing(s) == s <==> !HasSpaceSlash(s)
  {
    if HasSpaceSlash(s) {
      OccurrencesPositive(s);
      NormalizeLength(s);
    } else {
      NormalizeWithoutMatch(s);
    }
  }

  /** The rewrite deletes spaces and nothing else. */
  lemma {:induction false} NormalizeDeletesOnlySpaces(s: string)
    ensures WithoutSpaces(NormalizeSelfClosing(s)) == WithoutSpaces(s)
  {
    if |s| >= 3 {
      var r := NormalizeSelfClosing(s);
      if MatchAt(s, 0) {
        NormalizeDeletesOnlySpaces(s[3..]);
        var n := NormalizeSelfClosing(s[3..]);
        assert r == "/>" + n;
        assert r[1..] == ">" + n && r[1..][1..] == n;
        assert WithoutSpaces(r) == "/" + WithoutSpaces(">" + n) == "/>" + WithoutSpaces(n);
        assert s[1..][1..] == s[2..] && s[2..][1..] == s[3..];
        assert WithoutSpaces(s) == WithoutSpaces(s[1..]) == "/" + WithoutSpaces(s[2..]);
        assert WithoutSpaces(s[2..]) == ">" + WithoutSpaces(s[3..]);
      } else {
        NormalizeDeletesOnlySpaces(s[1..]);
        assert r == [s[0]] + NormalizeSelfClosing(s[1..]);
        assert r[1..] == NormalizeSelfClosing(s[1..]);
      }
    }
  }

  /** `str.replace` as split and join: the text before the first " />" is kept, that
      occurrence becomes "/>", and the rewrite resumes right after it. */
  lemma {:induction false} NormalizeSplit(a: string, b: string)
    requires !HasSpaceSlash(a)
    ensures NormalizeSelfClosing(a + " />" + b) == a + "/>" + NormalizeSelfClosing(b)
  {
    var s := a + " />" + b;
    if a == [] {
      assert s == " />" + b;
      assert MatchAt(s, 0);
      assert s[3..] == b;
    } else {
      MatchShift(a);
      assert !MatchAt(s, 0) by {
        if |a| >= 3 {
          assert s[0] == a[0] && s[1] == a[1] && s[2] == a[2];
        } else {
          assert s[|a|] == ' ';
        }
      }
      assert s[1..] == a[1..] + " />" + b;
      NormalizeSplit(a[1..], b);
    }
  }

  /** One pass can leave " />" behind: the rewrite is not idempotent. */
  lemma NormalizeTwiceDiffers()
    ensures NormalizeSelfClosing("  />") == " />"
    ensures NormalizeSelfClosing(NormalizeSelfClosing("  />")) == "/>"
  {
    assert !MatchAt("  />", 0);
    assert "  />"[1..] == " />";
  }

  /** A serialized value's root tag is its schema node's tag; a null value serializes to a
      tree without a root, which has no root tag. */
  lemma SerializedRootTag(node: SchemaNode, v: CValue)
    requires Fits(node, v)
    ensures RootTag(Tree(Serialized(node, v))) == if v.Null? then None else Some(Tag(node))
  {
  }

  /** A loaded tree's root tag is the parsed root tag with its namespace removed. */
  lemma LoadedRootTag(parsed: Element)
    ensures RootTag(Tree(Some(Stripped(parsed)))) == Some(StrippedTag(parsed.tag))
  {
  }
}
