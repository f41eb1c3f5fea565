/**
 * The parsed form of one paragraph block, as the extractor sees it through
 * org.w3c.dom: elements with their children and runs of character data.
 * Tag-name queries, text content and the ancestor walk of isInsideDef are
 * written over this tree.
 */
module Dom {

  /** A node of a parsed block: an element with its children, or character data. */
  datatype Node = Element(name: string, children: seq<Node>) | TextNode(text: string)

  /** Node.getTextContent: the character data below `n`, in document order. */
  function TextContent(n: Node): string
    decreases n
  {
    match n
    case TextNode(t) => t
    case Element(_, cs) => TextContentAll(cs)
  }

  function TextContentAll(cs: seq<Node>): string
    decreases cs
  {
    if cs == [] then [] else TextContent(cs[0]) + TextContentAll(cs[1..])
  }

  /** An element reached by a tag-name query, with the names of its ancestors, outermost first. */
  datatype Hit = Hit(node: Node, ancestors: seq<string>)

  /** `n` and every element below it, in document order, each with its ancestor names. */
  function Elements(n: Node, path: seq<string>): (r: seq<Hit>)
    ensures forall h {:trigger h in r} :: h in r ==> h.node.Element?
    decreases n
  {
    match n
    case TextNode(_) => []
    case Element(name, cs) => [Hit(n, path)] + ElementsAll(cs, path + [name])
  }

  function ElementsAll(cs: seq<Node>, path: seq<string>): (r: seq<Hit>)
    ensures forall h {:trigger h in r} :: h in r ==> h.node.Element?
    decreases cs
  {
    if cs == [] then [] else Elements(cs[0], path) + ElementsAll(cs[1..], path)
  }

  /** The hits whose element is named `tag` (exactly, case-sensitive), in order. */
  function Named(hits: seq<Hit>, tag: string): (r: seq<Hit>)
    ensures |r| <= |hits|
    ensures forall h {:trigger h in r} :: h in r ==> h in hits && h.node.Element? && h.node.name == tag
    ensures forall h {:trigger h in hits} :: h in hits && h.node.Element? && h.node.name == tag ==> h in r
  {
    if hits == [] then []
    else
      var rest := Named(hits[..|hits| - 1], tag);
      var h := hits[|hits| - 1];
      assert forall x {:trigger x in hits} :: x in hits ==> x == h || x in hits[..|hits| - 1] by {
        assert hits == hits[..|hits| - 1] + [h];
      }
      if h.node.Element? && h.node.name == tag then rest + [h] else rest
  }

  /** Document.getElementsByTagName: every element of the document named `tag`, the root included. */
  function ByTag(root: Node, tag: string): seq<Hit>
  {
    Named(Elements(root, []), tag)
  }

  /** Element.getElementsByTagName: the elements strictly below `h` named `tag`. */
  function DescendantsByTag(h: Hit, tag: string): seq<Hit>
  {
    match h.node
    case TextNode(_) => []
    case Element(name, cs) => Named(ElementsAll(cs, h.ancestors + [name]), tag)
  }

  /** The text of the first element named `tag`, when there is one. */
  predicate HasTag(root: Node, tag: string)
  {
    |ByTag(root, tag)| > 0
  }

  function FirstText(root: Node, tag: string): string
    requires HasTag(root, tag)
  {
    TextContent(ByTag(root, tag)[0].node)
  }

  /** ASCII letters folded to lower case; other characters are left alone. */
  function LowerAscii(c: char): char
  {
    if 'A' <= c <= 'Z' then (c as int + 32) as char else c
  }

  /** String.equalsIgnoreCase, for the ASCII letters. */
  predicate EqualsIgnoreCase(a: string, b: string)
  {
    |a| == |b| && forall i :: 0 <= i < |a| ==> LowerAscii(a[i]) == LowerAscii(b[i])
  }

  /** Some ancestor is named `def`, in any letter case. */
  predicate InsideDef(ancestors: seq<string>)
  {
    exists k :: 0 <= k < |ancestors| && EqualsIgnoreCase(ancestors[k], "def")
  }

  /**
   * isInsideDef: walk from the nearest ancestor outwards and answer true at
   * the first one named `def` in any letter case.
   */
  method IsInsideDef(ancestors: seq<string>) returns (inside: bool)
    ensures inside <==> InsideDef(ancestors)
  {
    var i := |ancestors|;
    while i > 0
      invariant 0 <= i <= |ancestors|
      invariant forall k :: i <= k < |ancestors| ==> !EqualsIgnoreCase(ancestors[k], "def")
    {
      i := i - 1;
      if EqualsIgnoreCase(ancestors[i], "def") {
        return true;
      }
    }
    return false;
  }

  /** A name matches `def` exactly when it has three letters, each `d`, `e`, `f` in either case. */
  lemma DefNameCases(a: string)
    ensures EqualsIgnoreCase(a, "def") <==>
      |a| == 3 && (a[0] == 'd' || a[0] == 'D') && (a[1] == 'e' || a[1] == 'E') && (a[2] == 'f' || a[2] == 'F')
  {
    if |a| == 3 {
      LowerAsciiIs(a[0], 'd');
      LowerAsciiIs(a[1], 'e');
      LowerAsciiIs(a[2], 'f');
      if (a[0] == 'd' || a[0] == 'D') && (a[1] == 'e' || a[1] == 'E') && (a[2] == 'f' || a[2] == 'F') {
        forall i | 0 <= i < 3
          ensures LowerAscii(a[i]) == LowerAscii("def"[i])
        {
        }
      }
    }
  }

  /** A character folds to a lower-case letter exactly when it is that letter in either case. */
  lemma LowerAsciiIs(c: char, lower: char)
    requires 'a' <= lower <= 'z'
    ensures LowerAscii(c) == lower <==> c == lower || c as int == lower as int - 32
  {
  }

  /** Every element the document query returns is named as asked and lies in the tree. */
  lemma ByTagSound(root: Node, tag: string)
    ensures forall h {:trigger h in ByTag(root, tag)} :: h in ByTag(root, tag) ==> h.node.Element? && h.node.name == tag && h in Elements(root, [])
  {
  }

  /** The root element itself answers a query for its own name, first. */
  lemma ByTagRoot(name: string, cs: seq<Node>)
    ensures |ByTag(Element(name, cs), name)| > 0
    ensures ByTag(Element(name, cs), name)[0] == Hit(Element(name, cs), [])
  {
    var root := Element(name, cs);
    var all := Elements(root, []);
    assert [] + [name] == [name];
    assert all == [Hit(root, [])] + ElementsAll(cs, [name]);
    NamedHead(Hit(root, []), ElementsAll(cs, [name]), name);
  }

  /** A matching first hit stays first after filtering. */
  lemma {:induction false} NamedHead(h: Hit, rest: seq<Hit>, tag: string)
    requires h.node.Element? && h.node.name == tag
    ensures |Named([h] + rest, tag)| > 0 && Named([h] + rest, tag)[0] == h
    decreases |rest|
  {
    if rest == [] {
      assert [h] + rest == [h];
      assert [h][..0] == [];
    } else {
      var all := [h] + rest;
      assert all[..|all| - 1] == [h] + rest[..|rest| - 1];
      NamedHead(h, rest[..|rest| - 1], tag);
    }
  }
}
