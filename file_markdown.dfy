/**
 * `flatten_element_into_markdown` of `src/parse_file.rs`: the copy of the
 * Markdown flattener the page parser uses. It picks the same style from the
 * same tag table and wraps each child in the same way (its `write_in_md` is
 * `Markdown.WriteInMd`), but an element that writes no child writes nothing:
 * the `alt` fallback of `src/markdown.rs` is missing.
 */
module FileMarkdown {
  import opened Strings
  import opened Dom
  import opened Markdown

  /** The text `flatten_element_into_markdown` appends for a node. */
  function FileFlatten(n: Node): string
    requires !n.Other?
    decreases n, 1
  {
    match n
    case Text(t) => t
    case Element(name, attrs, children) => FileBody(StyleOf(name, attrs), n, |children|)
  }

  /** What the loop has appended after the first `k` children. */
  function FileBody(style: Style, n: Node, k: nat): string
    requires n.Element? && k <= |n.children|
    decreases n, 0, k
  {
    if k == 0 then "" else FileBody(style, n, k - 1) + FilePiece(style, n.children[k - 1])
  }

  /** One child's contribution: wrapped text, a wrapped nested flattening, or nothing. */
  function FilePiece(style: Style, child: Node): string
    decreases child, 2
  {
    match child
    case Text(t) => Wrap(style, t)
    case Element(_, _, _) => Wrap(style, FileFlatten(child))
    case Other => ""
  }

  /** `flatten_element_into_markdown`: appends the flattening of `n` to `output`. */
  method FlattenElementIntoMarkdown(n: Node, output: string) returns (out: string)
    requires !n.Other?
    ensures out == output + FileFlatten(n)
    decreases n, 1
  {
    if n.Text? {
      out := output + n.text;
      return;
    }
    var md := StyleOf(n.name, n.attrs);
    out := output;
    var i := 0;
    while i < |n.children|
      invariant 0 <= i <= |n.children|
      invariant out == output + FileBody(md, n, i)
    {
      out := FlattenChild(md, n.children[i], out);
      i := i + 1;
    }
  }

  /** The loop body: appends what one child contributes. */
  method FlattenChild(md: Style, child: Node, out: string) returns (out': string)
    ensures out' == out + FilePiece(md, child)
    decreases child, 2
  {
    match child {
      case Text(txt) =>
        out' := WriteInMd(md, txt, out);
      case Element(_, _, _) =>
        var buff := FlattenElementIntoMarkdown(child, "");
        assert buff == FileFlatten(child);
        out' := WriteInMd(md, buff, out);
      case Other =>
        out' := out;
    }
  }

  /** No element of the tree relies on the fallback: every element either
      writes a child or has an empty fallback. */
  predicate NoFallback(n: Node)
  {
    match n
    case Element(name, attrs, children) =>
      (AnyWritten(children) || Fallback(StyleOf(name, attrs), attrs) == "")
      && forall i :: 0 <= i < |children| ==> NoFallback(children[i])
    case _ => true
  }

  /** The two flatteners agree on every tree in which the fallback never fires. */
  lemma {:induction false} FlattenersAgree(n: Node)
    requires !n.Other? && NoFallback(n)
    ensures FileFlatten(n) == Flatten(n)
    decreases n, 1
  {
    if n.Element? {
      var style := StyleOf(n.name, n.attrs);
      BodiesAgree(style, n, |n.children|);
      if !AnyWritten(n.children) {
        SilentBody(style, n, |n.children|);
      }
    }
  }

  lemma {:induction false} BodiesAgree(style: Style, n: Node, k: nat)
    requires n.Element? && k <= |n.children|
    requires forall i :: 0 <= i < |n.children| ==> NoFallback(n.children[i])
    ensures FileBody(style, n, k) == Body(style, n, k)
    decreases n, 0, k
  {
    if k > 0 {
      BodiesAgree(style, n, k - 1);
      PiecesAgree(style, n.children[k - 1]);
      BodiesStep(style, n, k);
    }
  }

  lemma BodiesStep(style: Style, n: Node, k: nat)
    requires n.Element? && 0 < k <= |n.children|
    requires FileBody(style, n, k - 1) == Body(style, n, k - 1)
    requires FilePiece(style, n.children[k - 1]) == Piece(style, n.children[k - 1])
    ensures FileBody(style, n, k) == Body(style, n, k)
  {
  }

  lemma {:induction false} PiecesAgree(style: Style, c: Node)
    requires NoFallback(c)
    ensures FilePiece(style, c) == Piece(style, c)
    decreases c, 2
  {
    if c.Element? {
      FlattenersAgree(c);
    }
  }

  /** An element with no text or element child flattens to nothing here,
      whatever its tag and attributes. */
  lemma SilentElementWritesNothing(name: string, attrs: map<string, string>, children: seq<Node>)
    requires !AnyWritten(children)
    ensures FileFlatten(Element(name, attrs, children)) == ""
  {
    SilentFileBody(StyleOf(name, attrs), Element(name, attrs, children), |children|);
  }

  lemma {:induction false} SilentFileBody(style: Style, n: Node, k: nat)
    requires n.Element? && k <= |n.children| && !AnyWritten(n.children)
    ensures FileBody(style, n, k) == ""
  {
    if k > 0 {
      assert n.children[k - 1].Other?;
      SilentFileBody(style, n, k - 1);
    }
  }

  /** Where the copies differ: an empty link with an `alt` attribute. */
  lemma FlattenersDiffer()
    ensures var a := Element("a", map["href" := "d", "alt" := "x"], []);
            Flatten(a) == "[x](d)" && FileFlatten(a) == ""
  {
    var a := Element("a", map["href" := "d", "alt" := "x"], []);
    assert StyleOf("a", a.attrs) == Hyperlink("d");
  }
}
