/**
 * The inline HTML to Markdown flattener of `src/markdown.rs`.
 *
 * An element picks one style from its tag name and attributes; each of its
 * text and element children is flattened into a buffer of its own and that
 * buffer is wrapped separately in the style's markers. Nothing merges the
 * output of neighbouring children. When an element writes no child at all, a
 * hyperlink carrying an `alt` attribute still writes `[alt](dest)`.
 *
 * `Flatten` is the meaning of the walk; `ToMd` is the appending procedure
 * proved to implement it.
 */
module Markdown {
  import opened Strings
  import opened Dom

  /** The `Markdown` enum: how one element styles each of its children. */
  datatype Style =
    | Hyperlink(dest: string)
    | Tooltip(payload: string)
    | Plain
    | Bold
    | Italic
    | CodeSnippet
    | CodeFull

  /** The tag table of `to_md`. `td`, `br`, `span` and every tag the table does
      not know (which the source logs) are `Plain`. */
  function StyleOf(name: string, attrs: map<string, string>): Style
  {
    if name == "i" || name == "em" then Italic
    else if name == "b" || name == "strong" || name == "h4" then Bold
    else if name == "a" then
      if "href" in attrs then Hyperlink(attrs["href"])
      else if "class" in attrs && attrs["class"] == "tooltip" then Tooltip(attrs["class"])
      else Plain
    else if name == "img" then
      if "src" in attrs then Hyperlink(attrs["src"]) else Plain
    else if name == "p" then
      if "class" in attrs && attrs["class"] == "code" then CodeFull else Plain
    else if name == "tt" then CodeSnippet
    else Plain
  }

  /** The tags the table names; any other tag is logged as unknown. */
  predicate KnownTag(name: string)
  {
    name in {"i", "em", "b", "strong", "h4", "a", "img", "p", "tt", "td", "br", "span"}
  }

  /** The style table read the other way round: which elements give which style. */
  lemma StyleTable(name: string, attrs: map<string, string>)
    ensures StyleOf(name, attrs) == Italic <==> name == "i" || name == "em"
    ensures StyleOf(name, attrs) == Bold <==> name in {"b", "strong", "h4"}
    ensures StyleOf(name, attrs) == CodeSnippet <==> name == "tt"
    ensures StyleOf(name, attrs) == CodeFull <==> name == "p" && "class" in attrs && attrs["class"] == "code"
    ensures StyleOf(name, attrs).Hyperlink? <==>
              (name == "a" && "href" in attrs) || (name == "img" && "src" in attrs)
    ensures StyleOf(name, attrs).Hyperlink? ==>
              StyleOf(name, attrs).dest == attrs[if name == "a" then "href" else "src"]
    ensures StyleOf(name, attrs).Tooltip? <==>
              name == "a" && "href" !in attrs && "class" in attrs && attrs["class"] == "tooltip"
    ensures StyleOf(name, attrs).Tooltip? ==> StyleOf(name, attrs).payload == "tooltip"
    ensures !KnownTag(name) ==> StyleOf(name, attrs) == Plain
    ensures name in {"td", "br", "span"} ==> StyleOf(name, attrs) == Plain
  {
  }

  /** The text `write_in_md` pushes for `txt` under `style`. */
  function Wrap(style: Style, txt: string): string
  {
    match style
    case Hyperlink(dest) => "[" + txt + "](" + dest + ")"
    case Tooltip(dest) => txt + " (" + dest + ")"
    case Plain => txt
    case Bold => "**" + txt + "**"
    case Italic => "*" + txt + "*"
    case CodeSnippet => "`" + txt + "`"
    case CodeFull => "```\n" + Trim(txt) + "\n```"
  }

  /** Strips the markers `Wrap` puts around a text: the partner of `Wrap`. */
  function Unwrap(style: Style, md: string): string
  {
    match style
    case Hyperlink(dest) => if |md| >= |dest| + 4 then md[1..|md| - |dest| - 3] else md
    case Tooltip(dest) => if |md| >= |dest| + 3 then md[..|md| - |dest| - 3] else md
    case Plain => md
    case Bold => if |md| >= 4 then md[2..|md| - 2] else md
    case Italic => if |md| >= 2 then md[1..|md| - 1] else md
    case CodeSnippet => if |md| >= 2 then md[1..|md| - 1] else md
    case CodeFull => if |md| >= 8 then md[4..|md| - 4] else md
  }

  /** Wrapping loses no text: the markers can be stripped again, giving the
      text back (trimmed, for a code block). */
  lemma WrapRoundTrip(style: Style, txt: string)
    ensures Unwrap(style, Wrap(style, txt)) == if style == CodeFull then Trim(txt) else txt
  {
    if style.Hyperlink? || style.Tooltip? {
      LinkRoundTrip(style, txt);
    } else if style == CodeFull {
      Between("```\n", Trim(txt), "\n```");
    } else {
      MarkerRoundTrip(style, txt);
    }
  }

  lemma LinkRoundTrip(style: Style, txt: string)
    requires style.Hyperlink? || style.Tooltip?
    ensures Unwrap(style, Wrap(style, txt)) == txt
  {
    match style
    case Hyperlink(dest) => Between("[", txt, "](" + dest + ")");
    case Tooltip(dest) => Between("", txt, " (" + dest + ")");
  }

  lemma MarkerRoundTrip(style: Style, txt: string)
    requires style in {Plain, Bold, Italic, CodeSnippet}
    ensures Unwrap(style, Wrap(style, txt)) == txt
  {
    match style
    case Plain =>
    case Bold => Between("**", txt, "**");
    case Italic => Between("*", txt, "*");
    case CodeSnippet => Between("`", txt, "`");
  }

  /** The text between two markers is found again by their lengths. */
  lemma Between(pre: string, txt: string, post: string)
    ensures var w := pre + txt + post; w[|pre|..|w| - |post|] == txt
  {
    var w := pre + txt + post;
    assert w[|pre|..|w| - |post|] == txt;
  }

  /** What `emergency_write_in_md` pushes: `[alt](dest)` for a hyperlink with
      an `alt` attribute, nothing otherwise. */
  function Fallback(style: Style, attrs: map<string, string>): string
  {
    if style.Hyperlink? && "alt" in attrs then "[" + attrs["alt"] + "](" + style.dest + ")" else ""
  }

  /** Some child is a text or an element node, so the loop of `to_md` sets `wrote`. */
  predicate AnyWritten(children: seq<Node>)
  {
    exists i :: 0 <= i < |children| && !children[i].Other?
  }

  /** The text `to_md` appends for a node. A text node gives its text; an
      element gives the wrapped output of its children, or the fallback when
      it has no text or element child. (An `Other` node at the top panics in
      the source, hence the precondition.) */
  function Flatten(n: Node): string
    requires !n.Other?
    decreases n, 1
  {
    match n
    case Text(t) => t
    case Element(name, attrs, children) =>
      var style := StyleOf(name, attrs);
      if AnyWritten(children) then Body(style, n, |children|) else Fallback(style, attrs)
  }

  /** What the loop of `to_md` has appended after the first `k` children. */
  function Body(style: Style, n: Node, k: nat): string
    requires n.Element? && k <= |n.children|
    decreases n, 0, k
  {
    if k == 0 then "" else Body(style, n, k - 1) + Piece(style, n.children[k - 1])
  }

  /** What one child contributes: a text child wrapped as is, an element child
      flattened into a fresh buffer and then wrapped, anything else nothing. */
  function Piece(style: Style, child: Node): string
    decreases child, 2
  {
    match child
    case Text(t) => Wrap(style, t)
    case Element(_, _, _) => Wrap(style, Flatten(child))
    case Other => ""
  }

  /** `write_in_md`: appends the styled text to `buf`. */
  method WriteInMd(style: Style, txt: string, buf: string) returns (out: string)
    ensures out == buf + Wrap(style, txt)
  {
    match style {
      case Hyperlink(dest) => out := buf + ("[" + txt + "](" + dest + ")");
      case Tooltip(dest) => out := buf + (txt + " (" + dest + ")");
      case Plain => out := buf + txt;
      case Bold => out := buf + ("**" + txt + "**");
      case Italic => out := buf + ("*" + txt + "*");
      case CodeSnippet => out := buf + ("`" + txt + "`");
      case CodeFull => out := buf + ("```\n" + Trim(txt) + "\n```");
    }
  }

  /** `emergency_write_in_md`: appends the fallback of an element that wrote nothing. */
  method EmergencyWriteInMd(style: Style, attrs: map<string, string>, buf: string) returns (out: string)
    ensures out == buf + Fallback(style, attrs)
  {
    out := buf;
    if style.Hyperlink? {
      if "alt" in attrs {
        out := out + "[" + attrs["alt"] + "](" + style.dest + ")";
      }
    }
  }

  /** `to_md`: appends the flattening of `n` to `output`, one child at a time,
      and falls back only when no child was written. */
  method ToMd(n: Node, output: string) returns (out: string)
    requires !n.Other?
    ensures out == output + Flatten(n)
    decreases n, 1
  {
    if n.Text? {
      out := output + n.text;
      assert Flatten(n) == n.text;
      return;
    }
    var md := StyleOf(n.name, n.attrs);
    var wrote := false;
    out := output;
    var i := 0;
    while i < |n.children|
      invariant 0 <= i <= |n.children|
      invariant out == output + Body(md, n, i)
      invariant wrote <==> AnyWritten(n.children[..i])
    {
      var child := n.children[i];
      AnyWrittenStep(n.children, i);
      out := WriteChild(md, child, out);
      wrote := wrote || !child.Other?;
      i := i + 1;
    }
    assert n.children[..i] == n.children;
    if !wrote {
      SilentBody(md, n, i);
      out := EmergencyWriteInMd(md, n.attrs, out);
    } else {
      assert Flatten(n) == Body(md, n, |n.children|);
    }
  }

  /** One pass of the loop of `to_md`: a text child is written as is, an
      element child is flattened into a fresh buffer that is then written,
      any other child is skipped. */
  method WriteChild(md: Style, child: Node, buf: string) returns (out: string)
    ensures out == buf + Piece(md, child)
    decreases child, 2
  {
    if child.Other? {
      out := buf;
      return;
    }
    var txt;
    if child.Text? {
      txt := child.text;
      assert Piece(md, child) == Wrap(md, txt);
    } else {
      txt := ToMd(child, "");
      assert txt == Flatten(child);
      assert Piece(md, child) == Wrap(md, Flatten(child));
    }
    out := WriteInMd(md, txt, buf);
  }

  /** Children that are all `Other` append nothing. */
  lemma {:induction false} SilentBody(style: Style, n: Node, k: nat)
    requires n.Element? && k <= |n.children| && !AnyWritten(n.children)
    ensures Body(style, n, k) == ""
  {
    if k > 0 {
      assert n.children[k - 1].Other?;
      SilentBody(style, n, k - 1);
    }
  }

  /** One more child is written exactly when the new child is not an `Other`. */
  lemma AnyWrittenStep(children: seq<Node>, i: nat)
    requires i < |children|
    ensures AnyWritten(children[..i + 1]) <==> AnyWritten(children[..i]) || !children[i].Other?
  {
    var pre, pre' := children[..i], children[..i + 1];
    assert pre' == pre + [children[i]];
    if AnyWritten(pre') && children[i].Other? {
      var j :| 0 <= j < i + 1 && !pre'[j].Other?;
      assert pre[j] == pre'[j];
    }
    if AnyWritten(pre) {
      var j :| 0 <= j < i && !pre[j].Other?;
      assert pre'[j] == pre[j];
    }
    if !children[i].Other? {
      assert !pre'[i].Other?;
    }
  }

  /** `convert_to_markdown`: the flattening of `n` into an empty buffer. */
  method ConvertToMarkdown(n: Node) returns (s: string)
    requires !n.Other?
    ensures s == Flatten(n)
    ensures n.Text? ==> s == n.text
  {
    s := ToMd(n, "");
  }

  /** `Body` looks at nothing but the first `k` children. */
  lemma {:induction false} BodyOfPrefix(style: Style, n: Node, m: Node, k: nat)
    requires n.Element? && m.Element? && k <= |n.children| && k <= |m.children|
    requires n.children[..k] == m.children[..k]
    ensures Body(style, n, k) == Body(style, m, k)
  {
    if k > 0 {
      assert n.children[..k - 1] == m.children[..k - 1] by {
        assert n.children[..k - 1] == n.children[..k][..k - 1];
        assert m.children[..k - 1] == m.children[..k][..k - 1];
      }
      assert n.children[k - 1] == n.children[..k][k - 1];
      assert m.children[k - 1] == m.children[..k][k - 1];
      BodyOfPrefix(style, n, m, k - 1);
    }
  }

  /** The children of an element contribute independently: the body for
      `a + b` is the body for `a` followed by the body for `b`. */
  lemma BodyConcat(style: Style, name: string, attrs: map<string, string>, a: seq<Node>, b: seq<Node>)
    ensures Body(style, Element(name, attrs, a + b), |a + b|)
         == Body(style, Element(name, attrs, a), |a|) + Body(style, Element(name, attrs, b), |b|)
  {
    var ab := Element(name, attrs, a + b);
    BodyIsFold(style, ab, |a + b|);
    BodyIsFold(style, Element(name, attrs, a), |a|);
    BodyIsFold(style, Element(name, attrs, b), |b|);
    assert (a + b)[..|a + b|] == a + b && a[..|a|] == a && b[..|b|] == b;
    FoldConcat(PieceOf(style), a, b);
  }

  /** `Piece` under `style`, as a function value. */
  function PieceOf(style: Style): Node -> string
  {
    c => Piece(style, c)
  }

  /** The pieces of `cs` under `f`, one after the other. */
  function Fold(f: Node -> string, cs: seq<Node>): string
  {
    if cs == [] then "" else Fold(f, cs[..|cs| - 1]) + f(cs[|cs| - 1])
  }

  lemma {:induction false} FoldConcat(f: Node -> string, a: seq<Node>, b: seq<Node>)
    ensures Fold(f, a + b) == Fold(f, a) + Fold(f, b)
    decreases |b|
  {
    if b == [] {
      assert a + b == a;
    } else {
      var b' := b[..|b| - 1];
      assert (a + b)[..|a + b| - 1] == a + b';
      assert (a + b)[|a + b| - 1] == b[|b| - 1];
      FoldConcat(f, a, b');
      var x, y, z := Fold(f, a), Fold(f, b'), f(b[|b| - 1]);
      assert (x + y) + z == x + (y + z);
    }
  }

  /** `Body` is the fold of `Piece` over the first `k` children. */
  lemma {:induction false} BodyIsFold(style: Style, n: Node, k: nat)
    requires n.Element? && k <= |n.children|
    ensures Body(style, n, k) == Fold(PieceOf(style), n.children[..k])
  {
    if k > 0 {
      BodyIsFold(style, n, k - 1);
      assert n.children[..k][..k - 1] == n.children[..k - 1];
      assert n.children[..k][k - 1] == n.children[k - 1];
      assert PieceOf(style)(n.children[k - 1]) == Piece(style, n.children[k - 1]);
    }
  }

  /** An element with no text or element child writes nothing at all unless
      it is a hyperlink (an `a` with `href`, an `img` with `src`) carrying an
      `alt` attribute. */
  lemma FallbackOnlyForHyperlinkAlt(name: string, attrs: map<string, string>, children: seq<Node>)
    requires forall i :: 0 <= i < |children| ==> children[i].Other?
    ensures Flatten(Element(name, attrs, children)) != "" <==>
              StyleOf(name, attrs).Hyperlink? && "alt" in attrs
  {
  }

  /** Flattening an element splits along its children: no markers are shared
      and no text merges across the boundary between two groups of children. */
  lemma FlattenSplitsChildren(name: string, attrs: map<string, string>, a: seq<Node>, b: seq<Node>)
    requires AnyWritten(a) && AnyWritten(b)
    ensures Flatten(Element(name, attrs, a + b))
         == Flatten(Element(name, attrs, a)) + Flatten(Element(name, attrs, b))
  {
    var j :| 0 <= j < |a| && !a[j].Other?;
    assert (a + b)[j] == a[j];
    BodyConcat(StyleOf(name, attrs), name, attrs, a, b);
  }

  /** Comments and other non-text, non-element children are skipped, except
      that they cannot stop the fallback of an element with nothing else. */
  lemma OtherChildIgnored(name: string, attrs: map<string, string>, a: seq<Node>, b: seq<Node>)
    ensures Flatten(Element(name, attrs, a + [Other] + b)) == Flatten(Element(name, attrs, a + b))
  {
    var style := StyleOf(name, attrs);
    var e, e' := Element(name, attrs, a + [Other] + b), Element(name, attrs, a + b);
    assert Body(style, e, |a + [Other] + b|) == Body(style, e', |a + b|) by {
      BodyConcat(style, name, attrs, a + [Other], b);
      BodyConcat(style, name, attrs, a, [Other]);
      BodyConcat(style, name, attrs, a, b);
      assert Body(style, Element(name, attrs, [Other]), 1) == "";
    }
    AnyWrittenOther(a, b);
  }

  /** A comment child does not count as written. */
  lemma AnyWrittenOther(a: seq<Node>, b: seq<Node>)
    ensures AnyWritten(a + [Other] + b) <==> AnyWritten(a + b)
  {
    if AnyWritten(a + b) {
      var j :| 0 <= j < |a + b| && !(a + b)[j].Other?;
      if j < |a| {
        assert (a + [Other] + b)[j] == a[j];
      } else {
        assert (a + [Other] + b)[j + 1] == b[j - |a|];
      }
    }
    if AnyWritten(a + [Other] + b) {
      var j :| 0 <= j < |a + [Other] + b| && !(a + [Other] + b)[j].Other?;
      if j < |a| {
        assert (a + b)[j] == a[j];
      } else {
        assert j > |a|;
        assert (a + b)[j - 1] == b[j - 1 - |a|];
      }
    }
  }

  /** A child element is flattened into a buffer of its own, which the parent
      then wraps in its style as one piece. */
  lemma NestedElementWrapped(name: string, attrs: map<string, string>, child: Node)
    requires child.Element?
    ensures Flatten(Element(name, attrs, [child])) == Wrap(StyleOf(name, attrs), Flatten(child))
  {
    var e := Element(name, attrs, [child]);
    assert !e.children[0].Other?;
    assert Body(StyleOf(name, attrs), e, 1) == Piece(StyleOf(name, attrs), child);
  }

  /** The concatenated text of a tree, ignoring tags: a reference definition
      independent of styles. */
  function TextContent(n: Node): string
    decreases n, 1
  {
    match n
    case Text(t) => t
    case Other => ""
    case Element(_, _, children) => ChildrenText(n, |children|)
  }

  function ChildrenText(n: Node, k: nat): string
    requires n.Element? && k <= |n.children|
    decreases n, 0, k
  {
    if k == 0 then "" else ChildrenText(n, k - 1) + TextContent(n.children[k - 1])
  }

  /** Every element of the tree has the `Plain` style. */
  predicate AllPlain(n: Node)
  {
    match n
    case Element(name, attrs, children) =>
      StyleOf(name, attrs) == Plain && forall i :: 0 <= i < |children| ==> AllPlain(children[i])
    case _ => true
  }

  /** Plain elements (`span`, `td`, `br`, unknown tags, ...) are transparent:
      flattening a tree of them gives exactly its text. */
  lemma {:induction false} PlainTreeYieldsText(n: Node)
    requires !n.Other? && AllPlain(n)
    ensures Flatten(n) == TextContent(n)
    decreases n, 1
  {
    if n.Element? {
      PlainBodyYieldsText(n, |n.children|);
      if !AnyWritten(n.children) {
        NoWrittenChildNoText(n, |n.children|);
      }
    }
  }

  lemma {:induction false} PlainBodyYieldsText(n: Node, k: nat)
    requires n.Element? && k <= |n.children| && AllPlain(n)
    ensures Body(Plain, n, k) == ChildrenText(n, k)
    decreases n, 0, k
  {
    if k > 0 {
      PlainBodyYieldsText(n, k - 1);
      var c := n.children[k - 1];
      if c.Element? {
        PlainTreeYieldsText(c);
      }
    }
  }

  lemma {:induction false} NoWrittenChildNoText(n: Node, k: nat)
    requires n.Element? && k <= |n.children| && !AnyWritten(n.children)
    ensures ChildrenText(n, k) == ""
    decreases k
  {
    if k > 0 {
      assert n.children[k - 1].Other?;
      NoWrittenChildNoText(n, k - 1);
    }
  }
}
