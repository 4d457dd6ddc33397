/**
 * Section location and page assembly of `src/parse_file.rs`.
 *
 * A page is seen through its `h1` and its `h4` elements in document order.
 * Each element is a reference into the children of its parent, so "the
 * sibling after next" is index arithmetic. The three `h4` scans (syntax,
 * returns, example) share one cursor: each starts where the previous one
 * stopped, and a scan that finds nothing leaves the cursor at the end.
 */
module ParseFile {
  import opened Wrappers
  import opened Strings
  import opened Dom
  import opened Manual
  import opened FileMarkdown
  import opened Signature
  import opened Parameters

  /** An element of the document: position `at` among `siblings`, the
      children of its parent. */
  datatype NodeRef = NodeRef(siblings: seq<Node>, at: nat)

  /** The headings the `h1` and `h4` selectors yield, in document order. */
  datatype Page = Page(h1s: seq<NodeRef>, h4s: seq<NodeRef>)

  /** The `k`-th next sibling of `r`, if there is one. */
  function Sibling(r: NodeRef, k: nat): Option<Node>
  {
    if r.at + k < |r.siblings| then Some(r.siblings[r.at + k]) else None
  }

  /** `r` denotes an element, and flattening its first child does not hit
      the `as_element().unwrap()` on a comment or other node. */
  predicate HeadingSafe(r: NodeRef)
  {
    r.at < |r.siblings| && r.siblings[r.at].Element? &&
    (FirstChild(r.siblings[r.at]).None? || !FirstChild(r.siblings[r.at]).value.Other?)
  }

  /** The heading's first child, flattened and lowercased, contains `kw`. */
  predicate Matches(r: NodeRef, kw: string)
    requires HeadingSafe(r)
  {
    var first := FirstChild(r.siblings[r.at]);
    first.Some? && Contains(AsciiLower(FileFlatten(first.value)), kw)
  }

  /** Every heading the scan for `kw` looks at, from `from` up to and
      including the first match, is safe to flatten. */
  predicate ScanSafe(hs: seq<NodeRef>, from: nat, kw: string)
    decreases |hs| - from
  {
    from >= |hs| || (HeadingSafe(hs[from]) && (Matches(hs[from], kw) || ScanSafe(hs, from + 1, kw)))
  }

  /** `Select::find` with the keyword test: the first matching heading at or
      after the cursor, and the cursor just past it, or past the end when no
      heading matches. */
  function FindHeading(hs: seq<NodeRef>, from: nat, kw: string): (r: (Option<nat>, nat))
    requires from <= |hs| && ScanSafe(hs, from, kw)
    ensures from <= r.1 <= |hs|
    ensures r.0.Some? ==> from <= r.0.value < |hs| && r.1 == r.0.value + 1
                          && HeadingSafe(hs[r.0.value]) && Matches(hs[r.0.value], kw)
    ensures r.0.Some? ==> forall j :: from <= j < r.0.value ==> HeadingSafe(hs[j]) && !Matches(hs[j], kw)
    ensures r.0.None? ==> r.1 == |hs| && forall j :: from <= j < |hs| ==> HeadingSafe(hs[j]) && !Matches(hs[j], kw)
    decreases |hs| - from
  {
    if from == |hs| then (None, |hs|)
    else if Matches(hs[from], kw) then (Some(from), from + 1)
    else FindHeading(hs, from + 1, kw)
  }

  /** After a scan that found nothing, every later scan finds nothing. */
  lemma ExhaustedCursor(hs: seq<NodeRef>, kw: string)
    ensures ScanSafe(hs, |hs|, kw) && FindHeading(hs, |hs|, kw) == (None, |hs|)
  {
  }

  /** The body node `k` siblings after a heading can be flattened. */
  predicate BodySafe(r: NodeRef, k: nat)
  {
    Sibling(r, k).None? || !Sibling(r, k).value.Other?
  }

  /** What `parse_parameters` needs on top of a safe scan: the signature
      node can be flattened and its text sliced. */
  predicate ParametersSafe(hs: seq<NodeRef>, from: nat)
  {
    from <= |hs| && ScanSafe(hs, from, "syntax") &&
    var (found, _) := FindHeading(hs, from, "syntax");
    found.Some? ==>
      var h := hs[found.value];
      BodySafe(h, 2) && (Sibling(h, 2).Some? ==> SignatureSafe(FileFlatten(Sibling(h, 2).value)))
  }

  /** `parse_parameters`: the data of the syntax section and the cursor
      after the scan. A signature without parentheses gives `Variable`;
      otherwise the first table after the signature is read, through the
      rows of its second child. */
  function SyntaxSection(hs: seq<NodeRef>, from: nat): (r: (Option<Data>, nat))
    requires ParametersSafe(hs, from)
    ensures r.1 == FindHeading(hs, from, "syntax").1
  {
    var (found, next) := FindHeading(hs, from, "syntax");
    if found.None? then (None, next)
    else
      var h := hs[found.value];
      match Sibling(h, 2)
      case None => (None, next)
      case Some(sigNode) =>
        var sig := Parsed(FileFlatten(sigNode));
        if !sig.isFunction then (Some(Variable), next)
        else
          match FindNamed(h.siblings, h.at + 4, "table")
          case None => (None, next)
          case Some(t) =>
            var table := h.siblings[t];
            if |Children(table)| < 2 then (None, next)
            else (Reconcile(Children(Children(table)[1]), sig.guesses, sig.variadic), next)
  }

  /** `parse_parameters`, moving the shared cursor from `from` to `next`. */
  method ParseParameters(hs: seq<NodeRef>, from: nat) returns (data: Option<Data>, next: nat)
    requires ParametersSafe(hs, from)
    ensures (data, next) == SyntaxSection(hs, from)
  {
    var found;
    found, next := FindHeading(hs, from, "syntax").0, FindHeading(hs, from, "syntax").1;
    if found.None? {
      return None, next;
    }
    var h := hs[found.value];
    if h.at + 2 >= |h.siblings| {
      return None, next;
    }
    var sig := FlattenElementIntoMarkdown(h.siblings[h.at + 2], "");
    assert sig == FileFlatten(h.siblings[h.at + 2]);
    assert Sibling(h, 2) == Some(h.siblings[h.at + 2]);
    var guesses, variadic, isFunction := ParseSignature(sig);
    assert SigResult(guesses, variadic, isFunction) == Parsed(FileFlatten(h.siblings[h.at + 2]));
    if !isFunction {
      return Some(Variable), next;
    }
    var t := FindNamed(h.siblings, h.at + 4, "table");
    if t.None? {
      return None, next;
    }
    var table := h.siblings[t.value];
    if |Children(table)| < 2 {
      return None, next;
    }
    data := ReconcileRows(Children(Children(table)[1]), guesses, variadic);
    assert SyntaxSection(hs, from) == (Reconcile(Children(Children(table)[1]), guesses, variadic), next);
  }

  /** A syntax line without a call is a variable, whatever follows it. */
  lemma NoCallIsVariable(hs: seq<NodeRef>, from: nat)
    requires ParametersSafe(hs, from)
    requires FindHeading(hs, from, "syntax").0.Some?
    requires var h := hs[FindHeading(hs, from, "syntax").0.value];
             Sibling(h, 2).Some? && (FindChar(FileFlatten(Sibling(h, 2).value), '(').None?
                                    || FindChar(FileFlatten(Sibling(h, 2).value), ')').None?)
    ensures SyntaxSection(hs, from).0 == Some(Variable)
  {
  }

  /** What `parse_returns` needs: the body of a found heading can be flattened. */
  predicate SectionSafe(hs: seq<NodeRef>, from: nat, kw: string)
  {
    from <= |hs| && ScanSafe(hs, from, kw) &&
    var (found, _) := FindHeading(hs, from, kw);
    found.Some? ==> BodySafe(hs[found.value], 2)
  }

  /** `parse_returns`: the flattened sibling after next of the "returns" heading. */
  function ReturnsSection(hs: seq<NodeRef>, from: nat): (r: (Option<string>, nat))
    requires SectionSafe(hs, from, "returns")
    ensures r.1 == FindHeading(hs, from, "returns").1
    ensures r.0.Some? <==> FindHeading(hs, from, "returns").0.Some?
                           && Sibling(hs[FindHeading(hs, from, "returns").0.value], 2).Some?
  {
    var (found, next) := FindHeading(hs, from, "returns");
    if found.None? then (None, next)
    else
      match Sibling(hs[found.value], 2)
      case None => (None, next)
      case Some(body) => (Some(FileFlatten(body)), next)
  }

  /** `parse_returns`, moving the shared cursor from `from` to `next`. */
  method ParseReturns(hs: seq<NodeRef>, from: nat) returns (text: Option<string>, next: nat)
    requires SectionSafe(hs, from, "returns")
    ensures (text, next) == ReturnsSection(hs, from)
  {
    var found;
    found, next := FindHeading(hs, from, "returns").0, FindHeading(hs, from, "returns").1;
    if found.None? {
      return None, next;
    }
    var h := hs[found.value];
    if h.at + 2 >= |h.siblings| {
      return None, next;
    }
    var output := FlattenElementIntoMarkdown(h.siblings[h.at + 2], "");
    assert output == FileFlatten(h.siblings[h.at + 2]);
    assert Sibling(h, 2) == Some(h.siblings[h.at + 2]);
    text := Some(output);
  }

  /** What one sibling after the first example body adds: a newline for a
      blank text, the trimmed text otherwise, an element's flattening; `None`
      for a sibling that ends the example, a node that is neither text nor
      element or an element whose flattening is blank. */
  function ExamplePiece(n: Node): Option<string>
  {
    match n
    case Text(t) => Some(if IsBlank(t) then "\n" else Trim(t))
    case Element(_, _, _) =>
      var f := FileFlatten(n);
      if IsBlank(f) then None else Some(f)
    case Other => None
  }

  /** The example stops exactly at a node that is neither text nor element
      and at an element that flattens to blank text; a text sibling never
      adds nothing. */
  lemma ExamplePieceStops(n: Node)
    ensures ExamplePiece(n).None? <==> n.Other? || (n.Element? && IsBlank(FileFlatten(n)))
    ensures n.Text? ==> ExamplePiece(n).value != []
    ensures n.Element? && !IsBlank(FileFlatten(n)) ==> ExamplePiece(n) == Some(FileFlatten(n))
  {
    if n.Text? && !IsBlank(n.text) {
      TrimCharacterised(n.text);
    }
  }

  /** A sibling that ends the example. */
  predicate StopsExample(n: Node)
  {
    ExamplePiece(n).None?
  }

  /** What each sibling would add, one entry per sibling. */
  function Pieces(sibs: seq<Node>): (r: seq<Option<string>>)
    ensures |r| == |sibs|
  {
    Map(ExamplePiece, sibs)
  }

  /** `f` applied to each element. */
  function Map<A, B>(f: A -> B, s: seq<A>): (r: seq<B>)
    ensures |r| == |s| && forall i :: 0 <= i < |s| ==> r[i] == f(s[i])
  {
    seq(|s|, i requires 0 <= i < |s| => f(s[i]))
  }

  /** Mapping distributes over concatenation. */
  lemma MapConcat<A, B>(f: A -> B, a: seq<A>, b: seq<A>)
    ensures Map(f, a + b) == Map(f, a) + Map(f, b)
  {
    var ab := a + b;
    forall i | 0 <= i < |ab| ensures Map(f, ab)[i] == (Map(f, a) + Map(f, b))[i] {
      if i < |a| {
        assert ab[i] == a[i];
      } else {
        assert ab[i] == b[i - |a|];
      }
    }
  }

  /** The text a run of pieces adds, up to the first missing one. */
  function PieceTail(ps: seq<Option<string>>): string
  {
    if ps == [] then ""
    else match ps[0]
      case None => ""
      case Some(p) => p + PieceTail(ps[1..])
  }

  /** The text the siblings after the first example body add, up to the
      first sibling that ends the example. */
  function ExampleTail(sibs: seq<Node>): string
  {
    PieceTail(Pieces(sibs))
  }

  /** The body of the `for ex in example_siblings` loop: what `ex` adds to
      the example, or `None` where the loop breaks. */
  method NextPiece(ex: Node) returns (piece: Option<string>)
    ensures piece == ExamplePiece(ex)
  {
    match ex {
      case Text(txt) =>
        TrimCharacterised(txt);
        if Trim(txt) == [] {
          piece := Some("\n");
        } else {
          piece := Some(Trim(txt));
        }
      case Element(_, _, _) =>
        var nextOne := FlattenElementIntoMarkdown(ex, "");
        assert nextOne == FileFlatten(ex);
        TrimCharacterised(nextOne);
        if Trim(nextOne) == [] {
          piece := None;
        } else {
          piece := Some(nextOne);
        }
      case Other =>
        piece := None;
    }
  }

  /** The `for ex in example_siblings` loop: appends `ExampleTail(sibs[from..])`. */
  method CollectExample(sibs: seq<Node>, from: nat, output: string) returns (out: string)
    requires from <= |sibs|
    ensures out == output + ExampleTail(sibs[from..])
  {
    out := output;
    var i := from;
    while i < |sibs|
      invariant from <= i <= |sibs|
      invariant out + ExampleTail(sibs[i..]) == output + ExampleTail(sibs[from..])
    {
      var piece := NextPiece(sibs[i]);
      ExampleTailUnfold(sibs, i);
      if piece.None? {
        break;
      }
      out := out + piece.value;
      i := i + 1;
    }
    assert i == |sibs| ==> sibs[i..] == [];
  }

  /** One step of `ExampleTail` on a suffix. */
  lemma ExampleTailUnfold(sibs: seq<Node>, i: nat)
    requires i < |sibs|
    ensures ExamplePiece(sibs[i]).None? ==> ExampleTail(sibs[i..]) == ""
    ensures ExamplePiece(sibs[i]).Some? ==>
              ExampleTail(sibs[i..]) == ExamplePiece(sibs[i]).value + ExampleTail(sibs[i + 1..])
  {
    var ps := Pieces(sibs[i..]);
    assert ps[0] == ExamplePiece(sibs[i]);
    assert ps[1..] == Pieces(sibs[i + 1..]) by {
      forall j | 0 <= j < |ps| - 1 ensures ps[1..][j] == Pieces(sibs[i + 1..])[j] {
        assert sibs[i..][j + 1] == sibs[i + 1..][j];
      }
    }
  }

  /** A missing piece ends the run: what comes after it is never read. */
  lemma {:induction false} PieceTailStops(pa: seq<Option<string>>, pb: seq<Option<string>>, i: nat)
    requires i < |pa| && pa[i].None?
    ensures PieceTail(pa + pb) == PieceTail(pa)
  {
    var ab := pa + pb;
    assert ab[0] == pa[0] && ab[1..] == pa[1..] + pb;
    if pa[0].Some? {
      assert pa[1..][i - 1] == pa[i];
      PieceTailStops(pa[1..], pb, i - 1);
    }
  }

  /** Without a missing piece, the run is the pieces one after the other. */
  lemma {:induction false} PieceTailConcat(pa: seq<Option<string>>, pb: seq<Option<string>>)
    requires forall i :: 0 <= i < |pa| ==> pa[i].Some?
    ensures PieceTail(pa + pb) == PieceTail(pa) + PieceTail(pb)
  {
    if pa == [] {
      assert pa + pb == pb;
    } else {
      var ab := pa + pb;
      assert ab[0] == pa[0] && ab[1..] == pa[1..] + pb;
      assert forall i :: 0 <= i < |pa[1..]| ==> pa[1..][i].Some? by {
        forall i | 0 <= i < |pa[1..]| ensures pa[1..][i].Some? {
          assert pa[1..][i] == pa[i + 1];
        }
      }
      PieceTailConcat(pa[1..], pb);
      var p, x, y := pa[0].value, PieceTail(pa[1..]), PieceTail(pb);
      assert p + (x + y) == (p + x) + y;
    }
  }

  /** The example ends at a stopping sibling: what comes after it is never read. */
  lemma ExampleTailStops(a: seq<Node>, b: seq<Node>, i: nat)
    requires i < |a| && StopsExample(a[i])
    ensures ExampleTail(a + b) == ExampleTail(a)
  {
    MapConcat(ExamplePiece, a, b);
    PieceTailStops(Pieces(a), Pieces(b), i);
  }

  /** Without a stopping sibling the siblings contribute piece by piece. */
  lemma ExampleTailConcat(a: seq<Node>, b: seq<Node>)
    requires forall i :: 0 <= i < |a| ==> !StopsExample(a[i])
    ensures ExampleTail(a + b) == ExampleTail(a) + ExampleTail(b)
  {
    MapConcat(ExamplePiece, a, b);
    PieceTailConcat(Pieces(a), Pieces(b));
  }

  /** `parse_example`: the flattened sibling after next of the "example"
      heading, followed by the tail of the siblings after it. */
  function ExampleSection(hs: seq<NodeRef>, from: nat): (r: (Option<string>, nat))
    requires SectionSafe(hs, from, "example")
    ensures r.1 == FindHeading(hs, from, "example").1
    ensures r.0.Some? <==> FindHeading(hs, from, "example").0.Some?
                           && Sibling(hs[FindHeading(hs, from, "example").0.value], 2).Some?
    ensures r.0.Some? ==> var h := hs[FindHeading(hs, from, "example").0.value];
                          StartsWith(r.0.value, FileFlatten(h.siblings[h.at + 2]))
  {
    var (found, next) := FindHeading(hs, from, "example");
    if found.None? then (None, next)
    else
      var h := hs[found.value];
      match Sibling(h, 2)
      case None => (None, next)
      case Some(body) =>
        var head := FileFlatten(body);
        var tail := ExampleTail(h.siblings[h.at + 3..]);
        assert (head + tail)[..|head|] == head;
        (Some(head + tail), next)
  }

  /** `parse_example`, moving the shared cursor from `from` to `next`. */
  method ParseExample(hs: seq<NodeRef>, from: nat) returns (example: Option<string>, next: nat)
    requires SectionSafe(hs, from, "example")
    ensures (example, next) == ExampleSection(hs, from)
  {
    var found;
    found, next := FindHeading(hs, from, "example").0, FindHeading(hs, from, "example").1;
    if found.None? {
      return None, next;
    }
    var h := hs[found.value];
    if h.at + 2 >= |h.siblings| {
      return None, next;
    }
    var gmExample := FlattenElementIntoMarkdown(h.siblings[h.at + 2], "");
    assert gmExample == FileFlatten(h.siblings[h.at + 2]);
    assert Sibling(h, 2) == Some(h.siblings[h.at + 2]);
    gmExample := CollectExample(h.siblings, h.at + 3, gmExample);
    example := Some(gmExample);
  }

  /** What `parse_name_and_description` needs: the first `h1` is a node of
      its parent, and its description node can be flattened. */
  predicate NameSafe(h1s: seq<NodeRef>)
  {
    h1s != [] ==> h1s[0].at < |h1s[0].siblings| && BodySafe(h1s[0], 2)
  }

  /** `parse_name_and_description`: the text of the first `h1`'s first child,
      and the flattened sibling after next of that `h1`. */
  function NameAndDescription(h1s: seq<NodeRef>): (r: Option<(string, string)>)
    requires NameSafe(h1s)
    ensures r.Some? <==> h1s != [] && FirstChild(h1s[0].siblings[h1s[0].at]).Some?
                         && FirstChild(h1s[0].siblings[h1s[0].at]).value.Text?
                         && Sibling(h1s[0], 2).Some?
    ensures r.Some? ==> r.value.0 == FirstChild(h1s[0].siblings[h1s[0].at]).value.text
  {
    if h1s == [] then None
    else
      var title := h1s[0];
      match FirstChild(title.siblings[title.at])
      case None => None
      case Some(f) =>
        if !f.Text? then None
        else
          match Sibling(title, 2)
          case None => None
          case Some(desc) => Some((f.text, FileFlatten(desc)))
  }

  /** `parse_name_and_description`. */
  method ParseNameAndDescription(h1s: seq<NodeRef>) returns (r: Option<(string, string)>)
    requires NameSafe(h1s)
    ensures r == NameAndDescription(h1s)
  {
    if h1s == [] {
      return None;
    }
    var title := h1s[0];
    var fChild := FirstChild(title.siblings[title.at]);
    if fChild.None? || !fChild.value.Text? {
      return None;
    }
    var name := fChild.value.text;
    if title.at + 2 >= |title.siblings| {
      return None;
    }
    var description := FlattenElementIntoMarkdown(title.siblings[title.at + 2], "");
    assert description == FileFlatten(title.siblings[title.at + 2]);
    assert Sibling(title, 2) == Some(title.siblings[title.at + 2]);
    r := Some((name, description));
  }

  /** Every scan and flattening of a page avoids the source's panics, and
      when the name, returns and example are all found the parameters are
      too (the source unwraps them). */
  predicate PageSafe(page: Page)
  {
    NameSafe(page.h1s) && ParametersSafe(page.h4s, 0) &&
    var (params, c1) := SyntaxSection(page.h4s, 0);
    SectionSafe(page.h4s, c1, "returns") &&
    var (returnsText, c2) := ReturnsSection(page.h4s, c1);
    SectionSafe(page.h4s, c2, "example") &&
    var (example, _) := ExampleSection(page.h4s, c2);
    (NameAndDescription(page.h1s).Some? && returnsText.Some? && example.Some? ==> params.Some?)
  }

  /** A page yields a function or a variable. */
  datatype DocEntry = FunctionEntry(fn: GmManualFunction) | VariableEntry(vr: GmManualVariable)

  /** `parse_function_file`: an entry only when the name and description,
      the returns and the example were all found, built from the `Data` of
      the syntax section. */
  function FunctionFile(page: Page, link: Link): (r: Option<DocEntry>)
    requires PageSafe(page)
  {
    var nameDescription := NameAndDescription(page.h1s);
    var (parameters, c1) := SyntaxSection(page.h4s, 0);
    var (returnsText, c2) := ReturnsSection(page.h4s, c1);
    var (example, _) := ExampleSection(page.h4s, c2);
    if nameDescription.Some? && example.Some? && returnsText.Some? then
      var (name, description) := nameDescription.value;
      match parameters.value
      case Function(ps, required, variadic) =>
        Some(FunctionEntry(GmManualFunction(name, ps, required, variadic, example.value,
                                            description, returnsText.value, link)))
      case Variable =>
        Some(VariableEntry(GmManualVariable(name, example.value, description, returnsText.value, link)))
    else None
  }

  /** A page yields an entry exactly when its three sections are found; the
      entry is a function exactly when the syntax section is a call, and its
      name, description, returns, example and link are the ones found. */
  lemma FunctionFileCharacterised(page: Page, link: Link)
    requires PageSafe(page)
    ensures var nd := NameAndDescription(page.h1s);
            var (params, c1) := SyntaxSection(page.h4s, 0);
            var (returnsText, c2) := ReturnsSection(page.h4s, c1);
            var (example, _) := ExampleSection(page.h4s, c2);
            var r := FunctionFile(page, link);
            (r.Some? <==> nd.Some? && returnsText.Some? && example.Some?) &&
            (r.Some? ==> (r.value.FunctionEntry? <==> params.value.Function?)) &&
            (r.Some? && r.value.FunctionEntry? ==>
               var f := r.value.fn;
               f.name == nd.value.0 && f.description == nd.value.1 && f.returnsText == returnsText.value
               && f.example == example.value && f.link == link
               && f.parameters == params.value.parameters
               && f.requiredParameters == params.value.requiredParameters
               && f.isVariadic == params.value.isVariadic) &&
            (r.Some? && r.value.VariableEntry? ==>
               var v := r.value.vr;
               v.name == nd.value.0 && v.description == nd.value.1 && v.returnsText == returnsText.value
               && v.example == example.value && v.link == link)
  {
  }

  /** The shared cursor puts the sections in order: on a page that yields an
      entry, the syntax heading comes before the returns heading, which comes
      before the example heading. */
  lemma SectionsInOrder(page: Page, link: Link)
    requires PageSafe(page) && FunctionFile(page, link).Some?
    ensures var hs := page.h4s;
            var s := FindHeading(hs, 0, "syntax");
            var rt := FindHeading(hs, s.1, "returns");
            var ex := FindHeading(hs, rt.1, "example");
            s.0.Some? && rt.0.Some? && ex.0.Some? && s.0.value < rt.0.value < ex.0.value
  {
    var hs := page.h4s;
    var s := FindHeading(hs, 0, "syntax");
    if s.0.None? {
      ExhaustedCursor(hs, "returns");
    }
  }

  /** A page without a syntax heading yields nothing: the syntax scan uses
      up every heading, so returns and example are never found. */
  lemma MissingSyntaxYieldsNothing(page: Page, link: Link)
    requires PageSafe(page) && FindHeading(page.h4s, 0, "syntax").0.None?
    ensures FunctionFile(page, link).None?
  {
    ExhaustedCursor(page.h4s, "returns");
  }

  /** A page whose syntax line has no call, and which yields an entry,
      yields a variable. */
  lemma NoCallPageIsVariable(page: Page, link: Link)
    requires PageSafe(page) && FunctionFile(page, link).Some?
    requires FindHeading(page.h4s, 0, "syntax").0.Some?
    requires var h := page.h4s[FindHeading(page.h4s, 0, "syntax").0.value];
             Sibling(h, 2).Some? && '(' !in FileFlatten(Sibling(h, 2).value)
    ensures FunctionFile(page, link).value.VariableEntry?
  {
    var h := page.h4s[FindHeading(page.h4s, 0, "syntax").0.value];
    assert FindChar(FileFlatten(Sibling(h, 2).value), '(').None?;
    NoCallIsVariable(page.h4s, 0);
  }

  /** A page on which the example scan finds no heading yields no entry. */
  lemma MissingExampleYieldsNothing(page: Page, link: Link)
    requires PageSafe(page)
    requires var c1 := SyntaxSection(page.h4s, 0).1;
             var c2 := ReturnsSection(page.h4s, c1).1;
             FindHeading(page.h4s, c2, "example").0.None?
    ensures FunctionFile(page, link).None?
  {
  }

  /** `parse_function_file`, on the selected headings of one page. */
  method ParseFunctionFile(page: Page, link: Link) returns (r: Option<DocEntry>)
    requires PageSafe(page)
    ensures r == FunctionFile(page, link)
  {
    var nameDescription := ParseNameAndDescription(page.h1s);
    var parameters, c1 := ParseParameters(page.h4s, 0);
    var returnsText, c2 := ParseReturns(page.h4s, c1);
    var example, _ := ParseExample(page.h4s, c2);
    if nameDescription.Some? && example.Some? && returnsText.Some? {
      var (name, description) := nameDescription.value;
      match parameters.value {
        case Function(ps, required, variadic) =>
          r := Some(FunctionEntry(GmManualFunction(name, ps, required, variadic, example.value,
                                                   description, returnsText.value, link)));
        case Variable =>
          r := Some(VariableEntry(GmManualVariable(name, example.value, description, returnsText.value, link)));
      }
    } else {
      r := None;
    }
  }
}
