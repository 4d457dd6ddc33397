/**
 * `parse_inner` of `src/parse_constants.rs`: reading one table of constants.
 *
 * The second child of the table holds the rows. The row after the leading
 * newline is the header: its first `th` must mention "constant", and the
 * `th` siblings after it name the other columns ("description" or a
 * secondary descriptor). Every later element row fills one constant, cell by
 * cell in column order; the constant is cleaned up and inserted into the map
 * of constants under its name.
 */
module ParseConstants {
  import opened Wrappers
  import opened Strings
  import Dom
  import Markdown
  import SortedMap
  import opened Manual

  /** The role of a column. */
  datatype Order = Constant | Description | Other(header: string)

  type Node = Dom.Node

  /** `convert_to_markdown` on the node is defined: it is not a comment or
      other non-text, non-element node. */
  predicate Convertible(n: Node)
  {
    !n.Other?
  }

  /** The first child of a header cell converts without a panic. */
  predicate HeaderCellSafe(th: Node)
  {
    Dom.FirstChild(th).None? || Convertible(Dom.FirstChild(th).value)
  }

  /** The first header cell opens a table of constants: its first child,
      converted and lowercased, contains "constant". */
  predicate IsConstantHeader(th: Node)
    requires HeaderCellSafe(th)
  {
    Dom.FirstChild(th).Some? && Contains(AsciiLower(Markdown.Flatten(Dom.FirstChild(th).value)), "constant")
  }

  /** The role of a later header cell with first child `v`. */
  function ColumnOf(v: Node): (r: Order)
    requires Convertible(v)
    ensures !r.Constant?
    ensures r.Other? ==> r.header == Markdown.Flatten(v)
  {
    var h := Markdown.Flatten(v);
    if Contains(AsciiLower(h), "description") then Description else Other(h)
  }

  /** Every `th` the header walk converts, from `k` on, is safe to convert. */
  predicate SchemeSafe(hc: seq<Node>, k: nat)
    decreases |hc| - k
  {
    k >= |hc| ||
    match hc[k]
    case Text(_) => SchemeSafe(hc, k + 1)
    case Other => SchemeSafe(hc, k + 1)
    case Element(name, _, _) =>
      name != "th" || Dom.FirstChild(hc[k]).None? ||
      (Convertible(Dom.FirstChild(hc[k]).value) && SchemeSafe(hc, k + 1))
  }

  /** The columns the header cells from `k` on add: each `th` with a first
      child adds one; text and other nodes are passed over; the walk stops
      at another element or at a `th` with no children. */
  function SchemeAfter(hc: seq<Node>, k: nat): (r: seq<Order>)
    requires SchemeSafe(hc, k)
    ensures forall j :: 0 <= j < |r| ==> !r[j].Constant?
    decreases |hc| - k
  {
    if k >= |hc| then []
    else match hc[k]
      case Text(_) => SchemeAfter(hc, k + 1)
      case Other => SchemeAfter(hc, k + 1)
      case Element(name, _, _) =>
        if name != "th" then []
        else match Dom.FirstChild(hc[k])
          case None => []
          case Some(v) => [ColumnOf(v)] + SchemeAfter(hc, k + 1)
  }

  /** The header walk of `parse_inner` is panic-free on these rows. */
  predicate HeaderSafe(trs: seq<Node>)
  {
    |trs| >= 2 ==>
      var hc := Dom.Children(trs[1]);
      match Dom.FindNamed(hc, 0, "th")
      case None => true
      case Some(t) => HeaderCellSafe(hc[t]) && (IsConstantHeader(hc[t]) ==> SchemeSafe(hc, t + 1))
  }

  /** The column scheme of a table with rows `trs`, or `None` when it has no
      header, no `th` or is not a table of constants. */
  function Scheme(trs: seq<Node>): (r: Option<seq<Order>>)
    requires HeaderSafe(trs)
    ensures r.Some? ==> |r.value| >= 1 && r.value[0] == Constant
    ensures r.Some? ==> forall j :: 1 <= j < |r.value| ==> !r.value[j].Constant?
  {
    if |trs| < 2 then None
    else
      var hc := Dom.Children(trs[1]);
      match Dom.FindNamed(hc, 0, "th")
      case None => None
      case Some(t) =>
        if IsConstantHeader(hc[t]) then
          var after := SchemeAfter(hc, t + 1);
          assert forall j :: 1 <= j < |[Constant] + after| ==> ([Constant] + after)[j] == after[j - 1];
          Some([Constant] + after)
        else None
  }

  /** The `while let Some(sibling) = th.next_sibling()` loop. */
  method BuildOrder(hc: seq<Node>, t: nat) returns (order: seq<Order>)
    requires t < |hc| && SchemeSafe(hc, t + 1)
    ensures order == [Constant] + SchemeAfter(hc, t + 1)
  {
    order := [Constant];
    var k := t + 1;
    while k < |hc|
      invariant t + 1 <= k <= |hc| && SchemeSafe(hc, k)
      invariant order + SchemeAfter(hc, k) == [Constant] + SchemeAfter(hc, t + 1)
    {
      var sibling := hc[k];
      if sibling.Element? {
        if sibling.name == "th" {
          var first := Dom.FirstChild(sibling);
          if first.Some? {
            var nextHeader := Markdown.ConvertToMarkdown(first.value);
            if Contains(AsciiLower(nextHeader), "description") {
              order := order + [Description];
            } else {
              order := order + [Other(nextHeader)];
            }
          } else {
            break;
          }
        } else {
          break;
        }
      }
      k := k + 1;
    }
  }

  /** The header part of `parse_inner`: skip the newline, take the header
      row, find its first `th` and build the column scheme. */
  method FindOrder(trs: seq<Node>) returns (order: Option<seq<Order>>)
    requires HeaderSafe(trs)
    ensures order == Scheme(trs)
  {
    if |trs| < 2 {
      return None;
    }
    var hc := Dom.Children(trs[1]);
    var t := Dom.FindNamed(hc, 0, "th");
    if t.None? {
      return None;
    }
    var isConstant := false;
    var first := Dom.FirstChild(hc[t.value]);
    if first.Some? {
      var header := Markdown.ConvertToMarkdown(first.value);
      isConstant := Contains(AsciiLower(header), "constant");
    }
    if !isConstant {
      return None;
    }
    var o := BuildOrder(hc, t.value);
    order := Some(o);
  }

  /** The element children of a row, in order: the cells that move the caret. */
  function Cells(tds: seq<Node>): (r: seq<Node>)
    ensures |r| <= |tds|
    ensures forall i :: 0 <= i < |r| ==> r[i].Element?
  {
    if tds == [] then []
    else
      var last := tds[|tds| - 1];
      Cells(tds[..|tds| - 1]) + (if last.Element? then [last] else [])
  }

  /** An empty descriptor map, as `get_or_insert_with(Default::default)` makes. */
  function Descriptors(d: Option<SortedMap.Entries>): SortedMap.Entries
  {
    if d.Some? then d.value else []
  }

  /** The constant a row with children `tds` fills: each cell, converted to
      Markdown, goes to the field its column names; a secondary column adds
      its header and the cell to the descriptors. */
  function Fill(order: seq<Order>, tds: seq<Node>, link: Link): (r: GmManualConstant)
    requires |Cells(tds)| <= |order|
    ensures r.link == link
    ensures r.secondaryDescriptors.Some? ==> SortedMap.Sorted(r.secondaryDescriptors.value)
  {
    if tds == [] then GmManualConstant("", "", link, None)
    else
      var prefix := tds[..|tds| - 1];
      var prev := Fill(order, prefix, link);
      var td := tds[|tds| - 1];
      if !td.Element? then prev
      else
        var data := Markdown.Flatten(td);
        match order[|Cells(prefix)|]
        case Constant => prev.(name := data)
        case Description => prev.(description := data)
        case Other(e) =>
          prev.(secondaryDescriptors := Some(SortedMap.Insert(Descriptors(prev.secondaryDescriptors), e, data)))
  }

  /** The `for td in tr.children()` loop. */
  method FillRow(order: seq<Order>, tds: seq<Node>, link: Link) returns (doc: GmManualConstant)
    requires |Cells(tds)| <= |order|
    ensures doc == Fill(order, tds, link)
  {
    doc := GmManualConstant("", "", link, None);
    var caret := 0;
    var i := 0;
    while i < |tds|
      invariant 0 <= i <= |tds|
      invariant caret == |Cells(tds[..i])| && caret <= |order|
      invariant doc == Fill(order, tds[..i], link)
    {
      assert tds[..i + 1][..i] == tds[..i] && tds[..i + 1][i] == tds[i];
      CellsOfPrefix(tds, i + 1);
      var td := tds[i];
      if td.Element? {
        var data := Markdown.ConvertToMarkdown(td);
        match order[caret] {
          case Constant =>
            doc := doc.(name := data);
          case Description =>
            doc := doc.(description := data);
          case Other(e) =>
            var inner := Descriptors(doc.secondaryDescriptors);
            doc := doc.(secondaryDescriptors := Some(SortedMap.Insert(inner, e, data)));
        }
        caret := caret + 1;
      }
      i := i + 1;
    }
    assert tds[..|tds|] == tds;
  }

  /** A prefix of a row has no more cells than the row. */
  lemma {:induction false} CellsOfPrefix(tds: seq<Node>, k: nat)
    requires k <= |tds|
    ensures |Cells(tds[..k])| <= |Cells(tds)|
    decreases |tds|
  {
    if k < |tds| {
      var prefix := tds[..|tds| - 1];
      assert tds[..k] == prefix[..k];
      CellsOfPrefix(prefix, k);
    } else {
      assert tds[..k] == tds;
    }
  }

  /** The field a name or description column writes. */
  function Field(doc: GmManualConstant, kind: Order): string
    requires !kind.Other?
  {
    if kind.Constant? then doc.name else doc.description
  }

  /** A name or description column that appears once in the scheme: the
      field holds that column's cell, or stays empty when the row is too
      short to reach it. */
  lemma {:induction false} FillUniqueColumn(order: seq<Order>, tds: seq<Node>, link: Link, c: nat)
    requires |Cells(tds)| <= |order| && c < |order| && !order[c].Other?
    requires forall j :: 0 <= j < |order| && j != c ==> order[j] != order[c]
    ensures Field(Fill(order, tds, link), order[c]) ==
              if c < |Cells(tds)| then Markdown.Flatten(Cells(tds)[c]) else ""
  {
    if tds != [] {
      var prefix := tds[..|tds| - 1];
      var td := tds[|tds| - 1];
      FillUniqueColumn(order, prefix, link, c);
      if td.Element? {
        assert Cells(tds) == Cells(prefix) + [td];
        assert Cells(tds)[|Cells(prefix)|] == td;
        if c < |Cells(prefix)| {
          assert Cells(tds)[c] == Cells(prefix)[c];
        }
      }
    }
  }

  /** A secondary column whose header appears once in the scheme: the
      descriptors hold that column's cell under its header, and nothing
      under it when the row is too short to reach it. */
  lemma {:induction false} FillUniqueDescriptor(order: seq<Order>, tds: seq<Node>, link: Link, c: nat)
    requires |Cells(tds)| <= |order| && c < |order| && order[c].Other?
    requires forall j :: 0 <= j < |order| && j != c ==> order[j] != order[c]
    ensures SortedMap.Get(Descriptors(Fill(order, tds, link).secondaryDescriptors), order[c].header) ==
              if c < |Cells(tds)| then Some(Markdown.Flatten(Cells(tds)[c])) else None
  {
    if tds != [] {
      var prefix := tds[..|tds| - 1];
      var td := tds[|tds| - 1];
      FillUniqueDescriptor(order, prefix, link, c);
      if td.Element? {
        var n := |Cells(prefix)|;
        var prev := Fill(order, prefix, link).secondaryDescriptors;
        assert Cells(tds) == Cells(prefix) + [td];
        if n == c {
          assert Cells(tds)[c] == td;
          assert Fill(order, tds, link).secondaryDescriptors ==
                 Some(SortedMap.Insert(Descriptors(prev), order[c].header, Markdown.Flatten(td)));
        } else {
          assert order[n] != order[c];
          if c < n {
            assert Cells(tds)[c] == Cells(prefix)[c];
          }
        }
      }
    }
  }

  /** `s` starts and ends with `w`. */
  predicate Wrapped(s: string, w: string)
  {
    StartsWith(s, w) && EndsWith(s, w)
  }

  /** `s` with one `w` taken off each end when it is wrapped in `w`. */
  function Unwrap(s: string, w: string): (r: string)
    requires Wrapped(s, w) ==> |s| >= 2 * |w|
    ensures Wrapped(s, w) ==> s == w + r + w
    ensures !Wrapped(s, w) ==> r == s
  {
    if Wrapped(s, w) then
      var r := s[|w|..|s| - |w|];
      assert s == s[..|w|] + r + s[|s| - |w|..];
      r
    else s
  }

  /** The name clean-up slices without a panic: a name that starts and ends
      with a backtick is at least two long, and what is left, when it starts
      and ends with `**`, is at least four long. */
  predicate NameSliceable(name: string)
  {
    (Wrapped(name, "`") ==> |name| >= 2) &&
    (Wrapped(Unwrap(name, "`"), "**") ==> |Unwrap(name, "`")| >= 4)
  }

  /** The name with its code and bold markers taken off. */
  function CleanName(name: string): string
    requires NameSliceable(name)
  {
    Unwrap(Unwrap(name, "`"), "**")
  }

  /** Taking the markers off undoes `` `**name**` ``, and leaves a name
      without markers alone. */
  lemma CleanNameUnwraps(core: string)
    ensures NameSliceable("`**" + core + "**`") && CleanName("`**" + core + "**`") == core
    ensures !StartsWith(core, "`") && !StartsWith(core, "**") ==> NameSliceable(core) && CleanName(core) == core
  {
    var s := "`**" + core + "**`";
    assert s[..1] == "`" && s[|s| - 1..] == "`";
    assert Unwrap(s, "`") == "**" + core + "**" by {
      assert s == "`" + ("**" + core + "**") + "`";
    }
    var t := "**" + core + "**";
    assert t[..2] == "**" && t[|t| - 2..] == "**";
    assert t == "**" + core + "**";
  }

  /** A constant as `parse_inner` stores it: its name does not start with a
      backslash, its descriptors, when present, are a non-empty sorted map
      with no blank key or value, and a blank description comes with no
      descriptors. */
  predicate WellFormed(c: GmManualConstant)
  {
    !StartsWith(c.name, "\\") &&
    (c.secondaryDescriptors.Some? ==>
       var d := c.secondaryDescriptors.value;
       d != [] && SortedMap.Sorted(d) &&
       forall i :: 0 <= i < |d| ==> !IsBlank(d[i].0) && !IsBlank(d[i].1)) &&
    (IsBlank(c.description) ==> c.secondaryDescriptors.None?)
  }

  /** The constant `doc` becomes after clean-up, or `None` when its name
      starts with a backslash and the row is skipped. Blank descriptors are
      dropped; a blank description is replaced by the descriptor with the
      least key, which leaves the map; an empty map becomes `None`. */
  function Cleaned(doc: GmManualConstant): (r: Option<GmManualConstant>)
    requires NameSliceable(doc.name)
    requires doc.secondaryDescriptors.Some? ==> SortedMap.Sorted(doc.secondaryDescriptors.value)
    ensures r.None? <==> StartsWith(CleanName(doc.name), "\\")
    ensures r.Some? ==> WellFormed(r.value)
    ensures r.Some? ==> r.value.name == CleanName(doc.name) && r.value.link == doc.link
    ensures r.Some? && !IsBlank(doc.description) ==> r.value.description == doc.description
    ensures r.Some? && doc.secondaryDescriptors.None? ==>
              r.value.secondaryDescriptors.None? && r.value.description == doc.description
    ensures r.Some? && doc.secondaryDescriptors.Some? && !IsBlank(doc.description) ==>
              forall k :: SortedMap.Get(Descriptors(r.value.secondaryDescriptors), k) ==
                          SortedMap.KeptValue(SortedMap.Get(doc.secondaryDescriptors.value, k), k)
    ensures r.Some? && doc.secondaryDescriptors.Some? && IsBlank(doc.description) ==>
              var f := SortedMap.FilterNonBlank(doc.secondaryDescriptors.value);
              (f == [] ==> r.value.description == doc.description && r.value.secondaryDescriptors.None?) &&
              (f != [] ==>
                 SortedMap.Get(f, f[0].0) == Some(r.value.description) &&
                 (forall k :: SortedMap.Get(f, k).Some? && k != f[0].0 ==> SortedMap.Less(f[0].0, k)) &&
                 forall k :: SortedMap.Get(Descriptors(r.value.secondaryDescriptors), k) ==
                             if k == f[0].0 then None else SortedMap.Get(f, k))
  {
    var name := CleanName(doc.name);
    if StartsWith(name, "\\") then None
    else match doc.secondaryDescriptors
      case None => Some(doc.(name := name))
      case Some(inner) =>
        var f := SortedMap.FilterNonBlank(inner);
        if IsBlank(doc.description) && f != [] then
          SortedMap.SortedTail(f);
          SortedMap.LeastKey(f);
          SortedMap.RemoveFirst(f);
          var rest := f[1..];
          Some(doc.(name := name, description := f[0].1,
                    secondaryDescriptors := if rest == [] then None else Some(rest)))
        else
          Some(doc.(name := name, secondaryDescriptors := if f == [] then None else Some(f)))
  }

  /** The clean-up statements of `parse_inner`, `None` standing for the
      `continue` that skips a name starting with a backslash. */
  method CleanUp(doc: GmManualConstant) returns (r: Option<GmManualConstant>)
    requires NameSliceable(doc.name)
    requires doc.secondaryDescriptors.Some? ==> SortedMap.Sorted(doc.secondaryDescriptors.value)
    ensures r == Cleaned(doc)
  {
    var c := doc;
    if StartsWith(c.name, "`") && EndsWith(c.name, "`") {
      c := c.(name := c.name[1..|c.name| - 1]);
    }
    if StartsWith(c.name, "**") && EndsWith(c.name, "**") {
      c := c.(name := c.name[2..|c.name| - 2]);
    }
    if StartsWith(c.name, "\\") {
      return None;
    }
    if c.secondaryDescriptors.Some? {
      var inner := SortedMap.FilterNonBlank(c.secondaryDescriptors.value);
      if IsBlank(c.description) && inner != [] {
        c := c.(description := inner[0].1);
        inner := inner[1..];
      }
      if inner == [] {
        c := c.(secondaryDescriptors := None);
      } else {
        c := c.(secondaryDescriptors := Some(inner));
      }
    }
    r := Some(c);
  }

  /** Every element row can be filled and its name cleaned up. */
  predicate RowsSafe(order: seq<Order>, rows: seq<Node>, link: Link)
  {
    forall i :: 0 <= i < |rows| ==> RowSafe(order, rows[i], link)
  }

  /** An element row has no more cells than the scheme has columns, and its
      name can be cleaned up. */
  predicate RowSafe(order: seq<Order>, tr: Node, link: Link)
  {
    tr.Element? ==> |Cells(tr.children)| <= |order| && NameSliceable(Fill(order, tr.children, link).name)
  }

  /** The rows before `k` are as safe as all of them. */
  lemma RowsSafePrefix(order: seq<Order>, rows: seq<Node>, k: nat, link: Link)
    requires RowsSafe(order, rows, link) && k <= |rows|
    ensures RowsSafe(order, rows[..k], link)
  {
    forall i | 0 <= i < k ensures RowSafe(order, rows[..k][i], link) {
      assert rows[..k][i] == rows[i];
    }
  }

  /** The map after the rows: each element row that survives clean-up is
      inserted under its cleaned name, later rows replacing earlier ones. */
  function RowsInto(order: seq<Order>, rows: seq<Node>, link: Link, constants: map<string, GmManualConstant>):
    (r: map<string, GmManualConstant>)
    requires RowsSafe(order, rows, link)
  {
    if rows == [] then constants
    else
      var prefix := rows[..|rows| - 1];
      RowsSafePrefix(order, rows, |rows| - 1, link);
      AddRow(order, rows[|rows| - 1], link, RowsInto(order, prefix, link, constants))
  }

  /** One row read into the map as the source writes it: an element row
      that survives the clean-up is inserted under its cleaned name, even
      when that name is empty. */
  function AddRowAsWritten(order: seq<Order>, tr: Node, link: Link, m: map<string, GmManualConstant>):
    map<string, GmManualConstant>
    requires RowSafe(order, tr, link)
  {
    if !tr.Element? then m
    else match Cleaned(Fill(order, tr.children, link))
      case None => m
      case Some(c) => m[c.name := c]
  }

  /** One row read into the map, keeping the record's promise that a
      constant's name is never empty: an element row that survives the
      clean-up with a non-empty name is inserted under that name; any other
      row changes nothing. */
  function AddRow(order: seq<Order>, tr: Node, link: Link, m: map<string, GmManualConstant>):
    (r: map<string, GmManualConstant>)
    requires RowSafe(order, tr, link)
    ensures "" in r <==> "" in m
    ensures "" in m ==> r[""] == m[""]
  {
    if !tr.Element? then m
    else match Cleaned(Fill(order, tr.children, link))
      case None => m
      case Some(c) => if c.name == [] then m else m[c.name := c]
  }

  /** The two readings of a row differ only on a row whose cleaned name is
      empty, which the source stores under `""` and the model skips. */
  lemma AddRowAgrees(order: seq<Order>, tr: Node, link: Link, m: map<string, GmManualConstant>)
    requires RowSafe(order, tr, link)
    ensures !(tr.Element? && Cleaned(Fill(order, tr.children, link)).Some? &&
              Cleaned(Fill(order, tr.children, link)).value.name == []) ==>
            AddRow(order, tr, link, m) == AddRowAsWritten(order, tr, link, m)
    ensures tr.Element? && Cleaned(Fill(order, tr.children, link)).Some? &&
            Cleaned(Fill(order, tr.children, link)).value.name == [] ==>
            AddRow(order, tr, link, m) == m &&
            AddRowAsWritten(order, tr, link, m) == m["" := Cleaned(Fill(order, tr.children, link)).value]
  {
  }

  /** A row with an empty first cell under the scheme "Constant",
      "Description" is stored by the source under the empty name, although
      the name is the one field of a constant promised to be non-empty; the
      model's reading skips it. */
  lemma EmptyNameStored(link: Link)
    ensures var tr := Dom.Element("tr", map[], [Dom.Element("td", map[], []),
                                                Dom.Element("td", map[], [Dom.Text("d")])]);
            RowSafe([Constant, Description], tr, link) &&
            AddRowAsWritten([Constant, Description], tr, link, map[]) ==
              map["" := GmManualConstant("", "d", link, None)] &&
            AddRow([Constant, Description], tr, link, map[]) == map[]
  {
    var row := [Dom.Element("td", map[], []), Dom.Element("td", map[], [Dom.Text("d")])];
    EmptyFirstCellFill(link);
    var doc := Fill([Constant, Description], row, link);
    assert Unwrap("", "`") == "" && Unwrap("", "**") == "";
    assert Cleaned(doc) == Some(doc);
  }

  /** The row of an empty cell and a cell "d" fills to the name "" and the
      description "d". */
  lemma EmptyFirstCellFill(link: Link)
    ensures var row := [Dom.Element("td", map[], []), Dom.Element("td", map[], [Dom.Text("d")])];
            |Cells(row)| == 2 && Fill([Constant, Description], row, link) == GmManualConstant("", "d", link, None)
  {
    var a := Dom.Element("td", map[], []);
    var b := Dom.Element("td", map[], [Dom.Text("d")]);
    var row := [a, b];
    assert row[..|row| - 1] == [a] && row[|row| - 1] == b;
    Markdown.FallbackOnlyForHyperlinkAlt("td", map[], []);
    Markdown.PlainTreeYieldsText(b);
    assert Markdown.ChildrenText(b, 1) == Markdown.ChildrenText(b, 0) + "d";
    assert Markdown.Flatten(a) == "" && Markdown.Flatten(b) == "d";
    assert Cells([a]) == [a] && Cells([]) == [];
    var one := [a];
    assert one[..|one| - 1] == [] && one[|one| - 1] == a;
    var first := Fill([Constant, Description], one, link);
    assert first == Fill([Constant, Description], [], link).(name := Markdown.Flatten(a));
    assert first == GmManualConstant("", "", link, None);
    assert Fill([Constant, Description], row, link) == first.(description := Markdown.Flatten(b));
  }

  /** A first cell of two backticks cleans to the empty name as well. */
  lemma BackticksOnlyNameEmpty()
    ensures NameSliceable("``") && CleanName("``") == ""
  {
    assert Wrapped("``", "`");
    assert Unwrap("``", "`") == "";
    assert !Wrapped("", "**");
  }

  /** What `parse_inner` demands of a table: a second child (the table
      body), and a header and rows it can read without a panic. */
  predicate TableSafe(table: Node, link: Link)
  {
    |Dom.Children(table)| >= 2 &&
    var trs := Dom.Children(Dom.Children(table)[1]);
    HeaderSafe(trs) && (Scheme(trs).Some? ==> RowsSafe(Scheme(trs).value, trs[2..], link))
  }

  /** The map of constants after `parse_inner` reads `table`: unchanged when
      the table is not a table of constants, otherwise with the table's rows
      inserted. */
  function Inner(table: Node, link: Link, constants: map<string, GmManualConstant>): map<string, GmManualConstant>
    requires TableSafe(table, link)
  {
    var trs := Dom.Children(Dom.Children(table)[1]);
    match Scheme(trs)
    case None => constants
    case Some(order) => RowsInto(order, trs[2..], link, constants)
  }

  /** `parse_inner`: updates the map of constants with the rows of one table. */
  method ParseInner(table: Node, link: Link, constants: map<string, GmManualConstant>)
    returns (result: map<string, GmManualConstant>)
    requires TableSafe(table, link)
    ensures result == Inner(table, link, constants)
  {
    var tableBody := Dom.Children(table)[1];
    var trs := Dom.Children(tableBody);
    var order := FindOrder(trs);
    result := constants;
    if order.None? {
      return;
    }
    result := ReadRows(order.value, trs[2..], link, constants);
  }

  /** The `for tr in trs.skip(2)` loop of `parse_inner`. */
  method ReadRows(order: seq<Order>, rows: seq<Node>, link: Link, constants: map<string, GmManualConstant>)
    returns (result: map<string, GmManualConstant>)
    requires RowsSafe(order, rows, link)
    ensures result == RowsInto(order, rows, link, constants)
  {
    result := constants;
    var k := 0;
    while k < |rows|
      invariant 0 <= k <= |rows|
      invariant result == RowsInto(order, rows[..k], link, constants)
    {
      RowsIntoStep(order, rows, k, link, constants);
      result := InsertRow(order, rows[k], link, result);
      k := k + 1;
    }
    assert rows[..|rows|] == rows;
  }

  /** The loop body: fills an element row, cleans it up and inserts it. */
  method InsertRow(order: seq<Order>, tr: Node, link: Link, m: map<string, GmManualConstant>)
    returns (result: map<string, GmManualConstant>)
    requires RowSafe(order, tr, link)
    ensures result == AddRow(order, tr, link, m)
  {
    result := m;
    if tr.Element? {
      var doc := FillRow(order, tr.children, link);
      var cleaned := CleanUp(doc);
      if cleaned.Some? && cleaned.value.name != [] {
        result := result[cleaned.value.name := cleaned.value];
      }
    }
  }

  /** One more row: the map after `k + 1` rows from the map after `k`. */
  lemma RowsIntoStep(order: seq<Order>, rows: seq<Node>, k: nat, link: Link,
                     constants: map<string, GmManualConstant>)
    requires RowsSafe(order, rows, link) && k < |rows|
    ensures RowsSafe(order, rows[..k], link) && RowsSafe(order, rows[..k + 1], link)
    ensures RowSafe(order, rows[k], link)
    ensures RowsInto(order, rows[..k + 1], link, constants) ==
              AddRow(order, rows[k], link, RowsInto(order, rows[..k], link, constants))
  {
    RowsSafePrefix(order, rows, k, link);
    RowsSafePrefix(order, rows, k + 1, link);
    assert rows[..k + 1][..k] == rows[..k] && rows[..k + 1][k] == rows[k];
  }

  /** The map holds well-formed constants, each under its own name, and no
      name is empty. */
  predicate Consistent(constants: map<string, GmManualConstant>)
  {
    forall k :: k in constants ==> constants[k].name == k && k != [] && WellFormed(constants[k])
  }

  /** Reading rows keeps the map consistent, only adds keys, and every entry
      it writes carries the table's link. */
  lemma {:induction false} RowsIntoKeeps(order: seq<Order>, rows: seq<Node>, link: Link,
                                         constants: map<string, GmManualConstant>)
    requires RowsSafe(order, rows, link)
    ensures Consistent(constants) ==> Consistent(RowsInto(order, rows, link, constants))
    ensures constants.Keys <= RowsInto(order, rows, link, constants).Keys
    ensures forall k :: k in RowsInto(order, rows, link, constants) ==>
              (k in constants && RowsInto(order, rows, link, constants)[k] == constants[k])
              || RowsInto(order, rows, link, constants)[k].link == link
  {
    if rows != [] {
      var prefix := rows[..|rows| - 1];
      RowsSafePrefix(order, rows, |rows| - 1, link);
      RowsIntoKeeps(order, prefix, link, constants);
    }
  }

  /** `parse_inner` keeps the map consistent and only adds keys; entries it
      does not write keep their value. */
  lemma InnerKeeps(table: Node, link: Link, constants: map<string, GmManualConstant>)
    requires TableSafe(table, link)
    ensures Consistent(constants) ==> Consistent(Inner(table, link, constants))
    ensures constants.Keys <= Inner(table, link, constants).Keys
    ensures forall k :: k in Inner(table, link, constants) ==>
              (k in constants && Inner(table, link, constants)[k] == constants[k])
              || Inner(table, link, constants)[k].link == link
  {
    var trs := Dom.Children(Dom.Children(table)[1]);
    if Scheme(trs).Some? {
      RowsIntoKeeps(Scheme(trs).value, trs[2..], link, constants);
    }
  }

  /** In a table of constants a row's name is its first cell: the scheme
      holds the name column first and only there. */
  lemma NameIsFirstCell(trs: seq<Node>, tds: seq<Node>, link: Link)
    requires HeaderSafe(trs) && Scheme(trs).Some?
    requires |Cells(tds)| <= |Scheme(trs).value|
    ensures Fill(Scheme(trs).value, tds, link).name ==
              if Cells(tds) == [] then "" else Markdown.Flatten(Cells(tds)[0])
  {
    FillUniqueColumn(Scheme(trs).value, tds, link, 0);
  }

  /** Every table of the page can be read without a panic. */
  predicate TablesSafe(tables: seq<Node>, link: Link)
  {
    forall i :: 0 <= i < |tables| ==> TableSafe(tables[i], link)
  }

  /** The tables before `k` are as safe as all of them. */
  lemma TablesSafePrefix(tables: seq<Node>, k: nat, link: Link)
    requires TablesSafe(tables, link) && k <= |tables|
    ensures TablesSafe(tables[..k], link)
  {
    forall i | 0 <= i < k ensures TableSafe(tables[..k][i], link) {
      assert tables[..k][i] == tables[i];
    }
  }

  /** The map after `parse_inner` has read each of `tables` in turn. */
  function AllTables(tables: seq<Node>, link: Link, constants: map<string, GmManualConstant>):
    map<string, GmManualConstant>
    requires TablesSafe(tables, link)
  {
    if tables == [] then constants
    else
      TablesSafePrefix(tables, |tables| - 1, link);
      Inner(tables[|tables| - 1], link, AllTables(tables[..|tables| - 1], link, constants))
  }

  /** The `for table in doc.select(...)` loop of `parse_constant`, on the
      tables of one page, whose link every table shares. */
  method ParseConstant(tables: seq<Node>, link: Link, constants: map<string, GmManualConstant>)
    returns (result: map<string, GmManualConstant>)
    requires TablesSafe(tables, link)
    ensures result == AllTables(tables, link, constants)
  {
    result := constants;
    for i := 0 to |tables|
      invariant result == AllTables(tables[..i], link, constants)
    {
      AllTablesStep(tables, i, link, constants);
      result := ParseInner(tables[i], link, result);
    }
    assert tables[..|tables|] == tables;
  }

  /** One more table: the map after `i + 1` tables from the map after `i`. */
  lemma AllTablesStep(tables: seq<Node>, i: nat, link: Link, constants: map<string, GmManualConstant>)
    requires i < |tables| && TablesSafe(tables, link)
    ensures TablesSafe(tables[..i], link) && TablesSafe(tables[..i + 1], link)
    ensures TableSafe(tables[i], link)
    ensures AllTables(tables[..i + 1], link, constants) == Inner(tables[i], link, AllTables(tables[..i], link, constants))
  {
    TablesSafePrefix(tables, i, link);
    TablesSafePrefix(tables, i + 1, link);
    var pre := tables[..i + 1];
    assert pre[..|pre| - 1] == tables[..i];
    assert pre[|pre| - 1] == tables[i];
  }

  /** Reading a page's tables keeps the map consistent, only adds keys, and
      every entry written carries the page's link. */
  lemma {:induction false} AllTablesKeep(tables: seq<Node>, link: Link, constants: map<string, GmManualConstant>)
    requires TablesSafe(tables, link)
    ensures Consistent(constants) ==> Consistent(AllTables(tables, link, constants))
    ensures constants.Keys <= AllTables(tables, link, constants).Keys
    ensures forall k :: k in AllTables(tables, link, constants) ==>
              (k in constants && AllTables(tables, link, constants)[k] == constants[k])
              || AllTables(tables, link, constants)[k].link == link
  {
    if tables != [] {
      var prefix := tables[..|tables| - 1];
      TablesSafePrefix(tables, |tables| - 1, link);
      AllTablesKeep(prefix, link, constants);
      InnerKeeps(tables[|tables| - 1], link, AllTables(prefix, link, constants));
    }
  }

  /** A name in backticks loses them and nothing else; a row without
      secondary columns keeps its description. */
  lemma BacktickNameCleaned(core: string, description: string, link: Link)
    requires !Wrapped(core, "**") && !StartsWith(core, "\\")
    ensures NameSliceable("`" + core + "`")
    ensures Cleaned(GmManualConstant("`" + core + "`", description, link, None)) ==
              Some(GmManualConstant(core, description, link, None))
  {
    var s := "`" + core + "`";
    assert s[..1] == "`" && s[|s| - 1..] == "`";
    assert s[1..|s| - 1] == core;
  }

  /** Under the scheme "Constant", "Description", a row of two plain cells,
      a name in backticks and a description, records the bare name with that
      description and no secondary columns. */
  lemma TwoColumnRow(core: string, description: string, link: Link)
    requires !Wrapped(core, "**") && !StartsWith(core, "\\")
    ensures var row := [Dom.Element("td", map[], [Dom.Text("`" + core + "`")]),
                        Dom.Element("td", map[], [Dom.Text(description)])];
            |Cells(row)| == 2 &&
            var doc := Fill([Constant, Description], row, link);
            NameSliceable(doc.name) &&
            Cleaned(doc) == Some(GmManualConstant(core, description, link, None))
  {
    var name := "`" + core + "`";
    var a := Dom.Element("td", map[], [Dom.Text(name)]);
    var b := Dom.Element("td", map[], [Dom.Text(description)]);
    var row := [a, b];
    assert row[..|row| - 1] == [a] && row[|row| - 1] == b;
    Markdown.PlainTreeYieldsText(a);
    Markdown.PlainTreeYieldsText(b);
    assert Markdown.ChildrenText(a, 1) == Markdown.ChildrenText(a, 0) + name;
    assert Markdown.ChildrenText(b, 1) == Markdown.ChildrenText(b, 0) + description;
    assert Markdown.Flatten(a) == name;
    assert Markdown.Flatten(b) == description;
    assert Cells([a]) == [a] && Cells([]) == [];
    var one := [a];
    assert one[..|one| - 1] == [] && one[|one| - 1] == a;
    var first := Fill([Constant, Description], one, link);
    assert first == Fill([Constant, Description], [], link).(name := Markdown.Flatten(a));
    assert first == GmManualConstant(name, "", link, None);
    assert Fill([Constant, Description], row, link) == first.(description := description);
    BacktickNameCleaned(core, description, link);
  }

  /** The constant of a table headed "Constant" and "Description" with the
      row `` `c_red` `` and "the color red". */
  lemma RedConstant(link: Link)
    ensures var row := [Dom.Element("td", map[], [Dom.Text("`c_red`")]),
                        Dom.Element("td", map[], [Dom.Text("the color red")])];
            |Cells(row)| == 2 &&
            var doc := Fill([Constant, Description], row, link);
            NameSliceable(doc.name) &&
            Cleaned(doc) == Some(GmManualConstant("c_red", "the color red", link, None))
  {
    var core := "c_red";
    assert core[..1] == "c" && core[..2] == "c_";
    assert "`" + core + "`" == "`c_red`";
    TwoColumnRow(core, "the color red", link);
  }
}
