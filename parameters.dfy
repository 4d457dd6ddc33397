/**
 * The table pass of `parse_parameters` in `src/parse_file.rs`: it reads one
 * parameter per data row of the table body, widens the guess vector of the
 * signature to cover every row, upgrades a position to optional when its row
 * says "optional", and ORs the row-level variadic hint into the flag.
 *
 * `Reconcile` states the outcome in closed form; `ReconcileRows` is the
 * in-place loop, proved to compute it.
 */
module Parameters {
  import opened Wrappers
  import opened Strings
  import opened Dom
  import opened Manual
  import opened FileMarkdown

  /** The `Data` enum: a function's parameter data, or a variable. */
  datatype Data =
    | Function(parameters: seq<GmManualFunctionParameter>, requiredParameters: nat, isVariadic: bool)
    | Variable

  /** A row that the pass reads: an element whose children are all `td`
      elements or text (the newlines between cells). */
  predicate IsDataRow(tr: Node)
  {
    tr.Element? &&
    forall i :: 0 <= i < |tr.children| ==> IsElementNamed(tr.children[i], "td") || tr.children[i].Text?
  }

  /** The parameter a data row yields: its second and fourth children are the
      name and description cells; a row with fewer than four children makes
      the whole pass fail. */
  function RowParameter(tr: Node): Option<GmManualFunctionParameter>
    requires IsDataRow(tr)
  {
    if |tr.children| < 4 then None
    else Some(GmManualFunctionParameter(FileFlatten(tr.children[1]), FileFlatten(tr.children[3])))
  }

  /** "optional" or "Optional" in either cell. */
  predicate IsOptional(p: GmManualFunctionParameter)
  {
    Contains(p.parameter, "optional") || Contains(p.parameter, "Optional")
    || Contains(p.description, "optional") || Contains(p.description, "Optional")
  }

  /** `..` in either cell. */
  predicate IsVariadicRow(p: GmManualFunctionParameter)
  {
    Contains(p.parameter, "..") || Contains(p.description, "..")
  }

  predicate AnyVariadicRow(ps: seq<GmManualFunctionParameter>)
  {
    exists i :: 0 <= i < |ps| && IsVariadicRow(ps[i])
  }

  /** The parameters of the data rows, in order, or `None` when a data row
      lacks its cells. */
  function DataParameters(rows: seq<Node>): Option<seq<GmManualFunctionParameter>>
  {
    if rows == [] then Some([])
    else
      var tr := rows[|rows| - 1];
      match DataParameters(rows[..|rows| - 1])
      case None => None
      case Some(ps) =>
        if !IsDataRow(tr) then Some(ps)
        else match RowParameter(tr)
          case None => None
          case Some(p) => Some(ps + [p])
  }

  /** The guesses after the pass: as long as the longer of the signature's
      guesses and the rows, and true where either the signature or the row
      says optional. */
  function Upgrade(guesses: seq<bool>, ps: seq<GmManualFunctionParameter>): (r: seq<bool>)
    ensures |r| == if |guesses| >= |ps| then |guesses| else |ps|
  {
    var n := if |guesses| >= |ps| then |guesses| else |ps|;
    seq(n, i requires 0 <= i < n => (i < |guesses| && guesses[i]) || (i < |ps| && IsOptional(ps[i])))
  }

  /** The number of required parameters: the position of the first optional
      guess among the parameters, or all of them when none is optional. */
  function RequiredParameters(guesses: seq<bool>, n: nat): (r: nat)
    ensures r <= n
    ensures forall i :: 0 <= i < r && i < |guesses| ==> !guesses[i]
    ensures r < n ==> r < |guesses| && guesses[r]
  {
    if n == 0 then 0
    else if guesses == [] then n
    else if guesses[0] then 0
    else 1 + RequiredParameters(guesses[1..], n - 1)
  }

  /** The first true guess, as `iter().position(|v| *v)`. */
  function FirstTrue(guesses: seq<bool>): (r: Option<nat>)
    ensures r.None? <==> true !in guesses
    ensures r.Some? ==> r.value < |guesses| && guesses[r.value] && true !in guesses[..r.value]
  {
    if guesses == [] then None
    else if guesses[0] then Some(0)
    else
      match FirstTrue(guesses[1..])
      case None => None
      case Some(i) =>
        assert guesses[..i + 1] == [guesses[0]] + guesses[1..][..i];
        Some(i + 1)
  }

  /** `required_parameters` as the source computes it:
      `position(|v| *v).unwrap_or_default()`, which is 0 when no guess is true. */
  function RequiredAsWritten(guesses: seq<bool>): nat
  {
    match FirstTrue(guesses)
    case None => 0
    case Some(i) => i
  }

  /** The two agree whenever one of the parameters is optional. */
  lemma {:induction false} RequiredAgreesWhenSomeOptional(guesses: seq<bool>, n: nat)
    requires exists i :: 0 <= i < n && i < |guesses| && guesses[i]
    ensures RequiredAsWritten(guesses) == RequiredParameters(guesses, n)
  {
    var i :| 0 <= i < n && i < |guesses| && guesses[i];
    var r := RequiredParameters(guesses, n);
    assert r < n;
    assert guesses[..r] == guesses[..r];
    forall j | 0 <= j < r ensures guesses[j] != true { }
    assert true !in guesses[..r];
    assert FirstTrue(guesses).Some?;
  }

  /** With two mandatory parameters the source reports 0 required ones, where
      2 are meant. */
  lemma RequiredAsWrittenMiscounts()
    ensures RequiredAsWritten([false, false]) == 0
    ensures RequiredParameters([false, false], 2) == 2
  {
    assert [false, false][1..] == [false];
  }

  /** With four guesses and two rows, where only the fourth guess is
      optional, the source reports 3 required parameters out of 2. */
  lemma RequiredAsWrittenOvercounts()
    ensures RequiredAsWritten([false, false, false, true]) == 3
    ensures RequiredParameters([false, false, false, true], 2) == 2
  {
    assert [false, false, false, true][1..] == [false, false, true];
    assert [false, false, true][1..] == [false, true];
    assert [false, true][1..] == [true];
  }

  /** When no guess among the first `n` is optional, all `n` parameters are
      required, while the source reports 0 or a position past the last
      parameter. */
  lemma {:induction false} RequiredWhenNoneOptional(guesses: seq<bool>, n: nat)
    requires forall i :: 0 <= i < n && i < |guesses| ==> !guesses[i]
    ensures RequiredParameters(guesses, n) == n
    ensures RequiredAsWritten(guesses) == 0 || RequiredAsWritten(guesses) >= n
  {
    if n > 0 && guesses != [] {
      RequiredWhenNoneOptional(guesses[1..], n - 1);
    }
  }

  /** What the pass returns. */
  function Reconcile(rows: seq<Node>, guesses: seq<bool>, variadic: bool): Option<Data>
  {
    match DataParameters(rows)
    case None => None
    case Some(ps) =>
      Some(Function(ps, RequiredParameters(Upgrade(guesses, ps), |ps|), variadic || AnyVariadicRow(ps)))
  }

  /** The loop over the rows of the table body. */
  method ReconcileRows(rows: seq<Node>, guesses0: seq<bool>, variadic0: bool) returns (r: Option<Data>)
    ensures r == Reconcile(rows, guesses0, variadic0)
  {
    var parameters: seq<GmManualFunctionParameter> := [];
    var guesses := guesses0;
    var variadic := variadic0;
    var k := 0;
    assert rows[..0] == [];
    while k < |rows|
      invariant 0 <= k <= |rows|
      invariant DataParameters(rows[..k]) == Some(parameters)
      invariant guesses == Upgrade(guesses0, parameters)
      invariant variadic == (variadic0 || AnyVariadicRow(parameters))
    {
      var tr := rows[k];
      DataParametersStep(rows, k);
      if tr.Element? {
        var isTableData := forall i :: 0 <= i < |tr.children| ==>
                             IsElementNamed(tr.children[i], "td") || tr.children[i].Text?;
        if isTableData {
          var row := ReadRow(tr);
          if row.None? {
            DataParametersStuck(rows, k + 1);
            return None;
          }
          var p := row.value;
          var isOptional := Contains(p.parameter, "optional") || Contains(p.parameter, "Optional")
                            || Contains(p.description, "optional") || Contains(p.description, "Optional");
          var isVariadic := Contains(p.parameter, "..") || Contains(p.description, "..");
          if isVariadic && !variadic {
            variadic := true;
          }
          if |guesses| <= |parameters| {
            guesses := guesses + [false];
          }
          if !guesses[|parameters|] && isOptional {
            guesses := guesses[|parameters| := isOptional];
          }
          UpgradeStep(guesses0, parameters, p);
          AnyVariadicStep(parameters, p);
          parameters := parameters + [p];
        }
      }
      k := k + 1;
    }
    assert rows[..k] == rows;
    r := Some(Function(parameters, RequiredParameters(guesses, |parameters|), variadic));
  }

  /** The cells of one data row: the flattened second and fourth children. */
  method ReadRow(tr: Node) returns (p: Option<GmManualFunctionParameter>)
    requires IsDataRow(tr)
    ensures p == RowParameter(tr)
  {
    if |tr.children| < 2 {
      return None;
    }
    var parameter := FlattenElementIntoMarkdown(tr.children[1], "");
    if |tr.children| < 4 {
      return None;
    }
    var description := FlattenElementIntoMarkdown(tr.children[3], "");
    assert parameter == FileFlatten(tr.children[1]) && description == FileFlatten(tr.children[3]);
    p := Some(GmManualFunctionParameter(parameter, description));
  }

  /** One more row: the parameters after `k + 1` rows from those after `k`. */
  lemma DataParametersStep(rows: seq<Node>, k: nat)
    requires k < |rows|
    ensures DataParameters(rows[..k + 1]) ==
              match DataParameters(rows[..k])
              case None => None
              case Some(ps) =>
                if !IsDataRow(rows[k]) then Some(ps)
                else match RowParameter(rows[k])
                  case None => None
                  case Some(p) => Some(ps + [p])
  {
    assert rows[..k + 1][..k] == rows[..k] && rows[..k + 1][k] == rows[k];
  }

  /** Once a data row lacks its cells, the whole pass fails. */
  lemma {:induction false} DataParametersStuck(rows: seq<Node>, k: nat)
    requires k <= |rows| && DataParameters(rows[..k]).None?
    ensures DataParameters(rows).None?
    decreases |rows|
  {
    if |rows| == k {
      assert rows[..k] == rows;
    } else {
      var pre := rows[..|rows| - 1];
      assert pre[..k] == rows[..k];
      DataParametersStuck(pre, k);
    }
  }

  /** One more parameter widens or upgrades exactly its own position. */
  lemma UpgradeStep(guesses0: seq<bool>, ps: seq<GmManualFunctionParameter>, p: GmManualFunctionParameter)
    ensures var g := Upgrade(guesses0, ps);
            var g' := if |g| <= |ps| then g + [false] else g;
            Upgrade(guesses0, ps + [p]) == if !g'[|ps|] && IsOptional(p) then g'[|ps| := true] else g'
  {
    var g := Upgrade(guesses0, ps);
    var g' := if |g| <= |ps| then g + [false] else g;
    var ext := ps + [p];
    assert forall i :: 0 <= i < |ps| ==> ext[i] == ps[i];
    assert ext[|ps|] == p;
  }

  lemma AnyVariadicStep(ps: seq<GmManualFunctionParameter>, p: GmManualFunctionParameter)
    ensures AnyVariadicRow(ps + [p]) == (AnyVariadicRow(ps) || IsVariadicRow(p))
  {
    var ext := ps + [p];
    if AnyVariadicRow(ps) {
      var i :| 0 <= i < |ps| && IsVariadicRow(ps[i]);
      assert ext[i] == ps[i];
    }
    if AnyVariadicRow(ext) {
      var i :| 0 <= i < |ext| && IsVariadicRow(ext[i]);
      if i < |ps| { assert ext[i] == ps[i]; }
    }
    assert ext[|ps|] == p;
  }

  /** The pass never turns an optional guess back into a required one, covers
      every row, and marks every row that says "optional". */
  lemma UpgradeMonotone(guesses: seq<bool>, ps: seq<GmManualFunctionParameter>)
    ensures |Upgrade(guesses, ps)| >= |guesses| && |Upgrade(guesses, ps)| >= |ps|
    ensures forall i :: 0 <= i < |guesses| && guesses[i] ==> Upgrade(guesses, ps)[i]
    ensures forall i :: 0 <= i < |ps| && IsOptional(ps[i]) ==> Upgrade(guesses, ps)[i]
    ensures forall i :: 0 <= i < |Upgrade(guesses, ps)| && Upgrade(guesses, ps)[i] ==>
              (i < |guesses| && guesses[i]) || (i < |ps| && IsOptional(ps[i]))
  {
  }

  /** A function record from the pass has a consistent arity: the required
      ones come first, none of them is optional, and the count is at most the
      number of parameters. The variadic flag of the signature survives. */
  lemma ReconcileArity(rows: seq<Node>, guesses: seq<bool>, variadic: bool)
    requires Reconcile(rows, guesses, variadic).Some?
    ensures var d := Reconcile(rows, guesses, variadic).value;
            var g := Upgrade(guesses, d.parameters);
            d.Function? && d.requiredParameters <= |d.parameters| &&
            (forall i :: 0 <= i < d.requiredParameters ==> !g[i] && !IsOptional(d.parameters[i])) &&
            (d.requiredParameters < |d.parameters| ==> g[d.requiredParameters]) &&
            (variadic ==> d.isVariadic)
  {
    var d := Reconcile(rows, guesses, variadic).value;
    UpgradeMonotone(guesses, d.parameters);
  }
}
