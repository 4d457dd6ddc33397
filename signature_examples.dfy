/**
 * The signature vectors of the unit test at `src/parse_file.rs:475-523`,
 * each stated on `Parsed` of the test string. The string is written as three
 * literals (the name with its `(`, the parameter list, and the `)` with what
 * follows it) so that the verifier need not take one long literal apart.
 * `Vector` reduces such a string to the comma pieces of its parameter list
 * and trims each piece; the `...Guesses` lemmas read the guesses off the
 * tokens. The short forms `f()` and `f(x)` read no parameter at all.
 */
module SignatureExamples {
  import opened Wrappers
  import opened Strings
  import opened Signature

  /** Reduces a concrete signature `name(inner)rest` to the comma pieces
      `parts` of `inner`. */
  lemma ParsedFromParts(sig: string, name: string, inner: string, rest: string, parts: seq<string>)
    requires sig == name + "(" + inner + ")" + rest
    requires '(' !in name && ')' !in name && ')' !in inner
    requires |inner| >= 2
    requires |parts| >= 1 && forall i :: 0 <= i < |parts| ==> ',' !in parts[i]
    requires inner == JoinWith(parts, ',')
    ensures SignatureSafe(sig)
    ensures Parsed(sig) == SigResult(Scan(Tokens(parts)), AnyEllipsis(Tokens(parts)), true)
  {
    Parentheses(sig, name, inner, rest);
    JoinSplit(parts, ',');
    ScanIsGuesses(Tokens(parts));
  }

  /** In `name(inner)rest` the first `(` and `)` enclose `inner`. */
  lemma Parentheses(sig: string, name: string, inner: string, rest: string)
    requires sig == name + "(" + inner + ")" + rest
    requires '(' !in name && ')' !in name && ')' !in inner
    ensures FindChar(sig, '(') == Some(|name|) && FindChar(sig, ')') == Some(|name| + 1 + |inner|)
    ensures SignatureSafe(sig) && Inner(sig) == inner
  {
    var s, e := |name|, |name| + 1 + |inner|;
    assert sig[..s] == name && sig[s] == '(';
    assert sig[..e] == name + "(" + inner && sig[e] == ')';
    FindCharAt(sig, '(', s);
    FindCharAt(sig, ')', e);
  }

  /** A token without a dot contains no `..`. */
  lemma NoDots(t: string)
    requires '.' !in t
    ensures !Contains(t, "..")
  {
    forall i | 0 <= i <= |t| - 2 ensures !OccursAt(t, "..", i) {
      assert t[i..i + 2][0] == t[i];
    }
  }

  /** A token with `..` at position `i`. */
  lemma DotsAt(t: string, i: nat)
    requires i + 1 < |t| && t[i] == '.' && t[i + 1] == '.'
    ensures Contains(t, "..")
  {
    assert t[i..i + 2] == "..";
    assert OccursAt(t, "..", i);
  }

  /** `f()`: a call with an empty parameter list reads no parameter. */
  lemma EmptyParameterList(sig: string, name: string, rest: string)
    requires sig == name + "()" + rest && '(' !in name && ')' !in name
    ensures SignatureSafe(sig) && Parsed(sig) == SigResult([], false, true)
  {
    Parentheses(sig, name, [], rest);
  }

  /** `f(x)`: a single one-byte parameter is not read either, since the
      parentheses are only two bytes apart. */
  lemma OneByteParameter(sig: string, name: string, x: char, rest: string)
    requires sig == name + "(" + [x] + ")" + rest && '(' !in name && ')' !in name
    requires x != ')' && x as int < 0x80
    ensures SignatureSafe(sig) && Parsed(sig) == SigResult([], false, true)
  {
    Parentheses(sig, name, [x], rest);
    assert Utf8Len([x]) == 1 by {
      assert [x][1..] == [];
    }
  }

  /** A token is a leading-bracket token when its first character is `[`. */
  lemma LeadingBracket(t: string)
    ensures StartsWith(t, "[") <==> |t| > 0 && t[0] == '['
  {
    if |t| > 0 && t[0] == '[' {
      assert t[..1] == "[";
    }
  }

  /** A bracket opened at `j` and not closed covers the tokens after it up
      to the next `]`. */
  lemma OpenedAt(toks: seq<string>, j: nat, i: nat)
    requires j < i <= |toks| && '[' in toks[j] && ']' !in toks[j]
    requires forall k :: j < k < i ==> ']' !in toks[k]
    ensures OpenBefore(toks, i)
  {
  }

  /** No bracket is open before `i` when none was opened. */
  lemma NoneOpened(toks: seq<string>, i: nat)
    requires i <= |toks| && forall k :: 0 <= k < i ==> '[' !in toks[k]
    ensures !OpenBefore(toks, i)
  {
  }

  /** The tokens of `instance_destroy`: the leading bracket covers both. */
  lemma InstanceDestroyGuesses()
    ensures var toks := ["[id", "execute_event_flag]"];
            Guesses(toks) == [true, true] && !AnyEllipsis(toks)
  {
    var toks := ["[id", "execute_event_flag]"];
    assert '[' in toks[0] && ']' !in toks[0] && toks[0][0] == '[';
    LeadingBracket(toks[0]);
    OpenedAt(toks, 0, 1);
    forall i | 0 <= i < |toks| ensures !Contains(toks[i], "..") {
      assert '.' !in toks[i];
      NoDots(toks[i]);
    }
  }

  /** The tokens of `shader_set_uniform_f`: the bracket opened in the second
      token covers the next three. */
  lemma ShaderSetUniformFGuesses()
    ensures var toks := ["handle", "value1 [", "value2", "value3", "value4]"];
            Guesses(toks) == [false, false, true, true, true] && !AnyEllipsis(toks)
  {
    var toks := ["handle", "value1 [", "value2", "value3", "value4]"];
    assert '[' !in toks[0] && toks[1][0] != '[' && '[' in toks[1] && ']' !in toks[1];
    assert ']' !in toks[2] && ']' !in toks[3];
    BracketFrom(toks, 1);
    assert Guesses(toks) == [false, false, true, true, true];
    forall i | 0 <= i < |toks| ensures !Contains(toks[i], "..") {
      assert '.' !in toks[i];
      NoDots(toks[i]);
    }
  }

  /** A bracket opened inside token `j`, not at its start, and closed by the
      last token at the earliest: the tokens after `j` are optional, the
      others not. */
  lemma BracketFrom(toks: seq<string>, j: nat)
    requires j < |toks| && forall k :: 0 <= k < j ==> '[' !in toks[k]
    requires '[' in toks[j] && ']' !in toks[j] && toks[j][0] != '['
    requires forall k :: j < k < |toks| - 1 ==> ']' !in toks[k]
    ensures forall i :: 0 <= i < |toks| ==> Guesses(toks)[i] == (j < i)
  {
    forall i | 0 <= i < |toks| ensures Guesses(toks)[i] == (j < i) {
      if i <= j {
        LeadingBracket(toks[i]);
        NoneOpened(toks, i);
      } else {
        OpenedAt(toks, j, i);
      }
    }
  }

  /** The tokens of `choose`: no bracket, and an ellipsis. */
  lemma ChooseGuesses()
    ensures var toks := ["val0", "val1", "val2... max_val"];
            Guesses(toks) == [false, false, false] && AnyEllipsis(toks)
  {
    var toks := ["val0", "val1", "val2... max_val"];
    forall i | 0 <= i < |toks| ensures '[' !in toks[i] {
    }
    NoBracketGuesses(toks);
    DotsAt(toks[2], 4);
  }

  /** The tokens of `place_empty`: only the bracketed last one is optional. */
  lemma PlaceEmptyGuesses()
    ensures var toks := ["x", "y", "[object_id]"];
            Guesses(toks) == [false, false, true] && !AnyEllipsis(toks)
  {
    var toks := ["x", "y", "[object_id]"];
    assert '[' !in toks[0] && '[' !in toks[1] && toks[2][0] == '[';
    LeadingBracket(toks[0]);
    LeadingBracket(toks[1]);
    LeadingBracket(toks[2]);
    NoneOpened(toks, 0);
    NoneOpened(toks, 1);
    forall i | 0 <= i < |toks| ensures !Contains(toks[i], "..") {
      assert '.' !in toks[i];
      NoDots(toks[i]);
    }
  }

  /** The tokens of `ds_list_add`: a bracket opened in the second token, and
      an ellipsis. */
  lemma DsListAddGuesses()
    ensures var toks := ["id", "val1 [", "val2", "... max_val]"];
            Guesses(toks) == [false, false, true, true] && AnyEllipsis(toks)
  {
    var toks := ["id", "val1 [", "val2", "... max_val]"];
    assert '[' !in toks[0] && toks[1][0] != '[' && '[' in toks[1] && ']' !in toks[1] && ']' !in toks[2];
    BracketFrom(toks, 1);
    assert Guesses(toks) == [false, false, true, true];
    DotsAt(toks[3], 0);
  }

  /** The tokens of `display_set_gui_maximise`: markup inside the
      parentheses is not a bracket. */
  lemma DisplaySetGuiMaximiseGuesses()
    ensures var toks := ["<i>xscale", "yscale", "xoffset", "yoffset</i>"];
            Guesses(toks) == [false, false, false, false] && !AnyEllipsis(toks)
  {
    var toks := ["<i>xscale", "yscale", "xoffset", "yoffset</i>"];
    forall i | 0 <= i < |toks| ensures '[' !in toks[i] && '.' !in toks[i] {
    }
    NoBracketGuesses(toks);
    forall i | 0 <= i < |toks| ensures !Contains(toks[i], "..") {
      NoDots(toks[i]);
    }
  }

  /** Without an opening bracket no parameter is optional. */
  lemma NoBracketGuesses(toks: seq<string>)
    requires forall i :: 0 <= i < |toks| ==> '[' !in toks[i]
    ensures forall i :: 0 <= i < |toks| ==> !Guesses(toks)[i]
  {
    forall i | 0 <= i < |toks| ensures !Guesses(toks)[i] {
      LeadingBracket(toks[i]);
      NoneOpened(toks, i);
    }
  }

  /** A string of whitespace before a token with no whitespace at either
      end trims away. */
  lemma Padded(w: string, t: string)
    requires IsBlank(w) && t != [] && !IsWhitespace(t[0]) && !IsWhitespace(t[|t| - 1])
    ensures Trim(w + t) == t
  {
    TrimSkipsLeading(w, t);
    TrimUnchanged(t);
  }

  /** `open` is `name(` and `close` is `)rest`, with no parenthesis in `name`. */
  predicate Framed(open: string, name: string, close: string, rest: string)
  {
    open == name + "(" && close == ")" + rest && '(' !in name && ')' !in name
  }

  /** `inner`, at least two characters long and free of `)`, is the pieces
      `parts` glued with commas. */
  predicate CommaPieces(inner: string, parts: seq<string>)
  {
    |inner| >= 2 && ')' !in inner && |parts| >= 1 && inner == JoinWith(parts, ',')
  }

  /** The comma-free piece `p` is the blank padding `w` before the token `t`,
      which has no whitespace at either end. */
  predicate PadsTo(p: string, w: string, t: string)
  {
    p == w + t && ',' !in p && IsBlank(w) && t != [] && !IsWhitespace(t[0]) && !IsWhitespace(t[|t| - 1])
  }

  /** Piece by piece, `parts` are the paddings `pads` before the tokens `toks`. */
  predicate AllPadded(parts: seq<string>, pads: seq<string>, toks: seq<string>)
  {
    |pads| == |parts| == |toks|
    && forall i {:trigger PadsTo(parts[i], pads[i], toks[i])} :: 0 <= i < |parts| ==> PadsTo(parts[i], pads[i], toks[i])
  }

  /** Padded pieces trim to exactly their tokens. */
  lemma {:induction false} TokensOfPadded(parts: seq<string>, pads: seq<string>, toks: seq<string>)
    requires AllPadded(parts, pads, toks)
    ensures Tokens(parts) == toks
  {
    if parts != [] {
      var n := |parts| - 1;
      assert PadsTo(parts[n], pads[n], toks[n]);
      Padded(pads[n], toks[n]);
      TokensOfPadded(parts[..n], pads[..n], toks[..n]);
      LastSplit(toks);
    }
  }

  lemma LastSplit(s: seq<string>)
    requires s != []
    ensures s == s[..|s| - 1] + [s[|s| - 1]]
  {
  }

  /** Two to five pieces glued with commas. */
  lemma Joined2(a: string, b: string)
    ensures JoinWith([a, b], ',') == a + "," + b
  {
    assert [a, b][1..] == [b];
  }

  lemma Joined3(a: string, b: string, c: string)
    ensures JoinWith([a, b, c], ',') == a + "," + b + "," + c
  {
    assert [a, b, c][1..] == [b, c];
    Joined2(b, c);
  }

  lemma Joined4(a: string, b: string, c: string, d: string)
    ensures JoinWith([a, b, c, d], ',') == a + "," + b + "," + c + "," + d
  {
    assert [a, b, c, d][1..] == [b, c, d];
    Joined3(b, c, d);
  }

  lemma Joined5(a: string, b: string, c: string, d: string, e: string)
    ensures JoinWith([a, b, c, d, e], ',') == a + "," + b + "," + c + "," + d + "," + e
  {
    assert [a, b, c, d, e][1..] == [b, c, d, e];
    Joined4(b, c, d, e);
  }

  /** A test vector: `name(inner)rest` whose comma pieces trim to `toks`
      reads the guesses and the ellipsis flag of `toks`. */
  lemma Vector(open: string, inner: string, close: string, name: string, rest: string,
               parts: seq<string>, pads: seq<string>, toks: seq<string>)
    requires Framed(open, name, close, rest)
    requires CommaPieces(inner, parts)
    requires AllPadded(parts, pads, toks)
    ensures SignatureSafe(open + inner + close)
    ensures Parsed(open + inner + close) == SigResult(Guesses(toks), AnyEllipsis(toks), true)
  {
    var sig := open + inner + close;
    assert sig == name + "(" + inner + ")" + rest;
    forall i | 0 <= i < |parts| ensures ',' !in parts[i] {
      assert PadsTo(parts[i], pads[i], toks[i]);
    }
    ParsedFromParts(sig, name, inner, rest, parts);
    TokensOfPadded(parts, pads, toks);
    ScanIsGuesses(toks);
  }

  /** `instance_destroy(` and `);` around the parameter list of `instance_destroy`. */
  lemma InstanceDestroyFramed()
    ensures Framed("instance_destroy(", "instance_destroy", ");", ";")
  {
  }

  lemma InstanceDestroyJoined()
    ensures JoinWith(["[id", " execute_event_flag]"], ',') == "[id, execute_event_flag]"
  {
    Joined2("[id", " execute_event_flag]");
  }

  /** The comma pieces of `[id, execute_event_flag]`. */
  lemma InstanceDestroyPieces()
    ensures CommaPieces("[id, execute_event_flag]", ["[id", " execute_event_flag]"])
  {
    InstanceDestroyJoined();
  }

  /** The comma pieces of `[id, execute_event_flag]` pad their tokens. */
  lemma InstanceDestroyPadding()
    ensures AllPadded(["[id", " execute_event_flag]"], ["", " "], ["[id", "execute_event_flag]"])
  {
    assert PadsTo("[id", "", "[id");
    assert PadsTo(" execute_event_flag]", " ", "execute_event_flag]");
  }

  /** `instance_destroy([id, execute_event_flag]);`. */
  lemma InstanceDestroy()
    ensures SignatureSafe("instance_destroy(" + "[id, execute_event_flag]" + ");")
    ensures Parsed("instance_destroy(" + "[id, execute_event_flag]" + ");") == SigResult([true, true], false, true)
  {
    InstanceDestroyFramed();
    InstanceDestroyPieces();
    InstanceDestroyPadding();
    InstanceDestroyGuesses();
    Vector("instance_destroy(", "[id, execute_event_flag]", ");", "instance_destroy", ";", ["[id", " execute_event_flag]"], ["", " "], ["[id", "execute_event_flag]"]);
  }

  /** `shader_set_uniform_f(` and `);` around the parameter list of `shader_set_uniform_f`. */
  lemma ShaderSetUniformFFramed()
    ensures Framed("shader_set_uniform_f(", "shader_set_uniform_f", ");", ";")
  {
  }

  lemma ShaderSetUniformFJoined()
    ensures JoinWith(["handle", " value1 [", " value2", " value3", " value4]"], ',') == "handle, value1 [, value2, value3, value4]"
  {
    Joined5("handle", " value1 [", " value2", " value3", " value4]");
  }

  /** The comma pieces of `handle, value1 [, value2, value3, value4]`. */
  lemma ShaderSetUniformFPieces()
    ensures CommaPieces("handle, value1 [, value2, value3, value4]", ["handle", " value1 [", " value2", " value3", " value4]"])
  {
    ShaderSetUniformFJoined();
  }

  /** The comma pieces of `handle, value1 [, value2, value3, value4]` pad their tokens. */
  lemma ShaderSetUniformFPadding()
    ensures AllPadded(["handle", " value1 [", " value2", " value3", " value4]"], ["", " ", " ", " ", " "], ["handle", "value1 [", "value2", "value3", "value4]"])
  {
    assert PadsTo("handle", "", "handle");
    assert PadsTo(" value1 [", " ", "value1 [");
    assert PadsTo(" value2", " ", "value2");
    assert PadsTo(" value3", " ", "value3");
    assert PadsTo(" value4]", " ", "value4]");
  }

  /** `shader_set_uniform_f(handle, value1 [, value2, value3, value4]);`. */
  lemma ShaderSetUniformF()
    ensures SignatureSafe("shader_set_uniform_f(" + "handle, value1 [, value2, value3, value4]" + ");")
    ensures Parsed("shader_set_uniform_f(" + "handle, value1 [, value2, value3, value4]" + ");") == SigResult([false, false, true, true, true], false, true)
  {
    ShaderSetUniformFFramed();
    ShaderSetUniformFPieces();
    ShaderSetUniformFPadding();
    ShaderSetUniformFGuesses();
    Vector("shader_set_uniform_f(", "handle, value1 [, value2, value3, value4]", ");", "shader_set_uniform_f", ";", ["handle", " value1 [", " value2", " value3", " value4]"], ["", " ", " ", " ", " "], ["handle", "value1 [", "value2", "value3", "value4]"]);
  }

  /** `choose(` and `);` around the parameter list of `choose`. */
  lemma ChooseFramed()
    ensures Framed("choose(", "choose", ");", ";")
  {
  }

  lemma ChooseJoined()
    ensures JoinWith(["val0", " val1", " val2... max_val"], ',') == "val0, val1, val2... max_val"
  {
    Joined3("val0", " val1", " val2... max_val");
  }

  /** The comma pieces of `val0, val1, val2... max_val`. */
  lemma ChoosePieces()
    ensures CommaPieces("val0, val1, val2... max_val", ["val0", " val1", " val2... max_val"])
  {
    ChooseJoined();
  }

  /** The comma pieces of `val0, val1, val2... max_val` pad their tokens. */
  lemma ChoosePadding()
    ensures AllPadded(["val0", " val1", " val2... max_val"], ["", " ", " "], ["val0", "val1", "val2... max_val"])
  {
    assert PadsTo("val0", "", "val0");
    assert PadsTo(" val1", " ", "val1");
    assert PadsTo(" val2... max_val", " ", "val2... max_val");
  }

  /** `choose(val0, val1, val2... max_val);`. */
  lemma Choose()
    ensures SignatureSafe("choose(" + "val0, val1, val2... max_val" + ");")
    ensures Parsed("choose(" + "val0, val1, val2... max_val" + ");") == SigResult([false, false, false], true, true)
  {
    ChooseFramed();
    ChoosePieces();
    ChoosePadding();
    ChooseGuesses();
    Vector("choose(", "val0, val1, val2... max_val", ");", "choose", ";", ["val0", " val1", " val2... max_val"], ["", " ", " "], ["val0", "val1", "val2... max_val"]);
  }

  /** `place_empty(` and `);` around the parameter list of `place_empty`. */
  lemma PlaceEmptyFramed()
    ensures Framed("place_empty(", "place_empty", ");", ";")
  {
  }

  lemma PlaceEmptyJoined()
    ensures JoinWith(["x", " y", " [object_id]"], ',') == "x, y, [object_id]"
  {
    Joined3("x", " y", " [object_id]");
  }

  /** The comma pieces of `x, y, [object_id]`. */
  lemma PlaceEmptyPieces()
    ensures CommaPieces("x, y, [object_id]", ["x", " y", " [object_id]"])
  {
    PlaceEmptyJoined();
  }

  /** The comma pieces of `x, y, [object_id]` pad their tokens. */
  lemma PlaceEmptyPadding()
    ensures AllPadded(["x", " y", " [object_id]"], ["", " ", " "], ["x", "y", "[object_id]"])
  {
    assert PadsTo("x", "", "x");
    assert PadsTo(" y", " ", "y");
    assert PadsTo(" [object_id]", " ", "[object_id]");
  }

  /** `place_empty(x, y, [object_id]);`. */
  lemma PlaceEmpty()
    ensures SignatureSafe("place_empty(" + "x, y, [object_id]" + ");")
    ensures Parsed("place_empty(" + "x, y, [object_id]" + ");") == SigResult([false, false, true], false, true)
  {
    PlaceEmptyFramed();
    PlaceEmptyPieces();
    PlaceEmptyPadding();
    PlaceEmptyGuesses();
    Vector("place_empty(", "x, y, [object_id]", ");", "place_empty", ";", ["x", " y", " [object_id]"], ["", " ", " "], ["x", "y", "[object_id]"]);
  }

  /** `ds_list_add(` and `);` around the parameter list of `ds_list_add`. */
  lemma DsListAddFramed()
    ensures Framed("ds_list_add(", "ds_list_add", ");", ";")
    ensures Framed("ds_list_add(", "ds_list_add", ");\n            ", ";\n            ")
  {
  }

  lemma DsListAddJoined()
    ensures JoinWith(["id", " val1 [", " val2", " ... max_val]"], ',') == "id, val1 [, val2, ... max_val]"
  {
    Joined4("id", " val1 [", " val2", " ... max_val]");
  }

  /** The comma pieces of `id, val1 [, val2, ... max_val]`. */
  lemma DsListAddPieces()
    ensures CommaPieces("id, val1 [, val2, ... max_val]", ["id", " val1 [", " val2", " ... max_val]"])
  {
    DsListAddJoined();
  }

  /** The comma pieces of `id, val1 [, val2, ... max_val]` pad their tokens. */
  lemma DsListAddPadding()
    ensures AllPadded(["id", " val1 [", " val2", " ... max_val]"], ["", " ", " ", " "], ["id", "val1 [", "val2", "... max_val]"])
  {
    assert PadsTo("id", "", "id");
    assert PadsTo(" val1 [", " ", "val1 [");
    assert PadsTo(" val2", " ", "val2");
    assert PadsTo(" ... max_val]", " ", "... max_val]");
  }

  /** `ds_list_add(id, val1 [, val2, ... max_val]);`, with or without the line break and indentation that follow it in the second vector. */
  lemma DsListAdd()
    ensures SignatureSafe("ds_list_add(" + "id, val1 [, val2, ... max_val]" + ");")
    ensures Parsed("ds_list_add(" + "id, val1 [, val2, ... max_val]" + ");") == SigResult([false, false, true, true], true, true)
    ensures SignatureSafe("ds_list_add(" + "id, val1 [, val2, ... max_val]" + ");\n            ")
    ensures Parsed("ds_list_add(" + "id, val1 [, val2, ... max_val]" + ");\n            ") == SigResult([false, false, true, true], true, true)
  {
    DsListAddFramed();
    DsListAddPieces();
    DsListAddPadding();
    DsListAddGuesses();
    Vector("ds_list_add(", "id, val1 [, val2, ... max_val]", ");", "ds_list_add", ";", ["id", " val1 [", " val2", " ... max_val]"], ["", " ", " ", " "], ["id", "val1 [", "val2", "... max_val]"]);
    Vector("ds_list_add(", "id, val1 [, val2, ... max_val]", ");\n            ", "ds_list_add", ";\n            ", ["id", " val1 [", " val2", " ... max_val]"], ["", " ", " ", " "], ["id", "val1 [", "val2", "... max_val]"]);
  }

  /** `display_set_gui_maximise(` and `);` around the parameter list of `display_set_gui_maximise`. */
  lemma DisplaySetGuiMaximiseFramed()
    ensures Framed("display_set_gui_maximise(", "display_set_gui_maximise", ");", ";")
  {
  }

  lemma DisplaySetGuiMaximiseJoined()
    ensures JoinWith(["<i>xscale", " yscale", " xoffset", " yoffset</i>"], ',') == "<i>xscale, yscale, xoffset, yoffset</i>"
  {
    Joined4("<i>xscale", " yscale", " xoffset", " yoffset</i>");
  }

  /** The comma pieces of `<i>xscale, yscale, xoffset, yoffset</i>`. */
  lemma DisplaySetGuiMaximisePieces()
    ensures CommaPieces("<i>xscale, yscale, xoffset, yoffset</i>", ["<i>xscale", " yscale", " xoffset", " yoffset</i>"])
  {
    DisplaySetGuiMaximiseJoined();
  }

  /** The comma pieces of `<i>xscale, yscale, xoffset, yoffset</i>` pad their tokens. */
  lemma DisplaySetGuiMaximisePadding()
    ensures AllPadded(["<i>xscale", " yscale", " xoffset", " yoffset</i>"], ["", " ", " ", " "], ["<i>xscale", "yscale", "xoffset", "yoffset</i>"])
  {
    assert PadsTo("<i>xscale", "", "<i>xscale");
    assert PadsTo(" yscale", " ", "yscale");
    assert PadsTo(" xoffset", " ", "xoffset");
    assert PadsTo(" yoffset</i>", " ", "yoffset</i>");
  }

  /** `display_set_gui_maximise(<i>xscale, yscale, xoffset, yoffset</i>);`. */
  lemma DisplaySetGuiMaximise()
    ensures SignatureSafe("display_set_gui_maximise(" + "<i>xscale, yscale, xoffset, yoffset</i>" + ");")
    ensures Parsed("display_set_gui_maximise(" + "<i>xscale, yscale, xoffset, yoffset</i>" + ");") == SigResult([false, false, false, false], false, true)
  {
    DisplaySetGuiMaximiseFramed();
    DisplaySetGuiMaximisePieces();
    DisplaySetGuiMaximisePadding();
    DisplaySetGuiMaximiseGuesses();
    Vector("display_set_gui_maximise(", "<i>xscale, yscale, xoffset, yoffset</i>", ");", "display_set_gui_maximise", ";", ["<i>xscale", " yscale", " xoffset", " yoffset</i>"], ["", " ", " ", " "], ["<i>xscale", "yscale", "xoffset", "yoffset</i>"]);
  }
}
