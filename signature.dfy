/**
 * `parse_signature` of `src/parse_file.rs`: reads the flattened syntax line
 * of a page and guesses, for each comma-separated parameter between the
 * first `(` and the first `)`, whether it is optional, whether the function
 * is variadic, and whether the line is a call at all.
 *
 * `Parsed` states the result in closed form; `ParseSignature` is the
 * loop with the running `optional` flag, proved to compute it.
 */
module Signature {
  import opened Wrappers
  import opened Strings

  /** The triple `(param_guesses, variadic, is_function)`. */
  datatype SigResult = SigResult(guesses: seq<bool>, variadic: bool, isFunction: bool)

  /** The source subtracts the byte offset of the first `(` from that of the
      first `)` and slices between them; both fail when `)` comes first. */
  predicate SignatureSafe(sig: string)
  {
    FindChar(sig, '(').Some? && FindChar(sig, ')').Some? ==>
      FindChar(sig, '(').value < FindChar(sig, ')').value
  }

  /** The non-empty pieces of `pieces` after trimming, in order. */
  function Tokens(pieces: seq<string>): (r: seq<string>)
    ensures forall i :: 0 <= i < |r| ==> r[i] != []
    ensures |r| <= |pieces|
  {
    if pieces == [] then []
    else
      var t := Trim(pieces[|pieces| - 1]);
      if t == [] then Tokens(pieces[..|pieces| - 1]) else Tokens(pieces[..|pieces| - 1]) + [t]
  }

  /** The running flag is set before token `i`: some earlier token opened a
      bracket without closing it, and no token since has closed one. */
  predicate OpenBefore(toks: seq<string>, i: nat)
    requires i <= |toks|
  {
    exists j :: 0 <= j < i && '[' in toks[j] && ']' !in toks[j] &&
      forall k :: j < k < i ==> ']' !in toks[k]
  }

  /** One guess per token: optional when the token starts with `[` or a
      bracket is open before it. */
  function Guesses(toks: seq<string>): (r: seq<bool>)
    ensures |r| == |toks|
  {
    seq(|toks|, i requires 0 <= i < |toks| => StartsWith(toks[i], "[") || OpenBefore(toks, i))
  }

  /** Some token contains `..`. */
  predicate AnyEllipsis(toks: seq<string>)
  {
    exists i :: 0 <= i < |toks| && Contains(toks[i], "..")
  }

  /** The text strictly between the first `(` and the first `)`. */
  function Inner(sig: string): string
    requires SignatureSafe(sig)
    requires FindChar(sig, '(').Some? && FindChar(sig, ')').Some?
  {
    sig[FindChar(sig, '(').value + 1..FindChar(sig, ')').value]
  }

  /** What `parse_signature` returns. The parameters are read only when the
      parentheses are more than two bytes apart, i.e. when the text between
      them takes at least two bytes of UTF-8. */
  function Parsed(sig: string): SigResult
    requires SignatureSafe(sig)
  {
    if FindChar(sig, '(').None? || FindChar(sig, ')').None? then SigResult([], false, false)
    else if Utf8Len(Inner(sig)) < 2 then SigResult([], false, true)
    else
      var toks := Tokens(Split(Inner(sig), ','));
      SigResult(Guesses(toks), AnyEllipsis(toks), true)
  }

  /** `parse_signature`. */
  method ParseSignature(sig: string) returns (guesses: seq<bool>, variadic: bool, isFunction: bool)
    requires SignatureSafe(sig)
    ensures SigResult(guesses, variadic, isFunction) == Parsed(sig)
  {
    var start := FindChar(sig, '(');
    var end := FindChar(sig, ')');
    if start.None? || end.None? {
      return [], false, false;
    }
    guesses, variadic, isFunction := [], false, true;
    var between := sig[start.value + 1..end.value];
    if Utf8Len(between) >= 2 {
      guesses, variadic := ScanParameters(Split(between, ','));
      ScanIsGuesses(Tokens(Split(between, ',')));
    }
  }

  /** The `for param in parameters.split(',')` loop of `parse_signature`. */
  method ScanParameters(pieces: seq<string>) returns (guesses: seq<bool>, variadic: bool)
    ensures guesses == Scan(Tokens(pieces))
    ensures variadic == AnyEllipsis(Tokens(pieces))
  {
    guesses, variadic := [], false;
    var runningOptional := false;
    ghost var toks: seq<string> := [];
    assert pieces[..0] == [];
    var i := 0;
    while i < |pieces|
      invariant 0 <= i <= |pieces|
      invariant toks == Tokens(pieces[..i])
      invariant guesses == Scan(toks)
      invariant runningOptional == RunningAfter(toks)
      invariant variadic == AnyEllipsis(toks)
    {
      TokensStep(pieces, i);
      runningOptional, guesses, variadic := ScanPiece(pieces[i], toks, runningOptional, guesses, variadic);
      toks := NextTokens(toks, pieces[i]);
      i := i + 1;
    }
    assert pieces[..i] == pieces;
  }

  /** One pass of the loop: a piece that trims to nothing is skipped, any
      other is scanned as the next token. */
  method ScanPiece(piece: string, ghost toks: seq<string>, running: bool, guesses: seq<bool>, variadic: bool)
    returns (running': bool, guesses': seq<bool>, variadic': bool)
    requires guesses == Scan(toks) && running == RunningAfter(toks) && variadic == AnyEllipsis(toks)
    ensures guesses' == Scan(NextTokens(toks, piece))
    ensures running' == RunningAfter(NextTokens(toks, piece))
    ensures variadic' == AnyEllipsis(NextTokens(toks, piece))
  {
    var param := Trim(piece);
    running', guesses', variadic' := running, guesses, variadic;
    if param != [] {
      ScanAppend(toks, param);
      EllipsisStep(toks, param);
      running', guesses', variadic' := ScanToken(param, running, guesses, variadic);
    }
  }

  /** The body of the loop for one non-empty token. */
  method ScanToken(param: string, running: bool, guesses: seq<bool>, variadic: bool)
    returns (running': bool, guesses': seq<bool>, variadic': bool)
    ensures guesses' == guesses + [running || StartsWith(param, "[")]
    ensures running' == NextFlag(running, param)
    ensures variadic' == (variadic || Contains(param, ".."))
  {
    running', guesses', variadic' := running, guesses, variadic;
    if StartsWith(param, "[") {
      running' := true;
    }
    guesses' := guesses' + [running'];
    if '[' in param {
      running' := true;
    }
    if ']' in param {
      running' := false;
    }
    if Contains(param, "..") {
      variadic' := true;
    }
  }

  /** The flag after token `t`: set by a leading `[`, then by any `[`, then
      cleared by any `]`. */
  function NextFlag(flag: bool, t: string): bool
  {
    var f := flag || StartsWith(t, "[");
    var f' := if '[' in t then true else f;
    if ']' in t then false else f'
  }

  /** The running flag after the tokens. */
  function RunningAfter(toks: seq<string>): bool
  {
    if toks == [] then false else NextFlag(RunningAfter(toks[..|toks| - 1]), toks[|toks| - 1])
  }

  /** The guesses the loop pushes, one per token. */
  function Scan(toks: seq<string>): seq<bool>
  {
    if toks == [] then []
    else
      var pre := toks[..|toks| - 1];
      Scan(pre) + [RunningAfter(pre) || StartsWith(toks[|toks| - 1], "[")]
  }

  /** The loop's flag is the closed-form `OpenBefore`. */
  lemma {:induction false} RunningAfterIsOpen(toks: seq<string>)
    ensures RunningAfter(toks) == OpenBefore(toks, |toks|)
  {
    if toks != [] {
      var pre, t := toks[..|toks| - 1], toks[|toks| - 1];
      assert toks == pre + [t];
      RunningAfterIsOpen(pre);
      OpenStep(pre, t);
      if StartsWith(t, "[") {
        assert t[0] == t[..1][0];
      }
    }
  }

  /** The loop's guesses are the closed-form `Guesses`. */
  lemma {:induction false} ScanIsGuesses(toks: seq<string>)
    ensures Scan(toks) == Guesses(toks)
  {
    if toks != [] {
      var pre, t := toks[..|toks| - 1], toks[|toks| - 1];
      assert toks == pre + [t];
      ScanIsGuesses(pre);
      RunningAfterIsOpen(pre);
      GuessesStep(pre, t);
    }
  }

  /** One more token: one more guess, and the flag moves on by `NextFlag`. */
  lemma ScanAppend(toks: seq<string>, t: string)
    ensures Scan(toks + [t]) == Scan(toks) + [RunningAfter(toks) || StartsWith(t, "[")]
    ensures RunningAfter(toks + [t]) == NextFlag(RunningAfter(toks), t)
  {
    var ext := toks + [t];
    assert ext[..|ext| - 1] == toks && ext[|ext| - 1] == t;
  }

  /** The tokens once one more piece is read: it is kept when it does not
      trim to nothing. */
  function NextTokens(toks: seq<string>, piece: string): seq<string>
  {
    if Trim(piece) == [] then toks else toks + [Trim(piece)]
  }

  lemma TokensStep(pieces: seq<string>, i: nat)
    requires i < |pieces|
    ensures Tokens(pieces[..i + 1]) == NextTokens(Tokens(pieces[..i]), pieces[i])
  {
    assert pieces[..i + 1][..i] == pieces[..i];
  }

  /** Appending a token leaves the flag before every earlier token alone. */
  lemma OpenPrefix(toks: seq<string>, t: string, i: nat)
    requires i <= |toks|
    ensures OpenBefore(toks + [t], i) == OpenBefore(toks, i)
  {
    var ext := toks + [t];
    if OpenBefore(ext, i) {
      var j :| 0 <= j < i && '[' in ext[j] && ']' !in ext[j] && forall k :: j < k < i ==> ']' !in ext[k];
      assert ext[j] == toks[j];
      forall k | j < k < i ensures ']' !in toks[k] {
        assert ext[k] == toks[k];
      }
    }
    if OpenBefore(toks, i) {
      var j :| 0 <= j < i && '[' in toks[j] && ']' !in toks[j] && forall k :: j < k < i ==> ']' !in toks[k];
      assert ext[j] == toks[j];
      forall k | j < k < i ensures ']' !in ext[k] {
        assert ext[k] == toks[k];
      }
    }
  }

  /** The flag after a token: cleared by a `]`, else set by a `[`, else kept. */
  lemma OpenStep(toks: seq<string>, t: string)
    ensures OpenBefore(toks + [t], |toks| + 1) ==
              (']' !in t && ('[' in t || OpenBefore(toks, |toks|)))
  {
    var ext := toks + [t];
    var n := |toks|;
    assert ext[n] == t;
    if OpenBefore(ext, n + 1) {
      var j :| 0 <= j < n + 1 && '[' in ext[j] && ']' !in ext[j] && forall k :: j < k < n + 1 ==> ']' !in ext[k];
      if j < n {
        assert ']' !in ext[n];
        OpenPrefix(toks, t, n);
        assert OpenBefore(ext, n) by {
          forall k | j < k < n ensures ']' !in ext[k] { }
        }
      }
    }
    if ']' !in t && '[' in t {
      assert OpenBefore(ext, n + 1) by {
        assert '[' in ext[n] && ']' !in ext[n];
      }
    }
    if ']' !in t && OpenBefore(toks, n) {
      OpenPrefix(toks, t, n);
      var j :| 0 <= j < n && '[' in ext[j] && ']' !in ext[j] && forall k :: j < k < n ==> ']' !in ext[k];
      assert forall k :: j < k < n + 1 ==> ']' !in ext[k];
    }
  }

  lemma GuessesStep(toks: seq<string>, t: string)
    ensures Guesses(toks + [t]) == Guesses(toks) + [StartsWith(t, "[") || OpenBefore(toks, |toks|)]
  {
    var ext := toks + [t];
    forall i | 0 <= i < |toks| ensures Guesses(ext)[i] == Guesses(toks)[i] {
      OpenPrefix(toks, t, i);
      assert ext[i] == toks[i];
    }
    OpenPrefix(toks, t, |toks|);
  }

  lemma EllipsisStep(toks: seq<string>, t: string)
    ensures AnyEllipsis(toks + [t]) == (AnyEllipsis(toks) || Contains(t, ".."))
  {
    var ext := toks + [t];
    if AnyEllipsis(toks) {
      var i :| 0 <= i < |toks| && Contains(toks[i], "..");
      assert ext[i] == toks[i];
    }
    if AnyEllipsis(ext) {
      var i :| 0 <= i < |ext| && Contains(ext[i], "..");
      if i < |toks| { assert ext[i] == toks[i]; }
    }
    assert ext[|toks|] == t;
  }
}
