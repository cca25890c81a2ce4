/** The text helpers of the transformer's `utils.rs`: whole-word search,
    the `.v` rewriting of reactive variables inside an interpolation, the
    `escapeHtml(...)` wrapper and the scan that rewrites every `${...}` of a
    text. The scan's shape (where a binding starts and ends, and that it
    never ends when a `${` has no later `}`) is shared with the markup
    transformer's own version of the scan. */
module UtilsText {
  import opened Wrappers
  import opened Strings

  // ---------------------------------------------------------------------
  // word_exists_in_text

  function FirstNonAlnum(s: string): (r: Option<nat>)
    ensures r.Some? ==> r.value < |s| && !IsAlnum(s[r.value]) && forall i :: 0 <= i < r.value ==> IsAlnum(s[i])
    ensures r.None? ==> forall i :: 0 <= i < |s| ==> IsAlnum(s[i])
    decreases |s|
  {
    if |s| == 0 then None
    else if !IsAlnum(s[0]) then Some(0)
    else match FirstNonAlnum(s[1..])
      case None => None
      case Some(k) => Some(k + 1)
  }

  /** `text.split(|c| !c.is_alphanumeric())`: the maximal alphanumeric runs,
      with an empty piece wherever two separators touch or the text starts
      or ends with one. */
  function Pieces(text: string): (r: seq<string>)
    ensures |r| > 0
    decreases |text|
  {
    match FirstNonAlnum(text)
    case None => [text]
    case Some(k) => [text[..k]] + Pieces(text[k + 1..])
  }

  /** Every piece is an alphanumeric run. */
  lemma {:induction false} PiecesAlnum(text: string)
    ensures forall p :: p in Pieces(text) ==> forall i :: 0 <= i < |p| ==> IsAlnum(p[i])
    decreases |text|
  {
    match FirstNonAlnum(text)
    case None =>
    case Some(k) =>
      PiecesAlnum(text[k + 1..]);
      assert Pieces(text) == [text[..k]] + Pieces(text[k + 1..]);
  }

  /** `word_exists_in_text`: `word` is one of the pieces; only an
      alphanumeric word can be found. */
  predicate WordExistsInText(word: string, text: string)
    ensures WordExistsInText(word, text) ==> forall i :: 0 <= i < |word| ==> IsAlnum(word[i])
  {
    PiecesAlnum(text);
    word in Pieces(text)
  }

  /** `word` occurs at `k` as a whole word: it is alphanumeric and the
      characters around it, if any, are not. */
  predicate WholeWordAt(text: string, word: string, k: int) {
    OccursAt(text, word, k)
    && (forall i :: 0 <= i < |word| ==> IsAlnum(word[i]))
    && (k == 0 || !IsAlnum(text[k - 1]))
    && (k + |word| == |text| || !IsAlnum(text[k + |word|]))
  }

  /** The text starts with an alphanumeric run of length `m` ended by a
      separator: a whole word at 0 is exactly that run. */
  lemma WholeWordAtStart(text: string, m: nat, word: string)
    requires m < |text| && !IsAlnum(text[m]) && forall i :: 0 <= i < m ==> IsAlnum(text[i])
    ensures WholeWordAt(text, word, 0) <==> word == text[..m]
  {
    if WholeWordAt(text, word, 0) {
      assert forall i :: 0 <= i < |word| ==> IsAlnum(text[i]);
      assert |word| == m;
    }
  }

  /** Past the first separator, whole words of the text are the whole words
      of the rest. */
  lemma WholeWordPastSeparator(text: string, m: nat, word: string, k: int)
    requires m < |text| && !IsAlnum(text[m]) && forall i :: 0 <= i < m ==> IsAlnum(text[i])
    requires k > 0
    ensures WholeWordAt(text, word, k) <==> k > m && WholeWordAt(text[m + 1..], word, k - m - 1)
  {
    var tail := text[m + 1..];
    if WholeWordAt(text, word, k) {
      assert text[k..k + |word|] == tail[k - m - 1..k - m - 1 + |word|];
    }
    if k > m && WholeWordAt(tail, word, k - m - 1) {
      assert text[k..k + |word|] == tail[k - m - 1..k - m - 1 + |word|];
    }
  }

  /** A word is among the pieces exactly when it occurs in the text as a
      whole word. */
  lemma {:induction false} WordExistsIff(word: string, text: string)
    ensures WordExistsInText(word, text) <==> exists k :: WholeWordAt(text, word, k)
    decreases |text|
  {
    match FirstNonAlnum(text)
    case None =>
      if word == text {
        assert WholeWordAt(text, word, 0);
      }
      if exists k :: WholeWordAt(text, word, k) {
        var k :| WholeWordAt(text, word, k);
        assert k == 0 && k + |word| == |text|;
        assert word == text[0..|text|];
      }
    case Some(m) =>
      var tail := text[m + 1..];
      WordExistsIff(word, tail);
      assert Pieces(text) == [text[..m]] + Pieces(tail);
      WholeWordAtStart(text, m, word);
      if WordExistsInText(word, tail) {
        var k :| WholeWordAt(tail, word, k);
        WholeWordPastSeparator(text, m, word, k + m + 1);
      }
      if exists k :: WholeWordAt(text, word, k) {
        var k :| WholeWordAt(text, word, k);
        if k > 0 {
          WholeWordPastSeparator(text, m, word, k);
        }
      }
  }

  // ---------------------------------------------------------------------
  // append_v_to_vars

  /** The loop of `append_v_to_vars` over `vars`, as a fold: a variable that
      occurs in `s` as a word and is not yet a dependency is recorded, and
      every occurrence of its name in the text built so far gets `.v`. */
  function AppendV(s: string, vars: seq<string>, existing: seq<string>): (string, seq<string>)
    decreases |vars|
  {
    if |vars| == 0 then (s, existing)
    else
      var prev := AppendV(s, vars[..|vars| - 1], existing);
      var v := vars[|vars| - 1];
      if WordExistsInText(v, s) && v !in prev.1 then (ReplaceAll(prev.0, v, v + ".v"), prev.1 + [v])
      else prev
  }

  /** The dependencies only grow: the old list is a prefix of the new one,
      and what is added is a variable named in `vars`, occurring in `s` as a
      word, and not already a dependency; no duplicate is introduced. */
  lemma {:induction false} AppendVDependencies(s: string, vars: seq<string>, existing: seq<string>)
    ensures var deps := AppendV(s, vars, existing).1;
      |existing| <= |deps| && deps[..|existing|] == existing
      && (forall i :: |existing| <= i < |deps| ==> deps[i] in vars && WordExistsInText(deps[i], s) && deps[i] !in existing)
      && (NoDuplicates(existing) ==> NoDuplicates(deps))
    decreases |vars|
  {
    if |vars| > 0 {
      AppendVDependencies(s, vars[..|vars| - 1], existing);
      var prev := AppendV(s, vars[..|vars| - 1], existing);
      var v := vars[|vars| - 1];
      if WordExistsInText(v, s) && v !in prev.1 {
        var deps := prev.1 + [v];
        assert deps[..|existing|] == prev.1[..|existing|];
        assert existing == prev.1[..|existing|];
        assert v !in existing;
        forall i | |existing| <= i < |deps| ensures deps[i] in vars {
          if i < |prev.1| {
            assert deps[i] in vars[..|vars| - 1];
          }
        }
      }
    }
  }

  /** Every variable that occurs in `s` as a word ends up a dependency. */
  lemma {:induction false} AppendVComplete(s: string, vars: seq<string>, existing: seq<string>, v: string)
    requires v in vars && WordExistsInText(v, s)
    ensures v in AppendV(s, vars, existing).1
    decreases |vars|
  {
    var prev := AppendV(s, vars[..|vars| - 1], existing);
    AppendVDependencies(s, vars, existing);
    AppendVDependencies(s, vars[..|vars| - 1], existing);
    if v != vars[|vars| - 1] {
      assert v in vars[..|vars| - 1];
      AppendVComplete(s, vars[..|vars| - 1], existing, v);
    }
  }

  /** When every one of `vars` is already a dependency, nothing is recorded
      and the text comes back unchanged. (A single known variable is not
      protected: another variable's rewrite can still reach inside it, see
      `AppendVRewritesInsideWords`.) */
  lemma {:induction false} AppendVKnown(s: string, vars: seq<string>, existing: seq<string>)
    requires forall i :: 0 <= i < |vars| ==> vars[i] in existing
    ensures AppendV(s, vars, existing) == (s, existing)
    decreases |vars|
  {
    if |vars| > 0 {
      AppendVKnown(s, vars[..|vars| - 1], existing);
    }
  }

  /** The test is whole-word, but the rewrite replaces every occurrence of
      the name, inside longer words too, known dependencies included: with
      `ab` already a dependency, `a + ab` becomes `a.v + a.vb`. */
  lemma AppendVRewritesInsideWords()
    ensures AppendV("a + ab", ["a"], ["ab"]) == ("a.v + a.vb", ["ab", "a"])
  {
    var text := "a + ab";
    assert OccursAt(text, "a", 0) && !IsAlnum(text[1]);
    assert WholeWordAt(text, "a", 0);
    WordExistsIff("a", text);
    assert WordExistsInText("a", text);
    assert ["a"][..0] == [];
    assert AppendV(text, [], ["ab"]) == (text, ["ab"]);
    assert "a" !in ["ab"];
    assert "a" + ".v" == "a.v";
    assert AppendV(text, ["a"], ["ab"]) == (ReplaceAll(text, "a", "a.v"), ["ab"] + ["a"]);
    ReplaceInsideWords();
    assert ["ab"] + ["a"] == ["ab", "a"];
  }

  lemma ReplaceInsideWords()
    ensures ReplaceAll("a + ab", "a", "a.v") == "a.v + a.vb"
  {
    assert ReplaceAll("b", "a", "a.v") == "b";
    assert ReplaceAll("ab", "a", "a.v") == "a.vb";
    assert ReplaceAll(" ab", "a", "a.v") == " a.vb";
    assert ReplaceAll("+ ab", "a", "a.v") == "+ a.vb";
    assert ReplaceAll(" + ab", "a", "a.v") == " + a.vb";
  }

  /** Text that names none of `vars` as a word is left as it is. */
  lemma {:induction false} AppendVAbsent(s: string, vars: seq<string>, existing: seq<string>)
    requires forall i :: 0 <= i < |vars| ==> !WordExistsInText(vars[i], s)
    ensures AppendV(s, vars, existing) == (s, existing)
    decreases |vars|
  {
    if |vars| > 0 {
      AppendVAbsent(s, vars[..|vars| - 1], existing);
    }
  }

  /** `append_v_to_vars`, with `existing_depending_vars` threaded through:
      the method returns the rewritten text and the list's new contents. */
  method AppendVToVars(s: string, vars: seq<string>, existing: seq<string>) returns (result: string, deps: seq<string>)
    ensures (result, deps) == AppendV(s, vars, existing)
  {
    result := s;
    deps := existing;
    var i := 0;
    while i < |vars|
      invariant 0 <= i <= |vars|
      invariant (result, deps) == AppendV(s, vars[..i], existing)
    {
      var v := vars[i];
      assert vars[..i + 1][..i] == vars[..i];
      if WordExistsInText(v, s) && v !in deps {
        deps := deps + [v];
        result := ReplaceAll(result, v, v + ".v");
      }
      i := i + 1;
    }
    assert vars[..i] == vars;
  }

  // ---------------------------------------------------------------------
  // escape_html

  /** `format!("escapeHtml({})", s)`. */
  function EscapeCall(s: string): (r: string)
    ensures StartsWith(r, "escapeHtml(") && |r| == |s| + 12 && r[|r| - 1] == ')'
  {
    "escapeHtml(" + s + ")"
  }

  function UnwrapEscapeCall(r: string): Option<string> {
    if StartsWith(r, "escapeHtml(") && |r| >= 12 && r[|r| - 1] == ')' then Some(r[11..|r| - 1]) else None
  }

  /** The wrapped expression can be read back out of the call. */
  lemma EscapeCallRoundTrip(s: string)
    ensures UnwrapEscapeCall(EscapeCall(s)) == Some(s)
  {
    var r := EscapeCall(s);
    assert r[..11] == "escapeHtml(";
    assert r[11..|r| - 1] == s;
  }

  // ---------------------------------------------------------------------
  // The `${ ... }` scan

  const OpenTag := "${"
  const CloseTag := "}"

  /** Some `}` occurs at or after `p`. */
  ghost predicate HasCloseAfter(code: string, p: nat) {
    exists q :: p <= q < |code| && code[q] == '}'
  }

  lemma CloseOccurrence(code: string, q: int)
    ensures OccursAt(code, CloseTag, q) <==> 0 <= q < |code| && code[q] == '}'
  {
    if 0 <= q < |code| {
      assert code[q..q + 1] == [code[q]];
    }
  }

  /** Where the scan finds `${` and then `}`: the brace cannot be part of
      the `${`, so the expression between them is well defined. */
  lemma BindingBounds(code: string, from: nat, s: nat)
    requires from <= |code| && FindFrom(code, OpenTag, from) == Some(s)
    ensures s + 2 <= |code| && code[s] == '$' && code[s + 1] == '{'
    ensures var close := FindFrom(code, CloseTag, s);
      close.Some? ==> s + 2 <= close.value < |code| && code[close.value] == '}'
  {
    FindFromFound(code, OpenTag, from);
    assert code[s..s + 2] == OpenTag;
    assert code[s] == code[s..s + 2][0];
    assert code[s + 1] == code[s..s + 2][1];
    FindFromFound(code, CloseTag, s);
    var close := FindFrom(code, CloseTag, s);
    if close.Some? {
      CloseOccurrence(code, close.value);
    }
  }

  /** The scan makes progress from `from` to its end: every `${` it reaches
      finds a later `}`. */
  predicate Closed(code: string, from: nat)
    requires from <= |code|
    decreases |code| - from
  {
    match FindFrom(code, OpenTag, from)
    case None => true
    case Some(s) =>
      match FindFrom(code, CloseTag, s)
      case None => false
      case Some(e) => Closed(code, e + 1)
  }

  /** The scan finishes exactly when every `${` at or after `from` has a `}`
      somewhere after it. */
  lemma {:induction false} ClosedIff(code: string, from: nat)
    requires from <= |code|
    ensures Closed(code, from) <==> forall p :: from <= p && OccursAt(code, OpenTag, p) ==> HasCloseAfter(code, p)
    decreases |code| - from
  {
    FindFromFirst(code, OpenTag, from);
    match FindFrom(code, OpenTag, from)
    case None =>
    case Some(s) =>
      BindingBounds(code, from, s);
      FindFromFirst(code, CloseTag, s);
      match FindFrom(code, CloseTag, s)
      case None =>
        if HasCloseAfter(code, s) {
          var q :| s <= q < |code| && code[q] == '}';
          CloseOccurrence(code, q);
        }
      case Some(e) =>
        CloseOccurrence(code, e);
        ClosedIff(code, e + 1);
        forall p | from <= p <= e && OccursAt(code, OpenTag, p) ensures HasCloseAfter(code, p) {
          assert s <= p;
        }
  }

  /** One pass of the loop from `lastEnd`: `None` when it exits; otherwise
      the next `lastEnd`, which is `lastEnd` itself when the `${` found has
      no `}` after it. */
  function StepAt(code: string, lastEnd: nat): (r: Option<nat>)
    requires lastEnd <= |code|
    ensures r.Some? ==> lastEnd <= r.value <= |code|
  {
    match FindFrom(code, OpenTag, lastEnd)
    case None => None
    case Some(s) =>
      match FindFrom(code, CloseTag, s)
      case None => Some(lastEnd)
      case Some(e) => Some(e + 1)
  }

  /** The loop reaches `p` from `from` by passes that each move forward. */
  ghost predicate Reaches(code: string, from: nat, p: nat)
    requires from <= |code|
    decreases |code| - from
  {
    from == p
    || (var n := StepAt(code, from); n.Some? && n.value > from && Reaches(code, n.value, p))
  }

  /** When the text is not closed the loop reaches a state that a pass does
      not change, so it runs forever. */
  lemma {:induction false} UnclosedLoopsForever(code: string, from: nat)
    requires from <= |code| && !Closed(code, from)
    ensures exists p: nat :: p <= |code| && Reaches(code, from, p) && StepAt(code, p) == Some(p)
    decreases |code| - from
  {
    var s := FindFrom(code, OpenTag, from).value;
    match FindFrom(code, CloseTag, s)
    case None =>
      assert Reaches(code, from, from);
    case Some(e) =>
      UnclosedLoopsForever(code, e + 1);
      var p: nat :| p <= |code| && Reaches(code, e + 1, p) && StepAt(code, p) == Some(p);
      assert Reaches(code, from, p);
  }

  /** A `${ ... }` the scan finds: the text copied before it and the text
      between the braces. */
  datatype Binding = Binding(before: string, inner: string)

  /** The bindings the scan finds from `from`, and the text after the last. */
  function Split(code: string, from: nat): (r: (seq<Binding>, string))
    requires from <= |code| && Closed(code, from)
    decreases |code| - from
  {
    match FindFrom(code, OpenTag, from)
    case None => ([], code[from..])
    case Some(s) =>
      var e := FindFrom(code, CloseTag, s).value;
      BindingBounds(code, from, s);
      var rest := Split(code, e + 1);
      ([Binding(code[from..s], code[s + 2..e])] + rest.0, rest.1)
  }

  /** Every binding takes at least the three characters of `${}`. */
  lemma {:induction false} SplitCountBound(code: string, from: nat)
    requires from <= |code| && Closed(code, from)
    ensures 3 * |Split(code, from).0| <= |code| - from
    decreases |code| - from
  {
    match FindFrom(code, OpenTag, from)
    case None =>
    case Some(s) =>
      var e := SplitStep(code, from, s);
      SplitCountBound(code, e + 1);
  }

  function Reassemble(bs: seq<Binding>, tail: string): string
    decreases |bs|
  {
    if |bs| == 0 then tail
    else bs[0].before + OpenTag + bs[0].inner + CloseTag + Reassemble(bs[1..], tail)
  }

  lemma AroundBinding(code: string, from: nat, s: nat, e: nat)
    requires from <= s && s + 2 <= e < |code|
    ensures code[from..] == code[from..s] + code[s..s + 2] + code[s + 2..e] + code[e..e + 1] + code[e + 1..]
  {
  }

  lemma ReassembleCons(b: Binding, bs: seq<Binding>, tail: string)
    ensures Reassemble([b] + bs, tail) == b.before + OpenTag + b.inner + CloseTag + Reassemble(bs, tail)
  {
    assert ([b] + bs)[1..] == bs;
  }

  /** One binding in front of pieces that restore the rest of the text
      restores the text from `from` on. */
  lemma RestoreStep(code: string, from: nat, s: nat, e: nat, bs: seq<Binding>, tail: string)
    requires from <= s && s + 2 <= e < |code|
    requires code[s] == '$' && code[s + 1] == '{' && code[e] == '}'
    requires Reassemble(bs, tail) == code[e + 1..]
    ensures Reassemble([Binding(code[from..s], code[s + 2..e])] + bs, tail) == code[from..]
  {
    ReassembleCons(Binding(code[from..s], code[s + 2..e]), bs, tail);
    assert code[s..s + 2] == [code[s], code[s + 1]] == OpenTag;
    assert code[e..e + 1] == [code[e]] == CloseTag;
    AroundBinding(code, from, s, e);
  }

  /** The split loses nothing: putting the pieces back gives the text. */
  lemma {:induction false} SplitRestores(code: string, from: nat)
    requires from <= |code| && Closed(code, from)
    ensures Reassemble(Split(code, from).0, Split(code, from).1) == code[from..]
    decreases |code| - from
  {
    var start := FindFrom(code, OpenTag, from);
    if start.Some? {
      var s := start.value;
      var e := SplitStep(code, from, s);
      var rest := Split(code, e + 1);
      SplitRestores(code, e + 1);
      RestoreStep(code, from, s, e, rest.0, rest.1);
    }
  }

  /** Text with no `${` at or after `from` has no binding. */
  lemma NoOpenNoBinding(code: string, from: nat)
    requires from <= |code|
    requires forall p :: from <= p ==> !OccursAt(code, OpenTag, p)
    ensures Closed(code, from) && Split(code, from) == ([], code[from..])
  {
    FindFromFound(code, OpenTag, from);
  }

  /** The split after one found binding: the `}` that closes it, the
      binding, and the rest of the split. */
  lemma SplitStep(code: string, from: nat, s: nat) returns (e: nat)
    requires from <= |code| && Closed(code, from)
    requires FindFrom(code, OpenTag, from) == Some(s)
    ensures FindFrom(code, CloseTag, s) == Some(e)
    ensures from <= s && s + 2 <= e < |code| && Closed(code, e + 1)
    ensures code[s] == '$' && code[s + 1] == '{' && code[e] == '}'
    ensures Split(code, from) == ([Binding(code[from..s], code[s + 2..e])] + Split(code, e + 1).0, Split(code, e + 1).1)
  {
    e := FindFrom(code, CloseTag, s).value;
    BindingBounds(code, from, s);
  }

  /** The text a binding becomes: the text before it, then the rewritten
      expression as `${escapeHtml(...)}`. */
  function Wrapped(before: string, out: string): string {
    before + OpenTag + EscapeCall(out) + CloseTag
  }

  /** What is done to the expression of one binding, given the
      dependencies found so far: the new expression and the new list. */
  type Rewriter = (string, seq<string>) -> (string, seq<string>)

  /** The output text for the bindings, given each one's rewritten
      expression. */
  function EmitBindings(bs: seq<Binding>, outs: seq<string>): string
    requires |outs| == |bs|
    decreases |bs|
  {
    if |bs| == 0 then ""
    else Wrapped(bs[0].before, outs[0]) + EmitBindings(bs[1..], outs[1..])
  }

  /** The expressions `append_v_to_vars` makes of the bindings, in order,
      with the dependency list threaded from one binding to the next. */
  function RewriteBindings(bs: seq<Binding>, rw: Rewriter, existing: seq<string>): (r: (seq<string>, seq<string>))
    ensures |r.0| == |bs|
    decreases |bs|
  {
    if |bs| == 0 then ([], existing)
    else
      var step := rw(bs[0].inner, existing);
      var rest := RewriteBindings(bs[1..], rw, step.1);
      ([step.0] + rest.0, rest.1)
  }

  /** The loop of `replace_text_with_reactive_value` from `lastEnd`, with the
      text built so far (`acc`) and the dependencies found so far: the text
      it returns and the dependency list it ends with. */
  function Scan(code: string, from: nat, rw: Rewriter, acc: string, deps: seq<string>): (string, seq<string>)
    requires from <= |code| && Closed(code, from)
    decreases |code| - from
  {
    match FindFrom(code, OpenTag, from)
    case None => (acc + code[from..], deps)
    case Some(s) =>
      var e := FindFrom(code, CloseTag, s).value;
      BindingBounds(code, from, s);
      var step := rw(code[s + 2..e], deps);
      Scan(code, e + 1, rw, acc + Wrapped(code[from..s], step.0), step.1)
  }

  lemma ScanStep(code: string, from: nat, s: nat, e: nat, rw: Rewriter, acc: string, deps: seq<string>)
    requires from <= |code| && Closed(code, from)
    requires FindFrom(code, OpenTag, from) == Some(s) && FindFrom(code, CloseTag, s) == Some(e)
    ensures s + 2 <= e < |code| && Closed(code, e + 1)
    ensures var step := rw(code[s + 2..e], deps);
      Scan(code, from, rw, acc, deps) == Scan(code, e + 1, rw, acc + Wrapped(code[from..s], step.0), step.1)
  {
    BindingBounds(code, from, s);
    var step := rw(code[s + 2..e], deps);
    var w := Wrapped(code[from..s], step.0);
    assert Scan(code, from, rw, acc, deps) == Scan(code, e + 1, rw, acc + w, step.1);
  }

  lemma RewriteCons(b: Binding, rest: seq<Binding>, rw: Rewriter, deps: seq<string>)
    ensures var step := rw(b.inner, deps);
      var r := RewriteBindings(rest, rw, step.1);
      RewriteBindings([b] + rest, rw, deps) == ([step.0] + r.0, r.1)
  {
    assert ([b] + rest)[1..] == rest;
  }

  lemma EmitCons(b: Binding, rest: seq<Binding>, out: string, outs: seq<string>)
    requires |outs| == |rest|
    ensures EmitBindings([b] + rest, [out] + outs) == Wrapped(b.before, out) + EmitBindings(rest, outs)
  {
    assert ([b] + rest)[1..] == rest;
    assert ([out] + outs)[1..] == outs;
  }

  /** The scan's text is the split's, with each binding's expression
      rewritten (the dependency list threaded through) and wrapped in
      `escapeHtml`, and the text around the bindings copied. */
  lemma {:induction false} ScanTextIsSplit(code: string, from: nat, rw: Rewriter, acc: string, deps: seq<string>)
    requires from <= |code| && Closed(code, from)
    ensures var bs := Split(code, from).0;
      Scan(code, from, rw, acc, deps).0 == acc + EmitBindings(bs, RewriteBindings(bs, rw, deps).0) + Split(code, from).1
    decreases |code| - from
  {
    var start := FindFrom(code, OpenTag, from);
    if start.None? {
      SplitEnd(code, from);
      assert Scan(code, from, rw, acc, deps).0 == acc + code[from..];
      assert acc + EmitBindings([], []) + code[from..] == acc + code[from..];
    } else {
      var e := SplitStep(code, from, start.value);
      var b := Binding(code[from..start.value], code[start.value + 2..e]);
      var step := rw(b.inner, deps);
      var w := Wrapped(b.before, step.0);
      ScanStep(code, from, start.value, e, rw, acc, deps);
      ScanTextIsSplit(code, e + 1, rw, acc + w, step.1);
      TextStep(code, from, e, b, rw, acc, deps);
    }
  }

  lemma TextStep(code: string, from: nat, e: nat, b: Binding, rw: Rewriter, acc: string, deps: seq<string>)
    requires from <= |code| && Closed(code, from) && e < |code| && Closed(code, e + 1)
    requires Split(code, from) == ([b] + Split(code, e + 1).0, Split(code, e + 1).1)
    requires var step := rw(b.inner, deps);
      var w := Wrapped(b.before, step.0);
      var rest := Split(code, e + 1).0;
      Scan(code, from, rw, acc, deps).0
        == acc + w + EmitBindings(rest, RewriteBindings(rest, rw, step.1).0) + Split(code, e + 1).1
    ensures var bs := Split(code, from).0;
      Scan(code, from, rw, acc, deps).0 == acc + EmitBindings(bs, RewriteBindings(bs, rw, deps).0) + Split(code, from).1
  {
    var step := rw(b.inner, deps);
    var rest := Split(code, e + 1).0;
    var outs := RewriteBindings(rest, rw, step.1).0;
    RewriteCons(b, rest, rw, deps);
    EmitCons(b, rest, step.0, outs);
    var bs := Split(code, from).0;
    Regroup(Scan(code, from, rw, acc, deps).0, acc, Wrapped(b.before, step.0), EmitBindings(rest, outs), Split(code, e + 1).1,
      EmitBindings(bs, RewriteBindings(bs, rw, deps).0));
  }

  lemma Regroup(x: string, acc: string, w: string, emitted: string, tail: string, e: string)
    requires x == acc + w + emitted + tail && e == w + emitted
    ensures x == acc + e + tail
  {
  }

  /** The scan's dependency list is the one the rewriting of the split's
      bindings ends with. */
  lemma {:induction false} ScanDepsIsSplit(code: string, from: nat, rw: Rewriter, acc: string, deps: seq<string>)
    requires from <= |code| && Closed(code, from)
    ensures Scan(code, from, rw, acc, deps).1 == RewriteBindings(Split(code, from).0, rw, deps).1
    decreases |code| - from
  {
    var start := FindFrom(code, OpenTag, from);
    if start.None? {
      SplitEnd(code, from);
    } else {
      var s := start.value;
      var e := SplitStep(code, from, s);
      ScanStep(code, from, s, e, rw, acc, deps);
      var b := Binding(code[from..s], code[s + 2..e]);
      var step := rw(b.inner, deps);
      ScanDepsIsSplit(code, e + 1, rw, acc + Wrapped(b.before, step.0), step.1);
      RewriteCons(b, Split(code, e + 1).0, rw, deps);
    }
  }

  lemma SplitEnd(code: string, from: nat)
    requires from <= |code| && FindFrom(code, OpenTag, from).None?
    ensures Closed(code, from) && Split(code, from) == ([], code[from..])
  {
  }

  /** `append_v_to_vars` over `vars`, as the rewriter the scan applies to
      each binding. */
  function AppendVTo(vars: seq<string>): Rewriter {
    (s, existing) => AppendV(s, vars, existing)
  }

  /** The dependency list only grows: the old list is a prefix, every
      added entry is one of `vars`, and no duplicate is introduced. */
  ghost predicate Grows(deps: seq<string>, d: seq<string>, vars: seq<string>) {
    |deps| <= |d| && d[..|deps|] == deps
    && (forall i :: |deps| <= i < |d| ==> d[i] in vars)
    && (NoDuplicates(deps) ==> NoDuplicates(d))
  }

  lemma GrowsTrans(a: seq<string>, b: seq<string>, c: seq<string>, vars: seq<string>)
    requires Grows(a, b, vars) && Grows(b, c, vars)
    ensures Grows(a, c, vars)
  {
    assert c[..|a|] == c[..|b|][..|a|];
    forall i | |a| <= i < |c| ensures c[i] in vars {
      if i < |b| {
        assert c[i] == c[..|b|][i];
      }
    }
  }

  lemma {:induction false} ScanDependencies(code: string, from: nat, vars: seq<string>, acc: string, deps: seq<string>)
    requires from <= |code| && Closed(code, from)
    ensures Grows(deps, Scan(code, from, AppendVTo(vars), acc, deps).1, vars)
    decreases |code| - from
  {
    var start := FindFrom(code, OpenTag, from);
    if start.None? {
      assert deps[..|deps|] == deps;
    } else {
      var s := start.value;
      var e := FindFrom(code, CloseTag, s).value;
      ScanStep(code, from, s, e, AppendVTo(vars), acc, deps);
      var inner := code[s + 2..e];
      var step := AppendV(inner, vars, deps);
      assert AppendVTo(vars)(inner, deps) == step;
      AppendVDependencies(inner, vars, deps);
      ScanDependencies(code, e + 1, vars, acc + Wrapped(code[from..s], step.0), step.1);
      GrowsTrans(deps, step.1, Scan(code, from, AppendVTo(vars), acc, deps).1, vars);
    }
  }

  /** A text with no `${` comes back unchanged, and so do the
      dependencies. */
  lemma ScanNoBinding(code: string, rw: Rewriter)
    requires forall p :: 0 <= p ==> !OccursAt(code, OpenTag, p)
    ensures Closed(code, 0) && Scan(code, 0, rw, "", []) == (code, [])
  {
    FindFromFound(code, OpenTag, 0);
    assert Scan(code, 0, rw, "", []) == ("" + code[0..], []);
    assert "" + code[0..] == code;
  }

  /** utils.rs `replace_text_with_reactive_value`: returns the new text and
      the variables it depends on. It loops forever on a text that is not
      `Closed` (see `UnclosedLoopsForever`), so that is required. */
  method ReplaceTextWithReactiveValue(code: string, variables: seq<string>) returns (newCode: string, deps: seq<string>)
    requires Closed(code, 0)
    ensures (newCode, deps) == Scan(code, 0, AppendVTo(variables), "", [])
  {
    newCode := "";
    deps := [];
    var lastEnd := 0;
    while true
      invariant lastEnd <= |code| && Closed(code, lastEnd)
      invariant Scan(code, lastEnd, AppendVTo(variables), newCode, deps) == Scan(code, 0, AppendVTo(variables), "", [])
      decreases |code| - lastEnd
    {
      var start := FindFrom(code, OpenTag, lastEnd);
      if start.None? {
        break;
      }
      var s := start.value;
      var e := FindFrom(code, CloseTag, s).value;
      ScanStep(code, lastEnd, s, e, AppendVTo(variables), newCode, deps);
      var output;
      output, deps := AppendVToVars(code[s + 2..e], variables, deps);
      newCode := newCode + Wrapped(code[lastEnd..s], output);
      lastEnd := e + 1;
    }
    newCode := newCode + code[lastEnd..];
  }
}
