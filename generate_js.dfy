/** The code generator's building blocks (`generate_js.rs`): combining
    dependency masks, the delete-id bitmap, indentation, the element
    reference getter, event listeners, anchors for conditional content,
    the render functions of if-blocks, and the module text around it all. */
module GenerateJs {
  import opened Wrappers
  import opened Strings
  import opened Masks
  import HtmlTree
  import TransformInfo
  import opened Relations

  // ---------------------------------------------------------------------
  // get_combined_binary_number

  /** The OR of all numbers, folded from the left. */
  function CombinedOr(numbers: seq<nat>): nat
    decreases |numbers|
  {
    if |numbers| == 0 then 0 else Or(CombinedOr(numbers[..|numbers| - 1]), numbers[|numbers| - 1])
  }

  /** `get_combined_binary_number`: an accumulator ORed with each number. */
  method GetCombinedBinaryNumber(numbers: seq<nat>) returns (result: nat)
    ensures result == CombinedOr(numbers)
  {
    result := 0;
    for i := 0 to |numbers|
      invariant result == CombinedOr(numbers[..i])
    {
      assert numbers[..i + 1][..i] == numbers[..i];
      result := Or(result, numbers[i]);
    }
    assert numbers[..|numbers|] == numbers;
  }

  /** Bit `i` of the combination is set exactly when it is set in one of
      the numbers. */
  lemma {:induction false} CombinedBit(numbers: seq<nat>, i: nat)
    ensures BitSet(CombinedOr(numbers), i) <==> exists j :: 0 <= j < |numbers| && BitSet(numbers[j], i)
    decreases |numbers|
  {
    if |numbers| == 0 {
      ZeroBit(i);
    } else {
      var init := numbers[..|numbers| - 1];
      CombinedBit(init, i);
      OrBit(CombinedOr(init), numbers[|numbers| - 1], i);
      if exists j :: 0 <= j < |numbers| && BitSet(numbers[j], i) {
        var j :| 0 <= j < |numbers| && BitSet(numbers[j], i);
        if j < |init| {
          assert init[j] == numbers[j];
        }
      }
      if exists j :: 0 <= j < |init| && BitSet(init[j], i) {
        var j :| 0 <= j < |init| && BitSet(init[j], i);
        assert numbers[j] == init[j];
      }
    }
  }

  /** The order of the numbers does not matter. */
  lemma CombinedOrderFree(a: seq<nat>, b: seq<nat>)
    requires multiset(a) == multiset(b)
    ensures CombinedOr(a) == CombinedOr(b)
  {
    forall i: nat ensures BitSet(CombinedOr(a), i) == BitSet(CombinedOr(b), i) {
      CombinedBit(a, i);
      CombinedBit(b, i);
      if exists j :: 0 <= j < |a| && BitSet(a[j], i) {
        var j :| 0 <= j < |a| && BitSet(a[j], i);
        assert a[j] in multiset(b);
        var k :| 0 <= k < |b| && b[k] == a[j];
      }
      if exists j :: 0 <= j < |b| && BitSet(b[j], i) {
        var j :| 0 <= j < |b| && BitSet(b[j], i);
        assert b[j] in multiset(a);
        var k :| 0 <= k < |a| && a[k] == b[j];
      }
    }
    BitsEqual(CombinedOr(a), CombinedOr(b));
  }

  /** The documented example: 0b0001, 0b0010 and 0b0100 give 0b0111. */
  lemma CombinedExample()
    ensures CombinedOr([1, 2, 4]) == 7
  {
    assert [1, 2, 4][..2] == [1, 2] && [1, 2][..1] == [1] && [1][..0] == [];
    assert Or(0, 1) == 1;
    assert Or(1, 2) == 3 by {
      assert Or(0, 1) == 1;
    }
    assert Or(3, 4) == 7 by {
      assert Or(1, 2) == 3;
      assert Or(0, 1) == 1;
    }
  }

  /** Numbers that fit in `n` bits combine to a number that does too. */
  lemma {:induction false} CombinedBelow(numbers: seq<nat>, n: nat)
    requires forall j :: 0 <= j < |numbers| ==> numbers[j] < Pow2(n)
    ensures CombinedOr(numbers) < Pow2(n)
    decreases |numbers|
  {
    if |numbers| > 0 {
      CombinedBelow(numbers[..|numbers| - 1], n);
      OrBelow(CombinedOr(numbers[..|numbers| - 1]), numbers[|numbers| - 1], n);
    }
  }

  // ---------------------------------------------------------------------
  // gen_binary_map_from_bool

  /** The first `k` flags placed most significant first: flag `i` of `n` is
      bit `n - 1 - i`. */
  function BoolMapUpTo(bools: seq<bool>, k: nat): nat
    requires k <= |bools|
    decreases k
  {
    if k == 0 then 0 else Or(BoolMapUpTo(bools, k - 1), if bools[k - 1] then Pow2(|bools| - k) else 0)
  }

  function BoolMap(bools: seq<bool>): nat {
    BoolMapUpTo(bools, |bools|)
  }

  /** A set flag whose shift, `len - i - 1`, is 32 or more: `1u32 << s`
      overflows there. */
  predicate ShiftOverflows(bools: seq<bool>) {
    exists i :: 0 <= i < |bools| && bools[i] && |bools| - i - 1 >= 32
  }

  const ShiftOverflow := "attempt to shift left with overflow"

  /** `gen_binary_map_from_bool`: ORs `1 << (len - i - 1)` into the result
      for each set flag. */
  method GenBinaryMapFromBool(bools: seq<bool>) returns (r: Result<nat>)
    ensures r.Err? <==> ShiftOverflows(bools)
    ensures r.Ok? ==> r.value == BoolMap(bools) && r.value < Pow2(32)
  {
    var result := 0;
    for i := 0 to |bools|
      invariant result == BoolMapUpTo(bools, i)
      invariant forall j :: 0 <= j < i && bools[j] ==> |bools| - j - 1 < 32
    {
      if bools[i] {
        if |bools| - i - 1 >= 32 {
          return Err(Panic(ShiftOverflow));
        }
        result := Or(result, Pow2(|bools| - i - 1));
      } else {
        OrZero(result);
      }
    }
    BoolMapFits(bools);
    return Ok(result);
  }

  /** Bit `j` of the first `k` flags' map is set exactly when flag
      `len - 1 - j` is among them and set. */
  lemma {:induction false} BoolMapUpToBit(bools: seq<bool>, k: nat, j: nat)
    requires k <= |bools|
    ensures BitSet(BoolMapUpTo(bools, k), j) <==> |bools| - k <= j < |bools| && bools[|bools| - 1 - j]
    decreases k
  {
    if k == 0 {
      ZeroBit(j);
    } else {
      BoolMapUpToBit(bools, k - 1, j);
      var b := if bools[k - 1] then Pow2(|bools| - k) else 0;
      OrBit(BoolMapUpTo(bools, k - 1), b, j);
      Pow2Bit(|bools| - k, j);
      ZeroBit(j);
    }
  }

  /** The map is most significant first: bit `j` is set exactly when flag
      `len - 1 - j` is. */
  lemma BoolMapBit(bools: seq<bool>, j: nat)
    ensures BitSet(BoolMap(bools), j) <==> j < |bools| && bools[|bools| - 1 - j]
  {
    BoolMapUpToBit(bools, |bools|, j);
  }

  /** The map has one bit per flag: it is below `2^len`, and below `2^32`
      whenever no shift overflows. */
  lemma BoolMapFits(bools: seq<bool>)
    ensures BoolMap(bools) < Pow2(|bools|)
    ensures !ShiftOverflows(bools) ==> BoolMap(bools) < Pow2(32)
  {
    BoolMapBelow(bools, |bools|, |bools|);
    if !ShiftOverflows(bools) {
      BoolMapBelow(bools, |bools|, 32);
    }
  }

  lemma {:induction false} BoolMapBelow(bools: seq<bool>, k: nat, n: nat)
    requires k <= |bools|
    requires forall i :: 0 <= i < k && bools[i] ==> |bools| - i - 1 < n
    ensures BoolMapUpTo(bools, k) < Pow2(n)
    decreases k
  {
    if k > 0 {
      BoolMapBelow(bools, k - 1, n);
      if bools[k - 1] {
        Pow2Monotone(|bools| - k + 1, n);
        OrBelow(BoolMapUpTo(bools, k - 1), Pow2(|bools| - k), n);
      } else {
        OrZero(BoolMapUpTo(bools, k - 1));
      }
    }
  }

  // ---------------------------------------------------------------------
  // create_indent

  const Indent := "    "

  /** A non-empty line gains the indent; an empty one stays empty. */
  function IndentLine(line: string): string {
    if line == "" then "" else Indent + line
  }

  function IndentLines(lines: seq<string>): (r: seq<string>)
    ensures |r| == |lines| && forall i :: 0 <= i < |lines| ==> r[i] == IndentLine(lines[i])
    decreases |lines|
  {
    if |lines| == 0 then [] else IndentLines(lines[..|lines| - 1]) + [IndentLine(lines[|lines| - 1])]
  }

  /** The indented text: its lines, indented, joined by `\n`. */
  function IndentText(s: string): string {
    Join(IndentLines(Lines(s)), "\n")
  }

  lemma {:induction false} JoinSnoc(xs: seq<string>, x: string, sep: string)
    requires |xs| > 0
    ensures Join(xs + [x], sep) == Join(xs, sep) + sep + x
    decreases |xs|
  {
    if |xs| == 1 {
      assert (xs + [x])[1..] == [x];
    } else {
      assert (xs + [x])[1..] == xs[1..] + [x];
      JoinSnoc(xs[1..], x, sep);
    }
  }

  /** The text after the first `i` of the lines: those lines indented
      and joined, then a `\n` unless every line is done. */
  function Emitted(lines: seq<string>, i: nat): string
    requires i <= |lines|
  {
    if i == 0 then "" else Join(IndentLines(lines[..i]), "\n") + (if i < |lines| then "\n" else "")
  }

  lemma EmittedStep(lines: seq<string>, i: nat)
    requires i < |lines|
    ensures Emitted(lines, i + 1) == Emitted(lines, i) + IndentLine(lines[i]) + (if i != |lines| - 1 then "\n" else "")
  {
    assert lines[..i + 1] == lines[..i] + [lines[i]];
    assert IndentLines(lines[..i + 1]) == IndentLines(lines[..i]) + [IndentLine(lines[i])];
    if i > 0 {
      JoinSnoc(IndentLines(lines[..i]), IndentLine(lines[i]), "\n");
    } else {
      assert IndentLines(lines[..1]) == [IndentLine(lines[0])];
    }
  }

  /** `create_indent`: for each line, the indent and the line unless it is
      empty, then a `\n` unless it is the last line. */
  method CreateIndent(s: string) returns (output: string)
    ensures output == IndentText(s)
  {
    output := "";
    var lines := Lines(s);
    var n := |lines|;
    for i := 0 to n
      invariant output == Emitted(lines, i)
    {
      EmittedStep(lines, i);
      ghost var before := output;
      if lines[i] != "" {
        output := output + (Indent + lines[i]);
      }
      assert output == before + IndentLine(lines[i]);
      if i != n - 1 {
        output := output + "\n";
      }
    }
    assert lines[..n] == lines;
  }

  /** Splitting the indented text at `\n` gives back the lines, each
      indented unless empty: no line is merged, split or added, and there
      is no trailing newline. */
  lemma IndentedLines(s: string)
    requires |Lines(s)| > 0
    ensures SplitOn(IndentText(s), '\n') == IndentLines(Lines(s))
  {
    var ls := IndentLines(Lines(s));
    forall i | 0 <= i < |ls| ensures '\n' !in ls[i] {
      assert '\n' !in Lines(s)[i];
    }
    SplitJoin(ls, '\n');
  }

  /** Dropping the indent from every piece gives back the original lines,
      and only the empty lines stay without indent. */
  lemma UnindentRestores(s: string, i: nat)
    requires i < |Lines(s)|
    ensures var pieces := SplitOn(IndentText(s), '\n');
      i < |pieces|
      && (pieces[i] == "" <==> Lines(s)[i] == "")
      && (pieces[i] != "" ==> |pieces[i]| >= |Indent| && pieces[i][..|Indent|] == Indent && pieces[i][|Indent|..] == Lines(s)[i])
  {
    IndentedLines(s);
  }

  // ---------------------------------------------------------------------
  // gen_ref_getter_from_needed_ids

  /** The ids outside every if-block, in order. */
  function TopLevel(needed: seq<NeededId>): (r: seq<NeededId>)
    ensures |r| <= |needed| && forall i :: 0 <= i < |r| ==> r[i].ctx == [] && r[i] in needed
    decreases |needed|
  {
    if |needed| == 0 then []
    else
      var init := TopLevel(needed[..|needed| - 1]);
      var last := needed[|needed| - 1];
      assert forall x :: x in init ==> x in needed[..|needed| - 1];
      if last.ctx == [] then init + [last] else init
  }

  /** Every id outside the if-blocks is in the list. */
  lemma {:induction false} TopLevelComplete(needed: seq<NeededId>, x: NeededId)
    requires x in needed && x.ctx == []
    ensures x in TopLevel(needed)
    decreases |needed|
  {
    var init := needed[..|needed| - 1];
    if x != needed[|needed| - 1] {
      assert x in init;
      TopLevelComplete(init, x);
    }
  }

  function RefNames(ids: seq<NeededId>): (r: seq<string>)
    ensures |r| == |ids| && forall i :: 0 <= i < |ids| ==> r[i] == ids[i].nodeId + "Ref"
    decreases |ids|
  {
    if |ids| == 0 then [] else RefNames(ids[..|ids| - 1]) + [ids[|ids| - 1].nodeId + "Ref"]
  }

  function QuotedIds(ids: seq<NeededId>): (r: seq<string>)
    ensures |r| == |ids| && forall i :: 0 <= i < |ids| ==> r[i] == "\"" + ids[i].idName + "\""
    decreases |ids|
  {
    if |ids| == 0 then [] else QuotedIds(ids[..|ids| - 1]) + ["\"" + ids[|ids| - 1].idName + "\""]
  }

  function DeleteFlags(ids: seq<NeededId>): (r: seq<bool>)
    ensures |r| == |ids| && forall i :: 0 <= i < |ids| ==> r[i] == ids[i].toDelete
    decreases |ids|
  {
    if |ids| == 0 then [] else DeleteFlags(ids[..|ids| - 1]) + [ids[|ids| - 1].toDelete]
  }

  /** Some id other than the last 32 is to be deleted. */
  predicate DeletesBeforeLast32(ids: seq<NeededId>) {
    exists i :: 0 <= i < |ids| - 32 && ids[i].toDelete
  }

  /** The shift overflows exactly when an id before the last 32 is to be
      deleted. */
  lemma DeleteOverflowIff(ids: seq<NeededId>)
    ensures ShiftOverflows(DeleteFlags(ids)) <==> DeletesBeforeLast32(ids)
  {
    var flags := DeleteFlags(ids);
    if ShiftOverflows(flags) {
      var i :| 0 <= i < |flags| && flags[i] && |flags| - i - 1 >= 32;
      assert ids[i].toDelete;
    }
    if exists i :: 0 <= i < |ids| - 32 && ids[i].toDelete {
      var i :| 0 <= i < |ids| - 32 && ids[i].toDelete;
      assert flags[i];
    }
  }

  /** `gen_ref_getter_from_needed_ids`: one destructuring statement that
      binds `<node>Ref` for every id outside the if-blocks, from
      `getElmRefs` over their ids and the bitmap of those to delete. */
  function RefGetter(needed: seq<NeededId>): (r: Result<string>)
    ensures r.Err? <==> DeletesBeforeLast32(TopLevel(needed))
    ensures r.Err? ==> r.error == Panic(ShiftOverflow)
    ensures r.Ok? ==> StartsWith(r.value, "const [") && EndsWith(r.value, ");")
  {
    var top := TopLevel(needed);
    var flags := DeleteFlags(top);
    DeleteOverflowIff(top);
    if ShiftOverflows(flags) then Err(Panic(ShiftOverflow))
    else Ok("const [" + Join(RefNames(top), ", ") + "] = getElmRefs([" + Join(QuotedIds(top), ", ") + "], "
            + NatToString(BoolMap(flags)) + ");")
  }

  /** The reference names, the ids and the bitmap describe the same ids in
      the same order: entry `i` binds `<node>Ref` to id `i`, and bit
      `n - 1 - i` of the bitmap says whether that id is to be deleted. */
  lemma RefGetterAligned(needed: seq<NeededId>, i: nat)
    requires i < |TopLevel(needed)|
    ensures var top := TopLevel(needed);
      var n := |top|;
      |RefNames(top)| == n && |QuotedIds(top)| == n && |DeleteFlags(top)| == n
      && RefNames(top)[i] == top[i].nodeId + "Ref" && QuotedIds(top)[i] == "\"" + top[i].idName + "\""
      && (BitSet(BoolMap(DeleteFlags(top)), n - 1 - i) <==> top[i].toDelete)
  {
    var top := TopLevel(needed);
    var flags := DeleteFlags(top);
    var j := |top| - 1 - i;
    BoolMapBit(flags, j);
    assert |flags| - 1 - j == i;
    assert flags[i] == top[i].toDelete;
  }

  // ---------------------------------------------------------------------
  // create_event_listener

  function ListenerPrefix(a: TransformInfo.ActionAndTarget): string {
    "addEvListener(" + a.target + "Ref, \"" + a.actionName + "\", "
  }

  /** The listener statement for one action. */
  function Listener(a: TransformInfo.ActionAndTarget): (r: string)
    ensures StartsWith(r, ListenerPrefix(a)) && EndsWith(r, ");")
    ensures |r| >= |ListenerPrefix(a)| + 2 && r[|ListenerPrefix(a)|..|r| - 2] == TransformInfo.ToString(a.action)
  {
    var r := ListenerPrefix(a) + TransformInfo.ToString(a.action) + ");";
    assert r[|ListenerPrefix(a)|..|r| - 2] == TransformInfo.ToString(a.action);
    r
  }

  /** `create_event_listener`: one statement per action, in order. */
  method CreateEventListener(actions: seq<TransformInfo.ActionAndTarget>) returns (result: seq<string>)
    ensures |result| == |actions| && forall i :: 0 <= i < |actions| ==> result[i] == Listener(actions[i])
  {
    result := [];
    for i := 0 to |actions|
      invariant |result| == i && forall j :: 0 <= j < i ==> result[j] == Listener(actions[j])
    {
      result := result + [Listener(actions[i])];
    }
  }

  /** The handler of a listener built from an attribute value can be read
      back from the emitted statement. */
  lemma ListenerHandlerReadsBack(a: TransformInfo.ActionAndTarget, content: string, variables: seq<string>)
    requires a.action == TransformInfo.New(content, variables)
    ensures var r := Listener(a);
      TransformInfo.ParseHandler(r[|ListenerPrefix(a)|..|r| - 2]) == a.action
  {
    TransformInfo.HandlerRoundTrip(content, variables);
  }

  // ---------------------------------------------------------------------
  // gen_create_anchor_statements

  /** An entry of `TextNodeRendererGroup`: a reactive text among siblings
      or an if-block. */
  datatype TextNodeRenderer =
    | ManualRenderer(text: ManualRendererForTextNode)
    | IfBlockRenderer(block: IfBlockInfo)

  function AnchorRef(anchor: Option<string>): string {
    if anchor.Some? then anchor.value + "Ref" else "null"
  }

  /** The statement a renderer contributes for the context `ctxCond`: a
      reactive text in that context inserts its text node, and an if-block
      in that context that is not followed at once by an element (or the
      end) inserts an empty anchor. */
  function AnchorStatement(r: TextNodeRenderer, ctxCond: seq<string>): Option<string> {
    match r
    case ManualRenderer(t) =>
      if t.ctx != ctxCond then None
      else Some("const " + t.textNodeId + "Text = insertContent(`" + Trim(t.content) + "`," + t.parentId + "Ref,"
                + AnchorRef(t.targetAnchorId) + ");")
    case IfBlockRenderer(b) =>
      if b.distanceToNextElm > 1 && b.ctx == ctxCond
      then Some("const " + b.ifBlockId + "Anchor = insertEmpty(" + b.parentId + "Ref," + AnchorRef(b.targetAnchorId) + ");")
      else None
  }

  /** The statements of the first `k` renderers, in order. */
  function AnchorStatements(rs: seq<TextNodeRenderer>, ctxCond: seq<string>, k: nat): seq<string>
    requires k <= |rs|
    decreases k
  {
    if k == 0 then []
    else
      var s := AnchorStatement(rs[k - 1], ctxCond);
      AnchorStatements(rs, ctxCond, k - 1) + (if s.Some? then [s.value] else [])
  }

  /** `gen_create_anchor_statements`, on the renderers already put in
      rendering order. */
  method GenCreateAnchorStatements(rs: seq<TextNodeRenderer>, ctxCond: seq<string>) returns (result: seq<string>)
    ensures result == AnchorStatements(rs, ctxCond, |rs|)
  {
    result := [];
    for i := 0 to |rs|
      invariant result == AnchorStatements(rs, ctxCond, i)
    {
      match rs[i] {
        case ManualRenderer(t) =>
          if t.ctx != ctxCond {
            continue;
          }
          var anchorId := if t.targetAnchorId.Some? then t.targetAnchorId.value + "Ref" else "null";
          result := result + ["const " + t.textNodeId + "Text = insertContent(`" + Trim(t.content) + "`," + t.parentId + "Ref," + anchorId + ");"];
        case IfBlockRenderer(b) =>
          if b.distanceToNextElm > 1 {
            if b.ctx != ctxCond {
              continue;
            }
            var anchorId := if b.targetAnchorId.Some? then b.targetAnchorId.value + "Ref" else "null";
            result := result + ["const " + b.ifBlockId + "Anchor = insertEmpty(" + b.parentId + "Ref," + anchorId + ");"];
          }
      }
    }
  }

  /** The renderers that contribute a statement. */
  predicate Contributes(r: TextNodeRenderer, ctxCond: seq<string>) {
    match r
    case ManualRenderer(t) => t.ctx == ctxCond
    case IfBlockRenderer(b) => b.ctx == ctxCond && b.distanceToNextElm > 1
  }

  function CountContributing(rs: seq<TextNodeRenderer>, ctxCond: seq<string>, k: nat): nat
    requires k <= |rs|
    decreases k
  {
    if k == 0 then 0 else CountContributing(rs, ctxCond, k - 1) + (if Contributes(rs[k - 1], ctxCond) then 1 else 0)
  }

  /** Exactly the reactive texts and the if-blocks with distance above 1
      whose context is `ctxCond` contribute, one statement each. */
  lemma {:induction false} AnchorStatementsCount(rs: seq<TextNodeRenderer>, ctxCond: seq<string>, k: nat)
    requires k <= |rs|
    ensures |AnchorStatements(rs, ctxCond, k)| == CountContributing(rs, ctxCond, k)
    decreases k
  {
    if k > 0 {
      AnchorStatementsCount(rs, ctxCond, k - 1);
    }
  }

  // ---------------------------------------------------------------------
  // gen_render_if_statements

  /** Where a block's element is inserted: before its own empty anchor
      when non-elements follow it, otherwise before the next element
      (`null`, the end, when there is none). */
  function InsertElm(b: IfBlockInfo, name: string): string {
    if b.distanceToNextElm > 1 then b.parentId + "Ref.insertBefore(" + name + ", " + b.ifBlockId + "Anchor);"
    else if b.targetAnchorId.Some? then b.parentId + "Ref.insertBefore(" + name + ", " + b.targetAnchorId.value + "Ref);"
    else b.parentId + "Ref.insertBefore(" + name + ", null);"
  }

  /** The insertion point of a block with non-elements after it is the
      anchor the anchor statements declare for it, in the block's context;
      a block followed at once by an element or the end gets no anchor and
      is inserted before that element's reference or `null`. */
  lemma InsertionUsesDeclaredAnchor(b: IfBlockInfo, name: string)
    ensures var a := AnchorStatement(IfBlockRenderer(b), b.ctx);
      (b.distanceToNextElm > 1 <==> a.Some?)
      && (a.Some? ==> StartsWith(a.value, "const " + b.ifBlockId + "Anchor = ")
                      && EndsWith(InsertElm(b, name), ", " + b.ifBlockId + "Anchor);"))
      && (a.None? ==> EndsWith(InsertElm(b, name), ", " + AnchorRef(b.targetAnchorId) + ");"))
  {
    var p := b.parentId + "Ref.insertBefore(" + name;
    if b.distanceToNextElm > 1 {
      assert InsertElm(b, name) == p + (", " + b.ifBlockId + "Anchor);");
    } else if b.targetAnchorId.Some? {
      assert InsertElm(b, name) == p + (", " + b.targetAnchorId.value + "Ref" + ");");
    } else {
      assert InsertElm(b, name) == p + (", " + "null" + ");");
    }
  }

  /** The context of the ids inside a block. */
  function BlockCtx(b: IfBlockInfo): seq<string> {
    b.ctx + [b.ifBlockId]
  }

  /** The ids inside the block, without the block's own element. */
  function InBlock(needed: seq<NeededId>, b: IfBlockInfo): (r: seq<NeededId>)
    ensures |r| <= |needed|
    decreases |needed|
  {
    if |needed| == 0 then []
    else
      var last := needed[|needed| - 1];
      InBlock(needed[..|needed| - 1], b) + (if last.ctx == BlockCtx(b) && last.nodeId != b.ifBlockId then [last] else [])
  }

  /** The ids inside the block, the block's own element included: the
      bitmap is built from these. */
  function InBlockAll(needed: seq<NeededId>, b: IfBlockInfo): (r: seq<NeededId>)
    decreases |needed|
  {
    if |needed| == 0 then []
    else
      var last := needed[|needed| - 1];
      InBlockAll(needed[..|needed| - 1], b) + (if last.ctx == BlockCtx(b) then [last] else [])
  }

  /** How many ids in the block's context belong to the block's own
      element. */
  function OwnIds(needed: seq<NeededId>, b: IfBlockInfo): nat
    decreases |needed|
  {
    if |needed| == 0 then 0
    else
      var last := needed[|needed| - 1];
      OwnIds(needed[..|needed| - 1], b) + (if last.ctx == BlockCtx(b) && last.nodeId == b.ifBlockId then 1 else 0)
  }

  /** The getter inside a render function binds the block's ids except its
      own element's, but its bitmap has a flag for every id in the block's
      context: once the block's element itself has an id recorded in that
      context, the bitmap has more flags than there are references, and its
      bits no longer line up with them. */
  lemma {:induction false} BlockBitmapWider(needed: seq<NeededId>, b: IfBlockInfo)
    ensures |InBlockAll(needed, b)| == |InBlock(needed, b)| + OwnIds(needed, b)
    decreases |needed|
  {
    if |needed| > 0 {
      BlockBitmapWider(needed[..|needed| - 1], b);
    }
  }

  /** The getter statement inside a render function, or nothing when the
      block binds no id. */
  function BlockRefGetter(needed: seq<NeededId>, b: IfBlockInfo): Result<string> {
    var ids := InBlock(needed, b);
    if |ids| == 0 then Ok("")
    else
      var flags := DeleteFlags(InBlockAll(needed, b));
      if ShiftOverflows(flags) then Err(Panic(ShiftOverflow))
      else Ok("\n[" + Join(RefNames(ids), ", ") + "] = getElmRefs([" + Join(QuotedIds(ids), ",") + "], "
              + NatToString(BoolMap(flags)) + ");")
  }

  function RenderCalls(children: seq<IfBlockInfo>): (r: seq<string>)
    ensures |r| == |children|
    decreases |children|
  {
    if |children| == 0 then []
    else RenderCalls(children[..|children| - 1]) + [children[|children| - 1].condition + " && render" + children[|children| - 1].ifBlockId + "Elm()"]
  }

  /** The calls that render the nested blocks, one per line. */
  function ChildRendering(children: seq<IfBlockInfo>): string {
    if |children| != 0 then "\n" + Join(RenderCalls(children), "\n") else ""
  }

  function IndentEach(codes: seq<string>): (r: seq<string>)
    ensures |r| == |codes| && forall i :: 0 <= i < |codes| ==> r[i] == IndentText(codes[i])
    decreases |codes|
  {
    if |codes| == 0 then [] else IndentEach(codes[..|codes| - 1]) + [IndentText(codes[|codes| - 1])]
  }

  /** The code that builds an element (`generate_element_on_js`, given
      the block's element and id): a variable name and its statements. */
  type GenElm = (HtmlTree.Element, string) -> (string, seq<string>)

  /** The blocks nested directly in a block (`IfBlockInfo::find_children`). */
  type FindChildren = (IfBlockInfo, seq<IfBlockInfo>) -> seq<IfBlockInfo>

  const BlockOverflow := "attempt to multiply with overflow"

  /** The render function of block `index`: it builds the element, inserts
      it, marks the block as rendered in `refs[3]` and `refs[4]` with bit
      `index`, binds the block's ids and renders the nested blocks whose
      condition holds. A block whose sub-tree is not an element aborts, and
      so does `2^index` from index 64 on. */
  function RenderFunction(blocks: seq<IfBlockInfo>, index: nat, needed: seq<NeededId>, genElm: GenElm, findChildren: FindChildren): Result<string>
    requires index < |blocks|
  {
    var b := blocks[index];
    if !b.elm.content.Element? then Err(Panic("explicit panic"))
    else
      var (name, code) := genElm(b.elm.content.element, b.ifBlockId);
      match BlockRefGetter(needed, b)
      case Err(e) => Err(e)
      case Ok(getter) =>
        if index >= 64 then Err(Panic(BlockOverflow))
        else
          var n := NatToString(Pow2(index));
          Ok("const render" + b.ifBlockId + "Elm = () => {\n" + Join(IndentEach(code), "\n") + "\n"
             + IndentText(InsertElm(b, name)) + "\n" + IndentText("refs[3] |= " + n + ", refs[4] |= " + n + ";")
             + IndentText(getter) + IndentText(ChildRendering(findChildren(b, blocks))) + "\n}")
  }

  /** What block `index` contributes: its render function, and, for a
      block outside every other block, the call that renders it when its
      condition holds. */
  function RenderIfStep(blocks: seq<IfBlockInfo>, index: nat, needed: seq<NeededId>, genElm: GenElm, findChildren: FindChildren): (r: Result<seq<string>>)
    requires index < |blocks|
    ensures r.Ok? ==> |r.value| == 1 + (if blocks[index].ctx == [] then 1 else 0)
    ensures r.Ok? && blocks[index].ctx == [] ==> r.value[1] == blocks[index].condition + " && render" + blocks[index].ifBlockId + "Elm()"
  {
    match RenderFunction(blocks, index, needed, genElm, findChildren)
    case Err(e) => Err(e)
    case Ok(f) =>
      var b := blocks[index];
      Ok([f] + (if b.ctx == [] then [b.condition + " && render" + b.ifBlockId + "Elm()"] else []))
  }

  /** The contributions of all blocks, in order. */
  function RenderIfSteps(blocks: seq<IfBlockInfo>, needed: seq<NeededId>, genElm: GenElm, findChildren: FindChildren): (r: seq<Result<seq<string>>>)
    ensures |r| == |blocks| && forall i :: 0 <= i < |blocks| ==> r[i] == RenderIfStep(blocks, i, needed, genElm, findChildren)
  {
    seq(|blocks|, i requires 0 <= i < |blocks| => RenderIfStep(blocks, i, needed, genElm, findChildren))
  }

  /** The concatenated contributions, or the first failure. */
  function Collect(steps: seq<Result<seq<string>>>): Result<seq<string>>
    decreases |steps|
  {
    if |steps| == 0 then Ok([])
    else match Collect(steps[..|steps| - 1])
      case Err(e) => Err(e)
      case Ok(prev) =>
        match steps[|steps| - 1]
        case Err(e) => Err(e)
        case Ok(more) => Ok(prev + more)
  }

  /** The statements of every block. */
  function RenderIf(blocks: seq<IfBlockInfo>, needed: seq<NeededId>, genElm: GenElm, findChildren: FindChildren): Result<seq<string>> {
    Collect(RenderIfSteps(blocks, needed, genElm, findChildren))
  }

  lemma {:induction false} CollectErr(steps: seq<Result<seq<string>>>, k: nat)
    requires k <= |steps| && Collect(steps[..k]).Err?
    ensures Collect(steps) == Collect(steps[..k])
    decreases |steps|
  {
    if k < |steps| {
      assert steps[..|steps| - 1][..k] == steps[..k];
      CollectErr(steps[..|steps| - 1], k);
    } else {
      assert steps[..k] == steps;
    }
  }

  /** Collecting two lists of contributions one after the other is
      collecting each and concatenating, the first failure winning. */
  lemma {:induction false} CollectAppend(a: seq<Result<seq<string>>>, b: seq<Result<seq<string>>>)
    ensures Collect(a + b) == match Collect(a)
      case Err(e) => Err(e)
      case Ok(x) => (match Collect(b) case Err(e) => Err(e) case Ok(y) => Ok(x + y))
    decreases |b|
  {
    if |b| == 0 {
      assert a + b == a;
      if Collect(a).Ok? {
        assert Collect(a).value + [] == Collect(a).value;
      }
    } else {
      var b' := b[..|b| - 1];
      assert (a + b)[..|a + b| - 1] == a + b';
      CollectAppend(a, b');
      if Collect(a).Ok? && Collect(b').Ok? && b[|b| - 1].Ok? {
        assert Collect(a).value + Collect(b').value + b[|b| - 1].value == Collect(a).value + (Collect(b').value + b[|b| - 1].value);
      }
    }
  }

  /** `gen_render_if_statements`. */
  method GenRenderIfStatements(blocks: seq<IfBlockInfo>, needed: seq<NeededId>, genElm: GenElm, findChildren: FindChildren)
    returns (r: Result<seq<string>>)
    ensures r == RenderIf(blocks, needed, genElm, findChildren)
  {
    ghost var steps := RenderIfSteps(blocks, needed, genElm, findChildren);
    var renderIf: seq<string> := [];
    for index := 0 to |blocks|
      invariant Collect(steps[..index]) == Ok(renderIf)
    {
      var step := RenderIfStep(blocks, index, needed, genElm, findChildren);
      assert steps[..index + 1][..index] == steps[..index];
      assert step == steps[index];
      if step.Err? {
        CollectErr(steps, index + 1);
        return Err(step.error);
      }
      renderIf := renderIf + step.value;
    }
    assert steps[..|blocks|] == steps;
    r := Ok(renderIf);
  }

  /** How many contributions of the first `k` are from blocks outside
      every other block. */
  function CountTopBlocks(blocks: seq<IfBlockInfo>, k: nat): nat
    requires k <= |blocks|
    decreases k
  {
    if k == 0 then 0 else CountTopBlocks(blocks, k - 1) + (if blocks[k - 1].ctx == [] then 1 else 0)
  }

  lemma {:induction false} CollectCount(blocks: seq<IfBlockInfo>, steps: seq<Result<seq<string>>>, k: nat)
    requires k <= |steps| == |blocks|
    requires forall i :: 0 <= i < |steps| && steps[i].Ok? ==> |steps[i].value| == 1 + (if blocks[i].ctx == [] then 1 else 0)
    requires Collect(steps[..k]).Ok?
    ensures |Collect(steps[..k]).value| == k + CountTopBlocks(blocks, k)
    decreases k
  {
    if k > 0 {
      assert steps[..k][..k - 1] == steps[..k - 1];
      CollectCount(blocks, steps, k - 1);
    }
  }

  /** Every block gets one render function, and only the blocks outside
      every other block also get a call that renders them at start-up;
      nested blocks are rendered by their parent's render function. */
  lemma RenderIfCount(blocks: seq<IfBlockInfo>, needed: seq<NeededId>, genElm: GenElm, findChildren: FindChildren)
    requires RenderIf(blocks, needed, genElm, findChildren).Ok?
    ensures |RenderIf(blocks, needed, genElm, findChildren).value| == |blocks| + CountTopBlocks(blocks, |blocks|)
  {
    var steps := RenderIfSteps(blocks, needed, genElm, findChildren);
    assert steps[..|blocks|] == steps;
    CollectCount(blocks, steps, |blocks|);
  }

  /** A render function aborts exactly when the block's sub-tree is not an
      element, when its bitmap needs a shift of 32 or more, or when its
      index is 64 or more. */
  lemma RenderFunctionFails(blocks: seq<IfBlockInfo>, index: nat, needed: seq<NeededId>, genElm: GenElm, findChildren: FindChildren)
    requires index < |blocks|
    ensures var b := blocks[index];
      RenderFunction(blocks, index, needed, genElm, findChildren).Err? <==>
        !b.elm.content.Element? || index >= 64
        || (|InBlock(needed, b)| > 0 && ShiftOverflows(DeleteFlags(InBlockAll(needed, b))))
  {
  }

  // ---------------------------------------------------------------------
  // gen_full_code and the defaults of generate_js_from_blocks

  const ImportLine := "import { reactiveValue, getElmRefs, addEvListener, genUpdateFunc, escapeHtml, replaceInnerText, replaceText, replaceAttr, insertEmpty,insertContent } from '"

  function Header(noExport: bool): string {
    if noExport then "const App = " else "export default "
  }

  const RefsInit := "function(elm) {\n    const refs = [null, false, 0, 0, 0];\n"

  /** What follows the module path in the import line. */
  function AfterPath(codes: seq<string>, noExport: bool): string {
    "\n\n" + Header(noExport) + RefsInit + Join(IndentEach(codes), "\n") + "\n}"
  }

  /** `gen_full_code`: the runtime import, the component header, the
      `refs` array and the indented statements, closed by `}`. */
  function FullCode(codes: seq<string>, noExport: bool, runtimePath: string): (r: string)
    ensures |r| > |ImportLine| + |runtimePath|
    ensures StartsWith(r, ImportLine) && r[|ImportLine|..|ImportLine| + |runtimePath| + 1] == runtimePath + "'"
  {
    ImportLine + runtimePath + "'" + AfterPath(codes, noExport)
  }

  lemma QuotedPrefixReadsBack(pre: string, path: string, tail: string)
    requires '\'' !in path
    ensures SplitOn((pre + path + "'" + tail)[|pre|..], '\'')[0] == path
  {
    var s := pre + path + "'" + tail;
    assert s[|pre|..] == path + ['\''] + tail;
    IndexOfFirstSeparator(path, '\'', tail);
    assert (path + ['\''] + tail)[..|path|] == path;
  }

  /** The module path can be read back from the code when it holds no
      quote. */
  lemma FullCodeReadsBackPath(codes: seq<string>, noExport: bool, runtimePath: string)
    requires '\'' !in runtimePath
    ensures SplitOn(FullCode(codes, noExport, runtimePath)[|ImportLine|..], '\'')[0] == runtimePath
  {
    QuotedPrefixReadsBack(ImportLine, runtimePath, AfterPath(codes, noExport));
  }

  /** The export choice can be read back from the code: the header after
      the path starts with `c` (`const App = `) exactly when the module is
      not exported. */
  lemma FullCodeReadsBackExport(codes: seq<string>, noExport: bool, runtimePath: string)
    ensures var r := FullCode(codes, noExport, runtimePath);
      |r| > |ImportLine| + |runtimePath| + 3
      && (r[|ImportLine| + |runtimePath| + 3] == 'c' <==> noExport)
  {
    var tail := AfterPath(codes, noExport);
    var pre := ImportLine + runtimePath + "'";
    assert tail[2] == Header(noExport)[0];
    assert (pre + tail)[|pre| + 2] == tail[2];
  }

  /** The layout of the module after the import line: the header
      (`const App = ` when not exported, `export default ` otherwise), the
      component function opening with `refs` set to
      `[null, false, 0, 0, 0]`, the indented statements, and the closing
      `}`. */
  lemma FullCodeLayout(codes: seq<string>, noExport: bool, runtimePath: string)
    ensures var r := FullCode(codes, noExport, runtimePath);
      var at := |ImportLine| + |runtimePath| + 3;
      var h := Header(noExport) + RefsInit;
      var body := Join(IndentEach(codes), "\n");
      |r| == at + |h| + |body| + 2
      && r[at - 2..at] == "\n\n" && r[at..at + |h|] == h && r[at + |h|..|r| - 2] == body && r[|r| - 2..] == "\n}"
  {
    FunctionLayout(ImportLine, runtimePath, Header(noExport), RefsInit, Join(IndentEach(codes), "\n"));
  }

  /** The header and the opening of the component function, spelled out. */
  lemma HeaderText(noExport: bool)
    ensures Header(noExport) + RefsInit == (if noExport then "const App = " else "export default ")
              + "function(elm) {\n    const refs = [null, false, 0, 0, 0];\n"
  {
  }

  /** Where the parts lie in an import line `imp`, a quoted path, a blank
      line, the header `hd` and `init`, `body` and the closing `\n}`. */
  lemma FunctionLayout(imp: string, path: string, hd: string, init: string, body: string)
    ensures var r := imp + path + "'" + ("\n\n" + hd + init + body + "\n}");
      var at := |imp| + |path| + 3;
      var h := hd + init;
      |r| == at + |h| + |body| + 2
      && r[at - 2..at] == "\n\n" && r[at..at + |h|] == h && r[at + |h|..|r| - 2] == body && r[|r| - 2..] == "\n}"
  {
    var r := imp + path + "'" + ("\n\n" + hd + init + body + "\n}");
    var at := |imp| + |path| + 3;
    assert r[at..] == hd + init + body + "\n}";
  }

  /** The code ends by closing the component function. */
  lemma FullCodeCloses(codes: seq<string>, noExport: bool, runtimePath: string)
    ensures EndsWith(FullCode(codes, noExport, runtimePath), "\n}")
  {
    var r := FullCode(codes, noExport, runtimePath);
    assert r[|r| - 2..] == "\n}";
  }

  /** The defaults of `generate_js_from_blocks`: the module is exported
      unless asked otherwise, and the runtime comes from
      `blve/dist/runtime` unless another path is given. */
  function Defaults(noExport: Option<bool>, runtimePath: Option<string>): (r: (bool, string))
    ensures r.0 <==> noExport == Some(true)
    ensures runtimePath.None? ==> r.1 == "blve/dist/runtime"
    ensures runtimePath.Some? ==> r.1 == runtimePath.value
  {
    (if noExport.None? then false else noExport.value,
     if runtimePath.None? then "blve/dist/runtime" else runtimePath.value)
  }
}
