/** The relations between elements and the reactive values they show
    (`structs/transform_targets.rs`): the order in which the code generator
    walks them (by element location) and the if-block context number of a
    relation, a `u64` mask with one bit per if-block it lives under. */
module TransformTargets {
  import opened Wrappers
  import opened Masks
  import Sorting

  datatype ReactiveAttr = ReactiveAttr(attributeKey: string, contentOfAttr: string, variableNames: seq<string>)

  datatype ElmAndVariableContentRelation = ElmAndVariableContentRelation(
    elmId: string, variableNames: seq<string>, contentOfElement: string, ctx: seq<string>, elmLoc: seq<nat>)

  datatype ElmAndReactiveAttributeRelation = ElmAndReactiveAttributeRelation(
    elmId: string, reactiveAttr: seq<ReactiveAttr>, ctx: seq<string>, elmLoc: seq<nat>)

  datatype ElmAndReactiveInfo =
    | ElmAndVariableRelation(variable: ElmAndVariableContentRelation)
    | ElmAndReactiveAttributeRelation(attribute: ElmAndReactiveAttributeRelation)

  /** The location the sort compares: either kind's `elm_loc`. */
  function ElmLoc(info: ElmAndReactiveInfo): seq<nat> {
    match info
    case ElmAndVariableRelation(v) => v.elmLoc
    case ElmAndReactiveAttributeRelation(a) => a.elmLoc
  }

  /** `sort_elm_and_reactive_info`: a stable sort of the list, in place, by
      location. `Sorting.SortByKeySorted`, `SortByKeyMultiset` and
      `SortByKeyStable` show the result is ordered, a permutation, and keeps
      relations at the same location in their old order. */
  method SortElmAndReactiveInfo(infos: array<ElmAndReactiveInfo>)
    modifies infos
    ensures infos[..] == Sorting.SortByKey(old(infos[..]), ElmLoc)
    ensures Sorting.SortedBy(infos[..], ElmLoc)
    ensures multiset(infos[..]) == multiset(old(infos[..]))
  {
    ghost var before := infos[..];
    Sorting.SortInPlace(infos, ElmLoc);
    Sorting.SortByKeySorted(before, ElmLoc);
    Sorting.SortByKeyMultiset(before, ElmLoc);
  }

  // ---------------------------------------------------------------------
  // generate_ctx_num

  /** The context number of a relation whose context (the ids of the
      if-blocks around it) is `ctx`, given the parent ids of all if-blocks
      in order: block `i` contributes `2^i` when its parent id is in the
      context. Only `parent_id` of a block is read. */
  function CtxNum(ctx: seq<string>, parentIds: seq<string>): (r: nat)
    ensures r < Pow2(|parentIds|)
    decreases |parentIds|
  {
    if |parentIds| == 0 then 0
    else
      var k := |parentIds| - 1;
      Pow2Monotone(k, k + 1);
      OrBelow(CtxNum(ctx, parentIds[..k]), if parentIds[k] in ctx then Pow2(k) else 0, k + 1);
      Or(CtxNum(ctx, parentIds[..k]), if parentIds[k] in ctx then Pow2(k) else 0)
  }

  /** Bit `i` of the context number is set exactly when block `i` exists and
      its parent id is in the context. */
  lemma {:induction false} CtxNumBit(ctx: seq<string>, parentIds: seq<string>, i: nat)
    ensures BitSet(CtxNum(ctx, parentIds), i) <==> i < |parentIds| && parentIds[i] in ctx
    decreases |parentIds|
  {
    if |parentIds| == 0 {
      ZeroBit(i);
    } else {
      var k := |parentIds| - 1;
      var init := parentIds[..k];
      CtxNumBit(ctx, init, i);
      OrBit(CtxNum(ctx, init), if parentIds[k] in ctx then Pow2(k) else 0, i);
      Pow2Bit(k, i);
      ZeroBit(i);
      if i < k {
        assert init[i] == parentIds[i];
      }
    }
  }

  /** Outside any if-block the context number is 0. */
  lemma CtxNumEmpty(parentIds: seq<string>)
    ensures CtxNum([], parentIds) == 0
  {
    forall i: nat ensures !BitSet(CtxNum([], parentIds), i) {
      CtxNumBit([], parentIds, i);
    }
    NoBitIsZero(CtxNum([], parentIds));
  }

  /** When every block whose parent is in the context sits below index `n`,
      the context number is below `2^n`; in particular it fits in a `u64`
      when no such block is at index 64 or more. */
  lemma {:induction false} CtxNumBelow(ctx: seq<string>, parentIds: seq<string>, n: nat)
    requires forall i :: n <= i < |parentIds| ==> parentIds[i] !in ctx
    ensures CtxNum(ctx, parentIds) < Pow2(n)
    decreases |parentIds|
  {
    if |parentIds| > 0 {
      var k := |parentIds| - 1;
      var init := parentIds[..k];
      CtxNumBelow(ctx, init, n);
      if parentIds[k] in ctx {
        Pow2Monotone(k + 1, n);
        OrBelow(CtxNum(ctx, init), Pow2(k), n);
      } else {
        OrZero(CtxNum(ctx, init));
      }
    }
  }

  /** Some block at index 64 or more has its parent in the context:
      `(2 as u64).pow(index as u32)` overflows there. */
  predicate CtxOverflows(ctx: seq<string>, parentIds: seq<string>) {
    exists i :: 64 <= i < |parentIds| && parentIds[i] in ctx
  }

  /** `generate_ctx_num`, which `ElmAndVariableContentRelation` and
      `ElmAndReactiveAttributeRelation` implement with the same loop: an
      accumulator ORed with `2^index` for each block whose parent id is in
      the context. The power overflows a `u64` from index 64 on, which
      aborts the program. */
  method GenerateCtxNum(ctx: seq<string>, parentIds: seq<string>) returns (r: Result<nat>)
    ensures r.Err? <==> CtxOverflows(ctx, parentIds)
    ensures r.Err? ==> r.error == Panic("attempt to multiply with overflow")
    ensures r.Ok? ==> r.value == CtxNum(ctx, parentIds) && r.value < Pow2(64)
  {
    var ctxNum := 0;
    var index := 0;
    while index < |parentIds|
      invariant 0 <= index <= |parentIds|
      invariant ctxNum == CtxNum(ctx, parentIds[..index])
      invariant forall i :: 64 <= i < index ==> parentIds[i] !in ctx
    {
      assert parentIds[..index + 1][..index] == parentIds[..index];
      if parentIds[index] in ctx {
        if index >= 64 {
          return Err(Panic("attempt to multiply with overflow"));
        }
        ctxNum := Or(ctxNum, Pow2(index));
      } else {
        OrZero(ctxNum);
      }
      index := index + 1;
    }
    assert parentIds[..index] == parentIds;
    CtxNumBelow(ctx, parentIds, 64);
    return Ok(ctxNum);
  }
}
