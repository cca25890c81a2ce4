/** The runtime the generated components import (`npm-pkg/src/runtime/index.ts`):
    the reactive cell `valueObj`, whose setter records which variable
    changed and schedules one update; the update function `genUpdateFunc`
    wraps; `escapeHtml`; and the id test of `getElmRefs`. The DOM calls
    are not modelled; the microtask queue is a list of pending calls. */
module Runtime {
  import opened Masks
  import GenerateJs

  // ---------------------------------------------------------------------
  // The shared array and the reactive cell

  /** `2^32`: the masks are 32-bit patterns. */
  const Word: nat := 0x1_0000_0000

  lemma {:induction false} Pow2Add(a: nat, b: nat)
    ensures Pow2(a + b) == Pow2(a) * Pow2(b)
    decreases a
  {
    if a > 0 {
      Pow2Add(a - 1, b);
    }
  }

  lemma WordIsPow2()
    ensures Pow2(32) == Word
  {
    assert Pow2(2) == 4;
    Pow2Add(2, 2);
    Pow2Add(4, 4);
    Pow2Add(8, 8);
    Pow2Add(16, 16);
  }

  /** ORing a variable's number into a 32-bit mask keeps it 32 bits wide. */
  lemma MaskFits(symbolIndex: nat, mask: nat)
    requires mask < Word
    ensures Or(Low32(symbolIndex), mask) < Word
  {
    WordIsPow2();
    OrBelow(Low32(symbolIndex), mask, 32);
  }

  /** `SymbolRefInfo`, the array the cells of one component share: `[0]`
      the mask of changed variables, `[1]` whether an update is scheduled,
      `[2]` the update function (null until registered). `pending` are the
      microtasks the setters queued, each recording whether a function was
      registered when it was queued. */
  class SymbolRef {
    var changed: nat
    var scheduled: bool
    var hasUpdate: bool
    var pending: seq<bool>

    /** The mask is a 32-bit pattern, at most one microtask is queued and
        only while an update is scheduled, and nothing is marked changed
        while no update is scheduled. */
    predicate Valid()
      reads this
    {
      changed < Word && |pending| <= 1 && (|pending| == 1 ==> scheduled) && (!scheduled ==> changed == 0)
    }

    /** `[0, false, null]`. */
    constructor ()
      ensures changed == 0 && !scheduled && !hasUpdate && pending == [] && Valid()
    {
      changed, scheduled, hasUpdate, pending := 0, false, false, [];
    }

    /** Storing the function `genUpdateFunc` returned into `[2]`. */
    method Register()
      modifies this
      requires Valid()
      ensures Valid() && hasUpdate
      ensures changed == old(changed) && scheduled == old(scheduled) && pending == old(pending)
    {
      hasUpdate := true;
    }

    /** What the setter of a changed cell does to the array: the
        variable's number is ORed into the mask and, unless an update is
        already scheduled, one microtask is queued and the flag raised. */
    method Mark(symbolIndex: nat)
      modifies this
      requires Valid()
      ensures Valid() && scheduled && hasUpdate == old(hasUpdate)
      ensures changed == Or(Low32(symbolIndex), old(changed))
      ensures old(scheduled) ==> pending == old(pending)
      ensures !old(scheduled) ==> pending == [old(hasUpdate)]
    {
      MaskFits(symbolIndex, changed);
      var mask := Or(Low32(symbolIndex), changed);
      if scheduled {
        changed := mask;
      } else {
        changed, pending, scheduled := mask, [hasUpdate], true;
      }
    }

    /** The function `genUpdateFunc` returns: when an update is scheduled,
        it runs the generated statements, which see the mask `seen`, and
        then clears the mask and the flag; otherwise it does nothing. */
    method RunUpdate() returns (ran: bool, seen: nat)
      modifies this
      requires Valid() && pending == []
      ensures Valid()
      ensures ran == old(scheduled)
      ensures ran ==> seen == old(changed) && changed == 0 && !scheduled
      ensures !ran ==> seen == 0 && changed == old(changed) && scheduled == old(scheduled)
      ensures hasUpdate == old(hasUpdate) && pending == old(pending)
    {
      ran, seen := false, 0;
      if scheduled {
        ran, seen := true, changed;
        changed := 0;
        scheduled := false;
      }
    }

    /** The first queued microtask: it calls the update function when one
        was registered at the time it was queued; a microtask queued
        before that calls nothing, and the flag then stays raised. */
    method RunMicrotask() returns (ran: bool, seen: nat)
      modifies this
      requires Valid() && |pending| > 0
      ensures Valid()
      ensures pending == old(pending[1..]) && hasUpdate == old(hasUpdate)
      ensures old(pending[0]) ==> ran && seen == old(changed) && changed == 0 && !scheduled
      ensures !old(pending[0]) ==> !ran && seen == 0 && changed == old(changed) && scheduled
    {
      var call := pending[0];
      pending := pending[1..];
      ran, seen := false, 0;
      if call {
        ran, seen := RunUpdate();
      }
    }
  }

  /** `valueObj`: a value, the variable's number and the shared array. */
  class ValueObj<T(==)> {
    var value: T
    const symbolIndex: nat
    const symbolRef: SymbolRef

    constructor (v: T, symbolIndex: nat, symbolRef: SymbolRef)
      ensures value == v && this.symbolIndex == symbolIndex && this.symbolRef == symbolRef
    {
      value := v;
      this.symbolIndex := symbolIndex;
      this.symbolRef := symbolRef;
    }

    /** The getter `v`. */
    function V(): T
      reads this
    {
      value
    }

    /** The setter `v`: assigning the current value changes nothing;
        another value is stored, the variable's number is ORed into the
        mask, and the first change while no update is scheduled queues one
        microtask and raises the flag. */
    method SetV(x: T)
      modifies this, symbolRef
      requires symbolRef.Valid()
      ensures symbolRef.Valid() && symbolRef.hasUpdate == old(symbolRef.hasUpdate)
      ensures old(value) == x ==> value == old(value) && unchanged(symbolRef)
      ensures old(value) != x ==>
        V() == x && symbolRef.scheduled && symbolRef.changed == Or(Low32(symbolIndex), old(symbolRef.changed))
      ensures old(value) != x && old(symbolRef.scheduled) ==> symbolRef.pending == old(symbolRef.pending)
      ensures old(value) != x && !old(symbolRef.scheduled) ==> symbolRef.pending == [old(symbolRef.hasUpdate)]
    {
      if value == x {
        return;
      }
      value := x;
      symbolRef.Mark(symbolIndex);
    }
  }

  /** Two cells of a component changed one after the other before the
      microtask runs: one update runs, and it sees both variables' bits. */
  method ChangesAreBatched<T(==)>(a: ValueObj<T>, b: ValueObj<T>, x: T, y: T) returns (seen: nat)
    requires a != b && a.symbolRef == b.symbolRef && a.symbolRef.Valid() && a.symbolRef.hasUpdate && !a.symbolRef.scheduled
    requires a.value != x && b.value != y
    modifies a, b, a.symbolRef
    ensures seen == Or(Low32(b.symbolIndex), Or(Low32(a.symbolIndex), 0))
    ensures a.symbolRef.Valid() && a.symbolRef.changed == 0 && !a.symbolRef.scheduled && a.symbolRef.pending == []
  {
    var r := a.symbolRef;
    a.SetV(x);
    assert r.pending == [true] && r.changed == Or(Low32(a.symbolIndex), 0);
    b.SetV(y);
    assert r.pending == [true];
    var ran;
    ran, seen := r.RunMicrotask();
  }

  // ---------------------------------------------------------------------
  // escapeHtml

  /** The replacement of one character: itself unless it is one of
      `& < > " '`, in which case an entity that starts with `&` and holds
      none of `< > " '`. */
  function EscapeChar(c: char): (r: string)
    ensures r == [c] <==> c !in "&<>\"'"
    ensures c in "&<>\"'" ==> |r| >= 4 && r[0] == '&' && r[|r| - 1] == ';'
    ensures forall i :: 0 <= i < |r| ==> r[i] !in "<>\"'"
  {
    match c
    case '&' => "&amp;"
    case '<' => "&lt;"
    case '>' => "&gt;"
    case '"' => "&quot;"
    case '\'' => "&#039;"
    case _ => [c]
  }

  /** `escapeHtml`: every `& < > " '` replaced by its entity, every other
      character kept. The result holds no raw `< > " '`. */
  function EscapeHtml(s: string): (r: string)
    ensures |r| >= |s|
    ensures forall i :: 0 <= i < |r| ==> r[i] != '<' && r[i] != '>' && r[i] != '"' && r[i] != '\''
    decreases |s|
  {
    if |s| == 0 then "" else EscapeChar(s[0]) + EscapeHtml(s[1..])
  }

  /** Reading the entities back. */
  function Unescape(s: string): string
    decreases |s|
  {
    if |s| == 0 then ""
    else if s[0] != '&' then [s[0]] + Unescape(s[1..])
    else if |s| >= 5 && s[..5] == "&amp;" then "&" + Unescape(s[5..])
    else if |s| >= 4 && s[..4] == "&lt;" then "<" + Unescape(s[4..])
    else if |s| >= 4 && s[..4] == "&gt;" then ">" + Unescape(s[4..])
    else if |s| >= 6 && s[..6] == "&quot;" then "\"" + Unescape(s[6..])
    else if |s| >= 6 && s[..6] == "&#039;" then "'" + Unescape(s[6..])
    else [s[0]] + Unescape(s[1..])
  }

  lemma UnescapeChar(c: char, rest: string)
    ensures Unescape(EscapeChar(c) + rest) == [c] + Unescape(rest)
  {
    var e := EscapeChar(c);
    var s := e + rest;
    assert s[..|e|] == e && s[|e|..] == rest;
    if c == '&' {
    } else if c == '<' || c == '>' {
      assert |s| >= 5 ==> s[..5][1] != 'a';
    } else if c == '"' {
      assert |s| >= 5 ==> s[..5][1] != 'a';
      assert s[..4][1] != 'l' && s[..4][1] != 'g';
    } else if c == '\'' {
      assert |s| >= 5 ==> s[..5][1] != 'a';
      assert s[..4][1] != 'l' && s[..4][1] != 'g';
      assert s[..6][1] != 'q';
    } else {
      assert e == [c];
      assert s[0] == c && s[1..] == rest;
    }
  }

  /** Escaping loses nothing: the entities read back give the text. */
  lemma {:induction false} EscapeRoundTrip(s: string)
    ensures Unescape(EscapeHtml(s)) == s
    decreases |s|
  {
    if |s| > 0 {
      UnescapeChar(s[0], EscapeHtml(s[1..]));
      EscapeRoundTrip(s[1..]);
      assert [s[0]] + s[1..] == s;
    }
  }

  // ---------------------------------------------------------------------
  // getElmRefs

  /** Whether `getElmRefs` removes the id of the element at `index`:
      `(2 ** index) & preserveId`, both sides cut to 32 bits. */
  function StripsId(preserveId: nat, index: nat): bool {
    And(Low32(Pow2(index)), Low32(preserveId)) != 0
  }

  /** Which of the looked-up elements lose their id. */
  function StrippedIds(ids: seq<string>, preserveId: nat): (r: seq<bool>)
    ensures |r| == |ids| && forall i :: 0 <= i < |ids| ==> r[i] == StripsId(preserveId, i)
  {
    seq(|ids|, i requires 0 <= i < |ids| => StripsId(preserveId, i))
  }

  lemma AndZero(x: nat)
    ensures And(0, x) == 0
  {
  }

  /** `And(2^i, x)` is not 0 exactly when bit `i` of `x` is set. */
  lemma AndPow2(i: nat, x: nat)
    ensures And(Pow2(i), x) != 0 <==> BitSet(x, i)
  {
    AndBit(Pow2(i), x, i);
    Pow2Bit(i, i);
    if BitSet(x, i) {
      ZeroBit(i);
    } else {
      forall j: nat ensures !BitSet(And(Pow2(i), x), j) {
        AndBit(Pow2(i), x, j);
        Pow2Bit(i, j);
      }
      NoBitIsZero(And(Pow2(i), x));
    }
  }

  /** The runtime reads the bitmap least significant bit first: the id at
      `index` goes exactly when bit `index` is set, and never from index 32
      on, where `2 ** index` has no low bits. */
  lemma StripsIdIff(preserveId: nat, index: nat)
    requires preserveId < Pow2(32)
    ensures StripsId(preserveId, index) <==> index < 32 && BitSet(preserveId, index)
  {
    LowBitsFit(preserveId, 32);
    if index < 32 {
      Pow2Monotone(index + 1, 32);
      LowBitsFit(Pow2(index), 32);
      AndPow2(index, preserveId);
    } else {
      LowBitsOfHighPow2(index, 32);
      AndZero(preserveId);
    }
  }

  /** The generator lists the delete flags most significant bit first, so
      the runtime, reading least significant bit first, strips the id at
      index `i` exactly when the flag of the element at `n - 1 - i` is set:
      the flags come out reversed. */
  lemma FlagsReadReversed(bools: seq<bool>, i: nat)
    requires |bools| <= 32 && i < |bools|
    ensures StripsId(GenerateJs.BoolMap(bools), i) <==> bools[|bools| - 1 - i]
  {
    GenerateJs.BoolMapFits(bools);
    Pow2Monotone(|bools|, 32);
    StripsIdIff(GenerateJs.BoolMap(bools), i);
    GenerateJs.BoolMapBit(bools, i);
  }
}
