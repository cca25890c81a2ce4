/** String helpers shared by the model: the pieces of Rust's `str` API that
    the compiler uses (`find`, `replace`, `trim`, `lines`, `split`, `join`)
    and decimal formatting of integers. Text is ASCII, so a byte offset and a
    character index coincide. */
module Strings {
  import opened Wrappers

  /** ASCII letters and digits (Rust's `char::is_alphanumeric` on ASCII). */
  predicate IsAlnum(c: char) {
    ('a' <= c <= 'z') || ('A' <= c <= 'Z') || ('0' <= c <= '9')
  }

  /** ASCII white space as Rust's `char::is_whitespace` sees it. */
  predicate IsWhitespace(c: char) {
    c == ' ' || c == '\t' || c == '\n' || c == '\r' || c == '\U{B}' || c == '\U{C}'
  }

  predicate StartsWith(s: string, prefix: string) {
    |prefix| <= |s| && s[..|prefix|] == prefix
  }

  predicate EndsWith(s: string, suffix: string) {
    |suffix| <= |s| && s[|s| - |suffix|..] == suffix
  }

  predicate OccursAt(s: string, pat: string, k: int) {
    0 <= k && k + |pat| <= |s| && s[k..k + |pat|] == pat
  }

  /** `s[from..].find(pat).map(|i| i + from)`: the first occurrence of `pat`
      at or after `from` (see `FindFromFound` and `FindFromFirst`). */
  function FindFrom(s: string, pat: string, from: nat): (r: Option<nat>)
    requires from <= |s|
    ensures r.Some? ==> from <= r.value && r.value + |pat| <= |s|
    decreases |s| - from
  {
    if from + |pat| > |s| then None
    else if MatchesFrom(s, pat, from, 0) then Some(from)
    else FindFrom(s, pat, from + 1)
  }

  /** `pat[j..]` matches `s` from `k + j` on, compared character by
      character. */
  predicate MatchesFrom(s: string, pat: string, k: nat, j: nat)
    requires k + |pat| <= |s| && j <= |pat|
    decreases |pat| - j
  {
    j == |pat| || (s[k + j] == pat[j] && MatchesFrom(s, pat, k, j + 1))
  }

  lemma {:induction false} MatchesFromIff(s: string, pat: string, k: nat, j: nat)
    requires k + |pat| <= |s| && j <= |pat|
    ensures MatchesFrom(s, pat, k, j) <==> s[k + j..k + |pat|] == pat[j..]
    decreases |pat| - j
  {
    if j < |pat| {
      MatchesFromIff(s, pat, k, j + 1);
      assert s[k + j..k + |pat|] == [s[k + j]] + s[k + j + 1..k + |pat|];
      assert pat[j..] == [pat[j]] + pat[j + 1..];
    }
  }

  lemma MatchesAtIff(s: string, pat: string, k: nat)
    requires k + |pat| <= |s|
    ensures MatchesFrom(s, pat, k, 0) <==> OccursAt(s, pat, k)
  {
    MatchesFromIff(s, pat, k, 0);
    assert pat[0..] == pat;
  }

  /** What `FindFrom` finds is an occurrence. */
  lemma {:induction false} FindFromFound(s: string, pat: string, from: nat)
    requires from <= |s|
    ensures FindFrom(s, pat, from).Some? ==> OccursAt(s, pat, FindFrom(s, pat, from).value)
    decreases |s| - from
  {
    if from + |pat| <= |s| {
      MatchesAtIff(s, pat, from);
      if !MatchesFrom(s, pat, from, 0) {
        FindFromFound(s, pat, from + 1);
      }
    }
  }

  /** What `FindFrom` finds is the first occurrence, and `None` means there
      is none at or after `from`. */
  lemma {:induction false} FindFromFirst(s: string, pat: string, from: nat)
    requires from <= |s|
    ensures var r := FindFrom(s, pat, from);
      (r.Some? ==> forall k :: from <= k < r.value ==> !OccursAt(s, pat, k))
      && (r.None? ==> forall k :: from <= k ==> !OccursAt(s, pat, k))
    decreases |s| - from
  {
    if from + |pat| <= |s| {
      MatchesAtIff(s, pat, from);
      if !MatchesFrom(s, pat, from, 0) {
        FindFromFirst(s, pat, from + 1);
      }
    }
  }

  /** Rust's `str::replace`: every non-overlapping occurrence of `pat`,
      leftmost first, becomes `rep`; an empty `pat` matches around every
      character. */
  function ReplaceAll(s: string, pat: string, rep: string): string
    decreases |s|
  {
    if |pat| == 0 then
      if s == [] then rep else rep + [s[0]] + ReplaceAll(s[1..], pat, rep)
    else if |s| < |pat| then s
    else if s[..|pat|] == pat then rep + ReplaceAll(s[|pat|..], pat, rep)
    else [s[0]] + ReplaceAll(s[1..], pat, rep)
  }

  /** Sequence concatenation regroups freely. */
  lemma Associate<T>(a: seq<T>, b: seq<T>, c: seq<T>)
    ensures a + (b + c) == (a + b) + c
  {
  }

  lemma {:induction false} ReplaceAbsent(s: string, pat: string, rep: string)
    requires |pat| > 0
    requires forall k :: !OccursAt(s, pat, k)
    ensures ReplaceAll(s, pat, rep) == s
    decreases |s|
  {
    if |s| >= |pat| {
      assert !OccursAt(s, pat, 0);
      forall k ensures !OccursAt(s[1..], pat, k) {
        if OccursAt(s[1..], pat, k) {
          assert s[1..][k..k + |pat|] == s[k + 1..k + 1 + |pat|];
          assert OccursAt(s, pat, k + 1);
        }
      }
      ReplaceAbsent(s[1..], pat, rep);
    }
  }

  function TrimStart(s: string): (r: string)
    ensures |r| <= |s| && r == s[|s| - |r|..]
    ensures r == [] || !IsWhitespace(r[0])
    decreases |s|
  {
    if s != [] && IsWhitespace(s[0]) then TrimStart(s[1..]) else s
  }

  function TrimEnd(s: string): (r: string)
    ensures |r| <= |s| && r == s[..|r|]
    ensures r == [] || !IsWhitespace(r[|r| - 1])
    decreases |s|
  {
    if s != [] && IsWhitespace(s[|s| - 1]) then TrimEnd(s[..|s| - 1]) else s
  }

  /** Rust's `str::trim`. */
  function Trim(s: string): string {
    TrimEnd(TrimStart(s))
  }

  /** `xs.join(sep)`. */
  function Join(xs: seq<string>, sep: string): string
    decreases |xs|
  {
    if |xs| == 0 then ""
    else if |xs| == 1 then xs[0]
    else xs[0] + sep + Join(xs[1..], sep)
  }

  function IndexOfChar(s: string, c: char): (r: Option<nat>)
    ensures r.Some? ==> r.value < |s| && s[r.value] == c && c !in s[..r.value]
    ensures r.None? ==> c !in s
    decreases |s|
  {
    if s == [] then None
    else if s[0] == c then Some(0)
    else match IndexOfChar(s[1..], c)
      case None => None
      case Some(k) => Some(k + 1)
  }

  /** `s.split(c)`: always at least one piece, empty pieces kept. */
  function SplitOn(s: string, c: char): (r: seq<string>)
    ensures |r| > 0
    decreases |s|
  {
    match IndexOfChar(s, c)
    case None => [s]
    case Some(k) => [s[..k]] + SplitOn(s[k + 1..], c)
  }

  /** Splitting a join on a separator that occurs in no piece gives the
      pieces back. */
  lemma {:induction false} SplitJoin(xs: seq<string>, c: char)
    requires |xs| > 0
    requires forall i :: 0 <= i < |xs| ==> c !in xs[i]
    ensures SplitOn(Join(xs, [c]), c) == xs
    decreases |xs|
  {
    if |xs| == 1 {
      assert IndexOfChar(xs[0], c).None?;
    } else {
      var s := Join(xs, [c]);
      var rest := Join(xs[1..], [c]);
      assert s == xs[0] + [c] + rest;
      IndexOfFirstSeparator(xs[0], c, rest);
      assert s[..|xs[0]|] == xs[0];
      assert s[|xs[0]| + 1..] == rest;
      SplitJoin(xs[1..], c);
    }
  }

  lemma {:induction false} IndexOfFirstSeparator(a: string, c: char, b: string)
    requires c !in a
    ensures IndexOfChar(a + [c] + b, c) == Some(|a|)
    decreases |a|
  {
    if a != [] {
      assert (a + [c] + b)[1..] == a[1..] + [c] + b;
      IndexOfFirstSeparator(a[1..], c, b);
    }
  }

  /** `line.strip_suffix('\r')` when present. */
  function StripCr(line: string): string {
    if |line| > 0 && line[|line| - 1] == '\r' then line[..|line| - 1] else line
  }

  /** Rust's `str::lines`: pieces ended by `\n` (a `\r` just before that
      `\n` is dropped too); a final `\n` does not start an extra empty line,
      and the empty string has no lines. */
  function Lines(s: string): (r: seq<string>)
    ensures forall i :: 0 <= i < |r| ==> '\n' !in r[i]
    decreases |s|
  {
    if s == [] then []
    else match IndexOfChar(s, '\n')
      case None => [s]
      case Some(k) => [StripCr(s[..k])] + Lines(s[k + 1..])
  }

  function DigitChar(d: nat): char
    requires d < 10
  {
    "0123456789"[d]
  }

  /** Decimal rendering of a non-negative integer, as `format!("{}", n)`. */
  function NatToString(n: nat): (r: string)
    ensures |r| > 0
    ensures forall i :: 0 <= i < |r| ==> '0' <= r[i] <= '9'
    decreases n
  {
    if n < 10 then [DigitChar(n)] else NatToString(n / 10) + [DigitChar(n % 10)]
  }

  predicate NoDuplicates<T(==)>(s: seq<T>) {
    forall i, j :: 0 <= i < j < |s| ==> s[i] != s[j]
  }
}
