/**
 * Word-level alignment (`_align_tokens`): a Levenshtein dynamic programme over
 * two word lists with unit costs, case-insensitive word equality, a
 * back-pointer per cell chosen by a fixed preference, and a walk back from the
 * last cell that yields the ordered list of operations.
 */
module Aligner {
  import opened Text

  /** One step of an alignment; `r` indexes the reference words, `h` the hypothesis words. */
  datatype Op = Equal(r: nat, h: nat) | Sub(r: nat, h: nat) | Del(r: nat) | Ins(h: nat)

  /** The back-pointer kept in one cell of the table; `Unset` is the initial entry,
      which only cell (0, 0) keeps. The stored indices of the source's tuples are
      always `(i - 1, j - 1)`, `(i - 1, j)` or `(i, j - 1)` and are recomputed from the cell. */
  datatype Pointer = Unset | PEqual | PSub | PDel | PIns

  /** The cost of aligning two words diagonally: 0 when they match ignoring case. */
  function SubCost(a: string, b: string): nat {
    if SameWord(a, b) then 0 else 1
  }

  function Min3(a: nat, b: nat, c: nat): (m: nat)
    ensures m <= a && m <= b && m <= c
    ensures m == a || m == b || m == c
  {
    if a <= b && a <= c then a else if b <= c then b else c
  }

  /** Reference definition of the table: the edit distance between the first `i`
      reference words and the first `j` hypothesis words. */
  function Dist(ref: seq<string>, hyp: seq<string>, i: nat, j: nat): nat
    requires i <= |ref| && j <= |hyp|
    decreases i + j
  {
    if i == 0 then j
    else if j == 0 then i
    else Min3(Dist(ref, hyp, i - 1, j) + 1,
              Dist(ref, hyp, i, j - 1) + 1,
              Dist(ref, hyp, i - 1, j - 1) + SubCost(ref[i - 1], hyp[j - 1]))
  }

  /** Reference definition of the back-pointer of cell `(i, j)`: the first row
      deletes, the first column inserts, and elsewhere the diagonal wins every
      tie, then the deletion, then the insertion. */
  function Choice(ref: seq<string>, hyp: seq<string>, i: nat, j: nat): (p: Pointer)
    requires i <= |ref| && j <= |hyp|
    ensures p == Unset <==> i == 0 && j == 0
    ensures (p == PEqual || p == PSub) ==> i > 0 && j > 0
    ensures p == PDel ==> i > 0
    ensures p == PIns ==> j > 0
    ensures p == PEqual ==> SameWord(ref[i - 1], hyp[j - 1])
    ensures p == PSub ==> !SameWord(ref[i - 1], hyp[j - 1])
  {
    if i == 0 && j == 0 then Unset
    else if j == 0 then PDel
    else if i == 0 then PIns
    else
      var cost := SubCost(ref[i - 1], hyp[j - 1]);
      var del := Dist(ref, hyp, i - 1, j) + 1;
      var ins := Dist(ref, hyp, i, j - 1) + 1;
      var diag := Dist(ref, hyp, i - 1, j - 1) + cost;
      var best := Min3(del, ins, diag);
      if best == diag then (if cost == 0 then PEqual else PSub)
      else if best == del then PDel
      else PIns
  }

  /** The operations read off the back-pointers from cell `(i, j)` to `(0, 0)`, in forward order. */
  function Walk(ref: seq<string>, hyp: seq<string>, i: nat, j: nat): seq<Op>
    requires i <= |ref| && j <= |hyp|
    decreases i + j
  {
    if i == 0 && j == 0 then []
    else
      match Choice(ref, hyp, i, j)
      case PEqual => Walk(ref, hyp, i - 1, j - 1) + [Equal(i - 1, j - 1)]
      case PSub => Walk(ref, hyp, i - 1, j - 1) + [Sub(i - 1, j - 1)]
      case PDel => Walk(ref, hyp, i - 1, j) + [Del(i - 1)]
      case PIns => Walk(ref, hyp, i, j - 1) + [Ins(j - 1)]
  }

  // ---------------------------------------------------------------------------
  // What an alignment is, independently of how it is computed

  /** `[0, 1, ..., n - 1]`. */
  function Range(n: nat): (r: seq<nat>)
    ensures |r| == n && forall k :: 0 <= k < n ==> r[k] == k
  {
    seq(n, k requires 0 <= k < n => k)
  }

  /** The reference indices an operation mentions. */
  function RefOf(op: Op): seq<nat> {
    match op
    case Equal(r, _) => [r]
    case Sub(r, _) => [r]
    case Del(r) => [r]
    case Ins(_) => []
  }

  /** The hypothesis indices an operation mentions. */
  function HypOf(op: Op): seq<nat> {
    match op
    case Equal(_, h) => [h]
    case Sub(_, h) => [h]
    case Del(_) => []
    case Ins(h) => [h]
  }

  /** The reference indices mentioned by `ops`, in order. */
  function RefIndices(ops: seq<Op>): seq<nat> {
    if ops == [] then [] else RefIndices(ops[..|ops| - 1]) + RefOf(ops[|ops| - 1])
  }

  /** The hypothesis indices mentioned by `ops`, in order. */
  function HypIndices(ops: seq<Op>): seq<nat> {
    if ops == [] then [] else HypIndices(ops[..|ops| - 1]) + HypOf(ops[|ops| - 1])
  }

  /** The number of substitutions, deletions and insertions in `ops`. */
  function Cost(ops: seq<Op>): nat {
    if ops == [] then 0 else Cost(ops[..|ops| - 1]) + (if ops[|ops| - 1].Equal? then 0 else 1)
  }

  /** Every `Equal` pairs words that match ignoring case. */
  predicate EqualsMatch(ref: seq<string>, hyp: seq<string>, ops: seq<Op>) {
    forall k :: 0 <= k < |ops| && ops[k].Equal? ==>
      ops[k].r < |ref| && ops[k].h < |hyp| && SameWord(ref[ops[k].r], hyp[ops[k].h])
  }

  /** Every `Sub` pairs words that differ ignoring case. */
  predicate SubsDiffer(ref: seq<string>, hyp: seq<string>, ops: seq<Op>) {
    forall k :: 0 <= k < |ops| && ops[k].Sub? ==>
      ops[k].r < |ref| && ops[k].h < |hyp| && !SameWord(ref[ops[k].r], hyp[ops[k].h])
  }

  /** An alignment of the first `i` reference words with the first `j` hypothesis
      words: every reference index below `i` is mentioned exactly once and in
      increasing order, likewise every hypothesis index below `j`, and only
      matching words are called equal. */
  predicate IsAlignment(ref: seq<string>, hyp: seq<string>, ops: seq<Op>, i: nat, j: nat) {
    RefIndices(ops) == Range(i) && HypIndices(ops) == Range(j) && EqualsMatch(ref, hyp, ops)
  }

  lemma RangeLast(n: nat)
    requires n > 0
    ensures Range(n) == Range(n - 1) + [n - 1]
  {
  }

  lemma SplitRange(s: seq<nat>, x: seq<nat>, n: nat)
    requires |x| == 1 && s + x == Range(n)
    ensures n > 0 && x[0] == n - 1 && s == Range(n - 1)
  {
    assert |s| + 1 == n;
    assert (s + x)[n - 1] == x[0];
    forall k | 0 <= k < n - 1 ensures s[k] == Range(n - 1)[k] {
      assert (s + x)[k] == s[k];
    }
  }

  /** Appending one operation extends the index lists and the cost by that operation. */
  lemma AppendOp(ops: seq<Op>, op: Op)
    ensures RefIndices(ops + [op]) == RefIndices(ops) + RefOf(op)
    ensures HypIndices(ops + [op]) == HypIndices(ops) + HypOf(op)
    ensures Cost(ops + [op]) == Cost(ops) + (if op.Equal? then 0 else 1)
  {
    assert (ops + [op])[..|ops|] == ops;
  }

  /** The indices `op` mentions are below `n` (reference) and `m` (hypothesis). */
  predicate OpWithin(op: Op, n: nat, m: nat) {
    match op
    case Equal(r, h) => r < n && h < m
    case Sub(r, h) => r < n && h < m
    case Del(r) => r < n
    case Ins(h) => h < m
  }

  /** Every operation of `ops` mentions only indices below `n` and `m`. */
  predicate AllWithin(ops: seq<Op>, n: nat, m: nat) {
    forall k :: 0 <= k < |ops| ==> OpWithin(ops[k], n, m)
  }

  lemma {:induction false} MentionedIn(ops: seq<Op>, k: nat)
    requires k < |ops|
    ensures forall x :: x in RefOf(ops[k]) ==> x in RefIndices(ops)
    ensures forall y :: y in HypOf(ops[k]) ==> y in HypIndices(ops)
  {
    var pre := ops[..|ops| - 1];
    if k < |ops| - 1 {
      assert pre[k] == ops[k];
      MentionedIn(pre, k);
    }
  }

  /** An alignment of `i` reference words with `j` hypothesis words indexes inside both lists. */
  lemma AlignmentWithin(ref: seq<string>, hyp: seq<string>, ops: seq<Op>, i: nat, j: nat)
    requires IsAlignment(ref, hyp, ops, i, j)
    ensures AllWithin(ops, i, j)
  {
    forall k | 0 <= k < |ops| ensures OpWithin(ops[k], i, j) {
      MentionedIn(ops, k);
      var rs, hs := RefOf(ops[k]), HypOf(ops[k]);
      assert forall x :: x in rs ==> x in Range(i);
      assert forall y :: y in hs ==> y in Range(j);
      match ops[k]
      case Equal(r, h) => assert r in rs && h in hs;
      case Sub(r, h) => assert r in rs && h in hs;
      case Del(r) => assert r in rs;
      case Ins(h) => assert h in hs;
    }
  }

  lemma {:induction false} IndicesConcat(a: seq<Op>, b: seq<Op>)
    ensures RefIndices(a + b) == RefIndices(a) + RefIndices(b)
    ensures HypIndices(a + b) == HypIndices(a) + HypIndices(b)
    decreases |b|
  {
    if b == [] {
      assert a + b == a;
    } else {
      var b' := b[..|b| - 1];
      assert a + b == (a + b') + [b[|b| - 1]];
      assert b == b' + [b[|b| - 1]];
      IndicesConcat(a, b');
      AppendOp(a + b', b[|b| - 1]);
      AppendOp(b', b[|b| - 1]);
    }
  }

  /** In an alignment, an earlier operation mentions only smaller indices than a later one;
      in particular no reference or hypothesis word is mentioned twice. */
  lemma MentionsOrdered(ref: seq<string>, hyp: seq<string>, ops: seq<Op>, i: nat, j: nat, k: nat, k': nat)
    requires IsAlignment(ref, hyp, ops, i, j)
    requires k < k' < |ops|
    ensures forall x, y :: x in RefOf(ops[k]) && y in RefOf(ops[k']) ==> x < y
    ensures forall x, y :: x in HypOf(ops[k]) && y in HypOf(ops[k']) ==> x < y
  {
    var pre, post := ops[..k'], ops[k'..];
    assert ops == pre + post;
    IndicesConcat(pre, post);
    assert pre[k] == ops[k] && post[0] == ops[k'];
    MentionedIn(pre, k);
    MentionedIn(post, 0);
    forall x, y | x in RefOf(ops[k]) && y in RefOf(ops[k']) ensures x < y {
      SplitRangeOrdered(RefIndices(pre), RefIndices(post), i, x, y);
    }
    forall x, y | x in HypOf(ops[k]) && y in HypOf(ops[k']) ensures x < y {
      SplitRangeOrdered(HypIndices(pre), HypIndices(post), j, x, y);
    }
  }

  /** When `Range(n)` is cut in two, everything in the first part is below everything
      in the second. */
  lemma SplitRangeOrdered(p: seq<nat>, q: seq<nat>, n: nat, x: nat, y: nat)
    requires p + q == Range(n)
    requires x in p && y in q
    ensures x < y
  {
    var t :| 0 <= t < |p| && p[t] == x;
    var u :| 0 <= u < |q| && q[u] == y;
    assert (p + q)[t] == x && (p + q)[|p| + u] == y;
  }

  // ---------------------------------------------------------------------------
  // Properties of the walk

  /** The operation the back-pointer of cell `(i, j)` contributes to the walk. */
  function StepOp(ref: seq<string>, hyp: seq<string>, i: nat, j: nat): (op: Op)
    requires i <= |ref| && j <= |hyp| && (i > 0 || j > 0)
  {
    match Choice(ref, hyp, i, j)
    case PEqual => Equal(i - 1, j - 1)
    case PSub => Sub(i - 1, j - 1)
    case PDel => Del(i - 1)
    case PIns => Ins(j - 1)
  }

  /** One step of the walk, with the cell it moves to and what that step costs. */
  lemma WalkStep(ref: seq<string>, hyp: seq<string>, i: nat, j: nat)
    requires i <= |ref| && j <= |hyp| && (i > 0 || j > 0)
    ensures var op := StepOp(ref, hyp, i, j);
            var i' := if op.Ins? then i else i - 1;
            var j' := if op.Del? then j else j - 1;
            && i' >= 0 && j' >= 0
            && Walk(ref, hyp, i, j) == Walk(ref, hyp, i', j') + [op]
            && (op.Equal? || op.Sub? ==> op.r == i - 1 && op.h == j - 1)
            && (op.Del? ==> op.r == i - 1)
            && (op.Ins? ==> op.h == j - 1)
            && (op.Equal? ==> SameWord(ref[i - 1], hyp[j - 1]))
            && (op.Sub? ==> !SameWord(ref[i - 1], hyp[j - 1]))
            && Dist(ref, hyp, i, j) == Dist(ref, hyp, i', j') + (if op.Equal? then 0 else 1)
  {
  }

  /** Appending an operation that pairs matching (differing) words keeps every
      `Equal` matching and every `Sub` differing. */
  lemma AppendLabels(ref: seq<string>, hyp: seq<string>, pre: seq<Op>, op: Op)
    requires EqualsMatch(ref, hyp, pre) && SubsDiffer(ref, hyp, pre)
    requires op.Equal? ==> op.r < |ref| && op.h < |hyp| && SameWord(ref[op.r], hyp[op.h])
    requires op.Sub? ==> op.r < |ref| && op.h < |hyp| && !SameWord(ref[op.r], hyp[op.h])
    ensures EqualsMatch(ref, hyp, pre + [op]) && SubsDiffer(ref, hyp, pre + [op])
  {
    var w := pre + [op];
    forall k | 0 <= k < |w| ensures w[k] == if k < |pre| then pre[k] else op { }
  }

  /** The walk mentions every reference index below `i` and every hypothesis index
      below `j` exactly once and in increasing order. */
  lemma {:induction false} WalkIndices(ref: seq<string>, hyp: seq<string>, i: nat, j: nat)
    requires i <= |ref| && j <= |hyp|
    ensures RefIndices(Walk(ref, hyp, i, j)) == Range(i)
    ensures HypIndices(Walk(ref, hyp, i, j)) == Range(j)
    decreases i + j
  {
    if i > 0 || j > 0 {
      WalkStep(ref, hyp, i, j);
      var op := StepOp(ref, hyp, i, j);
      var i' := if op.Ins? then i else i - 1;
      var j' := if op.Del? then j else j - 1;
      WalkIndices(ref, hyp, i', j');
      AppendOp(Walk(ref, hyp, i', j'), op);
      if i' < i { RangeLast(i); }
      if j' < j { RangeLast(j); }
    }
  }

  /** The walk calls `Equal` only matching words and `Sub` only differing ones. */
  lemma {:induction false} WalkLabels(ref: seq<string>, hyp: seq<string>, i: nat, j: nat)
    requires i <= |ref| && j <= |hyp|
    ensures EqualsMatch(ref, hyp, Walk(ref, hyp, i, j))
    ensures SubsDiffer(ref, hyp, Walk(ref, hyp, i, j))
    decreases i + j
  {
    if i > 0 || j > 0 {
      WalkStep(ref, hyp, i, j);
      var op := StepOp(ref, hyp, i, j);
      var i' := if op.Ins? then i else i - 1;
      var j' := if op.Del? then j else j - 1;
      WalkLabels(ref, hyp, i', j');
      AppendLabels(ref, hyp, Walk(ref, hyp, i', j'), op);
    }
  }

  /** The walk covers every reference index and every hypothesis index exactly
      once and in increasing order, calls `Equal` only matching words and `Sub`
      only differing ones. */
  lemma WalkIsAlignment(ref: seq<string>, hyp: seq<string>, i: nat, j: nat)
    requires i <= |ref| && j <= |hyp|
    ensures IsAlignment(ref, hyp, Walk(ref, hyp, i, j), i, j)
    ensures SubsDiffer(ref, hyp, Walk(ref, hyp, i, j))
  {
    WalkIndices(ref, hyp, i, j);
    WalkLabels(ref, hyp, i, j);
  }

  /** The number of non-`Equal` operations of the walk is the table's value `Dist`. */
  lemma {:induction false} WalkCost(ref: seq<string>, hyp: seq<string>, i: nat, j: nat)
    requires i <= |ref| && j <= |hyp|
    ensures Cost(Walk(ref, hyp, i, j)) == Dist(ref, hyp, i, j)
    decreases i + j
  {
    if i > 0 || j > 0 {
      WalkStep(ref, hyp, i, j);
      var op := StepOp(ref, hyp, i, j);
      var i' := if op.Ins? then i else i - 1;
      var j' := if op.Del? then j else j - 1;
      WalkCost(ref, hyp, i', j');
      AppendOp(Walk(ref, hyp, i', j'), op);
    }
  }

  /** `Dist` is a lower bound on the cost of every alignment: it is the minimum
      unit-cost edit distance with case-insensitive word matching. */
  lemma {:induction false} DistIsMinimal(ref: seq<string>, hyp: seq<string>, ops: seq<Op>, i: nat, j: nat)
    requires i <= |ref| && j <= |hyp|
    requires IsAlignment(ref, hyp, ops, i, j)
    ensures Dist(ref, hyp, i, j) <= Cost(ops)
    decreases |ops|
  {
    if ops == [] {
      assert |Range(i)| == 0 && |Range(j)| == 0;
    } else {
      var pre := ops[..|ops| - 1];
      var op := ops[|ops| - 1];
      var i', j' := DropLast(ref, hyp, ops, i, j);
      DistIsMinimal(ref, hyp, pre, i', j');
      if op.Equal? {
        assert SameWord(ref[i - 1], hyp[j - 1]);
      }
    }
  }

  /** Dropping the last operation of an alignment leaves an alignment of the words
      before the ones that operation mentions. */
  lemma DropLast(ref: seq<string>, hyp: seq<string>, ops: seq<Op>, i: nat, j: nat) returns (i': nat, j': nat)
    requires IsAlignment(ref, hyp, ops, i, j) && ops != []
    ensures var op := ops[|ops| - 1];
      && i' == (if op.Ins? then i else i - 1)
      && j' == (if op.Del? then j else j - 1)
      && (op.Equal? || op.Sub? ==> op.r == i - 1 && op.h == j - 1)
      && (op.Equal? ==> i - 1 < |ref| && j - 1 < |hyp| && SameWord(ref[i - 1], hyp[j - 1]))
      && IsAlignment(ref, hyp, ops[..|ops| - 1], i', j')
      && Cost(ops) == Cost(ops[..|ops| - 1]) + (if op.Equal? then 0 else 1)
  {
    var pre := ops[..|ops| - 1];
    var op := ops[|ops| - 1];
    assert ops == pre + [op];
    AppendOp(pre, op);
    assert EqualsMatch(ref, hyp, pre) by {
      forall k | 0 <= k < |pre| && pre[k].Equal?
        ensures pre[k].r < |ref| && pre[k].h < |hyp| && SameWord(ref[pre[k].r], hyp[pre[k].h])
      {
        assert pre[k] == ops[k];
      }
    }
    match op
    case Equal(r, h) =>
      SplitRange(RefIndices(pre), [r], i);
      SplitRange(HypIndices(pre), [h], j);
      i', j' := i - 1, j - 1;
    case Sub(r, h) =>
      SplitRange(RefIndices(pre), [r], i);
      SplitRange(HypIndices(pre), [h], j);
      i', j' := i - 1, j - 1;
    case Del(r) =>
      SplitRange(RefIndices(pre), [r], i);
      assert HypIndices(pre) == HypIndices(ops);
      i', j' := i - 1, j;
    case Ins(h) =>
      SplitRange(HypIndices(pre), [h], j);
      assert RefIndices(pre) == RefIndices(ops);
      i', j' := i, j - 1;
  }

  /** The walk is an optimal alignment: no alignment has fewer edits. */
  lemma WalkIsOptimal(ref: seq<string>, hyp: seq<string>, ops: seq<Op>)
    requires IsAlignment(ref, hyp, ops, |ref|, |hyp|)
    ensures Cost(Walk(ref, hyp, |ref|, |hyp|)) <= Cost(ops)
  {
    WalkCost(ref, hyp, |ref|, |hyp|);
    DistIsMinimal(ref, hyp, ops, |ref|, |hyp|);
  }

  /** The back-pointer of an inner cell prefers the diagonal on every tie, then the
      deletion, then the insertion; the diagonal is labelled `Equal` exactly when
      the words match. */
  lemma PointerPreference(ref: seq<string>, hyp: seq<string>, i: nat, j: nat)
    requires 0 < i <= |ref| && 0 < j <= |hyp|
    ensures var d := Dist(ref, hyp, i, j);
            var diag := Dist(ref, hyp, i - 1, j - 1) + SubCost(ref[i - 1], hyp[j - 1]);
            var del := Dist(ref, hyp, i - 1, j) + 1;
            var ins := Dist(ref, hyp, i, j - 1) + 1;
            && ((Choice(ref, hyp, i, j) == PEqual || Choice(ref, hyp, i, j) == PSub) <==> diag == d)
            && (Choice(ref, hyp, i, j) == PEqual <==> diag == d && SameWord(ref[i - 1], hyp[j - 1]))
            && (Choice(ref, hyp, i, j) == PDel <==> diag > d && del == d)
            && (Choice(ref, hyp, i, j) == PIns <==> diag > d && del > d && ins == d)
  {
  }

  /** An empty reference gives one insertion per hypothesis word. */
  lemma {:induction false} EmptyReference(ref: seq<string>, hyp: seq<string>, j: nat)
    requires ref == [] && j <= |hyp|
    ensures Walk(ref, hyp, 0, j) == seq(j, k requires 0 <= k < j => Ins(k))
  {
    if j > 0 {
      EmptyReference(ref, hyp, j - 1);
    }
  }

  /** An empty hypothesis gives one deletion per reference word. */
  lemma {:induction false} EmptyHypothesis(ref: seq<string>, hyp: seq<string>, i: nat)
    requires hyp == [] && i <= |ref|
    ensures Walk(ref, hyp, i, 0) == seq(i, k requires 0 <= k < i => Del(k))
  {
    if i > 0 {
      EmptyHypothesis(ref, hyp, i - 1);
    }
  }

  /** Word lists that match position by position have distance zero. */
  lemma {:induction false} MatchingDistZero(ref: seq<string>, hyp: seq<string>, i: nat)
    requires |ref| == |hyp| && i <= |ref|
    requires forall k :: 0 <= k < |ref| ==> SameWord(ref[k], hyp[k])
    ensures Dist(ref, hyp, i, i) == 0
  {
    if i > 0 {
      MatchingDistZero(ref, hyp, i - 1);
    }
  }

  lemma MatchingChoice(ref: seq<string>, hyp: seq<string>, i: nat)
    requires |ref| == |hyp| && 0 < i <= |ref|
    requires forall k :: 0 <= k < |ref| ==> SameWord(ref[k], hyp[k])
    ensures Choice(ref, hyp, i, i) == PEqual
  {
    MatchingDistZero(ref, hyp, i - 1);
  }

  /** Word lists that match position by position (identical lists in particular)
      align with `Equal` operations only. */
  lemma {:induction false} MatchingAllEqual(ref: seq<string>, hyp: seq<string>, i: nat)
    requires |ref| == |hyp| && i <= |ref|
    requires forall k :: 0 <= k < |ref| ==> SameWord(ref[k], hyp[k])
    ensures |Walk(ref, hyp, i, i)| == i
    ensures forall k :: 0 <= k < i ==> Walk(ref, hyp, i, i)[k] == Equal(k, k)
  {
    if i > 0 {
      MatchingAllEqual(ref, hyp, i - 1);
      MatchingChoice(ref, hyp, i);
      var prev := Walk(ref, hyp, i - 1, i - 1);
      assert Walk(ref, hyp, i, i) == prev + [Equal(i - 1, i - 1)];
    }
  }

  // ---------------------------------------------------------------------------
  // The imperative alignment

  function Reversed<T>(s: seq<T>): (r: seq<T>)
    ensures |r| == |s|
    ensures forall k :: 0 <= k < |s| ==> r[k] == s[|s| - 1 - k]
  {
    if s == [] then [] else Reversed(s[1..]) + [s[0]]
  }

  /** Every cell on the border, in a row above `i`, or in row `i` left of column `j`
      holds its reference value. */
  ghost predicate Filled(ref: seq<string>, hyp: seq<string>, dp: array2<nat>, bt: array2<Pointer>, i: nat, j: nat)
    reads dp, bt
  {
    && dp.Length0 == |ref| + 1 && dp.Length1 == |hyp| + 1
    && bt.Length0 == |ref| + 1 && bt.Length1 == |hyp| + 1
    && forall a, b :: 0 <= a <= |ref| && 0 <= b <= |hyp| && (a == 0 || b == 0 || a < i || (a == i && b < j)) ==>
         CellOk(ref, hyp, dp[a, b], bt[a, b], a, b)
  }

  /** A cost `d` and a back-pointer `p` are the reference values of cell `(a, b)`. */
  ghost predicate CellOk(ref: seq<string>, hyp: seq<string>, d: nat, p: Pointer, a: nat, b: nat)
    requires a <= |ref| && b <= |hyp|
  {
    d == Dist(ref, hyp, a, b) && p == Choice(ref, hyp, a, b)
  }

  /** The value and back-pointer the source writes into inner cell `(i, j)` are the
      reference ones, given that the three neighbouring cells hold theirs. */
  lemma CellStep(ref: seq<string>, hyp: seq<string>, i: nat, j: nat, a: nat, b: nat, c: nat)
    requires 0 < i <= |ref| && 0 < j <= |hyp|
    requires a == Dist(ref, hyp, i - 1, j) + 1 && b == Dist(ref, hyp, i, j - 1) + 1
    requires c == Dist(ref, hyp, i - 1, j - 1) + (if Lower(ref[i - 1]) == Lower(hyp[j - 1]) then 0 else 1)
    ensures Min3(a, b, c) == Dist(ref, hyp, i, j)
    ensures Choice(ref, hyp, i, j) ==
      if Min3(a, b, c) == c then (if Lower(ref[i - 1]) == Lower(hyp[j - 1]) then PEqual else PSub)
      else if Min3(a, b, c) == a then PDel
      else PIns
  {
  }

  /** The first two loops of `_align_tokens`: the first column deletes, the first row inserts. */
  method FillBorders(ref: seq<string>, hyp: seq<string>) returns (dp: array2<nat>, bt: array2<Pointer>)
    ensures fresh(dp) && fresh(bt)
    ensures Filled(ref, hyp, dp, bt, 1, 0)
  {
    var n, m := |ref|, |hyp|;
    dp := new nat[n + 1, m + 1]((_, _) => 0);
    bt := new Pointer[n + 1, m + 1]((_, _) => Unset);
    var i := 1;
    while i <= n
      invariant 1 <= i <= n + 1
      invariant dp[0, 0] == 0 && bt[0, 0] == Unset
      invariant forall a :: 1 <= a < i ==> dp[a, 0] == a && bt[a, 0] == PDel
    {
      dp[i, 0] := i;
      bt[i, 0] := PDel;
      i := i + 1;
    }
    var j := 1;
    while j <= m
      invariant 1 <= j <= m + 1
      invariant dp[0, 0] == 0 && bt[0, 0] == Unset
      invariant forall a :: 1 <= a <= n ==> dp[a, 0] == a && bt[a, 0] == PDel
      invariant forall b :: 1 <= b < j ==> dp[0, b] == b && bt[0, b] == PIns
    {
      dp[0, j] := j;
      bt[0, j] := PIns;
      j := j + 1;
    }
    forall a, b | 0 <= a <= n && 0 <= b <= m && (a == 0 || b == 0)
      ensures CellOk(ref, hyp, dp[a, b], bt[a, b], a, b)
    {
      if a > 0 { assert dp[a, 0] == a; }
      if b > 0 { assert dp[0, b] == b; }
    }
  }

  /** One pass of the inner loop of `_align_tokens`: row `i` of both tables. */
  method FillRow(ref: seq<string>, hyp: seq<string>, dp: array2<nat>, bt: array2<Pointer>, i: nat)
    requires 0 < i <= |ref|
    requires Filled(ref, hyp, dp, bt, i, 0)
    modifies dp, bt
    ensures Filled(ref, hyp, dp, bt, i + 1, 0)
  {
    var m := |hyp|;
    var j := 1;
    while j <= m
      invariant 1 <= j <= m + 1
      invariant Filled(ref, hyp, dp, bt, i, j)
    {
      FillCell(ref, hyp, dp, bt, i, j);
      j := j + 1;
    }
  }

  /** The body of the inner loop: cell `(i, j)` from its three neighbours. */
  method FillCell(ref: seq<string>, hyp: seq<string>, dp: array2<nat>, bt: array2<Pointer>, i: nat, j: nat)
    requires 0 < i <= |ref| && 0 < j <= |hyp|
    requires Filled(ref, hyp, dp, bt, i, j)
    modifies dp, bt
    ensures Filled(ref, hyp, dp, bt, i, j + 1)
  {
    var ri := Lower(ref[i - 1]);
    var hj := Lower(hyp[j - 1]);
    assert CellOk(ref, hyp, dp[i - 1, j], bt[i - 1, j], i - 1, j) && CellOk(ref, hyp, dp[i, j - 1], bt[i, j - 1], i, j - 1);
    assert CellOk(ref, hyp, dp[i - 1, j - 1], bt[i - 1, j - 1], i - 1, j - 1);
    var costSub := if ri == hj then 0 else 1;
    var a := dp[i - 1, j] + 1;
    var b := dp[i, j - 1] + 1;
    var c := dp[i - 1, j - 1] + costSub;
    var best := Min3(a, b, c);
    CellStep(ref, hyp, i, j, a, b, c);
    dp[i, j] := best;
    if best == c {
      bt[i, j] := if costSub == 0 then PEqual else PSub;
    } else if best == a {
      bt[i, j] := PDel;
    } else {
      bt[i, j] := PIns;
    }
  }

  /** The loops of `_align_tokens` that fill the cost table `dp` and the back-pointer table `bt`. */
  method FillTables(ref: seq<string>, hyp: seq<string>) returns (dp: array2<nat>, bt: array2<Pointer>)
    ensures fresh(dp) && fresh(bt)
    ensures Filled(ref, hyp, dp, bt, |ref| + 1, 0)
  {
    dp, bt := FillBorders(ref, hyp);
    var i := 1;
    while i <= |ref|
      invariant 1 <= i <= |ref| + 1
      invariant Filled(ref, hyp, dp, bt, i, 0)
    {
      FillRow(ref, hyp, dp, bt, i);
      i := i + 1;
    }
  }

  lemma ReversedSnoc<T>(s: seq<T>, x: T)
    ensures Reversed(s + [x]) == [x] + Reversed(s)
  {
  }

  /** Taking one step back from cell `(i, j)` moves its operation to the front of
      the operations collected so far (kept in reverse order). */
  lemma WalkExtend(ref: seq<string>, hyp: seq<string>, i: nat, j: nat, rev: seq<Op>, op: Op, i': nat, j': nat)
    requires i <= |ref| && j <= |hyp| && (i > 0 || j > 0)
    requires op == StepOp(ref, hyp, i, j)
    requires i' == (if op.Ins? then i else i - 1) && j' == (if op.Del? then j else j - 1)
    ensures Walk(ref, hyp, i, j) + Reversed(rev) == Walk(ref, hyp, i', j') + Reversed(rev + [op])
  {
    WalkStep(ref, hyp, i, j);
    var w := Walk(ref, hyp, i', j');
    assert Walk(ref, hyp, i, j) == w + [op];
    ReversedSnoc(rev, op);
    assert (w + [op]) + Reversed(rev) == w + ([op] + Reversed(rev));
  }

  /** One pass of the reconstruction loop: the operation back-pointer `p` of cell
      `(i, j)` names is collected and the walk moves to the cell it points to. */
  method BackStep(ref: seq<string>, hyp: seq<string>, i: nat, j: nat, p: Pointer, rev: seq<Op>)
    returns (i': nat, j': nat, rev': seq<Op>)
    requires i <= |ref| && j <= |hyp| && (i > 0 || j > 0)
    requires p == Choice(ref, hyp, i, j)
    ensures i' + j' < i + j && i' <= i && j' <= j
    ensures Walk(ref, hyp, i, j) + Reversed(rev) == Walk(ref, hyp, i', j') + Reversed(rev')
  {
    var op: Op;
    if p == PEqual || p == PSub {
      op := if p == PEqual then Equal(i - 1, j - 1) else Sub(i - 1, j - 1);
      i', j' := i - 1, j - 1;
    } else if p == PDel {
      op := Del(i - 1);
      i', j' := i - 1, j;
    } else if p == PIns {
      op := Ins(j - 1);
      i', j' := i, j - 1;
    } else {
      // the source falls back to a deletion here; the pointer is never Unset off (0, 0)
      assert false;
    }
    WalkExtend(ref, hyp, i, j, rev, op, i', j');
    rev' := rev + [op];
  }

  /** The reconstruction loop of `_align_tokens`: follows the back-pointers from the
      last cell to `(0, 0)` and reverses the collected operations. */
  method WalkBack(ref: seq<string>, hyp: seq<string>, dp: array2<nat>, bt: array2<Pointer>) returns (ops: seq<Op>)
    requires Filled(ref, hyp, dp, bt, |ref| + 1, 0)
    ensures ops == Walk(ref, hyp, |ref|, |hyp|)
  {
    var i, j := |ref|, |hyp|;
    var rev: seq<Op> := [];
    while i > 0 || j > 0
      invariant 0 <= i <= |ref| && 0 <= j <= |hyp|
      invariant Walk(ref, hyp, |ref|, |hyp|) == Walk(ref, hyp, i, j) + Reversed(rev)
      decreases i + j
    {
      assert CellOk(ref, hyp, dp[i, j], bt[i, j], i, j);
      i, j, rev := BackStep(ref, hyp, i, j, bt[i, j], rev);
    }
    ops := Reversed(rev);
  }

  /** `_align_tokens`: the ordered operations of an optimal alignment of `ref` with `hyp`. */
  method AlignTokens(ref: seq<string>, hyp: seq<string>) returns (ops: seq<Op>)
    ensures ops == Walk(ref, hyp, |ref|, |hyp|)
    ensures IsAlignment(ref, hyp, ops, |ref|, |hyp|) && SubsDiffer(ref, hyp, ops)
    ensures Cost(ops) == Dist(ref, hyp, |ref|, |hyp|)
  {
    var dp, bt := FillTables(ref, hyp);
    ops := WalkBack(ref, hyp, dp, bt);
    WalkIsAlignment(ref, hyp, |ref|, |hyp|);
    WalkCost(ref, hyp, |ref|, |hyp|);
  }
}
