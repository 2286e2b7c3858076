/**
 * Highlight spans for the script and transcript views
 * (`_char_level_spans_for_substitution`, `compute_error_spans_for_display`).
 */
module Spans {
  import opened Text
  import opened Tokenizer
  import opened Aligner
  import opened Runs

  /** `VOWELS`: a deleted character in this set gets the stronger colour. */
  predicate IsVowel(c: char) {
    c in "aeiou"
  }

  /** The colour class of a deleted reference character, judged on its lower-case form. */
  function DeleteCategory(c: char): (cat: Category)
    ensures cat == VowelDel <==> IsVowel(LowerChar(c))
    ensures cat == VowelDel || cat == ConsDel
  {
    if IsVowel(LowerChar(c)) then VowelDel else ConsDel
  }

  // ---------------------------------------------------------------------------
  // Character-level edit script of two words

  /** The four opcode tags of `SequenceMatcher.get_opcodes`. */
  datatype Tag = TEqual | TReplace | TDelete | TInsert

  /** An opcode: `a[i1..i2]` is turned into `b[j1..j2]` as `tag` says. */
  datatype Opcode = Opcode(tag: Tag, i1: nat, i2: nat, j1: nat, j2: nat)

  /** One opcode over `a` and `b` as the matcher produces it: ranges inside both strings,
      equal slices for `equal`, non-empty ranges where the tag edits something. */
  predicate OpcodeOk(o: Opcode, a: string, b: string) {
    && o.i1 <= o.i2 <= |a| && o.j1 <= o.j2 <= |b|
    && match o.tag
       case TEqual => a[o.i1..o.i2] == b[o.j1..o.j2]
       case TReplace => o.i1 < o.i2 && o.j1 < o.j2
       case TDelete => o.i1 < o.i2 && o.j1 == o.j2
       case TInsert => o.i1 == o.i2 && o.j1 < o.j2
  }

  /** Every opcode of `ops` is well formed over `a` and `b`. */
  predicate OpcodesOk(ops: seq<Opcode>, a: string, b: string) {
    forall k :: 0 <= k < |ops| ==> OpcodeOk(ops[k], a, b)
  }

  /** Neighbouring opcodes meet: each one starts where the previous one ends. */
  predicate Chained(ops: seq<Opcode>) {
    forall k :: 0 <= k < |ops| - 1 ==> ops[k].i2 == ops[k + 1].i1 && ops[k].j2 == ops[k + 1].j1
  }

  /**
   * What `get_opcodes` guarantees about its result: a chain of well-formed opcodes that
   * starts at `(0, 0)` and ends at `(|a|, |b|)`, so that it rewrites all of `a` into all
   * of `b`; two empty strings give no opcodes.
   */
  predicate WellFormedOpcodes(ops: seq<Opcode>, a: string, b: string) {
    && OpcodesOk(ops, a, b)
    && Chained(ops)
    && (ops == [] ==> |a| == 0 && |b| == 0)
    && (ops != [] ==> ops[0].i1 == 0 && ops[0].j1 == 0)
    && (ops != [] ==> ops[|ops| - 1].i2 == |a| && ops[|ops| - 1].j2 == |b|)
  }

  /** A stand-in for `difflib.SequenceMatcher(a=..., b=...).get_opcodes()`: any function
      that always returns a well-formed edit script. */
  ghost predicate IsMatcher(matcher: (string, string) -> seq<Opcode>) {
    forall a: string, b: string :: WellFormedOpcodes(matcher(a, b), a, b)
  }

  /** The positions `i1 <= k < i2` of `word`, in order, whose lower-case character is a
      vowel (`vowels`) or is not (`!vowels`). */
  function DeletedIndexes(word: string, i1: nat, i2: nat, vowels: bool): seq<int>
    requires i1 <= i2 <= |word|
    decreases i2 - i1
  {
    if i1 == i2 then []
    else DeletedIndexes(word, i1, i2 - 1, vowels)
         + (if IsVowel(LowerChar(word[i2 - 1])) == vowels then [i2 - 1] else [])
  }

  /** The two index lists split the deleted range by the vowel test, each in increasing order. */
  lemma {:induction false} DeletedIndexesPartition(word: string, i1: nat, i2: nat, vowels: bool)
    requires i1 <= i2 <= |word|
    ensures forall x :: x in DeletedIndexes(word, i1, i2, vowels) <==>
      i1 <= x < i2 && IsVowel(LowerChar(word[x])) == vowels
    ensures Distinct(DeletedIndexes(word, i1, i2, vowels))
    decreases i2 - i1
  {
    if i1 < i2 {
      DeletedIndexesPartition(word, i1, i2 - 1, vowels);
    }
  }

  /** The spans one opcode adds to the reference and hypothesis lists `acc`. */
  function OpcodeSpans(o: Opcode, refWord: string, refStart: int, hypStart: int,
                       acc: (seq<Span>, seq<Span>)): (seq<Span>, seq<Span>)
    requires o.i1 <= o.i2 <= |refWord|
  {
    match o.tag
    case TEqual => acc
    case TReplace =>
      (acc.0 + [Span(refStart + o.i1, refStart + o.i2, Replace)],
       acc.1 + [Span(hypStart + o.j1, hypStart + o.j2, Replace)])
    case TDelete =>
      var withVowels := Appended(acc.0, refStart, DeletedIndexes(refWord, o.i1, o.i2, true), VowelDel);
      (Appended(withVowels, refStart, DeletedIndexes(refWord, o.i1, o.i2, false), ConsDel), acc.1)
    case TInsert =>
      (acc.0, acc.1 + [Span(hypStart + o.j1, hypStart + o.j2, CharIns)])
  }

  /** Every opcode's reference range lies inside `word`. */
  predicate RefRangesIn(ops: seq<Opcode>, word: string) {
    forall k :: 0 <= k < |ops| ==> ops[k].i1 <= ops[k].i2 <= |word|
  }

  /** Reference definition of the two span lists of a substituted word pair: the spans of
      the opcodes, in order. */
  function SubstitutionSpans(ops: seq<Opcode>, refWord: string, refStart: int, hypStart: int): (seq<Span>, seq<Span>)
    requires RefRangesIn(ops, refWord)
  {
    if ops == [] then ([], [])
    else
      var pre := ops[..|ops| - 1];
      assert forall k :: 0 <= k < |pre| ==> pre[k] == ops[k];
      OpcodeSpans(ops[|ops| - 1], refWord, refStart, hypStart, SubstitutionSpans(pre, refWord, refStart, hypStart))
  }

  /** Every span lies in `[lo, hi)`, is non-empty and has one of the categories `cats`. */
  predicate SpansWithin(spans: seq<Span>, lo: int, hi: int, cats: set<Category>) {
    forall q :: 0 <= q < |spans| ==>
      lo <= spans[q].start < spans[q].end <= hi && spans[q].category in cats
  }

  /** The categories that can mark the script, and the transcript. */
  const ScriptCategories: set<Category> := {WordDel, Replace, VowelDel, ConsDel}
  const TranscriptCategories: set<Category> := {WordIns, Replace, CharIns}

  lemma SpansWithinAppend(a: seq<Span>, b: seq<Span>, lo: int, hi: int, cats: set<Category>)
    requires SpansWithin(a, lo, hi, cats) && SpansWithin(b, lo, hi, cats)
    ensures SpansWithin(a + b, lo, hi, cats)
  {
    forall q | 0 <= q < |a + b|
      ensures lo <= (a + b)[q].start < (a + b)[q].end <= hi && (a + b)[q].category in cats
    {
      if q >= |a| {
        assert (a + b)[q] == b[q - |a|];
      }
    }
  }

  lemma SpansWithinWider(spans: seq<Span>, lo: int, hi: int, cats: set<Category>,
                         lo': int, hi': int, cats': set<Category>)
    requires SpansWithin(spans, lo, hi, cats)
    requires lo' <= lo && hi <= hi' && cats <= cats'
    ensures SpansWithin(spans, lo', hi', cats')
  {
  }

  /** The runs of deleted characters of `word[i1..i2]` stay inside the word. */
  lemma AppendedDeletionWithin(spans: seq<Span>, word: string, base: int, i1: nat, i2: nat, vowels: bool,
                               cat: Category, cats: set<Category>)
    requires i1 <= i2 <= |word| && cat in cats
    requires SpansWithin(spans, base, base + |word|, cats)
    ensures SpansWithin(Appended(spans, base, DeletedIndexes(word, i1, i2, vowels), cat), base, base + |word|, cats)
  {
    var idx := DeletedIndexes(word, i1, i2, vowels);
    var out := Appended(spans, base, idx, cat);
    AppendedRuns(spans, base, idx, cat);
    DeletedIndexesPartition(word, i1, i2, vowels);
    var added := out[|spans|..];
    assert out == spans + added;
    RunsWithin(added, base, idx, cat, |word|, cats);
    SpansWithinAppend(spans, added, base, base + |word|, cats);
  }

  /** Runs over indexes below `n` stay inside `[base, base + n)`. */
  lemma RunsWithin(rs: seq<Span>, base: int, indexes: seq<int>, cat: Category, n: nat, cats: set<Category>)
    requires WellFormedRuns(rs, base, indexes, cat) && cat in cats
    requires forall x :: x in indexes ==> 0 <= x < n
    ensures SpansWithin(rs, base, base + n, cats)
  {
    forall q | 0 <= q < |rs|
      ensures base <= rs[q].start < rs[q].end <= base + n && rs[q].category in cats
    {
      assert rs[q].start - base in indexes && rs[q].end - 1 - base in indexes;
    }
  }

  lemma OpcodeSpansWithin(o: Opcode, refWord: string, hypWord: string, refStart: int, hypStart: int,
                          acc: (seq<Span>, seq<Span>))
    requires OpcodeOk(o, Lower(refWord), Lower(hypWord))
    requires SpansWithin(acc.0, refStart, refStart + |refWord|, {Replace, VowelDel, ConsDel})
    requires SpansWithin(acc.1, hypStart, hypStart + |hypWord|, {Replace, CharIns})
    ensures var r := OpcodeSpans(o, refWord, refStart, hypStart, acc);
      && SpansWithin(r.0, refStart, refStart + |refWord|, {Replace, VowelDel, ConsDel})
      && SpansWithin(r.1, hypStart, hypStart + |hypWord|, {Replace, CharIns})
  {
    var cats := {Replace, VowelDel, ConsDel};
    match o.tag
    case TEqual =>
    case TReplace =>
      SpansWithinAppend(acc.0, [Span(refStart + o.i1, refStart + o.i2, Replace)], refStart, refStart + |refWord|, cats);
      SpansWithinAppend(acc.1, [Span(hypStart + o.j1, hypStart + o.j2, Replace)], hypStart, hypStart + |hypWord|, {Replace, CharIns});
    case TDelete =>
      AppendedDeletionWithin(acc.0, refWord, refStart, o.i1, o.i2, true, VowelDel, cats);
      var withVowels := Appended(acc.0, refStart, DeletedIndexes(refWord, o.i1, o.i2, true), VowelDel);
      AppendedDeletionWithin(withVowels, refWord, refStart, o.i1, o.i2, false, ConsDel, cats);
    case TInsert =>
      SpansWithinAppend(acc.1, [Span(hypStart + o.j1, hypStart + o.j2, CharIns)], hypStart, hypStart + |hypWord|, {Replace, CharIns});
  }

  /**
   * The spans of a substituted pair stay inside the two words: reference spans inside
   * `[refStart, refStart + |refWord|)` and marked replace, vowel-delete or
   * consonant-delete; hypothesis spans inside `[hypStart, hypStart + |hypWord|)` and
   * marked replace or insert. Every span is non-empty.
   */
  lemma {:induction false} SubstitutionSpansWithin(ops: seq<Opcode>, refWord: string, hypWord: string,
                                                   refStart: int, hypStart: int)
    requires OpcodesOk(ops, Lower(refWord), Lower(hypWord))
    ensures RefRangesIn(ops, refWord)
    ensures var r := SubstitutionSpans(ops, refWord, refStart, hypStart);
      && SpansWithin(r.0, refStart, refStart + |refWord|, {Replace, VowelDel, ConsDel})
      && SpansWithin(r.1, hypStart, hypStart + |hypWord|, {Replace, CharIns})
  {
    if ops != [] {
      var pre := ops[..|ops| - 1];
      assert OpcodesOk(pre, Lower(refWord), Lower(hypWord)) by {
        forall k | 0 <= k < |pre| ensures OpcodeOk(pre[k], Lower(refWord), Lower(hypWord)) {
          assert pre[k] == ops[k];
        }
      }
      SubstitutionSpansWithin(pre, refWord, hypWord, refStart, hypStart);
      OpcodeSpansWithin(ops[|ops| - 1], refWord, hypWord, refStart, hypStart,
                        SubstitutionSpans(pre, refWord, refStart, hypStart));
    }
  }

  /** When the matcher finds nothing to change, a substituted pair gets no highlight. */
  lemma {:induction false} AllEqualNoSpans(ops: seq<Opcode>, refWord: string, refStart: int, hypStart: int)
    requires RefRangesIn(ops, refWord)
    requires forall k :: 0 <= k < |ops| ==> ops[k].tag == TEqual
    ensures SubstitutionSpans(ops, refWord, refStart, hypStart) == ([], [])
  {
    if ops != [] {
      AllEqualNoSpans(ops[..|ops| - 1], refWord, refStart, hypStart);
    }
  }

  // ---------------------------------------------------------------------------
  // Which characters a substituted pair marks

  /** The reference word (`a`) or the hypothesis word (`b`) of an edit script. */
  datatype Side = RefSide | HypSide

  /** The range an opcode covers on one side. */
  function Lo(o: Opcode, side: Side): nat {
    if side == RefSide then o.i1 else o.j1
  }

  function Hi(o: Opcode, side: Side): nat {
    if side == RefSide then o.i2 else o.j2
  }

  /** The cell of deleted character `word[x - base]`, coloured by the vowel test. */
  function DeleteCell(word: string, base: int, x: int): (int, Category)
    requires base <= x < base + |word|
  {
    (x, DeleteCategory(word[x - base]))
  }

  /** The cells one opcode marks on one side, `base` being the word's offset in its text:
      a replaced range on both sides, a deleted range on the reference side (each
      character by the vowel test) and an inserted range on the hypothesis side. */
  function OpCells(o: Opcode, refWord: string, base: int, side: Side): set<(int, Category)>
    requires o.i1 <= o.i2 <= |refWord|
  {
    if o.tag == TReplace then
      set x | base + Lo(o, side) <= x < base + Hi(o, side) :: (x, Replace)
    else if o.tag == TDelete && side == RefSide then
      set x | base + o.i1 <= x < base + o.i2 :: DeleteCell(refWord, base, x)
    else if o.tag == TInsert && side == HypSide then
      set x | base + o.j1 <= x < base + o.j2 :: (x, CharIns)
    else {}
  }

  /** The cells a list of opcodes marks on one side. */
  function CellsOf(ops: seq<Opcode>, refWord: string, base: int, side: Side): set<(int, Category)>
    requires RefRangesIn(ops, refWord)
  {
    if ops == [] then {}
    else
      var pre := ops[..|ops| - 1];
      assert forall k :: 0 <= k < |pre| ==> pre[k] == ops[k];
      CellsOf(pre, refWord, base, side) + OpCells(ops[|ops| - 1], refWord, base, side)
  }

  /** Position `p` of one side lies in a block the matcher kept unchanged. */
  ghost predicate Kept(ops: seq<Opcode>, side: Side, p: int) {
    exists q :: 0 <= q < |ops| && ops[q].tag == TEqual && Lo(ops[q], side) <= p < Hi(ops[q], side)
  }

  /** Some span marks position `x`. */
  ghost predicate Marked(cells: set<(int, Category)>, x: int) {
    exists c :: (x, c) in cells
  }

  /** Position `x` is marked with at most one category. */
  ghost predicate SingleCategory(cells: set<(int, Category)>, x: int) {
    forall c1, c2 :: (x, c1) in cells && (x, c2) in cells ==> c1 == c2
  }

  lemma DeleteCells(word: string, i1: nat, i2: nat, base: int)
    requires i1 <= i2 <= |word|
    ensures OffsetCells(DeletedIndexes(word, i1, i2, true), base, VowelDel)
          + OffsetCells(DeletedIndexes(word, i1, i2, false), base, ConsDel)
         == set x | base + i1 <= x < base + i2 :: DeleteCell(word, base, x)
  {
    DeletedIndexesPartition(word, i1, i2, true);
    DeletedIndexesPartition(word, i1, i2, false);
    var vs := OffsetCells(DeletedIndexes(word, i1, i2, true), base, VowelDel);
    var cs := OffsetCells(DeletedIndexes(word, i1, i2, false), base, ConsDel);
    var all := set x | base + i1 <= x < base + i2 :: DeleteCell(word, base, x);
    forall c | c in vs + cs ensures c in all {
      if c in vs {
        var x :| x in DeletedIndexes(word, i1, i2, true) && c == (base + x, VowelDel);
        assert c == DeleteCell(word, base, base + x);
      } else {
        var x :| x in DeletedIndexes(word, i1, i2, false) && c == (base + x, ConsDel);
        assert c == DeleteCell(word, base, base + x);
      }
    }
    forall c | c in all ensures c in vs + cs {
      var x :| base + i1 <= x < base + i2 && c == DeleteCell(word, base, x);
      var p := x - base;
      if IsVowel(LowerChar(word[p])) {
        assert p in DeletedIndexes(word, i1, i2, true);
      } else {
        assert p in DeletedIndexes(word, i1, i2, false);
      }
    }
  }

  lemma OpcodeSpansCells(o: Opcode, refWord: string, refStart: int, hypStart: int,
                         acc: (seq<Span>, seq<Span>))
    requires o.i1 <= o.i2 <= |refWord|
    ensures var r := OpcodeSpans(o, refWord, refStart, hypStart, acc);
      && Cells(r.0) == Cells(acc.0) + OpCells(o, refWord, refStart, RefSide)
      && Cells(r.1) == Cells(acc.1) + OpCells(o, refWord, hypStart, HypSide)
  {
    var r := OpcodeSpans(o, refWord, refStart, hypStart, acc);
    var refCells, hypCells := OpCells(o, refWord, refStart, RefSide), OpCells(o, refWord, hypStart, HypSide);
    match o.tag
    case TEqual =>
      assert refCells == {} && hypCells == {};
      assert r == acc;
      assert Cells(acc.0) + {} == Cells(acc.0) && Cells(acc.1) + {} == Cells(acc.1);
    case TReplace =>
      OneSpanCells(acc.0, Span(refStart + o.i1, refStart + o.i2, Replace));
      OneSpanCells(acc.1, Span(hypStart + o.j1, hypStart + o.j2, Replace));
      OpCellsSpan(o, refWord, refStart, RefSide, Replace);
      OpCellsSpan(o, refWord, hypStart, HypSide, Replace);
    case TDelete =>
      DeletionCells(acc.0, refWord, refStart, o.i1, o.i2);
      assert hypCells == {} && r.1 == acc.1;
      assert Cells(acc.1) + {} == Cells(acc.1);
    case TInsert =>
      OneSpanCells(acc.1, Span(hypStart + o.j1, hypStart + o.j2, CharIns));
      OpCellsSpan(o, refWord, hypStart, HypSide, CharIns);
      assert refCells == {} && r.0 == acc.0;
      assert Cells(acc.0) + {} == Cells(acc.0);
  }

  /** A replace opcode (on either side) or an insert opcode (on the hypothesis side)
      marks the cells of one span. */
  lemma OpCellsSpan(o: Opcode, refWord: string, base: int, side: Side, cat: Category)
    requires o.i1 <= o.i2 <= |refWord|
    requires (o.tag == TReplace && cat == Replace) || (o.tag == TInsert && side == HypSide && cat == CharIns)
    ensures OpCells(o, refWord, base, side) == SpanCells(Span(base + Lo(o, side), base + Hi(o, side), cat))
  {
  }

  /** Appending one span adds exactly its cells. */
  lemma OneSpanCells(spans: seq<Span>, sp: Span)
    ensures Cells(spans + [sp]) == Cells(spans) + SpanCells(sp)
  {
    CellsAppend(spans, [sp]);
    assert [sp][..0] == [];
  }

  /** The vowel runs and then the consonant runs of a deletion mark its delete cells. */
  lemma DeletionCells(spans: seq<Span>, refWord: string, refStart: int, i1: nat, i2: nat)
    requires i1 <= i2 <= |refWord|
    ensures var vs := DeletedIndexes(refWord, i1, i2, true);
      var cs := DeletedIndexes(refWord, i1, i2, false);
      Cells(Appended(Appended(spans, refStart, vs, VowelDel), refStart, cs, ConsDel))
        == Cells(spans) + set x | refStart + i1 <= x < refStart + i2 :: DeleteCell(refWord, refStart, x)
  {
    var vs := DeletedIndexes(refWord, i1, i2, true);
    var withVowels := Appended(spans, refStart, vs, VowelDel);
    AppendedCells(spans, refStart, vs, VowelDel);
    AppendedCells(withVowels, refStart, DeletedIndexes(refWord, i1, i2, false), ConsDel);
    DeleteCells(refWord, i1, i2, refStart);
  }

  /** The spans of a substituted pair mark exactly the cells of its opcodes. */
  lemma {:induction false} SubstitutionCells(ops: seq<Opcode>, refWord: string, refStart: int, hypStart: int)
    requires RefRangesIn(ops, refWord)
    ensures var r := SubstitutionSpans(ops, refWord, refStart, hypStart);
      && Cells(r.0) == CellsOf(ops, refWord, refStart, RefSide)
      && Cells(r.1) == CellsOf(ops, refWord, hypStart, HypSide)
  {
    if ops != [] {
      var pre := ops[..|ops| - 1];
      assert RefRangesIn(pre, refWord) by {
        assert forall k :: 0 <= k < |pre| ==> pre[k] == ops[k];
      }
      SubstitutionCells(pre, refWord, refStart, hypStart);
      OpcodeSpansCells(ops[|ops| - 1], refWord, refStart, hypStart, SubstitutionSpans(pre, refWord, refStart, hypStart));
    }
  }

  /** In a chain of opcodes, an earlier opcode ends before a later one starts, on both sides. */
  lemma {:induction false} ChainOrder(ops: seq<Opcode>, a: string, b: string, q1: nat, q2: nat, side: Side)
    requires OpcodesOk(ops, a, b) && Chained(ops)
    requires q1 < q2 < |ops|
    ensures Hi(ops[q1], side) <= Lo(ops[q2], side)
    decreases q2 - q1
  {
    if q1 + 1 < q2 {
      ChainOrder(ops, a, b, q1 + 1, q2, side);
      assert OpcodeOk(ops[q1 + 1], a, b);
    }
  }

  /** A chain of opcodes covers every position between its first start and the end of its opcode `n`. */
  lemma {:induction false} ChainCovers(ops: seq<Opcode>, a: string, b: string, side: Side, n: nat, p: int)
    returns (q: nat)
    requires OpcodesOk(ops, a, b) && Chained(ops)
    requires n < |ops| && Lo(ops[0], side) <= p < Hi(ops[n], side)
    ensures q <= n && Lo(ops[q], side) <= p < Hi(ops[q], side)
  {
    if n == 0 || p >= Hi(ops[n - 1], side) {
      q := n;
    } else {
      q := ChainCovers(ops, a, b, side, n - 1, p);
    }
  }

  lemma {:induction false} CellsOfWitness(ops: seq<Opcode>, refWord: string, base: int, side: Side, cell: (int, Category))
    returns (q: nat)
    requires RefRangesIn(ops, refWord) && cell in CellsOf(ops, refWord, base, side)
    ensures q < |ops| && cell in OpCells(ops[q], refWord, base, side)
  {
    var pre := ops[..|ops| - 1];
    assert forall k :: 0 <= k < |pre| ==> pre[k] == ops[k];
    if cell in OpCells(ops[|ops| - 1], refWord, base, side) {
      q := |ops| - 1;
    } else {
      q := CellsOfWitness(pre, refWord, base, side, cell);
    }
  }

  lemma {:induction false} CellsOfInclude(ops: seq<Opcode>, refWord: string, base: int, side: Side, q: nat)
    requires RefRangesIn(ops, refWord) && q < |ops|
    ensures OpCells(ops[q], refWord, base, side) <= CellsOf(ops, refWord, base, side)
  {
    var pre := ops[..|ops| - 1];
    assert forall k :: 0 <= k < |pre| ==> pre[k] == ops[k];
    if q < |ops| - 1 {
      CellsOfInclude(pre, refWord, base, side, q);
    }
  }

  /** The cells opcode `o` marks at `base + p`: `p` lies in its range and the category is
      the one its tag gives. */
  lemma OpCellsAt(o: Opcode, refWord: string, base: int, side: Side, p: int, c: Category)
    requires o.i1 <= o.i2 <= |refWord|
    ensures (base + p, c) in OpCells(o, refWord, base, side) <==>
      && Lo(o, side) <= p < Hi(o, side)
      && ((o.tag == TReplace && c == Replace)
         || (o.tag == TDelete && side == RefSide && c == DeleteCategory(refWord[p]))
         || (o.tag == TInsert && side == HypSide && c == CharIns))
  {
    var x := base + p;
    if o.tag == TDelete && side == RefSide && o.i1 <= p < o.i2 {
      assert DeleteCell(refWord, base, x) == (x, DeleteCategory(refWord[p]));
    }
    if (x, c) in OpCells(o, refWord, base, side) && o.tag == TDelete && side == RefSide {
      var y :| base + o.i1 <= y < base + o.i2 && (x, c) == DeleteCell(refWord, base, y);
      assert y == x;
    }
  }

  /**
   * The characters of a substituted pair that get a highlight are exactly those outside
   * the blocks the matcher kept, on each side, and each gets exactly one category.
   */
  lemma SubstitutionMarks(ops: seq<Opcode>, refWord: string, hypWord: string, base: int, side: Side, p: int)
    requires WellFormedOpcodes(ops, Lower(refWord), Lower(hypWord))
    ensures RefRangesIn(ops, refWord)
    ensures Marked(CellsOf(ops, refWord, base, side), base + p) <==>
      0 <= p < (if side == RefSide then |refWord| else |hypWord|) && !Kept(ops, side, p)
    ensures SingleCategory(CellsOf(ops, refWord, base, side), base + p)
  {
    var a, b := Lower(refWord), Lower(hypWord);
    assert forall k :: 0 <= k < |ops| ==> OpcodeOk(ops[k], a, b);
    if Marked(CellsOf(ops, refWord, base, side), base + p) {
      MarkedUnkept(ops, refWord, hypWord, base, side, p);
    }
    if 0 <= p < (if side == RefSide then |refWord| else |hypWord|) && !Kept(ops, side, p) {
      UnkeptMarked(ops, refWord, hypWord, base, side, p);
    }
    MarkedOnce(ops, refWord, hypWord, base, side, p);
  }

  /** A marked cell lies inside the word and in no `equal` run. */
  lemma MarkedUnkept(ops: seq<Opcode>, refWord: string, hypWord: string, base: int, side: Side, p: int)
    requires WellFormedOpcodes(ops, Lower(refWord), Lower(hypWord))
    requires Marked(CellsOf(ops, refWord, base, side), base + p)
    ensures 0 <= p < (if side == RefSide then |refWord| else |hypWord|) && !Kept(ops, side, p)
  {
    var a, b := Lower(refWord), Lower(hypWord);
    var cells := CellsOf(ops, refWord, base, side);
    var len := if side == RefSide then |refWord| else |hypWord|;
    var c :| (base + p, c) in cells;
    var q := CellsOfWitness(ops, refWord, base, side, (base + p, c));
    OpCellsAt(ops[q], refWord, base, side, p, c);
    assert OpcodeOk(ops[q], a, b);
    assert Hi(ops[q], side) <= len;
    if Kept(ops, side, p) {
      var q' :| 0 <= q' < |ops| && ops[q'].tag == TEqual && Lo(ops[q'], side) <= p < Hi(ops[q'], side);
      if q < q' {
        ChainOrder(ops, a, b, q, q', side);
      } else if q' < q {
        ChainOrder(ops, a, b, q', q, side);
      }
      assert false;
    }
  }

  /** Every position of the word outside the `equal` runs is marked. */
  lemma UnkeptMarked(ops: seq<Opcode>, refWord: string, hypWord: string, base: int, side: Side, p: int)
    requires WellFormedOpcodes(ops, Lower(refWord), Lower(hypWord))
    requires 0 <= p < (if side == RefSide then |refWord| else |hypWord|) && !Kept(ops, side, p)
    ensures Marked(CellsOf(ops, refWord, base, side), base + p)
  {
    var a, b := Lower(refWord), Lower(hypWord);
    var q := ChainCovers(ops, a, b, side, |ops| - 1, p);
    assert ops[q].tag != TEqual;
    var c := if ops[q].tag == TReplace then Replace
             else if side == RefSide then DeleteCategory(refWord[p]) else CharIns;
    OpCellsAt(ops[q], refWord, base, side, p, c);
    CellsOfInclude(ops, refWord, base, side, q);
    assert (base + p, c) in CellsOf(ops, refWord, base, side);
  }

  /** No position is marked with two categories. */
  lemma MarkedOnce(ops: seq<Opcode>, refWord: string, hypWord: string, base: int, side: Side, p: int)
    requires WellFormedOpcodes(ops, Lower(refWord), Lower(hypWord))
    ensures SingleCategory(CellsOf(ops, refWord, base, side), base + p)
  {
    var a, b := Lower(refWord), Lower(hypWord);
    var cells := CellsOf(ops, refWord, base, side);
    var x := base + p;
    forall c1, c2 | (x, c1) in cells && (x, c2) in cells ensures c1 == c2 {
      var q1 := CellsOfWitness(ops, refWord, base, side, (base + p, c1));
      var q2 := CellsOfWitness(ops, refWord, base, side, (base + p, c2));
      OpCellsAt(ops[q1], refWord, base, side, p, c1);
      OpCellsAt(ops[q2], refWord, base, side, p, c2);
      if q1 < q2 {
        ChainOrder(ops, a, b, q1, q2, side);
      } else if q2 < q1 {
        ChainOrder(ops, a, b, q2, q1, side);
      }
    }
  }

  /** The loop of the `delete` branch: sort the deleted positions into vowels and others. */
  method SplitDeleted(refWord: string, i1: nat, i2: nat) returns (vowelIdx: seq<int>, consIdx: seq<int>)
    requires i1 <= i2 <= |refWord|
    ensures vowelIdx == DeletedIndexes(refWord, i1, i2, true)
    ensures consIdx == DeletedIndexes(refWord, i1, i2, false)
  {
    vowelIdx, consIdx := [], [];
    var k := i1;
    while k < i2
      invariant i1 <= k <= i2
      invariant vowelIdx == DeletedIndexes(refWord, i1, k, true)
      invariant consIdx == DeletedIndexes(refWord, i1, k, false)
    {
      if IsVowel(LowerChar(refWord[k])) {
        vowelIdx := vowelIdx + [k];
      } else {
        consIdx := consIdx + [k];
      }
      k := k + 1;
    }
  }

  /** One pass of the opcode loop: add the spans of opcode `o`. */
  method ApplyOpcode(o: Opcode, refWord: string, refStart: int, hypStart: int,
                     refSpans: seq<Span>, hypSpans: seq<Span>)
    returns (refOut: seq<Span>, hypOut: seq<Span>)
    requires o.i1 <= o.i2 <= |refWord|
    ensures (refOut, hypOut) == OpcodeSpans(o, refWord, refStart, hypStart, (refSpans, hypSpans))
  {
    refOut, hypOut := refSpans, hypSpans;
    if o.tag == TEqual {
      return;
    }
    if o.tag == TReplace {
      refOut := refOut + [Span(refStart + o.i1, refStart + o.i2, Replace)];
      hypOut := hypOut + [Span(hypStart + o.j1, hypStart + o.j2, Replace)];
    } else if o.tag == TDelete {
      var vowelIdx, consIdx := SplitDeleted(refWord, o.i1, o.i2);
      refOut := AppendRuns(refOut, refStart, vowelIdx, VowelDel);
      refOut := AppendRuns(refOut, refStart, consIdx, ConsDel);
    } else if o.tag == TInsert {
      hypOut := hypOut + [Span(hypStart + o.j1, hypStart + o.j2, CharIns)];
    }
  }

  /**
   * `_char_level_spans_for_substitution`: walk the opcodes of the lower-cased words;
   * `replace` marks both ranges, `delete` marks the deleted reference characters in
   * runs, vowels and other characters separately, `insert` marks the inserted
   * hypothesis range, `equal` marks nothing.
   */
  method CharLevelSpans(refWord: string, hypWord: string, refStart: int, hypStart: int,
                        matcher: (string, string) -> seq<Opcode>)
    returns (refSpans: seq<Span>, hypSpans: seq<Span>)
    requires IsMatcher(matcher)
    ensures RefRangesIn(matcher(Lower(refWord), Lower(hypWord)), refWord)
    ensures (refSpans, hypSpans) == SubstitutionSpans(matcher(Lower(refWord), Lower(hypWord)), refWord, refStart, hypStart)
    ensures SpansWithin(refSpans, refStart, refStart + |refWord|, {Replace, VowelDel, ConsDel})
    ensures SpansWithin(hypSpans, hypStart, hypStart + |hypWord|, {Replace, CharIns})
    ensures Cells(refSpans) == CellsOf(matcher(Lower(refWord), Lower(hypWord)), refWord, refStart, RefSide)
    ensures Cells(hypSpans) == CellsOf(matcher(Lower(refWord), Lower(hypWord)), refWord, hypStart, HypSide)
  {
    var ops := matcher(Lower(refWord), Lower(hypWord));
    assert WellFormedOpcodes(ops, Lower(refWord), Lower(hypWord));
    SubstitutionSpansWithin(ops, refWord, hypWord, refStart, hypStart);
    SubstitutionCells(ops, refWord, refStart, hypStart);
    refSpans, hypSpans := [], [];
    var n := 0;
    while n < |ops|
      invariant n <= |ops|
      invariant (refSpans, hypSpans) == SubstitutionSpans(ops[..n], refWord, refStart, hypStart)
    {
      assert ops[..n + 1][..n] == ops[..n] && ops[..n + 1][n] == ops[n];
      refSpans, hypSpans := ApplyOpcode(ops[n], refWord, refStart, hypStart, refSpans, hypSpans);
      n := n + 1;
    }
    assert ops[..n] == ops;
  }

  // ---------------------------------------------------------------------------
  // Word-level spans of two texts

  /** The words of a token list (`[t[0] for t in tokens]`). */
  function Words(toks: seq<Token>): (w: seq<string>)
    ensures |w| == |toks| && forall k :: 0 <= k < |toks| ==> w[k] == toks[k].text
  {
    seq(|toks|, k requires 0 <= k < |toks| => toks[k].text)
  }

  /** The char-level spans of the substituted pair `refTok`, `hypTok`. */
  function PairSpans(refTok: Token, hypTok: Token, matcher: (string, string) -> seq<Opcode>): (seq<Span>, seq<Span>)
    requires IsMatcher(matcher)
  {
    var ops := matcher(Lower(refTok.text), Lower(hypTok.text));
    assert WellFormedOpcodes(ops, Lower(refTok.text), Lower(hypTok.text));
    SubstitutionSpans(ops, refTok.text, refTok.start, hypTok.start)
  }

  /** The spans one word operation adds to the script and transcript lists `acc`. */
  function WordOpSpans(op: Op, refToks: seq<Token>, hypToks: seq<Token>,
                       matcher: (string, string) -> seq<Opcode>, acc: (seq<Span>, seq<Span>)): (seq<Span>, seq<Span>)
    requires IsMatcher(matcher) && OpWithin(op, |refToks|, |hypToks|)
  {
    match op
    case Equal(_, _) => acc
    case Del(r) => (acc.0 + [Span(refToks[r].start, refToks[r].end, WordDel)], acc.1)
    case Ins(h) => (acc.0, acc.1 + [Span(hypToks[h].start, hypToks[h].end, WordIns)])
    case Sub(r, h) =>
      var sub := PairSpans(refToks[r], hypToks[h], matcher);
      (acc.0 + sub.0, acc.1 + sub.1)
  }

  /** Reference definition of the script and transcript spans of a word alignment. */
  function ErrorSpans(ops: seq<Op>, refToks: seq<Token>, hypToks: seq<Token>,
                      matcher: (string, string) -> seq<Opcode>): (seq<Span>, seq<Span>)
    requires IsMatcher(matcher) && AllWithin(ops, |refToks|, |hypToks|)
  {
    if ops == [] then ([], [])
    else
      var pre := ops[..|ops| - 1];
      assert forall k :: 0 <= k < |pre| ==> pre[k] == ops[k];
      WordOpSpans(ops[|ops| - 1], refToks, hypToks, matcher, ErrorSpans(pre, refToks, hypToks, matcher))
  }

  /** The alignment `compute_error_spans_for_display` highlights. */
  function WordAlignment(refText: string, hypText: string): seq<Op> {
    var rw, hw := Words(Tokens(refText)), Words(Tokens(hypText));
    Walk(rw, hw, |rw|, |hw|)
  }

  lemma WordAlignmentWithin(refText: string, hypText: string)
    ensures AllWithin(WordAlignment(refText, hypText), |Tokens(refText)|, |Tokens(hypText)|)
  {
    var rw, hw := Words(Tokens(refText)), Words(Tokens(hypText));
    WalkIsAlignment(rw, hw, |rw|, |hw|);
    AlignmentWithin(rw, hw, Walk(rw, hw, |rw|, |hw|), |rw|, |hw|);
  }

  /** One pass of the word loop. */
  method ApplyWordOp(op: Op, refToks: seq<Token>, hypToks: seq<Token>, matcher: (string, string) -> seq<Opcode>,
                     script: seq<Span>, transcript: seq<Span>)
    returns (scriptOut: seq<Span>, transcriptOut: seq<Span>)
    requires IsMatcher(matcher) && OpWithin(op, |refToks|, |hypToks|)
    ensures (scriptOut, transcriptOut) == WordOpSpans(op, refToks, hypToks, matcher, (script, transcript))
  {
    scriptOut, transcriptOut := script, transcript;
    match op
    case Equal(_, _) =>
    case Del(r) =>
      scriptOut := scriptOut + [Span(refToks[r].start, refToks[r].end, WordDel)];
    case Ins(h) =>
      transcriptOut := transcriptOut + [Span(hypToks[h].start, hypToks[h].end, WordIns)];
    case Sub(r, h) =>
      var rsList, hsList := CharLevelSpans(refToks[r].text, hypToks[h].text, refToks[r].start, hypToks[h].start, matcher);
      scriptOut := scriptOut + rsList;
      transcriptOut := transcriptOut + hsList;
  }

  /** The loop over the word operations. */
  method SpansOfAlignment(ops: seq<Op>, refToks: seq<Token>, hypToks: seq<Token>,
                          matcher: (string, string) -> seq<Opcode>)
    returns (script: seq<Span>, transcript: seq<Span>)
    requires IsMatcher(matcher) && AllWithin(ops, |refToks|, |hypToks|)
    ensures (script, transcript) == ErrorSpans(ops, refToks, hypToks, matcher)
  {
    script, transcript := [], [];
    var n := 0;
    while n < |ops|
      invariant n <= |ops|
      invariant AllWithin(ops[..n], |refToks|, |hypToks|)
      invariant (script, transcript) == ErrorSpans(ops[..n], refToks, hypToks, matcher)
    {
      assert ops[..n + 1][..n] == ops[..n] && ops[..n + 1][n] == ops[n];
      script, transcript := ApplyWordOp(ops[n], refToks, hypToks, matcher, script, transcript);
      n := n + 1;
    }
    assert ops[..n] == ops;
  }

  /**
   * `compute_error_spans_for_display`: tokenize both texts, align their words, and mark
   * deleted words in the script, inserted words in the transcript, and the characters
   * that differ inside substituted words in both. Every span is non-empty, lies inside
   * its text and carries a category of its side.
   */
  method ComputeErrorSpans(refText: string, hypText: string, matcher: (string, string) -> seq<Opcode>)
    returns (script: seq<Span>, transcript: seq<Span>)
    requires IsMatcher(matcher)
    ensures AllWithin(WordAlignment(refText, hypText), |Tokens(refText)|, |Tokens(hypText)|)
    ensures (script, transcript) == ErrorSpans(WordAlignment(refText, hypText), Tokens(refText), Tokens(hypText), matcher)
    ensures SpansWithin(script, 0, |refText|, ScriptCategories)
    ensures SpansWithin(transcript, 0, |hypText|, TranscriptCategories)
  {
    var refToks := Tokenize(refText);
    var hypToks := Tokenize(hypText);
    var refWords, hypWords := Words(refToks), Words(hypToks);
    var ops := AlignTokens(refWords, hypWords);
    AlignmentWithin(refWords, hypWords, ops, |refWords|, |hypWords|);
    script, transcript := SpansOfAlignment(ops, refToks, hypToks, matcher);
    TokensCorrect(refText);
    TokensCorrect(hypText);
    ErrorSpansWithin(ops, refText, hypText, refToks, hypToks, matcher);
  }

  /** A token of a tokenization is a slice of its text. */
  lemma TokenInside(text: string, toks: seq<Token>, k: nat)
    requires TokenizationOf(text, toks, 0) && k < |toks|
    ensures toks[k].start < toks[k].end <= |text|
    ensures |toks[k].text| == toks[k].end - toks[k].start
  {
    assert IsWordRun(text, toks[k]);
  }

  /** The spans of every word operation stay inside the texts. */
  lemma {:induction false} ErrorSpansWithin(ops: seq<Op>, refText: string, hypText: string,
                                            refToks: seq<Token>, hypToks: seq<Token>,
                                            matcher: (string, string) -> seq<Opcode>)
    requires IsMatcher(matcher) && AllWithin(ops, |refToks|, |hypToks|)
    requires TokenizationOf(refText, refToks, 0) && TokenizationOf(hypText, hypToks, 0)
    ensures var r := ErrorSpans(ops, refToks, hypToks, matcher);
      && SpansWithin(r.0, 0, |refText|, ScriptCategories)
      && SpansWithin(r.1, 0, |hypText|, TranscriptCategories)
  {
    if ops != [] {
      var pre := ops[..|ops| - 1];
      assert forall k :: 0 <= k < |pre| ==> pre[k] == ops[k];
      ErrorSpansWithin(pre, refText, hypText, refToks, hypToks, matcher);
      var acc := ErrorSpans(pre, refToks, hypToks, matcher);
      match ops[|ops| - 1]
      case Equal(_, _) =>
      case Del(r) =>
        TokenInside(refText, refToks, r);
        SpansWithinAppend(acc.0, [Span(refToks[r].start, refToks[r].end, WordDel)], 0, |refText|, ScriptCategories);
      case Ins(h) =>
        TokenInside(hypText, hypToks, h);
        SpansWithinAppend(acc.1, [Span(hypToks[h].start, hypToks[h].end, WordIns)], 0, |hypText|, TranscriptCategories);
      case Sub(r, h) =>
        TokenInside(refText, refToks, r);
        TokenInside(hypText, hypToks, h);
        var rt, ht := refToks[r], hypToks[h];
        PairSpansWithin(rt, ht, matcher, |refText|, |hypText|);
        var sub := PairSpans(rt, ht, matcher);
        SpansWithinAppend(acc.0, sub.0, 0, |refText|, ScriptCategories);
        SpansWithinAppend(acc.1, sub.1, 0, |hypText|, TranscriptCategories);
    }
  }

  /** The char-level spans of a substituted pair stay inside texts that hold both words. */
  lemma PairSpansWithin(rt: Token, ht: Token, matcher: (string, string) -> seq<Opcode>, refLen: nat, hypLen: nat)
    requires IsMatcher(matcher)
    requires rt.start + |rt.text| <= refLen && ht.start + |ht.text| <= hypLen
    ensures SpansWithin(PairSpans(rt, ht, matcher).0, 0, refLen, ScriptCategories)
    ensures SpansWithin(PairSpans(rt, ht, matcher).1, 0, hypLen, TranscriptCategories)
  {
    var sops := matcher(Lower(rt.text), Lower(ht.text));
    assert WellFormedOpcodes(sops, Lower(rt.text), Lower(ht.text));
    SubstitutionSpansWithin(sops, rt.text, ht.text, rt.start, ht.start);
    var sub := PairSpans(rt, ht, matcher);
    SpansWithinWider(sub.0, rt.start, rt.start + |rt.text|, {Replace, VowelDel, ConsDel}, 0, refLen, ScriptCategories);
    SpansWithinWider(sub.1, ht.start, ht.start + |ht.text|, {Replace, CharIns}, 0, hypLen, TranscriptCategories);
  }

  /** The char-level spans of a substituted pair carry char-level categories only. */
  lemma PairSpansCategories(rt: Token, ht: Token, matcher: (string, string) -> seq<Opcode>)
    requires IsMatcher(matcher)
    ensures forall sp :: sp in PairSpans(rt, ht, matcher).0 ==>
      rt.start <= sp.start && sp.end <= rt.start + |rt.text| && sp.category in {Replace, VowelDel, ConsDel}
    ensures forall sp :: sp in PairSpans(rt, ht, matcher).1 ==>
      ht.start <= sp.start && sp.end <= ht.start + |ht.text| && sp.category in {Replace, CharIns}
  {
    var sops := matcher(Lower(rt.text), Lower(ht.text));
    assert WellFormedOpcodes(sops, Lower(rt.text), Lower(ht.text));
    SubstitutionSpansWithin(sops, rt.text, ht.text, rt.start, ht.start);
  }

  lemma {:induction false} AllEqualOpsNoSpans(ops: seq<Op>, refToks: seq<Token>, hypToks: seq<Token>,
                                              matcher: (string, string) -> seq<Opcode>)
    requires IsMatcher(matcher) && AllWithin(ops, |refToks|, |hypToks|)
    requires forall k :: 0 <= k < |ops| ==> ops[k].Equal?
    ensures ErrorSpans(ops, refToks, hypToks, matcher) == ([], [])
  {
    if ops != [] {
      var pre := ops[..|ops| - 1];
      assert forall k :: 0 <= k < |pre| ==> pre[k] == ops[k];
      AllEqualOpsNoSpans(pre, refToks, hypToks, matcher);
    }
  }

  /** Texts whose words match one for one, ignoring case (a perfect reading), get no
      highlight in either view. */
  lemma MatchingTextsUnmarked(refText: string, hypText: string, matcher: (string, string) -> seq<Opcode>)
    requires IsMatcher(matcher)
    requires |Tokens(refText)| == |Tokens(hypText)|
    requires forall k :: 0 <= k < |Tokens(refText)| ==> SameWord(Tokens(refText)[k].text, Tokens(hypText)[k].text)
    ensures AllWithin(WordAlignment(refText, hypText), |Tokens(refText)|, |Tokens(hypText)|)
    ensures ErrorSpans(WordAlignment(refText, hypText), Tokens(refText), Tokens(hypText), matcher) == ([], [])
  {
    var rw, hw := Words(Tokens(refText)), Words(Tokens(hypText));
    WordAlignmentWithin(refText, hypText);
    MatchingAllEqual(rw, hw, |rw|);
    AllEqualOpsNoSpans(WordAlignment(refText, hypText), Tokens(refText), Tokens(hypText), matcher);
  }

  /** Operation `k` deletes a reference word and `sp` is that word's whole-word mark. */
  ghost predicate DeletedWordSpan(ops: seq<Op>, refToks: seq<Token>, k: int, sp: Span) {
    0 <= k < |ops| && ops[k].Del? && ops[k].r < |refToks|
    && sp == Span(refToks[ops[k].r].start, refToks[ops[k].r].end, WordDel)
  }

  /** Operation `k` inserts a hypothesis word and `sp` is that word's whole-word mark. */
  ghost predicate InsertedWordSpan(ops: seq<Op>, hypToks: seq<Token>, k: int, sp: Span) {
    0 <= k < |ops| && ops[k].Ins? && ops[k].h < |hypToks|
    && sp == Span(hypToks[ops[k].h].start, hypToks[ops[k].h].end, WordIns)
  }

  /**
   * Whole-word marks are exactly the word deletions and insertions of the alignment:
   * the script carries a word-delete span iff the alignment deletes that reference
   * word, and the transcript a word-insert span iff it inserts that hypothesis word.
   */
  lemma {:induction false} WholeWordMarks(ops: seq<Op>, refToks: seq<Token>, hypToks: seq<Token>,
                                          matcher: (string, string) -> seq<Opcode>, sp: Span)
    requires IsMatcher(matcher) && AllWithin(ops, |refToks|, |hypToks|)
    ensures sp in ErrorSpans(ops, refToks, hypToks, matcher).0 && sp.category == WordDel
      <==> exists k :: DeletedWordSpan(ops, refToks, k, sp)
    ensures sp in ErrorSpans(ops, refToks, hypToks, matcher).1 && sp.category == WordIns
      <==> exists k :: InsertedWordSpan(ops, hypToks, k, sp)
  {
    if ops == [] {
      return;
    }
    var n := |ops| - 1;
    var pre := ops[..n];
    assert forall k :: 0 <= k < |pre| ==> pre[k] == ops[k];
    WholeWordMarks(pre, refToks, hypToks, matcher, sp);
    var acc := ErrorSpans(pre, refToks, hypToks, matcher);
    var out := ErrorSpans(ops, refToks, hypToks, matcher);
    assert forall k :: DeletedWordSpan(pre, refToks, k, sp) ==> DeletedWordSpan(ops, refToks, k, sp);
    assert forall k :: InsertedWordSpan(pre, hypToks, k, sp) ==> InsertedWordSpan(ops, hypToks, k, sp);
    assert forall k :: k != n && DeletedWordSpan(ops, refToks, k, sp) ==> DeletedWordSpan(pre, refToks, k, sp);
    assert forall k :: k != n && InsertedWordSpan(ops, hypToks, k, sp) ==> InsertedWordSpan(pre, hypToks, k, sp);
    match ops[n]
    case Equal(_, _) =>
      assert !DeletedWordSpan(ops, refToks, n, sp) && !InsertedWordSpan(ops, hypToks, n, sp);
    case Del(r) =>
      assert out.0 == acc.0 + [Span(refToks[r].start, refToks[r].end, WordDel)] && out.1 == acc.1;
      assert !InsertedWordSpan(ops, hypToks, n, sp);
      if sp == Span(refToks[r].start, refToks[r].end, WordDel) {
        assert DeletedWordSpan(ops, refToks, n, sp);
      }
    case Ins(h) =>
      assert out.1 == acc.1 + [Span(hypToks[h].start, hypToks[h].end, WordIns)] && out.0 == acc.0;
      assert !DeletedWordSpan(ops, refToks, n, sp);
      if sp == Span(hypToks[h].start, hypToks[h].end, WordIns) {
        assert InsertedWordSpan(ops, hypToks, n, sp);
      }
    case Sub(r, h) =>
      var sub := PairSpans(refToks[r], hypToks[h], matcher);
      PairSpansCategories(refToks[r], hypToks[h], matcher);
      assert out == (acc.0 + sub.0, acc.1 + sub.1);
      assert !DeletedWordSpan(ops, refToks, n, sp) && !InsertedWordSpan(ops, hypToks, n, sp);
  }

  /** `sp` lies inside a reference word that operation `k` deletes or substitutes. */
  ghost predicate FromRefWord(ops: seq<Op>, refToks: seq<Token>, k: int, sp: Span) {
    0 <= k < |ops| && (ops[k].Del? || ops[k].Sub?) && ops[k].r < |refToks|
    && refToks[ops[k].r].start <= sp.start && sp.end <= refToks[ops[k].r].end
  }

  /** `sp` lies inside a hypothesis word that operation `k` inserts or substitutes. */
  ghost predicate FromHypWord(ops: seq<Op>, hypToks: seq<Token>, k: int, sp: Span) {
    0 <= k < |ops| && (ops[k].Ins? || ops[k].Sub?) && ops[k].h < |hypToks|
    && hypToks[ops[k].h].start <= sp.start && sp.end <= hypToks[ops[k].h].end
  }

  /** Every script span lies inside a deleted or substituted reference word, every
      transcript span inside an inserted or substituted hypothesis word. */
  lemma SpanOrigins(ops: seq<Op>, refText: string, hypText: string,
                    refToks: seq<Token>, hypToks: seq<Token>,
                    matcher: (string, string) -> seq<Opcode>)
    requires IsMatcher(matcher) && AllWithin(ops, |refToks|, |hypToks|)
    requires TokenizationOf(refText, refToks, 0) && TokenizationOf(hypText, hypToks, 0)
    ensures forall sp :: sp in ErrorSpans(ops, refToks, hypToks, matcher).0 ==> exists k :: FromRefWord(ops, refToks, k, sp)
    ensures forall sp :: sp in ErrorSpans(ops, refToks, hypToks, matcher).1 ==> exists k :: FromHypWord(ops, hypToks, k, sp)
  {
    RefSpanOrigins(ops, refText, refToks, hypToks, matcher);
    HypSpanOrigins(ops, hypText, refToks, hypToks, matcher);
  }

  lemma {:induction false} RefSpanOrigins(ops: seq<Op>, refText: string, refToks: seq<Token>, hypToks: seq<Token>,
                                          matcher: (string, string) -> seq<Opcode>)
    requires IsMatcher(matcher) && AllWithin(ops, |refToks|, |hypToks|)
    requires TokenizationOf(refText, refToks, 0)
    ensures forall sp :: sp in ErrorSpans(ops, refToks, hypToks, matcher).0 ==> exists k :: FromRefWord(ops, refToks, k, sp)
  {
    if ops == [] {
      return;
    }
    var n := |ops| - 1;
    var pre := ops[..n];
    assert forall k :: 0 <= k < |pre| ==> pre[k] == ops[k];
    RefSpanOrigins(pre, refText, refToks, hypToks, matcher);
    var acc := ErrorSpans(pre, refToks, hypToks, matcher);
    var out := ErrorSpans(ops, refToks, hypToks, matcher);
    forall sp | sp in out.0 ensures exists k :: FromRefWord(ops, refToks, k, sp) {
      if sp in acc.0 {
        var k :| FromRefWord(pre, refToks, k, sp);
        assert FromRefWord(ops, refToks, k, sp);
      } else {
        match ops[n]
        case Del(r) =>
          assert FromRefWord(ops, refToks, n, sp);
        case Sub(r, h) =>
          TokenInside(refText, refToks, r);
          PairSpansCategories(refToks[r], hypToks[h], matcher);
          assert FromRefWord(ops, refToks, n, sp);
      }
    }
  }

  lemma {:induction false} HypSpanOrigins(ops: seq<Op>, hypText: string, refToks: seq<Token>, hypToks: seq<Token>,
                                          matcher: (string, string) -> seq<Opcode>)
    requires IsMatcher(matcher) && AllWithin(ops, |refToks|, |hypToks|)
    requires TokenizationOf(hypText, hypToks, 0)
    ensures forall sp :: sp in ErrorSpans(ops, refToks, hypToks, matcher).1 ==> exists k :: FromHypWord(ops, hypToks, k, sp)
  {
    if ops == [] {
      return;
    }
    var n := |ops| - 1;
    var pre := ops[..n];
    assert forall k :: 0 <= k < |pre| ==> pre[k] == ops[k];
    HypSpanOrigins(pre, hypText, refToks, hypToks, matcher);
    var acc := ErrorSpans(pre, refToks, hypToks, matcher);
    var out := ErrorSpans(ops, refToks, hypToks, matcher);
    forall sp | sp in out.1 ensures exists k :: FromHypWord(ops, hypToks, k, sp) {
      if sp in acc.1 {
        var k :| FromHypWord(pre, hypToks, k, sp);
        assert FromHypWord(ops, hypToks, k, sp);
      } else {
        match ops[n]
        case Ins(h) =>
          assert FromHypWord(ops, hypToks, n, sp);
        case Sub(r, h) =>
          TokenInside(hypText, hypToks, h);
          PairSpansCategories(refToks[r], hypToks[h], matcher);
          assert FromHypWord(ops, hypToks, n, sp);
      }
    }
  }

  /** The reference side of `EqualWordsUnmarked`, for any alignment of two token lists. */
  lemma EqualRefWordUnmarked(ops: seq<Op>, refText: string, hypText: string,
                             refToks: seq<Token>, hypToks: seq<Token>,
                             matcher: (string, string) -> seq<Opcode>, k: nat, sp: Span)
    requires IsMatcher(matcher)
    requires IsAlignment(Words(refToks), Words(hypToks), ops, |refToks|, |hypToks|)
    requires AllWithin(ops, |refToks|, |hypToks|)
    requires TokenizationOf(refText, refToks, 0) && TokenizationOf(hypText, hypToks, 0)
    requires k < |ops| && ops[k].Equal? && ops[k].r < |refToks|
    requires sp in ErrorSpans(ops, refToks, hypToks, matcher).0
    ensures sp.end <= refToks[ops[k].r].start || refToks[ops[k].r].end <= sp.start
  {
    SpanOrigins(ops, refText, hypText, refToks, hypToks, matcher);
    var k' :| FromRefWord(ops, refToks, k', sp);
    RefWordsApart(ops, refText, refToks, hypToks, k, k');
  }

  /** Two operations of an alignment mention reference words that do not overlap. */
  lemma RefWordsApart(ops: seq<Op>, refText: string, refToks: seq<Token>, hypToks: seq<Token>, k: nat, k': nat)
    requires IsAlignment(Words(refToks), Words(hypToks), ops, |refToks|, |hypToks|)
    requires TokenizationOf(refText, refToks, 0)
    requires k < |ops| && k' < |ops| && k != k'
    requires (ops[k].Equal? || ops[k].Sub? || ops[k].Del?) && (ops[k'].Equal? || ops[k'].Sub? || ops[k'].Del?)
    requires ops[k].r < |refToks| && ops[k'].r < |refToks|
    ensures refToks[ops[k].r].end < refToks[ops[k'].r].start || refToks[ops[k'].r].end < refToks[ops[k].r].start
  {
    var r, r' := ops[k].r, ops[k'].r;
    assert r in RefOf(ops[k]) && r' in RefOf(ops[k']);
    if k < k' {
      MentionsOrdered(Words(refToks), Words(hypToks), ops, |refToks|, |hypToks|, k, k');
      TokensOrdered(refText, refToks, 0, r, r');
    } else {
      MentionsOrdered(Words(refToks), Words(hypToks), ops, |refToks|, |hypToks|, k', k);
      TokensOrdered(refText, refToks, 0, r', r);
    }
  }

  /** The hypothesis side of `EqualWordsUnmarked`, for any alignment of two token lists. */
  lemma EqualHypWordUnmarked(ops: seq<Op>, refText: string, hypText: string,
                             refToks: seq<Token>, hypToks: seq<Token>,
                             matcher: (string, string) -> seq<Opcode>, k: nat, sp: Span)
    requires IsMatcher(matcher)
    requires IsAlignment(Words(refToks), Words(hypToks), ops, |refToks|, |hypToks|)
    requires AllWithin(ops, |refToks|, |hypToks|)
    requires TokenizationOf(refText, refToks, 0) && TokenizationOf(hypText, hypToks, 0)
    requires k < |ops| && ops[k].Equal? && ops[k].h < |hypToks|
    requires sp in ErrorSpans(ops, refToks, hypToks, matcher).1
    ensures sp.end <= hypToks[ops[k].h].start || hypToks[ops[k].h].end <= sp.start
  {
    SpanOrigins(ops, refText, hypText, refToks, hypToks, matcher);
    var k' :| FromHypWord(ops, hypToks, k', sp);
    HypWordsApart(ops, hypText, refToks, hypToks, k, k');
  }

  /** Two operations of an alignment mention hypothesis words that do not overlap. */
  lemma HypWordsApart(ops: seq<Op>, hypText: string, refToks: seq<Token>, hypToks: seq<Token>, k: nat, k': nat)
    requires IsAlignment(Words(refToks), Words(hypToks), ops, |refToks|, |hypToks|)
    requires TokenizationOf(hypText, hypToks, 0)
    requires k < |ops| && k' < |ops| && k != k'
    requires (ops[k].Equal? || ops[k].Sub? || ops[k].Ins?) && (ops[k'].Equal? || ops[k'].Sub? || ops[k'].Ins?)
    requires ops[k].h < |hypToks| && ops[k'].h < |hypToks|
    ensures hypToks[ops[k].h].end < hypToks[ops[k'].h].start || hypToks[ops[k'].h].end < hypToks[ops[k].h].start
  {
    var h, h' := ops[k].h, ops[k'].h;
    assert h in HypOf(ops[k]) && h' in HypOf(ops[k']);
    if k < k' {
      MentionsOrdered(Words(refToks), Words(hypToks), ops, |refToks|, |hypToks|, k, k');
      TokensOrdered(hypText, hypToks, 0, h, h');
    } else {
      MentionsOrdered(Words(refToks), Words(hypToks), ops, |refToks|, |hypToks|, k', k);
      TokensOrdered(hypText, hypToks, 0, h', h);
    }
  }

  /**
   * A word the alignment reads as equal is never highlighted: no script span overlaps
   * its reference word and no transcript span overlaps its hypothesis word.
   */
  lemma EqualWordsUnmarked(refText: string, hypText: string, matcher: (string, string) -> seq<Opcode>, k: nat)
    requires IsMatcher(matcher)
    requires k < |WordAlignment(refText, hypText)| && WordAlignment(refText, hypText)[k].Equal?
    ensures AllWithin(WordAlignment(refText, hypText), |Tokens(refText)|, |Tokens(hypText)|)
    ensures var ops := WordAlignment(refText, hypText);
      var spans := ErrorSpans(ops, Tokens(refText), Tokens(hypText), matcher);
      && ops[k].r < |Tokens(refText)| && ops[k].h < |Tokens(hypText)|
      && (forall sp :: sp in spans.0 ==>
            sp.end <= Tokens(refText)[ops[k].r].start || Tokens(refText)[ops[k].r].end <= sp.start)
      && (forall sp :: sp in spans.1 ==>
            sp.end <= Tokens(hypText)[ops[k].h].start || Tokens(hypText)[ops[k].h].end <= sp.start)
  {
    var refToks, hypToks := Tokens(refText), Tokens(hypText);
    var rw, hw := Words(refToks), Words(hypToks);
    var ops := WordAlignment(refText, hypText);
    WalkIsAlignment(rw, hw, |rw|, |hw|);
    WordAlignmentWithin(refText, hypText);
    TokensCorrect(refText);
    TokensCorrect(hypText);
    var spans := ErrorSpans(ops, refToks, hypToks, matcher);
    assert OpWithin(ops[k], |refToks|, |hypToks|);
    forall sp | sp in spans.0 ensures sp.end <= refToks[ops[k].r].start || refToks[ops[k].r].end <= sp.start {
      EqualRefWordUnmarked(ops, refText, hypText, refToks, hypToks, matcher, k, sp);
    }
    forall sp | sp in spans.1 ensures sp.end <= hypToks[ops[k].h].start || hypToks[ops[k].h].end <= sp.start {
      EqualHypWordUnmarked(ops, refText, hypText, refToks, hypToks, matcher, k, sp);
    }
  }
}
