/**
 * Word tokens of a display text with their exact character offsets
 * (`tokenize_with_spans`): the matches of `\b\w+\b`, scanned left to right.
 */
module Tokenizer {
  import opened Text

  /** A word and the half-open range `[start, end)` it occupies in its text. */
  datatype Token = Token(text: string, start: nat, end: nat)

  /** The first non-word character at or after `i`, or the end of the text. */
  function RunEnd(text: string, i: nat): (e: nat)
    requires i <= |text|
    ensures i <= e <= |text|
    ensures forall p :: i <= p < e ==> IsWordChar(text[p])
    ensures e < |text| ==> !IsWordChar(text[e])
    decreases |text| - i
  {
    if i == |text| || !IsWordChar(text[i]) then i else RunEnd(text, i + 1)
  }

  /** The tokens of `text[i..]`, reading left to right as the regex scanner does. */
  function TokensFrom(text: string, i: nat): seq<Token>
    requires i <= |text|
    decreases |text| - i
  {
    if i == |text| then []
    else if !IsWordChar(text[i]) then TokensFrom(text, i + 1)
    else
      var e := RunEnd(text, i);
      [Token(text[i..e], i, e)] + TokensFrom(text, e)
  }

  /** Reference definition of the token list of a text. */
  function Tokens(text: string): seq<Token> {
    TokensFrom(text, 0)
  }

  /** `i` does not split a word: it is an edge of the text or next to a non-word character. */
  predicate AtBoundary(text: string, i: nat)
    requires i <= |text|
  {
    i == 0 || i == |text| || !IsWordChar(text[i - 1]) || !IsWordChar(text[i])
  }

  /** Token `t` is a maximal run of word characters of `text`, and `t.text` is that run. */
  predicate IsWordRun(text: string, t: Token) {
    && t.start < t.end <= |text|
    && t.text == text[t.start..t.end]
    && (forall p :: t.start <= p < t.end ==> IsWordChar(text[p]))
    && (t.start == 0 || !IsWordChar(text[t.start - 1]))
    && (t.end == |text| || !IsWordChar(text[t.end]))
  }

  /** No word character of `text[lo..hi]` is left outside every token. */
  predicate NoWordCharIn(text: string, lo: nat, hi: nat) {
    forall p :: lo <= p < hi && p < |text| ==> !IsWordChar(text[p])
  }

  /** Only non-word characters lie between token `k` and token `k + 1`. */
  predicate GapAfter(text: string, toks: seq<Token>, k: nat)
    requires k + 1 < |toks|
  {
    NoWordCharIn(text, toks[k].end, toks[k + 1].start)
  }

  /** Each token from position `lo` on is a maximal word run of `text`. */
  predicate AllRuns(text: string, toks: seq<Token>, lo: nat) {
    forall k :: 0 <= k < |toks| ==> IsWordRun(text, toks[k]) && lo <= toks[k].start
  }

  /** Neighbouring tokens are in strictly increasing order with a gap between them. */
  predicate Ascending(toks: seq<Token>) {
    forall k :: 0 <= k < |toks| - 1 ==> toks[k].end < toks[k + 1].start
  }

  /** Every word character of `text[lo..]` lies inside some token. */
  predicate NothingMissed(text: string, toks: seq<Token>, lo: nat)
    requires lo <= |text|
  {
    && (toks == [] ==> NoWordCharIn(text, lo, |text|))
    && (toks != [] ==> NoWordCharIn(text, lo, toks[0].start))
    && (toks != [] ==> NoWordCharIn(text, toks[|toks| - 1].end, |text|))
    && (forall k :: 0 <= k < |toks| - 1 ==> GapAfter(text, toks, k))
  }

  /**
   * The tokens of `text` from position `lo` on are exactly its maximal word
   * runs: each one is a run, they are in strictly increasing order with at
   * least one non-word character between neighbours, and the characters
   * before the first, between neighbours and after the last are all non-word.
   */
  predicate TokenizationOf(text: string, toks: seq<Token>, lo: nat)
    requires lo <= |text|
  {
    AllRuns(text, toks, lo) && Ascending(toks) && NothingMissed(text, toks, lo)
  }

  /** Skipping a non-word character keeps a tokenization valid one position earlier. */
  lemma SkipStep(text: string, toks: seq<Token>, i: nat)
    requires i < |text| && !IsWordChar(text[i])
    requires TokenizationOf(text, toks, i + 1)
    ensures TokenizationOf(text, toks, i)
  {
  }

  /** A maximal run followed by a tokenization of the rest is a tokenization. */
  lemma RunStep(text: string, rest: seq<Token>, i: nat, e: nat)
    requires i < e <= |text| && AtBoundary(text, i)
    requires forall p :: i <= p < e ==> IsWordChar(text[p])
    requires e == |text| || !IsWordChar(text[e])
    requires TokenizationOf(text, rest, e)
    ensures TokenizationOf(text, [Token(text[i..e], i, e)] + rest, i)
  {
    var toks := [Token(text[i..e], i, e)] + rest;
    assert IsWordRun(text, toks[0]);
    assert AllRuns(text, toks, i) by {
      forall k | 1 <= k < |toks| ensures IsWordRun(text, toks[k]) && i <= toks[k].start {
        assert toks[k] == rest[k - 1];
      }
    }
    assert Ascending(toks) by {
      forall k | 0 <= k < |toks| - 1 ensures toks[k].end < toks[k + 1].start {
        if k == 0 {
          assert toks[1] == rest[0];
          assert IsWordChar(text[rest[0].start]);
        } else {
          assert toks[k] == rest[k - 1] && toks[k + 1] == rest[k];
        }
      }
    }
    assert NothingMissed(text, toks, i) by {
      forall k | 0 <= k < |toks| - 1 ensures GapAfter(text, toks, k) {
        if k > 0 {
          assert toks[k] == rest[k - 1] && toks[k + 1] == rest[k];
          assert GapAfter(text, rest, k - 1);
        }
      }
      if rest == [] {
        assert toks[|toks| - 1].end == e;
      } else {
        assert toks[|toks| - 1] == rest[|rest| - 1];
      }
    }
  }

  lemma {:induction false} TokensFromCorrect(text: string, i: nat)
    requires i <= |text| && AtBoundary(text, i)
    ensures TokenizationOf(text, TokensFrom(text, i), i)
    decreases |text| - i
  {
    if i == |text| {
    } else if !IsWordChar(text[i]) {
      TokensFromCorrect(text, i + 1);
      SkipStep(text, TokensFrom(text, i + 1), i);
    } else {
      var e := RunEnd(text, i);
      TokensFromCorrect(text, e);
      RunStep(text, TokensFrom(text, e), i, e);
    }
  }

  /** Round trip of offsets: every token is the slice of the text at its own range,
      and the token list is exactly the text's maximal word runs. */
  lemma TokensCorrect(text: string)
    ensures TokenizationOf(text, Tokens(text), 0)
  {
    TokensFromCorrect(text, 0);
  }

  /** Tokens of a tokenization never overlap: an earlier token ends before a later one starts. */
  lemma {:induction false} TokensOrdered(text: string, toks: seq<Token>, lo: nat, a: nat, b: nat)
    requires lo <= |text| && TokenizationOf(text, toks, lo)
    requires a < b < |toks|
    ensures toks[a].end < toks[b].start
    decreases b - a
  {
    if a + 1 < b {
      TokensOrdered(text, toks, lo, a + 1, b);
      assert IsWordRun(text, toks[a + 1]);
    }
  }

  /** A scan that stops at the first non-word character finds `RunEnd`. */
  lemma {:induction false} RunEndIs(text: string, i: nat, e: nat)
    requires i <= e <= |text|
    requires forall p :: i <= p < e ==> IsWordChar(text[p])
    requires e == |text| || !IsWordChar(text[e])
    ensures RunEnd(text, i) == e
    decreases e - i
  {
    if i < e {
      RunEndIs(text, i + 1, e);
    }
  }

  /** A text without word characters (empty or punctuation only) has no tokens. */
  lemma {:induction false} NoWordsNoTokens(text: string, i: nat)
    requires i <= |text| && NoWordCharIn(text, i, |text|)
    ensures TokensFrom(text, i) == []
    decreases |text| - i
  {
    if i < |text| {
      NoWordsNoTokens(text, i + 1);
    }
  }

  /** `tokenize_with_spans`: scan for each next word start, then to the end of its run. */
  method Tokenize(text: string) returns (tokens: seq<Token>)
    ensures tokens == Tokens(text)
    ensures TokenizationOf(text, tokens, 0)
  {
    tokens := [];
    var i := 0;
    while i < |text|
      invariant 0 <= i <= |text|
      invariant tokens + TokensFrom(text, i) == Tokens(text)
    {
      if IsWordChar(text[i]) {
        var e := i;
        while e < |text| && IsWordChar(text[e])
          invariant i <= e <= |text|
          invariant forall p :: i <= p < e ==> IsWordChar(text[p])
        {
          e := e + 1;
        }
        RunEndIs(text, i, e);
        tokens := tokens + [Token(text[i..e], i, e)];
        i := e;
      } else {
        i := i + 1;
      }
    }
    TokensCorrect(text);
  }
}
