/**
 * Character classes and the string operations the core relies on: the word
 * characters of the regular expression `\w`, lower-casing, and Python's
 * whitespace `str.split()`. All three are modelled on ASCII.
 */
module Text {

  /** A character matched by `\w`: an ASCII letter, a digit or the underscore. */
  predicate IsWordChar(c: char) {
    ('a' <= c <= 'z') || ('A' <= c <= 'Z') || ('0' <= c <= '9') || c == '_'
  }

  /** `str.lower` on one character. */
  function LowerChar(c: char): (l: char)
    ensures 'A' <= c <= 'Z' ==> l != c && 'a' <= l <= 'z'
    ensures !('A' <= c <= 'Z') ==> l == c
  {
    if 'A' <= c <= 'Z' then (c as int - 'A' as int + 'a' as int) as char else c
  }

  /** `str.lower` on a string; it keeps every position in place. */
  function Lower(s: string): (l: string)
    ensures |l| == |s|
    ensures forall k :: 0 <= k < |s| ==> l[k] == LowerChar(s[k])
  {
    seq(|s|, k requires 0 <= k < |s| => LowerChar(s[k]))
  }

  /** Two words are the same word when they agree after lower-casing. */
  predicate SameWord(a: string, b: string) {
    Lower(a) == Lower(b)
  }

  /** A character that `str.split()` with no argument treats as a separator. */
  predicate IsSpace(c: char) {
    c == ' ' || c == '\t' || c == '\n' || c == '\r' || c == '\U{B}' || c == '\U{C}'
    || ('\U{1C}' <= c <= '\U{1F}')
  }

  /** The first separator at or after `i`, or the end of `s`. */
  function FieldEnd(s: string, i: nat): (e: nat)
    requires i <= |s|
    ensures i <= e <= |s|
    ensures forall p :: i <= p < e ==> !IsSpace(s[p])
    ensures e < |s| ==> IsSpace(s[e])
    decreases |s| - i
  {
    if i == |s| || IsSpace(s[i]) then i else FieldEnd(s, i + 1)
  }

  /** The fields of `s[i..]` as `str.split()` returns them. */
  function FieldsFrom(s: string, i: nat): seq<string>
    requires i <= |s|
    decreases |s| - i
  {
    if i == |s| then []
    else if IsSpace(s[i]) then FieldsFrom(s, i + 1)
    else
      var e := FieldEnd(s, i);
      [s[i..e]] + FieldsFrom(s, e)
  }

  /** Python's `s.split()`. */
  function Split(s: string): seq<string> {
    FieldsFrom(s, 0)
  }

  /** Every field of `s[i..]` is non-empty and holds no separator. */
  lemma {:induction false} FieldsFromAreWords(s: string, i: nat)
    requires i <= |s|
    ensures forall k :: 0 <= k < |FieldsFrom(s, i)| ==>
      FieldsFrom(s, i)[k] != [] && forall p :: 0 <= p < |FieldsFrom(s, i)[k]| ==> !IsSpace(FieldsFrom(s, i)[k][p])
    decreases |s| - i
  {
    if i < |s| {
      if IsSpace(s[i]) {
        FieldsFromAreWords(s, i + 1);
      } else {
        var e := FieldEnd(s, i);
        FieldsFromAreWords(s, e);
        var rest := FieldsFrom(s, e);
        assert FieldsFrom(s, i) == [s[i..e]] + rest;
        forall k | 0 <= k < |FieldsFrom(s, i)|
          ensures FieldsFrom(s, i)[k] != [] && forall p :: 0 <= p < |FieldsFrom(s, i)[k]| ==> !IsSpace(FieldsFrom(s, i)[k][p])
        {
          if k > 0 {
            assert FieldsFrom(s, i)[k] == rest[k - 1];
          }
        }
      }
    }
  }
}
