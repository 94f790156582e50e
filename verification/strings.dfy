/**
 * The few Go string operations the router relies on (strings.Split with a
 * one-character separator, strings.ToUpper/ToLower/EqualFold, strings.Index
 * of a two-character needle) and the character classes of the regular
 * expressions it uses. Strings are sequences of characters; case mapping is
 * ASCII only.
 */
module Strings {

  /** Index of the first occurrence of `c` in `s`, or `|s|` when there is none. */
  function IndexOf(s: string, c: char): (i: nat)
    ensures i <= |s|
    ensures i < |s| ==> s[i] == c
    ensures forall k :: 0 <= k < i ==> s[k] != c
  {
    if s == [] || s[0] == c then 0 else 1 + IndexOf(s[1..], c)
  }

  /** The pieces joined back together with `sep` between neighbours. */
  function Join(pieces: seq<string>, sep: char): string
    decreases |pieces|
  {
    if pieces == [] then ""
    else if |pieces| == 1 then pieces[0]
    else pieces[0] + [sep] + Join(pieces[1..], sep)
  }

  /**
   * strings.Split(s, string(sep)): the text between consecutive separators,
   * in order, empty pieces included; the empty string gives one empty piece.
   */
  function Split(s: string, sep: char): (pieces: seq<string>)
    ensures |pieces| >= 1
    ensures forall i :: 0 <= i < |pieces| ==> sep !in pieces[i]
    ensures Join(pieces, sep) == s
    decreases |s|
  {
    var i := IndexOf(s, sep);
    if i == |s| then [s]
    else
      var rest := Split(s[i + 1..], sep);
      assert s == s[..i] + [sep] + s[i + 1..];
      [s[..i]] + rest
  }

  /** Splitting a join of separator-free pieces gives the pieces back. */
  lemma {:induction false} SplitOfJoin(pieces: seq<string>, sep: char)
    requires |pieces| >= 1
    requires forall i :: 0 <= i < |pieces| ==> sep !in pieces[i]
    ensures Split(Join(pieces, sep), sep) == pieces
    decreases |pieces|
  {
    var s := Join(pieces, sep);
    if |pieces| == 1 {
      assert IndexOf(s, sep) == |s|;
    } else {
      var p0 := pieces[0];
      var tail := Join(pieces[1..], sep);
      assert s == p0 + [sep] + tail;
      var i := IndexOf(s, sep);
      assert s[|p0|] == sep;
      assert forall k | 0 <= k < |p0| :: s[k] == p0[k];
      assert i == |p0|;
      assert s[..i] == p0;
      assert s[i + 1..] == tail;
      SplitOfJoin(pieces[1..], sep);
    }
  }

  /** Go's `\w`: ASCII letters, digits and the underscore. */
  predicate IsLetter(c: char) { 'a' <= c <= 'z' || 'A' <= c <= 'Z' }
  predicate IsWordChar(c: char) { IsLetter(c) || '0' <= c <= '9' || c == '_' }

  /** The class `[\w\.\-]` used for domains and for `:name` captures. */
  predicate IsRuleChar(c: char) { IsWordChar(c) || c == '.' || c == '-' }

  /** The regex `.` without the `s` flag: any character but a newline. */
  predicate NotNewline(c: char) { c != '\n' }

  /** End of the longest run of `inClass` characters of `s` starting at `i`. */
  function RunEnd(s: string, i: nat, inClass: char -> bool): (j: nat)
    requires i <= |s|
    ensures i <= j <= |s|
    ensures forall k :: i <= k < j ==> inClass(s[k])
    ensures j < |s| ==> !inClass(s[j])
    decreases |s| - i
  {
    if i < |s| && inClass(s[i]) then RunEnd(s, i + 1, inClass) else i
  }

  /** A run end is pinned down by its two defining facts. */
  lemma RunEndIs(s: string, i: nat, inClass: char -> bool, j: nat)
    requires i <= j <= |s|
    requires forall k :: i <= k < j ==> inClass(s[k])
    requires j < |s| ==> !inClass(s[j])
    ensures RunEnd(s, i, inClass) == j
  {
  }

  /** ASCII case mapping of one character. */
  function UpperChar(c: char): char {
    if 'a' <= c <= 'z' then (c as int - 32) as char else c
  }

  function LowerChar(c: char): char {
    if 'A' <= c <= 'Z' then (c as int + 32) as char else c
  }

  /** strings.ToUpper and strings.ToLower, ASCII letters only. */
  function ToUpper(s: string): string {
    seq(|s|, i requires 0 <= i < |s| => UpperChar(s[i]))
  }

  function ToLower(s: string): string {
    seq(|s|, i requires 0 <= i < |s| => LowerChar(s[i]))
  }

  /** strings.EqualFold restricted to ASCII: equal after lower-casing. */
  predicate EqualFold(a: string, b: string) {
    ToLower(a) == ToLower(b)
  }

  /** Upper-casing and lower-casing identify exactly the same characters. */
  lemma UpperLowerCharAgree(x: char, y: char)
    ensures UpperChar(x) == UpperChar(y) <==> LowerChar(x) == LowerChar(y)
  {
  }

  /** EqualFold holds exactly when the two upper-cased strings coincide. */
  lemma {:induction false} EqualFoldIffSameUpper(a: string, b: string)
    ensures EqualFold(a, b) <==> ToUpper(a) == ToUpper(b)
  {
    var ua, ub, la, lb := ToUpper(a), ToUpper(b), ToLower(a), ToLower(b);
    if |a| == |b| {
      forall i | 0 <= i < |a|
        ensures ua[i] == ub[i] <==> la[i] == lb[i]
      {
        UpperLowerCharAgree(a[i], b[i]);
      }
      if la == lb {
        assert forall i | 0 <= i < |a| :: la[i] == lb[i];
      }
      if ua == ub {
        assert forall i | 0 <= i < |a| :: ua[i] == ub[i];
      }
    }
  }

  /** strings.Index(s, [a, b]) != -1: the two characters occur next to each other. */
  predicate HasPair(s: string, a: char, b: char) {
    exists i | 0 <= i < |s| - 1 :: s[i] == a && s[i + 1] == b
  }
}
