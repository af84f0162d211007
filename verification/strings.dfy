/** Text primitives shared by both API routes: the ECMAScript whitespace set
    used by `String.prototype.trim` and the regex class `\s`, `split("\n")`,
    and the line-buffer view of a text (complete lines plus a pending tail). */
module Strings {

  datatype Option<+T> = None | Some(value: T)

  const NL: char := '\n'

  /** ECMAScript LineTerminator: the characters the regex `.` does not match. */
  predicate IsLineTerminator(c: char) {
    c == '\n' || c == '\r' || c == '\U{2028}' || c == '\U{2029}'
  }

  /** ECMAScript WhiteSpace and LineTerminator: what `trim()` strips and `\s` matches. */
  predicate IsWhitespace(c: char) {
    c == '\t' || c == '\U{000B}' || c == '\U{000C}' || c == ' ' || c == '\U{00A0}' || c == '\U{FEFF}'
    || c == '\U{1680}' || ('\U{2000}' <= c <= '\U{200A}') || c == '\U{202F}' || c == '\U{205F}'
    || c == '\U{3000}' || IsLineTerminator(c)
  }

  /** No character of `s` is a line terminator, so the regex `.+` can span all of it. */
  predicate NoLineTerminator(s: string) {
    forall i :: 0 <= i < |s| ==> !IsLineTerminator(s[i])
  }

  predicate StartsWith(s: string, prefix: string) {
    |prefix| <= |s| && s[..|prefix|] == prefix
  }

  // ---------------------------------------------------------------- trim

  /** Leading whitespace removed: the longest suffix of `s` not starting with whitespace. */
  function TrimStart(s: string): (r: string)
    ensures |r| <= |s| && r == s[|s| - |r|..]
    ensures r == [] || !IsWhitespace(r[0])
    decreases |s|
  {
    if s != [] && IsWhitespace(s[0]) then TrimStart(s[1..]) else s
  }

  /** Trailing whitespace removed: the longest prefix of `s` not ending in whitespace. */
  function TrimEnd(s: string): (r: string)
    ensures |r| <= |s| && r == s[..|r|]
    ensures r == [] || !IsWhitespace(r[|r| - 1])
    decreases |s|
  {
    if s != [] && IsWhitespace(s[|s| - 1]) then TrimEnd(s[..|s| - 1]) else s
  }

  /** Only whitespace is removed from the front. */
  lemma {:induction false} TrimStartStrips(s: string)
    ensures forall i :: 0 <= i < |s| - |TrimStart(s)| ==> IsWhitespace(s[i])
    decreases |s|
  {
    if s != [] && IsWhitespace(s[0]) {
      TrimStartStrips(s[1..]);
      forall i | 1 <= i < |s| - |TrimStart(s)| ensures IsWhitespace(s[i]) {
        assert s[i] == s[1..][i - 1];
      }
    }
  }

  /** Only whitespace is removed from the back. */
  lemma {:induction false} TrimEndStrips(s: string)
    ensures forall i :: |TrimEnd(s)| <= i < |s| ==> IsWhitespace(s[i])
    decreases |s|
  {
    if s != [] && IsWhitespace(s[|s| - 1]) {
      TrimEndStrips(s[..|s| - 1]);
      forall i | |TrimEnd(s)| <= i < |s| - 1 ensures IsWhitespace(s[i]) {
        assert s[i] == s[..|s| - 1][i];
      }
    }
  }

  /** `s.trim()`. */
  function Trim(s: string): string {
    TrimEnd(TrimStart(s))
  }

  /** A trimmed text begins and ends with a non-whitespace character. */
  predicate IsTrimmed(t: string) {
    t == [] || (!IsWhitespace(t[0]) && !IsWhitespace(t[|t| - 1]))
  }

  lemma TrimmedEnds(s: string)
    ensures IsTrimmed(Trim(s))
  {
    var u := TrimStart(s);
    var r := TrimEnd(u);
    if r != [] {
      assert r[0] == u[0];
    }
  }

  lemma InfixOfSuffix(s: string, a: nat, u: string, r: string)
    requires a <= |s| && u == s[a..] && |r| <= |u| && r == u[..|r|]
    ensures a + |r| <= |s| && r == s[a..a + |r|]
  {
  }

  lemma WhitespaceOfSuffix(s: string, a: nat, u: string, m: nat)
    requires a <= |s| && u == s[a..]
    requires forall j :: m <= j < |u| ==> IsWhitespace(u[j])
    ensures forall i :: a + m <= i < |s| ==> IsWhitespace(s[i])
  {
    forall i | a + m <= i < |s| ensures IsWhitespace(s[i]) {
      assert s[i] == u[i - a];
    }
  }

  lemma TrimPosition(s: string)
    ensures var a := |s| - |TrimStart(s)|;
      a + |Trim(s)| <= |s| && Trim(s) == s[a..a + |Trim(s)|]
  {
    var u := TrimStart(s);
    InfixOfSuffix(s, |s| - |u|, u, TrimEnd(u));
  }

  lemma TrimTrailing(s: string)
    ensures var a := |s| - |TrimStart(s)|;
      forall i :: a + |Trim(s)| <= i < |s| ==> IsWhitespace(s[i])
  {
    var u := TrimStart(s);
    TrimEndStrips(u);
    WhitespaceOfSuffix(s, |s| - |u|, u, |TrimEnd(u)|);
  }

  /** `Trim` removes only whitespace, from both ends, and leaves a trimmed
      infix of its input; a text that is all whitespace trims to "". */
  lemma TrimIsInfix(s: string)
    ensures IsTrimmed(Trim(s))
    ensures var a := |s| - |TrimStart(s)|;
      a + |Trim(s)| <= |s| && Trim(s) == s[a..a + |Trim(s)|]
      && (forall i :: 0 <= i < a ==> IsWhitespace(s[i]))
      && (forall i :: a + |Trim(s)| <= i < |s| ==> IsWhitespace(s[i]))
  {
    TrimStartStrips(s);
    TrimmedEnds(s);
    TrimPosition(s);
    TrimTrailing(s);
  }

  // ---------------------------------------------------------------- split on "\n"

  /** A text cut around one of its characters. */
  lemma CutAt(s: string, i: nat)
    requires i < |s|
    ensures s == s[..i] + [s[i]] + s[i + 1..]
  {
  }

  /** The parts of a text glued around one character. */
  lemma GlueAt(a: string, c: char, b: string)
    ensures var s := a + [c] + b; |a| < |s| && s[|a|] == c && s[..|a|] == a && s[|a| + 1..] == b
  {
  }

  /** A prefix one element longer is the shorter prefix and that element. */
  lemma TakeSnoc<T>(s: seq<T>, i: nat)
    requires i < |s|
    ensures s[..i + 1] == s[..i] + [s[i]]
  {
  }

  /** A non-empty sequence is its head followed by its tail. */
  lemma ConsTail<T>(s: seq<T>)
    requires s != []
    ensures s == [s[0]] + s[1..]
  {
  }

  lemma AppendAssoc(a: string, b: string, c: string)
    ensures a + (b + c) == (a + b) + c
  {
  }

  /** Position of the first `c` in `s`. */
  function IndexOf(s: string, c: char): (i: nat)
    requires c in s
    ensures i < |s| && s[i] == c
    ensures c !in s[..i]
  {
    if s[0] == c then 0
    else
      var j := IndexOf(s[1..], c);
      assert s[..j + 1] == [s[0]] + s[1..][..j];
      j + 1
  }

  /** The pieces joined with "\n" between them: the inverse of `Split`. */
  function JoinLines(pieces: seq<string>): string
    requires |pieces| >= 1
  {
    if |pieces| == 1 then pieces[0] else pieces[0] + [NL] + JoinLines(pieces[1..])
  }

  /** `s.split("\n")`: the texts between newlines, in order; never empty. */
  function Split(s: string): (pieces: seq<string>)
    ensures |pieces| >= 1
    decreases |s|
  {
    if NL !in s then [s]
    else
      var i := IndexOf(s, NL);
      [s[..i]] + Split(s[i + 1..])
  }

  /** The first `c` is the one with no `c` before it. */
  lemma IndexOfUnique(s: string, c: char, i: nat)
    requires i < |s| && s[i] == c && c !in s[..i]
    ensures IndexOf(s, c) == i
  {
  }

  /** Splitting undoes joining: `split` recovers exactly the newline-free pieces. */
  lemma SplitJoinCons(p0: string, rest: seq<string>)
    requires NL !in p0 && |rest| >= 1
    ensures Split(p0 + [NL] + JoinLines(rest)) == [p0] + Split(JoinLines(rest))
  {
    var tail := JoinLines(rest);
    GlueAt(p0, NL, tail);
    SplitAt(p0 + [NL] + tail, |p0|);
  }

  lemma {:induction false} SplitJoinLines(pieces: seq<string>)
    requires |pieces| >= 1
    requires forall k :: 0 <= k < |pieces| ==> NL !in pieces[k]
    ensures Split(JoinLines(pieces)) == pieces
    decreases |pieces|
  {
    if |pieces| > 1 {
      SplitJoinCons(pieces[0], pieces[1..]);
      SplitJoinLines(pieces[1..]);
      ConsTail(pieces);
    }
  }

  /** The lines of `s` that a newline has already terminated. */
  function CompleteLines(s: string): seq<string> {
    var p := Split(s);
    p[..|p| - 1]
  }

  /** The text after the last newline of `s` (all of `s` if it has none). */
  function Pending(s: string): string {
    var p := Split(s);
    p[|p| - 1]
  }

  /** Splitting at the first newline: the text before it, then the split of
      the rest. */
  lemma SplitAt(s: string, i: nat)
    requires i < |s| && s[i] == NL && NL !in s[..i]
    ensures Split(s) == [s[..i]] + Split(s[i + 1..])
    ensures CompleteLines(s) == [s[..i]] + CompleteLines(s[i + 1..])
    ensures Pending(s) == Pending(s[i + 1..])
  {
    IndexOfUnique(s, NL, i);
    var rest := Split(s[i + 1..]);
    assert ([s[..i]] + rest)[..|rest|] == [s[..i]] + rest[..|rest| - 1];
  }

  /** No piece of a split holds a newline. */
  lemma {:induction false} SplitPiecesHaveNoNewline(s: string)
    ensures forall k :: 0 <= k < |Split(s)| ==> NL !in Split(s)[k]
    decreases |s|
  {
    if NL in s {
      var i := IndexOf(s, NL);
      SplitAt(s, i);
      SplitPiecesHaveNoNewline(s[i + 1..]);
    }
  }

  /** Joining undoes splitting: the pieces with "\n" put back between them
      are the text. */
  lemma {:induction false} JoinSplit(s: string)
    ensures JoinLines(Split(s)) == s
    decreases |s|
  {
    if NL in s {
      var i := IndexOf(s, NL);
      SplitAt(s, i);
      JoinSplit(s[i + 1..]);
      var rest := Split(s[i + 1..]);
      assert ([s[..i]] + rest)[1..] == rest;
      CutAt(s, i);
    }
  }

  lemma ConsAssoc(a: string, b: seq<string>, c: seq<string>)
    ensures [a] + (b + c) == ([a] + b) + c
  {
  }

  /** The inductive step of `SplitAppend`: the first line of `x` comes first
      in both splits. */
  lemma SplitAppendCons(x: string, y: string, i: nat)
    requires i < |x| && x[i] == NL && NL !in x[..i]
    requires Split(x[i + 1..] + y) == CompleteLines(x[i + 1..]) + Split(Pending(x[i + 1..]) + y)
    ensures Split(x + y) == CompleteLines(x) + Split(Pending(x) + y)
  {
    var t := x[i + 1..];
    var xy := x + y;
    assert xy[..i] == x[..i] && xy[i] == NL;
    assert xy[i + 1..] == t + y;
    SplitAt(x, i);
    SplitAt(xy, i);
    ConsAssoc(x[..i], CompleteLines(t), Split(Pending(t) + y));
  }

  /** Text appended after `x` only extends `x`'s pending line: the complete lines
      of `x` come first, unchanged, and the rest is the split of the pending
      line followed by `y`. */
  lemma {:induction false} SplitAppend(x: string, y: string)
    ensures Split(x + y) == CompleteLines(x) + Split(Pending(x) + y)
    decreases |x|
  {
    if NL in x {
      var i := IndexOf(x, NL);
      SplitAppend(x[i + 1..], y);
      SplitAppendCons(x, y, i);
    } else {
      assert Split(x) == [x];
      assert CompleteLines(x) == [];
    }
  }

  /** The line buffer carried between reads: the complete lines of a text
      extended by `y` are those of `x` followed by those of `Pending(x) + y`, and
      the pending tail depends only on `Pending(x) + y`. */
  lemma LineBufferCarry(x: string, y: string)
    ensures CompleteLines(x + y) == CompleteLines(x) + CompleteLines(Pending(x) + y)
    ensures Pending(x + y) == Pending(Pending(x) + y)
  {
    SplitAppend(x, y);
    var q := Split(Pending(x) + y);
    assert Split(x + y) == CompleteLines(x) + q;
  }

  /** Text with no newline adds no complete line: an unterminated tail is never
      split off as a line. */
  lemma UnterminatedTail(x: string, tail: string)
    requires NL !in tail
    ensures CompleteLines(x + tail) == CompleteLines(x)
    ensures Pending(x + tail) == Pending(x) + tail
  {
    LineBufferCarry(x, tail);
    LineBufferSplit(x);
    var p := Pending(x);
    assert NL !in p;
    assert NL !in p + tail by {
      forall i | 0 <= i < |p + tail| ensures (p + tail)[i] != NL {
        if i < |p| { assert (p + tail)[i] == p[i]; } else { assert (p + tail)[i] == tail[i - |p|]; }
      }
    }
    assert Split(p + tail) == [p + tail];
  }

  /** Each line followed by its "\n" terminator. */
  function Terminated(lines: seq<string>): string {
    if lines == [] then "" else lines[0] + [NL] + Terminated(lines[1..])
  }

  lemma TerminatedCons(line: string, lines: seq<string>)
    ensures Terminated([line] + lines) == line + [NL] + Terminated(lines)
  {
    assert ([line] + lines)[1..] == lines;
  }

  /** The line-buffer invariant: the pending tail holds no newline, and the
      text is its complete lines, each with its terminator, then that tail. */
  lemma {:induction false} LineBufferSplit(s: string)
    ensures NL !in Pending(s)
    ensures s == Terminated(CompleteLines(s)) + Pending(s)
    decreases |s|
  {
    if NL in s {
      var i := IndexOf(s, NL);
      var t := s[i + 1..];
      LineBufferSplit(t);
      SplitAt(s, i);
      TerminatedCons(s[..i], CompleteLines(t));
      CutAt(s, i);
      AppendAssoc(s[..i] + [NL], Terminated(CompleteLines(t)), Pending(t));
    } else {
      assert Split(s) == [s];
    }
  }

  // ---------------------------------------------------------------- concatenation

  /** The parts joined with no separator, in order. */
  function Concat(parts: seq<string>): string {
    if parts == [] then "" else Concat(parts[..|parts| - 1]) + parts[|parts| - 1]
  }

  lemma {:induction false} ConcatAppend(a: seq<string>, b: seq<string>)
    ensures Concat(a + b) == Concat(a) + Concat(b)
    decreases |b|
  {
    if b != [] {
      var n := |b| - 1;
      assert (a + b)[..|a + b| - 1] == a + b[..n];
      ConcatAppend(a, b[..n]);
    } else {
      assert a + b == a;
    }
  }
}
