/**
 * The word-count program: one pass over standard input that counts
 * newlines, words and bytes, where a word is a maximal run of bytes
 * that are not C-locale white space.
 */
module WordCount {
  import opened Common

  /** What `fgetc` returns at end of input. */
  const EOF: int := -1
  const NEWLINE: byte := 10

  /** C-locale `isspace`: space, `\t`, `\n`, `\v`, `\f` and `\r`. */
  predicate IsSpace(c: byte) {
    c == 32 || 9 <= c <= 13
  }

  /** A word starts at `i` when `s[i]` is not white space and is the first byte or follows white space. */
  predicate StartsWord(s: seq<byte>, i: nat)
    requires i < |s|
  {
    !IsSpace(s[i]) && (i == 0 || IsSpace(s[i - 1]))
  }

  /** The positions below `n` at which a word starts. */
  function WordStarts(s: seq<byte>, n: nat): set<nat>
    requires n <= |s|
  {
    set i: nat | i < n && StartsWord(s, i)
  }

  /** The number of newline bytes in `s`. */
  function Lines(s: seq<byte>): nat {
    multiset(s)[NEWLINE]
  }

  /** The number of maximal runs of non-space bytes in `s`. */
  function Words(s: seq<byte>): nat {
    |WordStarts(s, |s|)|
  }

  /**
   * The counting loop of `main`: `l`, `w` and `b` are the newline, word and
   * byte counts of everything read before `fgetc` reports end of input.
   */
  method Count(input: seq<byte>) returns (l: nat, w: nat, b: nat)
    ensures b == |input|
    ensures l == Lines(input)
    ensures w == Words(input)
  {
    l, w, b := 0, 0, 0;
    var inspace := true;
    var next := 0;
    while true
      invariant 0 <= next <= |input| && b == next
      invariant inspace <==> (next == 0 || IsSpace(input[next - 1]))
      invariant l == Lines(input[..next])
      invariant w == |WordStarts(input, next)|
      decreases |input| - next
    {
      var c: int := if next < |input| then input[next] else EOF;
      if c == EOF {
        break;
      }
      assert input[..next + 1] == input[..next] + [input[next]];
      WordStartsStep(input, next);
      next := next + 1;
      if c == NEWLINE {
        l := l + 1;
      }
      var currSpace := IsSpace(c);
      if inspace && !currSpace {
        w := w + 1;
      }
      inspace := currSpace;
      b := b + 1;
    }
    assert input[..next] == input;
  }

  /** Extending the prefix by one position adds that position exactly when a word starts there. */
  lemma WordStartsStep(s: seq<byte>, n: nat)
    requires n < |s|
    ensures WordStarts(s, n + 1) == WordStarts(s, n) + (if StartsWord(s, n) then {n} else {})
  {
  }

  lemma {:induction false} WordStartsBound(s: seq<byte>, n: nat)
    requires n <= |s|
    ensures |WordStarts(s, n)| <= n
  {
    if n > 0 {
      WordStartsBound(s, n - 1);
      WordStartsStep(s, n - 1);
    }
  }

  /** There are never more words than bytes. */
  lemma WordsAtMostBytes(s: seq<byte>)
    ensures Words(s) <= |s|
  {
    WordStartsBound(s, |s|);
  }

  /** There are never more lines than bytes. */
  lemma {:induction false} LinesAtMostBytes(s: seq<byte>)
    ensures Lines(s) <= |s|
  {
    if s != [] {
      var k := |s| - 1;
      assert s == s[..k] + [s[k]];
      LinesAtMostBytes(s[..k]);
    }
  }

  /** Appending one white-space byte adds one byte and no word. */
  lemma AppendSpace(s: seq<byte>, c: byte)
    requires IsSpace(c)
    ensures |s + [c]| == |s| + 1
    ensures Words(s + [c]) == Words(s)
    ensures Lines(s + [c]) == Lines(s) + (if c == NEWLINE then 1 else 0)
  {
    var t := s + [c];
    forall i: nat | i < |s|
      ensures StartsWord(t, i) == StartsWord(s, i)
    {
      assert t[i] == s[i];
      if i > 0 { assert t[i - 1] == s[i - 1]; }
    }
    assert WordStarts(t, |t|) == WordStarts(s, |s|);
  }

  /** Whether a word of `s` runs on into `t` across the seam. */
  predicate Joined(s: seq<byte>, t: seq<byte>) {
    s != [] && t != [] && !IsSpace(s[|s| - 1]) && !IsSpace(t[0])
  }

  lemma StartsInPrefix(s: seq<byte>, t: seq<byte>, j: nat)
    requires j < |s|
    ensures StartsWord(s + t, j) == StartsWord(s, j)
  {
    assert (s + t)[j] == s[j];
    if j > 0 { assert (s + t)[j - 1] == s[j - 1]; }
  }

  lemma StartsInSuffix(s: seq<byte>, t: seq<byte>, i: nat)
    requires i < |t|
    ensures StartsWord(s + t, |s| + i) == (StartsWord(t, i) && !(i == 0 && Joined(s, t)))
  {
    var u := s + t;
    assert u[|s| + i] == t[i];
    if i > 0 { assert u[|s| + i - 1] == t[i - 1]; }
    if i == 0 && s != [] { assert u[|s| - 1] == s[|s| - 1]; }
  }

  /** The word starts of `t` that still start a word once `s` is put in front. */
  function Kept(s: seq<byte>, t: seq<byte>): set<nat> {
    if Joined(s, t) then WordStarts(t, |t|) - {0} else WordStarts(t, |t|)
  }

  lemma ConcatenationStarts(s: seq<byte>, t: seq<byte>)
    ensures WordStarts(s + t, |s + t|) == WordStarts(s, |s|) + ShiftedSet(Kept(s, t), |s|)
    ensures WordStarts(s, |s|) !! ShiftedSet(Kept(s, t), |s|)
  {
    var u := s + t;
    var left := WordStarts(s, |s|);
    var right := ShiftedSet(Kept(s, t), |s|);
    forall j | j in WordStarts(u, |u|)
      ensures j in left + right
    {
      if j < |s| {
        StartsInPrefix(s, t, j);
      } else {
        StartsInSuffix(s, t, j - |s|);
        assert j - |s| in Kept(s, t);
      }
    }
    forall j | j in left
      ensures j in WordStarts(u, |u|)
    {
      StartsInPrefix(s, t, j);
    }
    forall j | j in right
      ensures j in WordStarts(u, |u|) && j !in left
    {
      var i :| i in Kept(s, t) && j == |s| + i;
      StartsInSuffix(s, t, i);
    }
  }

  /**
   * Words of a concatenation: the two counts add up, except that a word
   * straddling the seam is counted once.
   */
  lemma Concatenation(s: seq<byte>, t: seq<byte>)
    ensures Words(s + t) == Words(s) + Words(t) - (if Joined(s, t) then 1 else 0)
  {
    ConcatenationStarts(s, t);
    ShiftedSize(Kept(s, t), |s|);
    if Joined(s, t) {
      assert StartsWord(t, 0);
      assert 0 in WordStarts(t, |t|);
    }
  }

  /** The set `a` moved up by `k`. */
  function ShiftedSet(a: set<nat>, k: nat): set<nat> {
    set i | i in a :: k + i
  }

  lemma {:induction false} ShiftedSize(a: set<nat>, k: nat)
    ensures |ShiftedSet(a, k)| == |a|
  {
    if a != {} {
      var x :| x in a;
      ShiftedSize(a - {x}, k);
      var smaller := ShiftedSet(a - {x}, k);
      assert ShiftedSet(a, k) == smaller + {k + x} by {
        forall y | y in ShiftedSet(a, k) ensures y in smaller + {k + x} {
          var i :| i in a && y == k + i;
          if i != x { assert i in a - {x}; }
        }
      }
      forall y | y in smaller
        ensures y != k + x
      {
        var i :| i in a - {x} && y == k + i;
      }
    }
  }
}
