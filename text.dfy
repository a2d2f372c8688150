/** The two string primitives the frame code leans on: Python's
    `str.split(sep)` with an explicit, non-empty separator, and the ASCII
    `str.lower()` of Python 2 byte strings. */
module Text {

  /** `sep` starts at position `i` of `s`. */
  predicate OccursAt(s: string, sep: string, i: nat) {
    i + |sep| <= |s| && s[i..i + |sep|] == sep
  }

  /** `sep` occurs nowhere in `s`. */
  ghost predicate Free(s: string, sep: string) {
    forall i: nat :: !OccursAt(s, sep, i)
  }

  /** Leftmost occurrence of `sep` in `s` at or after `from`, or `|s|` when there is none. */
  function Find(s: string, sep: string, from: nat): (i: nat)
    requires sep != "" && from <= |s|
    ensures from <= i <= |s|
    ensures i < |s| ==> OccursAt(s, sep, i)
    ensures i == |s| ==> forall j: nat :: from <= j ==> !OccursAt(s, sep, j)
    ensures forall j: nat :: from <= j < i ==> !OccursAt(s, sep, j)
    decreases |s| - from
  {
    if from == |s| then |s|
    else if OccursAt(s, sep, from) then from
    else Find(s, sep, from + 1)
  }

  /** Python's `s.split(sep)`: the pieces between the non-overlapping
      occurrences of `sep`, found left to right.  There is always at least
      one piece, and an empty `s` gives `[""]`. */
  function Split(s: string, sep: string): (parts: seq<string>)
    requires sep != ""
    ensures |parts| >= 1
    decreases |s|
  {
    var i := Find(s, sep, 0);
    if i == |s| then [s] else [s[..i]] + Split(s[i + |sep|..], sep)
  }

  /** Python's `sep.join(parts)`. */
  function Join(parts: seq<string>, sep: string): string
    requires parts != []
  {
    if |parts| == 1 then parts[0] else parts[0] + sep + Join(parts[1..], sep)
  }

  /** One step of `Split`: the piece before the first separator, then the
      pieces of what follows it. */
  lemma SplitStep(s: string, sep: string) returns (i: nat)
    requires sep != ""
    ensures i == Find(s, sep, 0)
    ensures i == |s| ==> Split(s, sep) == [s]
    ensures i < |s| ==> i + |sep| <= |s| && s[i..i + |sep|] == sep
    ensures i < |s| ==> Split(s, sep) == [s[..i]] + Split(s[i + |sep|..], sep)
  {
    i := Find(s, sep, 0);
  }

  lemma JoinCons(head: string, tail: seq<string>, sep: string)
    requires tail != []
    ensures Join([head] + tail, sep) == head + sep + Join(tail, sep)
  {
    assert ([head] + tail)[1..] == tail;
  }

  lemma Pieces<T>(s: seq<T>, i: nat, j: nat)
    requires i <= j <= |s|
    ensures s == s[..i] + s[i..j] + s[j..]
  {
  }

  /** `split` loses nothing: joining the pieces back gives the input. */
  lemma {:induction false} SplitJoin(s: string, sep: string)
    requires sep != ""
    ensures Join(Split(s, sep), sep) == s
    decreases |s|
  {
    var i := SplitStep(s, sep);
    if i < |s| {
      var head, tail := s[..i], s[i + |sep|..];
      SplitJoin(tail, sep);
      JoinCons(head, Split(tail, sep), sep);
      Pieces(s, i, i + |sep|);
    }
  }

  /** No piece produced by `split` contains the separator. */
  lemma {:induction false} SplitPiecesFree(s: string, sep: string)
    requires sep != ""
    ensures forall p :: p in Split(s, sep) ==> Free(p, sep)
    decreases |s|
  {
    var i := SplitStep(s, sep);
    if i < |s| {
      var head, tail := s[..i], s[i + |sep|..];
      SplitPiecesFree(tail, sep);
      forall j: nat ensures !OccursAt(head, sep, j) {
        if j + |sep| <= |head| {
          assert head[j..j + |sep|] == s[j..j + |sep|];
          assert !OccursAt(s, sep, j);
        }
      }
    }
  }

  /** The two-character separators used on the wire ("\r\n" and ": ")
      cannot overlap themselves. */
  predicate TwoDistinct(sep: string) {
    |sep| == 2 && sep[0] != sep[1]
  }

  lemma SplitFree(s: string, sep: string)
    requires sep != "" && Free(s, sep)
    ensures Split(s, sep) == [s]
  {
    var i := Find(s, sep, 0);
    assert i == |s|;
  }

  /** Gluing two separator-free strings cannot create a separator, unless the
      join itself spells it. */
  lemma FreeConcat(x: string, y: string, sep: string)
    requires TwoDistinct(sep) && Free(x, sep) && Free(y, sep)
    requires !(|x| > 0 && |y| > 0 && x[|x| - 1] == sep[0] && y[0] == sep[1])
    ensures Free(x + y, sep)
  {
    var s := x + y;
    forall i: nat | OccursAt(s, sep, i) ensures false {
      if i + 2 <= |x| {
        assert x[i..i + 2] == s[i..i + 2];
        assert OccursAt(x, sep, i);
      } else if i >= |x| {
        assert y[i - |x|..i - |x| + 2] == s[i..i + 2];
        assert OccursAt(y, sep, i - |x|);
      }
    }
  }

  /** Splitting a separator-free piece followed by the separator peels that
      piece off the front. */
  lemma SplitCons(a: string, sep: string, rest: string)
    requires TwoDistinct(sep) && Free(a, sep)
    ensures Split(a + sep + rest, sep) == [a] + Split(rest, sep)
  {
    var s := a + sep + rest;
    assert OccursAt(s, sep, |a|) by { assert s[|a|..|a| + 2] == sep; }
    forall j: nat | j < |a| ensures !OccursAt(s, sep, j) {
      if j + 2 <= |a| {
        assert s[j..j + 2] == a[j..j + 2];
        assert !OccursAt(a, sep, j);
      } else {
        assert s[j + 1] == sep[0];
      }
    }
    var i := Find(s, sep, 0);
    assert i == |a|;
    assert s[..i] == a;
    assert s[i + |sep|..] == rest;
  }

  function LowerChar(c: char): char {
    if 'A' <= c <= 'Z' then (c as int + 32) as char else c
  }

  /** ASCII lower-casing, character by character. */
  function Lower(s: string): (r: string)
    ensures |r| == |s|
    ensures forall i :: 0 <= i < |s| ==> r[i] == LowerChar(s[i])
  {
    seq(|s|, i requires 0 <= i < |s| => LowerChar(s[i]))
  }

  predicate IsLower(s: string) {
    forall i :: 0 <= i < |s| ==> !('A' <= s[i] <= 'Z')
  }

  lemma LowerOfLower(s: string)
    requires IsLower(s)
    ensures Lower(s) == s
  {
  }

  lemma LowerIsLower(s: string)
    ensures IsLower(Lower(s))
    ensures Lower(Lower(s)) == Lower(s)
  {
  }
}
