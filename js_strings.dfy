/** The JavaScript and Node.js string operations the server and the admin panel rely on:
    `indexOf`, `split` and `join` with a string separator, `path.basename`, and suffix tests. */
module JsStrings {
  import opened Wrappers

  /** `sep` occurs in `s` starting at index `i`. */
  predicate OccursAt(s: string, sep: string, i: int) {
    0 <= i && i + |sep| <= |s| && s[i..i + |sep|] == sep
  }

  predicate Contains(s: string, sep: string) {
    exists i | 0 <= i <= |s| :: OccursAt(s, sep, i)
  }

  predicate EndsWith(s: string, suffix: string) {
    |suffix| <= |s| && s[|s| - |suffix|..] == suffix
  }

  /** `s.indexOf(sep, from)`: the first occurrence of `sep` at or after `from`. */
  function IndexOfFrom(s: string, sep: string, from: nat): (r: Option<nat>)
    ensures r.Some? ==> from <= r.value && OccursAt(s, sep, r.value)
    ensures r.Some? ==> forall j :: from <= j < r.value ==> !OccursAt(s, sep, j)
    ensures r.None? ==> forall j :: from <= j ==> !OccursAt(s, sep, j)
    decreases |s| - from
  {
    if from + |sep| > |s| then None
    else if s[from..from + |sep|] == sep then Some(from)
    else IndexOfFrom(s, sep, from + 1)
  }

  /** `s.split(sep)` for a non-empty string separator: the pieces between the leftmost
      non-overlapping occurrences of `sep`, scanning from the left. */
  function Split(s: string, sep: string): (parts: seq<string>)
    requires sep != ""
    ensures |parts| >= 1
    decreases |s|
  {
    match IndexOfFrom(s, sep, 0)
    case None => [s]
    case Some(i) => [s[..i]] + Split(s[i + |sep|..], sep)
  }

  /** `xs.join(sep)`: the empty list joins to "", one element to itself. */
  function Join(xs: seq<string>, sep: string): string {
    if xs == [] then ""
    else if |xs| == 1 then xs[0]
    else xs[0] + sep + Join(xs[1..], sep)
  }

  /** A join starts with the first element, followed by the separator when more follow, and
      ends with the last element. */
  lemma {:induction false} JoinEnds(xs: seq<string>, sep: string)
    requires xs != []
    ensures xs[0] <= Join(xs, sep)
    ensures |xs| > 1 ==> xs[0] + sep <= Join(xs, sep)
    ensures EndsWith(Join(xs, sep), xs[|xs| - 1])
  {
    if |xs| > 1 {
      var head, tail := xs[0] + sep, xs[1..];
      JoinEnds(tail, sep);
      assert Join(xs, sep) == head + Join(tail, sep);
      PrefixOfAppend(head, Join(tail, sep));
      PrefixOfAppend(xs[0], sep);
      assert tail[|tail| - 1] == xs[|xs| - 1];
      EndsWithAppend(head, Join(tail, sep), xs[|xs| - 1]);
    }
  }

  lemma PrefixOfAppend(a: string, b: string)
    ensures a <= a + b
  {
    assert (a + b)[..|a|] == a;
  }

  /** A suffix of `b` is a suffix of `a + b`. */
  lemma EndsWithAppend(a: string, b: string, suffix: string)
    requires EndsWith(b, suffix)
    ensures EndsWith(a + b, suffix)
  {
    assert (a + b)[|a + b| - |suffix|..] == b[|b| - |suffix|..];
  }

  /** Joining the pieces of a split with the same separator gives back the original string. */
  lemma {:induction false} JoinSplit(s: string, sep: string)
    requires sep != ""
    ensures Join(Split(s, sep), sep) == s
    decreases |s|
  {
    var r := IndexOfFrom(s, sep, 0);
    if r.Some? {
      var i := r.value;
      var rest := s[i + |sep|..];
      var tail := Split(rest, sep);
      JoinSplit(rest, sep);
      assert Split(s, sep) == [s[..i]] + tail;
      assert ([s[..i]] + tail)[1..] == tail;
      assert Join([s[..i]] + tail, sep) == s[..i] + sep + Join(tail, sep);
      assert s == s[..i] + sep + rest;
    }
  }

  /** No piece of a split contains the separator. */
  lemma {:induction false} SplitPiecesAreFree(s: string, sep: string)
    requires sep != ""
    ensures forall k :: 0 <= k < |Split(s, sep)| ==> !Contains(Split(s, sep)[k], sep)
    decreases |s|
  {
    var r := IndexOfFrom(s, sep, 0);
    if r.Some? {
      var i := r.value;
      var rest := s[i + |sep|..];
      SplitPiecesAreFree(rest, sep);
      forall j | 0 <= j <= i ensures OccursAt(s[..i], sep, j) ==> OccursAt(s, sep, j) {
        if j + |sep| <= i {
          assert s[..i][j..j + |sep|] == s[j..j + |sep|];
        }
      }
      var parts := Split(s, sep);
      assert parts == [s[..i]] + Split(rest, sep);
      forall k | 0 <= k < |parts| ensures !Contains(parts[k], sep) {
        if k > 0 { assert parts[k] == Split(rest, sep)[k - 1]; }
      }
    }
  }

  /** `sep` cannot be found in `x + sep` before the copy of `sep` appended to `x`. */
  predicate NoEarlyOccurrence(x: string, sep: string) {
    forall j :: 0 <= j < |x| ==> !OccursAt(x + sep, sep, j)
  }

  /** Splitting `x + sep + y` cuts at the appended separator when `sep` does not start earlier. */
  lemma SplitAtSeparator(x: string, sep: string, y: string)
    requires sep != "" && NoEarlyOccurrence(x, sep)
    ensures Split(x + sep + y, sep) == [x] + Split(y, sep)
  {
    var s := x + sep + y;
    assert OccursAt(s, sep, |x|) by { assert s[|x|..|x| + |sep|] == sep; }
    forall j | 0 <= j < |x| ensures !OccursAt(s, sep, j) {
      assert !OccursAt(x + sep, sep, j);
      if j + |sep| <= |s| {
        assert s[j..j + |sep|] == (x + sep)[j..j + |sep|];
      }
    }
    var r := IndexOfFrom(s, sep, 0);
    assert r == Some(|x|);
    assert s[..|x|] == x;
    assert s[|x| + |sep|..] == y;
  }

  /** A string free of the separator splits to itself. */
  lemma SplitFree(y: string, sep: string)
    requires sep != "" && !Contains(y, sep)
    ensures Split(y, sep) == [y]
  {
    assert IndexOfFrom(y, sep, 0).None?;
  }

  /** Splitting a join gives back the list, when every element but the last has no early
      occurrence of the separator and the last contains none. */
  lemma {:induction false} SplitJoin(xs: seq<string>, sep: string)
    requires sep != "" && xs != []
    requires forall k :: 0 <= k < |xs| - 1 ==> NoEarlyOccurrence(xs[k], sep)
    requires !Contains(xs[|xs| - 1], sep)
    ensures Split(Join(xs, sep), sep) == xs
  {
    if |xs| == 1 {
      SplitFree(xs[0], sep);
    } else {
      SplitJoin(xs[1..], sep);
      SplitAtSeparator(xs[0], sep, Join(xs[1..], sep));
      assert xs == [xs[0]] + xs[1..];
    }
  }

  /** For a two-character separator with two different characters, containing no copy of the
      separator is enough to rule out an early occurrence. */
  lemma NoEarlyForTwoCharSeparator(x: string, sep: string)
    requires |sep| == 2 && sep[0] != sep[1] && !Contains(x, sep)
    ensures NoEarlyOccurrence(x, sep)
  {
    forall j | 0 <= j < |x| ensures !OccursAt(x + sep, sep, j) {
      if j + 2 <= |x| {
        assert (x + sep)[j..j + 2] == x[j..j + 2];
        assert !OccursAt(x, sep, j);
      } else {
        assert (x + sep)[j + 1] == sep[0];
      }
    }
  }

  /** Node's `path.basename`: trailing slashes are ignored and the last segment is kept. */
  function Basename(p: string): (name: string)
    ensures '/' !in name
  {
    LastSegment(TrimTrailingSlashes(p))
  }

  function TrimTrailingSlashes(p: string): (r: string)
    ensures r <= p
    ensures r == [] || r[|r| - 1] != '/'
  {
    if p != [] && p[|p| - 1] == '/' then TrimTrailingSlashes(p[..|p| - 1]) else p
  }

  function LastSegment(p: string): (name: string)
    ensures '/' !in name
  {
    if p == [] || p[|p| - 1] == '/' then [] else LastSegment(p[..|p| - 1]) + [p[|p| - 1]]
  }

  /** A slash-free final segment after a directory prefix is exactly what `Basename` returns. */
  lemma {:induction false} BasenameAfterSlash(dir: string, name: string)
    requires dir == [] || dir[|dir| - 1] == '/'
    requires name != [] && '/' !in name
    ensures Basename(dir + name) == name
  {
    assert TrimTrailingSlashes(dir + name) == dir + name;
    LastSegmentAfterSlash(dir, name);
  }

  lemma {:induction false} LastSegmentAfterSlash(dir: string, name: string)
    requires dir == [] || dir[|dir| - 1] == '/'
    requires '/' !in name
    ensures LastSegment(dir + name) == name
    decreases |name|
  {
    if name == [] {
      assert dir + name == dir;
    } else {
      var init := name[..|name| - 1];
      assert (dir + name)[..|dir + name| - 1] == dir + init;
      LastSegmentAfterSlash(dir, init);
      assert name == init + [name[|name| - 1]];
    }
  }

  /** The number of occurrences of `c` in `s`. */
  function CountChar(s: string, c: char): nat {
    if s == [] then 0 else (if s[0] == c then 1 else 0) + CountChar(s[1..], c)
  }

  lemma {:induction false} CountCharAppend(a: string, b: string, c: char)
    ensures CountChar(a + b, c) == CountChar(a, c) + CountChar(b, c)
  {
    if a == [] {
      assert a + b == b;
    } else {
      assert (a + b)[1..] == a[1..] + b;
      CountCharAppend(a[1..], b, c);
    }
  }

  /** A character that does not occur is counted zero times. */
  lemma {:induction false} CountCharAbsent(s: string, c: char)
    requires c !in s
    ensures CountChar(s, c) == 0
  {
    if s != [] {
      assert s[0] != c;
      assert forall x | x in s[1..] :: x in s;
      CountCharAbsent(s[1..], c);
    }
  }
}
