/** The handful of Python 2 `str` operations the search module relies on, with Python's
    semantics written out: `find`, slicing, `split()`, `rstrip("\n")`, `readline()` and
    line-by-line iteration of a text stream. */
module PyStr {

  // ---------------------------------------------------------------- find

  /** `pat` occurs in `s` starting at index `i`. */
  predicate OccursAt(s: string, pat: string, i: int) {
    0 <= i && i + |pat| <= |s| && s[i..i + |pat|] == pat
  }

  /** Index of the first occurrence of `pat` in `s` at or after `from`, or -1. */
  function FindFrom(s: string, pat: string, from: nat): (r: int)
    requires from <= |s|
    decreases |s| - from
    ensures r == -1 || (from <= r && OccursAt(s, pat, r))
    ensures r == -1 ==> forall i :: from <= i ==> !OccursAt(s, pat, i)
    ensures r != -1 ==> forall i :: from <= i < r ==> !OccursAt(s, pat, i)
  {
    if OccursAt(s, pat, from) then from
    else if from + |pat| >= |s| then -1
    else FindFrom(s, pat, from + 1)
  }

  /** Python's `s.find(pat)`: the index of the first occurrence, or -1 when there is none. */
  function PyFind(s: string, pat: string): (r: int)
    ensures -1 <= r <= |s|
    ensures r == -1 <==> forall i :: !OccursAt(s, pat, i)
    ensures r != -1 ==> OccursAt(s, pat, r) && forall i :: 0 <= i < r ==> !OccursAt(s, pat, i)
  {
    FindFrom(s, pat, 0)
  }

  /** Any occurrence with no earlier one is the one `find` reports. */
  lemma FindIs(s: string, pat: string, i: nat)
    requires OccursAt(s, pat, i)
    requires forall k :: 0 <= k < i ==> !OccursAt(s, pat, k)
    ensures PyFind(s, pat) == i
  {
  }

  /** A character that differs from the pattern's rules out an occurrence. */
  lemma MismatchAt(s: string, pat: string, k: nat, d: nat)
    requires d < |pat| && k + d < |s| && s[k + d] != pat[d]
    ensures !OccursAt(s, pat, k)
  {
    if k + |pat| <= |s| {
      assert s[k..k + |pat|][d] == s[k + d];
    }
  }

  /** For a one-character pattern `find` is the first index holding that character. */
  lemma FindChar(s: string, c: char, i: nat)
    requires i < |s| && s[i] == c
    requires forall k :: 0 <= k < i ==> s[k] != c
    ensures PyFind(s, [c]) == i
  {
    assert s[i..i + 1] == [c];
    forall k | 0 <= k < i
      ensures !OccursAt(s, [c], k)
    {
      assert s[k..k + 1][0] == s[k];
    }
    FindIs(s, [c], i);
  }

  /** A one-character pattern that never appears is not found. */
  lemma FindCharAbsent(s: string, c: char)
    requires forall k :: 0 <= k < |s| ==> s[k] != c
    ensures PyFind(s, [c]) == -1
  {
    forall k | 0 <= k < |s|
      ensures !OccursAt(s, [c], k)
    {
      assert s[k..k + 1][0] == s[k];
    }
  }

  // ---------------------------------------------------------------- slicing

  /** Python's normalisation of one slice bound: a negative bound counts from the end,
      then the bound is clamped into [0, len]. */
  function SliceBound(i: int, len: nat): (b: nat)
    ensures b <= len
    ensures 0 <= i <= len ==> b == i
    ensures -(len as int) <= i < 0 ==> b == len + i
    ensures i < -(len as int) ==> b == 0
    ensures len < i ==> b == len
  {
    var k := if i < 0 then i + len else i;
    if k < 0 then 0 else if k > len then len else k
  }

  /** Python's `s[i:j]`: bounds normalised as above; empty when the end does not exceed the start. */
  function PySlice(s: string, i: int, j: int): (r: string)
    ensures |r| <= |s|
    ensures 0 <= i <= j <= |s| ==> r == s[i..j]
    ensures 0 <= i <= |s| + j && -|s| <= j < 0 ==> r == s[i..|s| + j]
    ensures 0 <= i <= |s| < j ==> r == s[i..]
    ensures 0 <= j <= i ==> r == []
    ensures |s| <= i ==> r == []
    ensures j < 0 && |s| + j <= i ==> r == []
  {
    var lo := SliceBound(i, |s|);
    var hi := SliceBound(j, |s|);
    if hi <= lo then [] else s[lo..hi]
  }

  /** The middle part of a three-part concatenation is the slice at its offsets. */
  lemma SliceOfMiddle(a: string, b: string, c: string)
    ensures (a + b + c)[|a|..|a| + |b|] == b
  {
  }

  // ---------------------------------------------------------------- split()

  /** The characters Python 2's `str.split()` treats as separators. */
  predicate IsSpace(c: char) {
    c == ' ' || c == '\t' || c == '\n' || c == '\r' || c == 11 as char || c == 12 as char
  }

  /** A non-empty run of non-whitespace characters. */
  predicate IsToken(t: string) {
    |t| > 0 && forall i :: 0 <= i < |t| ==> !IsSpace(t[i])
  }

  /** Length of the leading run of non-whitespace characters. */
  function TokenLen(s: string): (n: nat)
    ensures n <= |s|
    ensures forall i :: 0 <= i < n ==> !IsSpace(s[i])
    ensures n < |s| ==> IsSpace(s[n])
  {
    if |s| == 0 || IsSpace(s[0]) then 0 else 1 + TokenLen(s[1..])
  }

  /** Python's `s.split()` with no separator: the maximal whitespace-free runs, in order. */
  function Split(s: string): (ts: seq<string>)
    decreases |s|
    ensures forall k :: 0 <= k < |ts| ==> IsToken(ts[k])
    ensures ts == [] <==> forall i :: 0 <= i < |s| ==> IsSpace(s[i])
  {
    if |s| == 0 then []
    else if IsSpace(s[0]) then
      var rest := Split(s[1..]);
      assert forall i :: 1 <= i < |s| ==> s[i] == s[1..][i - 1];
      rest
    else
      var n := TokenLen(s);
      [s[..n]] + Split(s[n..])
  }

  /** Tokens glued back together with single spaces. */
  function Join(ts: seq<string>): string {
    if |ts| == 0 then ""
    else if |ts| == 1 then ts[0]
    else ts[0] + " " + Join(ts[1..])
  }

  /** A token followed by whitespace (or by nothing) is split off whole. */
  lemma SplitLeadingToken(t: string, rest: string)
    requires IsToken(t)
    requires |rest| == 0 || IsSpace(rest[0])
    ensures Split(t + rest) == [t] + Split(rest)
  {
    var s := t + rest;
    var n := TokenLen(s);
    assert forall i :: 0 <= i < |t| ==> s[i] == t[i];
    assert |rest| > 0 ==> s[|t|] == rest[0];
    assert n == |t|;
    assert s[..n] == t && s[n..] == rest;
  }

  /** Leading whitespace is skipped: together with SplitLeadingToken this fixes `Split`
      on every input. */
  lemma SplitSkipsSpace(c: char, s: string)
    requires IsSpace(c)
    ensures Split([c] + s) == Split(s)
  {
    assert ([c] + s)[1..] == s;
  }

  /** Splitting undoes joining with single spaces. */
  lemma {:induction false} SplitJoin(ts: seq<string>)
    requires forall k :: 0 <= k < |ts| ==> IsToken(ts[k])
    ensures Split(Join(ts)) == ts
  {
    if |ts| == 0 {
    } else if |ts| == 1 {
      SplitLeadingToken(ts[0], "");
      assert ts[0] + "" == ts[0];
    } else {
      var rest := Join(ts[1..]);
      SplitJoin(ts[1..]);
      SplitLeadingToken(ts[0], " " + rest);
      assert ts[0] + " " + rest == ts[0] + (" " + rest);
      assert (" " + rest)[1..] == rest;
      assert ts == [ts[0]] + ts[1..];
    }
  }

  // ---------------------------------------------------------------- lines

  /** `s` with every newline removed: what is left is newline-free and keeps every other
      character in order (`RemoveNewlinesAppend`, `RemoveNewlinesNone`). */
  function RemoveNewlines(s: string): (r: string)
    ensures |r| <= |s|
    ensures forall i :: 0 <= i < |r| ==> r[i] != '\n'
  {
    if |s| == 0 then ""
    else (if s[0] == '\n' then "" else [s[0]]) + RemoveNewlines(s[1..])
  }

  /** What iterating over a text stream yields as one item: non-empty, and a newline
      can only be its last character. */
  predicate IsLine(l: string) {
    |l| > 0 && forall i :: 0 <= i < |l| - 1 ==> l[i] != '\n'
  }

  /** Length of the first line of `s`, counting its terminating newline if it has one. */
  function LineLen(s: string): (n: nat)
    ensures n <= |s|
    ensures |s| > 0 ==> n > 0
    ensures forall i :: 0 <= i < n - 1 ==> s[i] != '\n'
    ensures 0 < n < |s| ==> s[n - 1] == '\n'
  {
    if |s| == 0 then 0 else if s[0] == '\n' then 1 else 1 + LineLen(s[1..])
  }

  /** Python's `readline()` on a stream holding `s`: the first line with its newline,
      or "" at end of file. */
  function ReadLine(s: string): (line: string)
    ensures |line| <= |s| && line == s[..|line|]
    ensures s == [] <==> line == []
    ensures s != [] ==> IsLine(line)
    ensures |line| < |s| ==> line[|line| - 1] == '\n'
  {
    s[..LineLen(s)]
  }

  /** `readline()` on a stream that starts with a newline-free line stops at its newline. */
  lemma ReadLineThrough(l: string, rest: string)
    requires forall i :: 0 <= i < |l| ==> l[i] != '\n'
    ensures ReadLine(l + "\n" + rest) == l + "\n"
  {
    var s := l + "\n" + rest;
    var n := LineLen(s);
    assert forall i :: 0 <= i < |l| ==> s[i] == l[i];
    assert s[|l|] == '\n';
    assert n == |l| + 1;
    assert s[..n] == l + "\n";
  }

  /** Python's `s.rstrip("\n")`: every trailing newline removed. */
  function RStripNewlines(s: string): (r: string)
    ensures |r| <= |s| && r == s[..|r|]
    ensures forall i :: |r| <= i < |s| ==> s[i] == '\n'
    ensures |r| == 0 || r[|r| - 1] != '\n'
  {
    if |s| > 0 && s[|s| - 1] == '\n' then RStripNewlines(s[..|s| - 1]) else s
  }

  /** Removing all newlines distributes over concatenation. */
  lemma {:induction false} RemoveNewlinesAppend(a: string, b: string)
    ensures RemoveNewlines(a + b) == RemoveNewlines(a) + RemoveNewlines(b)
  {
    if |a| > 0 {
      RemoveNewlinesAppend(a[1..], b);
      assert (a + b)[1..] == a[1..] + b;
    } else {
      assert a + b == b;
    }
  }

  /** A string without newlines is left alone by `RemoveNewlines`. */
  lemma {:induction false} RemoveNewlinesNone(s: string)
    requires forall i :: 0 <= i < |s| ==> s[i] != '\n'
    ensures RemoveNewlines(s) == s
  {
    if |s| > 0 {
      RemoveNewlinesNone(s[1..]);
    }
  }

  /** On a single line, stripping trailing newlines is the same as removing all newlines. */
  lemma RStripLine(l: string)
    requires IsLine(l)
    ensures RStripNewlines(l) == RemoveNewlines(l)
  {
    var last := |l| - 1;
    if l[last] == '\n' {
      var body := l[..last];
      assert l == body + "\n";
      RemoveNewlinesNone(body);
      RemoveNewlinesAppend(body, "\n");
      assert RStripNewlines(l) == RStripNewlines(body);
      assert RStripNewlines(body) == body;
    } else {
      RemoveNewlinesNone(l);
    }
  }

  /** What a `for` loop over the text stream `s` accumulates when it adds every line with
      its trailing newlines stripped. */
  function StripEachLine(s: string): string
    decreases |s|
  {
    if |s| == 0 then ""
    else
      var n := LineLen(s);
      RStripNewlines(s[..n]) + StripEachLine(s[n..])
  }

  /** Stripping line by line removes exactly the newlines of the stream, and nothing else. */
  lemma {:induction false} StripEachLineRemovesNewlines(s: string)
    ensures StripEachLine(s) == RemoveNewlines(s)
    decreases |s|
  {
    if |s| > 0 {
      var n := LineLen(s);
      StripEachLineRemovesNewlines(s[n..]);
      RStripLine(s[..n]);
      assert s == s[..n] + s[n..];
      RemoveNewlinesAppend(s[..n], s[n..]);
    }
  }
}
