/** String operations the diagram renderer relies on: substring search,
    Python's `str.replace`, the regular-expression class `\w`,
    `str.strip()` emptiness and `str.split("\n")`. */
module Text {

  datatype Option<T> = None | Some(value: T)

  /** `p` occurs in `s` starting at index `i`. */
  predicate OccursAt(s: string, i: nat, p: string) {
    i + |p| <= |s| && AgreesFrom(s, i, p, 0)
  }

  /** The characters of `p` from index `k` on agree with those of `s` from `i + k` on. */
  predicate AgreesFrom(s: string, i: nat, p: string, k: nat)
    requires i + |p| <= |s|
    decreases |p| - k
  {
    k >= |p| || (s[i + k] == p[k] && AgreesFrom(s, i, p, k + 1))
  }

  lemma {:induction false} AgreesFromChars(s: string, i: nat, p: string, k: nat)
    requires i + |p| <= |s|
    ensures AgreesFrom(s, i, p, k) <==> forall j :: k <= j < |p| ==> s[i + j] == p[j]
    decreases |p| - k
  {
    if k < |p| {
      AgreesFromChars(s, i, p, k + 1);
    }
  }

  /** `p` occurs at `i` exactly when it fits and every character agrees. */
  lemma {:induction false} OccursAtChars(s: string, i: nat, p: string)
    ensures OccursAt(s, i, p) <==> i + |p| <= |s| && forall j :: 0 <= j < |p| ==> s[i + j] == p[j]
  {
    if i + |p| <= |s| {
      AgreesFromChars(s, i, p, 0);
    }
  }

  /** `p` occurs nowhere in `s`. */
  predicate Absent(s: string, p: string) {
    forall i: nat | i <= |s| :: !OccursAt(s, i, p)
  }

  /** The first index at or after `from` where `p` occurs (`str.find(p, from)`). */
  function FindFrom(s: string, p: string, from: nat): (r: Option<nat>)
    ensures r.Some? ==> from <= r.value && OccursAt(s, r.value, p)
    decreases |s| - from
  {
    if from + |p| > |s| then None
    else if OccursAt(s, from, p) then Some(from)
    else FindFrom(s, p, from + 1)
  }

  /** The search succeeds no later than any occurrence at or after `from`:
      it finds the first occurrence, and `None` means there is none. */
  lemma {:induction false} FindFromNoLater(s: string, p: string, from: nat, k: nat)
    requires from <= k && OccursAt(s, k, p)
    ensures FindFrom(s, p, from).Some? && FindFrom(s, p, from).value <= k
    decreases k - from
  {
    if from < k && !OccursAt(s, from, p) {
      FindFromNoLater(s, p, from + 1, k);
    }
  }

  /** No occurrence lies between `from` and what the search finds. */
  lemma {:induction false} FindFromBefore(s: string, p: string, from: nat)
    requires FindFrom(s, p, from).Some?
    ensures forall j: nat :: from <= j < FindFrom(s, p, from).value ==> !OccursAt(s, j, p)
  {
    forall j: nat | from <= j < FindFrom(s, p, from).value && OccursAt(s, j, p)
      ensures false
    {
      FindFromNoLater(s, p, from, j);
    }
  }

  /** When the search fails, `p` does not occur at or after `from`. */
  lemma {:induction false} FindFromNone(s: string, p: string, from: nat)
    requires FindFrom(s, p, from).None?
    ensures forall j: nat :: from <= j ==> !OccursAt(s, j, p)
  {
    forall j: nat | from <= j && OccursAt(s, j, p)
      ensures false
    {
      FindFromNoLater(s, p, from, j);
    }
  }

  /** An occurrence inside a slice is an occurrence in the whole text. */
  lemma {:induction false} OccursAtSlice(s: string, a: nat, b: nat, j: nat, p: string)
    requires a <= b <= |s|
    ensures OccursAt(s[a..b], j, p) <==> j + |p| <= b - a && OccursAt(s, a + j, p)
  {
    OccursAtChars(s[a..b], j, p);
    OccursAtChars(s, a + j, p);
    if j + |p| <= b - a {
      var u := s[a..b];
      forall m | j <= m < j + |p|
        ensures u[m] == s[a + m]
      {
      }
    }
  }

  /** Number of (possibly overlapping) occurrences of `p` at or after `from`. */
  function CountFrom(s: string, p: string, from: nat): nat
    decreases |s| + 1 - from
  {
    if from > |s| then 0
    else (if OccursAt(s, from, p) then 1 else 0) + CountFrom(s, p, from + 1)
  }

  /** Counting from an earlier index sees every occurrence counted from a
      later one, and one more for each occurrence in between. */
  lemma {:induction false} CountFromSplit(s: string, p: string, a: nat, k: nat, b: nat)
    requires a <= k < b && OccursAt(s, k, p)
    ensures CountFrom(s, p, a) >= 1 + CountFrom(s, p, b)
    decreases b - a
  {
    if a == k {
      CountFromMonotone(s, p, a + 1, b);
    } else {
      CountFromSplit(s, p, a + 1, k, b);
    }
  }

  lemma {:induction false} CountFromMonotone(s: string, p: string, a: nat, b: nat)
    requires a <= b
    ensures CountFrom(s, p, a) >= CountFrom(s, p, b)
    decreases b - a
  {
    if a < b {
      CountFromMonotone(s, p, a + 1, b);
    }
  }

  /** Python's `s.replace(p, r)`: left to right, non-overlapping; an empty
      pattern matches before every character and at the end. */
  function ReplaceAll(s: string, p: string, r: string): string
    decreases |s|
  {
    if |p| == 0 then
      if s == [] then r else r + [s[0]] + ReplaceAll(s[1..], p, r)
    else if OccursAt(s, 0, p) then r + ReplaceAll(s[|p|..], p, r)
    else if s == [] then []
    else [s[0]] + ReplaceAll(s[1..], p, r)
  }

  /** Concatenation regrouped, stated once so that proofs which unfold
      recursive string functions need not rediscover it. */
  lemma {:induction false} AppendAssoc(a: string, b: string, c: string)
    ensures a + (b + c) == (a + b) + c
  {
  }

  /** The first character followed by the next `i - 1` is the first `i`. */
  lemma {:induction false} ConsTake(s: string, i: nat)
    requires 0 < i <= |s|
    ensures [s[0]] + s[1..][..i - 1] == s[..i]
  {
  }

  /** A prefix in which no occurrence of `p` starts is copied unchanged. */
  lemma {:induction false} ReplaceAllSkips(s: string, p: string, r: string, i: nat)
    requires |p| > 0 && i <= |s|
    requires forall j: nat :: j < i ==> !OccursAt(s, j, p)
    ensures ReplaceAll(s, p, r) == s[..i] + ReplaceAll(s[i..], p, r)
    decreases i
  {
    if i == 0 {
      assert s[0..] == s;
    } else {
      var t := s[1..];
      assert !OccursAt(s, 0, p);
      forall j: nat | j < i - 1
        ensures !OccursAt(t, j, p)
      {
        OccursAtSlice(s, 1, |s|, j, p);
        assert s[1..|s|] == t;
        assert !OccursAt(s, 1 + j, p);
      }
      ReplaceAllSkips(t, p, r, i - 1);
      var rest := ReplaceAll(s[i..], p, r);
      assert t[i - 1..] == s[i..];
      calc {
        ReplaceAll(s, p, r);
        [s[0]] + ReplaceAll(t, p, r);
        [s[0]] + (t[..i - 1] + rest);
        { assert [s[0]] + (t[..i - 1] + rest) == ([s[0]] + t[..i - 1]) + rest; }
        ([s[0]] + t[..i - 1]) + rest;
        { assert [s[0]] + t[..i - 1] == s[..i]; }
        s[..i] + rest;
      }
    }
  }

  /** Replacing a pattern that does not occur changes nothing. */
  lemma {:induction false} ReplaceAllAbsent(s: string, p: string, r: string)
    requires |p| > 0 && Absent(s, p)
    ensures ReplaceAll(s, p, r) == s
  {
    ReplaceAllSkips(s, p, r, |s|);
    assert s[..|s|] == s;
  }

  /** Where `p` occurs at the start, `str.replace` puts `r` in its place. */
  lemma {:induction false} ReplaceAllAtStart(z: string, p: string, r: string)
    requires |p| > 0 && OccursAt(z, 0, p)
    ensures ReplaceAll(z, p, r) == r + ReplaceAll(z[|p|..], p, r)
  {
  }

  /** `str.replace` copies the text before the first occurrence, puts `r`
      in its place and continues right after it. */
  lemma {:induction false} ReplaceAllAt(s: string, p: string, r: string, i: nat)
    requires |p| > 0 && OccursAt(s, i, p)
    requires forall j: nat :: j < i ==> !OccursAt(s, j, p)
    ensures ReplaceAll(s, p, r) == s[..i] + r + ReplaceAll(s[i + |p|..], p, r)
  {
    ReplaceAllSkips(s, p, r, i);
    var z := s[i..];
    OccursAtSlice(s, i, |s|, 0, p);
    assert s[i..|s|] == z;
    ReplaceAllAtStart(z, p, r);
    assert z[|p|..] == s[i + |p|..];
  }

  /** `str.replace` removes the first occurrence found by `str.find` and
      continues right after it; when `str.find` fails it changes nothing. */
  lemma {:induction false} ReplaceAllAtFirst(s: string, p: string, r: string)
    requires |p| > 0
    ensures FindFrom(s, p, 0).None? ==> ReplaceAll(s, p, r) == s
    ensures FindFrom(s, p, 0).Some? ==>
      var i := FindFrom(s, p, 0).value;
      ReplaceAll(s, p, r) == s[..i] + r + ReplaceAll(s[i + |p|..], p, r)
  {
    match FindFrom(s, p, 0)
    case None =>
      FindFromNone(s, p, 0);
      ReplaceAllAbsent(s, p, r);
    case Some(i) =>
      FindFromBefore(s, p, 0);
      ReplaceAllAt(s, p, r, i);
  }

  /** A single occurrence between `u` and `v` is replaced, and nothing else. */
  lemma {:induction false} ReplaceAllOnce(u: string, p: string, v: string, r: string)
    requires |p| > 0 && Absent(v, p)
    requires forall j: nat :: j < |u| ==> !OccursAt(u + p + v, j, p)
    ensures ReplaceAll(u + p + v, p, r) == u + r + v
  {
    var s := u + p + v;
    OccursAtChars(s, |u|, p);
    forall k | 0 <= k < |p|
      ensures s[|u| + k] == p[k]
    {
    }
    ReplaceAllAt(s, p, r, |u|);
    assert s[..|u|] == u;
    assert s[|u| + |p|..] == v;
    ReplaceAllAbsent(v, p, r);
  }

  /** Replacing a pattern by itself is the identity (the `.replace("_", "_")`
      of the extractor). */
  lemma {:induction false} ReplaceAllSelf(s: string, p: string)
    ensures ReplaceAll(s, p, p) == s
    decreases |s|
  {
    if |p| == 0 {
      if s != [] {
        ReplaceAllSelf(s[1..], p);
        assert s == [s[0]] + s[1..];
      }
    } else if OccursAt(s, 0, p) {
      ReplaceAllSelf(s[|p|..], p);
      OccursAtChars(s, 0, p);
      assert s[..|p|] == p;
      assert s == s[..|p|] + s[|p|..];
    } else if s != [] {
      ReplaceAllSelf(s[1..], p);
      assert s == [s[0]] + s[1..];
    }
  }

  /** A replacement no longer than the pattern never lengthens the text. */
  lemma {:induction false} ReplaceAllShrinks(s: string, p: string, r: string)
    requires |r| <= |p|
    ensures |ReplaceAll(s, p, r)| <= |s|
    decreases |s|
  {
    if |p| == 0 {
      if s != [] {
        ReplaceAllShrinks(s[1..], p, r);
      }
    } else if OccursAt(s, 0, p) {
      ReplaceAllShrinks(s[|p|..], p, r);
    } else if s != [] {
      ReplaceAllShrinks(s[1..], p, r);
    }
  }

  /** `\w` restricted to ASCII: letters, digits and the underscore. */
  predicate IsWordChar(c: char) {
    'a' <= c <= 'z' || 'A' <= c <= 'Z' || '0' <= c <= '9' || c == '_'
  }

  /** Where the run of word characters starting at `i` ends (the greedy `\w*`). */
  function WordRunEnd(s: string, i: nat): (k: nat)
    requires i <= |s|
    ensures i <= k <= |s|
    ensures k < |s| ==> !IsWordChar(s[k])
    decreases |s| - i
  {
    if i == |s| || !IsWordChar(s[i]) then i else WordRunEnd(s, i + 1)
  }

  /** Every character of the run is a word character. */
  lemma {:induction false} WordRunIsWords(s: string, i: nat, j: nat)
    requires i <= |s| && i <= j < WordRunEnd(s, i)
    ensures IsWordChar(s[j])
    decreases |s| - i
  {
    if i < j {
      WordRunIsWords(s, i + 1, j);
    }
  }

  /** The run stops at the first character that is not a word character. */
  lemma {:induction false} WordRunStops(s: string, i: nat, j: nat)
    requires i <= j < |s| && !IsWordChar(s[j])
    ensures WordRunEnd(s, i) <= j
    decreases |s| - i
  {
    if i < j && IsWordChar(s[i]) {
      WordRunStops(s, i + 1, j);
    }
  }

  /** Python's `str.isspace()` for one character. */
  predicate IsSpace(c: char) {
    '\t' <= c <= '\r' || '\U{1C}' <= c <= '\U{1F}' || c == ' ' || c == '\U{85}' || c == '\U{A0}'
    || c == '\U{1680}' || '\U{2000}' <= c <= '\U{200A}' || c == '\U{2028}' || c == '\U{2029}'
    || c == '\U{202F}' || c == '\U{205F}' || c == '\U{3000}'
  }

  /** `s.lstrip()`: drops the leading whitespace. */
  function LStrip(s: string): string {
    if s != [] && IsSpace(s[0]) then LStrip(s[1..]) else s
  }

  /** `s.rstrip()`: drops the trailing whitespace. */
  function RStrip(s: string): string {
    if s != [] && IsSpace(s[|s| - 1]) then RStrip(s[..|s| - 1]) else s
  }

  /** `s.strip()`: drops the whitespace at both ends. */
  function Strip(s: string): string {
    RStrip(LStrip(s))
  }

  /** `line.strip()` is empty. */
  predicate IsBlank(line: string) {
    Strip(line) == []
  }

  /** `lstrip` leaves nothing exactly when every character is whitespace. */
  lemma {:induction false} LStripEmpty(s: string)
    ensures LStrip(s) == [] <==> forall i :: 0 <= i < |s| ==> IsSpace(s[i])
    decreases |s|
  {
    if s != [] {
      LStripEmpty(s[1..]);
      assert forall i :: 1 <= i < |s| ==> s[i] == s[1..][i - 1];
    }
  }

  /** What `lstrip` leaves does not start with whitespace. */
  lemma {:induction false} LStripFirst(s: string)
    requires LStrip(s) != []
    ensures !IsSpace(LStrip(s)[0])
    decreases |s|
  {
    if IsSpace(s[0]) {
      LStripFirst(s[1..]);
    }
  }

  /** `rstrip` keeps a text that starts with a non-whitespace character
      non-empty. */
  lemma {:induction false} RStripNonEmpty(s: string)
    requires s != [] && !IsSpace(s[0])
    ensures RStrip(s) != []
    decreases |s|
  {
    if IsSpace(s[|s| - 1]) {
      RStripNonEmpty(s[..|s| - 1]);
    }
  }

  /** A stripped line is empty exactly when the line holds only whitespace. */
  lemma {:induction false} IsBlankIff(line: string)
    ensures IsBlank(line) <==> forall i :: 0 <= i < |line| ==> IsSpace(line[i])
  {
    LStripEmpty(line);
    if LStrip(line) != [] {
      LStripFirst(line);
      RStripNonEmpty(LStrip(line));
    }
  }

  /** Python's `s.split("\n")`: the segments between newlines, always at least one. */
  function SplitLines(s: string): (r: seq<string>)
    ensures |r| >= 1
  {
    if s == [] then [""] else Prepend(s[0], SplitLines(s[1..]))
  }

  /** The segments of `[c] + t` from those of `t`: a newline starts a new
      first segment, any other character joins the first one. */
  function Prepend(c: char, lines: seq<string>): (r: seq<string>)
    requires |lines| >= 1
    ensures |r| >= 1
  {
    if c == '\n' then [""] + lines else [[c] + lines[0]] + lines[1..]
  }

  /** No segment holds a newline. */
  lemma {:induction false} SplitLinesNoNewline(s: string)
    ensures forall k :: 0 <= k < |SplitLines(s)| ==> '\n' !in SplitLines(s)[k]
    decreases |s|
  {
    if s != [] {
      SplitLinesNoNewline(s[1..]);
    }
  }

  /** `"\n".join(lines)`. */
  function JoinLines(lines: seq<string>): string
    requires |lines| >= 1
  {
    if |lines| == 1 then lines[0] else lines[0] + "\n" + JoinLines(lines[1..])
  }

  /** Joining undoes one step of splitting. */
  lemma {:induction false} JoinPrepend(c: char, lines: seq<string>)
    requires |lines| >= 1
    ensures JoinLines(Prepend(c, lines)) == [c] + JoinLines(lines)
  {
    var r := Prepend(c, lines);
    if c == '\n' {
      assert r[1..] == lines;
    } else {
      assert r[1..] == lines[1..];
      if |lines| > 1 {
        var j := JoinLines(lines[1..]);
        assert [c] + (lines[0] + ("\n" + j)) == ([c] + lines[0]) + "\n" + j;
      }
    }
  }

  /** Splitting at newlines loses nothing: joining the segments gives the text back. */
  lemma {:induction false} SplitLinesJoin(s: string)
    ensures JoinLines(SplitLines(s)) == s
    decreases |s|
  {
    if s != [] {
      SplitLinesJoin(s[1..]);
      JoinPrepend(s[0], SplitLines(s[1..]));
      assert [s[0]] + s[1..] == s;
    }
  }

  /** Splitting `[c] + t` is one step on the segments of `t`. */
  lemma {:induction false} SplitLinesCons(c: char, t: string)
    ensures SplitLines([c] + t) == Prepend(c, SplitLines(t))
  {
    assert ([c] + t)[1..] == t;
  }

  /** A step on the front of a concatenation touches only its first part. */
  lemma {:induction false} PrependAppend(c: char, xs: seq<string>, ys: seq<string>)
    requires |xs| >= 1
    ensures Prepend(c, xs + ys) == Prepend(c, xs) + ys
  {
    if c != '\n' {
      assert (xs + ys)[0] == xs[0];
      assert (xs + ys)[1..] == xs[1..] + ys;
    }
  }

  /** Splitting text joined at a newline gives the segments of each part. */
  lemma {:induction false} SplitLinesAppend(a: string, b: string)
    ensures SplitLines(a + "\n" + b) == SplitLines(a) + SplitLines(b)
    decreases |a|
  {
    if a == [] {
      assert a + "\n" + b == ['\n'] + b;
      SplitLinesCons('\n', b);
    } else {
      var c, t := a[0], a[1..];
      SplitLinesAppend(t, b);
      assert a + "\n" + b == [c] + (t + "\n" + b);
      SplitLinesCons(c, t + "\n" + b);
      PrependAppend(c, SplitLines(t), SplitLines(b));
    }
  }
}
