/** The extractor of `render_diagrams.py`: finds every figure environment
    that holds a TikZ picture followed by a `\label{fig:...}`, and returns
    the (file name, picture code) pairs in document order.

    The source does this with one regular expression built only from lazy
    `.*?` gaps (with DOTALL) and literal delimiters. This module models that
    expression as a first-occurrence scanner, `NextFigure`, and proves that
    the scanner returns the least of all the ways the expression can match
    from a position (`IsMatch`), component by component; that least match is
    the one Python's leftmost, lazy-first matcher returns.

    The scanner is written over any delimiters with the few properties the
    proofs need (`Separated`); `Source` holds the source's own delimiters. */
module Extract {
  import opened Text

  /** The literal pieces of the figure pattern, in the order they occur:
      `\begin{figure}`, `\begin{tikzpicture}`, `\end{tikzpicture}`,
      `\label{fig:` and `\end{figure}`. */
  datatype Delimiters = Delimiters(beginFigure: string, beginTikz: string, endTikz: string,
                                   labelOpen: string, endFigure: string)

  const LabelCommand: string := @"\label{"
  const FigPrefix: string := "fig:"

  /** The delimiters of the figure pattern in `extract_tikz_figures`. */
  const Source: Delimiters :=
    Delimiters(@"\begin{figure}", @"\begin{tikzpicture}", @"\end{tikzpicture}",
               LabelCommand + FigPrefix, @"\end{figure}")

  /** What the proofs need of the delimiters: a label cannot start inside
      another label or its word, and `\end{tikzpicture}` cannot start inside
      `\begin{tikzpicture}`. */
  predicate Separated(d: Delimiters) {
    |d.labelOpen| > 0 && !IsWordChar(d.labelOpen[0]) && d.labelOpen[0] != '}'
    && (forall k :: 0 < k < |d.labelOpen| ==> d.labelOpen[k] != d.labelOpen[0])
    && |d.beginTikz| >= 2 && |d.endTikz| >= 2 && d.beginTikz[1] != d.endTikz[1]
    && (forall k :: 0 < k < |d.beginTikz| ==> d.beginTikz[k] != d.endTikz[0])
  }

  lemma {:induction false} SourceSeparated()
    ensures Separated(Source)
  {
    var lo, bt := Source.labelOpen, Source.beginTikz;
    assert lo == ['\\', 'l', 'a', 'b', 'e', 'l', '{', 'f', 'i', 'g', ':'];
    assert bt == ['\\', 'b', 'e', 'g', 'i', 'n', '{', 't', 'i', 'k', 'z', 'p', 'i', 'c', 't', 'u', 'r', 'e', '}'];
  }

  /** One figure as the extractor returns it: `(filename, tikz_code)`. */
  datatype Figure = Figure(name: string, tikzCode: string)

  /** Where the components of one match of the figure pattern start:
      `\begin{figure}`, `\begin{tikzpicture}`, `\end{tikzpicture}`,
      `\label{fig:`, the label's closing brace, and `\end{figure}`. */
  datatype Match = Match(figure: nat, tikz: nat, endTikz: nat, labelStart: nat, labelClose: nat, endFigure: nat)

  /** `\label{fig:\w+}` matches at `l`: the prefix, a non-empty run of word
      characters, then a closing brace. Because `}` is not a word character,
      the greedy `\w+` can only stop at the end of the run. */
  predicate LabelAt(d: Delimiters, s: string, l: nat) {
    OccursAt(s, l, d.labelOpen)
    && var k := WordRunEnd(s, l + |d.labelOpen|);
       k > l + |d.labelOpen| && k < |s| && s[k] == '}'
  }

  /** Every way the figure pattern can match `s` with the given component
      positions, ignoring which one the lazy quantifiers prefer. */
  predicate IsMatch(d: Delimiters, s: string, m: Match) {
    OccursAt(s, m.figure, d.beginFigure)
    && m.figure + |d.beginFigure| <= m.tikz && OccursAt(s, m.tikz, d.beginTikz)
    && m.tikz + |d.beginTikz| <= m.endTikz && OccursAt(s, m.endTikz, d.endTikz)
    && m.endTikz + |d.endTikz| <= m.labelStart && LabelAt(d, s, m.labelStart)
    && m.labelClose == WordRunEnd(s, m.labelStart + |d.labelOpen|)
    && m.labelClose + 1 <= m.endFigure && OccursAt(s, m.endFigure, d.endFigure)
  }

  /** Index just after the match, where `finditer` resumes. */
  function End(d: Delimiters, m: Match): nat {
    m.endFigure + |d.endFigure|
  }

  /** The component positions are in order and inside the text. */
  predicate InBounds(d: Delimiters, s: string, m: Match) {
    m.figure + |d.beginFigure| <= m.tikz
    && m.tikz + |d.beginTikz| <= m.endTikz
    && m.endTikz + |d.endTikz| <= m.labelStart
    && m.labelStart + |d.labelOpen| < m.labelClose
    && m.labelClose < m.endFigure
    && End(d, m) <= |s|
  }

  /** Component-wise order on matches. */
  predicate Below(a: Match, b: Match) {
    a.figure <= b.figure && a.tikz <= b.tikz && a.endTikz <= b.endTikz
    && a.labelStart <= b.labelStart && a.labelClose <= b.labelClose && a.endFigure <= b.endFigure
  }

  /** The first position at or after `from` where the label pattern matches. */
  function FindLabel(d: Delimiters, s: string, from: nat): (r: Option<nat>)
    ensures r.Some? ==> from <= r.value && LabelAt(d, s, r.value)
    decreases |s| - from
  {
    if from >= |s| then None
    else if LabelAt(d, s, from) then Some(from)
    else FindLabel(d, s, from + 1)
  }

  /** The label search finds the first label: it succeeds no later than
      any label at or after `from`. */
  lemma {:induction false} FindLabelNoLater(d: Delimiters, s: string, from: nat, k: nat)
    requires from <= k && LabelAt(d, s, k)
    ensures FindLabel(d, s, from).Some? && FindLabel(d, s, from).value <= k
    decreases k - from
  {
    if from < k && !LabelAt(d, s, from) {
      FindLabelNoLater(d, s, from + 1, k);
    }
  }

  /** The next match of the figure pattern at or after `from`: each
      component is the first occurrence after the previous one. */
  function NextFigure(d: Delimiters, s: string, from: nat): (r: Option<Match>)
    ensures r.Some? ==> from <= r.value.figure && InBounds(d, s, r.value)
  {
    match FindFrom(s, d.beginFigure, from)
    case None => None
    case Some(f) => FigureFrom(d, s, f)
  }

  /** The rest of the pattern after `\begin{figure}` at `f`. */
  function FigureFrom(d: Delimiters, s: string, f: nat): (r: Option<Match>)
    ensures r.Some? ==> f == r.value.figure && InBounds(d, s, r.value)
  {
    match FindFrom(s, d.beginTikz, f + |d.beginFigure|)
    case None => None
    case Some(t) => PictureFrom(d, s, f, t)
  }

  /** The rest of the pattern after `\begin{tikzpicture}` at `t`. */
  function PictureFrom(d: Delimiters, s: string, f: nat, t: nat): (r: Option<Match>)
    requires f + |d.beginFigure| <= t
    ensures r.Some? ==> r.value.figure == f && r.value.tikz == t && InBounds(d, s, r.value)
  {
    match FindFrom(s, d.endTikz, t + |d.beginTikz|)
    case None => None
    case Some(e) => LabelFrom(d, s, f, t, e)
  }

  /** The rest of the pattern after the picture `t`..`e`. */
  function LabelFrom(d: Delimiters, s: string, f: nat, t: nat, e: nat): (r: Option<Match>)
    requires f + |d.beginFigure| <= t && t + |d.beginTikz| <= e
    ensures r.Some? ==> r.value.figure == f && r.value.tikz == t && r.value.endTikz == e && InBounds(d, s, r.value)
  {
    match FindLabel(d, s, e + |d.endTikz|)
    case None => None
    case Some(l) =>
      var c := WordRunEnd(s, l + |d.labelOpen|);
      match FindFrom(s, d.endFigure, c + 1)
      case None => None
      case Some(g) => Some(Match(f, t, e, l, c, g))
  }

  /** The scanner's first step, once `\begin{tikzpicture}` is found at `t`. */
  lemma {:induction false} FigureFromStep(d: Delimiters, s: string, f: nat, t: nat)
    requires f + |d.beginFigure| <= t && FindFrom(s, d.beginTikz, f + |d.beginFigure|) == Some(t)
    ensures FigureFrom(d, s, f) == PictureFrom(d, s, f, t)
  {
  }

  /** The scanner's second step, once `\end{tikzpicture}` is found at `e`. */
  lemma {:induction false} PictureFromStep(d: Delimiters, s: string, f: nat, t: nat, e: nat)
    requires f + |d.beginFigure| <= t && t + |d.beginTikz| <= e
    requires FindFrom(s, d.endTikz, t + |d.beginTikz|) == Some(e)
    ensures PictureFrom(d, s, f, t) == LabelFrom(d, s, f, t, e)
  {
  }

  /** What the label step finds completes a match of the pattern. */
  lemma {:induction false} LabelFromSound(d: Delimiters, s: string, f: nat, t: nat, e: nat)
    requires OccursAt(s, f, d.beginFigure) && OccursAt(s, t, d.beginTikz) && OccursAt(s, e, d.endTikz)
    requires f + |d.beginFigure| <= t && t + |d.beginTikz| <= e
    requires LabelFrom(d, s, f, t, e).Some?
    ensures IsMatch(d, s, LabelFrom(d, s, f, t, e).value)
  {
  }

  /** What the scanner finds after `\begin{figure}` is a match of the
      pattern whose picture ends at the first `\end{tikzpicture}`. */
  lemma {:induction false} FigureFromSound(d: Delimiters, s: string, f: nat)
    requires OccursAt(s, f, d.beginFigure) && FigureFrom(d, s, f).Some?
    ensures IsMatch(d, s, FigureFrom(d, s, f).value)
    ensures var m := FigureFrom(d, s, f).value;
      forall j: nat :: m.tikz + |d.beginTikz| <= j < m.endTikz ==> !OccursAt(s, j, d.endTikz)
  {
    var t := FindFrom(s, d.beginTikz, f + |d.beginFigure|).value;
    FigureFromStep(d, s, f, t);
    var e := FindFrom(s, d.endTikz, t + |d.beginTikz|).value;
    FindFromBefore(s, d.endTikz, t + |d.beginTikz|);
    PictureFromStep(d, s, f, t, e);
    LabelFromSound(d, s, f, t, e);
  }

  /** What the scanner finds is a match of the pattern. */
  lemma {:induction false} NextFigureSound(d: Delimiters, s: string, from: nat)
    requires NextFigure(d, s, from).Some?
    ensures IsMatch(d, s, NextFigure(d, s, from).value)
  {
    FigureFromSound(d, s, FindFrom(s, d.beginFigure, from).value);
  }

  /** A label occurrence cannot start inside an earlier label occurrence
      or its word. */
  lemma {:induction false} LabelsDoNotNest(d: Delimiters, s: string, l0: nat, l1: nat)
    requires Separated(d)
    requires LabelAt(d, s, l0) && LabelAt(d, s, l1) && l0 < l1
    ensures WordRunEnd(s, l0 + |d.labelOpen|) < l1
  {
    var lo := d.labelOpen;
    OccursAtChars(s, l0, lo);
    OccursAtChars(s, l1, lo);
    assert s[l1 + 0] == lo[0];
    forall j | l0 < j < l0 + |lo|
      ensures s[j] != lo[0]
    {
      assert s[l0 + (j - l0)] == lo[j - l0];
    }
    assert l0 + |lo| <= l1;
    WordRunStops(s, l0 + |lo|, l1);
  }

  /** The label step finds a label and an `\end{figure}` no later than
      any other label `l1` and `\end{figure}` `g1` that could follow. */
  lemma {:induction false} LabelFromIsLeast(d: Delimiters, s: string, f: nat, t: nat, e: nat, l1: nat, g1: nat)
    requires Separated(d)
    requires f + |d.beginFigure| <= t && t + |d.beginTikz| <= e
    requires e + |d.endTikz| <= l1 && LabelAt(d, s, l1)
    requires WordRunEnd(s, l1 + |d.labelOpen|) + 1 <= g1 && OccursAt(s, g1, d.endFigure)
    ensures LabelFrom(d, s, f, t, e).Some?
    ensures var r := LabelFrom(d, s, f, t, e).value;
      r.labelStart <= l1 && r.labelClose <= WordRunEnd(s, l1 + |d.labelOpen|) && r.endFigure <= g1
  {
    FindLabelNoLater(d, s, e + |d.endTikz|, l1);
    var l := FindLabel(d, s, e + |d.endTikz|).value;
    var c := WordRunEnd(s, l + |d.labelOpen|);
    if l < l1 {
      LabelsDoNotNest(d, s, l, l1);
    }
    FindFromNoLater(s, d.endFigure, c + 1, g1);
    var g := FindFrom(s, d.endFigure, c + 1).value;
    LabelFromStep(d, s, f, t, e, l, g);
  }

  /** The label step, once the label is found at `l` and `\end{figure}` at `g`. */
  lemma {:induction false} LabelFromStep(d: Delimiters, s: string, f: nat, t: nat, e: nat, l: nat, g: nat)
    requires f + |d.beginFigure| <= t && t + |d.beginTikz| <= e
    requires FindLabel(d, s, e + |d.endTikz|) == Some(l)
    requires FindFrom(s, d.endFigure, WordRunEnd(s, l + |d.labelOpen|) + 1) == Some(g)
    ensures LabelFrom(d, s, f, t, e) == Some(Match(f, t, e, l, WordRunEnd(s, l + |d.labelOpen|), g))
  {
  }

  /** The picture steps of the scanner, given a picture `t1`..`e1` that
      could follow `\begin{figure}` at `f`: both searches succeed, no later
      than `t1` and `e1`, and the scanner continues with the label step. */
  lemma {:induction false} FigureSteps(d: Delimiters, s: string, f: nat, t1: nat, e1: nat) returns (t: nat, e: nat)
    requires f + |d.beginFigure| <= t1 && t1 + |d.beginTikz| <= e1
    requires OccursAt(s, t1, d.beginTikz) && OccursAt(s, e1, d.endTikz)
    ensures t <= t1 && e <= e1 && f + |d.beginFigure| <= t && t + |d.beginTikz| <= e
    ensures FigureFrom(d, s, f) == LabelFrom(d, s, f, t, e)
  {
    FindFromNoLater(s, d.beginTikz, f + |d.beginFigure|, t1);
    t := FindFrom(s, d.beginTikz, f + |d.beginFigure|).value;
    FigureFromStep(d, s, f, t);
    FindFromNoLater(s, d.endTikz, t + |d.beginTikz|, e1);
    e := FindFrom(s, d.endTikz, t + |d.beginTikz|).value;
    PictureFromStep(d, s, f, t, e);
  }

  /** The steps after `\begin{figure}` find each component no later than
      the corresponding component of any match starting there or later. */
  lemma {:induction false} FigureFromIsLeast(d: Delimiters, s: string, f: nat, m: Match)
    requires Separated(d)
    requires f <= m.figure && IsMatch(d, s, m)
    ensures FigureFrom(d, s, f).Some?
    ensures var r := FigureFrom(d, s, f).value;
      r.tikz <= m.tikz && r.endTikz <= m.endTikz && r.labelStart <= m.labelStart
      && r.labelClose <= m.labelClose && r.endFigure <= m.endFigure
  {
    var t, e := FigureSteps(d, s, f, m.tikz, m.endTikz);
    LabelFromIsLeast(d, s, f, t, e, m.labelStart, m.endFigure);
  }

  /** The scanner finds a match whenever the pattern can match at all, and
      what it finds lies component-wise at or before any other match. So
      the scanner returns exactly the leftmost, laziest regex match, and
      `None` means the regex has no further match. */
  lemma {:induction false} NextFigureIsLeast(d: Delimiters, s: string, from: nat, m: Match)
    requires Separated(d)
    requires IsMatch(d, s, m) && from <= m.figure
    ensures NextFigure(d, s, from).Some? && Below(NextFigure(d, s, from).value, m)
  {
    FindFromNoLater(s, d.beginFigure, from, m.figure);
    var f := FindFrom(s, d.beginFigure, from).value;
    FigureFromIsLeast(d, s, f, m);
  }

  /** When the scanner finds nothing, no match of the pattern starts at or
      after `from`. */
  lemma {:induction false} NoNextFigureMeansNoMatch(d: Delimiters, s: string, from: nat)
    requires Separated(d)
    requires NextFigure(d, s, from).None?
    ensures forall m :: IsMatch(d, s, m) ==> m.figure < from
  {
    forall m | IsMatch(d, s, m)
      ensures m.figure < from
    {
      if from <= m.figure {
        NextFigureIsLeast(d, s, from, m);
      }
    }
  }

  /** All matches `finditer` yields from `from` on, in order. */
  function MatchesFrom(d: Delimiters, s: string, from: nat): (r: seq<Match>)
    ensures forall i :: 0 <= i < |r| ==> from <= r[i].figure && InBounds(d, s, r[i])
    decreases |s| - from
  {
    match NextFigure(d, s, from)
    case None => []
    case Some(m) =>
      [m] + MatchesFrom(d, s, End(d, m))
  }

  /** Every listed match is what the steps after its `\begin{figure}` find. */
  lemma {:induction false} MatchesAreScanned(d: Delimiters, s: string, from: nat, i: nat)
    requires i < |MatchesFrom(d, s, from)|
    ensures var m := MatchesFrom(d, s, from)[i];
      OccursAt(s, m.figure, d.beginFigure) && FigureFrom(d, s, m.figure) == Some(m)
    decreases |s| - from
  {
    var f := FindFrom(s, d.beginFigure, from).value;
    var m := FigureFrom(d, s, f).value;
    if i > 0 {
      MatchesAreScanned(d, s, End(d, m), i - 1);
    }
  }

  /** Every listed match is a match of the pattern whose picture ends at
      the first `\end{tikzpicture}`. */
  lemma {:induction false} MatchesAreMatches(d: Delimiters, s: string, from: nat, i: nat)
    requires i < |MatchesFrom(d, s, from)|
    ensures IsMatch(d, s, MatchesFrom(d, s, from)[i])
    ensures var m := MatchesFrom(d, s, from)[i];
      forall j: nat :: m.tikz + |d.beginTikz| <= j < m.endTikz ==> !OccursAt(s, j, d.endTikz)
  {
    var m := MatchesFrom(d, s, from)[i];
    MatchesAreScanned(d, s, from, i);
    FigureFromSound(d, s, m.figure);
  }

  /** Every listed match ends its label where the label's word ends. */
  lemma {:induction false} MatchesHaveLabels(d: Delimiters, s: string, from: nat, i: nat)
    requires i < |MatchesFrom(d, s, from)|
    ensures var m := MatchesFrom(d, s, from)[i];
      LabelAt(d, s, m.labelStart) && m.labelClose == WordRunEnd(s, m.labelStart + |d.labelOpen|)
  {
    var m := MatchesFrom(d, s, from)[i];
    MatchesAreMatches(d, s, from, i);
    assert IsMatch(d, s, m);
  }

  /** Matches do not overlap and come in document order. */
  lemma {:induction false} MatchesInOrder(d: Delimiters, s: string, from: nat)
    ensures var ms := MatchesFrom(d, s, from);
      forall i, j :: 0 <= i < j < |ms| ==> End(d, ms[i]) <= ms[j].figure
    decreases |s| - from
  {
    var ms := MatchesFrom(d, s, from);
    if ms != [] {
      var m := ms[0];
      MatchesInOrder(d, s, End(d, m));
      assert ms[1..] == MatchesFrom(d, s, End(d, m));
    }
  }

  /** No more matches than `\begin{figure}` occurrences. */
  lemma {:induction false} MatchesAtMostFigures(d: Delimiters, s: string, from: nat)
    ensures |MatchesFrom(d, s, from)| <= CountFrom(s, d.beginFigure, from)
    decreases |s| - from
  {
    var ms := MatchesFrom(d, s, from);
    if ms != [] {
      var m := ms[0];
      MatchesAreScanned(d, s, from, 0);
      MatchesAtMostFigures(d, s, End(d, m));
      CountFromSplit(s, d.beginFigure, from, m.figure, End(d, m));
    }
  }

  /** Where `finditer` resumes before the `i`-th listed match: `from`
      for the first, just after the previous match for the others. */
  function ResumeAt(d: Delimiters, from: nat, ms: seq<Match>, i: nat): nat
    requires i <= |ms|
  {
    if i == 0 then from else End(d, ms[i - 1])
  }

  /** The list misses nothing: from each point where `finditer` resumes,
      the next listed match lies component-wise at or before every match of
      the pattern starting there or later, and after the last listed match
      the pattern no longer matches. */
  lemma {:induction false} MatchesComplete(d: Delimiters, s: string, from: nat, i: nat, m: Match)
    requires Separated(d)
    requires i <= |MatchesFrom(d, s, from)| && IsMatch(d, s, m)
    requires ResumeAt(d, from, MatchesFrom(d, s, from), i) <= m.figure
    ensures i < |MatchesFrom(d, s, from)| && Below(MatchesFrom(d, s, from)[i], m)
  {
    var ms := MatchesFrom(d, s, from);
    var r := ResumeAt(d, from, ms, i);
    MatchesSuffix(d, s, from, i);
    NextFigureIsLeast(d, s, r, m);
    assert ms[i..][0] == ms[i];
  }

  /** Resuming where `finditer` resumes before the `i`-th match lists the
      matches from the `i`-th on. */
  lemma {:induction false} MatchesSuffix(d: Delimiters, s: string, from: nat, i: nat)
    requires i <= |MatchesFrom(d, s, from)|
    ensures MatchesFrom(d, s, ResumeAt(d, from, MatchesFrom(d, s, from), i)) == MatchesFrom(d, s, from)[i..]
    decreases i
  {
    var ms := MatchesFrom(d, s, from);
    if i == 0 {
      assert ms[0..] == ms;
    } else {
      MatchesFromCons(d, s, from);
      var m0 := NextFigure(d, s, from).value;
      var rest := MatchesFrom(d, s, End(d, m0));
      ResumeAtCons(d, from, m0, rest, i);
      MatchesSuffix(d, s, End(d, m0), i - 1);
    }
  }

  /** Resuming inside the tail of a list is resuming one match later in
      the whole list. */
  lemma ResumeAtCons(d: Delimiters, from: nat, m0: Match, rest: seq<Match>, i: nat)
    requires 1 <= i <= |rest| + 1
    ensures ResumeAt(d, End(d, m0), rest, i - 1) == ResumeAt(d, from, [m0] + rest, i)
    ensures ([m0] + rest)[i..] == rest[i - 1..]
  {
  }

  /** A non-empty list starts with what the scanner finds next. */
  lemma MatchesFromCons(d: Delimiters, s: string, from: nat)
    requires |MatchesFrom(d, s, from)| > 0
    ensures NextFigure(d, s, from).Some?
    ensures var m0 := NextFigure(d, s, from).value;
      MatchesFrom(d, s, from) == [m0] + MatchesFrom(d, s, End(d, m0))
  {
  }

  // ---------------------------------------------------------------------
  // The figures of the source's pattern.

  /** The figure a match yields: the name is the label without `fig:`, the
      code runs from `\begin{tikzpicture}` through `\end{tikzpicture}`. */
  function FigureOf(d: Delimiters, s: string, m: Match): Figure
    requires InBounds(d, s, m)
  {
    Figure(s[m.labelStart + |d.labelOpen|..m.labelClose], s[m.tikz..m.endTikz + |d.endTikz|])
  }

  /** The figures of a list of matches. */
  function FiguresOf(d: Delimiters, s: string, ms: seq<Match>): (r: seq<Figure>)
    requires forall i :: 0 <= i < |ms| ==> InBounds(d, s, ms[i])
    ensures |r| == |ms|
    ensures forall i :: 0 <= i < |ms| ==> r[i] == FigureOf(d, s, ms[i])
  {
    if ms == [] then [] else FiguresOf(d, s, ms[..|ms| - 1]) + [FigureOf(d, s, ms[|ms| - 1])]
  }

  /** What `extract_tikz_figures` returns for a document. */
  function Figures(s: string): (r: seq<Figure>)
    ensures |r| <= CountFrom(s, Source.beginFigure, 0)
  {
    MatchesAtMostFigures(Source, s, 0);
    FiguresOf(Source, s, MatchesFrom(Source, s, 0))
  }

  /** A name is a non-empty run of word characters. */
  predicate IsName(name: string) {
    |name| > 0 && forall i :: 0 <= i < |name| ==> IsWordChar(name[i])
  }

  /** Picture code opens with `\begin{tikzpicture}`, closes with
      `\end{tikzpicture}`, and holds no earlier `\end{tikzpicture}`. */
  predicate IsPicture(d: Delimiters, code: string) {
    |code| >= |d.beginTikz| + |d.endTikz|
    && OccursAt(code, 0, d.beginTikz)
    && OccursAt(code, |code| - |d.endTikz|, d.endTikz)
    && forall j: nat :: j < |code| - |d.endTikz| ==> !OccursAt(code, j, d.endTikz)
  }

  /** The file name the source derives from the captured label
      `fig:<word>`: `captured.replace("fig:", "").replace("_", "_")` is the word. */
  lemma {:induction false} NameFromLabel(captured: string)
    requires |captured| > |FigPrefix| && OccursAt(captured, 0, FigPrefix)
    requires forall i :: |FigPrefix| <= i < |captured| ==> IsWordChar(captured[i])
    ensures ReplaceAll(ReplaceAll(captured, FigPrefix, ""), "_", "_") == captured[|FigPrefix|..]
  {
    var w := captured[|FigPrefix|..];
    forall i: nat | i <= |w|
      ensures !OccursAt(w, i, FigPrefix)
    {
      if i + |FigPrefix| <= |w| {
        assert w[i + 3] == captured[|FigPrefix| + i + 3];
        assert FigPrefix[3] == ':';
      }
    }
    ReplaceAllAbsent(w, FigPrefix, "");
    assert ReplaceAll(captured, FigPrefix, "") == ReplaceAll(w, FigPrefix, "");
    ReplaceAllSelf(w, "_");
  }

  /** For a label of the source's pattern, the source's file name
      derivation yields the word after `fig:`. */
  lemma {:induction false} FileNameOfLabel(s: string, l: nat, c: nat)
    requires LabelAt(Source, s, l) && c == WordRunEnd(s, l + |Source.labelOpen|)
    ensures ReplaceAll(ReplaceAll(s[l + |LabelCommand|..c], FigPrefix, ""), "_", "_") == s[l + |Source.labelOpen|..c]
  {
    var captured := s[l + |LabelCommand|..c];
    OccursAtChars(s, l, Source.labelOpen);
    forall k | 0 <= k < |FigPrefix|
      ensures captured[k] == FigPrefix[k]
    {
      assert Source.labelOpen[|LabelCommand| + k] == FigPrefix[k];
      assert s[l + (|LabelCommand| + k)] == Source.labelOpen[|LabelCommand| + k];
    }
    forall i | |FigPrefix| <= i < |captured|
      ensures IsWordChar(captured[i])
    {
      WordRunIsWords(s, l + |Source.labelOpen|, l + |LabelCommand| + i);
    }
    assert captured[|FigPrefix|..] == s[l + |Source.labelOpen|..c];
    NameFromLabel(captured);
  }

  /** No `\end{tikzpicture}` starts inside a `\begin{tikzpicture}`. */
  lemma {:induction false} NoEndTikzInsideBegin(d: Delimiters, s: string, t: nat, j: nat)
    requires Separated(d)
    requires OccursAt(s, t, d.beginTikz) && t <= j < t + |d.beginTikz|
    ensures !OccursAt(s, j, d.endTikz)
  {
    var bt, et := d.beginTikz, d.endTikz;
    var k := j - t;
    OccursAtChars(s, t, bt);
    OccursAtChars(s, j, et);
    assert s[t + k] == bt[k];
    if k == 0 {
      assert s[t + 1] == bt[1];
      assert s[j + 1] != et[1];
    } else {
      assert s[j + 0] != et[0];
    }
  }

  /** The picture code from `\begin{tikzpicture}` at `t` through the first
      `\end{tikzpicture}` after it, at `e`, is well formed. */
  lemma {:induction false} PictureBetween(d: Delimiters, s: string, t: nat, e: nat)
    requires Separated(d)
    requires OccursAt(s, t, d.beginTikz) && t + |d.beginTikz| <= e && OccursAt(s, e, d.endTikz)
    requires forall j: nat :: t + |d.beginTikz| <= j < e ==> !OccursAt(s, j, d.endTikz)
    ensures IsPicture(d, s[t..e + |d.endTikz|])
  {
    var code := s[t..e + |d.endTikz|];
    OccursAtSlice(s, t, e + |d.endTikz|, 0, d.beginTikz);
    OccursAtSlice(s, t, e + |d.endTikz|, e - t, d.endTikz);
    forall j: nat | j < |code| - |d.endTikz|
      ensures !OccursAt(code, j, d.endTikz)
    {
      OccursAtSlice(s, t, e + |d.endTikz|, j, d.endTikz);
      if j < |d.beginTikz| {
        NoEndTikzInsideBegin(d, s, t, t + j);
      }
    }
  }

  /** The name of a match's figure is a non-empty run of word characters. */
  lemma {:induction false} FigureNameIsName(d: Delimiters, s: string, m: Match)
    requires IsMatch(d, s, m)
    ensures InBounds(d, s, m) && IsName(FigureOf(d, s, m).name)
  {
    var w := m.labelStart + |d.labelOpen|;
    var name := s[w..m.labelClose];
    forall i | 0 <= i < |name|
      ensures IsWordChar(name[i])
    {
      WordRunIsWords(s, w, w + i);
    }
  }

  /** The code of a match's figure is well formed when its picture ends at
      the first `\end{tikzpicture}`. */
  lemma {:induction false} FigurePictureIsPicture(d: Delimiters, s: string, m: Match)
    requires Separated(d) && IsMatch(d, s, m)
    requires forall j: nat :: m.tikz + |d.beginTikz| <= j < m.endTikz ==> !OccursAt(s, j, d.endTikz)
    ensures InBounds(d, s, m) && IsPicture(d, FigureOf(d, s, m).tikzCode)
  {
    PictureBetween(d, s, m.tikz, m.endTikz);
  }

  /** Every extracted figure has a word-character name and well-formed
      picture code. */
  lemma {:induction false} FiguresWellFormed(s: string)
    ensures forall fig :: fig in Figures(s) ==> IsName(fig.name) && IsPicture(Source, fig.tikzCode)
  {
    var ms := MatchesFrom(Source, s, 0);
    SourceSeparated();
    forall i | 0 <= i < |ms|
      ensures IsName(Figures(s)[i].name) && IsPicture(Source, Figures(s)[i].tikzCode)
    {
      MatchesAreMatches(Source, s, 0, i);
      FigureNameIsName(Source, s, ms[i]);
      FigurePictureIsPicture(Source, s, ms[i]);
    }
  }

  /** A document without `\begin{figure}`, or without `\begin{tikzpicture}`,
      yields no figures. */
  lemma {:induction false} NoFigureEnvironmentNoFigures(s: string)
    requires Absent(s, Source.beginFigure) || Absent(s, Source.beginTikz)
    ensures Figures(s) == []
  {
    if MatchesFrom(Source, s, 0) != [] {
      MatchesAreMatches(Source, s, 0, 0);
    }
  }

  /** The file name the source derives for a match, paired with the
      match's picture code, is the figure of that match. */
  lemma {:induction false} FigureOfMatch(s: string, m: Match, name: string, tikzCode: string)
    requires InBounds(Source, s, m) && LabelAt(Source, s, m.labelStart)
    requires m.labelClose == WordRunEnd(s, m.labelStart + |Source.labelOpen|)
    requires name == ReplaceAll(ReplaceAll(s[m.labelStart + |LabelCommand|..m.labelClose], FigPrefix, ""), "_", "_")
    requires tikzCode == s[m.tikz..m.endTikz + |Source.endTikz|]
    ensures Figure(name, tikzCode) == FigureOf(Source, s, m)
  {
    FileNameOfLabel(s, m.labelStart, m.labelClose);
  }

  /** The figures of one more match. */
  lemma {:induction false} FiguresOfSnoc(d: Delimiters, s: string, ms: seq<Match>, n: nat)
    requires n < |ms| && forall i :: 0 <= i < |ms| ==> InBounds(d, s, ms[i])
    ensures FiguresOf(d, s, ms[..n + 1]) == FiguresOf(d, s, ms[..n]) + [FigureOf(d, s, ms[n])]
  {
    assert ms[..n + 1][..n] == ms[..n];
  }

  /** The loop body of `extract_tikz_figures` for one match: the file
      name derived from the label with the source's two `str.replace`
      calls, paired with the picture code, is the match's figure. */
  method ExtractFigure(content: string, m: Match) returns (figure: Figure)
    requires InBounds(Source, content, m) && LabelAt(Source, content, m.labelStart)
    requires m.labelClose == WordRunEnd(content, m.labelStart + |Source.labelOpen|)
    ensures figure == FigureOf(Source, content, m)
  {
    var tikzCode := content[m.tikz..m.endTikz + |Source.endTikz|];
    var captured := content[m.labelStart + |LabelCommand|..m.labelClose];
    var filename := ReplaceAll(ReplaceAll(captured, FigPrefix, ""), "_", "_");
    FigureOfMatch(content, m, filename, tikzCode);
    figure := Figure(filename, tikzCode);
  }

  /** `extract_tikz_figures`: walks the matches `finditer` yields and
      appends each one's figure. */
  method ExtractTikzFigures(content: string) returns (figures: seq<Figure>)
    ensures figures == Figures(content)
    ensures forall fig :: fig in figures ==> IsName(fig.name) && IsPicture(Source, fig.tikzCode)
  {
    var matches := MatchesFrom(Source, content, 0);
    figures := [];
    for i := 0 to |matches|
      invariant figures == FiguresOf(Source, content, matches[..i])
    {
      MatchesHaveLabels(Source, content, 0, i);
      var figure := ExtractFigure(content, matches[i]);
      FiguresOfSnoc(Source, content, matches, i);
      figures := figures + [figure];
    }
    assert matches[..|matches|] == matches;
    FiguresWellFormed(content);
  }
}
