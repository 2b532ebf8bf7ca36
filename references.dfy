/** The cleaning of picture code in `render_tikz_to_png`: the picture is
    compiled on its own, without the thesis's equation numbers, so its
    `\eqref{...}` cross-references are removed. Two known phrases lose
    their `via Eq.~` lead-in with them; every other reference is deleted
    alone. */
module References {
  import opened Text
  import Extract

  const EqrefOpen: string := @"\eqref{"

  const LeadIn: string := "via Eq.~"

  /** The phrase `via Eq.~\eqref{<key>}`. */
  function Phrase(key: string): string {
    LeadIn + EqrefOpen + key + "}"
  }

  const StandardKey: string := "eq:radius_standard"
  const GradientKey: string := "eq:radius_gradient"

  /** The two phrases removed whole, before the generic deletion. */
  const StandardRef: string := Phrase(StandardKey)
  const GradientRef: string := Phrase(GradientKey)

  /** The pattern `\\eqref\{[^}]*\}` matches at the start of `t`: the
      opening `\eqref{` and, somewhere after it, a closing brace. */
  predicate RefStart(t: string) {
    OccursAt(t, 0, EqrefOpen) && '}' in t[|EqrefOpen|..]
  }

  /** The pattern matches at index `i` of `s`. */
  predicate RefAt(s: string, i: nat) {
    i <= |s| && RefStart(s[i..])
  }

  /** `s` holds no complete reference. */
  predicate NoRef(s: string) {
    forall i: nat | i <= |s| :: !RefAt(s, i)
  }

  /** The first closing brace at or after `k`: where `[^}]*\}` stops. */
  function CloseBrace(t: string, k: nat): (c: nat)
    requires k <= |t| && '}' in t[k..]
    ensures k <= c < |t| && t[c] == '}'
    decreases |t| - k
  {
    if t[k] == '}' then k else CloseBrace(t, k + 1)
  }

  /** The closing brace found is the first one. */
  lemma {:induction false} CloseBraceFirst(t: string, k: nat, c: nat)
    requires k <= c < |t| && t[c] == '}'
    requires forall j :: k <= j < c ==> t[j] != '}'
    ensures '}' in t[k..] && CloseBrace(t, k) == c
    decreases c - k
  {
    assert t[k..][c - k] == '}';
    if k < c {
      CloseBraceFirst(t, k + 1, c);
    }
  }

  /** Index just past the reference that starts `t`. */
  function RefEnd(t: string): nat
    requires RefStart(t)
  {
    CloseBrace(t, |EqrefOpen|) + 1
  }

  /** `re.sub(r"\\eqref\{[^}]*\}", "", s)`: scans left to right, deletes
      each match and resumes after it. The output is never longer. */
  function StripRefs(s: string): (r: string)
    ensures |r| <= |s|
    decreases |s|
  {
    if RefStart(s) then StripRefs(s[RefEnd(s)..])
    else if s == [] then []
    else [s[0]] + StripRefs(s[1..])
  }

  /** A reference at `j` of `s[1..]` is one at `j + 1` of `s`. */
  lemma {:induction false} RefAtTail(s: string, j: nat)
    requires |s| > 0
    ensures RefAt(s[1..], j) <==> RefAt(s, j + 1)
  {
    if j + 1 <= |s| {
      assert s[1..][j..] == s[j + 1..];
    }
  }

  /** Text before the first reference is copied unchanged. */
  lemma {:induction false} StripRefsSkips(s: string, i: nat)
    requires i <= |s|
    requires forall j: nat :: j < i ==> !RefAt(s, j)
    ensures StripRefs(s) == s[..i] + StripRefs(s[i..])
    decreases i
  {
    if i == 0 {
      assert s[0..] == s;
    } else {
      var t := s[1..];
      assert s[0..] == s;
      assert !RefAt(s, 0);
      forall j: nat | j < i - 1
        ensures !RefAt(t, j)
      {
        RefAtTail(s, j);
      }
      StripRefsSkips(t, i - 1);
      var rest := StripRefs(s[i..]);
      assert t[i - 1..] == s[i..];
      calc {
        StripRefs(s);
        [s[0]] + StripRefs(t);
        [s[0]] + (t[..i - 1] + rest);
        { AppendAssoc([s[0]], t[..i - 1], rest); }
        ([s[0]] + t[..i - 1]) + rest;
        { ConsTake(s, i); }
        s[..i] + rest;
      }
    }
  }

  /** The first reference is deleted and the scan resumes after it. */
  lemma {:induction false} StripRefsAt(s: string, i: nat)
    requires RefAt(s, i)
    requires forall j: nat :: j < i ==> !RefAt(s, j)
    ensures StripRefs(s) == s[..i] + StripRefs(s[i + RefEnd(s[i..])..])
  {
    StripRefsSkips(s, i);
    var z := s[i..];
    assert z[RefEnd(z)..] == s[i + RefEnd(z)..];
  }

  /** A text with no complete reference comes out unchanged. */
  lemma {:induction false} StripRefsNoRef(s: string)
    requires NoRef(s)
    ensures StripRefs(s) == s
  {
    StripRefsSkips(s, |s|);
    assert s[..|s|] == s;
    assert s[|s|..] == [];
  }

  /** A text with a complete reference comes out strictly shorter. */
  lemma {:induction false} StripRefsShorter(s: string, i: nat)
    requires RefAt(s, i)
    ensures |StripRefs(s)| < |s|
    decreases i
  {
    if !RefStart(s) {
      assert i != 0 by { assert s[0..] == s; }
      RefAtTail(s, i - 1);
      StripRefsShorter(s[1..], i - 1);
    }
  }

  /** The deletion changes the text exactly when the text holds a
      complete reference. */
  lemma {:induction false} StripRefsIdentity(s: string)
    ensures StripRefs(s) == s <==> NoRef(s)
  {
    if NoRef(s) {
      StripRefsNoRef(s);
    } else {
      var i: nat :| RefAt(s, i);
      StripRefsShorter(s, i);
    }
  }

  /** Every index before the first closing brace at or after `k` holds
      some other character. */
  lemma {:induction false} CloseBraceNone(t: string, k: nat, j: nat)
    requires k <= |t| && '}' in t[k..]
    requires k <= j < CloseBrace(t, k)
    ensures t[j] != '}'
    decreases |t| - k
  {
    if k < j {
      assert t[k] != '}';
      assert t[k + 1..][CloseBrace(t, k) - k - 1] == '}';
      CloseBraceNone(t, k + 1, j);
    }
  }

  /** A reference starting inside the one that opens `s` closes at the
      same brace: `\eqref{` holds no `}`, so it cannot reach past it. */
  lemma {:induction false} RefInsideRef(s: string, i: nat)
    requires RefStart(s) && RefAt(s, i) && i < RefEnd(s)
    ensures i + RefEnd(s[i..]) == RefEnd(s)
  {
    var c := CloseBrace(s, |EqrefOpen|);
    var t := s[i..];
    OccursAtChars(t, 0, EqrefOpen);
    forall j | |EqrefOpen| <= j < c - i
      ensures t[j] != '}'
    {
      CloseBraceNone(s, |EqrefOpen|, i + j);
    }
    CloseBraceFirst(t, |EqrefOpen|, c - i);
  }

  /** Index `k` of `s` lies inside a match of the pattern: a reference
      starts at or before it and closes after it. */
  predicate InRef(s: string, k: nat) {
    exists i: nat | i <= k :: RefAt(s, i) && k < i + RefEnd(s[i..])
  }

  /** For each index of `s`, whether it lies inside a match. */
  function Covered(s: string): (c: seq<bool>)
    ensures |c| == |s|
  {
    seq(|s|, (j: int) requires 0 <= j => InRef(s, j))
  }

  /** The characters of `s` from index `k` on whose flag in `out` is not set. */
  function Kept(s: string, out: seq<bool>, k: nat): string
    requires |out| == |s|
    decreases |s| - k
  {
    if k >= |s| then []
    else (if out[k] then [] else [s[k]]) + Kept(s, out, k + 1)
  }

  /** Flagged characters contribute nothing. */
  lemma {:induction false} KeptSkips(s: string, out: seq<bool>, k: nat, e: nat)
    requires |out| == |s| && k <= e <= |s|
    requires forall j :: k <= j < e ==> out[j]
    ensures Kept(s, out, k) == Kept(s, out, e)
    decreases e - k
  {
    if k < e {
      KeptSkips(s, out, k + 1, e);
    }
  }

  /** The characters kept from `k` on, read in `s[d..]` instead of `s`. */
  lemma {:induction false} KeptShift(s: string, out: seq<bool>, d: nat, k: nat)
    requires |out| == |s| && d <= k <= |s|
    ensures Kept(s, out, k) == Kept(s[d..], out[d..], k - d)
    decreases |s| - k
  {
    if k < |s| {
      assert s[d..][k - d] == s[k] && out[d..][k - d] == out[k];
      KeptShift(s, out, d, k + 1);
    }
  }

  /** A match of `s[d..]` is a match of `s`, shifted by `d`. */
  lemma {:induction false} InRefShiftIn(s: string, d: nat, k: nat)
    requires d <= k <= |s| && InRef(s[d..], k - d)
    ensures InRef(s, k)
  {
    var t := s[d..];
    var i: nat :| i <= k - d && RefAt(t, i) && k - d < i + RefEnd(t[i..]);
    assert t[i..] == s[i + d..];
    assert RefAt(s, i + d);
  }

  /** When no match before `d` reaches past `d`, a match of `s` covering
      an index from `d` on is a match of `s[d..]`. */
  lemma {:induction false} InRefShiftOut(s: string, d: nat, k: nat)
    requires d <= k <= |s| && InRef(s, k)
    requires forall i: nat :: i < d && RefAt(s, i) ==> i + RefEnd(s[i..]) <= d
    ensures InRef(s[d..], k - d)
  {
    var t := s[d..];
    var i: nat :| i <= k && RefAt(s, i) && k < i + RefEnd(s[i..]);
    assert t[i - d..] == s[i..];
    assert RefAt(t, i - d);
  }

  /** The flags of `s` from `d` on are those of `s[d..]` when no match
      before `d` reaches past `d`. */
  lemma {:induction false} CoveredShift(s: string, d: nat)
    requires d <= |s|
    requires forall i: nat :: i < d && RefAt(s, i) ==> i + RefEnd(s[i..]) <= d
    ensures Covered(s)[d..] == Covered(s[d..])
  {
    var c, ct := Covered(s), Covered(s[d..]);
    forall j | 0 <= j < |s| - d
      ensures c[d + j] == ct[j]
    {
      InRefShift(s, d, d + j);
    }
    assert c[d..] == ct;
  }

  /** Both directions of the shift, one index at a time. */
  lemma {:induction false} InRefShift(s: string, d: nat, k: nat)
    requires d <= k <= |s|
    requires forall i: nat :: i < d && RefAt(s, i) ==> i + RefEnd(s[i..]) <= d
    ensures InRef(s, k) <==> InRef(s[d..], k - d)
  {
    if InRef(s, k) {
      InRefShiftOut(s, d, k);
    }
    if InRef(s[d..], k - d) {
      InRefShiftIn(s, d, k);
    }
  }

  /** The deletion keeps exactly the characters of `s` that lie inside no
      complete `\eqref{...}`, in order: no match of the pattern survives,
      and nothing outside one is lost. */
  lemma {:induction false} StripRefsKeepsOutside(s: string)
    ensures StripRefs(s) == Kept(s, Covered(s), 0)
    decreases |s|
  {
    var c := Covered(s);
    assert s[0..] == s;
    if RefStart(s) {
      var e := RefEnd(s);
      forall j | 0 <= j < e
        ensures c[j]
      {
        assert RefAt(s, 0);
      }
      KeptSkips(s, c, 0, e);
      forall i: nat | i < e && RefAt(s, i)
        ensures i + RefEnd(s[i..]) <= e
      {
        RefInsideRef(s, i);
      }
      CoveredShift(s, e);
      KeptShift(s, c, e, e);
      StripRefsKeepsOutside(s[e..]);
    } else if s != [] {
      assert !c[0];
      CoveredShift(s, 1);
      KeptShift(s, c, 1, 1);
      StripRefsKeepsOutside(s[1..]);
    }
  }

  /** Every reference starts with a backslash, followed by `eq`. */
  lemma {:induction false} RefAtBackslash(s: string, i: nat)
    requires RefAt(s, i)
    ensures i + 2 < |s| && s[i] == '\\' && s[i + 1] == 'e' && s[i + 2] == 'q'
  {
    OccursAtChars(s[i..], 0, EqrefOpen);
    assert s[i..][0] == EqrefOpen[0];
    assert s[i..][1] == EqrefOpen[1];
    assert s[i..][2] == EqrefOpen[2];
  }

  /** Text without a backslash holds no reference. */
  lemma {:induction false} NoBackslashNoRef(s: string)
    requires '\\' !in s
    ensures NoRef(s)
  {
    forall i: nat | i <= |s| && RefAt(s, i)
      ensures false
    {
      RefAtBackslash(s, i);
    }
  }

  /** A reference `\eqref{x}` with no reference starting before it in `u`
      is deleted alone: `u` is kept and the scan resumes after it. */
  lemma {:induction false} StripRefsBlock(u: string, x: string, v: string)
    requires '}' !in x
    requires forall j: nat :: j < |u| ==> !RefAt(u + EqrefOpen + x + "}" + v, j)
    ensures StripRefs(u + EqrefOpen + x + "}" + v) == u + StripRefs(v)
  {
    var s := u + EqrefOpen + x + "}" + v;
    var z := s[|u|..];
    assert z == EqrefOpen + x + "}" + v;
    OccursAtChars(z, 0, EqrefOpen);
    var c := |EqrefOpen| + |x|;
    forall j | |EqrefOpen| <= j < c
      ensures z[j] != '}'
    {
      assert z[j] == x[j - |EqrefOpen|];
    }
    CloseBraceFirst(z, |EqrefOpen|, c);
    assert RefAt(s, |u|);
    StripRefsAt(s, |u|);
    assert s[..|u|] == u;
    assert s[|u| + c + 1..] == v;
  }

  /** A lone reference is deleted whole. */
  lemma {:induction false} StripRefsLone(y: string)
    requires '}' !in y
    ensures StripRefs(EqrefOpen + y + "}") == []
  {
    StripRefsBlock([], y, []);
    assert [] + EqrefOpen + y + "}" + [] == EqrefOpen + y + "}";
  }

  /** No reference starts inside the leading `\eq`. */
  lemma {:induction false} NoRefBeforeSplice(x: string, w: string)
    ensures forall j: nat :: j < 3 ==> !RefAt(@"\eq" + EqrefOpen + x + "}" + w, j)
  {
    var u := @"\eq";
    var s := u + EqrefOpen + x + "}" + w;
    forall j: nat | j < 3
      ensures !RefAt(s, j)
    {
      if j == 0 {
        OccursAtChars(s, 0, EqrefOpen);
        assert s[0..] == s && s[3] == EqrefOpen[0] != EqrefOpen[3];
      } else {
        assert s[j] == u[j] != '\\';
        if RefAt(s, j) {
          RefAtBackslash(s, j);
        }
      }
    }
  }

  /** One pass can splice a new reference together out of the pieces
      around a deleted one (`\eq\eqref{a}ref{b}` becomes `\eqref{b}`),
      and a second pass deletes that one too: the deletion is not
      idempotent. */
  lemma {:induction false} StripRefsNotIdempotent(x: string, y: string)
    requires '}' !in x && '}' !in y && '\\' !in y
    ensures StripRefs(@"\eq" + EqrefOpen + x + "}" + ("ref{" + y + "}")) == EqrefOpen + y + "}"
    ensures StripRefs(StripRefs(@"\eq" + EqrefOpen + x + "}" + ("ref{" + y + "}"))) == []
  {
    var u, w := @"\eq", "ref{" + y + "}";
    var s := u + EqrefOpen + x + "}" + w;
    NoRefBeforeSplice(x, w);
    StripRefsBlock(u, x, w);
    NoBackslashNoRef(w);
    StripRefsNoRef(w);
    assert u + "ref{" == EqrefOpen;
    assert u + ("ref{" + y + "}") == EqrefOpen + y + "}";
    StripRefsLone(y);
  }

  /** `clean_code` after the two `str.replace` calls and the `re.sub`. */
  function CleanCode(code: string): (r: string)
    ensures |r| <= |code|
  {
    ReplaceAllShrinks(code, StandardRef, "");
    ReplaceAllShrinks(ReplaceAll(code, StandardRef, ""), GradientRef, "");
    StripRefs(ReplaceAll(ReplaceAll(code, StandardRef, ""), GradientRef, ""))
  }

  /** Deleting an occurrence shortens the text. */
  lemma {:induction false} ReplaceAllDeletes(s: string, p: string, k: nat)
    requires |p| > 0 && OccursAt(s, k, p)
    ensures |ReplaceAll(s, p, "")| < |s|
  {
    FindFromNoLater(s, p, 0, k);
    var i := FindFrom(s, p, 0).value;
    FindFromBefore(s, p, 0);
    ReplaceAllAt(s, p, "", i);
    var rest := ReplaceAll(s[i + |p|..], p, "");
    ReplaceAllShrinks(s[i + |p|..], p, "");
    assert |s[..i] + "" + rest| == i + |rest|;
  }

  /** Each of the two phrases holds a complete reference, eight characters in. */
  lemma {:induction false} PhraseHoldsRef(s: string, j: nat, key: string)
    requires OccursAt(s, j, Phrase(key))
    ensures RefAt(s, j + 8)
  {
    var p := Phrase(key);
    OccursAtChars(s, j, p);
    var z := s[j + 8..];
    OccursAtChars(z, 0, EqrefOpen);
    forall k | 0 <= k < |EqrefOpen|
      ensures z[k] == EqrefOpen[k]
    {
      assert z[k] == s[j + (8 + k)] == p[8 + k];
    }
    var c := |EqrefOpen| + |key|;
    assert z[c] == s[j + (8 + c)] == p[8 + c] == '}';
    assert z[|EqrefOpen|..][|key|] == '}';
  }

  /** The cleaning changes the code exactly when the code holds a
      complete reference. */
  lemma {:induction false} CleanCodeIdentity(code: string)
    ensures CleanCode(code) == code <==> NoRef(code)
  {
    var a := ReplaceAll(code, StandardRef, "");
    var b := ReplaceAll(a, GradientRef, "");
    ReplaceAllShrinks(code, StandardRef, "");
    ReplaceAllShrinks(a, GradientRef, "");
    if NoRef(code) {
      forall i: nat | i <= |code| && (OccursAt(code, i, StandardRef) || OccursAt(code, i, GradientRef))
        ensures false
      {
        if OccursAt(code, i, StandardRef) {
          PhraseHoldsRef(code, i, StandardKey);
        } else {
          PhraseHoldsRef(code, i, GradientKey);
        }
      }
      ReplaceAllAbsent(code, StandardRef, "");
      ReplaceAllAbsent(code, GradientRef, "");
      StripRefsNoRef(code);
    } else if !Absent(code, StandardRef) {
      var i: nat :| i <= |code| && OccursAt(code, i, StandardRef);
      ReplaceAllDeletes(code, StandardRef, i);
    } else if !Absent(code, GradientRef) {
      ReplaceAllAbsent(code, StandardRef, "");
      var i: nat :| i <= |code| && OccursAt(code, i, GradientRef);
      ReplaceAllDeletes(code, GradientRef, i);
    } else {
      ReplaceAllAbsent(code, StandardRef, "");
      ReplaceAllAbsent(code, GradientRef, "");
      var i: nat :| i <= |code| && RefAt(code, i);
      StripRefsShorter(code, i);
    }
  }

  /** A brace-free word followed by `}` that agrees with `key}` is `key`. */
  lemma {:induction false} KeyFromBrace(x: string, key: string, w: string)
    requires '}' !in x && '}' !in key
    requires |key| < |x + "}" + w|
    ensures x == key <==> forall m :: 0 <= m <= |key| ==> (x + "}" + w)[m] == (key + "}")[m]
  {
    var t := x + "}" + w;
    if |x| < |key| {
      assert t[|x|] == '}' && (key + "}")[|x|] == key[|x|];
    } else if |x| > |key| {
      assert t[|key|] == x[|key|] && (key + "}")[|key|] == '}';
    } else if forall m :: 0 <= m <= |key| ==> t[m] == (key + "}")[m] {
      forall m | 0 <= m < |x|
        ensures x[m] == key[m]
      {
        assert t[m] == x[m] && (key + "}")[m] == key[m];
      }
    }
  }

  /** A phrase whose reference is `\eqref{x}` carries the key `x`. */
  lemma {:induction false} PhraseKey(s: string, j: nat, key: string, x: string, v: string)
    requires '}' !in x && '}' !in key
    requires j + |LeadIn| <= |s| && s[j + |LeadIn|..] == EqrefOpen + x + "}" + v
    requires OccursAt(s, j, Phrase(key))
    ensures x == key
  {
    var p := Phrase(key);
    OccursAtChars(s, j, p);
    var t := s[j + |LeadIn| + |EqrefOpen|..];
    assert t == x + "}" + v;
    forall m | 0 <= m <= |key|
      ensures t[m] == (key + "}")[m]
    {
      assert t[m] == s[j + (|LeadIn| + |EqrefOpen| + m)];
      assert p[|LeadIn| + |EqrefOpen| + m] == (key + "}")[m];
    }
    KeyFromBrace(x, key, v);
  }

  /** A reference that is part of neither phrase, with no reference
      starting before it, is deleted alone: the text before it, such as an
      `Eq.~`, stays, and the generic deletion carries on after it. */
  lemma {:induction false} CleanCodeDeletesRef(u: string, x: string, v: string)
    requires '}' !in x
    requires Absent(u + EqrefOpen + x + "}" + v, StandardRef)
    requires Absent(u + EqrefOpen + x + "}" + v, GradientRef)
    requires forall j: nat :: j < |u| ==> !RefAt(u + EqrefOpen + x + "}" + v, j)
    ensures CleanCode(u + EqrefOpen + x + "}" + v) == u + StripRefs(v)
  {
    var s := u + EqrefOpen + x + "}" + v;
    ReplaceAllAbsent(s, StandardRef, "");
    ReplaceAllAbsent(s, GradientRef, "");
    StripRefsBlock(u, x, v);
  }

  /** Each of the two phrases is deleted whole, its `via Eq.~` lead-in
      included, before the generic deletion could leave the lead-in
      behind. The standard phrase's `replace` runs first, so the gradient
      phrase may still occur around it and is deleted by the second
      `replace`; the gradient phrase's own deletion is stated for text in
      which the standard phrase no longer occurs. */
  lemma {:induction false} CleanCodeDeletesPhrase(u: string, key: string, v: string)
    requires key == StandardKey || key == GradientKey
    requires forall j: nat :: j < |u| ==> !OccursAt(u + Phrase(key) + v, j, Phrase(key))
    requires Absent(v, Phrase(key))
    requires key == GradientKey ==> Absent(u + Phrase(key) + v, StandardRef)
    ensures key == StandardKey ==>
      CleanCode(u + Phrase(key) + v) == StripRefs(ReplaceAll(u + v, GradientRef, ""))
    ensures key == GradientKey ==> CleanCode(u + Phrase(key) + v) == StripRefs(u + v)
  {
    if key == StandardKey {
      DeleteFirstPhrase(u, v);
    } else {
      DeleteSecondPhrase(u, v);
    }
  }

  /** The first replacement deletes the standard phrase. */
  lemma {:induction false} DeleteFirstPhrase(u: string, v: string)
    requires forall j: nat :: j < |u| ==> !OccursAt(u + StandardRef + v, j, StandardRef)
    requires Absent(v, StandardRef)
    ensures ReplaceAll(u + StandardRef + v, StandardRef, "") == u + v
  {
    ReplaceAllOnce(u, StandardRef, v, "");
    assert u + "" + v == u + v;
  }

  /** The first replacement finds nothing; the second deletes the
      gradient phrase. */
  lemma {:induction false} DeleteSecondPhrase(u: string, v: string)
    requires forall j: nat :: j < |u| ==> !OccursAt(u + GradientRef + v, j, GradientRef)
    requires Absent(v, GradientRef) && Absent(u + GradientRef + v, StandardRef)
    ensures ReplaceAll(ReplaceAll(u + GradientRef + v, StandardRef, ""), GradientRef, "") == u + v
  {
    var s := u + GradientRef + v;
    ReplaceAllOnce(u, GradientRef, v, "");
    assert u + "" + v == u + v;
    ReplaceAllAbsent(s, StandardRef, "");
  }

  /** Code holding both phrases, the standard one first, loses both with
      their lead-ins; the generic deletion then runs on the rest. */
  lemma {:induction false} CleanCodeDeletesBoth(u: string, w: string, v: string)
    requires forall j: nat :: j < |u| ==> !OccursAt(u + StandardRef + w + GradientRef + v, j, StandardRef)
    requires Absent(w + GradientRef + v, StandardRef)
    requires forall j: nat :: j < |u + w| ==> !OccursAt(u + w + GradientRef + v, j, GradientRef)
    requires Absent(v, GradientRef)
    ensures CleanCode(u + StandardRef + w + GradientRef + v) == StripRefs(u + w + v)
  {
    var s, t := u + StandardRef + w + GradientRef + v, w + GradientRef + v;
    assert s == u + StandardRef + t;
    DeleteFirstPhrase(u, t);
    assert ReplaceAll(s, StandardRef, "") == u + w + GradientRef + v;
    DeleteGradientAfter(u + w, v);
  }

  /** After the standard phrase is gone, the second replacement deletes
      the gradient phrase. */
  lemma {:induction false} DeleteGradientAfter(u: string, v: string)
    requires forall j: nat :: j < |u| ==> !OccursAt(u + GradientRef + v, j, GradientRef)
    requires Absent(v, GradientRef)
    ensures ReplaceAll(u + GradientRef + v, GradientRef, "") == u + v
  {
    ReplaceAllOnce(u, GradientRef, v, "");
    assert u + "" + v == u + v;
  }

  /** The picture code `\begin{tikzpicture}a\eqref{x}b\end{tikzpicture}`. */
  function Picture(a: string, x: string, b: string): string {
    Extract.Source.beginTikz + a + EqrefOpen + x + "}" + b + Extract.Source.endTikz
  }

  /** Where `\end{tikzpicture}` starts in `Picture(a, x, b)`. */
  function PictureEnd(a: string, x: string, b: string): nat {
    |Extract.Source.beginTikz| + |a| + |EqrefOpen| + |x| + 1 + |b|
  }

  /** When `a`, `x` and `b` hold no backslash, the backslashes of the
      picture code are those opening its three commands. */
  lemma {:induction false} PictureBackslashes(a: string, x: string, b: string, i: nat)
    requires '\\' !in a && '\\' !in x && '\\' !in b
    requires i < |Picture(a, x, b)|
    ensures Picture(a, x, b)[i] == '\\'
        <==> i == 0 || i == |Extract.Source.beginTikz| + |a| || i == PictureEnd(a, x, b)
  {
    var bt, et := Extract.Source.beginTikz, Extract.Source.endTikz;
    var u := bt + a;
    var s := Picture(a, x, b);
    var z := PictureEnd(a, x, b);
    assert s == u + EqrefOpen + x + "}" + b + et;
    assert bt == ['\\', 'b', 'e', 'g', 'i', 'n', '{', 't', 'i', 'k', 'z', 'p', 'i', 'c', 't', 'u', 'r', 'e', '}'];
    assert et == ['\\', 'e', 'n', 'd', '{', 't', 'i', 'k', 'z', 'p', 'i', 'c', 't', 'u', 'r', 'e', '}'];
    assert EqrefOpen == ['\\', 'e', 'q', 'r', 'e', 'f', '{'];
    if i < |bt| {
      assert s[i] == bt[i];
    } else if i < |u| {
      assert s[i] == a[i - |bt|];
    } else if i < |u| + |EqrefOpen| {
      assert s[i] == EqrefOpen[i - |u|];
    } else if i < |u| + |EqrefOpen| + |x| {
      assert s[i] == x[i - |u| - |EqrefOpen|];
    } else if i < z && i > |u| + |EqrefOpen| + |x| {
      assert s[i] == b[i - |u| - |EqrefOpen| - |x| - 1];
    } else if i >= z {
      assert s[i] == et[i - z];
    }
  }

  /** No reference starts inside `\begin{tikzpicture}a`. */
  lemma {:induction false} PictureNoRefBefore(a: string, x: string, b: string)
    requires '\\' !in a && '\\' !in x && '\\' !in b
    ensures forall j: nat :: j < |Extract.Source.beginTikz + a| ==> !RefAt(Picture(a, x, b), j)
  {
    var s := Picture(a, x, b);
    assert s[1] == 'b';
    forall j: nat | j < |Extract.Source.beginTikz + a| && RefAt(s, j)
      ensures false
    {
      RefAtBackslash(s, j);
      PictureBackslashes(a, x, b, j);
    }
  }

  /** Neither phrase occurs in the picture code when `x` is neither key. */
  lemma {:induction false} PicturePhraseAbsent(a: string, x: string, b: string, key: string)
    requires '\\' !in a && '\\' !in x && '\\' !in b && '}' !in x && '}' !in key
    requires x != key
    ensures Absent(Picture(a, x, b), Phrase(key))
  {
    var u := Extract.Source.beginTikz + a;
    var v := b + Extract.Source.endTikz;
    var s := Picture(a, x, b);
    var z := PictureEnd(a, x, b);
    assert s == u + EqrefOpen + x + "}" + v;
    assert s[z + 2] == 'n';
    forall j: nat | j <= |s| && OccursAt(s, j, Phrase(key))
      ensures false
    {
      PhraseHoldsRef(s, j, key);
      RefAtBackslash(s, j + 8);
      PictureBackslashes(a, x, b, j + 8);
      if j + 8 == |u| {
        assert s[j + |LeadIn|..] == EqrefOpen + x + "}" + v;
        PhraseKey(s, j, key, x, v);
      }
    }
  }

  /** No reference starts in `b\end{tikzpicture}` when `b` holds no backslash. */
  lemma {:induction false} PictureTailNoRef(b: string)
    requires '\\' !in b
    ensures NoRef(b + Extract.Source.endTikz)
  {
    var et := Extract.Source.endTikz;
    var v := b + et;
    assert et == ['\\', 'e', 'n', 'd', '{', 't', 'i', 'k', 'z', 'p', 'i', 'c', 't', 'u', 'r', 'e', '}'];
    assert v[|b| + 2] == 'n';
    forall j | 0 <= j < |v|
      ensures v[j] == '\\' <==> j == |b|
    {
      if j < |b| {
        assert v[j] == b[j];
      } else {
        assert v[j] == et[j - |b|];
      }
    }
    forall j: nat | j <= |v| && RefAt(v, j)
      ensures false
    {
      RefAtBackslash(v, j);
    }
  }

  /** An instance on picture code in the extractor's shape, for a
      picture whose only commands are its two delimiters and one
      reference: in `\begin{tikzpicture}a\eqref{x}b\end{tikzpicture}`,
      with a key other than the two phrases' keys, cleaning deletes the
      reference alone and keeps both delimiters. */
  lemma {:induction false} CleanPictureRef(a: string, x: string, b: string)
    requires '\\' !in a && '\\' !in x && '\\' !in b && '}' !in x
    requires x != StandardKey && x != GradientKey
    ensures CleanCode(Picture(a, x, b)) == Extract.Source.beginTikz + a + b + Extract.Source.endTikz
  {
    var bt, et := Extract.Source.beginTikz, Extract.Source.endTikz;
    var u, v := bt + a, b + et;
    assert Picture(a, x, b) == u + EqrefOpen + x + "}" + v;
    PictureNoRefBefore(a, x, b);
    PicturePhraseAbsent(a, x, b, StandardKey);
    PicturePhraseAbsent(a, x, b, GradientKey);
    CleanCodeDeletesRef(u, x, v);
    PictureTailNoRef(b);
    StripRefsNoRef(v);
    assert u + v == bt + a + b + et;
  }
}
