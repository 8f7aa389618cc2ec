/**
 Redaction of sensitive values from the text a step reports.
 */
module Redact {
  import opened Options
  import opened Strings

  const REDACTED_PLACEHOLDER := "**REDACTED**"

  /** An error: its message, and whether it still wraps its cause. */
  datatype StepError = StepError(message: string, wraps: bool)

  /** Replace the occurrences of `v`, leftmost first, none overlapping another. */
  function ReplaceAll(s: string, v: string, p: string): string
    requires v != ""
  {
    if |s| < |v| then s
    else if s[..|v|] == v then p + ReplaceAll(s[|v|..], v, p)
    else [s[0]] + ReplaceAll(s[1..], v, p)
  }

  function RedactAll(s: string, sensitive: seq<string>): string {
    if sensitive == [] then s
    else
      var v := sensitive[|sensitive| - 1];
      var t := RedactAll(s, sensitive[..|sensitive| - 1]);
      if v == "" then t else ReplaceAll(t, v, REDACTED_PLACEHOLDER)
  }

  /** The shorter of the two is a prefix of the longer. */
  ghost predicate Agree(x: string, y: string) {
    forall i :: 0 <= i < |x| && i < |y| ==> x[i] == y[i]
  }

  /** Laid over `p` from its place `t` on, `w` agrees with it. */
  ghost predicate MeetsStart(w: string, p: string) {
    exists t :: 0 <= t < |w| && Agree(w[t..], p)
  }

  ghost predicate MeetsInside(w: string, p: string) {
    exists d :: 0 <= d < |p| && Agree(w, p[d..])
  }

  /** However `w` is laid over `p` so that they share a place, they differ there. */
  ghost predicate Apart(w: string, p: string) {
    !MeetsStart(w, p) && !MeetsInside(w, p)
  }

  ghost predicate ShareCharacter(w: string, p: string) {
    exists c :: c in w && c in p
  }

  lemma NoSharedCharacterApart(w: string, p: string)
    requires !ShareCharacter(w, p) && w != "" && p != ""
    ensures Apart(w, p)
  {
    forall t | 0 <= t < |w| ensures !Agree(w[t..], p) {
      assert w[t] in w && p[0] in p;
      assert w[t..][0] == w[t];
    }
    forall d | 0 <= d < |p| ensures !Agree(w, p[d..]) {
      assert w[0] in w && p[d] in p;
      assert p[d..][0] == p[d];
    }
  }

  /** What the output starts with, if it does not meet the placeholder, the input
      started with. */
  lemma {:induction false} PrefixKept(s: string, v: string, p: string, w: string)
    requires v != "" && HasPrefix(ReplaceAll(s, v, p), w)
    ensures HasPrefix(s, w) || MeetsStart(w, p)
  {
    if w != "" && |s| >= |v| {
      var out := ReplaceAll(s, v, p);
      if s[..|v|] == v {
        forall i | 0 <= i < |w| && i < |p| ensures w[i] == p[i] {
          assert out[..|w|][i] == out[i];
        }
        assert w[0..] == w;
      } else {
        var rest := ReplaceAll(s[1..], v, p);
        assert out[..|w|] == [s[0]] + rest[..|w| - 1];
        assert rest[..|w| - 1] == w[1..];
        PrefixKept(s[1..], v, p, w[1..]);
        if MeetsStart(w[1..], p) {
          var t :| 0 <= t < |w[1..]| && Agree(w[1..][t..], p);
          assert w[1..][t..] == w[t + 1..];
        } else {
          assert s[..|w|] == [s[0]] + s[1..][..|w| - 1];
        }
      }
    }
  }

  lemma OccursShift(x: string, y: string, w: string, i: int)
    ensures i >= |x| ==> (OccursAt(x + y, w, i) <==> OccursAt(y, w, i - |x|))
  {
    if i >= |x| && i + |w| <= |x| + |y| {
      assert (x + y)[i..i + |w|] == y[i - |x|..i - |x| + |w|];
    }
  }

  lemma OverPlaceholder(p: string, rest: string, w: string, i: int)
    requires OccursAt(p + rest, w, i) && i < |p|
    ensures Agree(w, p[i..])
  {
    var out := p + rest;
    forall k | 0 <= k < |w| && k < |p[i..]| ensures w[k] == p[i..][k] {
      assert out[i..i + |w|][k] == out[i + k];
    }
  }

  /** An occurrence in the output, unless it meets the placeholder, is one in the
      input, and not one of the text just replaced. */
  lemma {:induction false} OccurrenceKept(s: string, v: string, p: string, w: string, i: int) returns (j: int)
    requires v != "" && w != "" && OccursAt(ReplaceAll(s, v, p), w, i)
    ensures (OccursAt(s, w, j) && w != v) || !Apart(w, p)
    decreases |s|
  {
    j := i;
    if |s| < |v| {
    } else if s[..|v|] == v {
      var rest := ReplaceAll(s[|v|..], v, p);
      if i < |p| {
        OverPlaceholder(p, rest, w, i);
      } else {
        OccursShift(p, rest, w, i);
        j := OccurrenceKept(s[|v|..], v, p, w, i - |p|);
        j := j + |v|;
        assert s == v + s[|v|..];
        OccursShift(v, s[|v|..], w, j);
      }
    } else if i == 0 {
      PrefixKept(s, v, p, w);
    } else {
      OccursShift([s[0]], ReplaceAll(s[1..], v, p), w, i);
      j := OccurrenceKept(s[1..], v, p, w, i - 1);
      j := j + 1;
      assert s == [s[0]] + s[1..];
      OccursShift([s[0]], s[1..], w, j);
    }
  }

  /** Replacing one value removes it and brings back none that was gone. */
  lemma ReplacementRemoves(s: string, v: string, p: string, w: string)
    requires v != "" && w != "" && Apart(w, p)
    requires w == v || !Contains(s, w)
    ensures !Contains(ReplaceAll(s, v, p), w)
  {
    if Contains(ReplaceAll(s, v, p), w) {
      var i :| 0 <= i <= |ReplaceAll(s, v, p)| - |w| && OccursAt(ReplaceAll(s, v, p), w, i);
      var j := OccurrenceKept(s, v, p, w, i);
    }
  }

  ghost predicate Clean(s: string, sensitive: seq<string>) {
    forall v :: v in sensitive && v != "" ==> !Contains(s, v)
  }

  /** No sensitive value can be read across or inside the placeholder. */
  ghost predicate Redactable(sensitive: seq<string>) {
    forall v :: v in sensitive && v != "" ==> Apart(v, REDACTED_PLACEHOLDER)
  }

  /** Whatever the order of the sensitive values, none is left in the output. */
  lemma {:induction false} RedactAllCleans(s: string, sensitive: seq<string>)
    requires Redactable(sensitive)
    ensures Clean(RedactAll(s, sensitive), sensitive)
  {
    if sensitive != [] {
      var front, v := sensitive[..|sensitive| - 1], sensitive[|sensitive| - 1];
      assert sensitive == front + [v];
      RedactAllCleans(s, front);
      if v != "" {
        var t := RedactAll(s, front);
        forall w | w in sensitive && w != "" ensures !Contains(ReplaceAll(t, v, REDACTED_PLACEHOLDER), w) {
          ReplacementRemoves(t, v, REDACTED_PLACEHOLDER, w);
        }
      }
    }
  }

  lemma {:induction false} NothingToReplace(s: string, v: string, p: string)
    requires v != "" && !Contains(s, v)
    ensures ReplaceAll(s, v, p) == s
  {
    if |s| >= |v| {
      assert !OccursAt(s, v, 0);
      forall i | 0 <= i <= |s[1..]| - |v| ensures !OccursAt(s[1..], v, i) {
        assert s == [s[0]] + s[1..];
        OccursShift([s[0]], s[1..], v, i + 1);
        assert !OccursAt(s, v, i + 1);
      }
      NothingToReplace(s[1..], v, p);
    }
  }

  /** Everything but the occurrences is kept: putting the value back in their place
      gives the text again. */
  lemma {:induction false} ReplacementKeepsRest(s: string, v: string)
    requires v != ""
    ensures ReplaceAll(s, v, v) == s
  {
    if |s| >= |v| {
      if s[..|v|] == v {
        ReplacementKeepsRest(s[|v|..], v);
      } else {
        ReplacementKeepsRest(s[1..], v);
      }
    }
  }

  /** Text without any sensitive value is left as it is. */
  lemma {:induction false} RedactAllKeepsOthers(s: string, sensitive: seq<string>)
    ensures Clean(s, sensitive) ==> RedactAll(s, sensitive) == s
  {
    if sensitive != [] && Clean(s, sensitive) {
      var front, v := sensitive[..|sensitive| - 1], sensitive[|sensitive| - 1];
      assert sensitive == front + [v];
      RedactAllKeepsOthers(s, front);
      if v != "" {
        NothingToReplace(s, v, REDACTED_PLACEHOLDER);
      }
    }
  }

  lemma {:induction false} EmptyStaysEmpty(sensitive: seq<string>)
    ensures RedactAll("", sensitive) == ""
  {
    if sensitive != [] {
      EmptyStaysEmpty(sensitive[..|sensitive| - 1]);
    }
  }

  /** One list of values after another is one longer list, in that order. */
  lemma {:induction false} RedactInTurn(s: string, first: seq<string>, rest: seq<string>)
    ensures RedactAll(s, first + rest) == RedactAll(RedactAll(s, first), rest)
    decreases |rest|
  {
    if rest == [] {
      assert first + rest == first;
    } else {
      var front := rest[..|rest| - 1];
      assert (first + rest)[..|first + rest| - 1] == first + front;
      RedactInTurn(s, first, front);
    }
  }

  /** What stands for a value, and that an empty value stands for nothing. */
  lemma RedactOne(s: string, v: string)
    ensures v != "" ==> RedactAll(v, [v]) == "**REDACTED**"
    ensures RedactAll(s, [""]) == s
  {
    assert [v][..0] == [] && [""][..0] == [];
    if v != "" {
      assert v + "" == v;
      ReplaceAtFront(v, REDACTED_PLACEHOLDER, "");
    }
  }

  /** Values that share no character with the placeholder are redactable. */
  lemma UnlikePlaceholderRedactable(sensitive: seq<string>)
    requires forall v :: v in sensitive ==> !ShareCharacter(v, REDACTED_PLACEHOLDER)
    ensures Redactable(sensitive)
  {
    forall v | v in sensitive && v != "" ensures Apart(v, REDACTED_PLACEHOLDER) {
      NoSharedCharacterApart(v, REDACTED_PLACEHOLDER);
    }
  }

  method RedactText(text: string, sensitive: seq<string>) returns (s: string)
    ensures s == RedactAll(text, sensitive)
    ensures Redactable(sensitive) ==> Clean(s, sensitive)
    ensures Clean(text, sensitive) ==> s == text
  {
    s := text;
    EmptyStaysEmpty(sensitive);
    RedactAllKeepsOthers(text, sensitive);
    if s == "" || |sensitive| == 0 {
      return;
    }
    for k := 0 to |sensitive|
      invariant s == RedactAll(text, sensitive[..k])
    {
      assert sensitive[..k + 1][..k] == sensitive[..k];
      if sensitive[k] == "" {
        continue;
      }
      s := ReplaceAll(s, sensitive[k], REDACTED_PLACEHOLDER);
    }
    assert sensitive[..|sensitive|] == sensitive;
    if Redactable(sensitive) {
      RedactAllCleans(text, sensitive);
    }
  }

  method RedactNotes(notes: seq<string>, sensitive: seq<string>) returns (out: seq<string>)
    ensures |out| == |notes| && forall i :: 0 <= i < |out| ==> out[i] == RedactAll(notes[i], sensitive)
    ensures Redactable(sensitive) ==> forall i :: 0 <= i < |out| ==> Clean(out[i], sensitive)
  {
    if |sensitive| == 0 || |notes| == 0 {
      return notes;
    }
    out := [];
    for i := 0 to |notes|
      invariant |out| == i && forall j :: 0 <= j < i ==> out[j] == RedactAll(notes[j], sensitive)
      invariant Redactable(sensitive) ==> forall j :: 0 <= j < i ==> Clean(out[j], sensitive)
    {
      var n := RedactText(notes[i], sensitive);
      out := out + [n];
    }
  }

  /** An error whose message was changed no longer wraps its cause. */
  method RedactError(err: Option<StepError>, sensitive: seq<string>) returns (r: Option<StepError>)
    ensures r.Some? <==> err.Some?
    ensures r.Some? ==> r.value.message == RedactAll(err.value.message, sensitive)
    ensures r.Some? && Redactable(sensitive) ==> Clean(r.value.message, sensitive)
    ensures r.Some? ==> r == err || (r.value.message != err.value.message && !r.value.wraps)
  {
    if err.None? || |sensitive| == 0 {
      return err;
    }
    var redacted := RedactText(err.value.message, sensitive);
    if redacted == err.value.message {
      return err;
    }
    return Some(StepError(redacted, false));
  }

  // ----- The condition is exact for one value -----

  lemma ReplaceAtFront(v: string, p: string, c: string)
    requires v != "" && |c| < |v|
    ensures ReplaceAll(v + c, v, p) == p + c
  {
    assert (v + c)[..|v|] == v && (v + c)[|v|..] == c;
  }

  /** If the first occurrence of `v` in `a + v + c` is at `a`, that one is replaced. */
  lemma {:induction false} ReplaceAfter(a: string, v: string, p: string, c: string)
    requires v != "" && |c| < |v|
    requires forall i :: 0 <= i < |a| ==> !OccursAt(a + v + c, v, i)
    ensures ReplaceAll(a + v + c, v, p) == a + p + c
  {
    if a == "" {
      assert a + v + c == v + c && a + p + c == p + c;
      ReplaceAtFront(v, p, c);
    } else {
      var s, rest := a + v + c, a[1..] + v + c;
      assert s == [a[0]] + rest;
      forall i | 0 <= i < |a[1..]| ensures !OccursAt(rest, v, i) {
        OccursShift([a[0]], rest, v, i + 1);
        assert !OccursAt(s, v, i + 1);
      }
      ReplaceAfter(a[1..], v, p, c);
      assert !OccursAt(s, v, 0);
      ReplaceSkips(a[0], rest, v, p);
      assert a + p + c == [a[0]] + (a[1..] + p + c);
    }
  }

  lemma ReplaceSkips(x: char, rest: string, v: string, p: string)
    requires v != "" && !OccursAt([x] + rest, v, 0)
    ensures ReplaceAll([x] + rest, v, p) == [x] + ReplaceAll(rest, v, p)
  {
    var s := [x] + rest;
    assert s[1..] == rest;
  }

  lemma ContainsMiddle(x: string, w: string, y: string)
    ensures Contains(x + w + y, w)
  {
    assert (x + w + y)[|x|..|x| + |w|] == w;
    assert OccursAt(x + w + y, w, |x|);
  }

  /** A value that can be laid over the placeholder survives in some text. */
  lemma MeetsInsideSurvives(v: string, p: string) returns (s: string)
    requires v != "" && MeetsInside(v, p)
    ensures Contains(ReplaceAll(s, v, p), v)
  {
    var d :| 0 <= d < |p| && Agree(v, p[d..]);
    var tail := p[d..];
    assert p == p[..d] + tail;
    if |v| <= |tail| {
      s := v + "";
      ReplaceAtFront(v, p, "");
      assert tail == v + tail[|v|..];
      assert p + "" == p[..d] + v + tail[|v|..];
      ContainsMiddle(p[..d], v, tail[|v|..]);
    } else {
      var c := v[|tail|..];
      s := v + c;
      ReplaceAtFront(v, p, c);
      assert v == tail + c;
      assert p + c == p[..d] + v + "";
      ContainsMiddle(p[..d], v, "");
    }
  }

  lemma EarlierOccurrence(v: string, t: nat, c: string, i: nat)
    requires i < t < |v| && OccursAt(v[..t] + v + c, v, i)
    ensures v[0] == v[t]
  {
    var s := v[..t] + v + c;
    assert s[i] == s[i..i + |v|][0] && s[i + t] == s[i..i + |v|][t];
    assert s[i] == v[i] && s[i + t] == v[i];
  }

  /** What follows `t` in the value, beyond the placeholder laid there. */
  function Beyond(v: string, p: string, t: nat): string
    requires t <= |v|
  {
    if |v| - t > |p| then v[t + |p|..] else ""
  }

  lemma PlaceholderCompletes(v: string, p: string, t: nat)
    requires t < |v| && Agree(v[t..], p)
    ensures Contains(v[..t] + p + Beyond(v, p, t), v)
  {
    var a, c := v[..t], Beyond(v, p, t);
    if |v| - t > |p| {
      assert v[t..] == p + c;
      assert v == a + v[t..];
      assert a + p + c == "" + v + "";
      ContainsMiddle("", v, "");
    } else {
      var rest := p[|v| - t..];
      assert p == v[t..] + rest;
      assert v == a + v[t..];
      assert a + p + c == "" + v + rest;
      ContainsMiddle("", v, rest);
    }
  }

  lemma MeetsStartSurvives(v: string, p: string) returns (s: string)
    requires v != "" && MeetsStart(v, p) && p != "" && v[0] != p[0]
    ensures Contains(ReplaceAll(s, v, p), v)
  {
    var t :| 0 <= t < |v| && Agree(v[t..], p);
    var c := Beyond(v, p, t);
    assert v[t..][0] == v[t] == p[0];
    s := v[..t] + v + c;
    forall i | 0 <= i < t ensures !OccursAt(s, v, i) {
      if OccursAt(s, v, i) {
        EarlierOccurrence(v, t, c, i);
      }
    }
    ReplaceAfter(v[..t], v, p, c);
    PlaceholderCompletes(v, p, t);
  }

  /** For a single value the condition is exact: if the value can be laid over the
      placeholder at all, there is a text whose redaction still shows it. */
  lemma RedactableExactly(v: string)
    requires v != ""
    ensures Redactable([v]) <==> forall s :: Clean(RedactAll(s, [v]), [v])
  {
    if Redactable([v]) {
      forall s ensures Clean(RedactAll(s, [v]), [v]) {
        RedactAllCleans(s, [v]);
      }
    } else {
      var s := Survivor(v);
      assert [v][..0] == [];
      assert RedactAll(s, [v]) == ReplaceAll(s, v, REDACTED_PLACEHOLDER);
      assert v in [v] && !Clean(RedactAll(s, [v]), [v]);
    }
  }

  /** Any of the values may be the ones set at the time, in any order.  That none of
      them is ever left in a text holds iff none can be laid over the placeholder. */
  lemma RedactableExactlyOnParts(sensitive: seq<string>)
    ensures Redactable(sensitive) <==>
            forall part, s :: PartOf(part, sensitive) ==> Clean(RedactAll(s, part), part)
  {
    if Redactable(sensitive) {
      forall part, s | PartOf(part, sensitive) ensures Clean(RedactAll(s, part), part) {
        RedactAllCleans(s, part);
      }
    } else {
      var v :| v in sensitive && v != "" && !Apart(v, REDACTED_PLACEHOLDER);
      assert v in [v] && !Redactable([v]);
      RedactableExactly(v);
      var s :| !Clean(RedactAll(s, [v]), [v]);
      assert PartOf([v], sensitive);
    }
  }

  ghost predicate PartOf(part: seq<string>, whole: seq<string>) {
    forall v :: v in part ==> v in whole
  }

  // ----- A part of the placeholder is never removed -----

  lemma {:induction false} ReplacementShows(s: string, v: string, p: string, i: nat)
    requires v != "" && OccursAt(s, v, i)
    ensures Contains(ReplaceAll(s, v, p), p)
  {
    if s[..|v|] == v {
      var rest := ReplaceAll(s[|v|..], v, p);
      assert p + rest == "" + p + rest;
      ContainsMiddle("", p, rest);
    } else {
      assert s == [s[0]] + s[1..];
      OccursShift([s[0]], s[1..], v, i);
      ReplacementShows(s[1..], v, p, i - 1);
      ContainsAfter([s[0]], ReplaceAll(s[1..], v, p), p);
    }
  }

  lemma ContainsAfter(x: string, y: string, w: string)
    requires Contains(y, w)
    ensures Contains(x + y, w)
  {
    var i :| 0 <= i <= |y| - |w| && OccursAt(y, w, i);
    OccursShift(x, y, w, i + |x|);
  }

  lemma ContainsThrough(s: string, p: string, v: string)
    requires Contains(s, p) && Contains(p, v)
    ensures Contains(s, v)
  {
    var i :| 0 <= i <= |s| - |p| && OccursAt(s, p, i);
    var j :| 0 <= j <= |p| - |v| && OccursAt(p, v, j);
    var q := s[i + j..i + j + |v|];
    forall k | 0 <= k < |v| ensures q[k] == v[k] {
      assert s[i..i + |p|][j + k] == p[j + k] == p[j..j + |v|][k];
    }
    assert q == v;
    assert OccursAt(s, v, i + j);
  }

  /** Whatever the values and their order, a text that shows a part of the
      placeholder still does when redacted, be that part sensitive or not: each
      replacement puts the whole placeholder back. */
  lemma {:induction false} PlaceholderPartSurvives(s: string, sensitive: seq<string>, v: string)
    requires Contains(REDACTED_PLACEHOLDER, v) && Contains(s, v)
    ensures Contains(RedactAll(s, sensitive), v)
    ensures v in sensitive && v != "" ==> !Clean(RedactAll(s, sensitive), sensitive)
    decreases |sensitive|
  {
    if sensitive != [] {
      var front, w := sensitive[..|sensitive| - 1], sensitive[|sensitive| - 1];
      PlaceholderPartSurvives(s, front, v);
      var t := RedactAll(s, front);
      if w != "" && !Contains(t, w) {
        NothingToReplace(t, w, REDACTED_PLACEHOLDER);
      } else if w != "" {
        var i :| 0 <= i <= |t| - |w| && OccursAt(t, w, i);
        ReplacementShows(t, w, REDACTED_PLACEHOLDER, i);
        ContainsThrough(ReplaceAll(t, w, REDACTED_PLACEHOLDER), REDACTED_PLACEHOLDER, v);
      }
    }
  }

  lemma Survivor(v: string) returns (s: string)
    requires v != "" && !Apart(v, REDACTED_PLACEHOLDER)
    ensures Contains(ReplaceAll(s, v, REDACTED_PLACEHOLDER), v)
  {
    var p := REDACTED_PLACEHOLDER;
    if v[0] == p[0] {
      assert p[|p| - 1..] == [p[0]];
      assert Agree(v, p[|p| - 1..]);
      s := MeetsInsideSurvives(v, p);
    } else if MeetsInside(v, p) {
      s := MeetsInsideSurvives(v, p);
    } else {
      s := MeetsStartSurvives(v, p);
    }
  }
}
