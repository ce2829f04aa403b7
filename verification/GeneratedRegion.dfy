/** Replacing the generated part of a document between two markers, as
    `replaceGenerated` in cmd/niac/docs.go does. */
module GeneratedRegion {
  import opened Text

  const BEGIN := "<!-- BEGIN GENERATED COMMANDS -->"
  const END := "<!-- END GENERATED COMMANDS -->"

  predicate OccursAt(s: string, sub: string, i: int) {
    0 <= i && i + |sub| <= |s| && s[i..i + |sub|] == sub
  }

  ghost predicate Occurs(s: string, sub: string) {
    exists i :: OccursAt(s, sub, i)
  }

  function IndexFrom(s: string, sub: string, from: nat): (r: int)
    requires from <= |s|
    ensures r == -1 ==> forall i :: from <= i ==> !OccursAt(s, sub, i)
    ensures r != -1 ==> from <= r && OccursAt(s, sub, r) && forall i :: from <= i < r ==> !OccursAt(s, sub, i)
    decreases |s| - from
  {
    if OccursAt(s, sub, from) then from
    else if from == |s| then -1
    else IndexFrom(s, sub, from + 1)
  }

  /** `strings.Index`: the first occurrence, or -1. */
  function Index(s: string, sub: string): (r: int)
    ensures r == -1 ==> forall i :: !OccursAt(s, sub, i)
    ensures r != -1 ==> OccursAt(s, sub, r) && forall i :: 0 <= i < r ==> !OccursAt(s, sub, i)
  {
    IndexFrom(s, sub, 0)
  }

  lemma FirstIsIndex(s: string, sub: string, at: int)
    requires OccursAt(s, sub, at) && forall i :: 0 <= i < at ==> !OccursAt(s, sub, i)
    ensures Index(s, sub) == at
  {
  }

  /** `replaceGenerated` */
  function Replace(current: string, body: string): Option<string> {
    var start, end := Index(current, BEGIN), Index(current, END);
    if start < 0 || end < start then None
    else Some(current[..start] + BEGIN + "\n\n" + body + "\n\n" + current[end..])
  }

  // ---------------------------------------------------------------------------
  // Where markers can be

  lemma MarkerText()
    ensures forall k :: 0 < k < |BEGIN| ==> BEGIN[k] != '<'
    ensures END[0] == '<' && BEGIN[5] != END[5]
    ensures '\n' !in END
  {
  }

  /** The end marker never starts inside the begin marker. */
  lemma MarkersDoNotOverlap(s: string, start: int, end: int)
    requires OccursAt(s, BEGIN, start) && OccursAt(s, END, end) && start <= end
    ensures start + |BEGIN| <= end
  {
    MarkerText();
    var b, e := s[start..start + |BEGIN|], s[end..end + |END|];
    assert s[end] == e[0] == '<';
    assert b[5] == s[start + 5] && e[5] == s[end + 5];
    assert forall k :: 0 <= k < |BEGIN| ==> b[k] == s[start + k];
  }

  lemma OccursInPrefix(s: string, t: string, sub: string, n: nat, i: int)
    requires n <= |s| && n <= |t| && s[..n] == t[..n]
    requires i + |sub| <= n
    ensures OccursAt(s, sub, i) <==> OccursAt(t, sub, i)
  {
    if 0 <= i {
      assert s[i..i + |sub|] == s[..n][i..i + |sub|];
      assert t[i..i + |sub|] == t[..n][i..i + |sub|];
    }
  }

  lemma OccursShifted(s: string, t: string, sub: string, a: nat, b: nat, n: nat, i: int)
    requires a + n <= |s| && b + n <= |t| && s[a..a + n] == t[b..b + n]
    requires a <= i && i + |sub| <= a + n
    ensures OccursAt(s, sub, i) <==> OccursAt(t, sub, i - a + b)
  {
    var x, y := s[i..i + |sub|], t[i - a + b..i - a + b + |sub|];
    forall k | 0 <= k < |sub| ensures x[k] == y[k] {
      assert x[k] == s[a..a + n][i + k - a];
      assert y[k] == t[b..b + n][i + k - a];
    }
    assert x == y;
  }

  lemma OccurrenceBounds(s: string, sub: string, i: int)
    requires OccursAt(s, sub, i)
    ensures 0 <= i && i + |sub| <= |s|
  {
  }

  lemma OccurrenceMisses(s: string, sub: string, i: int, k: int)
    requires OccursAt(s, sub, i) && 0 <= k < |s| && s[k] !in sub
    ensures k < i || i + |sub| <= k
  {
    var e := s[i..i + |sub|];
    assert forall j :: 0 <= j < |sub| ==> e[j] == s[i + j];
  }

  /** An occurrence of the end marker covers no line break. */
  lemma EndMissesBreak(s: string, i: int, k: int)
    requires OccursAt(s, END, i) && 0 <= k < |s| && s[k] == '\n'
    ensures k < i || i + |END| <= k
  {
    MarkerText();
    OccurrenceMisses(s, END, i, k);
  }

  // ---------------------------------------------------------------------------
  // The replaced document

  /** The parts of a document with a region, and of its replacement. */
  datatype Parts = Parts(before: string, after: string)

  function Assemble(p: Parts, body: string): string {
    p.before + BEGIN + "\n\n" + body + "\n\n" + p.after
  }

  /** `p` is how `s` is cut: up to the first begin marker, and from the first end marker on. */
  ghost predicate CutInto(s: string, p: Parts) {
    && Index(s, BEGIN) == |p.before| && |p.before| <= Index(s, END)
    && s[..|p.before|] == p.before && s[Index(s, END)..] == p.after
  }

  lemma ReplaceAssembles(current: string, body: string)
    ensures Replace(current, body).Some? ==>
              exists p :: CutInto(current, p) && Replace(current, body) == Some(Assemble(p, body))
    ensures forall p :: CutInto(current, p) ==> Replace(current, body) == Some(Assemble(p, body))
  {
    if Replace(current, body).Some? {
      var p := Parts(current[..Index(current, BEGIN)], current[Index(current, END)..]);
      assert CutInto(current, p);
    }
  }

  lemma SharedStart(current: string, p: Parts)
    requires CutInto(current, p)
    ensures |p.before| + |BEGIN| <= |current| && current[..|p.before| + |BEGIN|] == p.before + BEGIN
  {
    var n := |p.before| + |BEGIN|;
    assert current[..n] == current[..|p.before|] + current[|p.before|..n];
  }

  /** The assembled text begins its region where the old one did. */
  lemma BeginStays(current: string, p: Parts, body: string)
    requires CutInto(current, p)
    ensures Index(Assemble(p, body), BEGIN) == |p.before|
  {
    var r, n := Assemble(p, body), |p.before| + |BEGIN|;
    assert r[..n] == p.before + BEGIN;
    SharedStart(current, p);
    assert OccursAt(r, BEGIN, |p.before|);
    forall i | 0 <= i < |p.before| ensures !OccursAt(r, BEGIN, i) {
      OccursInPrefix(current, r, BEGIN, n, i);
    }
    FirstIsIndex(r, BEGIN, |p.before|);
  }

  /** Where the kept tail starts in the assembled text. */
  function TailAt(p: Parts, body: string): nat {
    |p.before| + |BEGIN| + 2 + |body| + 2
  }

  lemma AssembledPieces(p: Parts, body: string)
    ensures var r, m := Assemble(p, body), |p.before| + |BEGIN|;
      && |r| == TailAt(p, body) + |p.after|
      && r[..m] == p.before + BEGIN
      && r[m] == '\n' && r[m + 1] == '\n'
      && r[m + 2..m + 2 + |body|] == body
      && r[m + 2 + |body|] == '\n' && r[m + 2 + |body| + 1] == '\n'
      && r[TailAt(p, body)..] == p.after
  {
  }

  /** Before the kept tail the end marker can only be inside the body. */
  lemma EndOnlyInBody(current: string, p: Parts, body: string, i: int)
    requires CutInto(current, p) && OccursAt(Assemble(p, body), END, i) && i < TailAt(p, body)
    ensures OccursAt(body, END, i - |p.before| - |BEGIN| - 2)
  {
    hide Assemble, OccursAt;
    var r, m := Assemble(p, body), |p.before| + |BEGIN|;
    AssembledPieces(p, body);
    MarkersDoNotOverlap(current, |p.before|, Index(current, END));
    SharedStart(current, p);
    OccurrenceBounds(r, END, i);
    EndMissesBreak(r, i, m);
    EndMissesBreak(r, i, m + 1);
    EndMissesBreak(r, i, m + 2 + |body|);
    EndMissesBreak(r, i, m + 2 + |body| + 1);
    if i + |END| <= m {
      OccursInPrefix(current, r, END, m, i);
    }
    assert body[0..|body|] == body;
    OccursShifted(r, body, END, m + 2, 0, |body|, i);
  }

  lemma TailHoldsEnd(current: string, p: Parts, body: string)
    requires CutInto(current, p)
    ensures OccursAt(Assemble(p, body), END, TailAt(p, body))
  {
    AssembledPieces(p, body);
    var r, at, end := Assemble(p, body), TailAt(p, body), Index(current, END);
    assert OccursAt(p.after, END, 0) by {
      assert p.after[0..|END|] == current[end..end + |END|];
    }
    assert r[at..at + |END|] == r[at..][0..|END|];
  }

  /** A body without the end marker leaves a document that is cut the same way. */
  lemma CutAgain(current: string, p: Parts, body: string)
    requires CutInto(current, p) && !Occurs(body, END)
    ensures CutInto(Assemble(p, body), p)
  {
    var r := Assemble(p, body);
    BeginStays(current, p, body);
    TailHoldsEnd(current, p, body);
    AssembledPieces(p, body);
    forall i | 0 <= i < TailAt(p, body) ensures !OccursAt(r, END, i) {
      if OccursAt(r, END, i) {
        EndOnlyInBody(current, p, body, i);
      }
    }
    FirstIsIndex(r, END, TailAt(p, body));
    assert r[..|p.before|] == p.before;
  }

  /** A body that contains the end marker moves the cut into the body. */
  lemma CutMoves(current: string, p: Parts, body: string)
    requires CutInto(current, p) && Occurs(body, END)
    ensures Index(Assemble(p, body), BEGIN) == |p.before|
    ensures |p.before| <= Index(Assemble(p, body), END) < TailAt(p, body)
  {
    hide Assemble, Index, CutInto;
    var r, m := Assemble(p, body), |p.before| + |BEGIN|;
    BeginStays(current, p, body);
    AssembledPieces(p, body);
    var j :| OccursAt(body, END, j);
    assert body[0..|body|] == body;
    OccursShifted(r, body, END, m + 2, 0, |body|, j + m + 2);
    var end := Index(r, END);
    assert end <= j + m + 2;
    EndOnlyInBody(current, p, body, end);
    OccurrenceBounds(body, END, end - m - 2);
  }

  // ---------------------------------------------------------------------------
  // Laws

  /** Text before the first begin marker and from the first end marker on is kept. */
  lemma SurroundingsAreKept(current: string, body: string)
    requires Replace(current, body).Some?
    ensures var r := Replace(current, body).value;
            && current[..Index(current, BEGIN)] <= r
            && r[|r| - |current[Index(current, END)..]|..] == current[Index(current, END)..]
  {
    ReplaceAssembles(current, body);
    var p :| CutInto(current, p) && Replace(current, body) == Some(Assemble(p, body));
    AssembledPieces(p, body);
    assert Assemble(p, body)[..|p.before|] == p.before;
  }

  /** The last replacement wins exactly when the earlier body carries no end marker. */
  lemma LastReplacementWins(current: string, first: string, second: string)
    requires Replace(current, first).Some?
    ensures Replace(Replace(current, first).value, second) == Replace(current, second) <==> !Occurs(first, END)
  {
    ReplaceAssembles(current, first);
    ReplaceAssembles(current, second);
    var p :| CutInto(current, p) && Replace(current, first) == Some(Assemble(p, first));
    var r := Assemble(p, first);
    ReplaceAssembles(r, second);
    if !Occurs(first, END) {
      CutAgain(current, p, first);
    } else {
      CutMoves(current, p, first);
      AssembledPieces(p, first);
      var q := Parts(r[..|p.before|], r[Index(r, END)..]);
      assert CutInto(r, q);
      AssembledPieces(p, second);
      AssembledPieces(q, second);
      assert |q.after| > |p.after|;
    }
  }

  /** A replaced document can always be replaced again. */
  lemma StaysReplaceable(current: string, body: string, again: string)
    requires Replace(current, body).Some?
    ensures Replace(Replace(current, body).value, again).Some?
  {
    ReplaceAssembles(current, body);
    var p :| CutInto(current, p) && Replace(current, body) == Some(Assemble(p, body));
    if Occurs(body, END) {
      CutMoves(current, p, body);
    } else {
      CutAgain(current, p, body);
    }
  }

  /** Generating the same body twice changes nothing. */
  lemma ReplaceIsIdempotent(current: string, body: string)
    requires Replace(current, body).Some? && !Occurs(body, END)
    ensures Replace(Replace(current, body).value, body) == Replace(current, body)
  {
    LastReplacementWins(current, body, body);
  }

  lemma BodyPiece(p: Parts, body: string)
    ensures var r, m := Assemble(p, body), |p.before| + |BEGIN|;
            TailAt(p, body) == m + 4 + |body| <= |r| && r[m..TailAt(p, body)] == "\n\n" + body + "\n\n"
  {
    var m := |p.before| + |BEGIN|;
    var head, middle := p.before + BEGIN, "\n\n" + body + "\n\n";
    assert Assemble(p, body) == head + middle + p.after;
    assert (head + middle + p.after)[m..m + |middle|] == middle;
  }

  lemma EndOfCut(r: string, p: Parts, at: nat)
    requires CutInto(r, p) && |r| == at + |p.after|
    ensures Index(r, END) == at
  {
    hide Index;
    OccurrenceBounds(r, END, Index(r, END));
    assert |r[Index(r, END)..]| == |p.after|;
  }

  /** What a replacement writes: the text from the first begin marker to the first end
      marker of the result is the body, set off by an empty line on either side. */
  lemma BodyIsBetween(current: string, body: string)
    requires Replace(current, body).Some? && !Occurs(body, END)
    ensures var r := Replace(current, body).value;
            var start, end := Index(r, BEGIN), Index(r, END);
            && 0 <= start && start + |BEGIN| <= end <= |r|
            && start == Index(current, BEGIN)
            && r[start + |BEGIN|..end] == "\n\n" + body + "\n\n"
  {
    hide Index, Replace, Occurs, Assemble, TailAt;
    ReplaceAssembles(current, body);
    var p :| CutInto(current, p) && Replace(current, body) == Some(Assemble(p, body));
    CutAgain(current, p, body);
    BodyPiece(p, body);
    AssembledPieces(p, body);
    BeginStays(current, p, body);
    EndOfCut(Assemble(p, body), p, TailAt(p, body));
  }

  /** A document is refused exactly when it lacks a begin marker, lacks an end marker, or
      has an end marker before every begin marker. */
  lemma RefusedExactlyWhen(current: string, body: string)
    ensures Replace(current, body).None? <==>
            !Occurs(current, "<!-- BEGIN GENERATED COMMANDS -->") ||
            !Occurs(current, "<!-- END GENERATED COMMANDS -->") ||
            exists end :: OccursAt(current, "<!-- END GENERATED COMMANDS -->", end) &&
              forall start :: OccursAt(current, "<!-- BEGIN GENERATED COMMANDS -->", start) ==> end < start
  {
    assert BEGIN == "<!-- BEGIN GENERATED COMMANDS -->" && END == "<!-- END GENERATED COMMANDS -->";
    hide OccursAt;
    var start, end := Index(current, BEGIN), Index(current, END);
    if start >= 0 && end >= 0 {
      NeverBelowZero(current, BEGIN);
      NeverBelowZero(current, END);
    }
  }

  lemma NeverBelowZero(s: string, sub: string)
    ensures forall i :: OccursAt(s, sub, i) ==> 0 <= i
  {
  }
}
