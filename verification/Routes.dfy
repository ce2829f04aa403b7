/** Route patterns of scripts/check-route-consumers.py. A pattern is a list of
    segments, `*` standing for any one of them; a trailing slash lets more follow. */
module Routes {
  import opened Text

  datatype Pattern = Pattern(segments: seq<string>, prefix: bool)

  function NonEmpty(parts: seq<string>): (r: seq<string>)
    ensures forall i :: 0 <= i < |r| ==> r[i] != ""
  {
    if parts == [] then []
    else (if parts[0] != "" then [parts[0]] else []) + NonEmpty(parts[1..])
  }

  /** `[s for s in text.split("/") if s]` and `text.endswith("/")` */
  function PatternOf(text: string): (p: Pattern)
    ensures Proper(p)
  {
    Pattern(NonEmpty(Split(text, '/')), text != "" && text[|text| - 1] == '/')
  }

  predicate Proper(p: Pattern) {
    forall i :: 0 <= i < |p.segments| ==> p.segments[i] != ""
  }

  /** `all(a == b or "*" in (a, b) for a, b in zip(rs, cs))` */
  predicate Agree(rs: seq<string>, cs: seq<string>) {
    forall i :: 0 <= i < |rs| && i < |cs| ==> rs[i] == cs[i] || rs[i] == "*" || cs[i] == "*"
  }

  function Min(a: nat, b: nat): nat {
    if a < b then a else b
  }

  /** `matches` */
  predicate Matches(route: string, consumer: string) {
    var r, c := PatternOf(route), PatternOf(consumer);
    if r.prefix && c.prefix then
      var n := Min(|r.segments|, |c.segments|);
      Agree(r.segments[..n], c.segments[..n])
    else if r.prefix then |c.segments| >= |r.segments| && Agree(r.segments, c.segments)
    else if c.prefix then |r.segments| >= |c.segments| && Agree(r.segments, c.segments)
    else |r.segments| == |c.segments| && Agree(r.segments, c.segments)
  }

  /** `is_base_of` */
  predicate IsBaseOf(route: string, consumer: string) {
    var r, c := PatternOf(route), PatternOf(consumer);
    !c.prefix && |c.segments| < |r.segments| && Agree(r.segments, c.segments)
  }

  // ---------------------------------------------------------------------------
  // What a text spells

  /** Segments a route can be written with. */
  predicate Writable(segments: seq<string>) {
    forall i :: 0 <= i < |segments| ==> segments[i] != "" && '/' !in segments[i]
  }

  /** `/a/b` for the segments a and b, `/a/b/` for the prefix pattern. */
  function Spelled(segments: seq<string>, prefix: bool): string {
    if segments == [] then (if prefix then "/" else "")
    else "/" + Join(segments, '/') + if prefix then "/" else ""
  }

  function Kept(part: string): seq<string> {
    if part != "" then [part] else []
  }

  lemma NonEmptyCons(parts: seq<string>)
    requires parts != []
    ensures NonEmpty(parts) == Kept(parts[0]) + NonEmpty(parts[1..])
  {
  }

  lemma Regroup(x: seq<string>, y: seq<string>, z: seq<string>)
    ensures x + (y + z) == (x + y) + z
  {
  }

  lemma FirstOfConcat(a: seq<string>, b: seq<string>)
    requires a != []
    ensures a + b != [] && (a + b)[0] == a[0] && (a + b)[1..] == a[1..] + b
  {
  }

  lemma {:induction false} NonEmptyConcat(a: seq<string>, b: seq<string>)
    ensures NonEmpty(a + b) == NonEmpty(a) + NonEmpty(b)
  {
    hide NonEmpty, Kept;
    if a == [] {
      NoEmptyParts();
      assert a + b == b && [] + NonEmpty(b) == NonEmpty(b);
    } else {
      FirstOfConcat(a, b);
      calc {
        NonEmpty(a + b);
        { NonEmptyCons(a + b); }
        Kept(a[0]) + NonEmpty(a[1..] + b);
        { NonEmptyConcat(a[1..], b); }
        Kept(a[0]) + (NonEmpty(a[1..]) + NonEmpty(b));
        { Regroup(Kept(a[0]), NonEmpty(a[1..]), NonEmpty(b)); }
        (Kept(a[0]) + NonEmpty(a[1..])) + NonEmpty(b);
        { NonEmptyCons(a); }
        NonEmpty(a) + NonEmpty(b);
      }
    }
  }

  lemma {:induction false} NonEmptyAll(segments: seq<string>)
    requires forall i :: 0 <= i < |segments| ==> segments[i] != ""
    ensures NonEmpty(segments) == segments
  {
    if segments != [] {
      NonEmptyAll(segments[1..]);
    }
  }

  lemma {:induction false} JoinLast(parts: seq<string>, last: string)
    requires parts != []
    ensures Join(parts + [last], '/') == Join(parts, '/') + "/" + last
  {
    if |parts| == 1 {
      assert (parts + [last])[1..] == [last];
    } else {
      JoinLast(parts[1..], last);
      assert (parts + [last])[1..] == parts[1..] + [last];
    }
  }

  lemma {:induction false} JoinEnds(parts: seq<string>)
    requires parts != [] && forall i :: 0 <= i < |parts| ==> parts[i] != "" && '/' !in parts[i]
    ensures Join(parts, '/') != "" && Join(parts, '/')[|Join(parts, '/')| - 1] != '/'
  {
    if |parts| == 1 {
      assert parts[0][|parts[0]| - 1] in parts[0];
    } else {
      JoinEnds(parts[1..]);
    }
  }

  function SpelledParts(segments: seq<string>, prefix: bool): seq<string> {
    if prefix then [""] + segments + [""] else [""] + segments
  }

  lemma SpelledJoins(segments: seq<string>, prefix: bool)
    requires segments != []
    ensures Spelled(segments, prefix) == Join(SpelledParts(segments, prefix), '/')
  {
    var parts := [""] + segments;
    assert parts[1..] == segments;
    assert Join(parts, '/') == "/" + Join(segments, '/');
    if prefix {
      JoinLast(parts, "");
    }
  }

  lemma SpelledNonEmpty(segments: seq<string>, prefix: bool)
    requires Writable(segments)
    ensures NonEmpty(SpelledParts(segments, prefix)) == segments
  {
    hide NonEmpty;
    NonEmptyConcat([""] + segments, [""]);
    NonEmptyConcat([""], segments);
    NonEmptyAll(segments);
    NoEmptyParts();
  }

  /** A text means the segments it is written with, no more and no fewer. */
  lemma PatternSpelled(segments: seq<string>, prefix: bool)
    requires Writable(segments)
    ensures PatternOf(Spelled(segments, prefix)) == Pattern(segments, prefix)
  {
    if segments == [] {
      EmptySpelled(prefix);
    } else {
      hide NonEmpty, Split, Join, Spelled, SpelledParts;
      SpelledJoins(segments, prefix);
      NoSlashInParts(segments, prefix);
      SplitJoin(SpelledParts(segments, prefix), '/');
      SpelledNonEmpty(segments, prefix);
      SpelledEnds(segments, prefix);
    }
  }

  lemma NoSlashInParts(segments: seq<string>, prefix: bool)
    requires Writable(segments)
    ensures var parts := SpelledParts(segments, prefix);
            parts != [] && forall i :: 0 <= i < |parts| ==> '/' !in parts[i]
  {
  }

  lemma SpelledEnds(segments: seq<string>, prefix: bool)
    requires Writable(segments) && segments != []
    ensures var text := Spelled(segments, prefix); text != "" && (text[|text| - 1] == '/' <==> prefix)
  {
    hide Join;
    JoinEnds(segments);
  }

  lemma NoEmptyParts()
    ensures NonEmpty([""]) == [] && NonEmpty([]) == []
  {
  }

  lemma EmptySpelled(prefix: bool)
    ensures PatternOf(Spelled([], prefix)) == Pattern([], prefix)
  {
    assert Split("", '/') == [""];
    assert "/"[1..] == "" && Split("/", '/') == ["", ""];
    assert ["", ""][1..] == [""] && [""][1..] == [];
    NoEmptyParts();
  }

  /** Doubled slashes and a missing first slash change nothing: an empty part anywhere
      leaves the segments as they are. */
  lemma EmptyPartChangesNothing(before: seq<string>, after: seq<string>)
    requires before + after != []
    requires forall part :: part in before + after ==> '/' !in part
    ensures PatternOf(Join(before + [""] + after, '/')).segments == PatternOf(Join(before + after, '/')).segments
  {
    hide NonEmpty;
    var parts := before + [""] + after;
    assert forall i :: 0 <= i < |parts| ==> parts[i] == "" || parts[i] in before + after;
    SplitJoin(parts, '/');
    SplitJoin(before + after, '/');
    NonEmptyConcat(before + [""], after);
    NonEmptyConcat(before, [""]);
    NonEmptyConcat(before, after);
    NoEmptyParts();
  }

  // ---------------------------------------------------------------------------
  // Languages

  /** A requested path: segments that are neither empty nor a wildcard. */
  predicate Concrete(path: seq<string>) {
    forall i :: 0 <= i < |path| ==> path[i] != "" && path[i] != "*"
  }

  predicate Accepts(p: Pattern, path: seq<string>) {
    && Concrete(path)
    && (if p.prefix then |path| >= |p.segments| else |path| == |p.segments|)
    && forall i :: 0 <= i < |p.segments| ==> p.segments[i] == "*" || p.segments[i] == path[i]
  }

  /** Segment `i` of a pattern, a wildcard past its end. */
  function At(segments: seq<string>, i: nat): string {
    if i < |segments| then segments[i] else "*"
  }

  /** A concrete path that follows both patterns where they say something. */
  function Common(rs: seq<string>, cs: seq<string>, n: nat): (path: seq<string>)
    ensures |path| == n
    ensures forall i :: 0 <= i < n ==>
              path[i] == if At(rs, i) != "*" then At(rs, i) else if At(cs, i) != "*" then At(cs, i) else "any"
  {
    seq(n, i requires 0 <= i < n =>
      if At(rs, i) != "*" then At(rs, i) else if At(cs, i) != "*" then At(cs, i) else "any")
  }

  lemma CommonIsAccepted(r: Pattern, c: Pattern, n: nat)
    requires Proper(r) && Proper(c) && Agree(r.segments, c.segments)
    requires if r.prefix then n >= |r.segments| else n == |r.segments|
    requires if c.prefix then n >= |c.segments| else n == |c.segments|
    ensures Accepts(r, Common(r.segments, c.segments, n)) && Accepts(c, Common(r.segments, c.segments, n))
  {
  }

  lemma SharedPathAgrees(r: Pattern, c: Pattern, path: seq<string>)
    requires Accepts(r, path) && Accepts(c, path)
    ensures Agree(r.segments, c.segments)
  {
    forall i | 0 <= i < |r.segments| && i < |c.segments|
      ensures r.segments[i] == c.segments[i] || r.segments[i] == "*" || c.segments[i] == "*"
    {
      assert r.segments[i] == "*" || r.segments[i] == path[i];
      assert c.segments[i] == "*" || c.segments[i] == path[i];
    }
  }

  lemma AgreeOnCommonPart(rs: seq<string>, cs: seq<string>)
    ensures var n := Min(|rs|, |cs|); Agree(rs[..n], cs[..n]) <==> Agree(rs, cs)
  {
    var n := Min(|rs|, |cs|);
    if Agree(rs[..n], cs[..n]) {
      forall i | 0 <= i < |rs| && i < |cs| ensures rs[i] == cs[i] || rs[i] == "*" || cs[i] == "*" {
        assert rs[..n][i] == rs[i] && cs[..n][i] == cs[i];
      }
    }
  }

  /** A route matches a consumer exactly when some path is in both languages. */
  lemma MatchingOfPatterns(route: string, consumer: string)
    ensures Matches(route, consumer) <==>
            exists path :: Accepts(PatternOf(route), path) && Accepts(PatternOf(consumer), path)
  {
    var r, c := PatternOf(route), PatternOf(consumer);
    AgreeOnCommonPart(r.segments, c.segments);
    if Matches(route, consumer) {
      var n := if r.prefix && |c.segments| >= |r.segments| then |c.segments| else |r.segments|;
      CommonIsAccepted(r, c, n);
    }
    if path :| Accepts(r, path) && Accepts(c, path) {
      SharedPathAgrees(r, c, path);
    }
  }

  /** A route and a consumer match exactly when some concrete path follows the segments
      of both: as long as an exact pattern, at least as long as a prefix pattern, and
      equal to each segment that is not a wildcard. */
  lemma MatchingIsIntersection(rs: seq<string>, routePrefix: bool, cs: seq<string>, consumerPrefix: bool)
    requires Writable(rs) && Writable(cs)
    ensures Matches(Spelled(rs, routePrefix), Spelled(cs, consumerPrefix)) <==>
            exists path: seq<string> ::
              && Concrete(path)
              && (if routePrefix then |path| >= |rs| else |path| == |rs|)
              && (if consumerPrefix then |path| >= |cs| else |path| == |cs|)
              && (forall i :: 0 <= i < |rs| ==> rs[i] == "*" || rs[i] == path[i])
              && (forall i :: 0 <= i < |cs| ==> cs[i] == "*" || cs[i] == path[i])
  {
    hide Matches, PatternOf, Spelled;
    PatternSpelled(rs, routePrefix);
    PatternSpelled(cs, consumerPrefix);
    MatchingOfPatterns(Spelled(rs, routePrefix), Spelled(cs, consumerPrefix));
    var r, c := Pattern(rs, routePrefix), Pattern(cs, consumerPrefix);
    if path :| && Concrete(path)
               && (if routePrefix then |path| >= |rs| else |path| == |rs|)
               && (if consumerPrefix then |path| >= |cs| else |path| == |cs|)
               && (forall i :: 0 <= i < |rs| ==> rs[i] == "*" || rs[i] == path[i])
               && (forall i :: 0 <= i < |cs| ==> cs[i] == "*" || cs[i] == path[i]) {
      assert Accepts(r, path) && Accepts(c, path);
    }
  }

  /** What `is_base_of` answers for texts spelled so: the consumer is exact, has fewer
      segments, and each of them agrees with the route's. */
  lemma BaseOfSpelled(rs: seq<string>, routePrefix: bool, cs: seq<string>, consumerPrefix: bool)
    requires Writable(rs) && Writable(cs)
    ensures IsBaseOf(Spelled(rs, routePrefix), Spelled(cs, consumerPrefix)) <==>
            !consumerPrefix && |cs| < |rs| &&
            forall i :: 0 <= i < |cs| ==> rs[i] == cs[i] || rs[i] == "*" || cs[i] == "*"
  {
    hide PatternOf, Spelled;
    PatternSpelled(rs, routePrefix);
    PatternSpelled(cs, consumerPrefix);
  }

  /** What `is_base_of` is documented to find: an exact consumer that accepts a strict
      prefix of some path of the route. */
  ghost predicate StopsShort(route: string, consumer: string) {
    var r, c := PatternOf(route), PatternOf(consumer);
    !c.prefix && exists path, n :: Accepts(r, path) && 0 <= n < |path| && Accepts(c, path[..n])
  }

  lemma StopsShortWhen(route: string, consumer: string)
    ensures var r, c := PatternOf(route), PatternOf(consumer);
            StopsShort(route, consumer) <==>
            !c.prefix && Agree(r.segments, c.segments) && (r.prefix || |c.segments| < |r.segments|)
  {
    hide PatternOf, Accepts, Agree;
    var r, c := PatternOf(route), PatternOf(consumer);
    var k := |c.segments|;
    if !c.prefix && Agree(r.segments, c.segments) && (r.prefix || k < |r.segments|) {
      var path := GoesFurther(r, c);
    }
    if path, n :| !c.prefix && Accepts(r, path) && 0 <= n < |path| && Accepts(c, path[..n]) {
      ShorterAgrees(r, c, path, n);
    }
  }

  /** A path of the route that goes on where the consumer stops. */
  lemma GoesFurther(r: Pattern, c: Pattern) returns (path: seq<string>)
    requires Proper(r) && Proper(c) && !c.prefix && Agree(r.segments, c.segments)
    requires r.prefix || |c.segments| < |r.segments|
    ensures Accepts(r, path) && |c.segments| < |path| && Accepts(c, path[..|c.segments|])
  {
    var k := |c.segments|;
    path := Common(r.segments, c.segments, if k < |r.segments| then |r.segments| else k + 1);
    assert Accepts(r, path);
    assert Accepts(c, path[..k]);
  }

  lemma ShorterAgrees(r: Pattern, c: Pattern, path: seq<string>, n: nat)
    requires !c.prefix && Accepts(r, path) && n < |path| && Accepts(c, path[..n])
    ensures Agree(r.segments, c.segments) && (r.prefix || |c.segments| < |r.segments|)
  {
    forall i | 0 <= i < |r.segments| && i < |c.segments|
      ensures r.segments[i] == c.segments[i] || r.segments[i] == "*" || c.segments[i] == "*"
    {
      assert path[..n][i] == path[i];
      assert r.segments[i] == "*" || r.segments[i] == path[i];
      assert c.segments[i] == "*" || c.segments[i] == path[..n][i];
    }
  }

  /** `is_base_of` finds exactly those consumers, unless the route ends in a slash and
      the consumer reaches as far as the route's own segments. */
  lemma BaseIsStrictPrefix(route: string, consumer: string)
    ensures var r, c := PatternOf(route), PatternOf(consumer);
            (IsBaseOf(route, consumer) <==> StopsShort(route, consumer)) <==>
            !(r.prefix && !c.prefix && |c.segments| >= |r.segments| && Agree(r.segments, c.segments))
  {
    StopsShortWhen(route, consumer);
  }

  /** What `is_base_of` finds does stop short. */
  lemma BaseStopsShort(route: string, consumer: string)
    requires IsBaseOf(route, consumer)
    ensures StopsShort(route, consumer)
  {
    StopsShortWhen(route, consumer);
  }

  /** `/a` stops short of `/a/x`, a path of the route `/a/`, and is not called a base. */
  lemma SlashRouteMissesBase()
    ensures StopsShort("/a/", "/a") && !IsBaseOf("/a/", "/a")
  {
    assert Spelled(["a"], true) == "/a/" && Spelled(["a"], false) == "/a";
    PatternSpelled(["a"], true);
    PatternSpelled(["a"], false);
    StopsShortWhen("/a/", "/a");
  }

  /** Matching is symmetric, and adding a trailing slash to a route never loses a
      consumer. */
  lemma LongerLanguageMatchesMore(route: string, wider: string, consumer: string)
    requires PatternOf(wider) == PatternOf(route).(prefix := true) && Matches(route, consumer)
    ensures Matches(wider, consumer) && Matches(consumer, route)
  {
    MatchingOfPatterns(route, consumer);
    MatchingOfPatterns(wider, consumer);
    MatchingOfPatterns(consumer, route);
    var path :| Accepts(PatternOf(route), path) && Accepts(PatternOf(consumer), path);
    assert Accepts(PatternOf(wider), path);
  }
}
