/** Merging an overlay configuration into a base one by device name:
    `mergeConfigsByName` of the API and `mergeConfigs` of the command line. */
module MergeByName {
  import opened Text

  datatype Device = Device(name: string, data: string)

  predicate Distinct(devices: seq<Device>) {
    forall i, j :: 0 <= i < j < |devices| ==> devices[i].name != devices[j].name
  }

  /** The device a reader finds under a name: the first one. */
  function Find(devices: seq<Device>, name: string): Option<Device> {
    if devices == [] then None
    else if devices[0].name == name then Some(devices[0])
    else Find(devices[1..], name)
  }

  /** The overlay by name; a later device of the same name wins. */
  function ByName(devices: seq<Device>): (m: map<string, Device>)
    ensures forall n :: n in m ==> m[n].name == n
    ensures forall n :: n in m <==> exists i :: 0 <= i < |devices| && devices[i].name == n
  {
    if devices == [] then map[]
    else
      var last := devices[|devices| - 1];
      ByName(devices[..|devices| - 1])[last.name := last]
  }

  /** `buildDeviceMap` */
  method BuildDeviceMap(devices: seq<Device>) returns (m: map<string, Device>)
    ensures m == ByName(devices)
  {
    m := map[];
    for i := 0 to |devices|
      invariant m == ByName(devices[..i])
    {
      assert devices[..i + 1][..i] == devices[..i];
      m := m[devices[i].name := devices[i]];
    }
    assert devices[..|devices|] == devices;
  }

  /** What the loop over the base emits while `left` is still to be placed. */
  function Head(base: seq<Device>, left: map<string, Device>): (r: seq<Device>)
    ensures |r| == |base|
    decreases |base|
  {
    if base == [] then []
    else if base[0].name in left then [left[base[0].name]] + Head(base[1..], left - {base[0].name})
    else [base[0]] + Head(base[1..], left)
  }

  /** What is left of the overlay after that loop. */
  function Left(base: seq<Device>, left: map<string, Device>): map<string, Device>
    decreases |base|
  {
    if base == [] then left else Left(base[1..], left - {base[0].name})
  }

  /** `tail` lists the devices of `m` in some order, each once. */
  ghost predicate Lists(tail: seq<Device>, m: map<string, Device>) {
    && |tail| == |m|
    && Distinct(tail)
    && forall i :: 0 <= i < |tail| ==> tail[i].name in m && tail[i] == m[tail[i].name]
  }

  /** `r` is a merge of `overlay` into `base`. The order of the overlay-only devices
      is that of a map iteration, so it is not determined. */
  ghost predicate Merges(base: seq<Device>, overlay: seq<Device>, r: seq<Device>) {
    && |base| <= |r|
    && r[..|base|] == Head(base, ByName(overlay))
    && Lists(r[|base|..], Left(base, ByName(overlay)))
  }

  /** The loop over the base: each device is replaced or kept, and what was placed is
      struck off. */
  method PlaceOverBase(base: seq<Device>, overlay: map<string, Device>)
    returns (merged: seq<Device>, left: map<string, Device>)
    ensures merged == Head(base, overlay) && left == Left(base, overlay)
  {
    left := overlay;
    merged := [];
    for i := 0 to |base|
      invariant merged + Head(base[i..], left) == Head(base, overlay)
      invariant Left(base[i..], left) == Left(base, overlay)
    {
      var dev := base[i];
      assert base[i..][0] == dev && base[i..][1..] == base[i + 1..];
      if dev.name in left {
        merged := merged + [left[dev.name]];
        left := left - {dev.name};
      } else {
        merged := merged + [dev];
        assert left - {dev.name} == left;
      }
    }
    assert base[|base|..] == [] && merged + [] == merged;
  }

  /** Both merge functions; they differ in nothing but how the map is filled. */
  method MergeConfigs(base: seq<Device>, overlay: seq<Device>) returns (merged: seq<Device>)
    ensures Merges(base, overlay, merged)
  {
    hide Head, Left, ByName, Lists;
    var byName := BuildDeviceMap(overlay);
    var head, left := PlaceOverBase(base, byName);
    forall n | n in left ensures left[n].name == n {
      LeftIsOverlayOnly(base, byName, n);
    }
    var tail := ListMap(left);
    assert (head + tail)[..|base|] == head && (head + tail)[|base|..] == tail;
    merged := head + tail;
  }

  /** Ranging over a map. */
  method ListMap(m: map<string, Device>) returns (tail: seq<Device>)
    requires forall n :: n in m ==> m[n].name == n
    ensures Lists(tail, m)
  {
    tail := [];
    var left := m.Keys;
    while left != {}
      invariant left <= m.Keys && |tail| + |left| == |m|
      invariant Distinct(tail)
      invariant forall i :: 0 <= i < |tail| ==> tail[i].name in m && tail[i] == m[tail[i].name] && tail[i].name !in left
      decreases |left|
    {
      var n :| n in left;
      left := left - {n};
      tail := tail + [m[n]];
    }
  }

  // ---------------------------------------------------------------------------
  // Laws

  lemma {:induction false} FindMember(devices: seq<Device>, name: string)
    ensures Find(devices, name).Some? <==> exists i :: 0 <= i < |devices| && devices[i].name == name
    ensures Find(devices, name).Some? ==> Find(devices, name).value.name == name && Find(devices, name).value in devices
  {
    if devices != [] && devices[0].name != name {
      FindMember(devices[1..], name);
      if i :| 0 <= i < |devices| && devices[i].name == name {
        assert devices[1..][i - 1].name == name;
      }
    }
  }

  lemma {:induction false} FindConcat(a: seq<Device>, b: seq<Device>, name: string)
    ensures Find(a + b, name) == if Find(a, name).Some? then Find(a, name) else Find(b, name)
  {
    if a == [] {
      assert a + b == b;
    } else {
      FindConcat(a[1..], b, name);
      assert (a + b)[1..] == a[1..] + b;
    }
  }

  lemma {:induction false} LookupInHead(base: seq<Device>, left: map<string, Device>, name: string)
    requires forall n :: n in left ==> left[n].name == n
    ensures Find(Head(base, left), name) ==
            if Find(base, name).None? then None
            else if name in left then Some(left[name]) else Find(base, name)
    decreases |base|
  {
    if base != [] {
      var rest := if base[0].name in left then left - {base[0].name} else left;
      LookupInHead(base[1..], rest, name);
      var head := Head(base, left);
      assert head[1..] == Head(base[1..], rest);
    }
  }

  lemma {:induction false} LeftIsOverlayOnly(base: seq<Device>, left: map<string, Device>, name: string)
    ensures name in Left(base, left) <==> name in left && Find(base, name).None?
    ensures name in Left(base, left) ==> Left(base, left)[name] == left[name]
    decreases |base|
  {
    if base != [] {
      LeftIsOverlayOnly(base[1..], left - {base[0].name}, name);
    }
  }

  lemma LookupInList(tail: seq<Device>, m: map<string, Device>, name: string)
    requires Lists(tail, m) && forall n :: n in m ==> m[n].name == n
    ensures Find(tail, name) == if name in m then Some(m[name]) else None
  {
    FindMember(tail, name);
    ListCoversMap(tail, m);
  }

  lemma ListCoversMap(tail: seq<Device>, m: map<string, Device>)
    requires Lists(tail, m)
    ensures forall n :: n in m ==> exists i :: 0 <= i < |tail| && tail[i].name == n
  {
    var names := set i | 0 <= i < |tail| :: tail[i].name;
    NameCount(tail);
    assert names <= m.Keys;
    if names != m.Keys {
      SubsetSizes(names, m.Keys);
    }
    assert names == m.Keys;
  }

  lemma SubsetSizes(a: set<string>, b: set<string>)
    requires a <= b && |a| == |b|
    ensures a == b
  {
    assert |b - a| == |b| - |a|;
  }

  lemma {:induction false} NameCount(devices: seq<Device>)
    requires Distinct(devices)
    ensures |set i | 0 <= i < |devices| :: devices[i].name| == |devices|
  {
    if devices != [] {
      var front, last := devices[..|devices| - 1], devices[|devices| - 1];
      NameCount(front);
      var before := set i | 0 <= i < |front| :: front[i].name;
      var all := set i | 0 <= i < |devices| :: devices[i].name;
      assert last.name !in before;
      forall n ensures n in all <==> n in before + {last.name} {
        if n in before {
          var i :| 0 <= i < |front| && front[i].name == n;
          assert devices[i].name == n;
        }
        if n in all {
          var i :| 0 <= i < |devices| && devices[i].name == n;
          assert i < |front| ==> front[i].name == n;
        }
        assert devices[|front|].name == last.name;
      }
      assert all == before + {last.name};
    }
  }

  /** Looking up in a merge is looking up in the overlay, then in the base. */
  lemma LookupIsOverlayThenBase(base: seq<Device>, overlay: seq<Device>, r: seq<Device>, name: string)
    requires Merges(base, overlay, r)
    ensures Find(r, name) == if name in ByName(overlay) then Some(ByName(overlay)[name]) else Find(base, name)
  {
    var m := ByName(overlay);
    var head, tail := r[..|base|], r[|base|..];
    assert r == head + tail;
    FindConcat(head, tail, name);
    LookupInHead(base, m, name);
    forall n ensures (n in Left(base, m) <==> n in m && Find(base, n).None?)
                  && (n in Left(base, m) ==> Left(base, m)[n] == m[n]) {
      LeftIsOverlayOnly(base, m, n);
    }
    LookupInList(tail, Left(base, m), name);
  }

  /** No earlier device bears the name of device `i`. */
  predicate First(devices: seq<Device>, i: nat)
    requires i < |devices|
  {
    forall j :: 0 <= j < i ==> devices[j].name != devices[i].name
  }

  /** What stands at position `i`: the overlay's device where the name comes up for the
      first time, the base's own device otherwise. */
  lemma {:induction false} HeadAt(base: seq<Device>, left: map<string, Device>, i: nat)
    requires i < |base|
    ensures Head(base, left)[i] ==
            if base[i].name in left && First(base, i) then left[base[i].name] else base[i]
    decreases |base|
  {
    if i > 0 {
      var rest := if base[0].name in left then left - {base[0].name} else left;
      HeadAt(base[1..], rest, i - 1);
      assert First(base, i) <==> base[0].name != base[i].name && First(base[1..], i - 1) by {
        assert forall j :: 0 < j < |base| ==> base[j] == base[1..][j - 1];
      }
    }
  }

  lemma PositionsKept(base: seq<Device>, overlay: seq<Device>, r: seq<Device>, i: nat)
    requires Merges(base, overlay, r) && i < |base|
    ensures r[i] == if base[i].name in ByName(overlay) && First(base, i) then ByName(overlay)[base[i].name] else base[i]
    ensures r[i].name == base[i].name
  {
    HeadAt(base, ByName(overlay), i);
    assert r[i] == r[..|base|][i];
  }

  lemma OverlayOnlyNames(base: seq<Device>, m: map<string, Device>)
    ensures Left(base, m).Keys == set n | n in m && Find(base, n).None?
  {
    forall n ensures n in Left(base, m) <==> n in m && Find(base, n).None? {
      LeftIsOverlayOnly(base, m, n);
    }
  }

  lemma DistinctJoin(a: seq<Device>, b: seq<Device>)
    requires Distinct(a) && Distinct(b)
    requires forall i, j :: 0 <= i < |a| && 0 <= j < |b| ==> a[i].name != b[j].name
    ensures Distinct(a + b)
  {
  }

  /** A device behind the base is the overlay's, under a name the base does not have. */
  lemma TailIsOverlayOnly(base: seq<Device>, overlay: seq<Device>, r: seq<Device>, i: nat)
    requires Merges(base, overlay, r) && |base| <= i < |r|
    ensures r[i].name in ByName(overlay) && r[i] == ByName(overlay)[r[i].name] && Find(base, r[i].name).None?
  {
    hide Head, Left, ByName, Find;
    LeftIsOverlayOnly(base, ByName(overlay), r[i].name);
    assert r[i] == r[|base|..][i - |base|];
  }

  /** Each base position holds the overlay's device of that name, or its own where the
      name has come up before or is not in the overlay; the size is that of the base
      plus the overlay-only names. */
  lemma MergeShape(base: seq<Device>, overlay: seq<Device>, r: seq<Device>)
    requires Merges(base, overlay, r)
    ensures forall i :: 0 <= i < |base| ==>
              r[i] == if base[i].name in ByName(overlay) && First(base, i)
                      then ByName(overlay)[base[i].name] else base[i]
    ensures forall i :: 0 <= i < |base| ==> r[i].name == base[i].name
    ensures |r| == |base| + |set n | n in ByName(overlay) && Find(base, n).None?|
  {
    hide Find, Head, Left, ByName, First;
    forall i | 0 <= i < |base|
      ensures r[i].name == base[i].name
      ensures r[i] == if base[i].name in ByName(overlay) && First(base, i)
                      then ByName(overlay)[base[i].name] else base[i]
    {
      PositionsKept(base, overlay, r, i);
    }
    OverlayOnlyNames(base, ByName(overlay));
    assert |r| == |base| + |Left(base, ByName(overlay)).Keys|;
  }

  lemma MergeStaysDistinct(base: seq<Device>, overlay: seq<Device>, r: seq<Device>)
    requires Distinct(base) && Merges(base, overlay, r)
    ensures Distinct(r)
  {
    hide Find, Head, Left, ByName;
    var head, tail := r[..|base|], r[|base|..];
    forall i | 0 <= i < |base| ensures head[i].name == base[i].name {
      PositionsKept(base, overlay, r, i);
    }
    forall i, j | 0 <= i < |head| && 0 <= j < |tail| ensures head[i].name != tail[j].name {
      TailIsOverlayOnly(base, overlay, r, |base| + j);
      assert tail[j] == r[|base| + j];
      FindMember(base, tail[j].name);
      assert base[i].name == head[i].name;
    }
    DistinctJoin(head, tail);
    assert r == head + tail;
  }

  /** Names are distinct after a merge exactly when they were in the base. */
  lemma DistinctExactlyWhenBaseIs(base: seq<Device>, overlay: seq<Device>, r: seq<Device>)
    requires Merges(base, overlay, r)
    ensures Distinct(r) <==> Distinct(base)
  {
    if Distinct(base) {
      MergeStaysDistinct(base, overlay, r);
    } else if Distinct(r) {
      var i, j :| 0 <= i < j < |base| && base[i].name == base[j].name;
      PositionsKept(base, overlay, r, i);
      PositionsKept(base, overlay, r, j);
    }
  }

  /** Merging the same overlay again changes nothing. */
  lemma MergeAgain(base: seq<Device>, overlay: seq<Device>, r: seq<Device>, again: seq<Device>)
    requires Merges(base, overlay, r) && Merges(r, overlay, again)
    ensures again == r
  {
    hide Find, Head, Left, ByName, Merges;
    MergeShape(r, overlay, again);
    var m := ByName(overlay);
    forall n | n in m ensures Find(r, n).Some? {
      LookupIsOverlayThenBase(base, overlay, r, n);
    }
    assert (set n | n in m && Find(r, n).None?) == {};
    forall i | 0 <= i < |r| ensures again[i] == r[i] {
      if r[i].name in m && First(r, i) {
        FirstIsOverlays(base, overlay, r, i);
      }
    }
  }

  lemma FirstIsOverlays(base: seq<Device>, overlay: seq<Device>, r: seq<Device>, i: nat)
    requires Merges(base, overlay, r) && i < |r| && r[i].name in ByName(overlay) && First(r, i)
    ensures r[i] == ByName(overlay)[r[i].name]
  {
    hide Find, Head, Left, ByName;
    if i < |base| {
      forall j | 0 <= j <= i ensures r[j].name == base[j].name {
        PositionsKept(base, overlay, r, j);
      }
      PositionsKept(base, overlay, r, i);
    } else {
      TailIsOverlayOnly(base, overlay, r, i);
    }
  }

  lemma {:induction false} LastWins(devices: seq<Device>, p: nat)
    requires p < |devices| && forall j :: p < j < |devices| ==> devices[j].name != devices[p].name
    ensures devices[p].name in ByName(devices) && ByName(devices)[devices[p].name] == devices[p]
  {
    if p < |devices| - 1 {
      LastWins(devices[..|devices| - 1], p);
    }
  }

  /** The position of the last device of a name. */
  lemma {:induction false} LastIndex(devices: seq<Device>, name: string) returns (p: nat)
    requires exists i :: 0 <= i < |devices| && devices[i].name == name
    ensures p < |devices| && devices[p].name == name
    ensures forall j :: p < j < |devices| ==> devices[j].name != name
  {
    p := |devices| - 1;
    if devices[p].name != name {
      var i :| 0 <= i < |devices| && devices[i].name == name;
      assert devices[..p][i].name == name;
      p := LastIndex(devices[..p], name);
    }
  }

  /** Two devices bear this name. */
  predicate Repeated(devices: seq<Device>, name: string) {
    exists i, j :: 0 <= i < j < |devices| && devices[i].name == name && devices[j].name == name
  }

  /** The last device of a name in a merge: the overlay's, unless the name is repeated
      in the base, where only its first device is replaced. */
  lemma LastInMerge(base: seq<Device>, overlay: seq<Device>, r: seq<Device>, name: string)
    requires Merges(base, overlay, r)
    ensures var b, o, m := ByName(base), ByName(overlay), ByName(r);
            && (name in m <==> name in b || name in o)
            && (name in m ==> m[name] == if name in o && !Repeated(base, name) then o[name] else
                                         if name in b then b[name] else o[name])
  {
    hide Find, Head, Left, Lists, First, Repeated;
    forall i | 0 <= i < |base| ensures r[i].name == base[i].name {
      PositionsKept(base, overlay, r, i);
    }
    forall i | |base| <= i < |r|
      ensures r[i].name in ByName(overlay) && r[i] == ByName(overlay)[r[i].name] && r[i].name !in ByName(base)
    {
      TailIsOverlayOnly(base, overlay, r, i);
      FindMember(base, r[i].name);
    }
    if name in ByName(base) {
      var p := LastIndex(base, name);
      LastWins(base, p);
      LastWins(r, p);
      PositionsKept(base, overlay, r, p);
      FirstAndLast(base, name, p);
    } else {
      LookupIsOverlayThenBase(base, overlay, r, name);
      FindMember(base, name);
      FindMember(r, name);
      if name in ByName(r) {
        var p := LastIndex(r, name);
        LastWins(r, p);
      }
      NeverRepeated(base, name);
    }
  }

  lemma NeverRepeated(devices: seq<Device>, name: string)
    requires name !in ByName(devices)
    ensures !Repeated(devices, name)
  {
  }

  lemma FirstAndLast(devices: seq<Device>, name: string, p: nat)
    requires p < |devices| && devices[p].name == name
    requires forall j :: p < j < |devices| ==> devices[j].name != name
    ensures First(devices, p) <==> !Repeated(devices, name)
  {
    if !First(devices, p) {
      var j :| 0 <= j < p && devices[j].name == name;
      assert 0 <= j < p < |devices| && devices[j].name == name && devices[p].name == name;
    }
  }

  /** Merging three configurations either way finds the same device under a name,
      exactly unless the third has the name, the middle one has it twice, and the last
      of those is another device than the third's. */
  lemma MergeIsAssociative(
    a: seq<Device>, b: seq<Device>, c: seq<Device>,
    ab: seq<Device>, abThenC: seq<Device>, bc: seq<Device>, aThenBc: seq<Device>, name: string)
    requires Merges(a, b, ab) && Merges(ab, c, abThenC) && Merges(b, c, bc) && Merges(a, bc, aThenBc)
    ensures Find(abThenC, name) == Find(aThenBc, name) <==>
            !(name in ByName(c) && Repeated(b, name) && ByName(b)[name] != ByName(c)[name])
  {
    hide Find, Head, Left, Merges, Repeated, ByName;
    LookupIsOverlayThenBase(a, b, ab, name);
    LookupIsOverlayThenBase(ab, c, abThenC, name);
    LookupIsOverlayThenBase(a, bc, aThenBc, name);
    LastInMerge(b, c, bc, name);
    if name !in ByName(b) {
      NeverRepeated(b, name);
    }
  }

  /** A configuration with a repeated name between two others. */
  lemma RepeatedNameBreaksAssociativity(
    ab: seq<Device>, abThenC: seq<Device>, bc: seq<Device>, aThenBc: seq<Device>)
    requires var b, c := [Device("d", "1"), Device("d", "2")], [Device("d", "3")];
             Merges([], b, ab) && Merges(ab, c, abThenC) && Merges(b, c, bc) && Merges([], bc, aThenBc)
    ensures Find(abThenC, "d") == Some(Device("d", "3")) && Find(aThenBc, "d") == Some(Device("d", "2"))
  {
    hide Merges, Find, Head, Left;
    var b, c := [Device("d", "1"), Device("d", "2")], [Device("d", "3")];
    LastWins(b, 1);
    LastWins(c, 0);
    assert b[0].name == "d" && b[1].name == "d" && Repeated(b, "d");
    LookupIsOverlayThenBase(ab, c, abThenC, "d");
    LookupIsOverlayThenBase([], bc, aThenBc, "d");
    LastInMerge(b, c, bc, "d");
  }

  /** Two merges of the same inputs agree up to the order of the overlay-only tail. */
  lemma MergesAgree(base: seq<Device>, overlay: seq<Device>, r: seq<Device>, s: seq<Device>)
    requires Merges(base, overlay, r) && Merges(base, overlay, s)
    ensures |r| == |s| && r[..|base|] == s[..|base|]
    ensures forall d :: d in r <==> d in s
  {
    forall d ensures d in r ==> d in s {
      if d in r {
        SameMembers(base, overlay, r, s, d);
      }
    }
    forall d ensures d in s ==> d in r {
      if d in s {
        SameMembers(base, overlay, s, r, d);
      }
    }
  }

  lemma SameMembers(base: seq<Device>, overlay: seq<Device>, r: seq<Device>, s: seq<Device>, d: Device)
    requires Merges(base, overlay, r) && Merges(base, overlay, s) && d in r
    ensures d in s
  {
    hide Head, Left, ByName;
    var i :| 0 <= i < |r| && r[i] == d;
    if i < |base| {
      assert s[i] == s[..|base|][i] == r[..|base|][i];
    } else {
      assert d == r[|base|..][i - |base|];
      var tail := s[|base|..];
      ListCoversMap(tail, Left(base, ByName(overlay)));
      var j :| 0 <= j < |tail| && tail[j].name == d.name;
      assert s[|base| + j] == tail[j];
    }
  }
}
