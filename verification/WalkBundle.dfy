/** Which walks a content bundle ships, as scripts/gen-content-bundle.py chooses
    them: the smallest file per device, then the smallest device per vendor. */
module WalkBundle {
  datatype WalkFile = WalkFile(path: string, vendor: string, device: string, size: nat)

  type DeviceKey = (string, string)

  function KeyOf(w: WalkFile): DeviceKey {
    (w.vendor, w.device)
  }

  // ---------------------------------------------------------------------------
  // Keeping the smallest per key

  /** `best` after a loop over `walks`: a later file replaces the kept one only when
      it is strictly smaller. */
  function Best<K(==)>(walks: seq<WalkFile>, key: WalkFile -> K): map<K, WalkFile> {
    if walks == [] then map[]
    else
      var before, walk := Best(walks[..|walks| - 1], key), walks[|walks| - 1];
      var k := key(walk);
      if k !in before || walk.size < before[k].size then before[k := walk] else before
  }

  /** The kept file of a key is the first of the smallest files with that key. */
  lemma {:induction false} BestIsFirstSmallest<K>(walks: seq<WalkFile>, key: WalkFile -> K, k: K)
    ensures k in Best(walks, key) <==> exists i :: 0 <= i < |walks| && key(walks[i]) == k
    ensures k in Best(walks, key) ==>
              exists i :: 0 <= i < |walks| && walks[i] == Best(walks, key)[k] && FirstSmallest(walks, key, i)
  {
    if walks != [] {
      hide FirstSmallest;
      var front, n := walks[..|walks| - 1], |walks| - 1;
      assert walks == front + [walks[n]];
      BestIsFirstSmallest(front, key, k);
      if k in Best(front, key) {
        BestKey(front, key, k);
        var i :| 0 <= i < |front| && front[i] == Best(front, key)[k] && FirstSmallest(front, key, i);
        SmallestStep(front, key, i, walks[n]);
        assert walks[i] == front[i];
      } else if key(walks[n]) == k {
        NewKeyIsSmallest(front, key, walks[n]);
      }
    }
  }

  lemma SmallestStep<K>(front: seq<WalkFile>, key: WalkFile -> K, i: nat, w: WalkFile)
    requires i < |front| && FirstSmallest(front, key, i)
    ensures FirstSmallest(front + [w], key, if key(w) == key(front[i]) && w.size < front[i].size then |front| else i)
  {
    var walks := front + [w];
    assert forall j :: 0 <= j < |front| ==> walks[j] == front[j];
  }

  lemma NewKeyIsSmallest<K>(front: seq<WalkFile>, key: WalkFile -> K, w: WalkFile)
    requires forall j :: 0 <= j < |front| ==> key(front[j]) != key(w)
    ensures FirstSmallest(front + [w], key, |front|)
  {
    var walks := front + [w];
    assert forall j :: 0 <= j < |front| ==> walks[j] == front[j];
  }

  ghost predicate FirstSmallest<K>(walks: seq<WalkFile>, key: WalkFile -> K, i: nat)
    requires i < |walks|
  {
    && (forall j :: 0 <= j < |walks| && key(walks[j]) == key(walks[i]) ==> walks[i].size <= walks[j].size)
    && (forall j :: 0 <= j < i && key(walks[j]) == key(walks[i]) ==> walks[i].size < walks[j].size)
  }

  // ---------------------------------------------------------------------------
  // The order of the listing

  /** Lexicographic order on strings, by code point. */
  predicate Less(a: string, b: string) {
    if b == [] then false
    else if a == [] then true
    else if a[0] != b[0] then a[0] < b[0]
    else Less(a[1..], b[1..])
  }

  /** `a` and `b` differ first at a place where `a` has the smaller character. */
  predicate SmallerAt(a: string, b: string, i: nat) {
    i < |a| && i < |b| && a[..i] == b[..i] && a[i] < b[i]
  }

  lemma SmallerLater(a: string, b: string, i: nat)
    requires a != [] && b != [] && a[0] == b[0]
    ensures SmallerAt(a, b, i + 1) <==> SmallerAt(a[1..], b[1..], i)
    ensures !SmallerAt(a, b, 0)
  {
    if i + 1 < |a| && i + 1 < |b| {
      assert a[..i + 1] == [a[0]] + a[1..][..i] && b[..i + 1] == [b[0]] + b[1..][..i];
      assert a[..i + 1][1..] == a[1..][..i] && b[..i + 1][1..] == b[1..][..i];
    }
  }

  lemma PrefixLater(a: string, b: string)
    requires a != [] && b != [] && a[0] == b[0]
    ensures a <= b <==> a[1..] <= b[1..]
    ensures a == b <==> a[1..] == b[1..]
  {
    assert a == [a[0]] + a[1..] && b == [b[0]] + b[1..];
  }

  /** The order is the dictionary's: at the first difference the smaller character comes
      first, and a word comes before its continuations. */
  lemma {:induction false} LessIsLexicographic(a: string, b: string)
    ensures Less(a, b) <==> (a <= b && a != b) || exists i: nat :: SmallerAt(a, b, i)
  {
    if a != [] && b != [] {
      if a[0] == b[0] {
        hide SmallerAt;
        LessIsLexicographic(a[1..], b[1..]);
        PrefixLater(a, b);
        SmallerLater(a, b, 0);
        if i: nat :| SmallerAt(a, b, i) {
          if i > 0 {
            SmallerLater(a, b, i - 1);
          }
        }
        if j: nat :| SmallerAt(a[1..], b[1..], j) {
          SmallerLater(a, b, j);
        }
      } else if a[0] < b[0] {
        assert SmallerAt(a, b, 0);
      } else {
        assert forall i: nat :: SmallerAt(a, b, i) ==> i == 0 || a[..i][0] == b[..i][0];
      }
    }
  }

  predicate Before(v: WalkFile, w: WalkFile) {
    Less(v.vendor, w.vendor) || (v.vendor == w.vendor && Less(v.device, w.device))
  }

  lemma {:induction false} LessOrder(a: string, b: string, c: string)
    ensures !Less(a, a)
    ensures a == b || Less(a, b) || Less(b, a)
    ensures Less(a, b) && Less(b, c) ==> Less(a, c)
    decreases |a| + |b| + |c|
  {
    if a != [] {
      LessOrder(a[1..], if b == [] then [] else b[1..], if c == [] then [] else c[1..]);
      if b != [] {
        assert a == [a[0]] + a[1..] && b == [b[0]] + b[1..];
      }
    }
  }

  lemma BeforeOrder(u: WalkFile, v: WalkFile, w: WalkFile)
    ensures !Before(u, u)
    ensures KeyOf(u) == KeyOf(v) || Before(u, v) || Before(v, u)
    ensures Before(u, v) && Before(v, w) ==> Before(u, w)
  {
    LessOrder(u.vendor, v.vendor, w.vendor);
    LessOrder(u.device, v.device, w.device);
  }

  predicate Sorted(walks: seq<WalkFile>) {
    forall i, j :: 0 <= i < j < |walks| ==> Before(walks[i], walks[j])
  }

  /** `w` has no key in common with `walks`. */
  predicate NewKey(walks: seq<WalkFile>, w: WalkFile) {
    forall i :: 0 <= i < |walks| ==> KeyOf(walks[i]) != KeyOf(w)
  }

  method Insert(walks: seq<WalkFile>, w: WalkFile) returns (r: seq<WalkFile>)
    requires Sorted(walks) && NewKey(walks, w)
    ensures Sorted(r) && forall x :: x in r <==> x in walks || x == w
  {
    var k := 0;
    while k < |walks| && Before(walks[k], w)
      invariant 0 <= k <= |walks|
      invariant forall i :: 0 <= i < k ==> Before(walks[i], w)
    {
      k := k + 1;
    }
    forall i | k <= i < |walks| ensures Before(w, walks[i]) {
      BeforeOrder(walks[k], w, walks[k]);
      BeforeOrder(w, walks[k], walks[i]);
    }
    r := walks[..k] + [w] + walks[k..];
    assert walks == walks[..k] + walks[k..];
  }

  /** The strictly sorted listing of the values of a map. */
  ghost predicate Lists<K>(r: seq<WalkFile>, m: map<K, WalkFile>) {
    Sorted(r) && forall w :: w in r <==> exists k :: k in m && m[k] == w
  }

  /** No two kept files share vendor and device. */
  ghost predicate KeysApart<K(!new)>(m: map<K, WalkFile>) {
    forall a, b :: a in m && b in m && a != b ==> KeyOf(m[a]) != KeyOf(m[b])
  }

  /** `sorted(best.values(), key=lambda w: (w.vendor, w.device))` */
  method SortValues<K(!new,==)>(m: map<K, WalkFile>) returns (r: seq<WalkFile>)
    requires KeysApart(m)
    ensures Lists(r, m)
  {
    r := [];
    var left := m.Keys;
    while left != {}
      invariant left <= m.Keys && Sorted(r)
      invariant forall w :: w in r <==> exists k :: k in m && k !in left && m[k] == w
      decreases |left|
    {
      var k :| k in left;
      forall i | 0 <= i < |r| ensures KeyOf(r[i]) != KeyOf(m[k]) {
        assert r[i] in r;
      }
      ghost var before := left;
      left := left - {k};
      r := Insert(r, m[k]);
      forall w ensures w in r <==> exists j :: j in m && j !in left && m[j] == w {
        if w == m[k] {
          assert k in m && k !in left && m[k] == w;
        }
      }
    }
  }

  // ---------------------------------------------------------------------------
  // The two selections

  /** `dedupe_by_device` */
  method DedupeByDevice(walks: seq<WalkFile>) returns (r: seq<WalkFile>)
    ensures Lists(r, Best(walks, KeyOf))
  {
    var best: map<DeviceKey, WalkFile> := map[];
    for i := 0 to |walks|
      invariant best == Best(walks[..i], KeyOf)
    {
      assert walks[..i + 1][..i] == walks[..i];
      var walk := walks[i];
      var key := (walk.vendor, walk.device);
      if key !in best || walk.size < best[key].size {
        best := best[key := walk];
      }
    }
    assert walks[..|walks|] == walks;
    DeviceKeysApart(walks);
    r := SortValues(best);
  }

  function VendorOf(w: WalkFile): string {
    w.vendor
  }

  /** `smallest_per_vendor` */
  method SmallestPerVendor(walks: seq<WalkFile>) returns (r: seq<WalkFile>)
    ensures Lists(r, Best(walks, VendorOf))
  {
    var best: map<string, WalkFile> := map[];
    for i := 0 to |walks|
      invariant best == Best(walks[..i], VendorOf)
    {
      assert walks[..i + 1][..i] == walks[..i];
      var walk := walks[i];
      if walk.vendor !in best || walk.size < best[walk.vendor].size {
        best := best[walk.vendor := walk];
      }
    }
    assert walks[..|walks|] == walks;
    VendorKeysApart(walks);
    r := SortValues(best);
  }

  lemma KeptUnderItsKey<K>(walks: seq<WalkFile>, key: WalkFile -> K, k: K)
    requires k in Best(walks, key)
    ensures key(Best(walks, key)[k]) == k && Best(walks, key)[k] in walks
    ensures forall j :: 0 <= j < |walks| && key(walks[j]) == k ==> Best(walks, key)[k].size <= walks[j].size
  {
    BestKey(walks, key, k);
    BestIsFirstSmallest(walks, key, k);
  }

  lemma {:induction false} BestKey<K>(walks: seq<WalkFile>, key: WalkFile -> K, k: K)
    requires k in Best(walks, key)
    ensures key(Best(walks, key)[k]) == k
  {
    var front := walks[..|walks| - 1];
    if k in Best(front, key) {
      BestKey(front, key, k);
    }
  }

  lemma DeviceKeysApart(walks: seq<WalkFile>)
    ensures KeysApart(Best(walks, KeyOf))
  {
    forall k | k in Best(walks, KeyOf) ensures KeyOf(Best(walks, KeyOf)[k]) == k {
      BestKey(walks, KeyOf, k);
    }
  }

  lemma VendorKeysApart(walks: seq<WalkFile>)
    ensures KeysApart(Best(walks, VendorOf))
  {
    forall k | k in Best(walks, VendorOf) ensures VendorOf(Best(walks, VendorOf)[k]) == k {
      BestKey(walks, VendorOf, k);
    }
  }

  // ---------------------------------------------------------------------------
  // The two stages together

  /** The full bundle holds, for every device of the corpus, one smallest file. */
  lemma FullBundle(walks: seq<WalkFile>, full: seq<WalkFile>, w: WalkFile)
    requires Lists(full, Best(walks, KeyOf)) && w in walks
    ensures exists kept ::
              kept in full && kept.vendor == w.vendor && kept.device == w.device && kept in walks && kept.size <= w.size
  {
    var i :| 0 <= i < |walks| && walks[i] == w;
    BestIsFirstSmallest(walks, KeyOf, KeyOf(w));
    KeptUnderItsKey(walks, KeyOf, KeyOf(w));
    var kept := Best(walks, KeyOf)[KeyOf(w)];
    assert kept in full;
  }

  /** The essentials: a strictly sorted part of the full bundle with exactly one file
      per vendor of the corpus, no larger than any file of that vendor. */
  lemma EssentialsAreVendorMinima(walks: seq<WalkFile>, full: seq<WalkFile>, essentials: seq<WalkFile>)
    requires Lists(full, Best(walks, KeyOf)) && Lists(essentials, Best(full, VendorOf))
    ensures Sorted(essentials) && forall w :: w in essentials ==> w in full
    ensures forall i, j :: 0 <= i < j < |essentials| ==> essentials[i].vendor != essentials[j].vendor
    ensures forall w :: w in walks ==> exists e :: e in essentials && e.vendor == w.vendor && e.size <= w.size
    ensures forall e :: e in essentials ==> e in walks && forall w :: w in walks && w.vendor == e.vendor ==> e.size <= w.size
  {
    var best := Best(full, VendorOf);
    forall k | k in best ensures best[k].vendor == k && best[k] in full {
      KeptUnderItsKey(full, VendorOf, k);
    }
    forall i, j | 0 <= i < j < |essentials| ensures essentials[i].vendor != essentials[j].vendor {
      EssentialOfVendor(full, essentials, i);
      EssentialOfVendor(full, essentials, j);
      BeforeOrder(essentials[i], essentials[j], essentials[i]);
      assert Before(essentials[i], essentials[j]);
    }
    forall w | w in walks ensures exists e :: e in essentials && e.vendor == w.vendor && e.size <= w.size {
      var e := VendorMinimum(walks, full, essentials, w);
    }
    forall e | e in essentials ensures e in walks && forall w :: w in walks && w.vendor == e.vendor ==> e.size <= w.size {
      FullComesFromWalks(walks, full, e);
      forall w | w in walks && w.vendor == e.vendor ensures e.size <= w.size {
        var x := VendorMinimum(walks, full, essentials, w);
        assert x == best[w.vendor];
        var k :| k in best && best[k] == e;
      }
    }
  }

  lemma EssentialOfVendor(full: seq<WalkFile>, essentials: seq<WalkFile>, i: nat)
    requires Lists(essentials, Best(full, VendorOf)) && i < |essentials|
    ensures essentials[i].vendor in Best(full, VendorOf)
    ensures Best(full, VendorOf)[essentials[i].vendor] == essentials[i]
  {
    assert essentials[i] in essentials;
    var k :| k in Best(full, VendorOf) && Best(full, VendorOf)[k] == essentials[i];
    BestKey(full, VendorOf, k);
  }

  lemma FullComesFromWalks(walks: seq<WalkFile>, full: seq<WalkFile>, w: WalkFile)
    requires Lists(full, Best(walks, KeyOf)) && w in full
    ensures w in walks
  {
    var k :| k in Best(walks, KeyOf) && Best(walks, KeyOf)[k] == w;
    KeptUnderItsKey(walks, KeyOf, k);
  }

  lemma VendorMinimum(walks: seq<WalkFile>, full: seq<WalkFile>, essentials: seq<WalkFile>, w: WalkFile)
    returns (e: WalkFile)
    requires Lists(full, Best(walks, KeyOf)) && Lists(essentials, Best(full, VendorOf)) && w in walks
    ensures e in essentials && e.vendor == w.vendor && e.size <= w.size
    ensures w.vendor in Best(full, VendorOf) && e == Best(full, VendorOf)[w.vendor]
  {
    FullBundle(walks, full, w);
    var kept :| kept in full && kept.vendor == w.vendor && kept in walks && kept.size <= w.size;
    var i :| 0 <= i < |full| && full[i] == kept;
    BestIsFirstSmallest(full, VendorOf, w.vendor);
    assert VendorOf(full[i]) == w.vendor;
    KeptUnderItsKey(full, VendorOf, w.vendor);
    e := Best(full, VendorOf)[w.vendor];
  }
}
