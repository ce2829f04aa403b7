/** The counting pass of scripts/extract-oid-demand.py: every datagram of a
    capture lands in one bucket, and every requested identifier is counted
    under its pack, role and PDU name. */
module OidDemand {
  import opened Text
  import opened Ber
  import opened Snmp

  /** One UDP/161 datagram as the capture reader yields it. */
  datatype Datagram = Datagram(vlan: nat, destination: string, payload: Bytes)

  type Roles = map<(string, string), string>

  datatype Key = Key(pack: string, role: string, pdu: string, oid: string)

  function PackOf(vlan: nat): Option<string> {
    if vlan == 200 then Some("hospital")
    else if vlan == 201 then Some("warehouse")
    else if vlan == 202 then Some("manufacturing")
    else if vlan == 203 then Some("campus")
    else if vlan == 204 then Some("retail")
    else if vlan == 205 then Some("service-provider")
    else if vlan == 299 then Some("enterprise-scale")
    else None
  }

  /** What the loop body does with one datagram. `Aborts` is the `IndexError` that
      the handler for `BERError` does not catch. */
  datatype Bucket =
    | OffPack
    | Unmapped(address: (string, string))
    | Undecodable
    | Aborts
    | Requested(keys: seq<Key>)

  function KeysOf(pack: string, role: string, asked: Demand): (keys: seq<Key>)
    ensures |keys| == |asked|
    ensures forall i :: 0 <= i < |keys| ==> keys[i] == Key(pack, role, asked[i].0, asked[i].1)
  {
    seq(|asked|, i requires 0 <= i < |asked| => Key(pack, role, asked[i].0, asked[i].1))
  }

  function BucketOf(d: Datagram, roles: Roles): Bucket {
    match PackOf(d.vlan)
    case None => OffPack
    case Some(pack) =>
      if (pack, d.destination) !in roles then Unmapped((pack, d.destination))
      else
        match RequestDemand(d.payload)
        case Value(asked) => Requested(KeysOf(pack, roles[(pack, d.destination)], asked))
        case Malformed => Undecodable
        case RanOffEnd => Aborts
  }

  /** Where each datagram goes, by its VLAN, destination and octets alone: a VLAN without
      a pack; an address without a role; a stray octet; a payload that asks for
      something, filed under pack, role, PDU name and identifier; anything else. */
  lemma BucketExactly(d: Datagram, roles: Roles)
    ensures var packs: map<nat, string> := map[
              200 := "hospital", 201 := "warehouse", 202 := "manufacturing", 203 := "campus",
              204 := "retail", 205 := "service-provider", 299 := "enterprise-scale"];
            var bucket := BucketOf(d, roles);
            if d.vlan !in packs then bucket == OffPack
            else
              var address := (packs[d.vlan], d.destination);
              if address !in roles then bucket == Unmapped(address)
              else
                && (bucket == Aborts <==> RunsOff(d.payload))
                && (forall asked: Demand :: Asks(d.payload, asked) ==>
                      bucket.Requested? && |bucket.keys| == |asked| &&
                      forall i :: 0 <= i < |asked| ==>
                        bucket.keys[i] == Key(address.0, roles[address], asked[i].0, asked[i].1))
                && (bucket == Undecodable <==> !RunsOff(d.payload) && forall asked: Demand :: !Asks(d.payload, asked))
  {
    hide RequestDemand, Asks, RunsOff;
    RunsOffExactlyWhen(d.payload);
    forall asked: Demand ensures RequestDemand(d.payload) == Value(asked) <==> Asks(d.payload, asked) {
      DecodesExactlyWhen(d.payload, asked);
    }
  }

  /** The counters the loop keeps. */
  datatype Tally = Tally(
    datagrams: nat, decoded: nat, undecodable: nat, offPack: nat, unmapped: nat,
    unmappedAddresses: set<(string, string)>, demand: map<Key, nat>)

  /** How many of `ds` satisfy `p`. */
  function Count(ds: seq<Datagram>, p: Datagram -> bool): nat {
    if ds == [] then 0
    else Count(ds[..|ds| - 1], p) + if p(ds[|ds| - 1]) then 1 else 0
  }

  /** Every key requested by `ds`, in capture order. */
  function AllKeys(ds: seq<Datagram>, roles: Roles): seq<Key> {
    if ds == [] then []
    else
      var b := BucketOf(ds[|ds| - 1], roles);
      AllKeys(ds[..|ds| - 1], roles) + if b.Requested? then b.keys else []
  }

  /** A counter holds exactly the multiplicities of the keys it was fed. */
  ghost predicate Counts(demand: map<Key, nat>, keys: seq<Key>) {
    && (forall k :: k in demand <==> k in keys)
    && (forall k :: k in demand ==> demand[k] == multiset(keys)[k])
  }

  /** What the counters must hold after the datagrams `ds`. */
  ghost predicate Accounts(t: Tally, ds: seq<Datagram>, roles: Roles) {
    && t.datagrams == |ds|
    && t.offPack == Count(ds, (d: Datagram) => BucketOf(d, roles).OffPack?)
    && t.unmapped == Count(ds, (d: Datagram) => BucketOf(d, roles).Unmapped?)
    && t.undecodable == Count(ds, (d: Datagram) => BucketOf(d, roles).Undecodable?)
    && t.decoded == Count(ds, (d: Datagram) => BucketOf(d, roles).Requested? && BucketOf(d, roles).keys != [])
    && t.unmappedAddresses ==
       (set d | d in ds && BucketOf(d, roles).Unmapped? :: BucketOf(d, roles).address)
    && Counts(t.demand, AllKeys(ds, roles))
  }

  /** `demand[key] += 1` for each key in turn. */
  method AddKeys(demand: map<Key, nat>, ghost before: seq<Key>, keys: seq<Key>) returns (r: map<Key, nat>)
    requires Counts(demand, before)
    ensures Counts(r, before + keys)
  {
    hide Counts;
    r := demand;
    assert before + keys[..0] == before;
    for i := 0 to |keys|
      invariant Counts(r, before + keys[..i])
    {
      var k := keys[i];
      ghost var sofar := before + keys[..i];
      assert before + keys[..i + 1] == sofar + [k];
      CountsStep(r, sofar, k);
      r := r[k := if k in r then r[k] + 1 else 1];
    }
    assert before + keys[..|keys|] == before + keys;
  }

  lemma CountsStep(demand: map<Key, nat>, keys: seq<Key>, k: Key)
    requires Counts(demand, keys)
    ensures Counts(demand[k := if k in demand then demand[k] + 1 else 1], keys + [k])
  {
    var longer := keys + [k];
    assert multiset(longer) == multiset(keys) + multiset{k};
    assert forall x :: x in longer <==> x in keys || x == k;
  }

  /** How one datagram changes the counters. */
  ghost predicate Step(before: Tally, after: Tally, ds: seq<Datagram>, d: Datagram, roles: Roles) {
    var b := BucketOf(d, roles);
    && after.datagrams == before.datagrams + 1
    && after.offPack == before.offPack + (if b.OffPack? then 1 else 0)
    && after.unmapped == before.unmapped + (if b.Unmapped? then 1 else 0)
    && after.undecodable == before.undecodable + (if b.Undecodable? then 1 else 0)
    && after.decoded == before.decoded + (if b.Requested? && b.keys != [] then 1 else 0)
    && after.unmappedAddresses == before.unmappedAddresses + (if b.Unmapped? then {b.address} else {})
    && Counts(after.demand, AllKeys(ds, roles) + if b.Requested? then b.keys else [])
  }

  /** A datagram to a mapped address in whose payload, or in a value inside it, a
      single octet is left where a value should start. */
  ghost predicate EndsCount(d: Datagram, roles: Roles) {
    PackOf(d.vlan).Some? && (PackOf(d.vlan).value, d.destination) in roles && RunsOff(d.payload)
  }

  lemma AbortsExactlyWhen(d: Datagram, roles: Roles)
    ensures BucketOf(d, roles).Aborts? <==> EndsCount(d, roles)
  {
    hide RequestDemand, RunsOff;
    RunsOffExactlyWhen(d.payload);
  }

  /** The body of the loop in `main`; `None` when it aborts. */
  method CountOne(before: Tally, ghost ds: seq<Datagram>, d: Datagram, roles: Roles) returns (r: Option<Tally>)
    requires Counts(before.demand, AllKeys(ds, roles))
    ensures r.None? <==> EndsCount(d, roles)
    ensures r.Some? ==> Step(before, r.value, ds, d, roles)
  {
    AbortsExactlyWhen(d, roles);
    hide RequestDemand, Counts, EndsCount;
    var t := before.(datagrams := before.datagrams + 1);
    ghost var seen := AllKeys(ds, roles);
    assert seen + [] == seen;
    match PackOf(d.vlan) {
      case None =>
        t := t.(offPack := t.offPack + 1);
      case Some(pack) =>
        if (pack, d.destination) !in roles {
          t := t.(unmapped := t.unmapped + 1,
                  unmappedAddresses := t.unmappedAddresses + {(pack, d.destination)});
        } else {
          var requested := DecodeRequest(d.payload);
          match requested {
            case Malformed => t := t.(undecodable := t.undecodable + 1);
            case RanOffEnd => return None;
            case Value(asked) =>
              if asked != [] {
                t := t.(decoded := t.decoded + 1);
              }
              var demand := AddKeys(t.demand, seen, KeysOf(pack, roles[(pack, d.destination)], asked));
              t := t.(demand := demand);
          }
        }
    }
    r := Some(t);
  }

  /** The loop of `main`. The result is `None` when the run aborts. */
  method TallyCapture(ds: seq<Datagram>, roles: Roles) returns (r: Option<Tally>)
    ensures r.None? <==> exists i :: 0 <= i < |ds| && EndsCount(ds[i], roles)
    ensures r.Some? ==> Accounts(r.value, ds, roles)
  {
    hide BucketOf, Step, EndsCount;
    var t := Tally(0, 0, 0, 0, 0, {}, map[]);
    assert ds[..0] == [];
    for i := 0 to |ds|
      invariant Accounts(t, ds[..i], roles)
      invariant forall j :: 0 <= j < i ==> !EndsCount(ds[j], roles)
    {
      var counted := CountOne(t, ds[..i], ds[i], roles);
      if counted.None? {
        return None;
      }
      AccountsStep(t, counted.value, ds[..i], ds[i], roles);
      assert ds[..i] + [ds[i]] == ds[..i + 1];
      t := counted.value;
    }
    assert ds[..|ds|] == ds;
    r := Some(t);
  }

  /** One datagram changes exactly the counters of its bucket. */
  lemma AccountsStep(before: Tally, after: Tally, ds: seq<Datagram>, d: Datagram, roles: Roles)
    requires Accounts(before, ds, roles) && Step(before, after, ds, d, roles)
    ensures Accounts(after, ds + [d], roles)
  {
    hide BucketOf, Counts, Count, AllKeys;
    var longer := ds + [d];
    CountStep(ds, d, (x: Datagram) => BucketOf(x, roles).OffPack?);
    CountStep(ds, d, (x: Datagram) => BucketOf(x, roles).Unmapped?);
    CountStep(ds, d, (x: Datagram) => BucketOf(x, roles).Undecodable?);
    CountStep(ds, d, (x: Datagram) => BucketOf(x, roles).Requested? && BucketOf(x, roles).keys != []);
    AllKeysStep(ds, d, roles);
    var addresses := set x | x in longer && BucketOf(x, roles).Unmapped? :: BucketOf(x, roles).address;
    var earlier := set x | x in ds && BucketOf(x, roles).Unmapped? :: BucketOf(x, roles).address;
    assert addresses == earlier + (if BucketOf(d, roles).Unmapped? then {BucketOf(d, roles).address} else {});
  }

  lemma CountStep(ds: seq<Datagram>, d: Datagram, p: Datagram -> bool)
    ensures Count(ds + [d], p) == Count(ds, p) + if p(d) then 1 else 0
  {
    assert (ds + [d])[..|ds|] == ds;
  }

  lemma AllKeysStep(ds: seq<Datagram>, d: Datagram, roles: Roles)
    ensures AllKeys(ds + [d], roles) ==
            AllKeys(ds, roles) + if BucketOf(d, roles).Requested? then BucketOf(d, roles).keys else []
  {
    hide BucketOf;
    assert (ds + [d])[..|ds|] == ds;
  }

  /** How many datagrams decode to an empty list: responses and unknown PDUs. */
  function Silent(ds: seq<Datagram>, roles: Roles): nat {
    Count(ds, (d: Datagram) => BucketOf(d, roles).Requested? && BucketOf(d, roles).keys == [])
  }

  lemma {:induction false} BucketsPartition(ds: seq<Datagram>, roles: Roles)
    requires forall i :: 0 <= i < |ds| ==> !BucketOf(ds[i], roles).Aborts?
    ensures |ds| == Count(ds, (d: Datagram) => BucketOf(d, roles).OffPack?)
                  + Count(ds, (d: Datagram) => BucketOf(d, roles).Unmapped?)
                  + Count(ds, (d: Datagram) => BucketOf(d, roles).Undecodable?)
                  + Count(ds, (d: Datagram) => BucketOf(d, roles).Requested? && BucketOf(d, roles).keys != [])
                  + Silent(ds, roles)
  {
    if ds != [] {
      BucketsPartition(ds[..|ds| - 1], roles);
    }
  }

  /** Conservation: the four printed counts add up to the number of datagrams
      exactly when no mapped datagram decodes to an empty list. */
  lemma PrintedCountsAddUp(t: Tally, ds: seq<Datagram>, roles: Roles)
    requires Accounts(t, ds, roles)
    requires forall i :: 0 <= i < |ds| ==> !EndsCount(ds[i], roles)
    ensures t.datagrams == t.decoded + t.offPack + t.unmapped + t.undecodable + Silent(ds, roles)
    ensures t.datagrams == t.decoded + t.offPack + t.unmapped + t.undecodable <==>
            forall d :: d in ds && BucketOf(d, roles).Requested? ==> BucketOf(d, roles).keys != []
  {
    hide BucketOf, EndsCount;
    forall i | 0 <= i < |ds| ensures !BucketOf(ds[i], roles).Aborts? {
      AbortsExactlyWhen(ds[i], roles);
    }
    BucketsPartition(ds, roles);
    SilentIsZero(ds, roles);
  }

  /** Any well-formed message of another PDU type to a mapped address is silent: a
      response, for one. */
  lemma OtherPduIsSilent(d: Datagram, roles: Roles, m: Request)
    requires PackOf(d.vlan).Some? && (PackOf(d.vlan).value, d.destination) in roles
    requires m.Encodable() && |EncodeMessage(m)| < MAX_LENGTH && PduName(m.pduTag).None?
    requires d.payload == EncodeRequest(m)
    ensures BucketOf(d, roles) == Requested([]) && Silent([d], roles) == 1
  {
    hide RequestDemand, EncodeRequest, EncodeMessage;
    BigEndianSize(|EncodeMessage(m)|);
    RequestRoundTrip(m);
    assert [d][..0] == [];
    assert Count([], (x: Datagram) => BucketOf(x, roles).Requested? && BucketOf(x, roles).keys == []) == 0;
  }

  lemma {:induction false} SilentIsZero(ds: seq<Datagram>, roles: Roles)
    ensures Silent(ds, roles) == 0 <==>
            forall d :: d in ds && BucketOf(d, roles).Requested? ==> BucketOf(d, roles).keys != []
  {
    if ds != [] {
      var front, last := ds[..|ds| - 1], ds[|ds| - 1];
      SilentIsZero(front, roles);
      assert forall d :: d in ds <==> d in front || d == last;
    }
  }

  /** Sum of all counts in a demand map. */
  ghost function Total(demand: map<Key, nat>): nat
    decreases |demand|
  {
    if demand == map[] then 0
    else
      var k :| k in demand;
      demand[k] + Total(demand - {k})
  }

  lemma {:induction false} TotalSplit(demand: map<Key, nat>, k: Key)
    requires k in demand
    ensures Total(demand) == demand[k] + Total(demand - {k})
    decreases |demand|
  {
    var j :| j in demand && Total(demand) == demand[j] + Total(demand - {j});
    if j != k {
      TotalSplit(demand - {j}, k);
      TotalSplit(demand - {k}, j);
      assert demand - {j} - {k} == demand - {k} - {j};
    }
  }

  /** The counter as it was before its last increment at `k`. */
  function Decrement(demand: map<Key, nat>, k: Key): map<Key, nat>
    requires k in demand && demand[k] >= 1
  {
    if demand[k] == 1 then demand - {k} else demand[k := demand[k] - 1]
  }

  lemma DecrementCounts(demand: map<Key, nat>, front: seq<Key>, k: Key)
    requires Counts(demand, front + [k])
    ensures k in demand && demand[k] >= 1 && Counts(Decrement(demand, k), front)
  {
    var keys := front + [k];
    assert keys[|front|] == k;
    assert multiset(keys) == multiset(front) + multiset{k};
    var fewer := Decrement(demand, k);
    forall x ensures x in fewer <==> x in front {
      assert x in front <==> x in multiset(front);
      assert x in keys <==> x in front || x == k;
    }
  }

  lemma DecrementTotal(demand: map<Key, nat>, k: Key)
    requires k in demand && demand[k] >= 1
    ensures Total(demand) == Total(Decrement(demand, k)) + 1
  {
    TotalSplit(demand, k);
    if demand[k] != 1 {
      var fewer := Decrement(demand, k);
      TotalSplit(fewer, k);
      assert fewer - {k} == demand - {k};
    }
  }

  /** The counts of the written matrix add up to the number of varbinds read. */
  lemma {:induction false} DemandIsConserved(demand: map<Key, nat>, keys: seq<Key>)
    requires Counts(demand, keys)
    ensures Total(demand) == |keys|
    decreases |keys|
  {
    if keys == [] {
      assert demand == map[];
    } else {
      var k, front := keys[|keys| - 1], keys[..|keys| - 1];
      assert keys == front + [k];
      DecrementCounts(demand, front, k);
      DecrementTotal(demand, k);
      DemandIsConserved(Decrement(demand, k), front);
    }
  }

  /** One octet ends the count, and so does a longer payload with one octet inside. */
  lemma OneOctetAborts(d: Datagram, roles: Roles)
    requires PackOf(d.vlan).Some? && (PackOf(d.vlan).value, d.destination) in roles
    requires |d.payload| == 1 || d.payload == [0x30, 0x01, 0x02]
    ensures EndsCount(d, roles) && BucketOf(d, roles) == Aborts
  {
    hide RequestDemand;
    AbortsExactlyWhen(d, roles);
    RunsOffExactlyWhen(d.payload);
    NestedOctetRunsOff();
  }
}
