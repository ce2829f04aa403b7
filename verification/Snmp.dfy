/** SNMP request datagrams: the decoder of scripts/extract-oid-demand.py against
    the encoder of scripts/test-extract-oid-demand.py (section 3 of RFC 3416,
    section 8 of RFC 3417). */
module Snmp {
  import opened Text
  import opened Ber

  const SEQUENCE: Byte := 0x30
  const INTEGER: Byte := 0x02
  const OCTET_STRING: Byte := 0x04
  const NULL_VALUE: Byte := 0x05
  const OBJECT_IDENTIFIER: Byte := 0x06

  type Demand = seq<(string, string)>

  function PduName(tag: Byte): Option<string> {
    if tag == 0xA0 then Some("get")
    else if tag == 0xA1 then Some("getnext")
    else if tag == 0xA5 then Some("getbulk")
    else if tag == 0xA3 then Some("set")
    else None
  }

  // ---------------------------------------------------------------------------
  // Decoder

  function Prepend(done: Demand, rest: Outcome<Demand>): Outcome<Demand> {
    if rest.Value? then Value(done + rest.value) else rest
  }

  /** The first value inside the varbind at `offset`, and where the next varbind starts. */
  function BindingOid(buf: Bytes, offset: nat): (r: Outcome<(Tlv, nat)>)
    ensures r.Value? ==> offset + 2 <= r.value.1 <= |buf|
  {
    var binding :- ReadTlv(buf, offset);
    var oid :- ReadTlv(binding.content, 0);
    Value((oid, binding.next))
  }

  /** The varbind loop from `offset` on. */
  function Bindings(buf: Bytes, offset: nat, name: string): Outcome<Demand>
    decreases |buf| - offset
  {
    if offset >= |buf| then Value([])
    else
      var (oid, next) :- BindingOid(buf, offset);
      if oid.tag == OBJECT_IDENTIFIER then
        var text :- OidText(oid.content);
        Prepend([(name, text)], Bindings(buf, next, name))
      else Bindings(buf, next, name)
  }

  /** Where the value list of a request PDU sits: after three integers. */
  function SkipThree(pdu: Bytes): (r: Outcome<nat>)
    ensures r.Value? ==> r.value <= |pdu|
  {
    var a :- ReadTlv(pdu, 0);
    var b :- ReadTlv(pdu, a.next);
    var c :- ReadTlv(pdu, b.next);
    Value(c.next)
  }

  function PduBindings(pdu: Bytes): Outcome<Bytes> {
    var index :- SkipThree(pdu);
    var bindings :- ReadTlv(pdu, index);
    if bindings.tag != SEQUENCE then Malformed else Value(bindings.content)
  }

  function PduDemand(pdu: Bytes, name: string): Outcome<Demand> {
    var bindings :- PduBindings(pdu);
    Bindings(bindings, 0, name)
  }

  /** The PDU of a message, after its version and community. */
  function MessagePdu(message: Bytes): Outcome<Tlv> {
    var version :- ReadTlv(message, 0);
    var community :- ReadTlv(message, version.next);
    ReadTlv(message, community.next)
  }

  /** What the content of the outer SEQUENCE asks for. */
  function MessageDemand(message: Bytes): Outcome<Demand> {
    var pdu :- MessagePdu(message);
    match PduName(pdu.tag)
    case None => Value([])
    case Some(name) => PduDemand(pdu.content, name)
  }

  function RequestDemand(payload: Bytes): Outcome<Demand> {
    var outer :- ReadTlv(payload, 0);
    if outer.tag != SEQUENCE then Malformed else MessageDemand(outer.content)
  }

  /** The varbind loop of `decode_request`. */
  method DecodeBindings(buf: Bytes, name: string) returns (r: Outcome<Demand>)
    ensures r == Bindings(buf, 0, name)
  {
    var requested: Demand := [];
    var offset: nat := 0;
    PrependNothing(Bindings(buf, 0, name));
    while offset < |buf|
      invariant Prepend(requested, Bindings(buf, offset, name)) == Bindings(buf, 0, name)
      decreases |buf| - offset
    {
      var read :- BindingOid(buf, offset);
      var (oid, next) := read;
      if oid.tag == OBJECT_IDENTIFIER {
        var text :- DecodeOid(oid.content);
        PrependStep(requested, (name, text), Bindings(buf, next, name));
        requested := requested + [(name, text)];
      }
      offset := next;
    }
    assert requested + [] == requested;
    r := Value(requested);
  }

  lemma PrependNothing(rest: Outcome<Demand>)
    ensures Prepend([], rest) == rest
  {
    if rest.Value? {
      assert [] + rest.value == rest.value;
    }
  }

  lemma PrependStep(done: Demand, item: (string, string), rest: Outcome<Demand>)
    ensures Prepend(done, Prepend([item], rest)) == Prepend(done + [item], rest)
  {
    if rest.Value? {
      assert done + ([item] + rest.value) == done + [item] + rest.value;
    }
  }

  /** `decode_request` */
  method DecodeRequest(payload: Bytes) returns (r: Outcome<Demand>)
    ensures r == RequestDemand(payload)
  {
    var outer :- ReadTlv(payload, 0);
    if outer.tag != SEQUENCE {
      return Malformed;
    }
    var message := outer.content;
    var version :- ReadTlv(message, 0);
    var community :- ReadTlv(message, version.next);
    var pdu :- ReadTlv(message, community.next);
    var name := PduName(pdu.tag);
    if name.None? {
      return Value([]);
    }
    var index: nat := 0;
    for i := 0 to 3
      invariant i == 0 ==> index == 0
      invariant i == 1 ==> ReadTlv(pdu.content, 0).Value? && index == ReadTlv(pdu.content, 0).value.next
      invariant i == 2 ==>
        var a := ReadTlv(pdu.content, 0);
        a.Value? && ReadTlv(pdu.content, a.value.next).Value? &&
        index == ReadTlv(pdu.content, a.value.next).value.next
      invariant i == 3 ==> SkipThree(pdu.content) == Value(index)
    {
      var skipped :- ReadTlv(pdu.content, index);
      index := skipped.next;
    }
    var bindings :- ReadTlv(pdu.content, index);
    if bindings.tag != SEQUENCE {
      return Malformed;
    }
    r := DecodeBindings(bindings.content, name.value);
  }

  // ---------------------------------------------------------------------------
  // Encoder

  /** A request as its sender sees it. `ids` are the contents of the request-id and
      of the two integers after it. */
  datatype Request = Request(
    version: Bytes, community: Bytes, pduTag: Byte,
    ids: (Bytes, Bytes, Bytes), oids: seq<seq<nat>>)
  {
    predicate Encodable() {
      forall i :: 0 <= i < |oids| ==> Ber.Encodable(oids[i])
    }
  }

  function EncodeBinding(arcs: seq<nat>): Bytes
    requires Ber.Encodable(arcs)
  {
    EncodeTlv(SEQUENCE, EncodeTlv(OBJECT_IDENTIFIER, OidOctets(arcs)) + EncodeTlv(NULL_VALUE, []))
  }

  function EncodeBindings(oids: seq<seq<nat>>): Bytes
    requires forall i :: 0 <= i < |oids| ==> Ber.Encodable(oids[i])
  {
    if oids == [] then [] else EncodeBinding(oids[0]) + EncodeBindings(oids[1..])
  }

  function EncodePdu(ids: (Bytes, Bytes, Bytes), oids: seq<seq<nat>>): Bytes
    requires forall i :: 0 <= i < |oids| ==> Ber.Encodable(oids[i])
  {
    EncodeTlv(INTEGER, ids.0) + EncodeTlv(INTEGER, ids.1) + EncodeTlv(INTEGER, ids.2)
    + EncodeTlv(SEQUENCE, EncodeBindings(oids))
  }

  function EncodeMessage(m: Request): Bytes
    requires m.Encodable()
  {
    EncodeTlv(INTEGER, m.version) + EncodeTlv(OCTET_STRING, m.community)
    + EncodeTlv(m.pduTag, EncodePdu(m.ids, m.oids))
  }

  /** `snmp_request`, for any version, community and integers. */
  function EncodeRequest(m: Request): Bytes
    requires m.Encodable()
  {
    EncodeTlv(SEQUENCE, EncodeMessage(m))
  }

  // ---------------------------------------------------------------------------
  // Round trip

  function Asked(name: string, oids: seq<seq<nat>>): (d: Demand)
    requires forall i :: 0 <= i < |oids| ==> oids[i] != []
    ensures |d| == |oids|
    ensures forall i :: 0 <= i < |d| ==> d[i] == (name, Dotted(oids[i]))
  {
    seq(|oids|, i requires 0 <= i < |oids| => (name, Dotted(oids[i])))
  }

  function RefoldedAll(oids: seq<seq<nat>>): (r: seq<seq<nat>>)
    requires forall i :: 0 <= i < |oids| ==> |oids[i]| >= 2
    ensures |r| == |oids|
    ensures forall i :: 0 <= i < |r| ==> r[i] == Refolded(oids[i])
  {
    seq(|oids|, i requires 0 <= i < |oids| => Refolded(oids[i]))
  }

  /** One encoded varbind is read as its identifier. */
  lemma BindingRead(buf: Bytes, offset: nat, arcs: seq<nat>)
    requires Ber.Encodable(arcs) && |EncodeBinding(arcs)| < MAX_LENGTH
    requires HoldsAt(buf, offset, EncodeBinding(arcs))
    ensures BindingOid(buf, offset).Value?
    ensures var (oid, next) := BindingOid(buf, offset).value;
            oid.tag == OBJECT_IDENTIFIER && oid.content == OidOctets(arcs) && next == offset + |EncodeBinding(arcs)|
  {
    var oidTlv := EncodeTlv(OBJECT_IDENTIFIER, OidOctets(arcs));
    var content := oidTlv + EncodeTlv(NULL_VALUE, []);
    EncodeDelimits(SEQUENCE, content);
    EncodeDelimits(OBJECT_IDENTIFIER, OidOctets(arcs));
    assert HoldsAt(content, 0, oidTlv);
  }

  lemma BindingStep(buf: Bytes, offset: nat, oid: Tlv, next: nat, name: string, text: string, rest: Demand)
    requires BindingOid(buf, offset) == Value((oid, next)) && oid.tag == OBJECT_IDENTIFIER
    requires OidText(oid.content) == Value(text) && Bindings(buf, next, name) == Value(rest)
    ensures Bindings(buf, offset, name) == Value([(name, text)] + rest)
  {
  }

  lemma EncodedBindingStep(buf: Bytes, offset: nat, arcs: seq<nat>, name: string, rest: Demand)
    requires Ber.Encodable(arcs) && |EncodeBinding(arcs)| < MAX_LENGTH
    requires HoldsAt(buf, offset, EncodeBinding(arcs))
    requires Bindings(buf, offset + |EncodeBinding(arcs)|, name) == Value(rest)
    ensures Bindings(buf, offset, name) == Value([(name, Dotted(Refolded(arcs)))] + rest)
  {
    hide ReadTlv, HoldsAt, EncodeBinding, OidText, Dotted, Bindings;
    BindingRead(buf, offset, arcs);
    OidDecodesRefolded(arcs);
    var (oid, next) := BindingOid(buf, offset).value;
    BindingStep(buf, offset, oid, next, name, Dotted(Refolded(arcs)), rest);
  }

  lemma AskedStep(name: string, oids: seq<seq<nat>>)
    requires oids != [] && forall i :: 0 <= i < |oids| ==> |oids[i]| >= 2
    ensures Asked(name, RefoldedAll(oids)) ==
            [(name, Dotted(Refolded(oids[0])))] + Asked(name, RefoldedAll(oids[1..]))
  {
  }

  lemma {:induction false} BindingsRoundTrip(buf: Bytes, offset: nat, oids: seq<seq<nat>>, name: string)
    requires forall i :: 0 <= i < |oids| ==> Ber.Encodable(oids[i])
    requires offset <= |buf| < MAX_LENGTH && buf[offset..] == EncodeBindings(oids)
    ensures Bindings(buf, offset, name) == Value(Asked(name, RefoldedAll(oids)))
    decreases |oids|
  {
    hide HoldsAt, EncodeBinding, Dotted, Asked, RefoldedAll, BindingOid, OidText;
    if oids != [] {
      var head := EncodeBinding(oids[0]);
      SplitAt(buf, offset, head, EncodeBindings(oids[1..]));
      BindingsRoundTrip(buf, offset + |head|, oids[1..], name);
      EncodedBindingStep(buf, offset, oids[0], name, Asked(name, RefoldedAll(oids[1..])));
      AskedStep(name, oids);
    }
  }

  lemma SplitAt(buf: Bytes, offset: nat, head: Bytes, tail: Bytes)
    requires offset <= |buf| && buf[offset..] == head + tail
    ensures offset + |head| <= |buf|
    ensures HoldsAt(buf, offset, head) && buf[offset + |head|..] == tail
  {
    assert buf[offset..][..|head|] == head;
    assert buf[offset..][|head|..] == tail;
  }

  lemma FourParts(a: Bytes, b: Bytes, c: Bytes, d: Bytes)
    ensures var s := a + b + c + d;
            && HoldsAt(s, 0, a) && HoldsAt(s, |a|, b)
            && HoldsAt(s, |a| + |b|, c) && HoldsAt(s, |a| + |b| + |c|, d)
  {
  }

  lemma ThreeRead(pdu: Bytes, a: Bytes, b: Bytes, c: Bytes, ids: (Bytes, Bytes, Bytes))
    requires HoldsAt(pdu, 0, a) && HoldsAt(pdu, |a|, b) && HoldsAt(pdu, |a| + |b|, c)
    requires Delimits(a, INTEGER, ids.0) && Delimits(b, INTEGER, ids.1) && Delimits(c, INTEGER, ids.2)
    ensures SkipThree(pdu) == Value(|a| + |b| + |c|)
  {
    hide ReadTlv, HoldsAt;
  }

  lemma PduRead(
    pdu: Bytes, a: Bytes, b: Bytes, c: Bytes, d: Bytes, ids: (Bytes, Bytes, Bytes), bindings: Bytes)
    requires HoldsAt(pdu, 0, a) && HoldsAt(pdu, |a|, b)
    requires HoldsAt(pdu, |a| + |b|, c) && HoldsAt(pdu, |a| + |b| + |c|, d)
    requires Delimits(a, INTEGER, ids.0) && Delimits(b, INTEGER, ids.1) && Delimits(c, INTEGER, ids.2)
    requires Delimits(d, SEQUENCE, bindings)
    ensures PduBindings(pdu) == Value(bindings)
  {
    hide ReadTlv, HoldsAt, SkipThree;
    ThreeRead(pdu, a, b, c, ids);
    assert ReadTlv(pdu, |a| + |b| + |c|) == Value(Tlv(SEQUENCE, bindings, |a| + |b| + |c| + |d|));
  }

  lemma PduRoundTrip(ids: (Bytes, Bytes, Bytes), oids: seq<seq<nat>>, name: string)
    requires forall i :: 0 <= i < |oids| ==> Ber.Encodable(oids[i])
    requires |EncodePdu(ids, oids)| < MAX_LENGTH
    ensures PduDemand(EncodePdu(ids, oids), name) == Value(Asked(name, RefoldedAll(oids)))
  {
    var bindings := EncodeBindings(oids);
    EncodeDelimits(INTEGER, ids.0);
    EncodeDelimits(INTEGER, ids.1);
    EncodeDelimits(INTEGER, ids.2);
    EncodeDelimits(SEQUENCE, bindings);
    var a, b, c := EncodeTlv(INTEGER, ids.0), EncodeTlv(INTEGER, ids.1), EncodeTlv(INTEGER, ids.2);
    var d := EncodeTlv(SEQUENCE, bindings);
    FourParts(a, b, c, d);
    PduRead(EncodePdu(ids, oids), a, b, c, d, ids, bindings);
    BindingsRoundTrip(bindings, 0, oids, name);
  }

  /** The whole result of decoding an encoded message, for every PDU tag. */
  function Expected(m: Request): Outcome<Demand>
    requires m.Encodable()
  {
    match PduName(m.pduTag)
    case None => Value([])
    case Some(name) => Value(Asked(name, RefoldedAll(m.oids)))
  }

  lemma MessageRead(
    message: Bytes, a: Bytes, b: Bytes, c: Bytes, version: Bytes, community: Bytes, tag: Byte, pdu: Bytes)
    requires HoldsAt(message, 0, a) && HoldsAt(message, |a|, b) && HoldsAt(message, |a| + |b|, c)
    requires Delimits(a, INTEGER, version) && Delimits(b, OCTET_STRING, community) && Delimits(c, tag, pdu)
    ensures MessagePdu(message) == Value(Tlv(tag, pdu, |a| + |b| + |c|))
  {
    hide ReadTlv, HoldsAt;
  }

  lemma MessageRoundTrip(m: Request)
    requires m.Encodable() && |EncodeMessage(m)| < MAX_LENGTH
    ensures MessageDemand(EncodeMessage(m)) == Expected(m)
  {
    var pdu := EncodePdu(m.ids, m.oids);
    EncodeDelimits(INTEGER, m.version);
    EncodeDelimits(OCTET_STRING, m.community);
    EncodeDelimits(m.pduTag, pdu);
    var a, b := EncodeTlv(INTEGER, m.version), EncodeTlv(OCTET_STRING, m.community);
    var c := EncodeTlv(m.pduTag, pdu);
    FourParts(a, b, c, []);
    assert EncodeMessage(m) + [] == EncodeMessage(m);
    MessageRead(EncodeMessage(m), a, b, c, m.version, m.community, m.pduTag, pdu);
    match PduName(m.pduTag)
    case None =>
    case Some(name) => PduRoundTrip(m.ids, m.oids, name);
  }

  /** Decoding an encoded request yields the PDU name of section 3 of RFC 3416 with
      each identifier in order, whatever the version, community and integers, as long
      as the message is shorter than 2^32 octets; a longer one is refused, and another
      PDU asks for nothing. */
  lemma RequestRoundTrip(m: Request)
    requires m.Encodable() && |BigEndian(|EncodeMessage(m)|)| < 0x80
    ensures var r, oids := RequestDemand(EncodeRequest(m)), RefoldedAll(m.oids);
            if |EncodeMessage(m)| >= 0x1_0000_0000 then r == Malformed
            else if m.pduTag == 0xA0 then r == Value(Asked("get", oids))
            else if m.pduTag == 0xA1 then r == Value(Asked("getnext", oids))
            else if m.pduTag == 0xA3 then r == Value(Asked("set", oids))
            else if m.pduTag == 0xA5 then r == Value(Asked("getbulk", oids))
            else r == Value([])
  {
    RequestExpected(m);
  }

  lemma RequestExpected(m: Request)
    requires m.Encodable() && |BigEndian(|EncodeMessage(m)|)| < 0x80
    ensures RequestDemand(EncodeRequest(m)) ==
            if |EncodeMessage(m)| < MAX_LENGTH then Expected(m) else Malformed
  {
    var payload := EncodeRequest(m);
    assert HoldsAt(payload, 0, payload);
    ReadEncoded(payload, 0, SEQUENCE, EncodeMessage(m));
    if |EncodeMessage(m)| < MAX_LENGTH {
      MessageRoundTrip(m);
    }
  }

  /** The identifiers come back exactly as sent precisely when every second arc
      is below 40. */
  lemma ExactRoundTrip(m: Request, name: string)
    requires m.Encodable() && |EncodeMessage(m)| < 0x1_0000_0000
    requires (m.pduTag, name) in {(0xA0, "get"), (0xA1, "getnext"), (0xA3, "set"), (0xA5, "getbulk")}
    ensures RequestDemand(EncodeRequest(m)) == Value(Asked(name, m.oids))
            <==> forall i :: 0 <= i < |m.oids| ==> m.oids[i][1] < 40
  {
    BigEndianSize(|EncodeMessage(m)|);
    RequestRoundTrip(m);
    hide RequestDemand, EncodeRequest, EncodeMessage, Asked;
    SameAsked(name, m.oids);
  }

  lemma SameAsked(name: string, oids: seq<seq<nat>>)
    requires forall i :: 0 <= i < |oids| ==> |oids[i]| >= 2 && Ber.Encodable(oids[i])
    ensures Asked(name, RefoldedAll(oids)) == Asked(name, oids) <==> forall i :: 0 <= i < |oids| ==> oids[i][1] < 40
  {
    var got, sent := Asked(name, RefoldedAll(oids)), Asked(name, oids);
    forall i | 0 <= i < |oids| ensures got[i] == sent[i] <==> oids[i][1] < 40 {
      OidDecodesRefolded(oids[i]);
      OidRoundTrip(oids[i]);
    }
    if got != sent {
      assert exists i :: 0 <= i < |got| && got[i] != sent[i];
    }
  }

  /** 2.48 shares its first octet with 3.8 and is reported as that. */
  lemma SecondArcAbove39IsMisread()
    ensures Ber.Encodable([2, 48, 1])
    ensures OidText(OidOctets([2, 48, 1])) == Value(Dotted([3, 8, 1]))
    ensures Dotted([3, 8, 1]) != Dotted([2, 48, 1])
  {
    OidDecodesRefolded([2, 48, 1]);
    assert Refolded([2, 48, 1]) == [3, 8, 1];
    if Dotted([3, 8, 1]) == Dotted([2, 48, 1]) {
      DottedInjective([3, 8, 1], [2, 48, 1]);
    }
  }

  // ---------------------------------------------------------------------------
  // Self-delimitation

  /** Octets after a message that decodes never change what it decodes to. */
  lemma TrailingOctetsIgnored(payload: Bytes, extra: Bytes)
    requires RequestDemand(payload).Value?
    ensures RequestDemand(payload + extra) == RequestDemand(payload)
  {
    ReadIgnoresSuffix(payload, 0, extra);
  }

  /** No strict prefix of an encoded request decodes: a single octet runs off the
      end of the buffer, every other prefix raises `BERError`. */
  lemma PrefixNeverDecodes(m: Request, cut: nat)
    requires m.Encodable() && |EncodeMessage(m)| < MAX_LENGTH
    requires cut < |EncodeRequest(m)|
    ensures RequestDemand(EncodeRequest(m)[..cut]) == if cut == 1 then RanOffEnd else Malformed
  {
    var payload := EncodeRequest(m);
    assert HoldsAt(payload, 0, payload);
    EncodeDelimits(SEQUENCE, EncodeMessage(m));
    ReadTruncated(payload, cut);
  }

  // ---------------------------------------------------------------------------
  // Payloads that make the decoder run off the end

  /** Where `buf` stands after `k` complete values from `from` on. */
  function After(buf: Bytes, from: nat, k: nat): Option<nat>
    decreases k
  {
    if k == 0 then Some(from)
    else
      match ReadTlv(buf, from)
      case Value(v) => After(buf, v.next, k - 1)
      case _ => None
  }

  /** The `k`th complete value of `buf`, counting from 0. */
  function Nth(buf: Bytes, k: nat): Option<Tlv> {
    match After(buf, 0, k)
    case None => None
    case Some(at) =>
      match ReadTlv(buf, at)
      case Value(v) => Some(v)
      case _ => None
  }

  /** Fewer than `n` complete values, then exactly one octet. */
  predicate StrayOctet(buf: Bytes, n: nat) {
    exists k: nat | k < n :: After(buf, 0, k) == Some(|buf| - 1)
  }

  /** A varbind the loop gets past: its first value is complete, and not an empty
      object identifier. */
  predicate Passes(binding: Bytes) {
    var first := ReadTlv(binding, 0);
    first.Value? && (first.value.tag == OBJECT_IDENTIFIER ==> first.value.content != [])
  }

  /** `k` varbinds the loop gets past. */
  predicate AllPass(buf: Bytes, from: nat, k: nat)
    decreases k
  {
    k == 0 ||
    (ReadTlv(buf, from).Value? &&
     Passes(ReadTlv(buf, from).value.content) && AllPass(buf, ReadTlv(buf, from).value.next, k - 1))
  }

  /** After `k` such varbinds there is one octet, or a varbind of one octet. */
  predicate EndsBadly(buf: Bytes, from: nat, k: nat) {
    AllPass(buf, from, k) && After(buf, from, k).Some? &&
    var at := After(buf, from, k).value;
    |buf| == at + 1 || (ReadTlv(buf, at).Value? && |ReadTlv(buf, at).value.content| == 1)
  }

  /** Some buffer the decoder opens has a single octet where a value should start. */
  ghost predicate RunsOff(payload: Bytes) {
    |payload| == 1 ||
    (Nth(payload, 0).Some? && Nth(payload, 0).value.tag == SEQUENCE &&
     MessageRunsOff(Nth(payload, 0).value.content))
  }

  ghost predicate MessageRunsOff(message: Bytes) {
    StrayOctet(message, 3) ||
    (Nth(message, 2).Some? && PduName(Nth(message, 2).value.tag).Some? && PduRunsOff(Nth(message, 2).value.content))
  }

  ghost predicate PduRunsOff(pdu: Bytes) {
    StrayOctet(pdu, 4) ||
    (Nth(pdu, 3).Some? && Nth(pdu, 3).value.tag == SEQUENCE &&
     exists k: nat :: EndsBadly(Nth(pdu, 3).value.content, 0, k))
  }

  lemma {:induction false} BindingsRunOff(buf: Bytes, from: nat, name: string)
    ensures Bindings(buf, from, name).RanOffEnd? <==> exists k: nat :: EndsBadly(buf, from, k)
    decreases |buf| - from
  {
    var binding := ReadTlv(buf, from);
    if from < |buf| && binding.Value? && Passes(binding.value.content) {
      var next := binding.value.next;
      BindingsRunOff(buf, next, name);
      if k: nat :| EndsBadly(buf, next, k) {
        assert EndsBadly(buf, from, k + 1);
      }
      if k: nat :| EndsBadly(buf, from, k) {
        if k > 0 {
          assert EndsBadly(buf, next, k - 1);
        }
      }
    } else if |buf| == from + 1 || (binding.Value? && |binding.value.content| == 1) {
      assert EndsBadly(buf, from, 0);
    }
  }

  lemma PduRunOff(pdu: Bytes, name: string)
    ensures PduDemand(pdu, name).RanOffEnd? <==> PduRunsOff(pdu)
  {
    hide ReadTlv, After, Bindings, EndsBadly;
    FirstFour(pdu);
    if Nth(pdu, 3).Some? {
      BindingsRunOff(Nth(pdu, 3).value.content, 0, name);
    }
  }

  /** The positions of the first four values, spelled out. */
  lemma FirstFour(buf: Bytes)
    ensures var a := ReadTlv(buf, 0);
      && After(buf, 0, 0) == Some(0)
      && (if !a.Value? then After(buf, 0, 1).None? && After(buf, 0, 2).None? && After(buf, 0, 3).None? else
          var b := ReadTlv(buf, a.value.next);
          && After(buf, 0, 1) == Some(a.value.next)
          && (if !b.Value? then After(buf, 0, 2).None? && After(buf, 0, 3).None? else
              var c := ReadTlv(buf, b.value.next);
              && After(buf, 0, 2) == Some(b.value.next)
              && After(buf, 0, 3) == if c.Value? then Some(c.value.next) else None))
  {
    hide ReadTlv;
    var a := ReadTlv(buf, 0);
    if a.Value? {
      var b := ReadTlv(buf, a.value.next);
      if b.Value? {
        assert After(buf, a.value.next, 1) == After(buf, b.value.next, 0);
        var c := ReadTlv(buf, b.value.next);
        assert After(buf, a.value.next, 2) == After(buf, b.value.next, 1);
        if c.Value? {
          assert After(buf, b.value.next, 1) == After(buf, c.value.next, 0);
        }
      }
    }
  }

  lemma MessageRunOff(message: Bytes)
    ensures MessageDemand(message).RanOffEnd? <==> MessageRunsOff(message)
  {
    hide ReadTlv, After, PduDemand, PduRunsOff;
    FirstFour(message);
    if Nth(message, 2).Some? && PduName(Nth(message, 2).value.tag).Some? {
      PduRunOff(Nth(message, 2).value.content, PduName(Nth(message, 2).value.tag).value);
    }
  }

  /** The decoder runs off the end exactly when one of the buffers it opens -- the
      payload, the message, the PDU, the varbind list, a varbind -- has a single octet
      left where it expects a value. */
  lemma RunsOffExactlyWhen(payload: Bytes)
    ensures RequestDemand(payload).RanOffEnd? <==> RunsOff(payload)
  {
    hide ReadTlv, After, MessageDemand, MessageRunsOff;
    FirstFour(payload);
    if Nth(payload, 0).Some? {
      MessageRunOff(Nth(payload, 0).value.content);
    }
  }

  /** A message of one octet inside a complete SEQUENCE. */
  lemma NestedOctetRunsOff()
    ensures RequestDemand([0x30, 0x01, 0x02]).RanOffEnd?
  {
    var payload: Bytes := [0x30, 0x01, 0x02];
    assert ReadTlv(payload, 0) == Value(Tlv(0x30, [0x02], 3)) by {
      assert payload[2..3] == [0x02];
    }
  }

  // ---------------------------------------------------------------------------
  // Every payload that decodes

  /** The identifier in the first value of a varbind; none if that is another type. */
  function IdentifierOf(binding: Bytes): seq<string> {
    match ReadTlv(binding, 0)
    case Value(first) =>
      if first.tag == 0x06 && OidText(first.content).Value? then [OidText(first.content).value] else []
    case _ => []
  }

  /** The identifiers of the first `n` varbinds, in order. */
  function Identifiers(list: Bytes, n: nat): seq<string> {
    if n == 0 then []
    else Identifiers(list, n - 1) + if Nth(list, n - 1).Some? then IdentifierOf(Nth(list, n - 1).value.content) else []
  }

  function Named(name: string, oids: seq<string>): (d: Demand)
    ensures |d| == |oids| && forall i :: 0 <= i < |d| ==> d[i] == (name, oids[i])
  {
    seq(|oids|, i requires 0 <= i < |oids| => (name, oids[i]))
  }

  /** `list` is `n` varbinds and nothing else, each with a complete first value that is
      not an empty object identifier. */
  predicate VarbindList(list: Bytes, n: nat) {
    AllPass(list, 0, n) && After(list, 0, n) == Some(|list|)
  }

  /** The fourth value of the PDU is a SEQUENCE of varbinds that ask for `d`. */
  ghost predicate PduAsks(pdu: Bytes, name: string, d: Demand) {
    Nth(pdu, 3).Some? && Nth(pdu, 3).value.tag == 0x30 &&
    var list := Nth(pdu, 3).value.content;
    exists n: nat :: VarbindList(list, n) && d == Named(name, Identifiers(list, n))
  }

  /** The payload starts with a SEQUENCE whose third value is a PDU that asks for `d`. */
  ghost predicate Asks(payload: Bytes, d: Demand) {
    Nth(payload, 0).Some? && Nth(payload, 0).value.tag == 0x30 &&
    var third := Nth(Nth(payload, 0).value.content, 2);
    third.Some? &&
    var pdu := third.value;
    if pdu.tag == 0xA0 then PduAsks(pdu.content, "get", d)
    else if pdu.tag == 0xA1 then PduAsks(pdu.content, "getnext", d)
    else if pdu.tag == 0xA3 then PduAsks(pdu.content, "set", d)
    else if pdu.tag == 0xA5 then PduAsks(pdu.content, "getbulk", d)
    else d == []
  }

  lemma {:induction false} AfterOn(buf: Bytes, from: nat, j: nat, k: nat)
    requires After(buf, from, j).Some?
    ensures After(buf, from, j + k) == After(buf, After(buf, from, j).value, k)
    decreases j
  {
    hide ReadTlv;
    if j > 0 {
      AfterOn(buf, ReadTlv(buf, from).value.next, j - 1, k);
    }
  }

  lemma {:induction false} AllPassOn(buf: Bytes, from: nat, j: nat, k: nat)
    requires AllPass(buf, from, j) && After(buf, from, j).Some?
    ensures AllPass(buf, from, j + k) <==> AllPass(buf, After(buf, from, j).value, k)
    decreases j
  {
    hide ReadTlv, Passes;
    if j > 0 {
      AllPassOn(buf, ReadTlv(buf, from).value.next, j - 1, k);
    }
  }

  lemma NamedOn(name: string, a: seq<string>, b: seq<string>)
    ensures Named(name, a + b) == Named(name, a) + Named(name, b)
  {
  }

  /** Some `n` varbinds, `j` or more, make up the list and ask for `d`. */
  ghost predicate ListAsksFrom(list: Bytes, j: nat, name: string, d: Demand) {
    exists n: nat :: j <= n && VarbindList(list, n) && d == Named(name, Identifiers(list, n))
  }

  /** The loop, entered after `j` varbinds with their identifiers read. */
  lemma {:induction false} BindingsAsk(list: Bytes, j: nat, name: string, d: Demand)
    requires AllPass(list, 0, j) && After(list, 0, j).Some? && After(list, 0, j).value <= |list|
    ensures Prepend(Named(name, Identifiers(list, j)), Bindings(list, After(list, 0, j).value, name)) == Value(d) <==>
            ListAsksFrom(list, j, name, d)
    decreases |list| - After(list, 0, j).value
  {
    hide ReadTlv, Passes;
    var at := After(list, 0, j).value;
    if at == |list| {
      hide AllPass, After, Identifiers;
      AtEndNothingFollows(list, j);
      var done := Named(name, Identifiers(list, j));
      assert done + [] == done;
      assert VarbindList(list, j);
    } else {
      var binding := ReadTlv(list, at);
      StuckHere(list, j);
      if binding.Value? && Passes(binding.value.content) {
        PassOne(list, j);
        BindingsAsk(list, j + 1, name, d);
        NextBinding(list, j, name);
        hide AllPass, After, Identifiers, VarbindList;
        assert ListAsksFrom(list, j, name, d) <==> ListAsksFrom(list, j + 1, name, d);
      } else {
        CannotPass(list, at, name);
      }
    }
  }

  lemma PassOne(list: Bytes, j: nat)
    requires AllPass(list, 0, j) && After(list, 0, j).Some?
    requires var binding := ReadTlv(list, After(list, 0, j).value); binding.Value? && Passes(binding.value.content)
    ensures AllPass(list, 0, j + 1)
    ensures After(list, 0, j + 1) == Some(ReadTlv(list, After(list, 0, j).value).value.next)
  {
    hide ReadTlv, Passes;
    var at := After(list, 0, j).value;
    var next := ReadTlv(list, at).value.next;
    AfterOn(list, 0, j, 1);
    AllPassOn(list, 0, j, 1);
    assert After(list, at, 1) == After(list, next, 0);
    assert AllPass(list, next, 0) && AllPass(list, at, 1);
  }

  lemma CannotPass(list: Bytes, at: nat, name: string)
    requires at < |list|
    requires var binding := ReadTlv(list, at); !(binding.Value? && Passes(binding.value.content))
    ensures !Bindings(list, at, name).Value?
  {
    var binding := ReadTlv(list, at);
    if binding.Value? && ReadTlv(binding.value.content, 0).Value? {
      OidTextOf(ReadTlv(binding.value.content, 0).value.content);
    }
  }

  lemma NextBinding(list: Bytes, j: nat, name: string)
    requires AllPass(list, 0, j) && After(list, 0, j).Some? && After(list, 0, j).value < |list|
    requires var binding := ReadTlv(list, After(list, 0, j).value); binding.Value? && Passes(binding.value.content)
    ensures var at := After(list, 0, j).value;
            Prepend(Named(name, Identifiers(list, j)), Bindings(list, at, name)) ==
            Prepend(Named(name, Identifiers(list, j + 1)), Bindings(list, ReadTlv(list, at).value.next, name))
  {
    hide Bindings, AllPass, After;
    var at := After(list, 0, j).value;
    var v := ReadTlv(list, at).value;
    var done, own := Identifiers(list, j), IdentifierOf(v.content);
    assert Identifiers(list, j + 1) == done + own;
    NamedOn(name, done, own);
    OneBinding(list, at, name);
    PrependTwice(Named(name, done), Named(name, own), Bindings(list, v.next, name));
  }

  lemma OneBinding(list: Bytes, at: nat, name: string)
    requires at < |list| && ReadTlv(list, at).Value? && Passes(ReadTlv(list, at).value.content)
    ensures var v := ReadTlv(list, at).value;
            Bindings(list, at, name) == Prepend(Named(name, IdentifierOf(v.content)), Bindings(list, v.next, name))
  {
    hide OidText;
    var v := ReadTlv(list, at).value;
    OidTextOf(ReadTlv(v.content, 0).value.content);
    PrependNothing(Bindings(list, v.next, name));
    var own := Named(name, IdentifierOf(v.content));
    assert own == [] || own == [(name, IdentifierOf(v.content)[0])];
  }

  lemma OidTextOf(raw: Bytes)
    ensures OidText(raw).Value? <==> raw != []
    ensures raw == [] ==> OidText(raw) == Malformed
  {
  }

  lemma PrependTwice(a: Demand, b: Demand, rest: Outcome<Demand>)
    ensures Prepend(a, Prepend(b, rest)) == Prepend(a + b, rest)
  {
    if rest.Value? {
      assert a + (b + rest.value) == a + b + rest.value;
    }
  }

  /** A list that has ended has no further varbind. */
  lemma AtEndNothingFollows(list: Bytes, j: nat)
    requires After(list, 0, j) == Some(|list|)
    ensures forall n: nat :: j < n ==> After(list, 0, n).None?
  {
    forall n: nat | j < n ensures After(list, 0, n).None? {
      AfterOn(list, 0, j, n - j);
    }
  }

  /** Where a varbind cannot be passed, no longer list is a varbind list. */
  lemma StuckHere(list: Bytes, j: nat)
    requires AllPass(list, 0, j) && After(list, 0, j).Some? && After(list, 0, j).value < |list|
    ensures var binding := ReadTlv(list, After(list, 0, j).value);
            !(binding.Value? && Passes(binding.value.content)) ==> forall n: nat :: j <= n ==> !VarbindList(list, n)
    ensures !VarbindList(list, j)
  {
    hide ReadTlv, Passes;
    forall n: nat | j < n
      ensures var binding := ReadTlv(list, After(list, 0, j).value);
              !(binding.Value? && Passes(binding.value.content)) ==> !VarbindList(list, n)
    {
      AllPassOn(list, 0, j, n - j);
    }
  }

  lemma ListAsks(list: Bytes, name: string, d: Demand)
    ensures Bindings(list, 0, name) == Value(d) <==>
            exists n: nat :: VarbindList(list, n) && d == Named(name, Identifiers(list, n))
  {
    hide VarbindList;
    BindingsAsk(list, 0, name, d);
    assert Named(name, Identifiers(list, 0)) == [];
    PrependNothing(Bindings(list, 0, name));
  }

  lemma PduAsksWhen(pdu: Bytes, name: string, d: Demand)
    ensures PduDemand(pdu, name) == Value(d) <==> PduAsks(pdu, name, d)
  {
    hide ReadTlv, After, Bindings, VarbindList, Identifiers, Named;
    FirstFour(pdu);
    if Nth(pdu, 3).Some? {
      ListAsks(Nth(pdu, 3).value.content, name, d);
    }
  }

  /** Of all payloads, exactly those decode to `d` that ask for it: nothing about tags
      other than these, or about what follows a value, matters. */
  lemma DecodesExactlyWhen(payload: Bytes, d: Demand)
    ensures RequestDemand(payload) == Value(d) <==> Asks(payload, d)
  {
    hide ReadTlv, After, PduDemand, PduAsks;
    FirstFour(payload);
    if Nth(payload, 0).Some? {
      var message := Nth(payload, 0).value.content;
      FirstFour(message);
      if Nth(message, 2).Some? {
        var pdu := Nth(message, 2).value;
        PduAsksWhen(pdu.content, "get", d);
        PduAsksWhen(pdu.content, "getnext", d);
        PduAsksWhen(pdu.content, "set", d);
        PduAsksWhen(pdu.content, "getbulk", d);
      }
    }
  }
}
