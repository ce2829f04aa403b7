/** Tag-length-value octets, as scripts/extract-oid-demand.py reads them and
    scripts/test-extract-oid-demand.py writes them (sections 8.1.3 and 8.19 of
    ITU-T X.690). */
module Ber {
  import opened Text

  type Byte = x: int | 0 <= x < 256
  type Bytes = seq<Byte>

  /** What a decoding function does: return a value, raise `BERError`, or index
      past the end of the buffer, which Python reports as `IndexError`. */
  datatype Outcome<+T> = Value(value: T) | Malformed | RanOffEnd {
    predicate IsFailure() { !Value? }

    function PropagateFailure<U>(): Outcome<U>
      requires IsFailure()
    {
      if Malformed? then Malformed else RanOffEnd
    }

    function Extract(): T
      requires Value?
    {
      value
    }
  }

  datatype Tlv = Tlv(tag: Byte, content: Bytes, next: nat)

  const MAX_LENGTH := 0x1_0000_0000

  /** `int.from_bytes(s, "big")` */
  function BigEndianValue(s: Bytes): nat {
    if s == [] then 0 else 256 * BigEndianValue(s[..|s| - 1]) + s[|s| - 1]
  }

  /** `n.to_bytes((n.bit_length() + 7) // 8, "big")`: the shortest big-endian form. */
  function BigEndian(n: nat): Bytes {
    if n == 0 then [] else BigEndian(n / 256) + [n % 256]
  }

  function ReadLength(buf: Bytes, index: nat): (r: Outcome<(nat, nat)>)
    ensures r.RanOffEnd? <==> |buf| <= index
    ensures r.Value? ==> index + 1 <= r.value.1 <= |buf|
  {
    if index >= |buf| then RanOffEnd
    else
      var first := buf[index];
      if first < 0x80 then Value((first, index + 1))
      else
        var count := first % 0x80;
        if count == 0 || count > 4 || index + 1 + count > |buf| then Malformed
        else Value((BigEndianValue(buf[index + 1..index + 1 + count]), index + 1 + count))
  }

  /** A successful read stays inside the buffer and advances by at least two;
      the read runs off the end exactly when the tag is the last octet. */
  function ReadTlv(buf: Bytes, index: nat): (r: Outcome<Tlv>)
    ensures r.Value? ==> index + 2 + |r.value.content| <= r.value.next <= |buf|
    ensures r.RanOffEnd? <==> |buf| == index + 1
  {
    if index >= |buf| then Malformed
    else
      var tag := buf[index];
      var (length, start) :- ReadLength(buf, index + 1);
      if start + length > |buf| then Malformed
      else Value(Tlv(tag, buf[start..start + length], start + length))
  }

  /** The length octets `tlv` writes; `0x80 | k` is `128 + k % 128` for every octet k. */
  function LengthOctets(n: nat): (s: Bytes)
    ensures s != []
  {
    if n < 0x80 then [n]
    else [0x80 + |BigEndian(n)| % 0x80] + BigEndian(n)
  }

  function EncodeTlv(tag: Byte, payload: Bytes): (s: Bytes)
    ensures |s| >= 2 + |payload|
  {
    [tag] + LengthOctets(|payload|) + payload
  }

  /** `part` is what the buffer holds from `index` on. */
  predicate HoldsAt(buf: Bytes, index: nat, part: Bytes) {
    index + |part| <= |buf| && buf[index..index + |part|] == part
  }

  lemma HoldsAtParts(buf: Bytes, index: nat, a: Bytes, b: Bytes)
    requires HoldsAt(buf, index, a + b)
    ensures HoldsAt(buf, index, a) && HoldsAt(buf, index + |a|, b)
    ensures a != [] ==> buf[index] == a[0]
  {
    var whole := buf[index..index + |a + b|];
    assert whole[..|a|] == a;
    assert whole[|a|..] == b;
  }

  lemma HoldsAtHead(buf: Bytes, index: nat, part: Bytes)
    requires part != [] && HoldsAt(buf, index, part)
    ensures buf[index] == part[0] && HoldsAt(buf, index + 1, part[1..])
  {
    assert part == [part[0]] + part[1..];
    HoldsAtParts(buf, index, [part[0]], part[1..]);
  }

  lemma {:induction false} BigEndianRoundTrip(n: nat)
    ensures BigEndianValue(BigEndian(n)) == n
  {
    if n != 0 {
      BigEndianRoundTrip(n / 256);
      var s := BigEndian(n);
      assert s[..|s| - 1] == BigEndian(n / 256);
    }
  }

  lemma BigEndianSize(n: nat)
    ensures |BigEndian(n)| <= 4 <==> n < MAX_LENGTH
    ensures |BigEndian(n)| == 0 <==> n == 0
  {
    var a := n / 256;
    var b := a / 256;
    var c := b / 256;
    var d := c / 256;
    assert n != 0 ==> |BigEndian(n)| == |BigEndian(a)| + 1;
    assert a != 0 ==> |BigEndian(a)| == |BigEndian(b)| + 1;
    assert b != 0 ==> |BigEndian(b)| == |BigEndian(c)| + 1;
    assert c != 0 ==> |BigEndian(c)| == |BigEndian(d)| + 1;
    assert d == 0 <==> n < MAX_LENGTH;
    if d != 0 {
      assert |BigEndian(d)| == |BigEndian(d / 256)| + 1;
    }
  }

  lemma ReadLongForm(buf: Bytes, index: nat, big: Bytes)
    requires 1 <= |big| < 0x80 && index + 1 + |big| <= |buf|
    requires buf[index] == 0x80 + |big| && buf[index + 1..index + 1 + |big|] == big
    ensures ReadLength(buf, index) ==
            if |big| <= 4 then Value((BigEndianValue(big), index + 1 + |big|)) else Malformed
  {
    var first := buf[index];
    assert first % 0x80 == |big|;
  }

  lemma LongLengthOctets(n: nat)
    requires 0x80 <= n && |BigEndian(n)| < 0x80
    ensures LengthOctets(n) == [0x80 + |BigEndian(n)|] + BigEndian(n)
    ensures |BigEndian(n)| >= 1 && BigEndianValue(BigEndian(n)) == n
  {
    BigEndianSize(n);
    BigEndianRoundTrip(n);
  }

  lemma ReadLongOctets(buf: Bytes, index: nat, big: Bytes)
    requires 1 <= |big| < 0x80 && HoldsAt(buf, index, [0x80 + |big|] + big)
    ensures ReadLength(buf, index) ==
            if |big| <= 4 then Value((BigEndianValue(big), index + 1 + |big|)) else Malformed
  {
    var octets := [0x80 + |big|] + big;
    HoldsAtHead(buf, index, octets);
    assert octets[1..] == big;
    ReadLongForm(buf, index, big);
  }

  /** Length octets are read back exactly when the reader accepts their count. */
  lemma ReadLengthEncoded(buf: Bytes, index: nat, n: nat)
    requires HoldsAt(buf, index, LengthOctets(n)) && |BigEndian(n)| < 0x80
    ensures ReadLength(buf, index) ==
            if n < MAX_LENGTH then Value((n, index + |LengthOctets(n)|)) else Malformed
  {
    if n < 0x80 {
      HoldsAtHead(buf, index, [n]);
    } else {
      LongLengthOctets(n);
      BigEndianSize(n);
      ReadLongOctets(buf, index, BigEndian(n));
    }
  }

  lemma ReadTlvParts(buf: Bytes, index: nat, tag: Byte, octets: Bytes, payload: Bytes)
    requires octets != [] && HoldsAt(buf, index, [tag] + octets + payload)
    requires var r := ReadLength(buf, index + 1);
             r == Malformed || r == Value((|payload|, index + 1 + |octets|))
    ensures ReadTlv(buf, index) ==
            if ReadLength(buf, index + 1).Malformed? then Malformed
            else Value(Tlv(tag, payload, index + 1 + |octets| + |payload|))
  {
    HoldsAtParts(buf, index, [tag] + octets, payload);
    HoldsAtParts(buf, index, [tag], octets);
  }

  /** Reading where `EncodeTlv` wrote gives the tag and payload back exactly
      when the payload length fits the four octets the reader accepts. */
  lemma ReadEncoded(buf: Bytes, index: nat, tag: Byte, payload: Bytes)
    requires HoldsAt(buf, index, EncodeTlv(tag, payload))
    requires |BigEndian(|payload|)| < 0x80
    ensures ReadTlv(buf, index) ==
            if |payload| < MAX_LENGTH
            then Value(Tlv(tag, payload, index + |EncodeTlv(tag, payload)|))
            else Malformed
  {
    hide ReadTlv, ReadLength, LengthOctets, BigEndian, HoldsAt;
    var octets := LengthOctets(|payload|);
    HoldsAtParts(buf, index, [tag] + octets, payload);
    HoldsAtParts(buf, index, [tag], octets);
    ReadLengthEncoded(buf, index + 1, |payload|);
    ReadTlvParts(buf, index, tag, octets, payload);
  }

  /** `code` reads as this tag and payload wherever a buffer holds it. */
  ghost predicate Delimits(code: Bytes, tag: Byte, payload: Bytes) {
    forall buf: Bytes, index: nat {:trigger HoldsAt(buf, index, code)} ::
      HoldsAt(buf, index, code) ==> ReadTlv(buf, index) == Value(Tlv(tag, payload, index + |code|))
  }

  lemma EncodeDelimits(tag: Byte, payload: Bytes)
    requires |payload| < MAX_LENGTH
    ensures Delimits(EncodeTlv(tag, payload), tag, payload)
  {
    BigEndianSize(|payload|);
    var code := EncodeTlv(tag, payload);
    forall buf: Bytes, index: nat | HoldsAt(buf, index, code)
      ensures ReadTlv(buf, index) == Value(Tlv(tag, payload, index + |code|))
    {
      ReadEncoded(buf, index, tag, payload);
    }
  }

  /** A value that decodes never depends on what follows it. */
  lemma ReadIgnoresSuffix(buf: Bytes, index: nat, extra: Bytes)
    requires ReadTlv(buf, index).Value?
    ensures ReadTlv(buf + extra, index) == ReadTlv(buf, index)
  {
    var longer := buf + extra;
    assert forall i :: 0 <= i < |buf| ==> longer[i] == buf[i];
    var (length, start) := ReadLength(buf, index + 1).value;
    assert longer[index + 2..start] == buf[index + 2..start];
    assert longer[start..start + length] == buf[start..start + length];
  }

  /** Cutting a buffer anywhere before the end of its first value makes the read
      fail: on one octet by running off the end, on any other count with `BERError`. */
  lemma ReadTruncated(buf: Bytes, cut: nat)
    requires ReadTlv(buf, 0).Value? && cut < ReadTlv(buf, 0).value.next
    ensures ReadTlv(buf[..cut], 0) == if cut == 1 then RanOffEnd else Malformed
  {
    var shorter := buf[..cut];
    var (length, start) := ReadLength(buf, 1).value;
    if cut >= 2 && start <= cut {
      SliceOfPrefix(buf, cut, 2, start);
    }
  }

  lemma SliceOfPrefix(buf: Bytes, cut: nat, a: nat, b: nat)
    requires a <= b <= cut <= |buf|
    ensures buf[..cut][a..b] == buf[a..b]
  {
  }

  /** Length octets as section 8.1.3 of ITU-T X.690 allows them: one octet below 0x80,
      or a count of one to four and that many octets, not necessarily the fewest. */
  predicate IsLength(octets: Bytes, n: nat) {
    (n < 0x80 && octets == [n]) ||
    (2 <= |octets| <= 5 && octets[0] == 0x80 + |octets| - 1 && BigEndianValue(octets[1..]) == n)
  }

  /** A value is read exactly where a buffer holds its tag, length octets for its size,
      and that many octets. */
  lemma ReadExactlyWhen(buf: Bytes, index: nat, tag: Byte, content: Bytes, next: nat)
    ensures ReadTlv(buf, index) == Value(Tlv(tag, content, next)) <==>
            exists octets ::
              IsLength(octets, |content|) && HoldsAt(buf, index, [tag] + octets + content)
              && next == index + 1 + |octets| + |content|
  {
    hide ReadTlv, HoldsAt, IsLength;
    if ReadTlv(buf, index) == Value(Tlv(tag, content, next)) {
      var octets := HeldThere(buf, index);
    }
    if octets :| IsLength(octets, |content|) && HoldsAt(buf, index, [tag] + octets + content) && next == index + 1 + |octets| + |content| {
      ReadHeld(buf, index, tag, octets, content);
    }
  }

  lemma HeldThere(buf: Bytes, index: nat) returns (octets: Bytes)
    requires ReadTlv(buf, index).Value?
    ensures var v := ReadTlv(buf, index).value;
            && IsLength(octets, |v.content|) && HoldsAt(buf, index, [v.tag] + octets + v.content)
            && v.next == index + 1 + |octets| + |v.content|
  {
    var v := ReadTlv(buf, index).value;
    var start := ReadLength(buf, index + 1).value.1;
    octets := buf[index + 1..start];
    assert octets[1..] == buf[index + 2..start];
    assert buf[index..v.next] == [v.tag] + octets + v.content;
  }

  lemma ReadHeld(buf: Bytes, index: nat, tag: Byte, octets: Bytes, content: Bytes)
    requires IsLength(octets, |content|) && HoldsAt(buf, index, [tag] + octets + content)
    ensures ReadTlv(buf, index) == Value(Tlv(tag, content, index + 1 + |octets| + |content|))
  {
    HoldsAtParts(buf, index, [tag] + octets, content);
    HoldsAtParts(buf, index, [tag], octets);
    if |octets| > 1 {
      assert octets == [0x80 + |octets[1..]|] + octets[1..];
      ReadLongOctets(buf, index + 1, octets[1..]);
    }
    ReadTlvParts(buf, index, tag, octets, content);
  }

  // ---------------------------------------------------------------------------
  // Object identifiers

  /** The arcs a run of base-128 groups spells, `value` being the part of the
      current arc already read. A final group without its last octet is dropped. */
  function ArcsFrom(value: nat, raw: Bytes): seq<nat>
    decreases |raw|
  {
    if raw == [] then []
    else
      var next := value * 128 + raw[0] % 128;
      if raw[0] < 0x80 then [next] + ArcsFrom(0, raw[1..]) else ArcsFrom(next, raw[1..])
  }

  function OidArcs(raw: Bytes): seq<nat>
    requires raw != []
  {
    [raw[0] / 40, raw[0] % 40] + ArcsFrom(0, raw[1..])
  }

  /** `"." + ".".join(arcs)` */
  function Dotted(arcs: seq<nat>): string
    requires arcs != []
  {
    "." + Join(DecimalList(arcs), '.')
  }

  function OidText(raw: Bytes): Outcome<string> {
    if raw == [] then Malformed else Value(Dotted(OidArcs(raw)))
  }

  /** `decode_oid` */
  method DecodeOid(raw: Bytes) returns (r: Outcome<string>)
    ensures r == OidText(raw)
  {
    if raw == [] {
      return Malformed;
    }
    var arcs: seq<nat> := [raw[0] / 40, raw[0] % 40];
    var value: nat := 0;
    for i := 1 to |raw|
      invariant arcs + ArcsFrom(value, raw[i..]) == OidArcs(raw)
    {
      var byte := raw[i];
      assert raw[i..][0] == byte && raw[i..][1..] == raw[i + 1..];
      value := value * 128 + byte % 128;
      if byte < 0x80 {
        arcs := arcs + [value];
        value := 0;
      }
    }
    assert raw[|raw|..] == [] && arcs + [] == arcs;
    r := Value(Dotted(arcs));
  }

  /** The octets before the last one of an arc: every one has its top bit set. */
  function Continuation(n: nat): Bytes {
    if n == 0 then [] else Continuation(n / 128) + [0x80 + n % 128]
  }

  function ArcOctets(arc: nat): Bytes {
    Continuation(arc / 128) + [arc % 128]
  }

  function ArcListOctets(arcs: seq<nat>): Bytes {
    if arcs == [] then [] else ArcOctets(arcs[0]) + ArcListOctets(arcs[1..])
  }

  /** The arcs `bytes([arcs[0] * 40 + arcs[1]])` accepts. */
  predicate Encodable(arcs: seq<nat>) {
    |arcs| >= 2 && arcs[0] * 40 + arcs[1] < 256
  }

  function OidOctets(arcs: seq<nat>): (s: Bytes)
    requires Encodable(arcs)
    ensures s != []
  {
    [arcs[0] * 40 + arcs[1]] + ArcListOctets(arcs[2..])
  }

  function Reverse(s: Bytes): (r: Bytes) {
    if s == [] then [] else Reverse(s[1..]) + [s[0]]
  }

  /** The inner loop of `encode_oid`: groups are collected from the low end and
      written in reverse. */
  method EncodeArc(arc: nat) returns (octets: Bytes)
    ensures octets == ArcOctets(arc)
  {
    var chunk: Bytes := [arc % 128];
    var rest: nat := arc / 128;
    while rest != 0
      invariant Continuation(rest) + Reverse(chunk) == ArcOctets(arc)
    {
      ReverseAppend(chunk, 0x80 + rest % 128);
      chunk := chunk + [0x80 + rest % 128];
      rest := rest / 128;
    }
    octets := Reverse(chunk);
  }

  lemma {:induction false} ReverseAppend(s: Bytes, last: Byte)
    ensures Reverse(s + [last]) == [last] + Reverse(s)
  {
    if s != [] {
      ReverseAppend(s[1..], last);
      assert (s + [last])[1..] == s[1..] + [last];
    }
  }

  /** `encode_oid` on the arcs of its dotted argument. */
  method EncodeOid(arcs: seq<nat>) returns (octets: Bytes)
    requires Encodable(arcs)
    ensures octets == OidOctets(arcs)
  {
    octets := [arcs[0] * 40 + arcs[1]];
    for i := 2 to |arcs|
      invariant octets + ArcListOctets(arcs[i..]) == OidOctets(arcs)
    {
      assert arcs[i..][1..] == arcs[i + 1..];
      var chunk := EncodeArc(arcs[i]);
      octets := octets + chunk;
    }
    assert arcs[|arcs|..] == [];
  }

  lemma {:induction false} ContinuationRead(n: nat, rest: Bytes)
    ensures ArcsFrom(0, Continuation(n) + rest) == ArcsFrom(n, rest)
  {
    if n == 0 {
      assert Continuation(n) + rest == rest;
    } else {
      var last: Byte := 0x80 + n % 128;
      var longer := [last] + rest;
      assert n / 128 * 128 + last % 128 == n;
      assert ArcsFrom(n / 128, longer) == ArcsFrom(n, rest) by {
        assert longer[0] == last && longer[1..] == rest;
      }
      ContinuationRead(n / 128, longer);
      assert Continuation(n) + rest == Continuation(n / 128) + longer;
    }
  }

  lemma {:induction false} ArcListRoundTrip(arcs: seq<nat>)
    ensures ArcsFrom(0, ArcListOctets(arcs)) == arcs
  {
    if arcs != [] {
      var tail := ArcListOctets(arcs[1..]);
      ArcListRoundTrip(arcs[1..]);
      ArcRead(arcs[0], tail);
      hide ArcsFrom, ArcOctets;
      assert [arcs[0]] + arcs[1..] == arcs;
    }
  }

  lemma ArcRead(arc: nat, tail: Bytes)
    ensures ArcsFrom(0, ArcOctets(arc) + tail) == [arc] + ArcsFrom(0, tail)
  {
    hide Continuation;
    var last: Byte := arc % 128;
    var longer := [last] + tail;
    ContinuationRead(arc / 128, longer);
    assert ArcOctets(arc) + tail == Continuation(arc / 128) + longer;
    assert longer[0] == last && longer[1..] == tail;
    assert arc / 128 * 128 + last == arc;
  }

  /** What an identifier becomes when its first two arcs share one octet. */
  function Refolded(arcs: seq<nat>): (r: seq<nat>)
    requires |arcs| >= 2
    ensures |r| == |arcs|
  {
    var first := arcs[0] * 40 + arcs[1];
    [first / 40, first % 40] + arcs[2..]
  }

  lemma OidDecodesRefolded(arcs: seq<nat>)
    requires Encodable(arcs)
    ensures OidText(OidOctets(arcs)) == Value(Dotted(Refolded(arcs)))
  {
    ArcListRoundTrip(arcs[2..]);
    assert OidOctets(arcs)[1..] == ArcListOctets(arcs[2..]);
  }

  /** An identifier survives encoding exactly when its second arc is below 40. */
  lemma OidRoundTrip(arcs: seq<nat>)
    requires Encodable(arcs)
    ensures OidText(OidOctets(arcs)) == Value(Dotted(arcs)) <==> arcs[1] < 40
  {
    OidDecodesRefolded(arcs);
    if arcs[1] < 40 {
      assert Refolded(arcs) == arcs;
    } else {
      assert Refolded(arcs)[1] != arcs[1];
      if Dotted(Refolded(arcs)) == Dotted(arcs) {
        DottedInjective(Refolded(arcs), arcs);
      }
    }
  }

  /** `dotted.lstrip(".")`, then the parts between dots as integers. */
  function ParseDotted(dotted: string): Option<seq<nat>> {
    ParseDecimals(Split(StripDots(dotted), '.'))
  }

  function StripDots(s: string): string {
    if s != [] && s[0] == '.' then StripDots(s[1..]) else s
  }

  lemma DottedRoundTrip(arcs: seq<nat>)
    requires arcs != []
    ensures ParseDotted(Dotted(arcs)) == Some(arcs)
  {
    var body := Join(DecimalList(arcs), '.');
    assert body[0] == DecimalList(arcs)[0][0];
    assert StripDots(body) == body;
    assert Dotted(arcs)[1..] == body;
    SplitDecimalList(arcs, '.');
  }

  lemma DottedInjective(a: seq<nat>, b: seq<nat>)
    requires a != [] && b != [] && Dotted(a) == Dotted(b)
    ensures a == b
  {
    DottedRoundTrip(a);
    DottedRoundTrip(b);
  }

  /** The encoder pads neither lengths nor arcs. */
  lemma {:induction false} BigEndianIsShortest(n: nat)
    requires n > 0
    ensures BigEndian(n)[0] != 0
  {
    if n >= 256 {
      BigEndianIsShortest(n / 256);
    }
  }

  lemma {:induction false} ContinuationIsShortest(n: nat)
    requires n > 0
    ensures Continuation(n) != [] && Continuation(n)[0] != 0x80
  {
    if n >= 128 {
      ContinuationIsShortest(n / 128);
    }
  }

  lemma ArcIsShortest(arc: nat)
    ensures ArcOctets(arc) != [] && ArcOctets(arc)[0] != 0x80
    ensures arc < 128 ==> ArcOctets(arc) == [arc]
  {
    if arc >= 128 {
      ContinuationIsShortest(arc / 128);
    }
  }

  /** Leading 0x80 octets of an arc add nothing, so every octet string is read as the
      shortest encoding of its arcs. */
  lemma PaddingIsIgnored(raw: Bytes)
    ensures ArcsFrom(0, [0x80] + raw) == ArcsFrom(0, raw)
  {
    assert ([0x80] + raw)[1..] == raw;
  }

  /** 1.3.6.1 as it travels and as it is reported. */
  lemma InternetIdentifier()
    ensures OidText([0x2B, 0x06, 0x01]) == Value(".1.3.6.1")
  {
    var raw: Bytes := [0x2B, 0x06, 0x01];
    assert raw[1..] == [0x06, 0x01] && [0x06, 0x01][1..] == [0x01] && [0x01][1..] == [];
    assert ArcsFrom(0, [0x01]) == [1] && ArcsFrom(0, [0x06, 0x01]) == [6, 1];
    assert OidArcs(raw) == [1, 3, 6, 1];
    InternetText();
  }

  lemma InternetText()
    ensures Dotted([1, 3, 6, 1]) == ".1.3.6.1"
  {
    assert Decimal(1) == "1" && Decimal(3) == "3" && Decimal(6) == "6";
    hide Decimal;
    var parts := DecimalList([1, 3, 6, 1]);
    assert parts == ["1", "3", "6", "1"];
    assert parts[1..] == ["3", "6", "1"] && parts[1..][1..] == ["6", "1"] && parts[1..][1..][1..] == ["1"];
    assert Join(["6", "1"], '.') == "6.1";
    assert Join(["3", "6", "1"], '.') == "3.6.1";
    assert Join(parts, '.') == "1.3.6.1";
    assert "." + "1.3.6.1" == ".1.3.6.1";
  }

  /** How many octets end an arc. */
  function ArcEnds(raw: Bytes): nat {
    if raw == [] then 0 else (if raw[0] < 0x80 then 1 else 0) + ArcEnds(raw[1..])
  }

  lemma {:induction false} ArcCount(value: nat, raw: Bytes)
    ensures |ArcsFrom(value, raw)| == ArcEnds(raw)
    decreases |raw|
  {
    if raw != [] {
      ArcCount(if raw[0] < 0x80 then 0 else value * 128 + raw[0] % 128, raw[1..]);
    }
  }

  lemma {:induction false} ArcEndsAppend(a: Bytes, b: Bytes)
    ensures ArcEnds(a + b) == ArcEnds(a) + ArcEnds(b)
  {
    if a == [] {
      assert a + b == b;
    } else {
      assert (a + b)[1..] == a[1..] + b;
      ArcEndsAppend(a[1..], b);
    }
  }

  lemma {:induction false} NoArcEnds(raw: Bytes)
    ensures ArcEnds(raw) == 0 <==> forall i :: 0 <= i < |raw| ==> raw[i] >= 0x80
  {
    if raw != [] {
      NoArcEnds(raw[1..]);
      assert forall i :: 0 < i < |raw| ==> raw[i] == raw[1..][i - 1];
    }
  }

  lemma {:induction false} UnfinishedArcIsDropped(value: nat, raw: Bytes, partial: Bytes)
    requires forall i :: 0 <= i < |partial| ==> partial[i] >= 0x80
    ensures ArcsFrom(value, raw + partial) == ArcsFrom(value, raw)
    decreases |raw| + |partial|
  {
    if raw != [] {
      assert (raw + partial)[1..] == raw[1..] + partial;
      var next := value * 128 + raw[0] % 128;
      UnfinishedArcIsDropped(if raw[0] < 0x80 then 0 else next, raw[1..], partial);
    } else if partial != [] {
      assert raw + partial == partial;
      UnfinishedArcIsDropped(value * 128 + partial[0] % 128, [], partial[1..]);
      assert [] + partial[1..] == partial[1..];
    } else {
      assert raw + partial == raw;
    }
  }

  /** Octets at the end go unread, without an error, exactly when none of them ends
      an arc. */
  lemma TruncatedArcIsDropped(value: nat, raw: Bytes, partial: Bytes)
    ensures ArcsFrom(value, raw + partial) == ArcsFrom(value, raw) <==>
            forall i :: 0 <= i < |partial| ==> partial[i] >= 0x80
  {
    NoArcEnds(partial);
    if ArcEnds(partial) == 0 {
      UnfinishedArcIsDropped(value, raw, partial);
    } else {
      ArcCount(value, raw + partial);
      ArcCount(value, raw);
      ArcEndsAppend(raw, partial);
    }
  }
}
