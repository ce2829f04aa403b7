/** The `--attachment` policies of cmd/niac/cmd_daemon.go: their syntax, and which
    combinations of them one daemon accepts. */
module Attachment {
  import opened Text

  datatype Mode = Direct | Access(vlan: nat) | Trunk(vlans: seq<nat>)

  datatype Policy = Policy(iface: string, mode: Mode)

  datatype ModeName = DirectMode | AccessMode | TrunkMode

  function NameOf(m: Mode): ModeName {
    match m
    case Direct => DirectMode
    case Access(_) => AccessMode
    case Trunk(_) => TrunkMode
  }

  // ---------------------------------------------------------------------------
  // Grammar

  /** The characters `strings.TrimSpace` removes. */
  predicate IsSpace(c: char) {
    c == ' ' || '\U{09}' <= c <= '\U{0D}' || c == '\U{85}' || c == '\U{A0}' || c == '\U{1680}' ||
    '\U{2000}' <= c <= '\U{200A}' || c == '\U{2028}' || c == '\U{2029}' || c == '\U{202F}' ||
    c == '\U{205F}' || c == '\U{3000}'
  }

  predicate Trimmed(s: string) {
    s == [] || (!IsSpace(s[0]) && !IsSpace(s[|s| - 1]))
  }

  /** VLAN identifiers of section 9.6 of IEEE 802.1Q. */
  predicate IsVlan(v: nat) {
    1 <= v <= 4094
  }

  predicate Ascending(vlans: seq<nat>) {
    forall i, j :: 0 <= i < j < |vlans| ==> vlans[i] < vlans[j]
  }

  predicate Valid(p: Policy) {
    && p.iface != [] && '=' !in p.iface && Trimmed(p.iface)
    && match p.mode
       case Direct => true
       case Access(vlan) => IsVlan(vlan)
       case Trunk(vlans) => vlans != [] && Ascending(vlans) && forall i :: 0 <= i < |vlans| ==> IsVlan(vlans[i])
  }

  /** `strings.Cut(s, "=")`: the text around the first `=`. */
  function Cut(s: string): Option<(string, string)> {
    if s == [] then None
    else if s[0] == '=' then Some(([], s[1..]))
    else
      match Cut(s[1..])
      case None => None
      case Some((before, after)) => Some(([s[0]] + before, after))
  }

  /** `strconv.ParseUint(text, 10, 16)` and the range check. */
  function ParseVlan(text: string): (r: Option<nat>)
    ensures r.Some? ==> IsVlan(r.value)
  {
    match ParseDecimal(text)
    case None => None
    case Some(v) => if v > 0xFFFF || v == 0 || v > 4094 then None else Some(v)
  }

  /** The loop of `parseTrunkVLANs` over the items still to come. */
  function ParseAscending(items: seq<string>, previous: nat): Option<seq<nat>> {
    if items == [] then Some([])
    else
      match ParseVlan(items[0])
      case None => None
      case Some(v) =>
        if v <= previous then None
        else Onto([v], ParseAscending(items[1..], v))
  }

  function ParseMode(text: string): Option<Mode> {
    if text == "direct" then Some(Direct)
    else if "access:" <= text then
      match ParseVlan(text[7..])
      case None => None
      case Some(v) => Some(Access(v))
    else if "trunk:" <= text then
      if text[6..] == "" then None
      else
        match ParseAscending(Split(text[6..], ','), 0)
        case None => None
        case Some(vs) => Some(Trunk(vs))
    else None
  }

  function ParsePolicy(value: string): Option<Policy> {
    match Cut(value)
    case None => None
    case Some((name, text)) =>
      if !Trimmed(name) || name == [] then None
      else
        match ParseMode(text)
        case None => None
        case Some(mode) => Some(Policy(name, mode))
  }

  function Onto(done: seq<nat>, rest: Option<seq<nat>>): Option<seq<nat>> {
    if rest.Some? then Some(done + rest.value) else None
  }

  lemma OntoNothing(rest: Option<seq<nat>>)
    ensures Onto([], rest) == rest
  {
    if rest.Some? {
      assert [] + rest.value == rest.value;
    }
  }

  lemma OntoStep(done: seq<nat>, v: nat, rest: Option<seq<nat>>)
    ensures Onto(done, Onto([v], rest)) == Onto(done + [v], rest)
  {
    if rest.Some? {
      assert done + ([v] + rest.value) == done + [v] + rest.value;
    }
  }

  /** `parseTrunkVLANs`: a duplicate and a descending VLAN are both refused. */
  method ParseTrunkVlans(text: string) returns (r: Option<seq<nat>>)
    ensures r == if text == "" then None else ParseAscending(Split(text, ','), 0)
  {
    if text == "" {
      return None;
    }
    var items := Split(text, ',');
    var vlans: seq<nat> := [];
    var previous: nat := 0;
    OntoNothing(ParseAscending(items, 0));
    assert items[0..] == items;
    for i := 0 to |items|
      invariant Onto(vlans, ParseAscending(items[i..], previous)) == ParseAscending(items, 0)
    {
      assert items[i..][0] == items[i] && items[i..][1..] == items[i + 1..];
      var vlan := ParseVlan(items[i]);
      if vlan.None? || vlan.value == previous || vlan.value < previous {
        return None;
      }
      OntoStep(vlans, vlan.value, ParseAscending(items[i + 1..], vlan.value));
      vlans := vlans + [vlan.value];
      previous := vlan.value;
    }
    assert vlans + [] == vlans;
    r := Some(vlans);
  }

  /** `parseAttachmentPolicy` */
  method ParseAttachmentPolicy(value: string) returns (r: Option<Policy>)
    ensures r == ParsePolicy(value)
  {
    var cut := Cut(value);
    if cut.None? || !Trimmed(cut.value.0) || cut.value.0 == "" {
      return None;
    }
    var (name, text) := cut.value;
    if text == "direct" {
      return Some(Policy(name, Direct));
    }
    if "access:" <= text {
      var vlan := ParseVlan(text[7..]);
      if vlan.None? {
        return None;
      }
      return Some(Policy(name, Access(vlan.value)));
    }
    if "trunk:" <= text {
      var vlans := ParseTrunkVlans(text[6..]);
      if vlans.None? {
        return None;
      }
      return Some(Policy(name, Trunk(vlans.value)));
    }
    r := None;
  }

  // ---------------------------------------------------------------------------
  // Printing and parsing

  function PrintMode(m: Mode): string
    requires m.Trunk? ==> m.vlans != []
  {
    match m
    case Direct => "direct"
    case Access(vlan) => "access:" + Decimal(vlan)
    case Trunk(vlans) => "trunk:" + Join(DecimalList(vlans), ',')
  }

  /** INTERFACE=direct, INTERFACE=access:VLAN or INTERFACE=trunk:VLAN,... */
  function Print(p: Policy): string
    requires Valid(p)
  {
    p.iface + "=" + PrintMode(p.mode)
  }

  lemma {:induction false} CutPrinted(name: string, rest: string)
    requires '=' !in name
    ensures Cut(name + "=" + rest) == Some((name, rest))
  {
    var s := name + "=" + rest;
    if name == [] {
      assert s[1..] == rest;
    } else {
      CutPrinted(name[1..], rest);
      assert s[1..] == name[1..] + "=" + rest;
      assert [name[0]] + name[1..] == name;
    }
  }

  lemma {:induction false} CutIsFirst(s: string)
    ensures Cut(s).Some? ==> '=' !in Cut(s).value.0 && s == Cut(s).value.0 + "=" + Cut(s).value.1
  {
    if s != [] && s[0] != '=' {
      CutIsFirst(s[1..]);
    }
  }

  lemma {:induction false} AscendingRoundTrip(vlans: seq<nat>, previous: nat)
    requires Ascending(vlans) && forall i :: 0 <= i < |vlans| ==> IsVlan(vlans[i]) && previous < vlans[i]
    ensures ParseAscending(DecimalList(vlans), previous) == Some(vlans)
  {
    if vlans != [] {
      ValueOfDecimal(vlans[0]);
      AscendingRoundTrip(vlans[1..], vlans[0]);
      assert DecimalList(vlans)[1..] == DecimalList(vlans[1..]);
      assert [vlans[0]] + vlans[1..] == vlans;
    }
  }

  lemma {:induction false} AscendingIsValid(items: seq<string>, previous: nat)
    ensures var r := ParseAscending(items, previous);
            r.Some? ==>
              |r.value| == |items| && Ascending(r.value) &&
              forall i :: 0 <= i < |r.value| ==> IsVlan(r.value[i]) && previous < r.value[i]
  {
    if items != [] && ParseVlan(items[0]).Some? {
      AscendingIsValid(items[1..], ParseVlan(items[0]).value);
    }
  }

  lemma TrunkRoundTrip(vlans: seq<nat>)
    requires vlans != [] && Ascending(vlans) && forall i :: 0 <= i < |vlans| ==> IsVlan(vlans[i])
    ensures ParseMode("trunk:" + Join(DecimalList(vlans), ',')) == Some(Trunk(vlans))
  {
    var list := Join(DecimalList(vlans), ',');
    var text := "trunk:" + list;
    assert text[6..] == list && text[0] == 't';
    SplitJoin(DecimalList(vlans), ',');
    AscendingRoundTrip(vlans, 0);
    assert list != "" by {
      assert DecimalList(vlans)[0] != [];
    }
  }

  /** Printing any valid policy and parsing the text gives the policy back. */
  lemma PolicyRoundTrip(p: Policy)
    requires Valid(p)
    ensures ParsePolicy(Print(p)) == Some(p)
  {
    CutPrinted(p.iface, PrintMode(p.mode));
    match p.mode
    case Direct =>
    case Access(vlan) =>
      ValueOfDecimal(vlan);
      var text := "access:" + Decimal(vlan);
      assert text[7..] == Decimal(vlan) && text[0] == 'a';
    case Trunk(vlans) => TrunkRoundTrip(vlans);
  }

  /** Everything the parser accepts is a valid policy. */
  lemma AcceptedIsValid(value: string)
    ensures ParsePolicy(value).Some? ==> Valid(ParsePolicy(value).value)
  {
    CutIsFirst(value);
    if ParsePolicy(value).Some? {
      var text := Cut(value).value.1;
      if "trunk:" <= text {
        AscendingIsValid(Split(text[6..], ','), 0);
      }
    }
  }

  // ---------------------------------------------------------------------------
  // What is accepted, character by character

  /** Decimal digits, leading zeros allowed, of a VLAN identifier. */
  predicate SpellsVlan(text: string, v: nat) {
    text != "" && AllDigits(text) && ValueOf(text) == v && 1 <= v <= 4094
  }

  predicate SpellsVlans(items: seq<string>, vlans: seq<nat>) {
    |items| == |vlans| && forall i :: 0 <= i < |vlans| ==> SpellsVlan(items[i], vlans[i])
  }

  ghost predicate SpellsMode(text: string, mode: Mode) {
    match mode
    case Direct => text == "direct"
    case Access(vlan) => exists digits :: text == "access:" + digits && SpellsVlan(digits, vlan)
    case Trunk(vlans) =>
      vlans != [] && Ascending(vlans) &&
      exists items :: |items| > 0 && text == "trunk:" + Join(items, ',') && SpellsVlans(items, vlans)
  }

  /** The white space of the Unicode standard. */
  const WHITE_SPACE: set<char> := {
    ' ', '\U{09}', '\U{0A}', '\U{0B}', '\U{0C}', '\U{0D}', '\U{85}', '\U{A0}', '\U{1680}',
    '\U{2000}', '\U{2001}', '\U{2002}', '\U{2003}', '\U{2004}', '\U{2005}', '\U{2006}', '\U{2007}', '\U{2008}',
    '\U{2009}', '\U{200A}', '\U{2028}', '\U{2029}', '\U{202F}', '\U{205F}', '\U{3000}'
  }

  ghost predicate SpellsPolicy(value: string, p: Policy) {
    && p.iface != "" && '=' !in p.iface && p.iface[0] !in WHITE_SPACE && p.iface[|p.iface| - 1] !in WHITE_SPACE
    && exists text :: value == p.iface + "=" + text && SpellsMode(text, p.mode)
  }

  lemma VlanExactly(text: string, v: nat)
    ensures ParseVlan(text) == Some(v) <==> SpellsVlan(text, v)
  {
  }

  lemma {:induction false} AscendingExactly(items: seq<string>, previous: nat, vlans: seq<nat>)
    ensures ParseAscending(items, previous) == Some(vlans) <==>
            SpellsVlans(items, vlans) && Ascending(vlans) && forall i :: 0 <= i < |vlans| ==> previous < vlans[i]
    decreases |items|
  {
    if items == [] {
    } else if vlans == [] {
      AscendingIsValid(items, previous);
    } else {
      hide ParseVlan, SpellsVlan;
      var v, rest := vlans[0], vlans[1..];
      assert vlans == [v] + rest;
      AscendingExactly(items[1..], v, rest);
      VlanExactly(items[0], v);
      AscendingSplit(vlans, previous);
      SpellsSplit(items, vlans);
      assert ParseAscending(items, previous) == Some(vlans) <==>
             ParseVlan(items[0]) == Some(v) && previous < v && ParseAscending(items[1..], v) == Some(rest) by {
        AscendingFirst(items, previous, vlans);
      }
    }
  }

  lemma AscendingFirst(items: seq<string>, previous: nat, vlans: seq<nat>)
    requires items != [] && vlans != []
    ensures ParseAscending(items, previous) == Some(vlans) <==>
            ParseVlan(items[0]) == Some(vlans[0]) && previous < vlans[0] && ParseAscending(items[1..], vlans[0]) == Some(vlans[1..])
  {
    hide ParseVlan;
    assert vlans == [vlans[0]] + vlans[1..];
    if ParseVlan(items[0]).Some? && ParseAscending(items[1..], ParseVlan(items[0]).value).Some? {
      var v, rest := ParseVlan(items[0]).value, ParseAscending(items[1..], ParseVlan(items[0]).value).value;
      assert ([v] + rest)[0] == v && ([v] + rest)[1..] == rest;
    }
  }

  lemma AscendingSplit(vlans: seq<nat>, previous: nat)
    requires vlans != []
    ensures Ascending(vlans) && (forall i :: 0 <= i < |vlans| ==> previous < vlans[i]) <==>
            previous < vlans[0] && Ascending(vlans[1..]) && forall i :: 0 <= i < |vlans[1..]| ==> vlans[0] < vlans[1..][i]
  {
    var rest := vlans[1..];
    assert forall i :: 0 <= i < |rest| ==> rest[i] == vlans[i + 1];
    assert forall i :: 0 < i < |vlans| ==> vlans[i] == rest[i - 1];
  }

  lemma SpellsSplit(items: seq<string>, vlans: seq<nat>)
    requires items != [] && vlans != []
    ensures SpellsVlans(items, vlans) <==> SpellsVlan(items[0], vlans[0]) && SpellsVlans(items[1..], vlans[1..])
  {
    hide SpellsVlan;
    assert forall i :: 0 < i < |vlans| ==> vlans[i] == vlans[1..][i - 1];
    assert forall i :: 0 < i < |items| ==> items[i] == items[1..][i - 1];
    if SpellsVlan(items[0], vlans[0]) && SpellsVlans(items[1..], vlans[1..]) {
      forall i | 0 <= i < |vlans| ensures SpellsVlan(items[i], vlans[i]) {
        if i > 0 {
          assert SpellsVlan(items[1..][i - 1], vlans[1..][i - 1]);
        }
      }
    }
  }

  /** A text is accepted as a mode exactly when it spells that mode. */
  lemma ModeExactly(text: string, mode: Mode)
    ensures ParseMode(text) == Some(mode) <==> SpellsMode(text, mode)
  {
    hide ParseVlan, ParseAscending, SpellsVlan, SpellsVlans, Split, Join, Ascending;
    if "access:" <= text {
      assert text == "access:" + text[7..] && text[0] == 'a';
    }
    if "trunk:" <= text {
      assert text == "trunk:" + text[6..] && text[0] == 't';
    }
    match mode
    case Direct =>
    case Access(vlan) =>
      VlanExactly(text[if |text| >= 7 then 7 else 0..], vlan);
      if digits :| text == "access:" + digits && SpellsVlan(digits, vlan) {
        assert text[7..] == digits;
      }
    case Trunk(vlans) => TrunkExactly(text, vlans);
  }

  lemma TrunkExactly(text: string, vlans: seq<nat>)
    ensures ParseMode(text) == Some(Trunk(vlans)) <==> SpellsMode(text, Trunk(vlans))
  {
    hide ParseVlan, ParseAscending, SpellsVlan, Split, Join, Ascending;
    if ParseMode(text) == Some(Trunk(vlans)) {
      var list := text[6..];
      assert text == "trunk:" + list;
      AscendingExactly(Split(list, ','), 0, vlans);
      JoinSplit(list, ',');
    }
    if vlans != [] && Ascending(vlans) {
      if items :| |items| > 0 && text == "trunk:" + Join(items, ',') && SpellsVlans(items, vlans) {
        assert text[6..] == Join(items, ',') && text[0] == 't';
        DigitsHaveNoComma(items, vlans);
        SplitJoin(items, ',');
        AscendingExactly(items, 0, vlans);
      }
    }
  }

  lemma DigitsHaveNoComma(items: seq<string>, vlans: seq<nat>)
    requires SpellsVlans(items, vlans) && items != []
    ensures forall i :: 0 <= i < |items| ==> ',' !in items[i]
    ensures Join(items, ',') != "" && forall i :: 0 <= i < |vlans| ==> 0 < vlans[i]
  {
    assert SpellsVlan(items[0], vlans[0]);
    forall i | 0 <= i < |items| ensures ',' !in items[i] {
      assert SpellsVlan(items[i], vlans[i]);
    }
  }

  lemma SpacesExactly()
    ensures forall c :: IsSpace(c) <==> c in WHITE_SPACE
  {
  }

  /** A text is accepted as a policy exactly when it is the interface, an equals sign
      and a spelling of the mode. */
  lemma PolicyExactly(value: string, p: Policy)
    ensures ParsePolicy(value) == Some(p) <==> SpellsPolicy(value, p)
  {
    hide ParseMode, SpellsMode;
    CutIsFirst(value);
    SpacesExactly();
    hide IsSpace, WHITE_SPACE;
    if ParsePolicy(value) == Some(p) {
      ModeExactly(Cut(value).value.1, p.mode);
    }
    if p.iface != "" && '=' !in p.iface {
      if text :| value == p.iface + "=" + text && SpellsMode(text, p.mode) {
        CutPrinted(p.iface, text);
        ModeExactly(text, p.mode);
      }
    }
  }

  // ---------------------------------------------------------------------------
  // Admission

  /** Two policies one daemon can hold together. */
  predicate Compatible(p: Policy, q: Policy) {
    p.iface != q.iface || (NameOf(p.mode) != NameOf(q.mode) && !p.mode.Direct? && !q.mode.Direct?)
  }

  predicate AllParse(values: seq<string>) {
    forall i :: 0 <= i < |values| ==> ParsePolicy(values[i]).Some?
  }

  function Parsed(values: seq<string>): (ps: seq<Policy>)
    requires AllParse(values)
    ensures |ps| == |values|
    ensures forall i :: 0 <= i < |ps| ==> Some(ps[i]) == ParsePolicy(values[i])
  {
    seq(|values|, i requires 0 <= i < |values| => ParsePolicy(values[i]).value)
  }

  predicate Pairwise(ps: seq<Policy>) {
    forall i, j :: 0 <= i < j < |ps| ==> Compatible(ps[i], ps[j])
  }

  /** The condition that mentions no order of arrival. */
  predicate Admissible(values: seq<string>) {
    AllParse(values) && Pairwise(Parsed(values))
  }

  /** The modes already held on an interface. */
  ghost function ModesOn(ps: seq<Policy>, iface: string): set<ModeName> {
    set i | 0 <= i < |ps| && ps[i].iface == iface :: NameOf(ps[i].mode)
  }

  /** `checkDirectExclusive` */
  predicate DirectConflict(mode: ModeName, modes: set<ModeName>) {
    (DirectMode in modes || mode == DirectMode) && (DirectMode in modes || |modes| > 0)
  }

  /** The running check accepts a policy exactly when it is compatible with every
      policy already held. */
  lemma OnlineCheck(ps: seq<Policy>, p: Policy)
    ensures NameOf(p.mode) !in ModesOn(ps, p.iface) && !DirectConflict(NameOf(p.mode), ModesOn(ps, p.iface)) <==>
            forall i :: 0 <= i < |ps| ==> Compatible(ps[i], p)
  {
    var modes := ModesOn(ps, p.iface);
    forall i | 0 <= i < |ps| && ps[i].iface == p.iface ensures NameOf(ps[i].mode) in modes {
    }
    if forall i :: 0 <= i < |ps| ==> Compatible(ps[i], p) {
      if p.mode.Direct? {
        assert modes == {};
      }
    }
  }

  /** `parseAttachmentPolicies` accepts a list exactly when every item parses and
      every two items are compatible. */
  method ParsePolicies(values: seq<string>) returns (r: Option<seq<Policy>>)
    ensures r.Some? <==> Admissible(values)
    ensures r.Some? ==> r.value == Parsed(values)
  {
    hide ParsePolicy, ModesOn, Compatible, DirectConflict;
    var policies: seq<Policy> := [];
    NoModes();
    var seen: map<string, set<ModeName>> := map[];
    for i := 0 to |values|
      invariant AllParse(values[..i]) && policies == Parsed(values[..i]) && Pairwise(policies)
      invariant forall name :: ModesOn(policies, name) == if name in seen then seen[name] else {}
    {
      assert values[..i + 1] == values[..i] + [values[i]];
      var policy := ParseAttachmentPolicy(values[i]);
      if policy.None? {
        return None;
      }
      var p := policy.value;
      var modes := if p.iface in seen then seen[p.iface] else {};
      OnlineCheck(policies, p);
      if NameOf(p.mode) in modes || DirectConflict(NameOf(p.mode), modes) {
        RefusedStaysRefused(values, i);
        return None;
      }
      ModesStep(policies, p);
      AdmitStep(values, i, policies, p);
      seen := seen[p.iface := modes + {NameOf(p.mode)}];
      policies := policies + [p];
    }
    assert values[..|values|] == values;
    r := Some(policies);
  }

  lemma NoModes()
    ensures forall name :: ModesOn([], name) == {}
  {
  }

  lemma AdmitStep(values: seq<string>, i: nat, policies: seq<Policy>, p: Policy)
    requires i < |values| && AllParse(values[..i]) && policies == Parsed(values[..i]) && Pairwise(policies)
    requires ParsePolicy(values[i]) == Some(p) && forall j :: 0 <= j < i ==> Compatible(policies[j], p)
    ensures AllParse(values[..i + 1]) && policies + [p] == Parsed(values[..i + 1]) && Pairwise(policies + [p])
  {
    hide ParsePolicy, Compatible;
  }

  lemma ModesStep(ps: seq<Policy>, p: Policy)
    ensures forall name :: ModesOn(ps + [p], name) ==
              if name == p.iface then ModesOn(ps, name) + {NameOf(p.mode)} else ModesOn(ps, name)
  {
    var longer := ps + [p];
    forall name ensures ModesOn(longer, name) ==
              if name == p.iface then ModesOn(ps, name) + {NameOf(p.mode)} else ModesOn(ps, name)
    {
      assert longer[|ps|] == p;
      forall m | m in ModesOn(ps, name) ensures m in ModesOn(longer, name) {
        var i :| 0 <= i < |ps| && ps[i].iface == name && NameOf(ps[i].mode) == m;
        assert longer[i] == ps[i];
      }
    }
  }

  lemma RefusedStaysRefused(values: seq<string>, k: nat)
    requires k < |values| && AllParse(values[..k]) && ParsePolicy(values[k]).Some?
    requires exists i :: 0 <= i < k && !Compatible(Parsed(values[..k])[i], ParsePolicy(values[k]).value)
    ensures !Admissible(values)
  {
    if AllParse(values) {
      var ps := Parsed(values);
      var i :| 0 <= i < k && !Compatible(Parsed(values[..k])[i], ParsePolicy(values[k]).value);
      assert ps[i] == Parsed(values[..k])[i] && ps[k] == ParsePolicy(values[k]).value;
    }
  }

  // ---------------------------------------------------------------------------
  // Order does not matter

  /** Admissibility on the collection of values alone. */
  ghost predicate AdmissibleTogether(m: multiset<string>) {
    && (forall v :: v in m ==> ParsePolicy(v).Some? && m[v] == 1)
    && (forall v, w :: v in m && w in m && v != w && ParsePolicy(v).Some? && ParsePolicy(w).Some? ==>
          Compatible(ParsePolicy(v).value, ParsePolicy(w).value))
  }

  lemma {:induction false} DistinctOnce(values: seq<string>, v: string)
    requires forall i, j :: 0 <= i < j < |values| ==> values[i] != values[j]
    ensures multiset(values)[v] <= 1
  {
    if values != [] {
      var front, last := values[..|values| - 1], values[|values| - 1];
      DistinctOnce(front, v);
      assert values == front + [last];
      assert last !in front;
      assert last !in multiset(front);
    }
  }

  lemma RepeatCounts(values: seq<string>, i: nat, j: nat)
    requires i < j < |values| && values[i] == values[j]
    ensures multiset(values)[values[i]] >= 2
  {
    assert values == values[..j] + [values[j]] + values[j + 1..];
    assert values[i] == values[..j][i];
    assert values[i] in multiset(values[..j]);
  }

  lemma PairCompatible(values: seq<string>, i: nat, j: nat)
    requires Admissible(values) && i < |values| && j < |values| && i != j
    ensures Compatible(ParsePolicy(values[i]).value, ParsePolicy(values[j]).value)
  {
    hide ParsePolicy;
    var ps := Parsed(values);
    assert if i < j then Compatible(ps[i], ps[j]) else Compatible(ps[j], ps[i]);
  }

  lemma TogetherWhenAdmissible(values: seq<string>)
    requires Admissible(values)
    ensures AdmissibleTogether(multiset(values))
  {
    hide ParsePolicy, Compatible;
    var m := multiset(values);
    forall i, j | 0 <= i < j < |values| ensures values[i] != values[j] {
      PairCompatible(values, i, j);
      SameIsNotCompatible(ParsePolicy(values[i]).value);
    }
    forall v | v in m ensures ParsePolicy(v).Some? && m[v] == 1 {
      var i :| 0 <= i < |values| && values[i] == v;
      DistinctOnce(values, v);
    }
    forall v, w | v in m && w in m && v != w
      ensures ParsePolicy(v).Some? && ParsePolicy(w).Some? && Compatible(ParsePolicy(v).value, ParsePolicy(w).value)
    {
      var i :| 0 <= i < |values| && values[i] == v;
      var j :| 0 <= j < |values| && values[j] == w;
      PairCompatible(values, i, j);
    }
  }

  lemma SameIsNotCompatible(p: Policy)
    ensures !Compatible(p, p)
  {
  }

  lemma AdmissibleWhenTogether(values: seq<string>)
    requires AdmissibleTogether(multiset(values))
    ensures Admissible(values)
  {
    hide ParsePolicy, Compatible;
    var m := multiset(values);
    forall i | 0 <= i < |values| ensures ParsePolicy(values[i]).Some? {
      assert values[i] in m;
    }
    var ps := Parsed(values);
    forall i, j | 0 <= i < j < |values| ensures Compatible(ps[i], ps[j]) {
      assert values[i] in m && values[j] in m;
      if values[i] == values[j] {
        RepeatCounts(values, i, j);
      }
    }
  }

  /** Acceptance does not depend on the order the policies are given in. */
  lemma AdmissionIsOrderFree(values: seq<string>, other: seq<string>)
    requires multiset(values) == multiset(other)
    ensures Admissible(values) <==> Admissible(other)
  {
    if Admissible(values) {
      TogetherWhenAdmissible(values);
      AdmissibleWhenTogether(other);
    } else if Admissible(other) {
      TogetherWhenAdmissible(other);
      AdmissibleWhenTogether(values);
    }
  }

  /** No interface ever holds three policies. */
  lemma AtMostTwoPerInterface(values: seq<string>, i: nat, j: nat, k: nat)
    requires Admissible(values) && i < j < k < |values|
    ensures var ps := Parsed(values);
            !(ps[i].iface == ps[j].iface && ps[j].iface == ps[k].iface)
  {
    var ps := Parsed(values);
    assert Compatible(ps[i], ps[j]) && Compatible(ps[j], ps[k]) && Compatible(ps[i], ps[k]);
  }
}
