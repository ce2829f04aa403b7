/** Text that several components print and parse: decimal numbers and lists
    joined by a separator character. */
module Text {

  datatype Option<+T> = None | Some(value: T)

  predicate IsDigit(c: char) {
    '0' <= c <= '9'
  }

  predicate AllDigits(s: string) {
    forall i :: 0 <= i < |s| ==> IsDigit(s[i])
  }

  function DigitOf(d: nat): (c: char)
    requires d < 10
  {
    '0' + d as char
  }

  /** `str(n)` for a non-negative integer: no sign, no leading zero. */
  function Decimal(n: nat): (s: string)
    ensures s != [] && AllDigits(s)
  {
    if n < 10 then [DigitOf(n)] else Decimal(n / 10) + [DigitOf(n % 10)]
  }

  /** The number a run of digits denotes; leading zeros are allowed. */
  function ValueOf(s: string): nat
    requires AllDigits(s)
  {
    if s == [] then 0
    else 10 * ValueOf(s[..|s| - 1]) + (s[|s| - 1] - '0') as nat
  }

  lemma {:induction false} ValueOfDecimal(n: nat)
    ensures ValueOf(Decimal(n)) == n
  {
    var s := Decimal(n);
    if n >= 10 {
      ValueOfDecimal(n / 10);
      assert s[..|s| - 1] == Decimal(n / 10);
      assert s[|s| - 1] == DigitOf(n % 10);
    } else {
      assert s[..|s| - 1] == [];
    }
  }

  function ParseDecimal(s: string): Option<nat> {
    if s != [] && AllDigits(s) then Some(ValueOf(s)) else None
  }

  /** Splits on every occurrence of `sep`; never returns the empty list. */
  function Split(s: string, sep: char): (parts: seq<string>)
    ensures parts != []
    ensures forall i :: 0 <= i < |parts| ==> sep !in parts[i]
  {
    if s == [] then [[]]
    else
      var rest := Split(s[1..], sep);
      if s[0] == sep then [[]] + rest
      else [[s[0]] + rest[0]] + rest[1..]
  }

  function Join(parts: seq<string>, sep: char): string
    requires parts != []
  {
    if |parts| == 1 then parts[0]
    else parts[0] + [sep] + Join(parts[1..], sep)
  }

  lemma {:induction false} SplitPlain(a: string, sep: char)
    requires sep !in a
    ensures Split(a, sep) == [a]
  {
    if a != [] {
      SplitPlain(a[1..], sep);
      assert [a[0]] + a[1..] == a;
    }
  }

  lemma {:induction false} SplitFirst(a: string, sep: char, rest: string)
    requires sep !in a
    ensures Split(a + [sep] + rest, sep) == [a] + Split(rest, sep)
  {
    var s := a + [sep] + rest;
    if a == [] {
      assert s[1..] == rest;
    } else {
      SplitFirst(a[1..], sep, rest);
      assert s[1..] == a[1..] + [sep] + rest;
      assert [a[0]] + a[1..] == a;
    }
  }

  /** Splitting and joining again gives the text back. */
  lemma {:induction false} JoinSplit(s: string, sep: char)
    ensures Join(Split(s, sep), sep) == s
  {
    if s != [] {
      JoinSplit(s[1..], sep);
      var rest := Split(s[1..], sep);
      if s[0] == sep {
        assert ([[]] + rest)[1..] == rest;
        assert [] + [sep] + s[1..] == s;
      } else {
        var parts := [[s[0]] + rest[0]] + rest[1..];
        assert parts[1..] == rest[1..];
        assert [s[0]] + s[1..] == s;
      }
    }
  }

  /** Joining and splitting again gives the parts back. */
  lemma {:induction false} SplitJoin(parts: seq<string>, sep: char)
    requires parts != []
    requires forall i :: 0 <= i < |parts| ==> sep !in parts[i]
    ensures Split(Join(parts, sep), sep) == parts
  {
    if |parts| == 1 {
      SplitPlain(parts[0], sep);
    } else {
      SplitJoin(parts[1..], sep);
      SplitFirst(parts[0], sep, Join(parts[1..], sep));
    }
  }

  function DecimalList(values: seq<nat>): (parts: seq<string>)
    ensures |parts| == |values|
    ensures forall i :: 0 <= i < |parts| ==> parts[i] == Decimal(values[i])
  {
    seq(|values|, i requires 0 <= i < |values| => Decimal(values[i]))
  }

  /** Every element must be a decimal number. */
  function ParseDecimals(parts: seq<string>): Option<seq<nat>> {
    if parts == [] then Some([])
    else
      match (ParseDecimal(parts[0]), ParseDecimals(parts[1..]))
      case (Some(v), Some(vs)) => Some([v] + vs)
      case _ => None
  }

  lemma {:induction false} ParseDecimalList(values: seq<nat>)
    ensures ParseDecimals(DecimalList(values)) == Some(values)
  {
    if values != [] {
      ValueOfDecimal(values[0]);
      ParseDecimalList(values[1..]);
      assert DecimalList(values)[1..] == DecimalList(values[1..]);
      assert [values[0]] + values[1..] == values;
    }
  }

  /** A separated list of decimals reads back as itself. */
  lemma SplitDecimalList(values: seq<nat>, sep: char)
    requires values != [] && !IsDigit(sep)
    ensures ParseDecimals(Split(Join(DecimalList(values), sep), sep)) == Some(values)
  {
    SplitJoin(DecimalList(values), sep);
    ParseDecimalList(values);
  }
}
