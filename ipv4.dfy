/** Dotted-quad IPv4 addresses as Python's `ipaddress.IPv4Address` reads them,
    and membership of the multicast network 224.0.0.0/4. */
module IPv4 {
  import opened Wrappers
  import opened Text

  type Octets = o: seq<nat> | |o| == 4 && forall i :: 0 <= i < 4 ==> o[i] < 256
    witness [0, 0, 0, 0]

  predicate IsDigit(c: char)
  {
    '0' <= c <= '9'
  }

  predicate AllDigits(s: string)
  {
    forall i :: 0 <= i < |s| ==> IsDigit(s[i])
  }

  function DigitValue(c: char): nat
    requires IsDigit(c)
  {
    c as int - '0' as int
  }

  function DigitChar(d: nat): char
    requires d < 10
  {
    ('0' as int + d) as char
  }

  /** The decimal value of a string of digits. */
  function DecimalValue(s: string): nat
    requires AllDigits(s)
  {
    if s == [] then 0 else DecimalValue(s[..|s| - 1]) * 10 + DigitValue(s[|s| - 1])
  }

  /** One component: one to three ASCII digits, no leading zero, at most 255. */
  function ParseOctet(s: string): (r: Option<nat>)
    ensures r.Some? ==> r.value < 256
  {
    if s == [] || !AllDigits(s) || |s| > 3 then None
    else if s != "0" && s[0] == '0' then None
    else if DecimalValue(s) > 255 then None
    else Some(DecimalValue(s))
  }

  /** `IPv4Address(s)`: exactly four `.`-separated components, each an octet;
      None where the constructor raises. */
  function Parse(s: string): (r: Option<Octets>)
  {
    var parts := Split(s, '.');
    if |parts| != 4 then None
    else match (ParseOctet(parts[0]), ParseOctet(parts[1]), ParseOctet(parts[2]), ParseOctet(parts[3]))
      case (Some(a), Some(b), Some(c), Some(d)) => Some([a, b, c, d])
      case _ => None
  }

  /** The 32-bit integer of an address. */
  function ToInt(o: Octets): nat
  {
    ((o[0] * 256 + o[1]) * 256 + o[2]) * 256 + o[3]
  }

  /** `address in ip_network("224.0.0.0/4")`: the top four bits of the address
      equal those of the network address 0xE0000000. */
  predicate InMulticastNetwork(o: Octets)
  {
    ToInt(o) / 0x1000_0000 == 0xE000_0000 / 0x1000_0000
  }

  /** An address lies in 224.0.0.0/4 exactly when its first octet is 224 to 239. */
  lemma MulticastRange(o: Octets)
    ensures InMulticastNetwork(o) <==> 224 <= o[0] <= 239
  {
    var low := (o[1] * 256 + o[2]) * 256 + o[3];
    assert low < 0x100_0000;
    assert ToInt(o) == o[0] * 0x100_0000 + low;
    DivideHigh(o[0], low);
  }

  lemma DivideHigh(a: nat, low: nat)
    requires a < 256 && low < 0x100_0000
    ensures (a * 0x100_0000 + low) / 0x1000_0000 == a / 16
  {
    var q, r := a / 16, a % 16;
    assert a == q * 16 + r;
    assert a * 0x100_0000 + low == q * 0x1000_0000 + (r * 0x100_0000 + low);
    assert r * 0x100_0000 + low < 0x1000_0000;
  }

  /** The canonical decimal text of an octet. */
  function Render(v: nat): (s: string)
    requires v < 256
  {
    if v < 10 then [DigitChar(v)]
    else if v < 100 then [DigitChar(v / 10), DigitChar(v % 10)]
    else [DigitChar(v / 100), DigitChar(v / 10 % 10), DigitChar(v % 10)]
  }

  /** The dotted-quad text of an address. */
  function Format(o: Octets): string
  {
    Join([Render(o[0]), Render(o[1]), Render(o[2]), Render(o[3])], '.')
  }

  /** The value of a one-, two- or three-digit string. */
  lemma ShortDecimal(s: string)
    requires AllDigits(s) && 1 <= |s| <= 3
    ensures |s| == 1 ==> DecimalValue(s) == DigitValue(s[0])
    ensures |s| == 2 ==> DecimalValue(s) == DigitValue(s[0]) * 10 + DigitValue(s[1])
    ensures |s| == 3 ==> DecimalValue(s) == (DigitValue(s[0]) * 10 + DigitValue(s[1])) * 10 + DigitValue(s[2])
  {
    assert s[..|s| - 1][..0] == [];
    if |s| == 3 {
      assert s[..2][..1] == [s[0]];
    }
  }

  lemma RenderParses(v: nat)
    requires v < 256
    ensures '.' !in Render(v)
    ensures ParseOctet(Render(v)) == Some(v)
  {
    var s := Render(v);
    RenderDigits(v);
    ShortDecimal(s);
  }

  /** The digits of the canonical text, and their values. */
  lemma RenderDigits(v: nat)
    requires v < 256
    ensures AllDigits(Render(v)) && 1 <= |Render(v)| <= 3
    ensures |Render(v)| == 1 <==> v < 10
    ensures |Render(v)| > 1 ==> Render(v)[0] != '0'
    ensures |Render(v)| == 1 ==> DigitValue(Render(v)[0]) == v
    ensures |Render(v)| == 2 ==> DigitValue(Render(v)[0]) * 10 + DigitValue(Render(v)[1]) == v
    ensures |Render(v)| == 3 ==>
      (DigitValue(Render(v)[0]) * 10 + DigitValue(Render(v)[1])) * 10 + DigitValue(Render(v)[2]) == v
  {
    if 100 <= v {
      var a, b, c := v / 100, v / 10 % 10, v % 10;
      assert v / 10 == a * 10 + b;
      assert (a * 10 + b) * 10 + c == v;
    }
  }

  /** An accepted component is the canonical text of its value. */
  lemma ParsedIsCanonical(s: string)
    requires ParseOctet(s).Some?
    ensures ParseOctet(s).value < 256 && Render(ParseOctet(s).value) == s
  {
    ShortDecimal(s);
    if |s| == 1 {
      assert s == [s[0]];
    } else if |s| == 2 {
      TwoDigits(s, DecimalValue(s));
    } else {
      ThreeDigits(s, DecimalValue(s));
    }
  }

  lemma TwoDigits(s: string, v: nat)
    requires |s| == 2 && AllDigits(s) && s[0] != '0'
    requires v == DigitValue(s[0]) * 10 + DigitValue(s[1])
    ensures v < 100 && Render(v) == s
  {
    assert v / 10 == DigitValue(s[0]) && v % 10 == DigitValue(s[1]);
    assert s == [s[0], s[1]];
  }

  lemma ThreeDigits(s: string, v: nat)
    requires |s| == 3 && AllDigits(s) && s[0] != '0' && v < 256
    requires v == (DigitValue(s[0]) * 10 + DigitValue(s[1])) * 10 + DigitValue(s[2])
    ensures Render(v) == s
  {
    var a, b, c := DigitValue(s[0]), DigitValue(s[1]), DigitValue(s[2]);
    assert v / 100 == a && v / 10 % 10 == b && v % 10 == c;
    assert s == [s[0], s[1], s[2]];
  }

  /** Formatting then parsing gives the address back. */
  lemma ParseFormat(o: Octets)
    ensures Parse(Format(o)) == Some(o)
  {
    var parts := [Render(o[0]), Render(o[1]), Render(o[2]), Render(o[3])];
    RenderParses(o[0]);
    RenderParses(o[1]);
    RenderParses(o[2]);
    RenderParses(o[3]);
    SplitJoin(parts, '.');
    assert Split(Format(o), '.') == parts;
    assert [o[0], o[1], o[2], o[3]] == o;
  }

  /** Parsing then formatting gives the text back: an accepted address has exactly one spelling. */
  lemma FormatParse(s: string)
    requires Parse(s).Some?
    ensures Format(Parse(s).value) == s
  {
    var parts := Split(s, '.');
    ParsedIsCanonical(parts[0]);
    ParsedIsCanonical(parts[1]);
    ParsedIsCanonical(parts[2]);
    ParsedIsCanonical(parts[3]);
    assert parts == [parts[0], parts[1], parts[2], parts[3]];
    JoinSplit(s, '.');
  }

  /** An accepted address splits into the canonical texts of its octets. */
  lemma SplitParsed(s: string)
    requires Parse(s).Some?
    ensures Split(s, '.') == [Render(Parse(s).value[0]), Render(Parse(s).value[1]),
                              Render(Parse(s).value[2]), Render(Parse(s).value[3])]
  {
    var parts := Split(s, '.');
    ParsedIsCanonical(parts[0]);
    ParsedIsCanonical(parts[1]);
    ParsedIsCanonical(parts[2]);
    ParsedIsCanonical(parts[3]);
  }

  /** Distinct octets have distinct texts. */
  lemma RenderInjective(v: nat, w: nat)
    requires v < 256 && w < 256
    ensures Render(v) == Render(w) <==> v == w
  {
    RenderParses(v);
    RenderParses(w);
  }
}
