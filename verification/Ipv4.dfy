/** IPv4 addresses as numbers, as four octets and as dotted-quad text.
    Print and Parse stand for inet_ntop and inet_pton with the byte-order swaps around them. */
module Ipv4 {
  import opened Results
  import opened Text

  const SPACE: nat := 0x1_0000_0000            // values of a uint32_t
  const ULONG: nat := 0x1_0000_0000_0000_0000  // values of an unsigned long

  type Address = n: int | 0 <= n < 0x1_0000_0000
  type Octet = n: int | 0 <= n < 256

  /** Octets of an address, most significant first. */
  function OctetsOf(ip: Address): (o: seq<Octet>)
    ensures |o| == 4
  {
    [ip / 256 / 256 / 256, ip / 256 / 256 % 256, ip / 256 % 256, ip % 256]
  }

  function FromOctets(o: seq<Octet>): (ip: Address)
    requires |o| == 4
  {
    ((o[0] as int * 256 + o[1] as int) * 256 + o[2] as int) * 256 + o[3] as int
  }

  lemma OctetsRoundTrip(ip: Address)
    ensures FromOctets(OctetsOf(ip)) == ip
  {
    var x1 := ip / 256;
    var x2 := x1 / 256;
    assert ip == 256 * x1 + ip % 256 && x1 == 256 * x2 + x1 % 256 && x2 == 256 * (x2 / 256) + x2 % 256;
  }

  lemma FromOctetsRoundTrip(o: seq<Octet>)
    requires |o| == 4
    ensures OctetsOf(FromOctets(o)) == o
  {
    var x2: int := o[0] as int * 256 + o[1] as int;
    var x1: int := x2 * 256 + o[2] as int;
    var ip: int := x1 * 256 + o[3] as int;
    assert ip / 256 == x1 && x1 / 256 == x2 && x2 / 256 == o[0];
  }

  /** Dividing by a larger power of 256 is dividing in steps. */
  lemma DivideInSteps(x: nat)
    ensures x / 256 / 256 == x / 0x1_0000
    ensures x / 256 / 256 / 256 == x / 0x100_0000
  {
    var y := x / 0x1_0000;
    assert x / 256 == y * 256 + x % 0x1_0000 / 256;
    var z := x / 0x100_0000;
    assert y == z * 256 + x % 0x100_0000 / 0x1_0000;
  }

  /** Leading octets agree exactly when the address divided by the block size agrees. */
  lemma LeadingOctets(x: Address, y: Address)
    ensures OctetsOf(x)[..1] == OctetsOf(y)[..1] <==> x / 0x100_0000 == y / 0x100_0000
    ensures OctetsOf(x)[..2] == OctetsOf(y)[..2] <==> x / 0x1_0000 == y / 0x1_0000
    ensures OctetsOf(x)[..3] == OctetsOf(y)[..3] <==> x / 256 == y / 256
  {
    var ox, oy := OctetsOf(x), OctetsOf(y);
    assert ox[..1] == [ox[0]] && oy[..1] == [oy[0]];
    assert ox[..2] == [ox[0], ox[1]] && oy[..2] == [oy[0], oy[1]];
    assert ox[..3] == [ox[0], ox[1], ox[2]] && oy[..3] == [oy[0], oy[1], oy[2]];
    SameQuotients(x, y);
    DivideInSteps(x);
    DivideInSteps(y);
  }

  lemma SameQuotients(x: Address, y: Address)
    ensures OctetsOf(x)[0] == OctetsOf(y)[0] <==> x / 256 / 256 / 256 == y / 256 / 256 / 256
    ensures OctetsOf(x)[0] == OctetsOf(y)[0] && OctetsOf(x)[1] == OctetsOf(y)[1]
            <==> x / 256 / 256 == y / 256 / 256
    ensures OctetsOf(x)[0] == OctetsOf(y)[0] && OctetsOf(x)[1] == OctetsOf(y)[1] && OctetsOf(x)[2] == OctetsOf(y)[2]
            <==> x / 256 == y / 256
  {
    var x1, y1 := x / 256, y / 256;
    var x2, y2 := x1 / 256, y1 / 256;
    assert x2 == 256 * (x2 / 256) + x2 % 256 && y2 == 256 * (y2 / 256) + y2 % 256;
    assert x1 == 256 * x2 + x1 % 256 && y1 == 256 * y2 + y1 % 256;
  }

  // ---- Text ---------------------------------------------------------------

  /** An octet in decimal, without leading zeros. */
  function OctetText(n: Octet): (s: string)
    ensures NoDot(s) && 1 <= |s| <= 3
    ensures forall i :: 0 <= i < |s| ==> IsDigit(s[i])
  {
    if n < 10 then [Digit(n)]
    else if n < 100 then [Digit(n / 10), Digit(n % 10)]
    else [Digit(n / 100), Digit(n / 10 % 10), Digit(n % 10)]
  }

  /** One field as inet_pton accepts it: one to three digits, no leading zero, at most 255. */
  function ParseOctet(s: string): Option<Octet> {
    if |s| == 1 && IsDigit(s[0]) then Some(DigitValue(s[0]))
    else if |s| == 2 && IsDigit(s[0]) && IsDigit(s[1]) && s[0] != '0' then
      Some(10 * DigitValue(s[0]) + DigitValue(s[1]))
    else if |s| == 3 && IsDigit(s[0]) && IsDigit(s[1]) && IsDigit(s[2]) && s[0] != '0' then
      var n := 100 * DigitValue(s[0]) + 10 * DigitValue(s[1]) + DigitValue(s[2]);
      if n < 256 then Some(n) else None
    else None
  }

  lemma OctetTextRoundTrip(n: Octet)
    ensures ParseOctet(OctetText(n)) == Some(n)
  {
    assert n == 10 * (n / 10) + n % 10 && n / 10 == 10 * (n / 100) + n / 10 % 10;
  }

  lemma TwoDigitsBack(a: int, b: int)
    requires 0 <= a < 10 && 0 <= b < 10
    ensures (10 * a + b) / 10 == a && (10 * a + b) % 10 == b
  {
  }

  lemma ThreeDigitsBack(a: int, b: int, c: int)
    requires 0 <= a < 10 && 0 <= b < 10 && 0 <= c < 10
    ensures var n := 100 * a + 10 * b + c; n / 100 == a && n / 10 % 10 == b && n % 10 == c
  {
    var n := 100 * a + 10 * b + c;
    assert n / 10 == 10 * a + b;
  }

  lemma ParsedOctetIsCanonical(s: string)
    requires ParseOctet(s).Some?
    ensures OctetText(ParseOctet(s).value) == s
  {
    if |s| == 2 {
      TwoDigitsBack(DigitValue(s[0]), DigitValue(s[1]));
    } else if |s| == 3 {
      ThreeDigitsBack(DigitValue(s[0]), DigitValue(s[1]), DigitValue(s[2]));
    }
  }

  function QuadFields(ip: Address): (fs: seq<string>)
    ensures |fs| == 4 && Plain(fs)
  {
    var o := OctetsOf(ip);
    [OctetText(o[0]), OctetText(o[1]), OctetText(o[2]), OctetText(o[3])]
  }

  /** inet_ntop: the dotted quad of an address. */
  function Print(ip: Address): string {
    JoinDots(QuadFields(ip))
  }

  /** inet_pton: four octets between dots and nothing else. */
  function Parse(s: string): Option<Address> {
    var fs := Fields(s);
    if |fs| != 4 then None
    else
      match (ParseOctet(fs[0]), ParseOctet(fs[1]), ParseOctet(fs[2]), ParseOctet(fs[3]))
      case (Some(a), Some(b), Some(c), Some(d)) => Some(FromOctets([a, b, c, d]))
      case _ => None
  }

  lemma FieldsOfPrint(ip: Address)
    ensures Fields(Print(ip)) == QuadFields(ip)
  {
    FieldsOfJoin(QuadFields(ip));
  }

  /** Text of an address reads back as that address. */
  lemma ParsePrint(ip: Address)
    ensures Parse(Print(ip)) == Some(ip)
  {
    FieldsOfPrint(ip);
    forall n: Octet ensures ParseOctet(OctetText(n)) == Some(n) { OctetTextRoundTrip(n); }
    var o := OctetsOf(ip);
    assert [o[0], o[1], o[2], o[3]] == o;
    OctetsRoundTrip(ip);
  }

  /** Every accepted text is the one text of its address. */
  lemma PrintParse(s: string)
    requires Parse(s).Some?
    ensures Print(Parse(s).value) == s
  {
    var fs := Fields(s);
    var o: seq<Octet> := [ParseOctet(fs[0]).value, ParseOctet(fs[1]).value,
                          ParseOctet(fs[2]).value, ParseOctet(fs[3]).value];
    assert Parse(s).value == FromOctets(o);
    FromOctetsRoundTrip(o);
    ParsedOctetIsCanonical(fs[0]);
    ParsedOctetIsCanonical(fs[1]);
    ParsedOctetIsCanonical(fs[2]);
    ParsedOctetIsCanonical(fs[3]);
    assert QuadFields(FromOctets(o)) == fs;
    JoinOfFields(s);
  }

  lemma OctetTextInjective(m: Octet, n: Octet)
    requires OctetText(m) == OctetText(n)
    ensures m == n
  {
    OctetTextRoundTrip(m);
    OctetTextRoundTrip(n);
  }

  /** The first k fields of the text agree exactly when the first k octets do. */
  lemma LeadingFields(x: Address, y: Address, k: nat)
    requires k <= 4
    ensures QuadFields(x)[..k] == QuadFields(y)[..k] <==> OctetsOf(x)[..k] == OctetsOf(y)[..k]
  {
    var ox, oy, fx, fy := OctetsOf(x), OctetsOf(y), QuadFields(x), QuadFields(y);
    if fx[..k] == fy[..k] {
      forall i | 0 <= i < k ensures ox[i] == oy[i] {
        assert fx[..k][i] == fx[i] && fy[..k][i] == fy[i];
        OctetTextInjective(ox[i], oy[i]);
      }
    }
    if ox[..k] == oy[..k] {
      forall i | 0 <= i < k ensures fx[i] == fy[i] {
        assert ox[..k][i] == ox[i] && oy[..k][i] == oy[i];
      }
    }
  }

  // ---- The two conversions of the library ---------------------------------

  /** convert_bin_ipv4_to_text: refuses zero, before the value is cut to 32 bits. */
  function BinToText(ip: nat): Result<string> {
    if ip == 0 then Err(NoData) else Ok(Print(ip % SPACE))
  }

  /** convert_text_ipv4_to_bin */
  function TextToBin(addr: string): Result<Address> {
    match Parse(addr)
    case Some(ip) => Ok(ip)
    case None => Err(IpConvertFailed)
  }

  /** Converting to text and back keeps the low 32 bits, and refuses zero. */
  lemma BinTextBin(ip: nat)
    ensures BinToText(ip).Ok? <==> ip != 0
    ensures ip != 0 ==> TextToBin(BinToText(ip).value) == Ok(ip % SPACE)
  {
    ParsePrint(ip % SPACE);
  }

  /** Converting from text and back gives the same text, and refuses only 0.0.0.0. */
  lemma TextBinText(addr: string)
    requires TextToBin(addr).Ok?
    ensures BinToText(TextToBin(addr).value) == (if addr == "0.0.0.0" then Err(NoData) else Ok(addr))
  {
    hide Parse, Print;
    var ip := Parse(addr).value;
    PrintParse(addr);
    assert ip % SPACE == ip;
    ZeroText();
    ParsePrint(0);
  }

  lemma ZeroText()
    ensures Print(0) == "0.0.0.0"
  {
    var fs := QuadFields(0);
    assert fs == ["0", "0", "0", "0"];
    assert fs[1..] == ["0", "0", "0"] && fs[1..][1..] == ["0", "0"] && fs[1..][1..][1..] == ["0"];
  }
}
