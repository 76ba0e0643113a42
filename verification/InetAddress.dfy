/** The text form of addresses: src/InetAddress.cpp, with inet_ntop, inet_pton, atoi and snprintf as
the C library defines them (inet_pton in the strict dotted-decimal form of glibc: four parts, no
leading zeros). Memory is little-endian, so the first octet is the low byte of `ip`. */
module InetAddresses {
  import opened Bits

  type uint16 = x: nat | x < 0x1_0000

  datatype InetAddress = InetAddress(ip: uint32, port: uint16)

  datatype Error = InvalidAddr | InvalidIp

  datatype Result<T> = Ok(value: T) | Err(error: Error)

  /** htons and ntohs on a little-endian machine. */
  function SwapBytes(p: uint16): uint16 {
    p % 0x100 * 0x100 + p / 0x100
  }

  function HostPort(a: InetAddress): uint16 {
    SwapBytes(a.port)
  }

  /** The number that the bytes of a field are: in the memory of this machine, and on the network. */
  function LittleEndian(m: seq<byte>): nat {
    if m == [] then 0 else m[0] as int + 0x100 * LittleEndian(m[1..])
  }

  function BigEndian(m: seq<byte>): nat {
    if m == [] then 0 else 0x100 * BigEndian(m[..|m| - 1]) + m[|m| - 1] as int
  }

  /** The two bytes that `port_` occupies hold the host port in network order. */
  lemma PortInNetworkOrder(a: InetAddress, m: seq<byte>)
    requires |m| == 2 && LittleEndian(m) == a.port
    ensures BigEndian(m) == HostPort(a)
  {
    var x, y := m[0] as int, m[1] as int;
    assert m[1..] == [m[1]] && [m[1]][1..] == [];
    assert m[..1] == [m[0]] && [m[0]][..0] == [];
    assert LittleEndian([m[1]]) == y && BigEndian([m[0]]) == x;
    ModuloUnique(a.port, 0x100, y, x);
  }

  // ---------- decimal text ----------

  predicate IsDigit(c: char) {
    '0' <= c <= '9'
  }

  function Digit(d: nat): (c: char)
    requires d < 10
    ensures IsDigit(c) && DigitValue(c) == d
  {
    (d + '0' as int) as char
  }

  function DigitValue(c: char): nat
    requires IsDigit(c)
  {
    c as int - '0' as int
  }

  function Decimal(n: nat): (s: string)
    ensures s != [] && AllDigits(s)
  {
    if n < 10 then [Digit(n)] else Decimal(n / 10) + [Digit(n % 10)]
  }

  predicate AllDigits(s: string) {
    forall i | 0 <= i < |s| :: IsDigit(s[i])
  }

  function Value(s: string): nat
    requires AllDigits(s)
  {
    if s == [] then 0 else 10 * Value(s[..|s| - 1]) + DigitValue(s[|s| - 1])
  }

  lemma {:induction false} ValueOfDecimal(n: nat)
    ensures Value(Decimal(n)) == n
  {
    if n >= 10 {
      ValueOfDecimal(n / 10);
      assert Decimal(n)[..|Decimal(n)| - 1] == Decimal(n / 10);
    }
  }

  /** Without a leading zero, the text is the decimal text of its value. */
  lemma {:induction false} DecimalOfValue(s: string)
    requires s != [] && AllDigits(s) && (|s| > 1 ==> s[0] != '0')
    ensures Decimal(Value(s)) == s
    ensures |s| > 1 ==> Value(s) >= 10
    ensures s[0] != '0' ==> Value(s) >= 1
  {
    var last := |s| - 1;
    var v, d := Value(s[..last]), DigitValue(s[last]);
    assert s == s[..last] + [s[last]];
    assert Digit(d) == s[last];
    if |s| > 1 {
      DecimalOfValue(s[..last]);
      assert (10 * v + d) / 10 == v && (10 * v + d) % 10 == d;
    }
  }

  lemma {:induction false} DecimalLeads(n: nat)
    ensures |Decimal(n)| > 1 ==> Decimal(n)[0] != '0'
    ensures n != 0 ==> Decimal(n)[0] != '0'
  {
    if n >= 10 {
      DecimalLeads(n / 10);
    }
  }

  /** One part of a dotted-decimal address. */
  predicate IsOctet(s: string) {
    && s != [] && AllDigits(s) && (|s| > 1 ==> s[0] != '0') && Value(s) < 0x100
  }

  /** A part is accepted exactly when it is the text printed for its value. */
  lemma OctetIsDecimal(s: string, v: byte)
    ensures IsOctet(s) && Value(s) == v as int <==> s == Decimal(v as int)
  {
    if s == Decimal(v as int) {
      ValueOfDecimal(v as int);
      DecimalLeads(v as int);
    } else if IsOctet(s) {
      DecimalOfValue(s);
    }
  }

  // ---------- splitting ----------

  /** The place of the first `c`, or the length if there is none. */
  function Find(s: string, c: char): (k: nat)
    ensures k <= |s| && (k < |s| ==> s[k] == c) && forall i | 0 <= i < k :: s[i] != c
  {
    if s == [] || s[0] == c then 0
    else
      var k := Find(s[1..], c);
      assert forall i | 0 < i <= k :: s[i] == s[1..][i - 1];
      k + 1
  }

  /** A C string ends at the first NUL. */
  function CStr(s: string): string {
    s[..Find(s, '\0')]
  }

  // ---------- inet_ntop and inet_pton ----------

  type Octets = seq<byte>

  function Ntop(os: Octets): string
    requires |os| > 0
  {
    if |os| == 1 then Decimal(os[0] as int) else Decimal(os[0] as int) + "." + Ntop(os[1..])
  }

  /** Exactly `n` parts separated by dots. */
  function Pton(s: string, n: nat): (r: Result<Octets>)
    requires n > 0
    ensures r.Ok? ==> |r.value| == n
    decreases |s|
  {
    var k := Find(s, '.');
    if !IsOctet(s[..k]) then Err(InvalidIp)
    else if (n == 1) != (k == |s|) then Err(InvalidIp)
    else if n == 1 then Ok([Value(s[..k]) as byte])
    else
      match Pton(s[k + 1..], n - 1)
      case Ok(os) => Ok([Value(s[..k]) as byte] + os)
      case Err(e) => Err(e)
  }

  lemma ConsUnique<T>(x: T, t: seq<T>, os: seq<T>)
    requires os != []
    ensures [x] + t == os <==> x == os[0] && t == os[1..]
  {
    if [x] + t == os {
      assert t == ([x] + t)[1..];
    }
  }

  lemma PtonOne(s: string, o: byte)
    ensures Pton(s, 1) == Ok([o]) <==> s == Decimal(o as int)
  {
    OctetIsDecimal(s, o);
    assert s[..|s|] == s;
    if s == Decimal(o as int) {
      assert Find(s, '.') == |s|;
    }
  }

  lemma PtonCons(s: string, os: Octets)
    requires |os| > 1
    ensures var k := Find(s, '.');
            Pton(s, |os|) == Ok(os) <==>
            k < |s| && s[..k] == Decimal(os[0] as int) && Pton(s[k + 1..], |os| - 1) == Ok(os[1..])
  {
    var k := Find(s, '.');
    OctetIsDecimal(s[..k], os[0]);
    if k < |s| && IsOctet(s[..k]) && Pton(s[k + 1..], |os| - 1).Ok? {
      ConsUnique(Value(s[..k]) as byte, Pton(s[k + 1..], |os| - 1).value, os);
    }
  }

  lemma SplitDot(first: string, rest: string)
    requires AllDigits(first)
    ensures var s := first + "." + rest;
            Find(s, '.') == |first| && s[..|first|] == first && s[|first| + 1..] == rest
  {
    var s := first + "." + rest;
    assert s[|first|] == '.';
    assert forall i | 0 <= i < |first| :: s[i] == first[i];
  }

  lemma Glue(s: string, k: nat)
    requires k < |s| && s[k] == '.'
    ensures s == s[..k] + "." + s[k + 1..]
  {
  }

  lemma {:induction false} NtopParses(os: Octets)
    requires |os| > 0
    ensures Pton(Ntop(os), |os|) == Ok(os)
    decreases |os|
  {
    if |os| == 1 {
      assert os == [os[0]];
      PtonOne(Ntop(os), os[0]);
    } else {
      NtopParses(os[1..]);
      ParsesStep(Decimal(os[0] as int), Ntop(os[1..]), os);
    }
  }

  lemma ParsesStep(first: string, rest: string, os: Octets)
    requires |os| > 1 && first == Decimal(os[0] as int) && Pton(rest, |os| - 1) == Ok(os[1..])
    ensures Pton(first + "." + rest, |os|) == Ok(os)
  {
    SplitDot(first, rest);
    PtonCons(first + "." + rest, os);
  }

  lemma {:induction false} PtonPrints(s: string, os: Octets)
    requires |os| > 0 && Pton(s, |os|) == Ok(os)
    ensures s == Ntop(os)
    decreases |os|
  {
    if |os| == 1 {
      assert os == [os[0]];
      PtonOne(s, os[0]);
    } else {
      PtonCons(s, os);
      var k := Find(s, '.');
      PtonPrints(s[k + 1..], os[1..]);
      PrintsStep(s, k, os);
    }
  }

  lemma PrintsStep(s: string, k: nat, os: Octets)
    requires |os| > 1 && k < |s| && s[k] == '.' && s[..k] == Decimal(os[0] as int) && s[k + 1..] == Ntop(os[1..])
    ensures s == Ntop(os)
  {
    Glue(s, k);
  }

  /** inet_pton accepts exactly the texts that inet_ntop prints, and gives back the octets. */
  lemma PtonIsExact(s: string, os: Octets)
    requires |os| > 0
    ensures Pton(s, |os|) == Ok(os) <==> s == Ntop(os)
  {
    NtopParses(os);
    if Pton(s, |os|) == Ok(os) {
      PtonPrints(s, os);
    }
  }

  // ---------- the address ----------

  function OctetsOf(ip: uint32): (os: Octets)
    ensures |os| == 4
  {
    [(ip % 0x100) as byte, (ip / 0x100 % 0x100) as byte, (ip / 0x1_0000 % 0x100) as byte, (ip / 0x100_0000) as byte]
  }

  function IpOf(os: Octets): uint32
    requires |os| == 4
  {
    os[0] as int + os[1] as int * 0x100 + os[2] as int * 0x1_0000 + os[3] as int * 0x100_0000
  }

  /** The printed octets are the bytes of `ip_` in memory, the first one first. */
  lemma OctetsInMemory(ip: uint32)
    ensures LittleEndian(OctetsOf(ip)) == ip
  {
    var os := OctetsOf(ip);
    var t2, t1 := [os[2], os[3]], [os[1], os[2], os[3]];
    assert LittleEndian([os[3]]) == os[3] as int;
    assert t2[1..] == [os[3]] && LittleEndian(t2) == os[2] as int + 0x100 * os[3] as int;
    assert t1[1..] == t2 && os[1..] == t1;
    IpOfOctets(ip);
  }

  lemma IpOfOctets(ip: uint32)
    ensures IpOf(OctetsOf(ip)) == ip
  {
    var a := ip / 0x100;
    var b := a / 0x100;
    assert b == ip / 0x1_0000 && b / 0x100 == ip / 0x100_0000;
  }

  function IpStr(a: InetAddress): string {
    Ntop(OctetsOf(a.ip))
  }

  /** snprintf into a buffer of 32 bytes keeps at most 31 characters. */
  function ToString(a: InetAddress): string {
    var text := IpStr(a) + ":" + Decimal(HostPort(a));
    text[..Min(31, |text|)]
  }

  predicate IsSpace(c: char) {
    c == ' ' || '\t' <= c <= '\r'
  }

  function DigitsEnd(s: string): (k: nat)
    ensures k <= |s| && AllDigits(s[..k])
  {
    if s == [] || !IsDigit(s[0]) then 0
    else
      var k := DigitsEnd(s[1..]);
      assert s[..k + 1] == [s[0]] + s[1..][..k];
      k + 1
  }

  /** White space, an optional sign, then as many digits as there are. */
  function Atoi(s: string): int {
    if s == [] then 0
    else if IsSpace(s[0]) then Atoi(s[1..])
    else if s[0] == '-' then -(Value(s[1..][..DigitsEnd(s[1..])]) as int)
    else if s[0] == '+' then Value(s[1..][..DigitsEnd(s[1..])])
    else Value(s[..DigitsEnd(s)])
  }

  /** The parts of a dotted-decimal address. */
  const PARTS: nat := 4

  /** atoi, cut to 16 bits. */
  function PortOf(s: string): uint16 {
    Atoi(s) % 0x1_0000
  }

  /** The constructor from text. */
  function Parse(addr: string): Result<InetAddress> {
    var p := Find(addr, ':');
    if p == |addr| then Err(InvalidAddr)
    else
      FromParts(CStr(addr[..p]), PortOf(CStr(addr[p + 1..])))
  }

  function FromParts(ip: string, port: uint16): Result<InetAddress> {
    match Pton(ip, PARTS)
    case Err(_) => Err(InvalidIp)
    case Ok(os) => Ok(InetAddress(IpOf(os), SwapBytes(port)))
  }

  lemma SwapTwice(p: uint16)
    ensures SwapBytes(SwapBytes(p)) == p
  {
    var low, high := p % 0x100, p / 0x100;
    ModuloUnique(low * 0x100 + high, 0x100, low, high);
  }

  lemma DecimalLength(n: nat)
    ensures n < 0x100 ==> |Decimal(n)| <= 3
    ensures n < 0x1_0000 ==> |Decimal(n)| <= 5
  {
    if n >= 10 {
      assert |Decimal(n)| == |Decimal(n / 10)| + 1;
      var m := n / 10;
      if m >= 10 {
        assert |Decimal(m)| == |Decimal(m / 10)| + 1;
        var l := m / 10;
        if l >= 10 {
          assert |Decimal(l)| == |Decimal(l / 10)| + 1;
          assert l / 10 < 10 || |Decimal(l / 10)| == |Decimal(l / 10 / 10)| + 1;
        }
      }
    }
  }

  /** The printed address has digits and dots only, and at most three digits for each octet. */
  lemma {:induction false} NtopText(os: Octets)
    requires |os| > 0
    ensures forall i | 0 <= i < |Ntop(os)| :: IsDigit(Ntop(os)[i]) || Ntop(os)[i] == '.'
    ensures |Ntop(os)| <= 4 * |os| - 1
    decreases |os|
  {
    DecimalLength(os[0] as int);
    if |os| > 1 {
      NtopText(os[1..]);
    }
  }

  /** The text fits the 16 bytes given to inet_ntop and the 32 given to snprintf: nothing is cut. */
  lemma ToStringFits(a: InetAddress)
    ensures |IpStr(a)| < 16 && |ToString(a)| < 32
    ensures ToString(a) == IpStr(a) + ":" + Decimal(HostPort(a))
  {
    NtopText(OctetsOf(a.ip));
    DecimalLength(HostPort(a));
  }

  lemma {:induction false} DigitsEndAll(s: string)
    requires AllDigits(s)
    ensures DigitsEnd(s) == |s|
  {
    if s != [] {
      DigitsEndAll(s[1..]);
    }
  }

  lemma AtoiDecimal(n: nat)
    ensures Atoi(Decimal(n)) == n
  {
    var s := Decimal(n);
    assert IsDigit(s[0]);
    DigitsEndAll(s);
    assert s[..|s|] == s;
    ValueOfDecimal(n);
  }

  lemma CStrClean(s: string)
    requires forall i | 0 <= i < |s| :: s[i] != '\0'
    ensures CStr(s) == s
  {
    assert Find(s, '\0') == |s|;
  }

  lemma SplitColon(ip: string, port: string)
    requires forall i | 0 <= i < |ip| :: ip[i] != ':'
    ensures var s := ip + ":" + port;
            Find(s, ':') == |ip| && s[..|ip|] == ip && s[|ip| + 1..] == port
  {
    var s := ip + ":" + port;
    assert s[|ip|] == ':';
    assert forall i | 0 <= i < |ip| :: s[i] == ip[i];
  }

  /** For every 32-bit address and 16-bit port, parsing the printed text gives the address back. */
  lemma RoundTrip(a: InetAddress)
    ensures Parse(ToString(a)) == Ok(a)
  {
    ToStringFits(a);
    ParsePrinted(OctetsOf(a.ip), HostPort(a));
    IpOfOctets(a.ip);
    SwapTwice(a.port);
  }

  lemma ParsePrinted(os: Octets, n: uint16)
    requires |os| == 4
    ensures Parse(Ntop(os) + ":" + Decimal(n)) == Ok(InetAddress(IpOf(os), SwapBytes(n)))
  {
    var ip := PrintedIp(os);
    var port := PrintedPort(n);
    ParseParts(ip, port, os);
  }

  lemma PrintedIp(os: Octets) returns (ip: string)
    requires |os| == 4
    ensures ip == Ntop(os) && Pton(ip, 4) == Ok(os)
    ensures forall i | 0 <= i < |ip| :: IsDigit(ip[i]) || ip[i] == '.'
  {
    ip := Ntop(os);
    NtopText(os);
    NtopParses(os);
  }

  lemma PrintedPort(n: uint16) returns (port: string)
    ensures port == Decimal(n) && AllDigits(port) && Atoi(port) % 0x1_0000 == n
  {
    port := Decimal(n);
    AtoiDecimal(n);
    ModuloUnique(n, 0x1_0000, 0, n);
  }

  lemma ParseParts(ip: string, port: string, os: Octets)
    requires |os| == 4 && Pton(ip, 4) == Ok(os) && AllDigits(port)
    requires forall i | 0 <= i < |ip| :: IsDigit(ip[i]) || ip[i] == '.'
    ensures Parse(ip + ":" + port) == Ok(InetAddress(IpOf(os), SwapBytes(Atoi(port) % 0x1_0000)))
  {
    SplitColon(ip, port);
    CStrClean(ip);
    CStrClean(port);
  }

  /** The constructor yields an address exactly when a colon follows its printed ip (up to a NUL) and
      the number atoi reads after the colon is its host port modulo 2^16. */
  lemma {:induction false} ParseIsExact(addr: string, a: InetAddress)
    ensures var p := Find(addr, ':');
            Parse(addr) == Ok(a) <==>
            p < |addr| && CStr(addr[..p]) == IpStr(a) && PortOf(CStr(addr[p + 1..])) == HostPort(a)
  {
    var p := Find(addr, ':');
    if p < |addr| {
      ParseTakesParts(addr);
      FromPartsExactly(CStr(addr[..p]), PortOf(CStr(addr[p + 1..])), a);
    } else {
      assert Parse(addr) == Err(InvalidAddr);
    }
  }

  lemma ParseTakesParts(addr: string)
    requires Find(addr, ':') < |addr|
    ensures var p := Find(addr, ':');
            Parse(addr) == FromParts(CStr(addr[..p]), PortOf(CStr(addr[p + 1..])))
  {
  }

  lemma {:induction false} FromPartsExactly(ip: string, port: uint16, a: InetAddress)
    ensures FromParts(ip, port) == Ok(a) <==> ip == IpStr(a) && port == HostPort(a)
  {
    ReadsIpExactly(ip, a.ip);
    SwapTwice(a.port);
    SwapTwice(port);
  }

  lemma {:induction false} ReadsIpExactly(text: string, ip: uint32)
    ensures Pton(text, PARTS).Ok? && IpOf(Pton(text, PARTS).value) == ip <==> text == Ntop(OctetsOf(ip))
  {
    PtonIsExact(text, OctetsOf(ip));
    IpOfOctets(ip);
    if Pton(text, PARTS).Ok? {
      OctetsOfIp(Pton(text, PARTS).value);
    }
  }

  /** The constructor throws "invalid addr" exactly without a colon, and "invalid ip" exactly when no
      address prints as the text before it. */
  lemma {:induction false} ParseFailsExactly(addr: string)
    ensures Parse(addr) == Err(InvalidAddr) <==> ':' !in addr
    ensures Parse(addr) == Err(InvalidIp) <==>
              ':' in addr && forall os: Octets | |os| == 4 :: CStr(addr[..Find(addr, ':')]) != Ntop(os)
  {
    var p := Find(addr, ':');
    if p < |addr| {
      var text := CStr(addr[..p]);
      forall os: Octets | |os| == 4
        ensures Pton(text, PARTS) == Ok(os) <==> text == Ntop(os)
      {
        PtonIsExact(text, os);
      }
      if Pton(text, PARTS).Ok? {
        assert |Pton(text, PARTS).value| == 4;
      }
    }
  }

  predicate AllSpace(s: string) {
    forall i | 0 <= i < |s| :: IsSpace(s[i])
  }

  /** What atoi reads: past white space and one sign, the digits up to the first other character. */
  lemma {:induction false} AtoiReads(space: string, sign: string, digits: string, rest: string)
    requires AllSpace(space) && AllDigits(digits) && sign in {"", "-", "+"}
    requires rest == [] || !IsDigit(rest[0])
    requires sign == "" && digits == "" && rest != [] ==> !IsSpace(rest[0]) && rest[0] != '-' && rest[0] != '+'
    ensures Atoi(space + sign + digits + rest) == if sign == "-" then -(Value(digits) as int) else Value(digits)
    decreases |space|
  {
    var s := space + sign + digits + rest;
    if space != [] {
      AtoiReads(space[1..], sign, digits, rest);
      assert s[1..] == space[1..] + sign + digits + rest;
    } else {
      DigitsEndAt(digits, rest);
      if sign == "" {
        assert s == digits + rest;
      } else {
        assert s[0] == sign[0] && s[1..] == digits + rest;
      }
      assert (digits + rest)[..|digits|] == digits;
    }
  }

  lemma {:induction false} DigitsEndAt(digits: string, rest: string)
    requires AllDigits(digits) && (rest == [] || !IsDigit(rest[0]))
    ensures DigitsEnd(digits + rest) == |digits|
  {
    if digits == [] {
      assert digits + rest == rest;
    } else {
      DigitsEndAt(digits[1..], rest);
      assert (digits + rest)[1..] == digits[1..] + rest;
    }
  }

  lemma OctetsOfIp(os: Octets)
    requires |os| == 4
    ensures OctetsOf(IpOf(os)) == os
  {
    var ip, a, b, c, d := IpOf(os), os[0] as int, os[1] as int, os[2] as int, os[3] as int;
    assert ip / 0x100 == b + c * 0x100 + d * 0x1_0000;
    assert ip / 0x1_0000 == c + d * 0x100;
  }
}
