/**
 * IPv4 arithmetic of the search layer: dotted-quad validation (ip?),
 * conversion between a dotted quad and an unsigned 32-bit integer (u32, ip),
 * CIDR and range syntax (cidr, range) and the inclusive numeric bounds they
 * denote (u32_bounds).
 */
module IPv4 {
  import opened Text
  import opened Bits

  const MaxU32: nat := 0xffff_ffff

  // ---------------------------------------------------------------------------
  // ip?

  /** One field of a dotted quad: decimal digits whose value is at most 255. */
  predicate IsOctet(field: string)
  {
    |field| > 0 && AllDigits(field) && DecValue(field) <= 255
  }

  /**
   * ip?: the string splits on "." (trailing empty fields dropped, as
   * String#split does) into exactly four octets.
   */
  predicate IsAddress(s: string)
  {
    var fields := RubySplit(s, '.');
    |fields| == 4 && forall i | 0 <= i < 4 :: IsOctet(fields[i])
  }

  /** The numeric values of the four fields of an address. */
  function Octets(s: string): (o: seq<nat>)
    requires IsAddress(s)
    ensures |o| == 4 && forall i | 0 <= i < 4 :: o[i] <= 255
  {
    var fields := RubySplit(s, '.');
    seq(4, i requires 0 <= i < 4 => DecValue(fields[i]))
  }

  /** Base-256 value of four octets, most significant first. */
  function BigEndian(o: seq<nat>): nat
    requires |o| == 4
  {
    ((o[0] * 256 + o[1]) * 256 + o[2]) * 256 + o[3]
  }

  /** The four bytes of a 32-bit value, most significant first. */
  function Bytes(n: nat): (b: seq<nat>)
    requires n <= MaxU32
    ensures |b| == 4 && forall i | 0 <= i < 4 :: b[i] <= 255
    ensures BigEndian(b) == n
  {
    var m1 := n / 256;
    var m2 := m1 / 256;
    [m2 / 256, m2 % 256, m1 % 256, n % 256]
  }

  // ---------------------------------------------------------------------------
  // u32

  /** `octet.to_i.to_s(16).rjust(2, "0")` */
  function HexOctet(field: string): (h: string)
    requires AllDigits(field)
    ensures AllHex(h) && HexValue(h) == DecValue(field)
  {
    HexValueOfHexString(DecValue(field));
    HexValueRJust(HexString(DecValue(field)), 2);
    RJust(HexString(DecValue(field)), 2, '0')
  }

  /**
   * u32: nil unless ip?; otherwise each octet is written as two hexadecimal
   * digits, the eight digits are joined and read back as one hexadecimal
   * number.
   */
  function U32(s: string): (r: Option<nat>)
    ensures r.Some? <==> IsAddress(s)
  {
    if !IsAddress(s) then None
    else
      Some(HexValue(HexOctets(RubySplit(s, '.'))))
  }

  /** `octets.map { ... }.join`: the hexadecimal numerals of four octets, joined. */
  function HexOctets(fields: seq<string>): (hex: string)
    requires |fields| == 4 && forall i | 0 <= i < 4 :: IsOctet(fields[i])
    ensures AllHex(hex)
  {
    assert IsOctet(fields[0]) && IsOctet(fields[1]) && IsOctet(fields[2]) && IsOctet(fields[3]);
    var p0, p1, p2, p3 := HexOctet(fields[0]), HexOctet(fields[1]), HexOctet(fields[2]), HexOctet(fields[3]);
    HexValueAppend(p0, p1);
    HexValueAppend(p0 + p1, p2);
    HexValueAppend(p0 + p1 + p2, p3);
    p0 + p1 + p2 + p3
  }

  lemma HexOctetLength(field: string)
    requires IsOctet(field)
    ensures |HexOctet(field)| == 2
  {
    HexStringLength(DecValue(field), 2);
  }

  /** Base-256 positional value of two-digit hexadecimal numerals joined together. */
  lemma HexOfFour(p0: string, p1: string, p2: string, p3: string)
    requires AllHex(p0) && AllHex(p1) && AllHex(p2) && AllHex(p3)
    requires |p0| == 2 && |p1| == 2 && |p2| == 2 && |p3| == 2
    ensures HexValue(p0 + p1 + p2 + p3) == BigEndian([HexValue(p0), HexValue(p1), HexValue(p2), HexValue(p3)])
  {
    assert Pow16(2) == 256;
    HexValueAppend(p0, p1);
    HexValueAppend(p0 + p1, p2);
    HexValueAppend(p0 + p1 + p2, p3);
  }

  /** The joined numerals of four octets read back as the big-endian value of the octets. */
  lemma HexOctetsValue(fields: seq<string>)
    requires |fields| == 4 && forall i | 0 <= i < 4 :: IsOctet(fields[i])
    ensures HexValue(HexOctets(fields))
         == BigEndian([DecValue(fields[0]), DecValue(fields[1]), DecValue(fields[2]), DecValue(fields[3])])
  {
    assert IsOctet(fields[0]) && IsOctet(fields[1]) && IsOctet(fields[2]) && IsOctet(fields[3]);
    HexOctetLength(fields[0]);
    HexOctetLength(fields[1]);
    HexOctetLength(fields[2]);
    HexOctetLength(fields[3]);
    HexOfFour(HexOctet(fields[0]), HexOctet(fields[1]), HexOctet(fields[2]), HexOctet(fields[3]));
  }

  /** u32 of an address is the big-endian value of its octets, a 32-bit number. */
  lemma U32Value(s: string)
    requires IsAddress(s)
    ensures U32(s) == Some(BigEndian(Octets(s)))
    ensures BigEndian(Octets(s)) <= MaxU32
  {
    var fields := RubySplit(s, '.');
    HexOctetsValue(fields);
    var o := Octets(s);
    assert o == [DecValue(fields[0]), DecValue(fields[1]), DecValue(fields[2]), DecValue(fields[3])];
    BigEndianBound(o);
  }

  lemma BigEndianBound(o: seq<nat>)
    requires |o| == 4 && forall i | 0 <= i < 4 :: o[i] <= 255
    ensures BigEndian(o) <= MaxU32
  {
    var t1 := o[0] * 256 + o[1];
    assert t1 <= 65535;
    var t2 := t1 * 256 + o[2];
    assert t2 <= 16777215;
  }

  /** Four octets are determined by their big-endian value. */
  lemma BigEndianInjective(a: seq<nat>, b: seq<nat>)
    requires |a| == 4 && |b| == 4
    requires forall i | 0 <= i < 4 :: a[i] <= 255 && b[i] <= 255
    requires BigEndian(a) == BigEndian(b)
    ensures a == b
  {
    var a2, b2 := (a[0] * 256 + a[1]) * 256 + a[2], (b[0] * 256 + b[1]) * 256 + b[2];
    SameBlock(a2, b2, BigEndian(a), 256);
    var a1, b1 := a[0] * 256 + a[1], b[0] * 256 + b[1];
    SameBlock(a1, b1, a2, 256);
    SameBlock(a[0], b[0], a1, 256);
  }

  // ---------------------------------------------------------------------------
  // ip

  /** The argument of ip: Ruby accepts any object; only integers are modelled among the numerics. */
  datatype Arg = Num(n: int) | NonNumeric

  /** `chars.each_slice(2).map(&:join)` */
  function Pairs(s: string): (r: seq<string>)
    ensures |r| == (|s| + 1) / 2
    decreases |s|
  {
    if |s| <= 2 then (if s == [] then [] else [s])
    else [s[..2]] + Pairs(s[2..])
  }

  /** Slice i holds the characters 2i and 2i + 1 (fewer at the end). */
  lemma {:induction false} PairsAt(s: string, i: nat)
    requires i < |Pairs(s)|
    ensures 2 * i < |s|
    ensures Pairs(s)[i] == s[2 * i..if 2 * i + 2 <= |s| then 2 * i + 2 else |s|]
    decreases |s|
  {
    if |s| > 2 && i > 0 {
      PairsAt(s[2..], i - 1);
    }
  }

  lemma PairsHex(s: string)
    requires AllHex(s)
    ensures forall i | 0 <= i < |Pairs(s)| :: AllHex(Pairs(s)[i])
  {
    var r := Pairs(s);
    forall i, k | 0 <= i < |r| && 0 <= k < |r[i]| ensures IsHexDigit(r[i][k]) {
      PairsAt(s, i);
      assert r[i][k] == s[2 * i + k];
    }
  }

  /** The eight zero-padded hexadecimal digits of a 32-bit value. */
  function Hex8(n: nat): (h: string)
    ensures AllHex(h) && HexValue(h) == n
    ensures n <= MaxU32 ==> |h| == 8
  {
    HexValueRJust(HexString(n), 8);
    HexValueOfHexString(n);
    if n <= MaxU32 then
      assert Pow16(8) == MaxU32 + 1;
      HexStringLength(n, 8);
      RJust(HexString(n), 8, '0')
    else
      RJust(HexString(n), 8, '0')
  }

  /**
   * ip: nil unless the argument is numeric and within [0, 0xffffffff];
   * otherwise the eight zero-padded hexadecimal digits of the value are cut
   * into pairs, each pair read as a number and written in decimal, and the
   * results joined with ".".
   */
  function Ip(u: Arg): (r: Option<string>)
    ensures r.Some? <==> u.Num? && 0 <= u.n <= MaxU32
  {
    if u.NonNumeric? || !(0 <= u.n <= MaxU32) then None
    else
      PairsHex(Hex8(u.n));
      Some(Join(DecimalPairs(Pairs(Hex8(u.n))), '.'))
  }

  /** `map { |p| p.to_i(16).to_s }`: each hexadecimal pair rewritten in decimal. */
  function DecimalPairs(pairs: seq<string>): (r: seq<string>)
    requires forall i | 0 <= i < |pairs| :: AllHex(pairs[i])
    ensures |r| == |pairs|
    ensures forall i | 0 <= i < |pairs| :: IsCanonicalDecimal(r[i]) && DecValue(r[i]) == HexValue(pairs[i])
  {
    var r := seq(|pairs|, i requires 0 <= i < |pairs| => DecString(HexValue(pairs[i])));
    forall i | 0 <= i < |pairs| ensures DecValue(r[i]) == HexValue(pairs[i]) {
      DecValueOfDecString(HexValue(pairs[i]));
    }
    r
  }

  /** The dotted quad of four octets. */
  function Dotted(o: seq<nat>): string
    requires |o| == 4
  {
    Join([DecString(o[0]), DecString(o[1]), DecString(o[2]), DecString(o[3])], '.')
  }

  /** Eight hexadecimal digits fall into four two-digit pairs. */
  lemma PairsOfEight(hex: string)
    requires |hex| == 8 && AllHex(hex)
    ensures var p := Pairs(hex);
      |p| == 4 && (forall i | 0 <= i < 4 :: AllHex(p[i]) && |p[i]| == 2)
      && hex == p[0] + p[1] + p[2] + p[3]
  {
    PairsHex(hex);
    PairsAt(hex, 0);
    PairsAt(hex, 1);
    PairsAt(hex, 2);
    PairsAt(hex, 3);
    var p := Pairs(hex);
    assert p[0] == hex[0..2] && p[1] == hex[2..4] && p[2] == hex[4..6] && p[3] == hex[6..8];
    EightInPairs(hex);
  }

  lemma EightInPairs(s: string)
    requires |s| == 8
    ensures s == s[0..2] + s[2..4] + s[4..6] + s[6..8]
  {
    assert s[0..4] == s[0..2] + s[2..4];
    assert s[4..8] == s[4..6] + s[6..8];
    assert s == s[0..4] + s[4..8];
  }

  /** Pair i of eight hexadecimal digits of value n is byte i of n. */
  lemma PairValues(hex: string, n: nat)
    requires |hex| == 8 && AllHex(hex) && HexValue(hex) == n && n <= MaxU32
    ensures |Pairs(hex)| == 4
    ensures forall i | 0 <= i < 4 :: AllHex(Pairs(hex)[i]) && HexValue(Pairs(hex)[i]) == Bytes(n)[i]
  {
    PairsOfEight(hex);
    var p := Pairs(hex);
    HexOfFour(p[0], p[1], p[2], p[3]);
    var h := [HexValue(p[0]), HexValue(p[1]), HexValue(p[2]), HexValue(p[3])];
    TwoHexDigits(p[0]);
    TwoHexDigits(p[1]);
    TwoHexDigits(p[2]);
    TwoHexDigits(p[3]);
    BigEndianInjective(h, Bytes(n));
  }

  /** ip writes the four big-endian bytes of its argument in decimal, joined with ".". */
  lemma IpValue(n: nat)
    requires n <= MaxU32
    ensures Ip(Num(n)) == Some(Dotted(Bytes(n)))
  {
    PairValues(Hex8(n), n);
    var p := Pairs(Hex8(n));
    var b := Bytes(n);
    assert DecimalPairs(p) == [DecString(b[0]), DecString(b[1]), DecString(b[2]), DecString(b[3])];
  }

  lemma TwoHexDigits(p: string)
    requires AllHex(p) && |p| == 2
    ensures HexValue(p) <= 255
  {
    assert p[..1][..0] == [];
    assert HexValue(p[..1]) == HexDigitValue(p[0]);
  }

  // ---------------------------------------------------------------------------
  // Building and taking apart addresses

  /** Four octet fields joined with ".", followed by any number of extra dots, form an address. */
  lemma AddressOfFields(f: seq<string>, k: nat)
    requires |f| == 4 && forall i | 0 <= i < 4 :: IsOctet(f[i])
    ensures IsAddress(Join(f, '.') + Repeat('.', k))
    ensures RubySplit(Join(f, '.') + Repeat('.', k), '.') == f
    ensures Octets(Join(f, '.') + Repeat('.', k)) == [DecValue(f[0]), DecValue(f[1]), DecValue(f[2]), DecValue(f[3])]
  {
    forall i | 0 <= i < 4 ensures '.' !in f[i] {
      DigitsExclude(f[i], '.');
    }
    RubySplitJoin(f, k, '.');
  }

  /**
   * Every address is four octet fields joined with ".", followed by the
   * dots String#split dropped.
   */
  lemma AddressShape(s: string)
    requires IsAddress(s)
    ensures Count(s, '.') >= 3
    ensures s == Join(RubySplit(s, '.'), '.') + Repeat('.', Count(s, '.') - 3)
  {
    RubySplitShape(s, '.');
  }

  /** The characters of a join are the separator and characters of the fields. */
  lemma JoinChars(fields: seq<string>, sep: char, c: char)
    requires |fields| >= 1
    requires c != sep && forall i | 0 <= i < |fields| :: c !in fields[i]
    ensures c !in Join(fields, sep)
  {
    if |fields| > 1 {
      JoinChars(fields[1..], sep, c);
    }
  }

  /** An address holds only digits and dots, so in particular no "/" and no "-". */
  lemma AddressChars(s: string, c: char)
    requires IsAddress(s) && !IsDigit(c) && c != '.'
    ensures c !in s
  {
    var f := RubySplit(s, '.');
    forall i | 0 <= i < 4 ensures c !in f[i] {
      DigitsExclude(f[i], c);
    }
    AddressShape(s);
    JoinChars(f, '.', c);
  }

  // ---------------------------------------------------------------------------
  // Round trips

  /** Four octets written in decimal and joined with "." form an address with those octets. */
  lemma DottedAddress(o: seq<nat>)
    requires |o| == 4 && forall i | 0 <= i < 4 :: o[i] <= 255
    ensures IsAddress(Dotted(o)) && Octets(Dotted(o)) == o
  {
    var f := [DecString(o[0]), DecString(o[1]), DecString(o[2]), DecString(o[3])];
    forall i | 0 <= i < 4 ensures IsOctet(f[i]) && DecValue(f[i]) == o[i] {
      DecValueOfDecString(o[i]);
    }
    AddressOfFields(f, 0);
    assert Join(f, '.') + Repeat('.', 0) == Dotted(o);
  }

  /** u32(ip(n)) == n for every 32-bit n. */
  lemma U32OfIp(n: nat)
    requires n <= MaxU32
    ensures Ip(Num(n)).Some? && U32(Ip(Num(n)).value) == Some(n)
  {
    IpValue(n);
    DottedAddress(Bytes(n));
    U32Value(Dotted(Bytes(n)));
  }

  /** A dotted quad as ip writes it: four canonical decimal octets joined with ".". */
  predicate IsCanonicalAddress(s: string)
  {
    var f := SplitAll(s, '.');
    |f| == 4 && forall i | 0 <= i < 4 :: IsCanonicalDecimal(f[i]) && DecValue(f[i]) <= 255
  }

  /** A canonical dotted quad is an address that writing its octets back in decimal reproduces. */
  lemma CanonicalOctets(s: string)
    requires IsCanonicalAddress(s)
    ensures IsAddress(s) && Dotted(Octets(s)) == s
  {
    var f := SplitAll(s, '.');
    JoinSplitAll(s, '.');
    AddressOfFields(f, 0);
    assert Join(f, '.') + Repeat('.', 0) == s;
    var o := Octets(s);
    forall i | 0 <= i < 4 ensures DecString(o[i]) == f[i] {
      DecStringOfDecValue(f[i]);
    }
    assert [DecString(o[0]), DecString(o[1]), DecString(o[2]), DecString(o[3])] == f;
  }

  /** ip(u32(s)) == s for every dotted quad without leading zeros or trailing dots. */
  lemma IpOfU32(s: string)
    requires IsCanonicalAddress(s)
    ensures IsAddress(s) && Ip(Num(U32(s).value)) == Some(s)
  {
    CanonicalOctets(s);
    U32Value(s);
    var n := BigEndian(Octets(s));
    IpValue(n);
    BigEndianInjective(Octets(s), Bytes(n));
  }

  // ---------------------------------------------------------------------------
  // cidr and range

  datatype CidrParts = CidrParts(addr: string, bits: nat)

  /**
   * cidr: `^(.*)\/(.*)$` splits at the last "/"; the text before it must be
   * an address and the text after it decimal digits with value at most 32.
   */
  function Cidr(s: string): (r: Option<CidrParts>)
    ensures r.Some? ==> IsAddress(r.value.addr) && r.value.bits <= 32
  {
    match LastIndexOf(s, '/')
    case None => None
    case Some(j) =>
      var addr, mask := s[..j], s[j + 1..];
      if IsAddress(addr) && IsDigits(mask) && DecValue(mask) <= 32 then Some(CidrParts(addr, DecValue(mask)))
      else None
  }

  /** An address, "/", and a decimal mask is a CIDR exactly when the mask is at most 32. */
  lemma CidrOf(a: string, m: string)
    requires IsAddress(a) && IsDigits(m)
    ensures Cidr(a + "/" + m) == if DecValue(m) <= 32 then Some(CidrParts(a, DecValue(m))) else None
  {
    DigitsExclude(m, '/');
    LastIndexOfUnique(a, m, '/');
    var s := a + "/" + m;
    assert s[..|a|] == a && s[|a| + 1..] == m;
  }

  /** Whatever cidr accepts is an address, "/", and a decimal mask of value at most 32. */
  lemma CidrShape(s: string)
    requires Cidr(s).Some?
    ensures var c := Cidr(s).value;
      |c.addr| < |s| && s == c.addr + "/" + s[|c.addr| + 1..]
      && IsDigits(s[|c.addr| + 1..]) && DecValue(s[|c.addr| + 1..]) == c.bits
  {
    var j := LastIndexOf(s, '/').value;
    SplitAround(s, j);
  }

  datatype RangeParts = RangeParts(low: string, high: string)

  /**
   * range: `^(.*)-(.*)$` splits at the last "-"; both sides must be
   * addresses and the first must not be numerically above the second.
   */
  function Range(s: string): (r: Option<RangeParts>)
    ensures r.Some? ==> IsAddress(r.value.low) && IsAddress(r.value.high)
    ensures r.Some? ==> U32(r.value.low).value <= U32(r.value.high).value
  {
    match LastIndexOf(s, '-')
    case None => None
    case Some(j) =>
      var low, high := s[..j], s[j + 1..];
      if IsAddress(low) && IsAddress(high) && U32(low).value <= U32(high).value then Some(RangeParts(low, high))
      else None
  }

  /** Two addresses around "-" form a range exactly when the first is not above the second. */
  lemma RangeOf(a: string, b: string)
    requires IsAddress(a) && IsAddress(b)
    ensures Range(a + "-" + b) == if U32(a).value <= U32(b).value then Some(RangeParts(a, b)) else None
  {
    AddressChars(b, '-');
    LastIndexOfUnique(a, b, '-');
    var s := a + "-" + b;
    assert s[..|a|] == a && s[|a| + 1..] == b;
  }

  /** Whatever range accepts is two addresses around a "-". */
  lemma RangeShape(s: string)
    requires Range(s).Some?
    ensures s == Range(s).value.low + "-" + Range(s).value.high
  {
    var j := LastIndexOf(s, '-').value;
    SplitAround(s, j);
  }

  // ---------------------------------------------------------------------------
  // u32_bounds

  /**
   * The CIDR branch of u32_bounds for the address value u and the prefix
   * length: the mask `0xffffffff >> (32 - bits) << (32 - bits)`, the block
   * size `1 << (32 - bits)`, and the block from u & mask to that plus the
   * size less one.
   */
  function BlockBounds(u: nat, bits: nat): (nat, nat)
    requires bits <= 32
  {
    var zeros := 32 - bits;
    var mask := ShiftLeft(ShiftRight(MaxU32, zeros), zeros);
    var size := ShiftLeft(1, zeros);
    var lower := BitAnd(u, mask);
    (lower, lower + size - 1)
  }

  /**
   * u32_bounds: nil unless cidr or range parses. For a CIDR the address is
   * and-ed with a mask of `bits` leading one-bits, and the block has
   * 2^(32 - bits) addresses; for a range the bounds are the two addresses.
   */
  function U32Bounds(s: string): (r: Option<(nat, nat)>)
    ensures r.None? <==> Cidr(s).None? && Range(s).None?
  {
    var cidr := Cidr(s);
    var range := Range(s);
    if cidr.None? && range.None? then None
    else if cidr.Some? then
      Some(BlockBounds(U32(cidr.value.addr).value, cidr.value.bits))
    else
      Some((U32(range.value.low).value, U32(range.value.high).value))
  }

  /**
   * For a CIDR with prefix length p the bounds are the address with its low
   * 32 - p bits cleared and that plus 2^(32 - p) - 1: a block of 2^(32 - p)
   * addresses that holds the given address and stays within 32 bits. A
   * number lies in the block exactly when it shares the address's p leading
   * bits.
   */
  lemma CidrBounds(s: string)
    requires Cidr(s).Some?
    ensures var c := Cidr(s).value;
      var u := U32(c.addr).value;
      var zeros := 32 - c.bits;
      U32Bounds(s).Some?
      && U32Bounds(s).value.0 == ShiftRight(u, zeros) * Pow2(zeros)
      && U32Bounds(s).value.1 - U32Bounds(s).value.0 + 1 == Pow2(zeros)
      && U32Bounds(s).value.0 <= u <= U32Bounds(s).value.1 <= MaxU32
      && forall x: nat :: U32Bounds(s).value.0 <= x <= U32Bounds(s).value.1 <==> ShiftRight(x, zeros) == ShiftRight(u, zeros)
  {
    var c := Cidr(s).value;
    U32Value(c.addr);
    var u := U32(c.addr).value;
    var zeros := 32 - c.bits;
    Pow2ThirtyTwo();
    MaskedBlock(u, 32, zeros);
    BlockMembers(u, zeros);
  }

  lemma Pow2ThirtyTwo()
    ensures Pow2(32) == MaxU32 + 1
  {
    var p4 := Pow2(4);
    assert p4 == 16;
    Pow2Add(4, 4);
    var p8 := Pow2(8);
    assert p8 == 256;
    Pow2Add(8, 8);
    var p16 := Pow2(16);
    assert p16 == 65536;
    Pow2Add(16, 16);
  }

  /** For a range the bounds are the two addresses' values, in order. */
  lemma RangeBounds(s: string)
    requires Range(s).Some?
    ensures var r := Range(s).value;
      U32Bounds(s) == Some((U32(r.low).value, U32(r.high).value))
      && U32(r.low).value <= U32(r.high).value <= MaxU32
  {
    var r := Range(s).value;
    RangeShape(s);
    AddressChars(r.low, '/');
    AddressChars(r.high, '/');
    assert '/' !in s;
    U32Value(r.high);
  }

  /** A string that is an address is neither a CIDR nor a range. */
  lemma AddressIsNotBlock(s: string)
    requires IsAddress(s)
    ensures Cidr(s).None? && Range(s).None? && U32Bounds(s).None?
  {
    AddressChars(s, '/');
    AddressChars(s, '-');
  }

  /** No string is both a CIDR and a range. */
  lemma CidrExcludesRange(s: string)
    requires Cidr(s).Some?
    ensures Range(s).None?
  {
    var c := Cidr(s).value;
    CidrShape(s);
    AddressChars(c.addr, '-');
    var m := s[|c.addr| + 1..];
    DigitsExclude(m, '-');
    assert '-' !in s;
  }
}
