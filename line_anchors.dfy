/**
 * ip?, cidr and range exactly as lib/i_pv4.rb writes them. Their patterns
 * use `^` and `$`, which in Ruby match at the start and end of every LINE,
 * not of the whole string, and the octets and the mask are then read with
 * String#to_i, which skips leading white space and stops at the first
 * character that is not part of a numeral. For strings without a line break
 * these functions coincide with IPv4.IsAddress, IPv4.Cidr and IPv4.Range
 * (the lemmas below); with a line break they accept text the module
 * evidently means to reject, and the rest of the model uses the
 * whole-string versions in IPv4.
 */
module LineAnchors {
  import opened Text
  import opened IPv4

  // ---------------------------------------------------------------------------
  // The pieces of Ruby the code relies on

  /** `s =~ /^\d+$/`: some line of s, from a line start to a line end, is a non-empty run of digits. */
  predicate HasDigitLine(s: string)
  {
    exists i, j | 0 <= i < j <= |s| ::
      (i == 0 || s[i - 1] == '\n') && (j == |s| || s[j] == '\n') && AllDigits(s[i..j])
  }

  function SkipSpace(s: string): (r: string)
    ensures r == [] || !IsSpace(r[0])
    ensures |r| <= |s| && r == s[|s| - |r|..]
  {
    if s != [] && IsSpace(s[0]) then SkipSpace(s[1..]) else s
  }

  /**
   * The digits of the longest numeral at the start of t; a single "_"
   * between two digits is allowed and dropped.
   */
  function LeadingDigits(t: string): (r: string)
    ensures AllDigits(r) && |r| <= |t|
    decreases |t|
  {
    if t == [] || !IsDigit(t[0]) then []
    else if |t| >= 3 && t[1] == '_' && IsDigit(t[2]) then [t[0]] + LeadingDigits(t[2..])
    else [t[0]] + LeadingDigits(t[1..])
  }

  /** String#to_i in base 10: 0 when no numeral follows the white space and the sign. */
  function RubyToI(s: string): int
  {
    var t := SkipSpace(s);
    if t != [] && t[0] == '-' then -(DecValue(LeadingDigits(t[1..])) as int)
    else if t != [] && t[0] == '+' then DecValue(LeadingDigits(t[1..]))
    else DecValue(LeadingDigits(t))
  }

  lemma {:induction false} LeadingDigitsOfDigits(s: string)
    requires AllDigits(s)
    ensures LeadingDigits(s) == s
    decreases |s|
  {
    if s != [] {
      LeadingDigitsOfDigits(s[1..]);
      assert s == [s[0]] + s[1..];
    }
  }

  /** On a decimal numeral String#to_i is its value. */
  lemma RubyToIDigits(s: string)
    requires IsDigits(s)
    ensures RubyToI(s) == DecValue(s)
  {
    LeadingDigitsOfDigits(s);
  }

  /** A digit line of a string without line breaks is the whole string. */
  lemma DigitLineSingle(s: string)
    requires '\n' !in s
    ensures HasDigitLine(s) <==> IsDigits(s)
  {
    if IsDigits(s) {
      assert s[0..|s|] == s;
    }
    if HasDigitLine(s) {
      assert forall k | 0 <= k < |s| :: s[k] != '\n';
      var i, j :| 0 <= i < j <= |s| &&
        (i == 0 || s[i - 1] == '\n') && (j == |s| || s[j] == '\n') && AllDigits(s[i..j]);
      assert s[i..j] == s;
    }
  }

  // ---------------------------------------------------------------------------
  // ip?

  /** ip? as written: four fields, each with a digit line and a to_i between 0 and 255. */
  predicate IsAddressAsWritten(s: string)
  {
    var fields := RubySplit(s, '.');
    |fields| == 4 && forall i | 0 <= i < 4 :: HasDigitLine(fields[i]) && 0 <= RubyToI(fields[i]) <= 255
  }

  lemma OctetAsWritten(field: string)
    requires '\n' !in field
    ensures HasDigitLine(field) && 0 <= RubyToI(field) <= 255 <==> IsOctet(field)
  {
    DigitLineSingle(field);
    if IsDigits(field) {
      RubyToIDigits(field);
    }
  }

  /** Every address the whole-string reading accepts is accepted as written. */
  lemma AddressAsWrittenWeaker(s: string)
    requires IsAddress(s)
    ensures IsAddressAsWritten(s)
  {
    var f := RubySplit(s, '.');
    forall i | 0 <= i < 4 ensures HasDigitLine(f[i]) && 0 <= RubyToI(f[i]) <= 255 {
      assert IsOctet(f[i]);
      DigitsExclude(f[i], '\n');
      OctetAsWritten(f[i]);
    }
  }

  /** Without a line break the two readings of ip? agree. */
  lemma AddressAsWrittenAgrees(s: string)
    requires '\n' !in s
    ensures IsAddressAsWritten(s) <==> IsAddress(s)
  {
    var f := RubySplit(s, '.');
    if |f| == 4 {
      forall i | 0 <= i < 4
        ensures HasDigitLine(f[i]) && 0 <= RubyToI(f[i]) <= 255 <==> IsOctet(f[i])
      {
        RubySplitFieldChars(s, '.', '\n', i);
        OctetAsWritten(f[i]);
      }
    }
  }

  /** A character absent from s is absent from every field String#split makes of it. */
  lemma RubySplitFieldChars(s: string, sep: char, c: char, i: nat)
    requires c !in s && c != sep && i < |RubySplit(s, sep)|
    ensures c !in RubySplit(s, sep)[i]
  {
    RubySplitShape(s, sep);
    var f := RubySplit(s, sep);
    JoinFieldChars(f, sep, c, i);
    assert Join(f, sep) == s[..|Join(f, sep)|];
  }

  /** A decimal numeral has a digit line, and String#to_i reads its value. */
  lemma DigitsAsWritten(s: string)
    requires IsDigits(s)
    ensures HasDigitLine(s) && RubyToI(s) == DecValue(s)
  {
    assert s[0..|s|] == s;
    RubyToIDigits(s);
  }

  /** A numeral followed by a line break: String#to_i stops at the line break. */
  lemma {:induction false} LeadingDigitsStop(d: string, rest: string)
    requires AllDigits(d) && rest != [] && rest[0] == '\n'
    ensures LeadingDigits(d + rest) == d
    decreases |d|
  {
    if d != [] {
      var t := d + rest;
      assert t[1..] == d[1..] + rest;
      assert t[1] != '_';
      LeadingDigitsStop(d[1..], rest);
      assert d == [d[0]] + d[1..];
    } else {
      assert d + rest == rest;
    }
  }

  /** An octet followed by a further line is accepted as that octet. */
  lemma OctetThenLine(d: string, t: string)
    requires IsOctet(d)
    ensures HasDigitLine(d + "\n" + t) && RubyToI(d + "\n" + t) == DecValue(d) && !IsOctet(d + "\n" + t)
  {
    var s := d + "\n" + t;
    assert s[0..|d|] == d && s[|d|] == '\n';
    assert s == d + ("\n" + t);
    LeadingDigitsStop(d, "\n" + t);
    assert !IsDigit(s[|d|]);
  }

  /** The fields of four octets joined with ".", a line break and further text without dots. */
  lemma SplitThenLine(f: seq<string>, t: string)
    requires |f| == 4 && (forall i | 0 <= i < 4 :: IsOctet(f[i])) && '.' !in t
    ensures RubySplit(Join(f, '.') + "\n" + t, '.') == [f[0], f[1], f[2], f[3] + "\n" + t]
  {
    var x := "\n" + t;
    AppendAssoc(f[3], "\n", t);
    AppendAssoc(Join(f, '.'), "\n", t);
    var g := [f[0], f[1], f[2], f[3] + x];
    OctetsWithoutDot(f, t);
    JoinLastGrown(f, x, '.');
    RubySplitOfJoin(g, Join(f, '.') + x, '.');
  }

  /** A string that is the join of fields without the separator, the last non-empty, splits into them. */
  lemma RubySplitOfJoin(g: seq<string>, s: string, sep: char)
    requires |g| >= 1 && g[|g| - 1] != [] && s == Join(g, sep)
    requires forall i | 0 <= i < |g| :: sep !in g[i]
    ensures RubySplit(s, sep) == g
  {
    assert Join(g, sep) + Repeat(sep, 0) == s;
    RubySplitJoin(g, 0, sep);
  }

  lemma AppendAssoc(a: string, b: string, c: string)
    ensures a + b + c == a + (b + c)
  {
  }

  lemma OctetsWithoutDot(f: seq<string>, t: string)
    requires |f| == 4 && (forall i | 0 <= i < 4 :: IsOctet(f[i])) && '.' !in t
    ensures forall i | 0 <= i < 4 :: '.' !in [f[0], f[1], f[2], f[3] + "\n" + t][i]
  {
    var g := [f[0], f[1], f[2], f[3] + "\n" + t];
    forall i | 0 <= i < 4 ensures '.' !in g[i] {
      assert IsOctet(f[i]);
      DigitsExclude(f[i], '.');
      if i == 3 {
        NoCharAppend(f[3], "\n" + t, '.');
      }
    }
  }

  lemma NoCharAppend(a: string, b: string, c: char)
    requires c !in a && c !in b
    ensures c !in a + b
  {
    assert forall k | 0 <= k < |a + b| :: (a + b)[k] == if k < |a| then a[k] else b[k - |a|];
  }

  /** Growing the last of four fields grows their join by the same text. */
  lemma JoinLastGrown(f: seq<string>, x: string, sep: char)
    requires |f| == 4
    ensures Join([f[0], f[1], f[2], f[3] + x], sep) == Join(f, sep) + x
  {
    JoinFour(f, sep);
    JoinFour([f[0], f[1], f[2], f[3] + x], sep);
  }

  /**
   * An address followed by a line break and any text without dots (for
   * instance "1.2.3.4\nx") is accepted as written, with the last octet read
   * up to the line break; the whole string is not an address.
   */
  lemma TrailingLineAccepted(f: seq<string>, t: string)
    requires |f| == 4 && (forall i | 0 <= i < 4 :: IsOctet(f[i])) && '.' !in t
    ensures IsAddressAsWritten(Join(f, '.') + "\n" + t)
    ensures !IsAddress(Join(f, '.') + "\n" + t)
  {
    SplitThenLine(f, t);
    var g := RubySplit(Join(f, '.') + "\n" + t, '.');
    forall i | 0 <= i < 4 ensures HasDigitLine(g[i]) && 0 <= RubyToI(g[i]) <= 255 {
      assert IsOctet(f[i]);
      if i < 3 {
        assert g[i] == f[i];
        DigitsAsWritten(f[i]);
      } else {
        OctetThenLine(f[3], t);
      }
    }
    OctetThenLine(f[3], t);
    assert !IsOctet(g[3]);
  }

  // ---------------------------------------------------------------------------
  // u32

  /** `octet.to_i.to_s(16).rjust(2, "0")` with to_i read as String#to_i reads it. */
  function HexOfToI(field: string): (h: string)
    requires 0 <= RubyToI(field)
    ensures AllHex(h) && HexValue(h) == RubyToI(field)
  {
    HexValueOfHexString(RubyToI(field));
    HexValueRJust(HexString(RubyToI(field)), 2);
    RJust(HexString(RubyToI(field)), 2, '0')
  }

  /** u32 as written: nil unless ip? as written, then the to_i of each field in hexadecimal, joined and read back. */
  function U32AsWritten(s: string): (r: Option<nat>)
    ensures r.Some? <==> IsAddressAsWritten(s)
  {
    if !IsAddressAsWritten(s) then None
    else
      var f := RubySplit(s, '.');
      assert 0 <= RubyToI(f[0]) && 0 <= RubyToI(f[1]) && 0 <= RubyToI(f[2]) && 0 <= RubyToI(f[3]);
      var p0, p1, p2, p3 := HexOfToI(f[0]), HexOfToI(f[1]), HexOfToI(f[2]), HexOfToI(f[3]);
      HexValueAppend(p0, p1);
      HexValueAppend(p0 + p1, p2);
      HexValueAppend(p0 + p1 + p2, p3);
      Some(HexValue(p0 + p1 + p2 + p3))
  }

  /** On an octet, reading it with String#to_i gives the digits IPv4.HexOctet writes. */
  lemma HexOfToIOctet(field: string)
    requires IsOctet(field)
    ensures 0 <= RubyToI(field) && HexOfToI(field) == HexOctet(field)
  {
    RubyToIDigits(field);
  }

  /** Without a line break u32 as written is IPv4.U32. */
  lemma U32AsWrittenAgrees(s: string)
    requires '\n' !in s
    ensures U32AsWritten(s) == U32(s)
  {
    AddressAsWrittenAgrees(s);
    if IsAddress(s) {
      var f := RubySplit(s, '.');
      assert IsOctet(f[0]) && IsOctet(f[1]) && IsOctet(f[2]) && IsOctet(f[3]);
      HexOfToIOctet(f[0]);
      HexOfToIOctet(f[1]);
      HexOfToIOctet(f[2]);
      HexOfToIOctet(f[3]);
    }
  }

  /**
   * u32 of an address followed by a line break and text without dots (for
   * instance "1.2.3.4\nx") is u32 of the address alone; the whole-string
   * reading gives nil.
   */
  lemma TrailingLineU32(f: seq<string>, t: string)
    requires |f| == 4 && (forall i | 0 <= i < 4 :: IsOctet(f[i])) && '.' !in t
    ensures IsAddress(Join(f, '.'))
    ensures U32AsWritten(Join(f, '.') + "\n" + t) == U32(Join(f, '.'))
    ensures U32(Join(f, '.') + "\n" + t) == None
  {
    var s := Join(f, '.') + "\n" + t;
    var g := RubySplit(s, '.');
    TrailingLineAccepted(f, t);
    SplitThenLine(f, t);
    assert IsOctet(f[0]) && IsOctet(f[1]) && IsOctet(f[2]) && IsOctet(f[3]);
    forall i | 0 <= i < 4 ensures '.' !in f[i] {
      DigitsExclude(f[i], '.');
    }
    RubySplitOfJoin(f, Join(f, '.'), '.');
    HexOfToIOctet(f[0]);
    HexOfToIOctet(f[1]);
    HexOfToIOctet(f[2]);
    OctetThenLine(f[3], t);
    assert HexOfToI(g[3]) == HexOctet(f[3]);
  }

  // ---------------------------------------------------------------------------
  // cidr and range

  /** The first line holding c: where a leftmost `^(.*)c(.*)$` match lies. */
  function FirstLineWith(lines: seq<string>, c: char): (r: Option<string>)
    ensures r.Some? ==> r.value in lines && c in r.value
    ensures r.None? <==> forall k | 0 <= k < |lines| :: c !in lines[k]
  {
    if lines == [] then None
    else if c in lines[0] then Some(lines[0])
    else FirstLineWith(lines[1..], c)
  }

  /** The text before and after the last c of the first line of s holding c: the two groups of `^(.*)c(.*)$`. */
  function Groups(s: string, c: char): (r: Option<(string, string)>)
    ensures r.Some? ==> '\n' !in r.value.0 && '\n' !in r.value.1
  {
    match FirstLineWith(SplitAll(s, '\n'), c)
    case None => None
    case Some(line) =>
      var j := LastIndexOf(line, c).value;
      NotInSlice(line, '\n', 0, j);
      NotInSlice(line, '\n', j + 1, |line|);
      Some((line[..j], line[j + 1..]))
  }

  /** cidr as written. */
  function CidrAsWritten(s: string): (r: Option<CidrParts>)
    ensures r.Some? ==> IsAddress(r.value.addr) && r.value.bits <= 32 && '\n' !in r.value.addr
  {
    match Groups(s, '/')
    case None => None
    case Some((addr, mask)) =>
      AddressAsWrittenAgrees(addr);
      if IsAddressAsWritten(addr) && HasDigitLine(mask) && 0 <= RubyToI(mask) <= 32 then
        Some(CidrParts(addr, RubyToI(mask)))
      else None
  }

  /**
   * range as written. u32 of either group runs ip? again on a string without
   * line breaks, where the two readings agree, so IPv4.U32 gives its value.
   */
  function RangeAsWritten(s: string): (r: Option<RangeParts>)
    ensures r.Some? ==> IsAddress(r.value.low) && IsAddress(r.value.high)
    ensures r.Some? ==> '\n' !in r.value.low && '\n' !in r.value.high
  {
    match Groups(s, '-')
    case None => None
    case Some((low, high)) =>
      AddressAsWrittenAgrees(low);
      AddressAsWrittenAgrees(high);
      if IsAddressAsWritten(low) && IsAddressAsWritten(high) && U32(low).value <= U32(high).value then
        Some(RangeParts(low, high))
      else None
  }

  /** Without a line break the groups are the text around the last c. */
  lemma GroupsSingleLine(s: string, c: char)
    requires '\n' !in s && c != '\n'
    ensures Groups(s, c) == match LastIndexOf(s, c)
      case None => None
      case Some(j) => Some((s[..j], s[j + 1..]))
  {
    SplitAllNoSep(s, '\n');
  }

  /** A mask without line breaks passes the as-written checks exactly when it is a numeral of at most 32. */
  lemma MaskAsWritten(mask: string)
    requires '\n' !in mask
    ensures HasDigitLine(mask) && 0 <= RubyToI(mask) <= 32 <==> IsDigits(mask) && DecValue(mask) <= 32
    ensures IsDigits(mask) ==> RubyToI(mask) == DecValue(mask)
  {
    DigitLineSingle(mask);
    if IsDigits(mask) {
      RubyToIDigits(mask);
    }
  }

  /** Without a line break cidr as written is IPv4.Cidr. */
  lemma CidrAsWrittenAgrees(s: string)
    requires '\n' !in s
    ensures CidrAsWritten(s) == Cidr(s)
  {
    GroupsSingleLine(s, '/');
    if LastIndexOf(s, '/').Some? {
      var j := LastIndexOf(s, '/').value;
      var addr, mask := s[..j], s[j + 1..];
      assert Groups(s, '/') == Some((addr, mask));
      NotInSlice(s, '\n', 0, j);
      NotInSlice(s, '\n', j + 1, |s|);
      CidrGroupsAgree(addr, mask);
      if IsAddress(addr) && IsDigits(mask) && DecValue(mask) <= 32 {
        assert Cidr(s) == Some(CidrParts(addr, DecValue(mask)));
        assert CidrAsWritten(s) == Some(CidrParts(addr, RubyToI(mask)));
      } else {
        assert Cidr(s) == None;
        assert CidrAsWritten(s) == None;
      }
    } else {
      assert Cidr(s) == None && CidrAsWritten(s) == None;
    }
  }

  /** On one line the as-written tests of the two cidr groups are the whole-string tests. */
  lemma CidrGroupsAgree(addr: string, mask: string)
    requires '\n' !in addr && '\n' !in mask
    ensures (IsAddressAsWritten(addr) && HasDigitLine(mask) && 0 <= RubyToI(mask) <= 32)
      == (IsAddress(addr) && IsDigits(mask) && DecValue(mask) <= 32)
    ensures IsDigits(mask) ==> RubyToI(mask) == DecValue(mask)
  {
    AddressAsWrittenAgrees(addr);
    MaskAsWritten(mask);
  }

  /** Without a line break range as written is IPv4.Range. */
  lemma RangeAsWrittenAgrees(s: string)
    requires '\n' !in s
    ensures RangeAsWritten(s) == Range(s)
  {
    GroupsSingleLine(s, '-');
    if LastIndexOf(s, '-').Some? {
      var j := LastIndexOf(s, '-').value;
      var low, high := s[..j], s[j + 1..];
      assert Groups(s, '-') == Some((low, high));
      NotInSlice(s, '\n', 0, j);
      NotInSlice(s, '\n', j + 1, |s|);
      AddressAsWrittenAgrees(low);
      AddressAsWrittenAgrees(high);
    }
  }

  /** The lines of text without line breaks, a line break, and a last line. */
  lemma LinesThen(t: string, line: string)
    requires '\n' !in t && '\n' !in line
    ensures SplitAll(t + "\n" + line, '\n') == [t, line]
  {
    assert t + "\n" + line == t + ['\n'] + line;
    SplitAllPrefix(t, line, '\n');
    SplitAllNoSep(line, '\n');
  }

  /** A line made of a, c and b, where b holds neither c nor a line break, splits at that c. */
  lemma OneLine(a: string, b: string, c: char)
    requires '\n' !in a && '\n' !in b && c != '\n' && c !in b
    ensures var line := a + [c] + b;
      '\n' !in line && c in line && LastIndexOf(line, c) == Some(|a|)
      && line[..|a|] == a && line[|a| + 1..] == b
  {
    var line := a + [c] + b;
    assert line[|a|] == c;
    assert forall k | 0 <= k < |line| :: line[k] != '\n' by {
      forall k | 0 <= k < |line| ensures line[k] != '\n' {
        if k < |a| {
          assert line[k] == a[k];
        } else if k > |a| {
          assert line[k] == b[k - |a| - 1];
        }
      }
    }
    LastIndexOfUnique(a, b, c);
  }

  /** After a line without c, the groups are those of the next line. */
  lemma GroupsOfSecondLine(t: string, line: string, c: char)
    requires '\n' !in t && c !in t && '\n' !in line && c in line
    ensures LastIndexOf(line, c).Some?
    ensures var j := LastIndexOf(line, c).value;
      Groups(t + "\n" + line, c) == Some((line[..j], line[j + 1..]))
  {
    LinesThen(t, line);
    assert FirstLineWith([t, line], c) == Some(line);
  }

  /** Text holding a line break before the last c is not split by the whole-string reading into an address. */
  lemma NotAfterLine(t: string, a: string, b: string, c: char)
    requires c !in b && c != '\n'
    ensures var s := t + "\n" + (a + [c] + b);
      LastIndexOf(s, c) == Some(|t| + 1 + |a|) && !IsAddress(s[..|t| + 1 + |a|])
  {
    var pre := t + "\n" + a;
    var s := t + "\n" + (a + [c] + b);
    assert s == pre + [c] + b;
    LastIndexOfUnique(pre, b, c);
    assert s[..|pre|] == pre;
    assert pre[|t|] == '\n';
    if IsAddress(pre) {
      AddressChars(pre, '\n');
    }
  }

  lemma NotCidrAfterLine(t: string, a: string, m: string)
    requires '/' !in m
    ensures Cidr(t + "\n" + (a + "/" + m)).None?
  {
    var s := t + "\n" + (a + ['/'] + m);
    NotAfterLine(t, a, m, '/');
    CidrNeedsAddress(s);
  }

  lemma CidrNeedsAddress(s: string)
    requires LastIndexOf(s, '/').Some? && !IsAddress(s[..LastIndexOf(s, '/').value])
    ensures Cidr(s).None?
  {
  }

  lemma NotRangeAfterLine(t: string, a: string, b: string)
    requires '-' !in b
    ensures Range(t + "\n" + (a + "-" + b)).None?
  {
    var s := t + "\n" + (a + ['-'] + b);
    NotAfterLine(t, a, b, '-');
    RangeNeedsAddress(s);
  }

  lemma RangeNeedsAddress(s: string)
    requires LastIndexOf(s, '-').Some? && !IsAddress(s[..LastIndexOf(s, '-').value])
    ensures Range(s).None?
  {
  }

  /**
   * A line without "/" (for instance "x"), a line break, and a CIDR is a
   * CIDR as written, the second line's; the whole string is not a CIDR.
   */
  lemma LeadingLineCidr(t: string, a: string, m: string)
    requires '\n' !in t && '/' !in t
    requires IsAddress(a) && IsDigits(m) && DecValue(m) <= 32
    ensures CidrAsWritten(t + "\n" + (a + "/" + m)) == Some(CidrParts(a, DecValue(m)))
    ensures Cidr(t + "\n" + (a + "/" + m)).None?
  {
    AddressChars(a, '\n');
    DigitsExclude(m, '\n');
    DigitsExclude(m, '/');
    OneLine(a, m, '/');
    GroupsOfSecondLine(t, a + "/" + m, '/');
    AddressAsWrittenAgrees(a);
    MaskAsWritten(m);
    NotCidrAfterLine(t, a, m);
  }

  /**
   * A line without "-", a line break, and a range is a range as written, the
   * second line's; the whole string is not a range.
   */
  lemma LeadingLineRange(t: string, a: string, b: string)
    requires '\n' !in t && '-' !in t
    requires IsAddress(a) && IsAddress(b) && U32(a).value <= U32(b).value
    ensures RangeAsWritten(t + "\n" + (a + "-" + b)) == Some(RangeParts(a, b))
    ensures Range(t + "\n" + (a + "-" + b)).None?
  {
    AddressChars(a, '\n');
    AddressChars(b, '\n');
    AddressChars(b, '-');
    OneLine(a, b, '-');
    GroupsOfSecondLine(t, a + "-" + b, '-');
    AddressAsWrittenAgrees(a);
    AddressAsWrittenAgrees(b);
    NotRangeAfterLine(t, a, b);
  }

  // ---------------------------------------------------------------------------
  // u32_bounds

  /**
   * u32_bounds as written: cidr and range as written, with the CIDR taking
   * precedence, and u32 as written of the addresses they return.
   */
  function U32BoundsAsWritten(s: string): (r: Option<(nat, nat)>)
    ensures r.None? <==> CidrAsWritten(s).None? && RangeAsWritten(s).None?
  {
    var cidr := CidrAsWritten(s);
    var range := RangeAsWritten(s);
    if cidr.None? && range.None? then None
    else if cidr.Some? then
      AddressAsWrittenWeaker(cidr.value.addr);
      Some(BlockBounds(U32AsWritten(cidr.value.addr).value, cidr.value.bits))
    else
      AddressAsWrittenWeaker(range.value.low);
      AddressAsWrittenWeaker(range.value.high);
      Some((U32AsWritten(range.value.low).value, U32AsWritten(range.value.high).value))
  }

  /** Without a line break u32_bounds as written is IPv4.U32Bounds. */
  lemma U32BoundsAsWrittenAgrees(s: string)
    requires '\n' !in s
    ensures U32BoundsAsWritten(s) == U32Bounds(s)
  {
    CidrAsWrittenAgrees(s);
    RangeAsWrittenAgrees(s);
    var cidr := CidrAsWritten(s);
    var range := RangeAsWritten(s);
    if cidr.Some? {
      U32AsWrittenAgrees(cidr.value.addr);
    } else if range.Some? {
      U32AsWrittenAgrees(range.value.low);
      U32AsWrittenAgrees(range.value.high);
    }
  }

  /**
   * A line without "/" or "-" (for instance "x"), a line break, and a CIDR
   * has, as written, the bounds of that CIDR, so where_ip_like searches its
   * block; the whole-string reading gives nil.
   */
  lemma LeadingLineBounds(t: string, a: string, m: string)
    requires '\n' !in t && '/' !in t && '-' !in t
    requires IsAddress(a) && IsDigits(m) && DecValue(m) <= 32
    ensures U32Bounds(a + "/" + m).Some?
    ensures U32BoundsAsWritten(t + "\n" + (a + "/" + m)) == U32Bounds(a + "/" + m)
    ensures U32Bounds(t + "\n" + (a + "/" + m)).None?
  {
    var s := t + "\n" + (a + "/" + m);
    LeadingLineCidr(t, a, m);
    CidrOf(a, m);
    AddressChars(a, '\n');
    U32AsWrittenAgrees(a);
    AddressChars(a, '-');
    DigitsExclude(m, '-');
    NoCharAppend(a, "/", '-');
    NoCharAppend(a + "/", m, '-');
    NoCharAppend(t, "\n", '-');
    NoCharAppend(t + "\n", a + "/" + m, '-');
    RangeNeedsDash(s);
  }

  lemma RangeNeedsDash(s: string)
    requires '-' !in s
    ensures Range(s).None?
  {
  }
}
