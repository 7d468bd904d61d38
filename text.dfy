/**
 * Character and string operations of Ruby's core library that the search
 * layer relies on: digit tests, String#to_i on digit strings, Integer#to_s
 * in bases 10 and 16, String#rjust, String#split with a one-character
 * separator, Array#join, and ASCII case folding.
 */
module Text {

  datatype Option<+T> = None | Some(value: T)

  // ---------------------------------------------------------------------------
  // Decimal digits

  predicate IsDigit(c: char) { '0' <= c <= '9' }

  predicate AllDigits(s: string) { forall i | 0 <= i < |s| :: IsDigit(s[i]) }

  /** A non-empty run of ASCII decimal digits, the strings `\A\d+\z` accepts. */
  predicate IsDigits(s: string) { |s| > 0 && AllDigits(s) }

  /** A decimal numeral as Integer#to_s writes it: no leading zero unless it is "0". */
  predicate IsCanonicalDecimal(s: string) { IsDigits(s) && (s[0] == '0' ==> |s| == 1) }

  function DigitChar(d: nat): (c: char)
    requires d < 10
    ensures IsDigit(c)
  {
    ('0' as int + d) as char
  }

  /** String#to_i on a string of decimal digits. */
  function DecValue(s: string): nat
    requires AllDigits(s)
  {
    if s == [] then 0 else DecValue(s[..|s| - 1]) * 10 + (s[|s| - 1] as int - '0' as int)
  }

  /** Integer#to_s for a non-negative integer. */
  function DecString(n: nat): (s: string)
    ensures IsCanonicalDecimal(s)
  {
    if n < 10 then [DigitChar(n)] else DecString(n / 10) + [DigitChar(n % 10)]
  }

  lemma {:induction false} DecValueOfDecString(n: nat)
    ensures DecValue(DecString(n)) == n
  {
    if n >= 10 {
      var s := DecString(n);
      assert s[..|s| - 1] == DecString(n / 10);
      DecValueOfDecString(n / 10);
    }
  }

  lemma {:induction false} DecValueLeadingNonZero(s: string)
    requires IsDigits(s) && s[0] != '0'
    ensures DecValue(s) >= 1
  {
    if |s| > 1 {
      DecValueLeadingNonZero(s[..|s| - 1]);
    }
  }

  /** Reading a canonical numeral and writing the number back gives the numeral. */
  lemma {:induction false} DecStringOfDecValue(s: string)
    requires IsCanonicalDecimal(s)
    ensures DecString(DecValue(s)) == s
  {
    if |s| > 1 {
      var p := s[..|s| - 1];
      DecValueLeadingNonZero(p);
      DecStringOfDecValue(p);
      assert s == p + [s[|s| - 1]];
    }
  }

  /** A string of digits holds no character that is not a digit. */
  lemma DigitsExclude(s: string, c: char)
    requires AllDigits(s) && !IsDigit(c)
    ensures c !in s
  {
    assert forall i | 0 <= i < |s| :: s[i] != c;
  }

  // ---------------------------------------------------------------------------
  // Hexadecimal digits

  /** ASCII white space: what String#to_i skips before a numeral and what blank? ignores. */
  predicate IsSpace(c: char)
  {
    c == ' ' || '\t' <= c <= '\r'
  }

  predicate IsLowerHexDigit(c: char) { IsDigit(c) || 'a' <= c <= 'f' }

  predicate AllLowerHex(s: string) { forall i | 0 <= i < |s| :: IsLowerHexDigit(s[i]) }

    predicate IsHexDigit(c: char) { IsDigit(c) || 'a' <= c <= 'f' || 'A' <= c <= 'F' }

  predicate AllHex(s: string) { forall i | 0 <= i < |s| :: IsHexDigit(s[i]) }

  function HexDigitValue(c: char): (d: nat)
    requires IsHexDigit(c)
    ensures d < 16
  {
    if IsDigit(c) then c as int - '0' as int
    else if 'a' <= c <= 'f' then c as int - 'a' as int + 10
    else c as int - 'A' as int + 10
  }

  /** The lower-case digit Integer#to_s(16) writes for d. */
  function HexChar(d: nat): (c: char)
    requires d < 16
    ensures IsHexDigit(c) && IsLowerHexDigit(c) && HexDigitValue(c) == d
  {
    if d < 10 then ('0' as int + d) as char else ('a' as int + d - 10) as char
  }

  /** String#to_i(16) on a string of hexadecimal digits. */
  function HexValue(s: string): nat
    requires AllHex(s)
  {
    if s == [] then 0 else HexValue(s[..|s| - 1]) * 16 + HexDigitValue(s[|s| - 1])
  }

  /** Integer#to_s(16) for a non-negative integer. */
  function HexString(n: nat): (s: string)
    ensures |s| > 0 && AllHex(s) && AllLowerHex(s)
  {
    if n < 16 then [HexChar(n)] else HexString(n / 16) + [HexChar(n % 16)]
  }

  function Pow16(k: nat): (r: nat)
    ensures r >= 1
  {
    if k == 0 then 1 else 16 * Pow16(k - 1)
  }

  lemma {:induction false} HexValueOfHexString(n: nat)
    ensures HexValue(HexString(n)) == n
  {
    if n >= 16 {
      var s := HexString(n);
      assert s[..|s| - 1] == HexString(n / 16);
      HexValueOfHexString(n / 16);
    }
  }

  /** Integer#to_s(16) writes at most k digits for a number below 16^k. */
  lemma {:induction false} HexStringLength(n: nat, k: nat)
    requires 1 <= k && n < Pow16(k)
    ensures |HexString(n)| <= k
  {
    if n >= 16 {
      assert k >= 2;
      HexStringLength(n / 16, k - 1);
    }
  }

  /** The value of a concatenation of hexadecimal numerals, positionally. */
  lemma {:induction false} HexValueAppend(a: string, b: string)
    requires AllHex(a) && AllHex(b)
    ensures AllHex(a + b)
    ensures HexValue(a + b) == HexValue(a) * Pow16(|b|) + HexValue(b)
  {
    AllHexAppend(a, b);
    if b != [] {
      var ab := a + b;
      var b' := b[..|b| - 1];
      assert ab[..|ab| - 1] == a + b';
      assert ab[|ab| - 1] == b[|b| - 1];
      assert AllHex(b') by {
        assert forall i | 0 <= i < |b'| :: b'[i] == b[i];
      }
      HexValueAppend(a, b');
      HexStep(HexValue(a), Pow16(|b'|), HexValue(b'), HexDigitValue(b[|b| - 1]));
    } else {
      assert a + b == a;
    }
  }

  lemma AllHexAppend(a: string, b: string)
    requires AllHex(a) && AllHex(b)
    ensures AllHex(a + b)
  {
    forall i | 0 <= i < |a + b| ensures IsHexDigit((a + b)[i]) {
      if i >= |a| {
        assert (a + b)[i] == b[i - |a|];
      }
    }
  }

  /** One more digit: the value of a + b grows by a factor 16 on both sides. */
  lemma HexStep(x: int, p: int, y: int, d: int)
    ensures (x * p + y) * 16 + d == x * (16 * p) + (y * 16 + d)
  {
    MulSixteen(x, p);
  }

  lemma MulSixteen(x: int, p: int)
    ensures (x * p) * 16 == x * (16 * p)
  {
  }

  lemma {:induction false} HexValueZeros(z: string)
    requires forall i | 0 <= i < |z| :: z[i] == '0'
    ensures AllHex(z) && HexValue(z) == 0
  {
    if z != [] {
      HexValueZeros(z[..|z| - 1]);
    }
  }

  // ---------------------------------------------------------------------------
  // Padding, splitting, joining

  /** String#rjust(width, pad): pad on the left up to width characters. */
  function RJust(s: string, width: nat, pad: char): (r: string)
    ensures |r| == if |s| >= width then |s| else width
    ensures r[|r| - |s|..] == s
    ensures forall i | 0 <= i < |r| - |s| :: r[i] == pad
  {
    if |s| >= width then s else seq(width - |s|, _ => pad) + s
  }

  /** Left-padding with zeros does not change the value of a hexadecimal numeral. */
  lemma HexValueRJust(s: string, width: nat)
    requires AllHex(s)
    ensures AllHex(RJust(s, width, '0'))
    ensures HexValue(RJust(s, width, '0')) == HexValue(s)
  {
    var r := RJust(s, width, '0');
    var z := r[..|r| - |s|];
    assert r == z + s;
    HexValueZeros(z);
    HexValueAppend(z, s);
  }

  function Count(s: string, c: char): nat
  {
    if s == [] then 0 else (if s[0] == c then 1 else 0) + Count(s[1..], c)
  }

  /** All fields of s between occurrences of sep, empty fields included. */
  function SplitAll(s: string, sep: char): (fields: seq<string>)
    ensures |fields| == Count(s, sep) + 1
    ensures forall i | 0 <= i < |fields| :: sep !in fields[i]
  {
    if s == [] then [[]]
    else if s[0] == sep then [[]] + SplitAll(s[1..], sep)
    else
      var rest := SplitAll(s[1..], sep);
      [[s[0]] + rest[0]] + rest[1..]
  }

  /** Array#join(sep) for a non-empty list of strings. */
  function Join(fields: seq<string>, sep: char): string
    requires |fields| >= 1
  {
    if |fields| == 1 then fields[0] else fields[0] + [sep] + Join(fields[1..], sep)
  }

  /** A field of a join is a piece of the joined string. */
  lemma {:induction false} JoinFieldChars(f: seq<string>, sep: char, c: char, i: nat)
    requires i < |f| && c !in Join(f, sep)
    ensures c !in f[i]
  {
    if |f| > 1 {
      assert Join(f, sep) == f[0] + [sep] + Join(f[1..], sep);
      if i > 0 {
        JoinFieldChars(f[1..], sep, c, i - 1);
      }
    }
  }

  /** Array#pop while the last element is "": what String#split does to trailing empty fields. */
  function DropTrailingEmpty(fields: seq<string>): (r: seq<string>)
    ensures |r| <= |fields| && r == fields[..|r|]
    ensures r == [] || r[|r| - 1] != []
    ensures forall i | |r| <= i < |fields| :: fields[i] == []
  {
    if fields != [] && fields[|fields| - 1] == [] then DropTrailingEmpty(fields[..|fields| - 1]) else fields
  }

  /** String#split(sep) for a one-character separator other than a space. */
  function RubySplit(s: string, sep: char): seq<string>
  {
    DropTrailingEmpty(SplitAll(s, sep))
  }

  function Empties(k: nat): (r: seq<string>)
    ensures |r| == k && forall i | 0 <= i < k :: r[i] == []
  {
    seq(k, _ => [])
  }

  function Repeat(c: char, k: nat): (r: string)
    ensures |r| == k && forall i | 0 <= i < k :: r[i] == c
  {
    seq(k, _ => c)
  }

  /** Splitting undoes joining when no field contains the separator. */
  lemma {:induction false} SplitAllJoin(fields: seq<string>, sep: char)
    requires |fields| >= 1
    requires forall i | 0 <= i < |fields| :: sep !in fields[i]
    ensures SplitAll(Join(fields, sep), sep) == fields
  {
    if |fields| == 1 {
      SplitAllNoSep(fields[0], sep);
    } else {
      SplitAllJoin(fields[1..], sep);
      SplitAllPrefix(fields[0], Join(fields[1..], sep), sep);
    }
  }

  lemma {:induction false} SplitAllNoSep(s: string, sep: char)
    requires sep !in s
    ensures SplitAll(s, sep) == [s]
  {
    if s != [] {
      assert s[0] != sep;
      SplitAllNoSep(s[1..], sep);
      assert [s[0]] + s[1..] == s;
    }
  }

  /** A separator-free prefix followed by a separator becomes the first field. */
  lemma {:induction false} SplitAllPrefix(a: string, b: string, sep: char)
    requires sep !in a
    ensures SplitAll(a + [sep] + b, sep) == [a] + SplitAll(b, sep)
  {
    if a != [] {
      var s := a + [sep] + b;
      assert s[0] == a[0] && s[1..] == a[1..] + [sep] + b;
      SplitAllPrefix(a[1..], b, sep);
      assert [a[0]] + a[1..] == a;
    } else {
      assert a + [sep] + b == [sep] + b;
    }
  }

  /** Joining the fields of a split gives back the string. */
  lemma {:induction false} JoinSplitAll(s: string, sep: char)
    ensures Join(SplitAll(s, sep), sep) == s
  {
    if s != [] {
      JoinSplitAll(s[1..], sep);
      var rest := SplitAll(s[1..], sep);
      var fields := SplitAll(s, sep);
      assert s == [s[0]] + s[1..];
      if s[0] != sep {
        assert fields[0] == [s[0]] + rest[0] && fields[1..] == rest[1..];
        if |rest| > 1 {
          assert Join(rest, sep) == rest[0] + [sep] + Join(rest[1..], sep);
          assert Join(fields, sep) == fields[0] + [sep] + Join(fields[1..], sep);
        }
      } else {
        assert fields[0] == [] && fields[1..] == rest;
        assert Join(fields, sep) == [] + [sep] + Join(rest, sep);
      }
    }
  }

  lemma {:induction false} JoinAppend(a: seq<string>, b: seq<string>, sep: char)
    requires |a| >= 1 && |b| >= 1
    ensures Join(a + b, sep) == Join(a, sep) + [sep] + Join(b, sep)
  {
    if |a| > 1 {
      assert (a + b)[1..] == a[1..] + b;
      JoinAppend(a[1..], b, sep);
    } else {
      assert (a + b)[1..] == b;
    }
  }

  lemma {:induction false} JoinEmpties(a: seq<string>, k: nat, sep: char)
    requires |a| >= 1
    ensures Join(a + Empties(k), sep) == Join(a, sep) + Repeat(sep, k)
  {
    if k > 0 {
      assert a + Empties(k) == (a + Empties(k - 1)) + [[]];
      JoinEmpties(a, k - 1, sep);
      JoinAppend(a + Empties(k - 1), [[]], sep);
      assert Repeat(sep, k) == Repeat(sep, k - 1) + [sep];
    } else {
      assert a + Empties(0) == a;
    }
  }

  lemma {:induction false} DropTrailingEmptyAppend(fields: seq<string>, k: nat)
    requires fields == [] || fields[|fields| - 1] != []
    ensures DropTrailingEmpty(fields + Empties(k)) == fields
  {
    if k > 0 {
      assert (fields + Empties(k))[..|fields| + k - 1] == fields + Empties(k - 1);
      DropTrailingEmptyAppend(fields, k - 1);
    } else {
      assert fields + Empties(0) == fields;
    }
  }

  /** The join of four fields, written out. */
  lemma JoinFour(f: seq<string>, sep: char)
    requires |f| == 4
    ensures Join(f, sep) == f[0] + [sep] + f[1] + [sep] + f[2] + [sep] + f[3]
  {
    assert Join(f[3..], sep) == f[3];
    assert Join(f[2..], sep) == f[2] + [sep] + f[3];
    assert Join(f[1..], sep) == f[1] + [sep] + (f[2] + [sep] + f[3]);
  }

  /**
   * String#split followed by Array#join round trip: splitting the join of
   * separator-free fields, followed by any number of separators, gives the
   * fields back, as long as the last field is not empty.
   */
  lemma RubySplitJoin(fields: seq<string>, k: nat, sep: char)
    requires |fields| >= 1 && fields[|fields| - 1] != []
    requires forall i | 0 <= i < |fields| :: sep !in fields[i]
    ensures RubySplit(Join(fields, sep) + Repeat(sep, k), sep) == fields
  {
    var g := fields + Empties(k);
    JoinEmpties(fields, k, sep);
    forall i | 0 <= i < |g| ensures sep !in g[i] {
      if i >= |fields| { assert g[i] == []; }
    }
    SplitAllJoin(g, sep);
    DropTrailingEmptyAppend(fields, k);
  }

  /** Every string whose split has a non-empty result is the join of it plus trailing separators. */
  lemma RubySplitShape(s: string, sep: char)
    requires RubySplit(s, sep) != []
    ensures Count(s, sep) + 1 >= |RubySplit(s, sep)|
    ensures s == Join(RubySplit(s, sep), sep) + Repeat(sep, Count(s, sep) + 1 - |RubySplit(s, sep)|)
  {
    var g := SplitAll(s, sep);
    var f := DropTrailingEmpty(g);
    DroppedEmpties(g);
    JoinSplitAll(s, sep);
    JoinEmpties(f, |g| - |f|, sep);
  }

  /** What DropTrailingEmpty removes is a run of empty fields. */
  lemma DroppedEmpties(g: seq<string>)
    ensures g == DropTrailingEmpty(g) + Empties(|g| - |DropTrailingEmpty(g)|)
  {
    var f := DropTrailingEmpty(g);
    var e := Empties(|g| - |f|);
    forall i | 0 <= i < |g| ensures g[i] == (f + e)[i] {
      if i < |f| {
        assert g[i] == g[..|f|][i];
      }
    }
  }

  // ---------------------------------------------------------------------------
  // Searching and case

  predicate StartsWith(t: string, v: string) { |v| <= |t| && t[..|v|] == v }

  /** v occurs in t as a contiguous substring. */
  predicate Contains(t: string, v: string) { exists i | 0 <= i <= |t| :: StartsWith(t[i..], v) }

  /**
   * The position of the last occurrence of c in s: where a greedy
   * `^(.*)c(.*)$` splits a line.
   */
  function LastIndexOf(s: string, c: char): (r: Option<nat>)
    ensures r.Some? ==> r.value < |s| && s[r.value] == c
    ensures r.Some? ==> forall j | r.value < j < |s| :: s[j] != c
    ensures r.None? ==> c !in s
  {
    if s == [] then None
    else if s[|s| - 1] == c then Some(|s| - 1)
    else
      var r := LastIndexOf(s[..|s| - 1], c);
      assert s == s[..|s| - 1] + [s[|s| - 1]];
      r
  }

  /** A string is the text before position j, the character at j, and the text after it. */
  lemma SplitAround(s: string, j: nat)
    requires j < |s|
    ensures s == s[..j] + [s[j]] + s[j + 1..]
  {
  }

  /** A character absent from a string is absent from every slice of it. */
  lemma NotInSlice(s: string, c: char, a: nat, b: nat)
    requires c !in s && a <= b <= |s|
    ensures c !in s[a..b]
  {
    assert forall k | a <= k < b :: s[a..b][k - a] == s[k];
  }

  /** Splitting around a character that occurs exactly once finds that occurrence. */
  lemma LastIndexOfUnique(a: string, b: string, c: char)
    requires c !in b
    ensures LastIndexOf(a + [c] + b, c) == Some(|a|)
  {
    var s := a + [c] + b;
    assert s[|a|] == c;
    assert forall j | |a| < j < |s| :: s[j] == b[j - |a| - 1];
  }

  function LowerChar(c: char): char
  {
    if 'A' <= c <= 'Z' then (c as int + 32) as char else c
  }

  /** ASCII lower-casing of every character. */
  function Lower(s: string): (r: string)
    ensures |r| == |s| && forall i | 0 <= i < |s| :: r[i] == LowerChar(s[i])
  {
    seq(|s|, i requires 0 <= i < |s| => LowerChar(s[i]))
  }
}
