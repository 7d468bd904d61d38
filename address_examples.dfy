/**
 * The worked examples of the address search: the block 192.168.0.0/24 and
 * the range 192.168.0.0-192.168.0.254, with the addresses on and just past
 * their edges. The examples name the addresses with Quad and the mask with
 * DecString; Literals shows these are the texts "192.168.0.0", "24" and so on.
 */
module AddressExamples {
  import opened Text
  import opened IPv4

  /** The dotted quad a.b.c.d as ip writes it. */
  function Quad(a: nat, b: nat, c: nat, d: nat): (s: string)
    requires a <= 255 && b <= 255 && c <= 255 && d <= 255
    ensures IsAddress(s) && U32(s) == Some(BigEndian([a, b, c, d]))
  {
    DottedAddress([a, b, c, d]);
    U32Value(Dotted([a, b, c, d]));
    Dotted([a, b, c, d])
  }

  /** A quad is the four numerals joined by dots. */
  lemma QuadText(a: nat, b: nat, c: nat, d: nat)
    requires a <= 255 && b <= 255 && c <= 255 && d <= 255
    ensures Quad(a, b, c, d) == DecString(a) + "." + DecString(b) + "." + DecString(c) + "." + DecString(d)
  {
    JoinFour([DecString(a), DecString(b), DecString(c), DecString(d)], '.');
  }

  /** The strings the examples are stated on are the literal addresses and mask. */
  lemma Literals()
    ensures Quad(192, 168, 0, 0) == "192.168.0.0" && DecString(24) == "24"
    ensures Quad(192, 168, 0, 1) == "192.168.0.1" && Quad(192, 168, 0, 255) == "192.168.0.255"
    ensures Quad(192, 168, 1, 0) == "192.168.1.0" && Quad(192, 168, 0, 254) == "192.168.0.254"
  {
    Numerals();
    Concatenations();
    QuadLiteral(192, 168, 0, 0, "192", "168", "0", "0");
    QuadLiteral(192, 168, 0, 1, "192", "168", "0", "1");
    QuadLiteral(192, 168, 0, 255, "192", "168", "0", "255");
    QuadLiteral(192, 168, 1, 0, "192", "168", "1", "0");
    QuadLiteral(192, 168, 0, 254, "192", "168", "0", "254");
  }

  lemma Concatenations()
    ensures "192" + "." + "168" + "." + "0" + "." + "0" == "192.168.0.0"
    ensures "192" + "." + "168" + "." + "0" + "." + "1" == "192.168.0.1"
    ensures "192" + "." + "168" + "." + "0" + "." + "255" == "192.168.0.255"
    ensures "192" + "." + "168" + "." + "1" + "." + "0" == "192.168.1.0"
    ensures "192" + "." + "168" + "." + "0" + "." + "254" == "192.168.0.254"
  {
  }

  lemma QuadLiteral(a: nat, b: nat, c: nat, d: nat, sa: string, sb: string, sc: string, sd: string)
    requires a <= 255 && b <= 255 && c <= 255 && d <= 255
    requires DecString(a) == sa && DecString(b) == sb && DecString(c) == sc && DecString(d) == sd
    ensures Quad(a, b, c, d) == sa + "." + sb + "." + sc + "." + sd
  {
    QuadText(a, b, c, d);
  }

  lemma Numerals()
    ensures DecString(0) == "0" && DecString(1) == "1" && DecString(24) == "24"
    ensures DecString(168) == "168" && DecString(192) == "192"
    ensures DecString(254) == "254" && DecString(255) == "255"
  {
    ThreeDigits(168);
    ThreeDigits(192);
    ThreeDigits(254);
    ThreeDigits(255);
    assert DecString(24) == DecString(2) + [DigitChar(4)];
  }

  /** The numeral of a three-digit number is its three digits. */
  lemma ThreeDigits(n: nat)
    requires 100 <= n < 1000
    ensures DecString(n) == [DigitChar(n / 100), DigitChar(n / 10 % 10), DigitChar(n % 10)]
  {
    assert DecString(n / 10) == [DigitChar(n / 100), DigitChar(n / 10 % 10)];
  }

  /** 192.168.0.0/24 covers 3232235520 through 3232235775: .1 and .255 but not 192.168.1.0. */
  lemma BlockOf24()
    ensures U32Bounds(Quad(192, 168, 0, 0) + "/" + DecString(24)) == Some((3232235520, 3232235775))
    ensures 3232235520 <= U32(Quad(192, 168, 0, 1)).value <= 3232235775
    ensures 3232235520 <= U32(Quad(192, 168, 0, 255)).value <= 3232235775
    ensures U32(Quad(192, 168, 1, 0)).value > 3232235775
  {
    var a := Quad(192, 168, 0, 0);
    var m := DecString(24);
    DecValueOfDecString(24);
    CidrOf(a, m);
    var u := U32(a).value;
    assert u == 3232235520;
    CidrBounds(a + "/" + m);
    ShiftEight();
    var b := U32Bounds(a + "/" + m).value;
    assert b.0 == Bits.ShiftRight(u, 8) * Bits.Pow2(8);
  }

  lemma ShiftEight()
    ensures Bits.ShiftRight(3232235520, 8) == 12625920 && Bits.Pow2(8) == 256
  {
    Bits.Pow2Add(4, 4);
    assert Bits.Pow2(4) == 16;
    assert Bits.ShiftRight(3232235520, 4) == 202014720;
    ShiftRightSteps(3232235520, 4, 4);
  }

  lemma ShiftRightSteps(x: nat, j: nat, k: nat)
    ensures Bits.ShiftRight(x, j + k) == Bits.ShiftRight(Bits.ShiftRight(x, j), k)
    decreases j
  {
    if j > 0 {
      ShiftRightSteps(x / 2, j - 1, k);
    }
  }

  /** 192.168.0.0-192.168.0.254 covers 3232235520 through 3232235774, so not .255. */
  lemma RangeTo254()
    ensures U32Bounds(Quad(192, 168, 0, 0) + "-" + Quad(192, 168, 0, 254)) == Some((3232235520, 3232235774))
    ensures U32(Quad(192, 168, 0, 255)).value > 3232235774
  {
    var a := Quad(192, 168, 0, 0);
    var b := Quad(192, 168, 0, 254);
    RangeOf(a, b);
    RangeBounds(a + "-" + b);
  }
}
