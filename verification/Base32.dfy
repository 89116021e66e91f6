/** encodeBase32 and decodeBase32 of lib/totp.ts, against the bit groups of section 6 of RFC 4648. */
module Base32 {
  import opened Numbers

  // ----- bit strings, most significant bit first -----

  type Bits = seq<bool>

  function BitsOf(v: nat, n: nat): (bits: Bits)
    ensures |bits| == n
  {
    if n == 0 then [] else BitsOf(v / 2, n - 1) + [v % 2 == 1]
  }

  function ValueOf(bits: Bits): (v: nat)
    ensures v < Pow2(|bits|)
  {
    if bits == [] then 0 else 2 * ValueOf(bits[..|bits| - 1]) + (if bits[|bits| - 1] then 1 else 0)
  }

  function Zeros(n: nat): (bits: Bits)
    ensures |bits| == n
  {
    seq(n, _ => false)
  }

  lemma {:induction false} ValueOfBits(v: nat, n: nat)
    requires v < Pow2(n)
    ensures ValueOf(BitsOf(v, n)) == v
  {
    if n > 0 {
      ValueOfBits(v / 2, n - 1);
      assert BitsOf(v, n)[..n - 1] == BitsOf(v / 2, n - 1);
    }
  }

  lemma {:induction false} BitsOfValue(bits: Bits)
    ensures BitsOf(ValueOf(bits), |bits|) == bits
  {
    if bits != [] {
      BitsOfValue(bits[..|bits| - 1]);
    }
  }

  lemma {:induction false} Pow2Plus(a: nat, b: nat)
    ensures Pow2(a + b) == Pow2(a) * Pow2(b)
  {
    if b > 0 {
      Pow2Plus(a, b - 1);
    }
  }

  lemma TwiceProduct(x: int, p: int)
    ensures x * (2 * p) == 2 * (x * p)
  {
  }

  lemma {:induction false} ValueOfConcat(a: Bits, b: Bits)
    ensures ValueOf(a + b) == ValueOf(a) * Pow2(|b|) + ValueOf(b)
  {
    if b == [] {
      assert a + b == a;
    } else {
      var b' := b[..|b| - 1];
      ValueOfConcat(a, b');
      assert (a + b)[..|a + b| - 1] == a + b' && (a + b)[|a + b| - 1] == b[|b| - 1];
      assert ValueOf(a + b) == 2 * ValueOf(a + b') + (if b[|b| - 1] then 1 else 0);
      TwiceProduct(ValueOf(a), Pow2(|b'|));
    }
  }

  // ----- the reference: regrouping bits -----

  /** Groups are of five bits on the text side and of eight on the byte side. */
  type Width = w: nat | w == 5 || w == 8 witness 5

  function AllBits(values: seq<nat>, width: Width): (bits: Bits)
    ensures |bits| == width * |values|
  {
    if values == [] then [] else AllBits(values[..|values| - 1], width) + BitsOf(values[|values| - 1], width)
  }

  /** The complete groups of a bit string, as numbers; an incomplete last group is left out. */
  function Groups(bits: Bits, width: Width): seq<nat>
    decreases |bits|
  {
    if |bits| < width then [] else [ValueOf(bits[..width])] + Groups(bits[width..], width)
  }

  /** How many zero bits complete the last group of five. */
  function PadLength(n: nat): (p: nat)
    ensures p < 5 && (n + p) % 5 == 0
  {
    if n % 5 == 0 then 0 else 5 - n % 5
  }

  function EncodeDigits(bytes: seq<nat>): seq<nat> {
    var bits := AllBits(bytes, 8);
    Groups(bits + Zeros(PadLength(|bits|)), 5)
  }

  function DecodeDigits(digits: seq<nat>): seq<nat> {
    Groups(AllBits(digits, 5), 8)
  }

  ghost predicate Below(values: seq<nat>, width: Width) {
    forall i :: 0 <= i < |values| ==> values[i] < Pow2(width)
  }

  lemma {:induction false} GroupsShape(bits: Bits, width: Width)
    ensures |Groups(bits, width)| == |bits| / width
    ensures Below(Groups(bits, width), width)
    decreases |bits|
  {
    if |bits| >= width {
      GroupsShape(bits[width..], width);
      if width == 5 {
        assert |bits| / 5 == 1 + (|bits| - 5) / 5;
      } else {
        assert |bits| / 8 == 1 + (|bits| - 8) / 8;
      }
    }
  }

  lemma {:induction false} GroupsAppend(a: Bits, b: Bits, width: Width, k: nat)
    requires |a| == width * k
    ensures Groups(a + b, width) == Groups(a, width) + Groups(b, width)
    decreases k
  {
    if k == 0 {
      assert a + b == b;
    } else {
      assert width * k == width + width * (k - 1);
      assert (a + b)[..width] == a[..width] && (a + b)[width..] == a[width..] + b;
      GroupsAppend(a[width..], b, width, k - 1);
    }
  }

  lemma OneGroup(v: nat, width: Width)
    requires v < Pow2(width)
    ensures Groups(BitsOf(v, width), width) == [v]
  {
    var bits := BitsOf(v, width);
    assert bits[..width] == bits && bits[width..] == [];
    ValueOfBits(v, width);
  }

  lemma {:induction false} GroupsOfAllBits(values: seq<nat>, width: Width)
    requires Below(values, width)
    ensures Groups(AllBits(values, width), width) == values
  {
    if values != [] {
      var init, v := values[..|values| - 1], values[|values| - 1];
      GroupsOfAllBits(init, width);
      GroupsAppend(AllBits(init, width), BitsOf(v, width), width, |init|);
      OneGroup(v, width);
      assert values == init + [v];
    }
  }

  /** Regrouping loses nothing but an incomplete last group. */
  lemma {:induction false} AllBitsOfGroups(bits: Bits, width: Width)
    ensures var n := |Groups(bits, width)|;
            width * n <= |bits| < width * n + width && AllBits(Groups(bits, width), width) == bits[..width * n]
    decreases |bits|
  {
    if |bits| >= width {
      var rest := bits[width..];
      AllBitsOfGroups(rest, width);
      var n := |Groups(rest, width)|;
      AllBitsCons(ValueOf(bits[..width]), Groups(rest, width), width);
      BitsOfValue(bits[..width]);
      OneMore(width, n);
      TakeMore(bits, width, width * n);
    }
  }

  lemma TakeMore(bits: Bits, first: nat, more: nat)
    requires first + more <= |bits|
    ensures bits[..first] + bits[first..][..more] == bits[..first + more]
  {
  }

  lemma OneMore(width: Width, n: nat)
    ensures width * (n + 1) == width + width * n
  {
  }

  lemma AllBitsSnoc(values: seq<nat>, v: nat, width: Width)
    ensures AllBits(values + [v], width) == AllBits(values, width) + BitsOf(v, width)
  {
    assert (values + [v])[..|values|] == values;
  }

  lemma ConcatAssociates(a: Bits, b: Bits, c: Bits)
    ensures (a + b) + c == a + (b + c)
  {
  }

  lemma {:induction false} AllBitsCons(v: nat, values: seq<nat>, width: Width)
    ensures AllBits([v] + values, width) == BitsOf(v, width) + AllBits(values, width)
  {
    if values == [] {
      AllBitsSnoc([], v, width);
      assert [v] + values == [] + [v];
      assert BitsOf(v, width) + [] == [] + BitsOf(v, width);
    } else {
      var init, last := values[..|values| - 1], values[|values| - 1];
      AllBitsCons(v, init, width);
      assert [v] + values == ([v] + init) + [last] && values == init + [last];
      AllBitsSnoc([v] + init, last, width);
      AllBitsSnoc(init, last, width);
      ConcatAssociates(BitsOf(v, width), AllBits(init, width), BitsOf(last, width));
    }
  }

  // ----- the round trip on digits -----

  /** Decoding the digits of any bytes gives the bytes back. */
  lemma DigitsRoundTrip(bytes: seq<nat>)
    requires Below(bytes, 8)
    ensures DecodeDigits(EncodeDigits(bytes)) == bytes
    ensures |EncodeDigits(bytes)| == (8 * |bytes| + 4) / 5
    ensures Below(EncodeDigits(bytes), 5)
  {
    var bits := AllBits(bytes, 8);
    var padded := bits + Zeros(PadLength(|bits|));
    GroupsShape(padded, 5);
    AllBitsOfGroups(padded, 5);
    assert padded[..|padded|] == padded;
    GroupsAppend(bits, Zeros(PadLength(|bits|)), 8, |bytes|);
    GroupsOfAllBits(bytes, 8);
    assert Groups(Zeros(PadLength(|bits|)), 8) == [];
  }

  /** What decoding leaves over. */
  function RestBits(digits: seq<nat>): Bits {
    AllBits(digits, 5)[8 * (5 * |digits| / 8)..]
  }

  /** The bits that decoding leaves over are fewer than five and all zero. */
  ghost predicate WholeEncoding(digits: seq<nat>) {
    |RestBits(digits)| < 5 && RestBits(digits) == Zeros(|RestBits(digits)|)
  }

  lemma KeptAndRest(digits: seq<nat>)
    ensures AllBits(digits, 5) == AllBits(DecodeDigits(digits), 8) + RestBits(digits)
  {
    var bits := AllBits(digits, 5);
    var n := 5 * |digits| / 8;
    GroupsShape(bits, 8);
    assert |DecodeDigits(digits)| == n;
    AllBitsOfGroups(bits, 8);
    assert bits == bits[..8 * n] + bits[8 * n..];
  }

  lemma PadUnique(n: nat, p: nat)
    requires p < 5 && (n + p) % 5 == 0
    ensures PadLength(n) == p
  {
  }

  lemma PadIsRest(digits: seq<nat>)
    ensures |RestBits(digits)| < 5 ==> PadLength(|AllBits(DecodeDigits(digits), 8)|) == |RestBits(digits)|
  {
    KeptAndRest(digits);
    var kept, rest := |AllBits(DecodeDigits(digits), 8)|, |RestBits(digits)|;
    assert kept + rest == 5 * |digits|;
    if rest < 5 {
      MultipleOfFive(|digits|);
      PadUnique(kept, rest);
    }
  }

  lemma MultipleOfFive(n: nat)
    ensures 5 * n % 5 == 0
  {
  }

  lemma WholeGroups(bits: Bits)
    requires |bits| % 5 == 0
    ensures AllBits(Groups(bits, 5), 5) == bits
  {
    GroupsShape(bits, 5);
    AllBitsOfGroups(bits, 5);
    assert 5 * (|bits| / 5) == |bits|;
    assert bits[..|bits|] == bits;
  }

  lemma EncodedBits(digits: seq<nat>)
    ensures var decoded := AllBits(DecodeDigits(digits), 8);
            AllBits(EncodeDigits(DecodeDigits(digits)), 5) == decoded + Zeros(PadLength(|decoded|))
  {
    var decoded := AllBits(DecodeDigits(digits), 8);
    WholeGroups(decoded + Zeros(PadLength(|decoded|)));
  }

  /** Encoding inverts decoding exactly on the digit strings that some bytes have. */
  lemma EncodeDecode(digits: seq<nat>)
    requires Below(digits, 5)
    ensures EncodeDigits(DecodeDigits(digits)) == digits <==> WholeEncoding(digits)
  {
    var decoded := AllBits(DecodeDigits(digits), 8);
    KeptAndRest(digits);
    PadIsRest(digits);
    if WholeEncoding(digits) {
      GroupsOfAllBits(digits, 5);
    }
    if EncodeDigits(DecodeDigits(digits)) == digits {
      EncodedBits(digits);
      assert RestBits(digits) == AllBits(digits, 5)[|decoded|..] == Zeros(PadLength(|decoded|));
    }
  }
}
