/** The bit accumulator of encodeBase32 and decodeBase32 in lib/totp.ts. */
module Totp {
  import opened Base32
  import opened Numbers

  const ALPHABET := "ABCDEFGHIJKLMNOPQRSTUVWXYZ234567"

  const WORD: nat := 0x1_0000_0000

  // ----- the alphabet -----

  function Letter(d: nat): char
    requires d < 32
  {
    if d < 26 then ('A' as int + d) as char else ('2' as int + (d - 26)) as char
  }

  predicate IsLetter(c: char) {
    'A' <= c <= 'Z' || '2' <= c <= '7'
  }

  /** The place of a letter in the alphabet. */
  function DigitOf(c: char): (d: nat)
    requires IsLetter(c)
    ensures d < 32 && Letter(d) == c
  {
    if c >= 'A' then c as int - 'A' as int else 26 + (c as int - '2' as int)
  }

  lemma AlphabetLetters()
    ensures |ALPHABET| == 32
    ensures forall d :: 0 <= d < 32 ==> ALPHABET[d] == Letter(d)
  {
  }

  lemma LettersDistinct(d: nat, e: nat)
    requires d < 32 && e < 32
    ensures IsLetter(Letter(d)) && DigitOf(Letter(d)) == d
    ensures Letter(d) == Letter(e) <==> d == e
  {
  }

  function TextOf(digits: seq<nat>): (text: string)
    requires Below(digits, 5)
    ensures |text| == |digits|
  {
    seq(|digits|, i requires 0 <= i < |digits| => assert digits[i] < 32 by { FivePower(); } Letter(digits[i]))
  }

  lemma FivePower()
    ensures Pow2(5) == 32
  {
    assert Pow2(5) == 2 * Pow2(4) && Pow2(4) == 2 * Pow2(3) && Pow2(3) == 2 * Pow2(2) && Pow2(2) == 2 * Pow2(1);
  }

  // ----- 32-bit words -----

  /** `(value << width) | v` on 32-bit words: the bits shifted in are zero, so the union is a sum. */
  function ShiftIn(value: nat, width: Width, v: nat): nat {
    value * Pow2(width) % WORD + v
  }

  /** `(value >>> n) & mask`, where the mask keeps `width` bits. */
  function Extract(value: nat, n: nat, width: Width): nat {
    value / Pow2(n) % Pow2(width)
  }

  // ----- the same operations on the 32 bits themselves -----

  /** The bits of a word; a shift to the left drops those that leave the word. */
  function ShiftLeft(word: Bits, n: nat): Bits
    requires n <= |word|
  {
    word[n..] + Zeros(n)
  }

  /** `>>>` fills with zeros. */
  function ShiftRight(word: Bits, n: nat): Bits
    requires n <= |word|
  {
    Zeros(n) + word[..|word| - n]
  }

  function Or(a: Bits, b: Bits): Bits
    requires |a| == |b|
  {
    seq(|a|, i requires 0 <= i < |a| => a[i] || b[i])
  }

  function And(a: Bits, b: Bits): Bits
    requires |a| == |b|
  {
    seq(|a|, i requires 0 <= i < |a| => a[i] && b[i])
  }

  /** The word of a number. */
  function Word(value: nat): (word: Bits)
    ensures |word| == 32
  {
    BitsOf(value, 32)
  }

  /** The mask that keeps the lowest bits of a word. */
  function Mask(size: nat, width: nat): (word: Bits)
    requires width <= size
    ensures |word| == size
  {
    Zeros(size - width) + seq(width, _ => true)
  }

  lemma WordIsPower()
    ensures Pow2(32) == WORD
  {
    Powers();
    Pow2Plus(8, 8);
    Pow2Plus(16, 16);
  }

  lemma {:induction false} LeadingZeros(v: nat, width: nat, n: nat)
    requires v < Pow2(width) && width <= n
    ensures BitsOf(v, n) == Zeros(n - width) + BitsOf(v, width)
    decreases n
  {
    if width > 0 {
      LeadingZeros(v / 2, width - 1, n - 1);
    } else if n > 0 {
      LeadingZeros(0, 0, n - 1);
      assert BitsOf(0, 0) == [];
    }
  }

  lemma {:induction false} OnesAreMask(width: nat)
    ensures BitsOf(Pow2(width) - 1, width) == seq(width, _ => true)
  {
    if width > 0 {
      OnesAreMask(width - 1);
      assert (Pow2(width) - 1) / 2 == Pow2(width - 1) - 1 && (Pow2(width) - 1) % 2 == 1;
    }
  }

  /** The masks of the source: 31 and 0xff. */
  lemma MaskIsNumber(size: nat, width: nat)
    requires width <= size
    ensures BitsOf(Pow2(width) - 1, size) == Mask(size, width)
  {
    OnesAreMask(width);
    LeadingZeros(Pow2(width) - 1, width, size);
  }

  /** The low bits of a bit string are a remainder, the others a quotient. */
  lemma SplitValue(bits: Bits, keep: nat)
    requires keep <= |bits|
    ensures ValueOf(bits) / Pow2(keep) == ValueOf(bits[..|bits| - keep])
    ensures ValueOf(bits) % Pow2(keep) == ValueOf(bits[|bits| - keep..])
  {
    var high, low := bits[..|bits| - keep], bits[|bits| - keep..];
    assert bits == high + low;
    ValueOfConcat(high, low);
    QuotientUnique(ValueOf(bits), Pow2(keep), ValueOf(high), ValueOf(low));
  }

  lemma ZerosInFront(n: nat, bits: Bits)
    ensures ValueOf(Zeros(n) + bits) == ValueOf(bits)
  {
    ValueOfConcat(Zeros(n), bits);
    ZerosAreZero(n);
  }

  lemma ShiftRightDivides(word: Bits, n: nat)
    requires n <= |word|
    ensures ValueOf(ShiftRight(word, n)) == ValueOf(word) / Pow2(n)
  {
    SplitValue(word, n);
    ZerosInFront(n, word[..|word| - n]);
  }

  lemma MaskTakesRemainder(word: Bits, width: nat)
    requires width <= |word|
    ensures ValueOf(And(word, Mask(|word|, width))) == ValueOf(word) % Pow2(width)
  {
    var rest := |word| - width;
    assert And(word, Mask(|word|, width)) == Zeros(rest) + word[rest..];
    SplitValue(word, width);
    ZerosInFront(rest, word[rest..]);
  }

  lemma ShiftedRemainder(value: int, p: int, q: int)
    requires p > 0 && q > 0 && p * q > 0
    ensures value * q % (p * q) == value % p * q
  {
    var top, low := value / p, value % p;
    ProductSplit(top, low, p, q);
    MulStrict(low, p, q);
    MulAtLeast(q, low);
    ModUnique(value * q, p * q, top, low * q);
  }

  lemma ProductSplit(top: int, low: int, p: int, q: int)
    ensures (top * p + low) * q == (p * q) * top + low * q
  {
  }

  lemma MulStrict(x: int, y: int, q: int)
    requires x < y && q > 0
    ensures x * q < y * q
  {
  }

  /** A shift to the left multiplies and drops what leaves the word. */
  lemma ShiftLeftMultiplies(value: nat, size: nat, n: nat)
    requires value < Pow2(size) && n <= size
    ensures ValueOf(ShiftLeft(BitsOf(value, size), n)) == value * Pow2(n) % Pow2(size)
  {
    var low := value % Pow2(size - n);
    LowOfWord(value, size, n);
    ShiftedTo(BitsOf(value, size)[n..], n, low);
    ShiftedPower(value, size, n, low);
  }

  lemma LowOfWord(value: nat, size: nat, n: nat)
    requires value < Pow2(size) && n <= size
    ensures ValueOf(BitsOf(value, size)[n..]) == value % Pow2(size - n)
  {
    ValueOfBits(value, size);
    SplitValue(BitsOf(value, size), size - n);
  }

  lemma ShiftedTo(bits: Bits, n: nat, v: nat)
    requires ValueOf(bits) == v
    ensures ValueOf(bits + Zeros(n)) == v * Pow2(n)
  {
    ZerosBehind(bits, n);
  }

  lemma ShiftedPower(value: nat, size: nat, n: nat, low: nat)
    requires n <= size && low == value % Pow2(size - n)
    ensures value * Pow2(n) % Pow2(size) == low * Pow2(n)
  {
    Pow2Plus(size - n, n);
    ShiftedRemainder(value, Pow2(size - n), Pow2(n));
  }

  lemma ZerosBehind(bits: Bits, n: nat)
    ensures ValueOf(bits + Zeros(n)) == ValueOf(bits) * Pow2(n)
  {
    ValueOfConcat(bits, Zeros(n));
    ZerosAreZero(n);
  }

  /** Or-ing into the vacated bits adds. */
  lemma OrAdds(word: Bits, n: nat, v: nat)
    requires n <= |word| && v < Pow2(n)
    ensures ValueOf(Or(ShiftLeft(word, n), BitsOf(v, |word|))) == ValueOf(ShiftLeft(word, n)) + v
  {
    var high, low := word[n..], BitsOf(v, n);
    LeadingZeros(v, n, |word|);
    OrJoins(high, low);
    ShiftedTo(high, n, ValueOf(high));
    ValueOfConcat(high, low);
    ValueOfBits(v, n);
  }

  lemma OrJoins(high: Bits, low: Bits)
    ensures Or(high + Zeros(|low|), Zeros(|high|) + low) == high + low
  {
  }

  /** `(value << width) | v` is what `ShiftIn` says. */
  lemma ShiftInIsWords(value: nat, width: Width, v: nat)
    requires value < WORD && v < Pow2(width)
    ensures ValueOf(Or(ShiftLeft(Word(value), width), Word(v))) == ShiftIn(value, width, v)
  {
    WordIsPower();
    ShiftLeftMultiplies(value, 32, width);
    OrAdds(Word(value), width, v);
  }

  /** `(value >>> n) & mask` is what `Extract` says. */
  lemma ExtractIsWords(value: nat, n: nat, width: Width)
    requires value < WORD && n <= 32
    ensures ValueOf(And(ShiftRight(Word(value), n), Word(Pow2(width) - 1))) == Extract(value, n, width)
  {
    WordIsPower();
    MaskIsNumber(32, width);
    ValueOfBits(value, 32);
    ShiftRightDivides(Word(value), n);
    MaskTakesRemainder(ShiftRight(Word(value), n), width);
  }

  /** `(value << n) & 31`: the padding of the last digit. */
  lemma PaddingIsWords(value: nat, n: nat)
    requires value < WORD && n <= 32
    ensures ValueOf(And(ShiftLeft(Word(value), n), Word(31))) == value * Pow2(n) % WORD % 32
  {
    WordIsPower();
    FivePower();
    MaskIsNumber(32, 5);
    ShiftLeftMultiplies(value, 32, n);
    MaskTakesRemainder(ShiftLeft(Word(value), n), 5);
  }

  lemma Powers()
    ensures Pow2(0) == 1 && Pow2(1) == 2 && Pow2(2) == 4 && Pow2(3) == 8 && Pow2(4) == 16 && Pow2(5) == 32
    ensures Pow2(6) == 64 && Pow2(7) == 128 && Pow2(8) == 256 && Pow2(9) == 512 && Pow2(10) == 1024
    ensures Pow2(11) == 2048 && Pow2(12) == 4096
  {
    FivePower();
    assert Pow2(12) == 2 * Pow2(11) && Pow2(11) == 2 * Pow2(10) && Pow2(10) == 2 * Pow2(9) && Pow2(9) == 2 * Pow2(8);
    assert Pow2(8) == 2 * Pow2(7) && Pow2(7) == 2 * Pow2(6) && Pow2(6) == 2 * Pow2(5);
    assert Pow2(4) == 2 * Pow2(3) && Pow2(3) == 2 * Pow2(2) && Pow2(2) == 2 * Pow2(1);
  }

  lemma ModUnique(x: int, m: int, q: int, r: int)
    requires 0 <= r < m && x == m * q + r
    ensures x % m == r
  {
    var d := x / m - q;
    assert m * d == m * (x / m) - m * q == r - x % m;
    MulAtLeast(m, d);
  }

  lemma MulAtLeast(m: int, d: int)
    requires m > 0
    ensures d >= 1 ==> m * d >= m
    ensures d <= -1 ==> m * d <= -m
  {
  }

  /** Shifting `width` bits in keeps the low bits right, although the word is never masked and overflows:
      below twelve bits the overflow is not seen. */
  lemma ShiftInLow(value: nat, bits: nat, width: Width, v: nat)
    requires v < Pow2(width) && bits + width <= 12
    ensures ShiftIn(value, width, v) < WORD
    ensures ShiftIn(value, width, v) % Pow2(bits + width) == value % Pow2(bits) * Pow2(width) + v
  {
    WordSplits(bits, width);
    Pow2Plus(bits, width);
    LowBits(value, Pow2(bits), Pow2(width), Spare(bits, width), v);
    WordRoom(value, width, v);
  }

  /** What is left of a word above the pending bits and those shifted in. */
  function Spare(bits: nat, width: nat): (c: nat)
    requires bits + width <= 12
    ensures c > 0
  {
    0x10_0000 * Pow2(12 - bits - width)
  }

  lemma WordSplits(bits: nat, width: nat)
    requires bits + width <= 12
    ensures Pow2(bits) * Spare(bits, width) * Pow2(width) == WORD
  {
    Powers();
    Pow2Plus(bits, width);
    Pow2Plus(bits + width, 12 - bits - width);
    var p, w, d := Pow2(bits), Pow2(width), Pow2(12 - bits - width);
    Regroup(p, w, d);
  }

  lemma Regroup(p: int, w: int, d: int)
    requires p * w * d == 4096
    ensures p * (0x10_0000 * d) * w == 0x10_0000 * 4096
  {
    assert p * (0x10_0000 * d) * w == 0x10_0000 * (p * w * d);
  }

  lemma LowBits(value: nat, p: nat, w: nat, c: nat, v: nat)
    requires p > 0 && c > 0 && p * c * w == WORD && 0 <= v < w
    ensures (value * w % WORD + v) % (p * w) == value % p * w + v
  {
    MulPos(p, c);
    var low := value % (p * c);
    ShiftedRemainder(value, p * c, w);
    assert value * w % WORD == low * w;
    ExtractArithmetic(value, p, c);
    assert low % p == value % p;
    var q, r := low / p, low % p;
    RemainderRoom(r, p, w, v);
    ProductSplit(q, r, p, w);
    ModUnique(low * w + v, p * w, q, r * w + v);
  }

  lemma MulPos(x: int, y: int)
    requires x > 0 && y > 0
    ensures x * y > 0
  {
  }

  lemma RemainderRoom(r: int, p: int, w: int, v: int)
    requires 0 <= r < p && 0 <= v < w
    ensures 0 <= r * w + v < p * w
  {
    assert r * w <= (p - 1) * w;
  }

  lemma WordRoom(value: nat, width: Width, v: nat)
    requires v < Pow2(width)
    ensures ShiftIn(value, width, v) < WORD
  {
    Powers();
    var w := Pow2(width);
    var c := if width == 5 then 0x800_0000 else 0x100_0000;
    var k := value - c * (value * w / WORD);
    assert WORD == w * c;
    Factor(value, w, c, value * w / WORD);
    MulAtLeast(w, c - k);
    assert w * (c - k) == WORD - value * w % WORD > 0;
  }

  lemma Factor(value: int, w: int, c: int, t: int)
    ensures value * w - w * c * t == w * (value - c * t)
    ensures w * (c - (value - c * t)) == w * c - w * (value - c * t)
  {
  }

  /** The top bits of the pending ones are extracted, whatever lies above them in the word. */
  lemma ExtractTop(value: nat, n: nat, width: Width)
    ensures Extract(value, n, width) == value % Pow2(n + width) / Pow2(n)
    ensures value % Pow2(n + width) % Pow2(n) == value % Pow2(n)
  {
    Pow2Plus(n, width);
    ExtractArithmetic(value, Pow2(n), Pow2(width));
  }

  lemma ExtractArithmetic(value: nat, p: int, w: int)
    requires p > 0 && w > 0 && p * w > 0
    ensures value / p % w == value % (p * w) / p
    ensures value % (p * w) % p == value % p
  {
    var hi, lo := value / p, value % p;
    var q, d := hi / w, hi % w;
    DigitSplit(p, w, q, d, lo);
    RemainderRoom(d, w, p, lo);
    ModUnique(value, p * w, q, d * p + lo);
    QuotientUnique(d * p + lo, p, d, lo);
  }

  lemma DigitSplit(p: int, w: int, q: int, d: int, lo: int)
    ensures p * (w * q + d) + lo == p * w * q + (d * p + lo)
  {
  }

  lemma QuotientUnique(x: int, p: int, d: int, lo: int)
    requires 0 <= lo < p && x == d * p + lo
    ensures x / p == d && x % p == lo
  {
    ModUnique(x, p, d, lo);
    assert p * (x / p) == p * d;
    assert x / p == d;
  }

  // ----- the accumulator and the bit stream -----

  /** `bits` bits of the stream are pending, and the word ends in them. */
  ghost predicate Pending(stream: Bits, done: nat, bits: nat, value: nat) {
    && done + bits == |stream|
    && value < WORD
    && value % Pow2(bits) == ValueOf(stream[done..])
  }

  lemma PushBits(stream: Bits, done: nat, bits: nat, value: nat, width: Width, v: nat)
    requires Pending(stream, done, bits, value) && v < Pow2(width) && bits + width <= 12
    ensures Pending(stream + BitsOf(v, width), done, bits + width, ShiftIn(value, width, v))
  {
    ShiftInLow(value, bits, width, v);
    ValueOfConcat(stream[done..], BitsOf(v, width));
    ValueOfBits(v, width);
    assert (stream + BitsOf(v, width))[done..] == stream[done..] + BitsOf(v, width);
  }

  lemma TakeBits(stream: Bits, done: nat, bits: nat, value: nat, width: Width)
    requires Pending(stream, done, bits, value) && bits >= width
    ensures Extract(value, bits - width, width) == ValueOf(stream[done..done + width])
    ensures Pending(stream, done + width, bits - width, value)
  {
    var pending := stream[done..];
    var top, low := pending[..width], pending[width..];
    assert pending == top + low;
    ValueOfConcat(top, low);
    ExtractTop(value, bits - width, width);
    QuotientUnique(ValueOf(pending), Pow2(bits - width), ValueOf(top), ValueOf(low));
    assert stream[done + width..] == low && stream[done..done + width] == top;
  }

  lemma GroupsGrow(stream: Bits, width: Width, k: nat)
    requires width * (k + 1) <= |stream|
    ensures Groups(stream[..width * (k + 1)], width)
         == Groups(stream[..width * k], width) + [ValueOf(stream[width * k..width * k + width])]
  {
    var group := stream[width * k..width * k + width];
    assert width * (k + 1) == width * k + width;
    assert stream[..width * (k + 1)] == stream[..width * k] + group;
    GroupsAppend(stream[..width * k], group, width, k);
    assert group[..width] == group && group[width..] == [];
  }

  // ----- encoding -----

  ghost predicate Spells(text: string, digits: seq<nat>) {
    |text| == |digits| && forall i :: 0 <= i < |digits| ==> digits[i] < 32 && text[i] == Letter(digits[i])
  }

  /** The text so far spells the complete groups of the stream before the pending bits. */
  ghost predicate Encoding(stream: Bits, output: string, bits: nat, value: nat) {
    && Pending(stream, 5 * |output|, bits, value)
    && Spells(output, Groups(stream[..5 * |output|], 5))
  }

  lemma EncodeOne(stream: Bits, output: string, bits: nat, value: nat)
    requires Encoding(stream, output, bits, value) && bits >= 5
    ensures Extract(value, bits - 5, 5) < 32
    ensures Encoding(stream, output + [Letter(Extract(value, bits - 5, 5))], bits - 5, value)
  {
    FivePower();
    TakeBits(stream, 5 * |output|, bits, value, 5);
    GroupsGrow(stream, 5, |output|);
  }

  lemma EncodeMore(stream: Bits, output: string, bits: nat, value: nat, width: Width, v: nat)
    requires Encoding(stream, output, bits, value) && v < Pow2(width) && bits + width <= 12
    ensures Encoding(stream + BitsOf(v, width), output, bits + width, ShiftIn(value, width, v))
  {
    PushBits(stream, 5 * |output|, bits, value, width, v);
    assert (stream + BitsOf(v, width))[..5 * |output|] == stream[..5 * |output|];
  }

  /** The last digit takes the pending bits followed by zeros. */
  lemma EncodeLast(stream: Bits, output: string, bits: nat, value: nat)
    requires Encoding(stream, output, bits, value) && 0 < bits < 5
    ensures var last := value * Pow2(5 - bits) % WORD % 32;
            last < 32 && Spells(output + [Letter(last)], Groups(stream + Zeros(5 - bits), 5))
  {
    var pending, pad := stream[5 * |output|..], Zeros(5 - bits);
    var last := value * Pow2(5 - bits) % WORD % 32;
    assert last == ValueOf(pending + pad) by {
      ZerosAreZero(5 - bits);
      ValueOfConcat(pending, pad);
      LastDigit(value, bits);
    }
    FivePower();
    LastGroup(stream, |output|, bits);
  }

  lemma LastGroup(stream: Bits, k: nat, bits: nat)
    requires 0 < bits < 5 && 5 * k + bits == |stream|
    ensures Groups(stream + Zeros(5 - bits), 5)
         == Groups(stream[..5 * k], 5) + [ValueOf(stream[5 * k..] + Zeros(5 - bits))]
  {
    var done, last := stream[..5 * k], stream[5 * k..] + Zeros(5 - bits);
    assert stream + Zeros(5 - bits) == done + last;
    GroupsAppend(done, last, 5, k);
    OneFive(last);
  }

  lemma OneFive(bits: Bits)
    requires |bits| == 5
    ensures Groups(bits, 5) == [ValueOf(bits)]
  {
    assert bits[..5] == bits && bits[5..] == [];
  }

  lemma {:induction false} ZerosAreZero(n: nat)
    ensures ValueOf(Zeros(n)) == 0
  {
    if n > 0 {
      ZerosAreZero(n - 1);
      assert Zeros(n)[..n - 1] == Zeros(n - 1);
    }
  }

  lemma LastDigit(value: nat, bits: nat)
    requires 0 < bits < 5
    ensures value * Pow2(5 - bits) % WORD % 32 == value % Pow2(bits) * Pow2(5 - bits)
  {
    FivePower();
    Pow2Plus(bits, 5 - bits);
    RegroupDigit(Pow2(bits), Pow2(5 - bits));
    LowBits(value, Pow2(bits), Pow2(5 - bits), 0x800_0000, 0);
  }

  lemma RegroupDigit(p: int, w: int)
    requires p * w == 32
    ensures p * 0x800_0000 * w == WORD
  {
    assert p * 0x800_0000 * w == 0x800_0000 * (p * w);
  }

  /** The inner loop: emits digits while five bits are pending. */
  method EmitDigits(ghost stream: Bits, output: string, bits: nat, value: nat) returns (output': string, bits': nat)
    requires Encoding(stream, output, bits, value)
    ensures Encoding(stream, output', bits', value) && bits' < 5
  {
    output', bits' := output, bits;
    while bits' >= 5
      invariant Encoding(stream, output', bits', value)
    {
      EncodeOne(stream, output', bits', value);
      AlphabetLetters();
      output' := output' + [ALPHABET[Extract(value, bits' - 5, 5)]];
      bits' := bits' - 5;
    }
  }

  lemma SpelledIsText(text: string, digits: seq<nat>)
    requires Spells(text, digits)
    ensures Below(digits, 5) && text == TextOf(digits)
  {
    FivePower();
  }

  /** The reference pads with the zeros that complete the last group. */
  lemma DigitsPadded(input: seq<nat>, pad: nat)
    requires pad < 5 && (8 * |input| + pad) % 5 == 0
    ensures EncodeDigits(input) == Groups(AllBits(input, 8) + Zeros(pad), 5)
  {
    PadUnique(8 * |input|, pad);
  }

  lemma NoPadding(stream: Bits, n: nat)
    requires n == |stream|
    ensures stream[..n] == stream + Zeros(0)
  {
  }

  /** After the last byte without pending bits, all digits are there. */
  lemma WholeDigits(input: seq<nat>, n: nat)
    requires n == 8 * |input| && n % 5 == 0
    ensures n == |AllBits(input, 8)| && Groups(AllBits(input, 8)[..n], 5) == EncodeDigits(input)
  {
    DigitsPadded(input, 0);
    NoPadding(AllBits(input, 8), n);
  }

  lemma SpellsSame(text: string, digits: seq<nat>, others: seq<nat>)
    requires digits == others && Spells(text, digits)
    ensures Spells(text, others)
  {
  }

  lemma EncodeWhole(input: seq<nat>, output: string, value: nat)
    requires Encoding(AllBits(input, 8), output, 0, value)
    ensures Spells(output, EncodeDigits(input))
  {
    WholeDigits(input, 5 * |output|);
    SpellsSame(output, Groups(AllBits(input, 8)[..5 * |output|], 5), EncodeDigits(input));
  }

  /** Otherwise it is complete but for the digit that holds the pending bits. */
  lemma EncodePadded(input: seq<nat>, output: string, bits: nat, value: nat)
    requires Encoding(AllBits(input, 8), output, bits, value) && 0 < bits < 5
    ensures var last := value * Pow2(5 - bits) % WORD % 32;
            last < 32 && Spells(output + [Letter(last)], EncodeDigits(input))
  {
    DigitsPadded(input, 5 - bits);
    EncodeLast(AllBits(input, 8), output, bits, value);
  }

  /** A buffer's bytes, most significant bit first, cut into groups of five. */
  method EncodeBase32(input: seq<nat>) returns (output: string)
    requires Below(input, 8)
    ensures Below(EncodeDigits(input), 5) && output == TextOf(EncodeDigits(input))
    ensures |output| == (8 * |input| + 4) / 5
  {
    var bits: nat, value: nat := 0, 0;
    output := "";
    for i := 0 to |input|
      invariant Encoding(AllBits(input[..i], 8), output, bits, value) && bits < 5
    {
      assert input[..i + 1][..i] == input[..i];
      EncodeMore(AllBits(input[..i], 8), output, bits, value, 8, input[i]);
      value := ShiftIn(value, 8, input[i]);
      bits := bits + 8;
      output, bits := EmitDigits(AllBits(input[..i + 1], 8), output, bits, value);
    }
    assert input[..|input|] == input;
    if bits == 0 {
      EncodeWhole(input, output, value);
    } else {
      EncodePadded(input, output, bits, value);
      AlphabetLetters();
      output := output + [ALPHABET[value * Pow2(5 - bits) % WORD % 32]];
    }
    SpelledIsText(output, EncodeDigits(input));
    DigitsRoundTrip(input);
  }

  // ----- decoding -----

  /** Every character outside the alphabet dropped. */
  function Clean(text: string): (r: string)
    ensures forall i :: 0 <= i < |r| ==> IsLetter(r[i])
  {
    if text == "" then ""
    else Clean(text[..|text| - 1]) + (if IsLetter(text[|text| - 1]) then [text[|text| - 1]] else [])
  }

  function DigitsOf(clean: string): (digits: seq<nat>)
    requires forall i :: 0 <= i < |clean| ==> IsLetter(clean[i])
    ensures |digits| == |clean|
    ensures forall i :: 0 <= i < |digits| ==> digits[i] < 32
  {
    seq(|clean|, i requires 0 <= i < |clean| => DigitOf(clean[i]))
  }

  /** `upper` stands for the language's own upper-casing, of which only this is needed: that it leaves the
      letters of the alphabet alone. */
  ghost predicate KeepsLetters(upper: string -> string) {
    forall text :: (forall i :: 0 <= i < |text| ==> IsLetter(text[i])) ==> upper(text) == text
  }

  function DecodeText(text: string, upper: string -> string): seq<nat> {
    DecodeDigits(DigitsOf(Clean(upper(text))))
  }

  /** The bytes so far are the complete groups of the stream before the pending bits. */
  ghost predicate Decoding(stream: Bits, bytes: seq<nat>, bits: nat, value: nat) {
    && Pending(stream, 8 * |bytes|, bits, value)
    && bytes == Groups(stream[..8 * |bytes|], 8)
  }

  lemma DecodeMore(stream: Bits, bytes: seq<nat>, bits: nat, value: nat, d: nat)
    requires Decoding(stream, bytes, bits, value) && d < 32 && bits < 8
    ensures Decoding(stream + BitsOf(d, 5), bytes, bits + 5, ShiftIn(value, 5, d))
  {
    FivePower();
    PushBits(stream, 8 * |bytes|, bits, value, 5, d);
    assert (stream + BitsOf(d, 5))[..8 * |bytes|] == stream[..8 * |bytes|];
  }

  lemma DecodeOne(stream: Bits, bytes: seq<nat>, bits: nat, value: nat)
    requires Decoding(stream, bytes, bits, value) && bits >= 8
    ensures Decoding(stream, bytes + [Extract(value, bits - 8, 8)], bits - 8, value)
  {
    TakeBits(stream, 8 * |bytes|, bits, value, 8);
    GroupsGrow(stream, 8, |bytes|);
  }

  /** One turn of the loop takes one more digit. */
  lemma DecodeTurn(digits: seq<nat>, i: nat, bytes: seq<nat>, bits: nat, value: nat)
    requires i < |digits| && digits[i] < 32 && bits < 8 && Decoding(AllBits(digits[..i], 5), bytes, bits, value)
    ensures Decoding(AllBits(digits[..i + 1], 5), bytes, bits + 5, ShiftIn(value, 5, digits[i]))
  {
    assert digits[..i + 1][..i] == digits[..i];
    DecodeMore(AllBits(digits[..i], 5), bytes, bits, value, digits[i]);
  }

  /** At the end the bytes are the complete groups of the whole stream. */
  lemma DecodeEnd(digits: seq<nat>, bytes: seq<nat>, bits: nat)
    requires 8 * |bytes| + bits == 5 * |digits| && bits < 8
    requires bytes == Groups(AllBits(digits, 5)[..8 * |bytes|], 8)
    ensures bytes == DecodeDigits(digits)
    ensures Below(bytes, 8) && |bytes| == 5 * |digits| / 8
  {
    GroupsComplete(AllBits(digits, 5), |bytes|);
    GroupsShape(AllBits(digits, 5), 8);
  }

  /** Fewer than eight bits at the end make no further group. */
  lemma GroupsComplete(stream: Bits, k: nat)
    requires 8 * k <= |stream| < 8 * k + 8
    ensures Groups(stream, 8) == Groups(stream[..8 * k], 8)
  {
    var rest := stream[8 * k..];
    assert stream == stream[..8 * k] + rest;
    GroupsAppend(stream[..8 * k], rest, 8, k);
    assert Groups(rest, 8) == [];
  }

  /** Emits a byte if eight bits are pending. */
  method TakeByte(ghost stream: Bits, bytes: seq<nat>, bits: nat, value: nat) returns (bytes': seq<nat>, bits': nat)
    requires Decoding(stream, bytes, bits, value) && bits < 16
    ensures Decoding(stream, bytes', bits', value) && bits' < 8
  {
    if bits < 8 {
      return bytes, bits;
    }
    DecodeOne(stream, bytes, bits, value);
    return bytes + [Extract(value, bits - 8, 8)], bits - 8;
  }

  /** Every character of the cleaned text is in the alphabet, so the lookup always succeeds. */
  method DecodeBase32(input: string, upper: string -> string) returns (bytes: seq<nat>)
    ensures bytes == DecodeText(input, upper)
    ensures Below(bytes, 8) && |bytes| == 5 * |Clean(upper(input))| / 8
  {
    var clean := Clean(upper(input));
    ghost var digits := DigitsOf(clean);
    var bits: nat, value: nat := 0, 0;
    bytes := [];
    for i := 0 to |clean|
      invariant Decoding(AllBits(digits[..i], 5), bytes, bits, value) && bits < 8
    {
      DecodeTurn(digits, i, bytes, bits, value);
      value := ShiftIn(value, 5, DigitOf(clean[i]));
      bits := bits + 5;
      bytes, bits := TakeByte(AllBits(digits[..i + 1], 5), bytes, bits, value);
    }
    assert digits[..|clean|] == digits;
    DecodeEnd(digits, bytes, bits);
  }

  // ----- the round trips -----

  /** Cleaning keeps the letters of the alphabet, in their order, and drops every other character. */
  lemma {:induction false} CleanMeans(a: string, b: string)
    ensures Clean(a + b) == Clean(a) + Clean(b)
    ensures forall c :: Clean([c]) == if c in ALPHABET then [c] else ""
  {
    AlphabetLetters();
    forall c: char
      ensures Clean([c]) == if c in ALPHABET then [c] else ""
    {
      assert [c][..0] == "" && Clean("") == "";
      if IsLetter(c) {
        assert ALPHABET[DigitOf(c)] == c;
      } else if c in ALPHABET {
        var d :| 0 <= d < 32 && ALPHABET[d] == c;
        LettersDistinct(d, d);
      }
    }
    CleanJoins(a, b);
  }

  lemma {:induction false} CleanJoins(a: string, b: string)
    ensures Clean(a + b) == Clean(a) + Clean(b)
  {
    if b == "" {
      assert a + b == a;
    } else {
      var init := b[..|b| - 1];
      CleanJoins(a, init);
      assert (a + b)[..|a + b| - 1] == a + init;
    }
  }

  lemma {:induction false} CleanOfClean(text: string)
    requires forall i :: 0 <= i < |text| ==> IsLetter(text[i])
    ensures Clean(text) == text
  {
    if text != "" {
      assert IsLetter(text[|text| - 1]);
      CleanOfClean(text[..|text| - 1]);
    }
  }

  lemma TextIsClean(digits: seq<nat>)
    requires Below(digits, 5)
    ensures forall i :: 0 <= i < |TextOf(digits)| ==> IsLetter(TextOf(digits)[i])
    ensures Clean(TextOf(digits)) == TextOf(digits)
    ensures DigitsOf(Clean(TextOf(digits))) == digits
  {
    FivePower();
    var text := TextOf(digits);
    forall i | 0 <= i < |text|
      ensures IsLetter(text[i]) && DigitOf(text[i]) == digits[i]
    {
      LettersDistinct(digits[i], digits[i]);
    }
    CleanOfClean(text);
  }

  /** Decoding the encoding of any bytes gives the bytes back. */
  lemma RoundTrip(bytes: seq<nat>, upper: string -> string)
    requires Below(bytes, 8) && KeepsLetters(upper)
    ensures Below(EncodeDigits(bytes), 5)
    ensures DecodeText(TextOf(EncodeDigits(bytes)), upper) == bytes
  {
    DigitsRoundTrip(bytes);
    TextIsClean(EncodeDigits(bytes));
    assert upper(TextOf(EncodeDigits(bytes))) == TextOf(EncodeDigits(bytes));
  }

  lemma DigitsBelow(text: string)
    requires forall i :: 0 <= i < |text| ==> IsLetter(text[i])
    ensures Below(DigitsOf(text), 5) && TextOf(DigitsOf(text)) == text
  {
    FivePower();
  }

  /** Encoding what was decoded gives the cleaned text back exactly when the text's left-over bits are
      fewer than five and all zero: any other text is an alternative spelling of the same bytes. */
  lemma CanonicalText(text: string, upper: string -> string)
    ensures Below(EncodeDigits(DecodeText(text, upper)), 5)
    ensures TextOf(EncodeDigits(DecodeText(text, upper))) == Clean(upper(text))
       <==> WholeEncoding(DigitsOf(Clean(upper(text))))
  {
    var clean := Clean(upper(text));
    var digits := DigitsOf(clean);
    DigitsBelow(clean);
    GroupsShape(AllBits(digits, 5), 8);
    DigitsRoundTrip(DecodeText(text, upper));
    EncodeDecode(digits);
    var again := EncodeDigits(DecodeText(text, upper));
    if TextOf(again) == clean {
      TextIsClean(again);
    }
  }
}
