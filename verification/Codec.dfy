/** The key codec of artmap: fixed-width big-endian words, after a sign-bit flip or a flip of all bits. */
module Codec {
  import opened Bytes
  import opened Bits

  // ---------- Big-endian words ----------

  /** 256 to the power of `width`: the number of words of that many bytes */
  function Words(width: nat): (n: nat)
    ensures n >= 1
  {
    if width == 0 then 1 else 256 * Words(width - 1)
  }

  /** The most significant byte first */
  function BigEndian(x: nat, width: nat): (bs: Key)
    requires x < Words(width)
    ensures |bs| == width
  {
    if width == 0 then [] else BigEndian(x / 256, width - 1) + [x % 256]
  }

  function FromBigEndian(bs: Key): (x: nat)
    ensures x < Words(|bs|)
  {
    if bs == [] then 0 else
      var last := |bs| - 1;
      256 * FromBigEndian(bs[..last]) + bs[last]
  }

  lemma {:induction false} WordRoundTrip(x: nat, width: nat)
    requires x < Words(width)
    ensures FromBigEndian(BigEndian(x, width)) == x
  {
    if width > 0 {
      WordRoundTrip(x / 256, width - 1);
      assert BigEndian(x, width)[..width - 1] == BigEndian(x / 256, width - 1);
    }
  }

  lemma {:induction false} BytesRoundTrip(bs: Key)
    ensures BigEndian(FromBigEndian(bs), |bs|) == bs
  {
    if bs != [] {
      var last := |bs| - 1;
      BytesRoundTrip(bs[..last]);
      Recombined(FromBigEndian(bs[..last]), bs[last]);
    }
  }

  lemma Recombined(high: nat, low: byte)
    ensures (256 * high + low) / 256 == high && (256 * high + low) % 256 == low
  {
  }

  lemma SplitWord(x: nat, width: nat) returns (high: nat, low: byte)
    requires 0 < width && x < Words(width)
    ensures x == 256 * high + low && high < Words(width - 1)
    ensures BigEndian(x, width) == BigEndian(high, width - 1) + [low]
  {
    high, low := x / 256, x % 256;
  }

  /** Among words of one width, byte order is numeric order. */
  lemma {:induction false} WordOrder(x: nat, y: nat, width: nat)
    requires x < Words(width) && y < Words(width)
    ensures Less(BigEndian(x, width), BigEndian(y, width)) <==> x < y
  {
    if width > 0 {
      var xh, xl := SplitWord(x, width);
      var yh, yl := SplitWord(y, width);
      hide BigEndian, Words, Less;
      WordOrder(xh, yh, width - 1);
      WordRoundTrip(xh, width - 1);
      WordRoundTrip(yh, width - 1);
      LessAtLastByte(BigEndian(xh, width - 1), BigEndian(yh, width - 1), xl, yl);
      HighByteFirst(xh, xl, yh, yl);
    }
  }

  lemma HighByteFirst(xh: nat, xl: byte, yh: nat, yl: byte)
    ensures 256 * xh + xl < 256 * yh + yl <==> xh < yh || (xh == yh && xl < yl)
  {
  }

  lemma {:induction false} LessAtLastByte(p: Key, q: Key, b: byte, c: byte)
    requires |p| == |q|
    ensures Less(p + [b], q + [c]) <==> Less(p, q) || (p == q && b < c)
  {
    if p == [] {
      assert p + [b] == [b] && q + [c] == [c];
      assert [b][1..] == [] && [c][1..] == [];
    } else {
      LessAtLastByte(p[1..], q[1..], b, c);
      assert (p + [b])[1..] == p[1..] + [b] && (q + [c])[1..] == q[1..] + [c];
      assert p == [p[0]] + p[1..] && q == [q[0]] + q[1..];
    }
  }

  // ---------- Kinds of key ----------

  datatype KeyKind =
    | KindString
    | KindUint8 | KindUint16 | KindUint32 | KindUint64
    | KindInt8 | KindInt16 | KindInt32 | KindInt64
    | KindFloat32 | KindFloat64
  {
    function Width(): nat {
      match this
      case KindString => 0
      case KindUint8 | KindInt8 => 1
      case KindUint16 | KindInt16 => 2
      case KindUint32 | KindInt32 | KindFloat32 => 4
      case KindUint64 | KindInt64 | KindFloat64 => 8
    }

    predicate Signed() {
      KindInt8? || KindInt16? || KindInt32? || KindInt64?
    }

    predicate Float() {
      KindFloat32? || KindFloat64?
    }
  }

  /** A key as it lies in memory: the bytes of a string, or the bit pattern of a word. */
  datatype Item = Text(bytes: Key) | Word(bits: nat)

  predicate OfKind(kind: KeyKind, k: Item) {
    if kind.KindString? then k.Text? else k.Word? && k.bits < Words(kind.Width())
  }

  /** The weight of a word's sign bit */
  function SignBit(kind: KeyKind): (top: nat)
    ensures !kind.KindString? ==> 2 * top == Words(kind.Width())
  {
    assert Words(2) == 0x1_0000;
    assert Words(4) == 0x1_0000_0000;
    assert Words(6) == 0x1_0000_0000_0000;
    assert Words(8) == 0x1_0000_0000_0000_0000;
    match kind
    case KindString => 0
    case KindUint8 | KindInt8 => 0x80
    case KindUint16 | KindInt16 => 0x8000
    case KindUint32 | KindInt32 | KindFloat32 => 0x8000_0000
    case KindUint64 | KindInt64 | KindFloat64 => 0x8000_0000_0000_0000
  }

  predicate Negative(kind: KeyKind, bits: nat) {
    bits >= SignBit(kind)
  }

  /** `bits ^ sign`, on a word of the kind's width */
  function FlipSign(kind: KeyKind, bits: nat): (r: nat)
    requires !kind.KindString? && bits < Words(kind.Width())
    ensures r < Words(kind.Width())
  {
    if Negative(kind, bits) then bits - SignBit(kind) else bits + SignBit(kind)
  }

  /** `^bits`, on a word of the kind's width */
  function FlipAll(kind: KeyKind, bits: nat): (r: nat)
    requires !kind.KindString? && bits < Words(kind.Width())
    ensures r < Words(kind.Width())
  {
    Words(kind.Width()) - 1 - bits
  }

  /** The word that is written for a key's bit pattern */
  function Scramble(kind: KeyKind, bits: nat): (r: nat)
    requires !kind.KindString? && bits < Words(kind.Width())
    ensures r < Words(kind.Width())
  {
    if kind.Signed() then FlipSign(kind, bits)
    else if kind.Float() then (if Negative(kind, bits) then FlipAll(kind, bits) else FlipSign(kind, bits))
    else bits
  }

  /** The bit pattern that is recovered from a word */
  function Unscramble(kind: KeyKind, word: nat): (r: nat)
    requires !kind.KindString? && word < Words(kind.Width())
    ensures r < Words(kind.Width())
  {
    if kind.Signed() then FlipSign(kind, word)
    else if kind.Float() then (if Negative(kind, word) then FlipSign(kind, word) else FlipAll(kind, word))
    else word
  }

  function Encode(kind: KeyKind, k: Item): Key
    requires OfKind(kind, k)
  {
    if kind.KindString? then k.bytes else BigEndian(Scramble(kind, k.bits), kind.Width())
  }

  /** Which byte strings a decoder is given: anything for strings, else one word. */
  predicate Encoded(kind: KeyKind, bs: Key) {
    kind.KindString? || |bs| == kind.Width()
  }

  function Decode(kind: KeyKind, bs: Key): (k: Item)
    requires Encoded(kind, bs)
  {
    if kind.KindString? then Text(bs) else Word(Unscramble(kind, FromBigEndian(bs)))
  }

  /** Decoding inverts encoding, on every key of every kind. */
  lemma DecodeEncode(kind: KeyKind, k: Item)
    requires OfKind(kind, k)
    ensures Encoded(kind, Encode(kind, k)) && Decode(kind, Encode(kind, k)) == k
  {
    if !kind.KindString? {
      WordRoundTrip(Scramble(kind, k.bits), kind.Width());
      ScrambleRoundTrip(kind, k.bits);
    }
  }

  lemma ScrambleRoundTrip(kind: KeyKind, bits: nat)
    requires !kind.KindString? && bits < Words(kind.Width())
    ensures Unscramble(kind, Scramble(kind, bits)) == bits && Scramble(kind, Unscramble(kind, bits)) == bits
  {
  }

  /** Every byte string of the right length is the encoding of a key: of the one it decodes to. */
  lemma EncodeDecode(kind: KeyKind, bs: Key)
    requires Encoded(kind, bs)
    ensures OfKind(kind, Decode(kind, bs)) && Encode(kind, Decode(kind, bs)) == bs
  {
    if !kind.KindString? {
      BytesRoundTrip(bs);
      ScrambleRoundTrip(kind, FromBigEndian(bs));
    }
  }

  lemma {:induction false} WordsInBits(width: nat)
    ensures Words(width) == Power2(8 * width)
  {
    if width > 0 {
      WordsInBits(width - 1);
      EightMore(8 * width - 8);
    }
  }

  lemma EightMore(n: nat)
    ensures Power2(n + 8) == 256 * Power2(n)
  {
    assert Power2(n + 2) == 4 * Power2(n);
    assert Power2(n + 4) == 4 * Power2(n + 2);
    assert Power2(n + 6) == 4 * Power2(n + 4);
  }

  /** What the code computes with `^` and `&` on a word of the kind's width is what these functions say. */
  lemma WordOperators(kind: KeyKind, bits: nat)
    requires !kind.KindString? && bits < Words(kind.Width())
    ensures Xor(bits, SignBit(kind), 8 * kind.Width()) == FlipSign(kind, bits)
    ensures Xor(bits, Words(kind.Width()) - 1, 8 * kind.Width()) == FlipAll(kind, bits)
    ensures And(bits, SignBit(kind), 8 * kind.Width()) != 0 <==> Negative(kind, bits)
  {
    var width := 8 * kind.Width();
    hide Xor, And;
    WordsInBits(kind.Width());
    hide Words;
    assert Power2(width) == 2 * Power2(width - 1);
    hide Power2, SignBit;
    TopBit(bits, width);
    AllOnes(bits, width);
  }

  /** `binary.BigEndian.PutUint16` and its wider siblings */
  method PutWord(buf: array<byte>, word: nat, width: nat)
    requires width <= buf.Length && word < Words(width)
    modifies buf
    ensures buf[..width] == BigEndian(word, width)
    ensures forall i | width <= i < buf.Length :: buf[i] == old(buf[i])
  {
    hide Words, BigEndian;
    var rest: nat, i: nat := word, width;
    while i > 0
      invariant 0 <= i <= width && rest < Words(i)
      invariant BigEndian(word, width) == BigEndian(rest, i) + buf[i..width]
      invariant forall j | width <= j < buf.Length :: buf[j] == old(buf[j])
    {
      ghost var high, low := SplitWord(rest, i);
      ghost var after := buf[i..width];
      i := i - 1;
      buf[i] := rest % 256;
      rest := rest / 256;
      assert rest == high && buf[i] == low;
      assert buf[i..width] == [low] + after;
    }
    NoBytes(rest);
    assert buf[..width] == buf[0..width];
  }

  lemma NoBytes(x: nat)
    requires x < Words(0)
    ensures BigEndian(x, 0) == []
  {
  }

  /** `encode`: the bytes are written to `buf`, except those of a string, which get storage of their own. */
  method EncodeKey(kind: KeyKind, k: Item, buf: array<byte>) returns (bs: Key)
    requires OfKind(kind, k) && buf.Length >= 8
    modifies buf
    ensures bs == Encode(kind, k)
    ensures !kind.KindString? ==> buf[..kind.Width()] == bs
    ensures kind.KindString? ==> buf[..] == old(buf[..])
  {
    hide Words, BigEndian, Xor, And, SignBit;
    if kind.KindString? { return k.bytes; }
    var bits, width, sign := k.bits, 8 * kind.Width(), SignBit(kind);
    WordOperators(kind, bits);
    if kind.Signed() {
      bits := Xor(bits, sign, width);
    } else if kind.Float() {
      if And(bits, sign, width) != 0 {
        bits := Xor(bits, Words(kind.Width()) - 1, width);
      } else {
        bits := Xor(bits, sign, width);
      }
    }
    PutWord(buf, bits, kind.Width());
    bs := buf[..kind.Width()];
  }

  // ---------- The order of keys ----------

  /** The number a signed word denotes, in two's complement */
  function SignedValue(kind: KeyKind, bits: nat): int {
    if Negative(kind, bits) then bits - 2 * SignBit(kind) else bits
  }

  // ---------- Binary interchange formats (IEEE 754-2019, section 3.4) ----------

  /** 2 to the power of the number of trailing significand bits */
  function Span(kind: KeyKind): (n: nat)
    ensures n > 0 && n % 2 == 0
  {
    if kind.KindFloat32? then 0x80_0000 else 0x10_0000_0000_0000
  }

  /** The biased exponent of infinities and NaNs: all ones */
  function TopExponent(kind: KeyKind): (n: nat)
    ensures n > 0 && (kind.Float() ==> SignBit(kind) == Span(kind) * (n + 1))
  {
    if kind.KindFloat32? then 255 else 2047
  }

  /** Exponent and trailing significand together: the pattern without its sign bit */
  function Magnitude(kind: KeyKind, bits: nat): nat {
    if Negative(kind, bits) then bits - SignBit(kind) else bits
  }

  function Exponent(kind: KeyKind, bits: nat): nat {
    Magnitude(kind, bits) / Span(kind)
  }

  function Significand(kind: KeyKind, bits: nat): nat {
    Magnitude(kind, bits) % Span(kind)
  }

  predicate IsNaN(kind: KeyKind, bits: nat) {
    Exponent(kind, bits) == TopExponent(kind) && Significand(kind, bits) != 0
  }

  predicate IsZero(kind: KeyKind, bits: nat) {
    Magnitude(kind, bits) == 0
  }

  /** `n` times 2 to the power of `places` */
  function Shifted(n: nat, places: nat): nat {
    if places == 0 then n else 2 * Shifted(n, places - 1)
  }

  /** What a pattern other than a NaN denotes; finite numbers in units of the least positive one. */
  datatype Extended = NegInf | Finite(n: int) | PosInf {
    function Opposite(): Extended {
      match this
      case NegInf => PosInf
      case Finite(n) => Finite(-n)
      case PosInf => NegInf
    }
  }

  predicate Smaller(a: Extended, b: Extended) {
    match a
    case NegInf => b != NegInf
    case Finite(m) => b == PosInf || (b.Finite? && m < b.n)
    case PosInf => false
  }

  /** The absolute value: subnormal numbers have no implicit leading bit. */
  function Absolute(kind: KeyKind, exponent: nat, significand: nat): Extended {
    if exponent >= TopExponent(kind) then PosInf
    else if exponent == 0 then Finite(significand)
    else Finite(Shifted(Span(kind) + significand, exponent - 1))
  }

  function AbsoluteOf(kind: KeyKind, bits: nat): Extended {
    Absolute(kind, Exponent(kind, bits), Significand(kind, bits))
  }

  function Denotes(kind: KeyKind, bits: nat): Extended {
    if Negative(kind, bits) then AbsoluteOf(kind, bits).Opposite() else AbsoluteOf(kind, bits)
  }

  /** The signalling NaNs are those whose first significand bit is 0. */
  predicate Signalling(kind: KeyKind, bits: nat) {
    Significand(kind, bits) < Span(kind) / 2
  }

  function Payload(kind: KeyKind, bits: nat): nat {
    Significand(kind, bits) % (Span(kind) / 2)
  }

  /** totalOrder of IEEE 754-2019, section 5.10, on bit patterns of one binary format */
  predicate TotalOrder(kind: KeyKind, a: nat, b: nat) {
    if IsNaN(kind, a) && IsNaN(kind, b) then
      if Negative(kind, a) != Negative(kind, b) then Negative(kind, a)
      else if Signalling(kind, a) != Signalling(kind, b) then Signalling(kind, a) != Negative(kind, a)
      else if Negative(kind, a) then Payload(kind, a) >= Payload(kind, b)
      else Payload(kind, a) <= Payload(kind, b)
    else if IsNaN(kind, a) then Negative(kind, a)
    else if IsNaN(kind, b) then !Negative(kind, b)
    else if Denotes(kind, a) == Denotes(kind, b) then Negative(kind, a) || !Negative(kind, b)
    else Smaller(Denotes(kind, a), Denotes(kind, b))
  }

  // ---------- Byte order of floats ----------

  lemma {:induction false} ShiftedMonotone(m: nat, n: nat, places: nat)
    requires m < n
    ensures Shifted(m, places) < Shifted(n, places)
  {
    if places > 0 { ShiftedMonotone(m, n, places - 1); }
  }

  lemma {:induction false} ShiftedFurther(n: nat, p: nat, q: nat)
    requires p <= q
    ensures Shifted(n, p) <= Shifted(n, q)
    decreases q
  {
    if p < q { ShiftedFurther(n, p, q - 1); }
  }

  lemma {:induction false} ShiftedTwice(n: nat, p: nat)
    ensures Shifted(2 * n, p) == Shifted(n, p + 1)
  {
    if p > 0 { ShiftedTwice(n, p - 1); }
  }

  /** Absolute values grow with the exponent, and with the significand where exponents are equal. */
  lemma AbsoluteMonotone(kind: KeyKind, d: nat, f: nat, e: nat, g: nat)
    requires f < Span(kind) && g < Span(kind) && d <= e <= TopExponent(kind)
    requires d == e ==> d < TopExponent(kind) && f < g
    ensures Smaller(Absolute(kind, d, f), Absolute(kind, e, g))
  {
    var span := Span(kind);
    if e < TopExponent(kind) {
      if d == e {
        if d > 0 { ShiftedMonotone(span + f, span + g, d - 1); }
      } else {
        if g > 0 { ShiftedMonotone(span, span + g, e - 1); }
        if d == 0 {
          ShiftedFurther(span, 0, e - 1);
        } else {
          ShiftedMonotone(span + f, 2 * span, d - 1);
          ShiftedTwice(span, d - 1);
          ShiftedFurther(span, d, e - 1);
        }
      }
    }
  }

  /** A float's bit pattern, of the right width */
  predicate Pattern(kind: KeyKind, bits: nat) {
    kind.Float() && bits < Words(kind.Width())
  }

  lemma PatternParts(kind: KeyKind, bits: nat)
    requires Pattern(kind, bits)
    ensures Magnitude(kind, bits) < SignBit(kind)
    ensures Exponent(kind, bits) <= TopExponent(kind) && Significand(kind, bits) < Span(kind)
    ensures Magnitude(kind, bits) == Exponent(kind, bits) * Span(kind) + Significand(kind, bits)
    ensures Scramble(kind, bits) == if Negative(kind, bits) then SignBit(kind) - 1 - Magnitude(kind, bits)
                                    else SignBit(kind) + Magnitude(kind, bits)
  {
    var m, span := Magnitude(kind, bits), Span(kind);
    assert m == (m / span) * span + m % span;
    if kind.KindFloat32? { assert span == 0x80_0000; } else { assert span == 0x10_0000_0000_0000; }
  }

  /** Equal halves, equal whole; and the high half decides first. */
  lemma HighPartFirst(d: nat, f: nat, e: nat, g: nat, span: nat)
    requires f < span && g < span
    ensures d * span + f < e * span + g <==> d < e || (d == e && f < g)
  {
    if d < e {
      assert (d + 1) * span <= e * span;
    } else if e < d {
      assert (e + 1) * span <= d * span;
    }
  }

  lemma MagnitudeOrder(kind: KeyKind, a: nat, b: nat)
    requires Pattern(kind, a) && Pattern(kind, b) && !IsNaN(kind, b)
    requires Magnitude(kind, a) < Magnitude(kind, b)
    ensures Smaller(AbsoluteOf(kind, a), AbsoluteOf(kind, b))
  {
    PatternParts(kind, a);
    PatternParts(kind, b);
    HighPartFirst(Exponent(kind, a), Significand(kind, a), Exponent(kind, b), Significand(kind, b), Span(kind));
    hide Exponent, Significand, Magnitude, Span, Absolute, TopExponent;
    AbsoluteMonotone(kind, Exponent(kind, a), Significand(kind, a), Exponent(kind, b), Significand(kind, b));
  }

  predicate NotBelowZero(x: Extended) {
    x.PosInf? || (x.Finite? && x.n >= 0)
  }

  lemma AbsoluteIsNotBelowZero(kind: KeyKind, bits: nat)
    requires Pattern(kind, bits)
    ensures NotBelowZero(AbsoluteOf(kind, bits)) && (AbsoluteOf(kind, bits) == Finite(0) <==> IsZero(kind, bits))
  {
    PatternParts(kind, bits);
    var e, f := Exponent(kind, bits), Significand(kind, bits);
    if 0 < e < TopExponent(kind) { ShiftedMonotone(0, Span(kind) + f, e - 1); }
  }

  lemma AbsoluteOrder(kind: KeyKind, a: nat, b: nat)
    requires Pattern(kind, a) && Pattern(kind, b) && !IsNaN(kind, a) && !IsNaN(kind, b)
    ensures Smaller(AbsoluteOf(kind, a), AbsoluteOf(kind, b)) <==> Magnitude(kind, a) < Magnitude(kind, b)
    ensures AbsoluteOf(kind, a) == AbsoluteOf(kind, b) <==> Magnitude(kind, a) == Magnitude(kind, b)
  {
    SameMagnitude(kind, a, b);
    hide AbsoluteOf, IsNaN, Magnitude, SignBit, Words;
    if Magnitude(kind, a) < Magnitude(kind, b) {
      MagnitudeOrder(kind, a, b);
    } else if Magnitude(kind, b) < Magnitude(kind, a) {
      MagnitudeOrder(kind, b, a);
    }
  }

  lemma SameMagnitude(kind: KeyKind, a: nat, b: nat)
    ensures Magnitude(kind, a) == Magnitude(kind, b) ==> AbsoluteOf(kind, a) == AbsoluteOf(kind, b)
    ensures a == b <==> Magnitude(kind, a) == Magnitude(kind, b) && Negative(kind, a) == Negative(kind, b)
  {
    hide Absolute;
  }

  /** Two numbers given by sign and absolute value */
  lemma BySign(x: Extended, y: Extended, minusX: bool, minusY: bool, a: Extended, b: Extended)
    requires NotBelowZero(x) && NotBelowZero(y)
    requires a == (if minusX then x.Opposite() else x) && b == (if minusY then y.Opposite() else y)
    ensures Smaller(a, b) <==> if minusX == minusY then (if minusX then Smaller(y, x) else Smaller(x, y))
                               else minusX && !(x == Finite(0) && y == Finite(0))
    ensures a == b <==> (x == y && (minusX == minusY || x == Finite(0)))
  {
    match x
    case PosInf => match y { case PosInf => case Finite(_) => }
    case Finite(m) => match y { case PosInf => case Finite(n) => }
  }

  /** Denoted values, compared by sign and magnitude */
  lemma DenotesOrder(kind: KeyKind, a: nat, b: nat)
    requires Pattern(kind, a) && Pattern(kind, b) && !IsNaN(kind, a) && !IsNaN(kind, b)
    ensures Smaller(Denotes(kind, a), Denotes(kind, b)) <==>
            if Negative(kind, a) == Negative(kind, b) then
              (if Negative(kind, a) then Magnitude(kind, b) < Magnitude(kind, a)
               else Magnitude(kind, a) < Magnitude(kind, b))
            else Negative(kind, a) && !(IsZero(kind, a) && IsZero(kind, b))
    ensures Denotes(kind, a) == Denotes(kind, b) <==> a == b || (IsZero(kind, a) && IsZero(kind, b))
  {
    AbsoluteIsNotBelowZero(kind, a);
    AbsoluteIsNotBelowZero(kind, b);
    AbsoluteOrder(kind, a, b);
    AbsoluteOrder(kind, b, a);
    SameMagnitude(kind, a, b);
    BySign(AbsoluteOf(kind, a), AbsoluteOf(kind, b), Negative(kind, a), Negative(kind, b),
           Denotes(kind, a), Denotes(kind, b));
    hide AbsoluteOf, IsNaN, Smaller, Negative, Magnitude, NotBelowZero, Pattern;
  }

  /** NaNs have the largest magnitudes. */
  lemma NaNMagnitude(kind: KeyKind, bits: nat)
    requires Pattern(kind, bits)
    ensures IsNaN(kind, bits) <==> Magnitude(kind, bits) > TopExponent(kind) * Span(kind)
  {
    PatternParts(kind, bits);
    HighPartFirst(TopExponent(kind), 0, Exponent(kind, bits), Significand(kind, bits), Span(kind));
  }

  lemma NaNOrder(kind: KeyKind, a: nat, b: nat)
    requires Pattern(kind, a) && Pattern(kind, b) && IsNaN(kind, a) && IsNaN(kind, b)
    ensures Magnitude(kind, a) <= Magnitude(kind, b) <==>
            if Signalling(kind, a) != Signalling(kind, b) then Signalling(kind, a)
            else Payload(kind, a) <= Payload(kind, b)
  {
    PatternParts(kind, a);
    PatternParts(kind, b);
    assert Exponent(kind, a) == Exponent(kind, b);
    assert Magnitude(kind, a) <= Magnitude(kind, b) <==> Significand(kind, a) <= Significand(kind, b);
    var half := Span(kind) / 2;
    ModHalf(Significand(kind, a), half);
    ModHalf(Significand(kind, b), half);
    hide IsNaN, Words, Negative, Scramble, Exponent, Significand, Magnitude, TopExponent, SignBit, Span;
  }

  lemma ModHalf(x: nat, half: nat)
    requires 0 < half && x < 2 * half
    ensures x % half == if x < half then x else x - half
  {
    if x >= half { assert x == half * 1 + (x - half); }
  }

  /** totalOrder, read off the encoded words */
  lemma ScrambledTotalOrder(kind: KeyKind, a: nat, b: nat)
    requires Pattern(kind, a) && Pattern(kind, b)
    ensures TotalOrder(kind, a, b) <==> Scramble(kind, a) <= Scramble(kind, b)
  {
    PatternParts(kind, a);
    PatternParts(kind, b);
    NaNMagnitude(kind, a);
    NaNMagnitude(kind, b);
    if IsNaN(kind, a) && IsNaN(kind, b) {
      NaNOrder(kind, a, b);
      NaNOrder(kind, b, a);
    } else if !IsNaN(kind, a) && !IsNaN(kind, b) {
      DenotesOrder(kind, a, b);
    }
  }

  // ---------- What the encoding preserves ----------

  /** The strict order of keys: of strings, of integers, and totalOrder of floats */
  predicate Before(kind: KeyKind, a: Item, b: Item) {
    OfKind(kind, a) && OfKind(kind, b) &&
    if kind.KindString? then Less(a.bytes, b.bytes)
    else if kind.Signed() then SignedValue(kind, a.bits) < SignedValue(kind, b.bits)
    else if kind.Float() then a != b && TotalOrder(kind, a.bits, b.bits)
    else a.bits < b.bits
  }

  lemma SignedOrder(kind: KeyKind, a: nat, b: nat)
    requires kind.Signed() && a < Words(kind.Width()) && b < Words(kind.Width())
    ensures SignedValue(kind, a) < SignedValue(kind, b) <==> Scramble(kind, a) < Scramble(kind, b)
  {
    hide Words, SignBit;
  }

  lemma StrictTotalOrder(kind: KeyKind, a: nat, b: nat)
    requires Pattern(kind, a) && Pattern(kind, b)
    ensures a != b && TotalOrder(kind, a, b) <==> Scramble(kind, a) < Scramble(kind, b)
  {
    ScrambledTotalOrder(kind, a, b);
    ScrambleRoundTrip(kind, a);
    ScrambleRoundTrip(kind, b);
    hide Scramble, TotalOrder;
  }

  /** Encoding is strictly monotone, for every kind of key. */
  lemma EncodeOrder(kind: KeyKind, a: Item, b: Item)
    requires OfKind(kind, a) && OfKind(kind, b)
    ensures Less(Encode(kind, a), Encode(kind, b)) <==> Before(kind, a, b)
  {
    if kind.KindString? { return; }
    WordOrder(Scramble(kind, a.bits), Scramble(kind, b.bits), kind.Width());
    hide Less, TotalOrder, BigEndian, SignedValue, Words;
    if kind.Signed() {
      SignedOrder(kind, a.bits, b.bits);
      hide Scramble;
    } else if kind.Float() {
      StrictTotalOrder(kind, a.bits, b.bits);
      hide Scramble;
    }
  }

  /** Encoding is injective. */
  lemma EncodeInjective(kind: KeyKind, a: Item, b: Item)
    requires OfKind(kind, a) && OfKind(kind, b) && Encode(kind, a) == Encode(kind, b)
    ensures a == b
  {
    DecodeEncode(kind, a);
    DecodeEncode(kind, b);
  }

  // ---------- The kinds, one by one ----------

  /** How many bytes a kind takes, and which words belong to it */
  lemma FixedWidth(kind: KeyKind, k: Item, bs: Key, width: nat, count: nat)
    requires ((kind == KindUint8 || kind == KindInt8) && width == 1 && count == 0x100) ||
             ((kind == KindUint16 || kind == KindInt16) && width == 2 && count == 0x1_0000) ||
             ((kind == KindUint32 || kind == KindInt32 || kind == KindFloat32) &&
              width == 4 && count == 0x1_0000_0000) ||
             ((kind == KindUint64 || kind == KindInt64 || kind == KindFloat64) &&
              width == 8 && count == 0x1_0000_0000_0000_0000)
    ensures OfKind(kind, k) <==> k.Word? && k.bits < count
    ensures OfKind(kind, k) ==> |Encode(kind, k)| == width
    ensures Encoded(kind, bs) <==> |bs| == width
  {
    assert Words(2) == 0x1_0000;
    assert Words(4) == 0x1_0000_0000;
    assert Words(6) == 0x1_0000_0000_0000;
    assert Words(8) == 0x1_0000_0000_0000_0000;
    hide BigEndian, Scramble;
  }

  /** A string is its own encoding, and strings are ordered byte by byte. */
  lemma Strings(k: Item, l: Item)
    ensures OfKind(KindString, k) <==> k.Text?
    ensures k.Text? ==> Encode(KindString, k) == k.bytes && Decode(KindString, k.bytes) == k
    ensures k.Text? && l.Text? ==> (Before(KindString, k, l) <==> Less(k.bytes, l.bytes))
  {
  }

  lemma Wrapped(i: int, count: int)
    requires -count <= i < count
    ensures i % count == if i < 0 then i + count else i
  {
    if i < 0 { assert i == count * -1 + (i + count); }
  }

  /** Go's integers, in two's complement when signed: their encodings are in the order of the numbers. */
  lemma IntegerOrder(kind: KeyKind, least: int, count: nat, i: int, j: int)
    requires (kind == KindUint8 && least == 0 && count == 0x100) ||
             (kind == KindUint16 && least == 0 && count == 0x1_0000) ||
             (kind == KindUint32 && least == 0 && count == 0x1_0000_0000) ||
             (kind == KindUint64 && least == 0 && count == 0x1_0000_0000_0000_0000) ||
             (kind == KindInt8 && least == -0x80 && count == 0x100) ||
             (kind == KindInt16 && least == -0x8000 && count == 0x1_0000) ||
             (kind == KindInt32 && least == -0x8000_0000 && count == 0x1_0000_0000) ||
             (kind == KindInt64 && least == -0x8000_0000_0000_0000 && count == 0x1_0000_0000_0000_0000)
    requires least <= i < least + count && least <= j < least + count
    ensures OfKind(kind, Word(i % count)) && OfKind(kind, Word(j % count))
    ensures Less(Encode(kind, Word(i % count)), Encode(kind, Word(j % count))) <==> i < j
    ensures Before(kind, Word(i % count), Word(j % count)) <==> i < j
  {
    hide Words, BigEndian, Encode, Less, Encoded, OfKind;
    FixedWidth(kind, Word(i % count), [], kind.Width(), count);
    FixedWidth(kind, Word(j % count), [], kind.Width(), count);
    EncodeOrder(kind, Word(i % count), Word(j % count));
    Wrapped(i, count);
    Wrapped(j, count);
  }

  lemma IsPattern(kind: KeyKind, bits: nat)
    requires (kind == KindFloat32 && bits < 0x1_0000_0000) || (kind == KindFloat64 && bits < 0x1_0000_0000_0000_0000)
    ensures Pattern(kind, bits) && OfKind(kind, Word(bits))
  {
    var count := if kind == KindFloat32 then 0x1_0000_0000 else 0x1_0000_0000_0000_0000;
    FixedWidth(kind, Word(bits), [], kind.Width(), count);
  }

  /** Floats are ordered as sign and magnitude: the negative ones first, and those by descending magnitude. */
  lemma SignMagnitudeOrder(kind: KeyKind, half: nat, a: nat, b: nat)
    requires (kind == KindFloat32 && half == 0x8000_0000) || (kind == KindFloat64 && half == 0x8000_0000_0000_0000)
    requires a < 2 * half && b < 2 * half
    ensures OfKind(kind, Word(a)) && OfKind(kind, Word(b))
    ensures Less(Encode(kind, Word(a)), Encode(kind, Word(b))) <==>
            if a < half then a < b < half else b < half || b < a
  {
    hide Words, BigEndian, Less;
    IsPattern(kind, a);
    IsPattern(kind, b);
    WordOrder(Scramble(kind, a), Scramble(kind, b), kind.Width());
    PatternParts(kind, a);
    PatternParts(kind, b);
  }

  lemma {:induction false} ShiftedIs(n: nat, places: nat)
    ensures Shifted(n, places) == n * Power2(places)
  {
    if places > 0 {
      ShiftedIs(n, places - 1);
      assert n * Power2(places) == n * (2 * Power2(places - 1)) == 2 * (n * Power2(places - 1));
    }
  }

  lemma DivMod(high: nat, span: nat, low: nat)
    requires low < span
    ensures (high * span + low) / span == high && (high * span + low) % span == low
  {
    var x := high * span + low;
    HighPartFirst(x / span, x % span, high, low, span);
    HighPartFirst(high, low, x / span, x % span, span);
  }

  lemma BinaryFields(kind: KeyKind, half: nat, top: nat, span: nat, bits: nat, sign: nat, e: nat, f: nat)
    requires (kind == KindFloat32 && half == 0x8000_0000 && top == 255 && span == 0x80_0000) ||
             (kind == KindFloat64 && half == 0x8000_0000_0000_0000 && top == 2047 && span == 0x10_0000_0000_0000)
    requires sign <= 1 && e <= top && f < span && bits == sign * half + e * span + f
    ensures Negative(kind, bits) <==> sign == 1
    ensures Exponent(kind, bits) == e && Significand(kind, bits) == f
    ensures Span(kind) == span && TopExponent(kind) == top
    ensures IsZero(kind, bits) <==> e == 0 && f == 0
  {
    DivMod(e, span, f);
    HighPartFirst(e, f, top + 1, 0, span);
    assert (top + 1) * span == half;
    assert Span(kind) == span && SignBit(kind) == half;
    hide SignBit, Span, Words;
    assert sign == 0 || sign == 1;
    assert Magnitude(kind, bits) == e * span + f;
  }

  /** binary32 and binary64: sign, biased exponent of 8 or 11 bits, trailing significand of 23 or 52 bits */
  lemma BinaryFormat(kind: KeyKind, half: nat, top: nat, span: nat, bits: nat, sign: nat, e: nat, f: nat)
    requires (kind == KindFloat32 && half == 0x8000_0000 && top == 255 && span == 0x80_0000) ||
             (kind == KindFloat64 && half == 0x8000_0000_0000_0000 && top == 2047 && span == 0x10_0000_0000_0000)
    requires sign <= 1 && e <= top && f < span && bits == sign * half + e * span + f
    ensures Negative(kind, bits) <==> sign == 1
    ensures IsNaN(kind, bits) <==> e == top && f != 0
    ensures IsZero(kind, bits) <==> e == 0 && f == 0
    ensures e == top && f == 0 ==> Denotes(kind, bits) == if sign == 1 then NegInf else PosInf
    ensures e < top ==>
              var m := if e == 0 then f else (span + f) * Power2(e - 1);
              Denotes(kind, bits) == Finite(if sign == 1 then -m else m)
    ensures Signalling(kind, bits) <==> f < span / 2
    ensures Payload(kind, bits) == f % (span / 2)
  {
    hide Shifted, Exponent, Significand, Negative, Magnitude, Span, TopExponent, IsZero, SignBit, Words, Power2;
    BinaryFields(kind, half, top, span, bits, sign, e, f);
    if e > 0 { ShiftedIs(span + f, e - 1); }
  }

  /** totalOrder is the order of the encodings, and the order in which keys are kept. */
  lemma TotalOrderIsWordOrder(kind: KeyKind, a: nat, b: nat)
    requires (kind == KindFloat32 && a < 0x1_0000_0000 && b < 0x1_0000_0000) ||
             (kind == KindFloat64 && a < 0x1_0000_0000_0000_0000 && b < 0x1_0000_0000_0000_0000)
    ensures OfKind(kind, Word(a)) && OfKind(kind, Word(b))
    ensures a != b && TotalOrder(kind, a, b) <==> Less(Encode(kind, Word(a)), Encode(kind, Word(b)))
    ensures a != b && TotalOrder(kind, a, b) <==> Before(kind, Word(a), Word(b))
  {
    hide Words, Encode, Less, Scramble, TotalOrder, Before;
    IsPattern(kind, a);
    IsPattern(kind, b);
    ScrambledTotalOrder(kind, a, b);
    EncodeOrder(kind, Word(a), Word(b));
    FloatBefore(kind, a, b);
  }

  lemma FloatBefore(kind: KeyKind, a: nat, b: nat)
    requires Pattern(kind, a) && Pattern(kind, b)
    ensures Before(kind, Word(a), Word(b)) <==> a != b && TotalOrder(kind, a, b)
  {
    hide TotalOrder;
  }

  /** Floats other than NaNs: the order of what they denote, with -0 just below +0. */
  lemma FloatOrder(kind: KeyKind, a: nat, b: nat)
    requires (kind == KindFloat32 && a < 0x1_0000_0000 && b < 0x1_0000_0000) ||
             (kind == KindFloat64 && a < 0x1_0000_0000_0000_0000 && b < 0x1_0000_0000_0000_0000)
    requires !IsNaN(kind, a) && !IsNaN(kind, b)
    ensures OfKind(kind, Word(a)) && OfKind(kind, Word(b))
    ensures Less(Encode(kind, Word(a)), Encode(kind, Word(b))) <==>
            Smaller(Denotes(kind, a), Denotes(kind, b)) ||
            (IsZero(kind, a) && IsZero(kind, b) && Negative(kind, a) && !Negative(kind, b))
  {
    IsPattern(kind, a);
    IsPattern(kind, b);
    WordOrder(Scramble(kind, a), Scramble(kind, b), kind.Width());
    PatternParts(kind, a);
    PatternParts(kind, b);
    DenotesOrder(kind, a, b);
    hide Less, BigEndian, IsNaN, Denotes, Smaller;
  }

  /** Nothing lies between -0 and +0. */
  lemma ZerosAreAdjacent(kind: KeyKind, minus: nat, other: nat)
    requires (kind == KindFloat32 && minus == 0x8000_0000) || (kind == KindFloat64 && minus == 0x8000_0000_0000_0000)
    requires other < 2 * minus
    ensures OfKind(kind, Word(minus)) && OfKind(kind, Word(0)) && OfKind(kind, Word(other))
    ensures Less(Encode(kind, Word(minus)), Encode(kind, Word(0)))
    ensures other != minus && other != 0 ==>
              (Less(Encode(kind, Word(other)), Encode(kind, Word(0))) <==>
               Less(Encode(kind, Word(other)), Encode(kind, Word(minus))))
  {
    hide Encode, Less, OfKind;
    SignMagnitudeOrder(kind, minus, minus, 0);
    SignMagnitudeOrder(kind, minus, other, 0);
    SignMagnitudeOrder(kind, minus, other, minus);
  }

  // ---------- cmp.Compare ----------

  datatype Ordering = LT | EQ | GT

  /** `bytes.Compare` */
  function CompareBytes(a: Key, b: Key): Ordering {
    if Less(a, b) then LT else if Less(b, a) then GT else EQ
  }

  /** Go's `cmp.Compare`: a NaN equals every NaN and is below every number; -0 equals +0. */
  function CmpCompare(kind: KeyKind, a: Item, b: Item): Ordering
    requires OfKind(kind, a) && OfKind(kind, b)
  {
    if kind.Float() then
      if IsNaN(kind, a.bits) then (if IsNaN(kind, b.bits) then EQ else LT)
      else if IsNaN(kind, b.bits) then GT
      else if Smaller(Denotes(kind, a.bits), Denotes(kind, b.bits)) then LT
      else if Smaller(Denotes(kind, b.bits), Denotes(kind, a.bits)) then GT
      else EQ
    else if Before(kind, a, b) then LT
    else if Before(kind, b, a) then GT
    else EQ
  }

  /** Two floats the encoding orders as `cmp.Compare` does; a caller can see it from the two bit patterns. */
  predicate ComparesAlike(kind: KeyKind, a: nat, b: nat) {
    if IsNaN(kind, a) && IsNaN(kind, b) then a == b
    else if IsNaN(kind, a) then Negative(kind, a)
    else if IsNaN(kind, b) then Negative(kind, b)
    else IsZero(kind, a) && IsZero(kind, b) ==> a == b
  }

  lemma FloatCompare(kind: KeyKind, a: nat, b: nat)
    requires Pattern(kind, a) && Pattern(kind, b)
    ensures CompareBytes(Encode(kind, Word(a)), Encode(kind, Word(b))) == CmpCompare(kind, Word(a), Word(b)) <==>
            ComparesAlike(kind, a, b)
  {
    WordOrder(Scramble(kind, a), Scramble(kind, b), kind.Width());
    WordOrder(Scramble(kind, b), Scramble(kind, a), kind.Width());
    PatternParts(kind, a);
    PatternParts(kind, b);
    NaNMagnitude(kind, a);
    NaNMagnitude(kind, b);
    hide Encode, Less, Scramble;
    if !IsNaN(kind, a) && !IsNaN(kind, b) {
      DenotesOrder(kind, a, b);
      DenotesOrder(kind, b, a);
    }
  }

  /** Byte order agrees with `cmp.Compare` on all strings and integers, and on exactly these pairs of floats. */
  lemma CompareAgreement(kind: KeyKind, a: Item, b: Item)
    requires OfKind(kind, a) && OfKind(kind, b)
    ensures CompareBytes(Encode(kind, a), Encode(kind, b)) == CmpCompare(kind, a, b) <==>
            (kind.Float() ==> ComparesAlike(kind, a.bits, b.bits))
  {
    if kind.Float() {
      FloatCompare(kind, a.bits, b.bits);
    } else {
      EncodeOrder(kind, a, b);
      EncodeOrder(kind, b, a);
    }
  }

  /** So the promise that the two always agree is false of floats: -0 and +0 compare equal, but not their bytes. */
  lemma ZerosCompareDifferently(kind: KeyKind, minus: nat)
    requires (kind == KindFloat32 && minus == 0x8000_0000) || (kind == KindFloat64 && minus == 0x8000_0000_0000_0000)
    ensures OfKind(kind, Word(minus)) && OfKind(kind, Word(0))
    ensures CompareBytes(Encode(kind, Word(minus)), Encode(kind, Word(0))) == LT
    ensures CmpCompare(kind, Word(minus), Word(0)) == EQ
  {
    hide Encode, Less, Absolute, Words;
    IsPattern(kind, minus);
    IsPattern(kind, 0);
    SignMagnitudeOrder(kind, minus, minus, 0);
    NaNMagnitude(kind, minus);
    NaNMagnitude(kind, 0);
    DenotesOrder(kind, minus, 0);
    DenotesOrder(kind, 0, minus);
    hide IsNaN, Denotes, Smaller;
  }

  /** And a NaN with a clear sign bit compares below 1, while its bytes come after. */
  lemma NaNComparesDifferently(kind: KeyKind, nan: nat, one: nat)
    requires (kind == KindFloat32 && nan == 0x7FC0_0000 && one == 0x3F80_0000) ||
             (kind == KindFloat64 && nan == 0x7FF8_0000_0000_0000 && one == 0x3FF0_0000_0000_0000)
    ensures OfKind(kind, Word(nan)) && OfKind(kind, Word(one))
    ensures CompareBytes(Encode(kind, Word(nan)), Encode(kind, Word(one))) == GT
    ensures CmpCompare(kind, Word(nan), Word(one)) == LT
  {
    var half := if kind == KindFloat32 then 0x8000_0000 else 0x8000_0000_0000_0000;
    hide Encode, Less, Denotes, Words;
    IsPattern(kind, nan);
    IsPattern(kind, one);
    SignMagnitudeOrder(kind, half, nan, one);
    SignMagnitudeOrder(kind, half, one, nan);
  }
}
