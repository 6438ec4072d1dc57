/** Numbers as bytes (util/coding.h, util/coding.cc). */
module Coding {
  import opened Common

  type Byte = bv8

  // ----- one byte -----

  /** The byte with the value n, a hexadecimal digit at a time. */
  function ByteOf(n: nat): Byte
    requires n < 256
  {
    Digits((n / 16) as bv4, (n % 16) as bv4)
  }

  function NumberOf(b: Byte): (n: nat)
    ensures n < 256
  {
    16 * (High(b) as nat) + (Low(b) as nat)
  }

  function Digits(high: bv4, low: bv4): Byte { ((high as Byte) << 4) | (low as Byte) }

  function High(b: Byte): bv4 { (b >> 4) as bv4 }

  function Low(b: Byte): bv4 { (b & 15) as bv4 }

  lemma DigitsSplit(high: bv4, low: bv4)
    ensures High(Digits(high, low)) == high && Low(Digits(high, low)) == low
  {}

  lemma DigitsJoin(b: Byte)
    ensures Digits(High(b), Low(b)) == b
  {}

  lemma DigitRoundTrip(n: nat)
    requires n < 16
    ensures (n as bv4) as nat == n
  {}

  lemma DigitBack(d: bv4)
    ensures d as nat < 16 && (d as nat) as bv4 == d
  {}

  lemma ByteRoundTrip(n: nat)
    requires n < 256
    ensures NumberOf(ByteOf(n)) == n
  {
    hide High, Low, Digits;
    DigitsSplit((n / 16) as bv4, (n % 16) as bv4);
    DigitRoundTrip(n / 16);
    DigitRoundTrip(n % 16);
  }

  lemma NumberBack(b: Byte)
    ensures ByteOf(NumberOf(b)) == b
  {
    hide High, Low, Digits;
    DigitsJoin(b);
    DigitBack(High(b));
    DigitBack(Low(b));
    var high, low := High(b) as nat, Low(b) as nat;
    assert (16 * high + low) / 16 == high && (16 * high + low) % 16 == low;
  }

  /** The number of a byte is its value. */
  lemma NumberIs(b: Byte)
    ensures NumberOf(b) == b as nat
  {
    var high, low := High(b), Low(b);
    assert b as nat == 16 * (high as nat) + low as nat;
  }

  // ----- fixed widths, low byte first -----

  function Power(base: nat, n: nat): (p: nat)
    requires base > 0
    ensures p > 0
  {
    if n == 0 then 1 else base * Power(base, n - 1)
  }

  /** v in n bytes: PutFixed32 for n = 4, PutFixed64 for n = 8. */
  function Fixed(n: nat, v: nat): (s: seq<Byte>)
    ensures |s| == n
  {
    if n == 0 then [] else [ByteOf(v % 256)] + Fixed(n - 1, v / 256)
  }

  function FixedValue(s: seq<Byte>): nat
    decreases |s|
  {
    if |s| == 0 then 0 else NumberOf(s[0]) + 256 * FixedValue(s[1..])
  }

  lemma {:induction false} FixedRoundTrip(n: nat, v: nat)
    requires v < Power(256, n)
    ensures FixedValue(Fixed(n, v)) == v
  {
    hide ByteOf, NumberOf;
    if n > 0 {
      var rest := Fixed(n - 1, v / 256);
      assert ([ByteOf(v % 256)] + rest)[1..] == rest;
      ByteRoundTrip(v % 256);
      FixedRoundTrip(n - 1, v / 256);
    }
  }

  /** Byte i holds the i-th digit to the base 256, the lowest first. */
  lemma {:induction false} FixedDigit(n: nat, v: nat, i: nat)
    requires i < n
    ensures NumberOf(Fixed(n, v)[i]) == v / Power(256, i) % 256
  {
    hide ByteOf, NumberOf;
    ByteRoundTrip(v % 256);
    if i > 0 {
      FixedDigit(n - 1, v / 256, i - 1);
      DivideTwice(v, 256, Power(256, i - 1));
    } else {
      assert Power(256, 0) == 1 && v / 1 == v;
    }
  }

  lemma DivideTwice(v: nat, a: nat, b: nat)
    requires a > 0 && b > 0
    ensures a * b > 0 && v / a / b == v / (a * b)
  {
    var q, r, m := v / a, v % a, a * b;
    var q', r' := q / b, q % b;
    DivMod(v, a);
    DivMod(q, b);
    Spread(a, b, q', r', r);
    Bounded(a, b, r', r);
    DivIs(v, m, q', a * r' + r);
  }

  lemma Spread(a: nat, b: nat, q: nat, r: nat, s: nat)
    ensures a * (b * q + r) + s == (a * b) * q + (a * r + s)
  {}

  lemma Bounded(a: nat, b: nat, r: nat, s: nat)
    requires r < b && s < a
    ensures 0 <= a * r + s < a * b
  {
    MulLe(r + 1, b, a);
    OneMoreTimes(a, r);
  }

  /** An array of fixed32 numbers. */
  function Fixed32s(ns: seq<nat>): (s: seq<Byte>)
    ensures |s| == 4 * |ns|
    decreases |ns|
  {
    if |ns| == 0 then [] else Fixed32s(ns[..|ns| - 1]) + Fixed(4, ns[|ns| - 1])
  }

  lemma {:induction false} Fixed32At(ns: seq<nat>, i: nat)
    requires i < |ns|
    ensures Fixed32s(ns)[4 * i..4 * i + 4] == Fixed(4, ns[i])
    decreases |ns|
  {
    hide Fixed;
    var init := ns[..|ns| - 1];
    if i < |init| {
      Fixed32At(init, i);
      assert Fixed32s(ns)[4 * i..4 * i + 4] == Fixed32s(init)[4 * i..4 * i + 4];
    }
  }

  lemma Power256()
    ensures Power(256, 4) == 0x1_0000_0000
  {
    assert Power(256, 1) == 256 && Power(256, 2) == 0x1_0000;
    assert Power(256, 3) == 0x100_0000;
  }

  // ----- variable widths: seven bits a byte, low bits first, the top bit set on all but the last -----

  function Varint(v: nat): (s: seq<Byte>)
    ensures |s| > 0
  {
    if v < 128 then [ByteOf(v)] else [ByteOf(v % 128 + 128)] + Varint(v / 128)
  }

  /** Byte i holds the i-th digit to the base 128, the lowest first, and says by its top bit whether more follow;
      there are no more bytes than it takes. */
  lemma {:induction false} VarintDigit(v: nat, i: nat)
    requires i < |Varint(v)|
    ensures NumberOf(Varint(v)[i]) == v / Power(128, i) % 128 + (if i + 1 < |Varint(v)| then 128 else 0)
    decreases v
  {
    hide ByteOf, NumberOf;
    ByteRoundTrip(if v < 128 then v else v % 128 + 128);
    if i > 0 {
      VarintDigit(v / 128, i - 1);
      DivideTwice(v, 128, Power(128, i - 1));
    } else {
      assert Power(128, 0) == 1 && v / 1 == v;
    }
  }

  lemma {:induction false} VarintShortest(v: nat)
    ensures v < Power(128, |Varint(v)|) && (|Varint(v)| > 1 ==> Power(128, |Varint(v)| - 1) <= v)
    decreases v
  {
    if v >= 128 {
      VarintShortest(v / 128);
      var n := |Varint(v / 128)|;
      assert |Varint(v)| == n + 1;
      Sevens(v, Power(128, n));
      if n > 1 {
        Sevens(v, Power(128, n - 1));
      } else {
        assert Power(128, 1) == 128;
      }
    } else {
      assert Power(128, 1) == 128;
    }
  }

  lemma Sevens(v: nat, p: nat)
    ensures v / 128 < p ==> v < 128 * p
    ensures p <= v / 128 ==> 128 * p <= v
  {}

  datatype Decoded = Malformed | Decoded(value: nat, next: nat)

  /** Reads on from offset p at the given shift with what was read so far; sums past the width are cut off. */
  function VarintFrom(s: seq<Byte>, p: nat, shift: nat, result: nat, width: nat): (r: Decoded)
    requires p <= |s|
    ensures r.Decoded? ==> p < r.next <= |s|
    decreases |s| - p
  {
    if shift >= width || p == |s| then Malformed
    else
      var byte := NumberOf(s[p]);
      if byte >= 128 then VarintFrom(s, p + 1, shift + 7, (result + (byte - 128) * Power(2, shift)) % Power(2, width), width)
      else Decoded((result + byte * Power(2, shift)) % Power(2, width), p + 1)
  }

  lemma {:induction false} VarintBounded(s: seq<Byte>, p: nat, shift: nat, result: nat, width: nat)
    requires p <= |s|
    ensures var r := VarintFrom(s, p, shift, result, width); r.Decoded? ==> r.value < Power(2, width)
    decreases |s| - p
  {
    hide NumberOf, Power;
    if shift < width && p < |s| {
      VarintStep(s, p, shift, result, width);
      var byte := NumberOf(s[p]);
      if byte >= 128 {
        VarintBounded(s, p + 1, shift + 7, (result + (byte - 128) * Power(2, shift)) % Power(2, width), width);
      }
    }
  }

  /** A number ends at the first byte whose top bit is clear, and is malformed exactly if there is none among
      those of the width. */
  lemma {:induction false} VarintEnds(s: seq<Byte>, p: nat, shift: nat, result: nat, width: nat)
    requires p <= |s|
    ensures var r := VarintFrom(s, p, shift, result, width);
      match r
      case Malformed => forall q | p <= q < |s| && shift + 7 * (q - p) < width :: NumberOf(s[q]) >= 128
      case Decoded(_, next) =>
        && shift + 7 * (next - 1 - p) < width && NumberOf(s[next - 1]) < 128
        && forall q | p <= q < next - 1 :: NumberOf(s[q]) >= 128
    decreases |s| - p
  {
    hide NumberOf, Power;
    if shift < width && p < |s| {
      VarintStep(s, p, shift, result, width);
      var byte := NumberOf(s[p]);
      if byte >= 128 {
        VarintEnds(s, p + 1, shift + 7, (result + (byte - 128) * Power(2, shift)) % Power(2, width), width);
      }
    }
  }

  lemma {:induction false} PowerGrows(m: nat, n: nat)
    requires Power(2, m) < Power(2, n)
    ensures m < n
    decreases m
  {
    if m > 0 && n > 0 {
      PowerGrows(m - 1, n - 1);
    }
  }

  lemma Power7(shift: nat)
    ensures Power(2, shift + 7) == 128 * Power(2, shift)
  {
    var p := Power(2, shift);
    assert Power(2, shift + 1) == 2 * p;
    assert Power(2, shift + 2) == 4 * p;
    assert Power(2, shift + 3) == 8 * p;
    assert Power(2, shift + 4) == 16 * p;
    assert Power(2, shift + 5) == 32 * p;
    assert Power(2, shift + 6) == 64 * p;
  }

  lemma SplitValue(v: nat, p: nat)
    ensures v * p == (v % 128) * p + (v / 128) * (128 * p)
    ensures 0 <= (v % 128) * p <= v * p && (v % 128) * p <= 127 * p
    ensures v >= 128 ==> 128 * p <= v * p
  {
    var q, r := v / 128, v % 128;
    Distribute(q, r, p);
    MulMonotone(r, v, p);
    MulMonotone(r, 127, p);
    if v >= 128 {
      MulMonotone(128, v, p);
    }
  }

  lemma Distribute(q: nat, r: nat, p: nat)
    ensures (128 * q + r) * p == r * p + q * (128 * p)
  {}

  lemma MulMonotone(a: nat, b: nat, p: nat)
    requires a <= b
    ensures 0 <= a * p <= b * p
  {}

  lemma VarintBytes(v: nat, s: seq<Byte>, p: nat)
    requires p + |Varint(v)| <= |s| && s[p..p + |Varint(v)|] == Varint(v)
    ensures v < 128 ==> |Varint(v)| == 1 && NumberOf(s[p]) == v
    ensures v >= 128 ==> NumberOf(s[p]) == v % 128 + 128 && |Varint(v)| == 1 + |Varint(v / 128)|
    ensures v >= 128 ==> s[p + 1..p + 1 + |Varint(v / 128)|] == Varint(v / 128)
  {
    hide ByteOf, NumberOf;
    var t := s[p..p + |Varint(v)|];
    assert t[0] == s[p] && t[1..] == s[p + 1..p + |Varint(v)|];
    ByteRoundTrip(if v < 128 then v else v % 128 + 128);
    assert v >= 128 ==> Varint(v)[1..] == Varint(v / 128);
  }

  /** A number that fits comes back, whatever follows it. */
  lemma {:induction false} VarintRoundTrip(v: nat, s: seq<Byte>, p: nat, shift: nat, result: nat, width: nat)
    requires p + |Varint(v)| <= |s| && s[p..p + |Varint(v)|] == Varint(v)
    requires result < Power(2, shift) && result + v * Power(2, shift) < Power(2, width)
    requires shift < width && (shift > 0 ==> v > 0)
    ensures VarintFrom(s, p, shift, result, width) == Decoded(result + v * Power(2, shift), p + |Varint(v)|)
    decreases v
  {
    hide Power, Varint, NumberOf, VarintFrom;
    var w := Power(2, shift);
    VarintBytes(v, s, p);
    VarintStep(s, p, shift, result, width);
    SplitValue(v, w);
    if v >= 128 {
      var low := v % 128;
      Power7(shift);
      SmallMod(result + low * w, Power(2, width));
      PowerGrows(shift + 7, width);
      VarintRoundTrip(v / 128, s, p + 1, shift + 7, result + low * w, width);
    } else {
      SmallMod(result + v * w, Power(2, width));
    }
  }

  lemma VarintStep(s: seq<Byte>, p: nat, shift: nat, result: nat, width: nat)
    requires p < |s| && shift < width
    ensures var byte := NumberOf(s[p]);
      VarintFrom(s, p, shift, result, width) ==
        if byte >= 128 then VarintFrom(s, p + 1, shift + 7, (result + (byte - 128) * Power(2, shift)) % Power(2, width), width)
        else Decoded((result + byte * Power(2, shift)) % Power(2, width), p + 1)
  {
    hide Power, NumberOf;
  }

  lemma SmallMod(a: nat, m: nat)
    requires a < m
    ensures a % m == a
  {}

  lemma Power32()
    ensures Power(2, 32) == 0x1_0000_0000 && Power(2, 64) == 0x1_0000_0000_0000_0000
  {
    assert Power(2, 4) == 16;
    Power7(4);
    Power7(11);
    Power7(18);
    Power7(25);
    Power7(32);
    Power7(39);
    Power7(46);
    Power7(53);
    assert Power(2, 61) == 2 * Power(2, 60) && Power(2, 62) == 2 * Power(2, 61);
    assert Power(2, 63) == 2 * Power(2, 62) && Power(2, 64) == 2 * Power(2, 63);
  }

  method EncodeVarint32(v: nat) returns (dst: seq<Byte>)
    requires v < 0x1_0000_0000
    ensures dst == Varint(v)
  {
    hide ByteOf, Varint;
    var b := 128;
    if v < 0x80 {
      Unfold(v);
      dst := [ByteOf(v)];
    } else if v < 0x4000 {
      Varint2(v);
      dst := [ByteOf(v % 128 + b), ByteOf(v / 128)];
    } else if v < 0x20_0000 {
      Varint3(v);
      dst := [ByteOf(v % 128 + b), ByteOf(v / 128 % 128 + b), ByteOf(v / 0x4000)];
    } else if v < 0x1000_0000 {
      Varint4(v);
      dst := [ByteOf(v % 128 + b), ByteOf(v / 128 % 128 + b), ByteOf(v / 0x4000 % 128 + b), ByteOf(v / 0x20_0000)];
    } else {
      Varint5(v);
      dst := [ByteOf(v % 128 + b), ByteOf(v / 128 % 128 + b), ByteOf(v / 0x4000 % 128 + b),
              ByteOf(v / 0x20_0000 % 128 + b), ByteOf(v / 0x1000_0000)];
    }
  }

  lemma Unfold(v: nat)
    ensures Varint(v) == if v < 128 then [ByteOf(v)] else [ByteOf(v % 128 + 128)] + Varint(v / 128)
  {}

  lemma Divisions(v: nat)
    ensures v / 128 / 128 == v / 0x4000 && v / 128 / 0x4000 == v / 0x20_0000 && v / 128 / 0x20_0000 == v / 0x1000_0000
  {}

  lemma Varint2(v: nat)
    requires 0x80 <= v < 0x4000
    ensures Varint(v) == [ByteOf(v % 128 + 128), ByteOf(v / 128)]
  {
    hide ByteOf, Varint;
    Unfold(v);
    Unfold(v / 128);
  }

  lemma Varint3(v: nat)
    requires 0x4000 <= v < 0x20_0000
    ensures Varint(v) == [ByteOf(v % 128 + 128), ByteOf(v / 128 % 128 + 128), ByteOf(v / 0x4000)]
  {
    hide ByteOf, Varint;
    Divisions(v);
    Unfold(v);
    Varint2(v / 128);
  }

  lemma Varint4(v: nat)
    requires 0x20_0000 <= v < 0x1000_0000
    ensures Varint(v) == [ByteOf(v % 128 + 128), ByteOf(v / 128 % 128 + 128), ByteOf(v / 0x4000 % 128 + 128), ByteOf(v / 0x20_0000)]
  {
    hide ByteOf, Varint;
    Divisions(v);
    Unfold(v);
    Varint3(v / 128);
  }

  lemma Varint5(v: nat)
    requires 0x1000_0000 <= v < 0x1_0000_0000
    ensures Varint(v) == [ByteOf(v % 128 + 128), ByteOf(v / 128 % 128 + 128), ByteOf(v / 0x4000 % 128 + 128),
                          ByteOf(v / 0x20_0000 % 128 + 128), ByteOf(v / 0x1000_0000)]
  {
    hide ByteOf, Varint;
    Divisions(v);
    Unfold(v);
    Varint4(v / 128);
  }

  method EncodeVarint64(value: nat) returns (dst: seq<Byte>)
    ensures dst == Varint(value)
  {
    hide ByteOf;
    var v := value;
    dst := [];
    while v >= 128
      invariant dst + Varint(v) == Varint(value)
    {
      Unfold(v);
      dst := dst + [ByteOf(v % 128 + 128)];
      v := v / 128;
    }
    dst := dst + [ByteOf(v)];
  }

  /** GetVarint32Ptr for width 32, GetVarint64Ptr for width 64. The bits or-ed in are clear in result until then, so the or is a sum. */
  method GetVarintPtr(s: seq<Byte>, start: nat, width: nat) returns (r: Decoded)
    requires start <= |s|
    ensures r == VarintFrom(s, start, 0, 0, width)
  {
    hide NumberOf, Power;
    var result: nat, shift: nat, p: nat := 0, 0, start;
    while shift < width && p < |s|
      invariant p <= |s|
      invariant VarintFrom(s, p, shift, result, width) == VarintFrom(s, start, 0, 0, width)
      decreases |s| - p
    {
      var byte := NumberOf(s[p]);
      p := p + 1;
      if byte >= 128 {
        result := (result + (byte - 128) * Power(2, shift)) % Power(2, width);
      } else {
        result := (result + byte * Power(2, shift)) % Power(2, width);
        return Decoded(result, p);
      }
      shift := shift + 7;
    }
    r := Malformed;
  }

  lemma VarintDecodes(v: nat, s: seq<Byte>, p: nat, width: nat)
    requires width == 32 || width == 64
    requires v < if width == 32 then 0x1_0000_0000 else 0x1_0000_0000_0000_0000
    requires p + |Varint(v)| <= |s| && s[p..p + |Varint(v)|] == Varint(v)
    ensures VarintFrom(s, p, 0, 0, width) == Decoded(v, p + |Varint(v)|)
  {
    hide Varint, VarintFrom;
    Power32();
    assert Power(2, 0) == 1;
    VarintRoundTrip(v, s, p, 0, 0, width);
  }

  // ----- strings with their length in front -----

  function LengthPrefixed(value: seq<Byte>): seq<Byte> {
    Varint(|value|) + value
  }

  datatype Slice = NoSlice | Slice(value: seq<Byte>, rest: seq<Byte>)

  function GetLengthPrefixedSlice(input: seq<Byte>): (r: Slice)
    ensures r.Slice? ==> |r.value| + |r.rest| < |input|
  {
    match VarintFrom(input, 0, 0, 0, 32)
    case Malformed => NoSlice
    case Decoded(len, next) =>
      if next + len <= |input| then Slice(input[next..next + len], input[next + len..]) else NoSlice
  }

  lemma SliceRoundTrip(value: seq<Byte>, rest: seq<Byte>)
    requires |value| < 0x1_0000_0000
    ensures GetLengthPrefixedSlice(LengthPrefixed(value) + rest) == Slice(value, rest)
  {
    hide Varint, VarintFrom;
    var s := LengthPrefixed(value) + rest;
    assert s == Varint(|value|) + (value + rest);
    assert s[0..|Varint(|value|)|] == Varint(|value|);
    VarintDecodes(|value|, s, 0, 32);
  }
}
