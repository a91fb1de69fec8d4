/** The CAN message codec of can/messages/msg_pack.c and msg_unpack.c: fields of given widths are
    packed one after the other into 64 bits held as two words; a negative width marks a field
    that is sign-extended when it is unpacked. */
module BitPack {
  import opened Arith
  import opened Bits

  function Width(size: int): nat {
    if size < 0 then -size else size
  }

  function Offset(sizes: seq<int>): nat {
    if sizes == [] then 0 else Offset(sizes[..|sizes| - 1]) + Width(sizes[|sizes| - 1])
  }

  /** What a message description promises: widths 1 to 31, 64 bits in all. */
  ghost predicate Packable(sizes: seq<int>) {
    (forall i :: 0 <= i < |sizes| ==> 1 <= Width(sizes[i]) <= 31) && Offset(sizes) <= 64
  }

  /** The packed number: the low bits of every argument, each at its offset. */
  function Number(sizes: seq<int>, args: seq<Word>): nat
    requires |sizes| == |args|
  {
    if sizes == [] then 0
    else
      var n := |sizes| - 1;
      Number(sizes[..n], args[..n]) + (args[n] % Pow2(Width(sizes[n]))) * Pow2(Offset(sizes[..n]))
  }

  /** Bits `at` to `at + w` of a number. */
  function Extract(number: nat, at: nat, w: nat): nat {
    (number / Pow2(at)) % Pow2(w)
  }

  /** A field of this size after sign extension to a word. */
  function Extend(size: int, v: nat): nat
    requires 1 <= Width(size) <= 31 && v < Pow2(Width(size))
  {
    Pow2Word();
    Pow2Monotone(Width(size), 32);
    if size < 0 && v >= Pow2(Width(size) - 1) then v + (WORD - Pow2(Width(size))) else v
  }

  function Field(number: nat, sizes: seq<int>, j: nat): nat
    requires j < |sizes| && 1 <= Width(sizes[j]) <= 31
  {
    Extend(sizes[j], Extract(number, Offset(sizes[..j]), Width(sizes[j])))
  }

  lemma {:induction false} OffsetPrefix(sizes: seq<int>, i: nat)
    requires i <= |sizes|
    ensures Offset(sizes[..i]) <= Offset(sizes)
    decreases |sizes|
  {
    if i < |sizes| {
      var n := |sizes| - 1;
      OffsetPrefix(sizes[..n], i);
      assert sizes[..n][..i] == sizes[..i];
    } else {
      assert sizes[..i] == sizes;
    }
  }

  lemma OffsetNext(sizes: seq<int>, i: nat)
    requires i < |sizes|
    ensures Offset(sizes[..i + 1]) == Offset(sizes[..i]) + Width(sizes[i])
  {
    assert sizes[..i + 1][..i] == sizes[..i];
  }

  lemma NumberNext(sizes: seq<int>, args: seq<Word>, i: nat)
    requires |sizes| == |args| && i < |sizes|
    ensures Number(sizes[..i + 1], args[..i + 1]) ==
            Place(Number(sizes[..i], args[..i]), args[i] % Pow2(Width(sizes[i])), Offset(sizes[..i]))
  {
    assert sizes[..i + 1][..i] == sizes[..i] && args[..i + 1][..i] == args[..i];
  }

  // ------------------------------------------------------------------ packing one field

  /** Splitting v at b, when a * b is a word: what v * a leaves in the first word, and what it
      carries to the second. */
  lemma SplitProduct(number: nat, v: nat, a: nat, b: nat)
    requires a * b == WORD && number < a && b >= 1
    ensures number + (v % b) * a < WORD
    ensures number + v * a == WORD * (v / b) + (number + (v % b) * a)
  {
    var q, r := v / b, v % b;
    assert v == q * b + r;
    MulDistributes(q * b, r, a);
    MulAssociates(q, b, a);
    assert b * a == WORD;
    MulMonotone(r + 1, b, a);
    MulDistributes(r, 1, a);
  }

  lemma LowWords(number: nat, v: nat, a: nat, b: nat)
    requires a * b == WORD && number < a && b >= 1
    ensures (v * a) % WORD == (v % b) * a
    ensures (number + v * a) % WORD == number + (v % b) * a
    ensures (number + v * a) / WORD == v / b
  {
    SplitProduct(number, v, a, b);
    SplitProduct(0, v, a, b);
    DivOfMultiple(WORD, v / b, (v % b) * a);
    DivOfMultiple(WORD, v / b, number + (v % b) * a);
  }

  /** Below bit 32: the part that fits goes to the first word, the rest to the second. */
  lemma PackLow(number: nat, v: Word, w: nat, pos: nat)
    requires pos < 32 && number < Pow2(pos) && v < Pow2(w)
    ensures number < WORD
    ensures var next := Place(number, v, pos);
      && next % WORD == Or(number, Shl(v, pos))
      && next / WORD == Shr(v, 32 - pos)
  {
    var a, b := Pow2(pos), Pow2(32 - pos);
    Pow2Word();
    Pow2Add(pos, 32 - pos);
    Pow2Monotone(pos, 32);
    LowWords(number, v, a, b);
    DivOfMultiple(a, v % b, 0);
    OrDisjoint(number, (v % b) * a, pos);
  }

  lemma ShrVanishes(v: Word, w: nat, k: nat)
    requires v < Pow2(w)
    requires w <= k
    ensures Shr(v, k) == 0
  {
    DivShrinks(v, Pow2(k));
    Pow2Monotone(w, k);
  }

  /** A number below a * WORD has less than a in its second word. */
  lemma SecondWord(number: nat, a: nat)
    requires number < WORD * a
    ensures number / WORD < a
  {
    var hi := number / WORD;
    assert number == WORD * hi + number % WORD;
    if hi >= a {
      MulMonotone(a, hi, WORD);
    }
  }

  lemma ProductBelow(v: nat, c: nat, a: nat)
    requires v < c && a >= 1
    ensures v * a + a <= c * a
  {
    MulMonotone(v + 1, c, a);
    MulDistributes(v, 1, a);
  }

  lemma HighWords(number: nat, v: nat, a: nat)
    requires number / WORD + v * a < WORD
    ensures (v * a) % WORD == v * a
    ensures (number + v * (a * WORD)) % WORD == number % WORD
    ensures (number + v * (a * WORD)) / WORD == number / WORD + v * a
  {
    var hi, lo, add := number / WORD, number % WORD, v * a;
    DivOfMultiple(WORD, 0, add);
    MulAssociates(v, a, WORD);
    DivOfMultiple(WORD, hi + add, lo);
  }

  /** From bit 32 on: everything goes to the second word. */
  lemma PackHigh(number: nat, v: Word, w: nat, pos: nat)
    requires 32 <= pos && pos + w <= 64 && number < Pow2(pos) && v < Pow2(w)
    ensures number / WORD < WORD
    ensures var next := Place(number, v, pos);
      && next % WORD == number % WORD
      && next / WORD == Or(number / WORD, Shl(v, pos - 32)) < WORD
  {
    var k, a := pos - 32, Pow2(pos - 32);
    Pow2Word();
    Pow2Add(k, 32);
    SecondWord(number, a);
    HighFits(v, w, k);
    HighWords(number, v, a);
    DivOfMultiple(a, v, 0);
    OrDisjoint(number / WORD, v * a, k);
  }

  lemma HighFits(v: nat, w: nat, k: nat)
    requires v < Pow2(w) && w + k <= 32
    ensures v * Pow2(k) + Pow2(k) <= WORD
  {
    Pow2Word();
    Pow2Add(w, k);
    Pow2Monotone(w + k, 32);
    ProductBelow(v, Pow2(w), Pow2(k));
  }

  lemma PackBound(number: nat, v: nat, w: nat, pos: nat)
    requires number < Pow2(pos) && v < Pow2(w)
    ensures Place(number, v, pos) < Pow2(pos + w)
  {
    Pow2Add(w, pos);
    ProductBelow(v, Pow2(w), Pow2(pos));
  }

  lemma MaskFits(x: Word, w: nat)
    requires w <= 31
    ensures And(x, Pow2(w) - 1) == x % Pow2(w) < Pow2(w) <= WORD
  {
    AndMask(x, w);
    Pow2Word();
    Pow2Monotone(w, 32);
  }

  /** The number with one more field. */
  function Place(number: nat, v: nat, pos: nat): nat {
    number + v * Pow2(pos)
  }

  lemma TwoWords(out0: nat, out1: nat, number: nat)
    requires out0 < WORD
    ensures out0 + WORD * out1 == number <==> out0 == number % WORD && out1 == number / WORD
  {
    if out0 + WORD * out1 == number {
      DivOfMultiple(WORD, out1, out0);
    }
  }

  /** bit_pack: the two words hold the packed number. */
  method Pack(sizes: seq<int>, args: seq<Word>, out: array<Word>)
    requires Packable(sizes) && |args| == |sizes| && out.Length >= 2
    modifies out
    ensures out[0] + WORD * out[1] == Number(sizes, args) < Pow2(Offset(sizes))
    ensures forall k :: 2 <= k < out.Length ==> out[k] == old(out[k])
  {
    hide Pow2, And, Or, Place;
    out[1] := 0;
    out[0] := 0;
    var pos := 0;
    var i := 0;
    ghost var number: nat := 0;
    while i < |sizes|
      invariant 0 <= i <= |sizes| && pos == Offset(sizes[..i])
      invariant number == Number(sizes[..i], args[..i]) < Pow2(pos)
      invariant out[0] == number % WORD && out[1] == number / WORD
      invariant forall k :: 2 <= k < out.Length ==> out[k] == old(out[k])
    {
      OffsetNext(sizes, i);
      OffsetPrefix(sizes, i + 1);
      NumberNext(sizes, args, i);
      var bitsize := sizes[i];
      if bitsize < 0 {
        bitsize := -bitsize;
      }
      MaskFits(args[i], bitsize);
      var item := And(args[i], Pow2(bitsize) - 1);
      PackBound(number, item, bitsize, pos);
      number := PutField(out, number, item, bitsize, pos);
      pos := pos + bitsize;
      i := i + 1;
    }
    assert sizes[..i] == sizes && args[..i] == args;
    TwoWords(out[0], out[1], number);
  }

  /** The body of the loop of bit_pack, once the field is masked. */
  method PutField(out: array<Word>, ghost number: nat, item: Word, bitsize: nat, pos: nat)
      returns (ghost next: nat)
    requires out.Length >= 2 && out[0] == number % WORD && out[1] == number / WORD
    requires 1 <= bitsize <= 31 && pos + bitsize <= 64 && number < Pow2(pos) && item < Pow2(bitsize)
    modifies out
    ensures next == Place(number, item, pos)
    ensures out[0] == next % WORD && out[1] == next / WORD
    ensures forall k :: 2 <= k < out.Length ==> out[k] == old(out[k])
  {
    next := Place(number, item, pos);
    if pos < 32 {
      PackLow(number, item, bitsize, pos);
      if bitsize <= 32 - pos {
        ShrVanishes(item, bitsize, 32 - pos);
      }
      DivOfMultiple(WORD, 0, number);
      out[0] := Or(out[0], Shl(item, pos));
      if pos + bitsize > 32 && bitsize <= 32 {
        out[1] := Shr(item, 32 - pos);
      }
    } else {
      PackHigh(number, item, bitsize, pos);
      out[1] := Or(out[1], Shl(item, pos - 32));
    }
  }

  // ------------------------------------------------------------------ unpacking one field

  /** Reading at a bit of the first word: the second word contributes above what is left. */
  lemma DivTwoWords(in0: nat, in1: nat, a: nat, b: nat)
    requires a * b == WORD && in0 < WORD && a >= 1
    ensures (in0 + WORD * in1) / a == in0 / a + in1 * b
    ensures in0 / a < b
  {
    var q, r := in0 / a, in0 % a;
    assert in0 == a * q + r;
    MulAssociates(a, b, in1);
    assert in0 + WORD * in1 == a * (q + in1 * b) + r;
    DivOfMultiple(a, q + in1 * b, r);
    if q >= b {
      MulMonotone(b, q, a);
    }
  }

  /** The low w bits of low + high * b, when the field ends in the low part. */
  lemma ModLowPart(low: nat, high: nat, c: nat, d: nat)
    requires c >= 1
    ensures (low + high * (c * d)) % c == low % c
  {
    var q, r := low / c, low % c;
    assert low == c * q + r;
    assert high * (c * d) == c * (high * d);
    assert low + high * (c * d) == c * (q + high * d) + r;
    DivOfMultiple(c, q + high * d, r);
  }

  /** The same when the field takes all of the low part and some of the high one. */
  lemma ModBothParts(low: nat, high: nat, b: nat, d: nat)
    requires low < b && d >= 1
    ensures (low + high * b) % (b * d) == low + (high % d) * b
    ensures low + (high % d) * b < b * d
  {
    var q, r := high / d, high % d;
    assert high == d * q + r;
    MulDistributes(d * q, r, b);
    assert (d * q) * b == (b * d) * q;
    ProductBelow(r, d, b);
    assert d * b == b * d;
    DivOfMultiple(b * d, q, low + r * b);
  }

  /** What bit_unpack reads for a field that starts below bit 32. */
  function ReadLow(in0: Word, in1: Word, pos: nat, w: nat): nat
    requires w >= 1
  {
    var v := And(Shr(in0, pos), Pow2(w) - 1);
    if pos + w > 32 && pos <= 32 then Or(v, And(in1, Pow2(pos + w - 32) - 1) * Pow2(32 - pos)) else v
  }

  lemma LowFits(in0: Word, in1: nat, a: nat, b: nat, c: nat, d: nat)
    requires a * b == WORD && b == c * d && a >= 1 && c >= 1
    ensures ((in0 + WORD * in1) / a) % c == (in0 / a) % c
  {
    DivTwoWords(in0, in1, a, b);
    ModLowPart(in0 / a, in1, c, d);
  }

  lemma ReadLowFits(in0: Word, in1: Word, pos: nat, w: nat)
    requires pos < 32 && 1 <= w && pos + w <= 32
    ensures ReadLow(in0, in1, pos, w) == Extract(in0 + WORD * in1, pos, w)
  {
    AndMask(Shr(in0, pos), w);
    Pow2Word();
    Pow2Add(pos, 32 - pos);
    Pow2Add(w, 32 - pos - w);
    LowFits(in0, in1, Pow2(pos), Pow2(32 - pos), Pow2(w), Pow2(32 - pos - w));
  }

  lemma LowStraddles(in0: Word, in1: nat, a: nat, b: nat, d: nat)
    requires a * b == WORD && a >= 1 && b >= 1 && d >= 1
    ensures in0 / a < b <= b * d && (in0 / a) % (b * d) == in0 / a
    ensures ((in0 + WORD * in1) / a) % (b * d) == in0 / a + (in1 % d) * b < b * d
    ensures ((in1 % d) * b) % b == 0
  {
    DivTwoWords(in0, in1, a, b);
    ModBothParts(in0 / a, in1, b, d);
    MulMonotone(1, d, b);
    DivOfMultiple(b * d, 0, in0 / a);
    DivOfMultiple(b, in1 % d, 0);
  }

  /** Putting the two parts of a straddling field together is addition. */
  lemma JoinParts(low: nat, in1: nat, w: nat, k: nat)
    requires k <= w <= 31 && low < Pow2(k)
    ensures Or(And(low, Pow2(w) - 1), And(in1, Pow2(w - k) - 1) * Pow2(k)) ==
            low + (in1 % Pow2(w - k)) * Pow2(k)
  {
    hide Pow2, And, Or;
    var b, d := Pow2(k), Pow2(w - k);
    AndMask(low, w);
    AndMask(in1, w - k);
    Pow2Monotone(k, w);
    DivOfMultiple(Pow2(w), 0, low);
    DivOfMultiple(b, in1 % d, 0);
    OrDisjoint(low, (in1 % d) * b, k);
  }

  lemma ExtractStraddling(in0: Word, in1: nat, pos: nat, w: nat)
    requires pos < 32 && w <= 31 && pos + w > 32
    ensures Shr(in0, pos) < Pow2(32 - pos)
    ensures Extract(in0 + WORD * in1, pos, w) ==
            Shr(in0, pos) + (in1 % Pow2(pos + w - 32)) * Pow2(32 - pos) < WORD
  {
    var k := 32 - pos;
    Pow2Word();
    Pow2Add(pos, k);
    Pow2Add(k, w - k);
    Pow2Monotone(w, 32);
    LowStraddles(in0, in1, Pow2(pos), Pow2(k), Pow2(w - k));
  }

  lemma ReadLowStraddles(in0: Word, in1: Word, pos: nat, w: nat)
    requires pos < 32 && 1 <= w <= 31 && pos + w > 32
    ensures ReadLow(in0, in1, pos, w) == Extract(in0 + WORD * in1, pos, w)
    ensures And(in1, Pow2(pos + w - 32) - 1) * Pow2(32 - pos) < WORD
  {
    hide Pow2, And, Or, Shr, Extract;
    ExtractStraddling(in0, in1, pos, w);
    JoinParts(Shr(in0, pos), in1, w, 32 - pos);
    AndMask(in1, pos + w - 32);
  }

  lemma ReadHigh(in0: Word, in1: Word, pos: nat, w: nat)
    requires 32 <= pos && 1 <= w
    ensures And(Shr(in1, pos - 32), Pow2(w) - 1) == Extract(in0 + WORD * in1, pos, w)
  {
    var k := pos - 32;
    Pow2Word();
    Pow2Add(32, k);
    DivOfMultiple(WORD, in1, in0);
    DivDiv(in0 + WORD * in1, WORD, Pow2(k));
    AndMask(Shr(in1, k), w);
  }

  lemma DivDiv(x: nat, m: nat, n: nat)
    requires m >= 1 && n >= 1
    ensures m * n >= 1 && x / (m * n) == (x / m) / n
  {
    var y, r := x / m, x % m;
    var q, t := y / n, y % n;
    assert x == m * y + r && y == n * q + t;
    TwoDivisors(m, n, q, t, r);
  }

  lemma TwoDivisors(m: nat, n: nat, q: nat, t: nat, r: nat)
    requires t < n && r < m
    ensures m * n >= 1 && (m * (n * q + t) + r) / (m * n) == q
  {
    var p, s := m * n, m * t;
    Rearranged(m, n, q, t, r);
    DivOfMultiple(p, q, s + r);
  }

  lemma Rearranged(m: nat, n: nat, q: nat, t: nat, r: nat)
    requires t < n && r < m
    ensures m * n >= 1 && m * t + r < m * n
    ensures m * (n * q + t) + r == (m * n) * q + (m * t + r)
  {
    MulMonotone(t + 1, n, m);
    MulDistributes(t, 1, m);
    MulAssociates(m, n, q);
    MulDistributes(n * q, t, m);
  }

  lemma ExtractBelow(number: nat, at: nat, w: nat)
    requires w <= 31
    ensures Extract(number, at, w) < Pow2(w) <= WORD
  {
    Pow2Word();
    Pow2Monotone(w, 32);
  }

  lemma ShlFits(x: Word, k: nat)
    requires x * Pow2(k) < WORD
    ensures Shl(x, k) == x * Pow2(k)
  {
    DivOfMultiple(WORD, 0, x * Pow2(k));
  }

  /** Sign extension as bit_unpack writes it: test the top bit of the field, or in the ones. */
  lemma ExtendByOr(size: int, v: nat)
    requires 1 <= Width(size) <= 31 && v < Pow2(Width(size)) <= WORD
    ensures And(v, Pow2(Width(size) - 1)) != 0 <==> v >= Pow2(Width(size) - 1)
    ensures Or(v, Not(Pow2(Width(size)) - 1)) == v + (WORD - Pow2(Width(size))) < WORD
  {
    var w := Width(size);
    AndBit(v, w - 1);
    Pow2Word();
    Pow2Add(w, 32 - w);
    ComplementIsMultiple(Pow2(w), Pow2(32 - w));
    OrDisjoint(v, WORD - Pow2(w), w);
  }

  lemma ComplementIsMultiple(p: nat, q: nat)
    requires p * q == WORD && p >= 1 && q >= 1
    ensures WORD - p >= 0 && (WORD - p) % p == 0
  {
    MulDistributes(q - 1, 1, p);
    MulMonotone(1, q, p);
    DivOfMultiple(p, q - 1, 0);
  }

  /** The body of the loop of bit_unpack, without the sign extension. */
  method GetField(in0: Word, in1: Word, bitsize: nat, pos: nat) returns (v: Word)
    requires 1 <= bitsize <= 31
    ensures v == Extract(in0 + WORD * in1, pos, bitsize) < Pow2(bitsize)
  {
    hide Pow2, And, Or, Shr, Shl, Extract;
    ExtractBelow(in0 + WORD * in1, pos, bitsize);
    if pos < 32 {
      MaskFits(Shr(in0, pos), bitsize);
      v := And(Shr(in0, pos), Pow2(bitsize) - 1);
      if pos + bitsize > 32 {
        ReadLowStraddles(in0, in1, pos, bitsize);
        MaskFits(in1, pos + bitsize - 32);
        var rest := And(in1, Pow2(pos + bitsize - 32) - 1);
        ShlFits(rest, 32 - pos);
        v := Or(v, Shl(rest, 32 - pos));
      } else {
        ReadLowFits(in0, in1, pos, bitsize);
      }
    } else {
      ReadHigh(in0, in1, pos, bitsize);
      v := And(Shr(in1, pos - 32), Pow2(bitsize) - 1);
    }
  }

  /** bit_unpack: every field of the 64 bits that the two words hold, sign-extended where asked. */
  method Unpack(in_: seq<Word>, sizes: seq<int>, dest: array<Word>)
    requires Packable(sizes) && |in_| >= 2 && dest.Length == |sizes|
    modifies dest
    ensures forall j :: 0 <= j < |sizes| ==> dest[j] == Field(in_[0] + WORD * in_[1], sizes, j)
  {
    hide Pow2, And, Or, Not, Extract;
    var pos := 0;
    var i := 0;
    while i < |sizes|
      invariant 0 <= i <= |sizes| && pos == Offset(sizes[..i])
      invariant forall j :: 0 <= j < i ==> dest[j] == Field(in_[0] + WORD * in_[1], sizes, j)
    {
      OffsetNext(sizes, i);
      var bitsize, neg := sizes[i], false;
      if bitsize < 0 {
        neg, bitsize := true, -bitsize;
      }
      var v := GetField(in_[0], in_[1], bitsize, pos);
      ExtractBelow(in_[0] + WORD * in_[1], pos, bitsize);
      ExtendByOr(sizes[i], v);
      if neg && And(v, Pow2(bitsize - 1)) != 0 {
        v := Or(v, Not(Pow2(bitsize) - 1));
      }
      dest[i] := v;
      pos := pos + bitsize;
      i := i + 1;
    }
  }

  // ------------------------------------------------------------------ the round trip

  lemma {:induction false} NumberBound(sizes: seq<int>, args: seq<Word>)
    requires |sizes| == |args|
    ensures Number(sizes, args) < Pow2(Offset(sizes))
  {
    if sizes != [] {
      var n := |sizes| - 1;
      NumberBound(sizes[..n], args[..n]);
      PackBound(Number(sizes[..n], args[..n]), args[n] % Pow2(Width(sizes[n])), Width(sizes[n]),
        Offset(sizes[..n]));
    }
  }

  /** A field placed further up does not disturb the ones below it. */
  lemma ExtractSkips(number: nat, v: nat, pos: nat, at: nat, w: nat)
    requires at + w <= pos
    ensures Extract(Place(number, v, pos), at, w) == Extract(number, at, w)
  {
    Pow2Add(at, pos - at);
    Pow2Add(w, pos - at - w);
    SkipProduct(number, v, Pow2(at), Pow2(w), Pow2(pos - at - w));
  }

  lemma DivLowPart(low: nat, high: nat, a: nat)
    requires a >= 1
    ensures (low + a * high) / a == low / a + high
  {
    var q, r := low / a, low % a;
    assert low == a * q + r;
    assert a * (q + high) == a * q + a * high;
    DivOfMultiple(a, q + high, r);
  }

  lemma SwapFactors(v: nat, a: nat, e: nat)
    ensures v * (a * e) == a * (v * e)
  {
  }

  lemma SkipProduct(number: nat, v: nat, a: nat, c: nat, d: nat)
    requires a >= 1 && c >= 1
    ensures ((number + v * (a * (c * d))) / a) % c == (number / a) % c
  {
    SwapFactors(v, a, c * d);
    DivLowPart(number, v * (c * d), a);
    ModLowPart(number / a, v, c, d);
  }

  lemma ExtractTop(number: nat, v: nat, pos: nat, w: nat)
    requires number < Pow2(pos) && v < Pow2(w)
    ensures Extract(Place(number, v, pos), pos, w) == v
  {
    DivOfMultiple(Pow2(pos), v, number);
    DivOfMultiple(Pow2(w), 0, v);
  }

  /** Each field comes back as the low bits that were put in. */
  lemma {:induction false} ExtractNumber(sizes: seq<int>, args: seq<Word>, j: nat)
    requires |sizes| == |args| && j < |sizes|
    ensures Extract(Number(sizes, args), Offset(sizes[..j]), Width(sizes[j])) ==
            args[j] % Pow2(Width(sizes[j]))
  {
    var n := |sizes| - 1;
    var before, item := Number(sizes[..n], args[..n]), args[n] % Pow2(Width(sizes[n]));
    NumberBound(sizes[..n], args[..n]);
    if j == n {
      ExtractTop(before, item, Offset(sizes[..n]), Width(sizes[n]));
    } else {
      assert sizes[..n][..j] == sizes[..j];
      ExtractNumber(sizes[..n], args[..n], j);
      OffsetNext(sizes, j);
      OffsetPrefix(sizes[..n], j + 1);
      assert sizes[..n][..j + 1] == sizes[..j + 1];
      ExtractSkips(before, item, Offset(sizes[..n]), Offset(sizes[..j]), Width(sizes[j]));
    }
  }

  /** Where each bit of each field ends up: fields follow each other from the lowest bit of the first
      word on, across into the second, the lowest bit of each first. */
  lemma PackedBits(sizes: seq<int>, args: seq<Word>, out0: Word, out1: Word, j: nat, b: nat)
    requires |sizes| == |args| && j < |sizes| && b < Width(sizes[j])
    requires out0 + WORD * out1 == Number(sizes, args)
    ensures var pos := Offset(sizes[..j]) + b;
      (if pos < 32 then Bit(out0, pos) else Bit(out1, pos - 32)) <==> Bit(args[j], b)
  {
    hide Bit, Number;
    var at, w, number := Offset(sizes[..j]), Width(sizes[j]), Number(sizes, args);
    ExtractNumber(sizes, args, j);
    BitsAbove(number, at, b);
    BitsBelow(HighPart(number, at), w, b);
    BitsBelow(args[j], w, b);
    Pow2Word();
    DivOfMultiple(WORD, out1, out0);
    if at + b < 32 {
      BitsBelow(number, 32, at + b);
    } else {
      BitsAbove(number, 32, at + b - 32);
    }
  }

  /** A word read as a two's complement number. */
  function Signed(x: Word): int {
    if x >= 0x8000_0000 then x - WORD else x
  }

  /** The word that stands for a number. */
  function Encoded(a: int): Word {
    a % WORD
  }

  /** Unpacking what was packed gives back a value exactly when the value fits its field: the
      signed range of a negative size, the unsigned range of a positive one. */
  lemma RoundTripIff(sizes: seq<int>, args: seq<Word>, j: nat, a: int)
    requires Packable(sizes) && |sizes| == |args| && j < |sizes|
    requires args[j] == Encoded(a)
    ensures var w, v := Width(sizes[j]), Field(Number(sizes, args), sizes, j);
      && 0 <= v < WORD
      && (sizes[j] < 0 ==> (Signed(v) == a <==> 0 - Pow2(w - 1) <= a < Pow2(w - 1)))
      && (sizes[j] > 0 ==> (v == a <==> 0 <= a < Pow2(w)))
  {
    var w := Width(sizes[j]);
    var low := args[j] % Pow2(w);
    ExtractNumber(sizes, args, j);
    Pow2Word();
    Pow2Monotone(w, 31);
    EncodedLow(a, w);
    if 0 <= a < Pow2(w) {
      DivOfMultiple(Pow2(w), 0, a);
    } else if 0 - Pow2(w) <= a < 0 {
      DivModUnique(Pow2(w), -1, a + Pow2(w));
    }
  }

  lemma EncodedLow(a: int, w: nat)
    requires w <= 32
    ensures Encoded(a) % Pow2(w) == a % Pow2(w)
  {
    Pow2Word();
    Pow2Add(w, 32 - w);
    ModOfMod(a, Pow2(w), Pow2(32 - w));
  }

  lemma ModOfMod(a: int, p: nat, q: nat)
    requires p * q == WORD && p >= 1
    ensures (a % WORD) % p == a % p
  {
    var m, e := a / WORD, a % WORD;
    var k, r := e / p, e % p;
    assert a == WORD * m + e && e == p * k + r;
    MulAssociates(p, q, m);
    assert a == p * (q * m + k) + r;
    DivModUnique(p, q * m + k, r);
  }

  /** The words that bit_unpack writes for a number. */
  function Fields(number: nat, sizes: seq<int>): (vs: seq<Word>)
    requires Packable(sizes)
    ensures |vs| == |sizes| && forall j :: 0 <= j < |sizes| ==> vs[j] == Field(number, sizes, j) < WORD
  {
    if sizes == [] then []
    else
      var n := |sizes| - 1;
      PackablePrefix(sizes);
      FieldWord(number, sizes, n);
      Fields(number, sizes[..n]) + [Field(number, sizes, n)]
  }

  lemma PackablePrefix(sizes: seq<int>)
    requires Packable(sizes) && sizes != []
    ensures Packable(sizes[..|sizes| - 1])
    ensures forall number: nat, j :: 0 <= j < |sizes| - 1 ==>
              Field(number, sizes[..|sizes| - 1], j) == Field(number, sizes, j)
  {
    var front := sizes[..|sizes| - 1];
    forall number: nat, j | 0 <= j < |front|
      ensures Field(number, front, j) == Field(number, sizes, j)
    {
      assert front[..j] == sizes[..j];
    }
  }

  lemma FieldWord(number: nat, sizes: seq<int>, j: nat)
    requires j < |sizes| && 1 <= Width(sizes[j]) <= 31
    ensures 0 <= Field(number, sizes, j) < WORD
    ensures Field(number, sizes, j) % Pow2(Width(sizes[j])) == Extract(number, Offset(sizes[..j]), Width(sizes[j]))
  {
    var w := Width(sizes[j]);
    var v := Extract(number, Offset(sizes[..j]), w);
    Pow2Word();
    Pow2Add(w, 32 - w);
    ExtractBelow(number, Offset(sizes[..j]), w);
    hide Extract;
    ExtendLow(v, Pow2(w), Pow2(32 - w));
  }

  /** Sign extension does not touch the low bits. */
  lemma ExtendLow(v: nat, p: nat, q: nat)
    requires v < p && p * q == WORD
    ensures v % p == v && (v + (WORD - p)) % p == v && v + (WORD - p) < WORD
  {
    DivOfMultiple(p, 0, v);
    MulDistributes(q, -1, p);
    assert WORD - p == (q - 1) * p;
    DivModUnique(p, q - 1, v);
  }

  /** Packing what was unpacked restores the bits that the fields cover. */
  lemma {:induction false} PackedFieldsRestore(number: nat, sizes: seq<int>)
    requires Packable(sizes)
    ensures Number(sizes, Fields(number, sizes)) == number % Pow2(Offset(sizes))
  {
    if sizes != [] {
      var n := |sizes| - 1;
      var vs, front, w := Fields(number, sizes), sizes[..n], Width(sizes[n]);
      PackablePrefix(sizes);
      PackedFieldsRestore(number, front);
      FieldWord(number, sizes, n);
      assert vs[..n] == Fields(number, front);
      Pow2Add(Offset(front), w);
      SplitLow(number, Pow2(Offset(front)), Pow2(w));
    }
  }

  /** The low bits of a number in two parts. */
  lemma SplitLow(number: nat, a: nat, b: nat)
    requires a >= 1 && b >= 1
    ensures a * b >= 1 && number % (a * b) == number % a + ((number / a) % b) * a
  {
    var q, r := number / a, number % a;
    assert number == r + q * a;
    ModBothParts(r, q, a, b);
  }

  /** bit_unpack followed by bit_pack. */
  method UnpackThenPack(words: array<Word>, sizes: seq<int>) returns (out: array<Word>)
    requires Packable(sizes) && words.Length >= 2
    ensures out.Length == 2
    ensures out[0] + WORD * out[1] == (words[0] + WORD * words[1]) % Pow2(Offset(sizes))
  {
    hide *;
    ghost var number := words[0] + WORD * words[1];
    var back := new Word[|sizes|];
    Unpack(words[..], sizes, back);
    PackedFieldsRestore(number, sizes);
    assert back[..] == Fields(number, sizes);
    out := new Word[2];
    Pack(sizes, back[..], out);
  }

  /** bit_pack followed by bit_unpack. */
  method PackThenUnpack(sizes: seq<int>, args: seq<Word>) returns (back: array<Word>)
    requires Packable(sizes) && |args| == |sizes|
    ensures back.Length == |sizes|
    ensures forall j :: 0 <= j < |sizes| ==>
              args[j] % Pow2(Width(sizes[j])) < Pow2(Width(sizes[j])) &&
              back[j] == Extend(sizes[j], args[j] % Pow2(Width(sizes[j])))
  {
    var out := new Word[2];
    back := new Word[|sizes|];
    Pack(sizes, args, out);
    Unpack(out[..], sizes, back);
    forall j | 0 <= j < |sizes|
      ensures args[j] % Pow2(Width(sizes[j])) < Pow2(Width(sizes[j])) &&
              back[j] == Extend(sizes[j], args[j] % Pow2(Width(sizes[j])))
    {
      ExtractNumber(sizes, args, j);
    }
  }
}
