/** Unicode.cpp: conversions between UTF-8, UTF-16 and UTF-32. */
module Unicode {
  import opened Basics
  import opened Utf8Lead
  import opened Arithmetic

  type char32 = x: int | 0 <= x < 0x1_0000_0000

  predicate Scalar(c: char32) {
    c < 0xd800 || 0xe000 <= c <= 0x10_ffff
  }

  predicate AllScalar(cs: seq<char32>) {
    forall i :: 0 <= i < |cs| ==> Scalar(cs[i])
  }

  predicate High(u: unit) { 0xd800 <= u < 0xdc00 }

  predicate Low(u: unit) { 0xdc00 <= u < 0xe000 }

  // ---------- code points to UTF-8 ----------

  /** utf32_codepoint_utf8_length: nothing for surrogates and for values past the last code point. */
  function Utf8Length(c: char32): nat {
    if c < 0x80 then 1
    else if c < 0x800 then 2
    else if c < 0x1_0000 then (if c < 0xd800 || c > 0xdfff then 3 else 0)
    else if c <= 0x10_ffff then 4
    else 0
  }

  /** The bytes of a code point, by the table in section 3 of RFC 3629. */
  function Enc8(c: char32): (r: seq<byte>)
    ensures |r| == Utf8Length(c)
  {
    if !Scalar(c) then []
    else if c < 0x80 then [c]
    else if c < 0x800 then [0xc0 + c / 64, 0x80 + c % 64]
    else if c < 0x1_0000 then [0xe0 + c / 64 / 64, 0x80 + c / 64 % 64, 0x80 + c % 64]
    else [0xf0 + c / 64 / 64 / 64, 0x80 + c / 64 / 64 % 64, 0x80 + c / 64 % 64, 0x80 + c % 64]
  }

  function To8(cs: seq<char32>): seq<byte> {
    if cs == [] then [] else Enc8(cs[0]) + To8(cs[1..])
  }

  // ---------- code points to UTF-16 ----------

  /** One unit, or two with the casts to 16 bits that the code applies. */
  function Enc16(c: char32): seq<unit> {
    if c <= 0xffff then [c]
    else [((c - 0x1_0000) / 0x400 + 0xd800) % 0x1_0000, (c - 0x1_0000) % 0x400 + 0xdc00]
  }

  function To16(cs: seq<char32>): seq<unit> {
    if cs == [] then [] else Enc16(cs[0]) + To16(cs[1..])
  }

  // ---------- UTF-16 to code points ----------

  predicate PairAt(us: seq<unit>) {
    |us| >= 2 && High(us[0]) && Low(us[1])
  }

  function Pair(high: unit, low: unit): char32
    requires High(high) && Low(low)
  {
    (high - 0xd800) * 0x400 + (low - 0xdc00) + 0x1_0000
  }

  /** The loop of utf16_to_utf8: a pair where there is one, else the unit itself. */
  function Points16(us: seq<unit>): seq<char32> {
    if us == [] then []
    else if PairAt(us) then [Pair(us[0], us[1])] + Points16(us[2..])
    else [us[0]] + Points16(us[1..])
  }

  /** No surrogate stands alone. */
  predicate WellFormed16(us: seq<unit>) {
    if us == [] then true
    else if PairAt(us) then WellFormed16(us[2..])
    else !High(us[0]) && !Low(us[0]) && WellFormed16(us[1..])
  }

  // ---------- UTF-8 to code points, as the UTF-16 converters read it ----------

  /** utf8_shift_and_mask, for values that stay below 27 bits. */
  function Six(value: nat, b: byte): (r: nat)
    ensures r < (value + 1) * 64
  {
    value * 64 + b % 64
  }

  /** utf8_to_utf32_codepoint for the length that the first byte announces. */
  function Point(s: seq<byte>): char32
    requires s != [] && SeqLength(s[0]) <= |s|
  {
    var n := SeqLength(s[0]);
    if n == 1 then s[0]
    else if n == 2 then Six(s[0] % 32, s[1])
    else if n == 3 then Six(Six(s[0] % 16, s[1]), s[2])
    else Six(Six(Six(s[0] % 8, s[1]), s[2]), s[3])
  }

  /** The announced lengths end exactly where the text ends. */
  predicate Framed(s: seq<byte>) {
    s == [] || (SeqLength(s[0]) <= |s| && Framed(s[SeqLength(s[0])..]))
  }

  function Points8(s: seq<byte>): seq<char32>
    requires Framed(s)
  {
    if s == [] then [] else [Point(s)] + Points8(s[SeqLength(s[0])..])
  }

  /** UTF8-char in section 4 of RFC 3629. */
  predicate Utf8Char(s: seq<byte>) {
    || (|s| == 1 && s[0] <= 0x7f)
    || (|s| == 2 && 0xc2 <= s[0] <= 0xdf && IsExtension(s[1]))
    || (&& |s| == 3 && IsExtension(s[1]) && IsExtension(s[2]) && 0xe0 <= s[0] <= 0xef
        && (s[0] == 0xe0 ==> 0xa0 <= s[1]) && (s[0] == 0xed ==> s[1] <= 0x9f))
    || (&& |s| == 4 && IsExtension(s[1]) && IsExtension(s[2]) && IsExtension(s[3]) && 0xf0 <= s[0] <= 0xf4
        && (s[0] == 0xf0 ==> 0x90 <= s[1]) && (s[0] == 0xf4 ==> s[1] <= 0x8f))
  }

  predicate WellFormed8(s: seq<byte>) {
    s == [] ||
    var n := SeqLength(s[0]);
    n <= |s| && Utf8Char(s[..n]) && WellFormed8(s[n..])
  }

  // ---------- UTF-8 to code points, as the UTF-32 converter reads it ----------

  /** The bytes that utf32_at_internal reads and utf8_to_utf32_length skips, by the leading one bits. */
  function Reads(b: byte): (n: nat)
    ensures n >= 1
  {
    if b < 0xc0 then 1
    else if b < 0xe0 then 2
    else if b < 0xf0 then 3
    else if b < 0xf8 then 4
    else if b < 0xfc then 5
    else if b < 0xfe then 6
    else if b < 0xff then 7
    else 8
  }

  /** A byte against a mask of one bit, from 0x40 down, or of none. */
  predicate HasBit(b: byte, mask: nat) {
    (if mask == 0x40 then b / 0x40
     else if mask == 0x20 then b / 0x20
     else if mask == 0x10 then b / 0x10
     else if mask == 0x08 then b / 0x08
     else if mask == 0x04 then b / 0x04
     else if mask == 0x02 then b / 0x02
     else if mask == 0x01 then b
     else 0) % 2 == 1
  }

  /** The one bits that a mask meets on its way down. */
  function Ones(b: byte, mask: nat): nat
    decreases mask
  {
    if !HasBit(b, mask) then 0 else 1 + Ones(b, mask / 2)
  }

  lemma LowOnes(b: byte)
    requires b >= 0xfc
    ensures Ones(b, 0x02) == Reads(b) - 6
  {
    assert b >= 0xfe ==> Ones(b, 0x01) == b - 0xfe;
  }

  lemma LastOnes(b: byte)
    requires b >= 0xf8
    ensures Ones(b, 0x04) == Reads(b) - 5
  {
    if b >= 0xfc { LowOnes(b); }
  }

  lemma MiddleOnes(b: byte)
    requires b >= 0xe0
    ensures Ones(b, 0x10) == Reads(b) - 3
  {
    if b >= 0xf8 {
      LastOnes(b);
      assert Ones(b, 0x10) == 1 + Ones(b, 0x08) == 2 + Ones(b, 0x04);
    } else if b >= 0xf0 {
      assert Ones(b, 0x08) == 0;
    }
  }

  /** The mask loops count the leading one bits. */
  lemma OnesAreRead(b: byte)
    requires b >= 0x80
    ensures 1 + Ones(b, 0x40) == Reads(b)
  {
    if b >= 0xe0 {
      MiddleOnes(b);
      assert Ones(b, 0x40) == 1 + Ones(b, 0x20) == 2 + Ones(b, 0x10);
    } else if b >= 0xc0 {
      assert Ones(b, 0x20) == 0;
    }
  }

  /** A value cut to 32 bits. */
  function Word(x: nat): char32 {
    if x < 0x1_0000_0000 then x else x % 0x1_0000_0000
  }

  /** Six bits at a time into a 32-bit word. */
  function Shifted(word: char32, s: seq<byte>): char32
    decreases |s|
  {
    if s == [] then word else Shifted(Word(Six(word, s[0])), s[1..])
  }

  /**
    What a machine leaves of a word under ~(mask << 36) and ~(mask << 42), by the number of bytes, 7 or 8:
    the language does not say, so every result below holds for any such machine.
   */
  type Wide = (char32, nat) -> char32

  /** The word without its marks: n bytes carry 5n + 1 payload bits, up to six bytes. */
  function Payload(word: char32, n: nat, wide: Wide): char32 {
    if n == 1 then word % 0x40
    else if n == 2 then word % 0x800
    else if n == 3 then word % 0x1_0000
    else if n == 4 then word % 0x20_0000
    else if n == 5 then word % 0x400_0000
    else if n == 6 then word % 0x8000_0000
    else wide(word, n)
  }

  function Point32(s: seq<byte>, wide: Wide): char32
    requires s != [] && Reads(s[0]) <= |s|
  {
    if s[0] < 0x80 then s[0]
    else Payload(Shifted(s[0], s[1..Reads(s[0])]), Reads(s[0]), wide)
  }

  /** Every sequence, of up to eight bytes, ends inside the text. */
  predicate Framed32(s: seq<byte>) {
    s == [] || (Reads(s[0]) <= |s| && Framed32(s[Reads(s[0])..]))
  }

  function Points32(s: seq<byte>, wide: Wide): seq<char32>
    requires Framed32(s)
  {
    if s == [] then [] else [Point32(s, wide)] + Points32(s[Reads(s[0])..], wide)
  }

  // ---------- one code point ----------

  lemma SixInverts(value: nat, b: byte)
    ensures Six(value, b) / 64 == value && Six(value, b) % 64 == b % 64
  {
  }

  lemma Encodes1(c: char32)
    requires c < 0x80
    ensures Utf8Char(Enc8(c))
  {
  }

  lemma Encodes2(c: char32)
    requires 0x80 <= c < 0x800
    ensures var s := Enc8(c); Utf8Char(s) && Six(s[0] % 32, s[1]) == c
  {
  }

  lemma Encodes3(c: char32)
    requires Scalar(c) && 0x800 <= c < 0x1_0000
    ensures var s := Enc8(c); Utf8Char(s) && Six(Six(s[0] % 16, s[1]), s[2]) == c
  {
    var s, q := Enc8(c), c / 64;
    assert s[0] % 16 == q / 64;
    assert Six(s[0] % 16, s[1]) == q;
  }

  lemma Encodes4(c: char32)
    requires Scalar(c) && 0x1_0000 <= c
    ensures var s := Enc8(c); Utf8Char(s) && Six(Six(Six(s[0] % 8, s[1]), s[2]), s[3]) == c
  {
    var s, q := Enc8(c), c / 64;
    assert s[0] % 8 == q / 64 / 64;
    assert Six(s[0] % 8, s[1]) == q / 64;
    assert Six(q / 64, s[2]) == q;
  }

  /** A scalar value is encoded by the grammar, and the decoder reads it back. */
  lemma EncodingIsUtf8Char(c: char32)
    requires Scalar(c)
    ensures Utf8Char(Enc8(c))
    ensures SeqLength(Enc8(c)[0]) == |Enc8(c)| && Point(Enc8(c)) == c
  {
    if c < 0x80 { Encodes1(c); }
    else if c < 0x800 { Encodes2(c); }
    else if c < 0x1_0000 { Encodes3(c); }
    else { Encodes4(c); }
  }

  lemma Decodes2(s: seq<byte>)
    requires |s| == 2 && Utf8Char(s)
    ensures var c := Six(s[0] % 32, s[1]); 0x80 <= c < 0x800 && Enc8(c) == s
  {
    SixInverts(s[0] % 32, s[1]);
  }

  lemma Decodes3(s: seq<byte>)
    requires |s| == 3 && Utf8Char(s)
    ensures var c := Six(Six(s[0] % 16, s[1]), s[2]); 0x800 <= c < 0x1_0000 && Scalar(c) && Enc8(c) == s
  {
    var q := Six(s[0] % 16, s[1]);
    SixInverts(s[0] % 16, s[1]);
    SixInverts(q, s[2]);
    assert s[0] % 16 == s[0] - 0xe0 && s[1] % 64 == s[1] - 0x80 && s[2] % 64 == s[2] - 0x80;
  }

  lemma FourSixes(v: nat, s: seq<byte>)
    requires |s| == 4
    ensures var c := Six(Six(Six(v, s[1]), s[2]), s[3]);
            && c / 64 / 64 / 64 == v && c / 64 / 64 % 64 == s[1] % 64
            && c / 64 % 64 == s[2] % 64 && c % 64 == s[3] % 64
  {
    var p := Six(v, s[1]);
    var q := Six(p, s[2]);
    SixInverts(v, s[1]);
    SixInverts(p, s[2]);
    SixInverts(q, s[3]);
  }

  lemma FourInRange(s: seq<byte>)
    requires |s| == 4 && Utf8Char(s)
    ensures 0x1_0000 <= Six(Six(Six(s[0] % 8, s[1]), s[2]), s[3]) <= 0x10_ffff
  {
    assert s[0] % 8 == s[0] - 0xf0 && s[1] % 64 == s[1] - 0x80;
    assert 0x10 <= Six(s[0] % 8, s[1]) < 0x110;
  }

  lemma Decodes4(s: seq<byte>)
    requires |s| == 4 && Utf8Char(s)
    ensures var c := Six(Six(Six(s[0] % 8, s[1]), s[2]), s[3]); 0x1_0000 <= c && Scalar(c) && Enc8(c) == s
  {
    FourInRange(s);
    FourSixes(s[0] % 8, s);
    assert s[0] % 8 == s[0] - 0xf0 && s[1] % 64 == s[1] - 0x80 && s[2] % 64 == s[2] - 0x80 && s[3] % 64 == s[3] - 0x80;
  }

  /** What the grammar allows decodes to a scalar value, whose encoding it is. */
  lemma Utf8CharIsEncoding(s: seq<byte>)
    requires Utf8Char(s)
    ensures SeqLength(s[0]) == |s| && Scalar(Point(s)) && Enc8(Point(s)) == s
  {
    if |s| == 2 { Decodes2(s); }
    if |s| == 3 { Decodes3(s); }
    if |s| == 4 { Decodes4(s); }
  }

  lemma PairIsEncoding(high: unit, low: unit)
    requires High(high) && Low(low)
    ensures Enc16(Pair(high, low)) == [high, low] && Scalar(Pair(high, low))
  {
  }

  lemma EncodingIsPair(c: char32)
    requires Scalar(c) && c > 0xffff
    ensures var r := Enc16(c); High(r[0]) && Low(r[1]) && Pair(r[0], r[1]) == c
  {
  }

  // ---------- the two decoders ----------

  /** Six bits at a time without bound. */
  function Gathered(value: nat, s: seq<byte>): nat
    decreases |s|
  {
    if s == [] then value else Gathered(Six(value, s[0]), s[1..])
  }

  function Pow64(n: nat): (r: nat)
    ensures r >= 1
  {
    if n == 0 then 1 else 64 * Pow64(n - 1)
  }

  lemma SixOfMarked(value: nat, mark: nat, b: byte)
    ensures Six(mark + value, b) == 64 * mark + Six(value, b)
  {
  }

  /** Marks in front of a value stay in front of what is gathered behind it. */
  lemma {:induction false} GatheredMarked(mark: nat, value: nat, s: seq<byte>)
    ensures Gathered(mark + value, s) == mark * Pow64(|s|) + Gathered(value, s)
    decreases |s|
  {
    if s != [] {
      SixOfMarked(value, mark, s[0]);
      GatheredMarked(64 * mark, Six(value, s[0]), s[1..]);
      Regrouped(mark, Pow64(|s| - 1));
    }
  }

  lemma {:induction false} GatheredBound(value: nat, s: seq<byte>)
    ensures Gathered(value, s) < (value + 1) * Pow64(|s|)
    decreases |s|
  {
    if s != [] {
      var n := Pow64(|s| - 1);
      GatheredBound(Six(value, s[0]), s[1..]);
      Product(Six(value, s[0]) + 1, 64 * (value + 1), n);
      Regrouped(value + 1, n);
    }
  }

  lemma Regrouped(a: nat, n: nat)
    ensures 64 * a * n == a * (64 * n)
  {
  }

  lemma Product(a: nat, b: nat, n: nat)
    requires a <= b
    ensures a * n <= b * n
  {
  }

  lemma SixInWord(word: char32, value: nat, b: byte)
    requires word == value % 0x1_0000_0000
    ensures Word(Six(word, b)) == Six(value, b) % 0x1_0000_0000
  {
    var q := value / 0x1_0000_0000;
    DivShift(Six(word, b), 0x1_0000_0000, 64 * q);
    assert value == 0x1_0000_0000 * q + word;
    assert Six(value, b) == Six(word, b) + 0x1_0000_0000 * (64 * q);
  }

  /** The word holds the lowest 32 bits of what is gathered. */
  lemma {:induction false} ShiftedIsGathered(word: char32, value: nat, s: seq<byte>)
    requires word == value % 0x1_0000_0000
    ensures Shifted(word, s) == Gathered(value, s) % 0x1_0000_0000
    decreases |s|
  {
    if s != [] {
      SixInWord(word, value, s[0]);
      ShiftedIsGathered(Word(Six(word, s[0])), Six(value, s[0]), s[1..]);
    }
  }

  /** The values of the payload of a first byte that announces n bytes. */
  function LeadValues(n: nat): nat {
    if n == 2 then 32 else if n == 3 then 16 else if n == 4 then 8 else if n == 5 then 4 else 2
  }

  lemma PowersOf64()
    ensures Pow64(1) == 64 && Pow64(2) == 0x1000 && Pow64(3) == 0x4_0000 && Pow64(4) == 0x100_0000 && Pow64(5) == 0x4000_0000
  {
    assert Pow64(2) == 64 * Pow64(1);
    assert Pow64(3) == 64 * Pow64(2);
    assert Pow64(4) == 64 * Pow64(3);
    assert Pow64(5) == 64 * Pow64(4);
  }

  /** A remainder by a multiple first makes no difference. */
  lemma ModOfMod(x: nat, a: nat, k: nat, c: nat, y: nat)
    requires a > 0 && k > 0 && x == c * a + y && y < a
    ensures x % (a * k) % a == y
  {
    var q := x / (a * k);
    assert a * k > 0 && x % (a * k) == x - q * (a * k);
    assert x - q * (a * k) == y + a * (c - q * k);
    DivShift(y, a, c - q * k);
    DivUnique(y, a, 0, y);
  }

  /** Payload cuts everything but the lowest bits off, by the number of bytes. */
  lemma PayloadCuts(x: nat, n: nat, c: nat, y: nat, wide: Wide)
    requires 2 <= n <= 6 && y < LeadValues(n) * Pow64(n - 1) && x == c * (LeadValues(n) * Pow64(n - 1)) + y
    ensures Payload(x % 0x1_0000_0000, n, wide) == y
  {
    PowersOf64();
    if n == 2 {
      ModOfMod(x, 0x800, 0x20_0000, c, y);
    } else if n == 3 {
      ModOfMod(x, 0x1_0000, 0x1_0000, c, y);
    } else if n == 4 {
      ModOfMod(x, 0x20_0000, 0x800, c, y);
    } else if n == 5 {
      ModOfMod(x, 0x400_0000, 0x40, c, y);
    } else {
      ModOfMod(x, 0x8000_0000, 2, c, y);
    }
  }

  /** The first byte is marks and payload. */
  lemma LeadSplits(b: byte, n: nat)
    requires 0xc0 <= b < 0xfe && n == Reads(b)
    ensures 2 <= n <= 6 && b == b / LeadValues(n) * LeadValues(n) + b % LeadValues(n)
  {
  }

  /**
    For every first byte of two to six leading one bits, utf32_at_internal gathers the payload of the
    first byte and six bits of each byte behind it, whatever these are.
   */
  lemma MarksVanish(s: seq<byte>, wide: Wide)
    requires s != [] && 0xc0 <= s[0] < 0xfe && Reads(s[0]) <= |s|
    ensures var n := Reads(s[0]); Point32(s, wide) == Gathered(s[0] % LeadValues(n), s[1..n])
  {
    var n := Reads(s[0]);
    var t, l := s[1..n], LeadValues(n);
    LeadSplits(s[0], n);
    var c: nat, v: nat := s[0] / l, s[0] % l;
    ShiftedIsGathered(s[0], s[0], t);
    GatheredMarked(c * l, v, t);
    GatheredBound(v, t);
    MarksAbove(c, l, v, Pow64(n - 1), Gathered(s[0], t), Gathered(v, t));
    PayloadCuts(Gathered(s[0], t), n, c, Gathered(v, t), wide);
  }

  lemma MarksAbove(c: nat, l: nat, v: nat, p: nat, whole: nat, low: nat)
    requires v < l && whole == c * l * p + low && low < (v + 1) * p
    ensures whole == c * (l * p) + low && low < l * p
  {
    Product(v + 1, l, p);
  }

  /** utf8_to_utf32_codepoint gathers the same. */
  lemma PointIsGathered(s: seq<byte>)
    requires s != [] && 0xc0 <= s[0] < 0xf8 && SeqLength(s[0]) <= |s|
    ensures var n := SeqLength(s[0]); Point(s) == Gathered(s[0] % LeadValues(n), s[1..n])
  {
    var n := SeqLength(s[0]);
    var t, v := s[1..n], s[0] % LeadValues(n);
    assert Gathered(v, t) == Gathered(Six(v, t[0]), t[1..]);
    if n == 3 {
      assert t[1..] == [s[2]];
      assert Gathered(Six(Six(v, t[0]), s[2]), []) == Six(Six(v, t[0]), s[2]);
    } else if n == 4 {
      assert t[1..] == [s[2], s[3]] && t[1..][1..] == [s[3]];
      assert Gathered(Six(Six(v, t[0]), s[2]), [s[3]]) == Gathered(Six(Six(Six(v, t[0]), s[2]), s[3]), []);
    }
  }

  /**
    The two decoders read the same bytes as the same value, well formed or not, if and only if the first
    is no extension byte; that one stands for itself in UTF-16 and loses its mark in UTF-32.
   */
  lemma DecodersAgree(s: seq<byte>, wide: Wide)
    requires s != [] && s[0] < 0xf8 && SeqLength(s[0]) <= |s|
    ensures Reads(s[0]) == SeqLength(s[0]) && (Point32(s, wide) == Point(s) <==> !IsExtension(s[0]))
    ensures IsExtension(s[0]) ==> Point(s) == s[0] && Point32(s, wide) == s[0] - 0x80
  {
    if s[0] >= 0xc0 {
      MarksVanish(s, wide);
      PointIsGathered(s);
    }
  }

  /** On the grammar the two decoders take the same bytes to the same value. */
  lemma SamePoint(s: seq<byte>, wide: Wide)
    requires s != [] && SeqLength(s[0]) <= |s| && Utf8Char(s[..SeqLength(s[0])])
    ensures s[0] < 0xf8 && Reads(s[0]) == SeqLength(s[0]) && Point32(s, wide) == Point(s)
  {
    assert s[..SeqLength(s[0])][0] == s[0];
    DecodersAgree(s, wide);
  }

  // ---------- whole texts ----------

  lemma PointOfPrefix(a: seq<byte>, b: seq<byte>)
    requires a != [] && SeqLength(a[0]) <= |a|
    ensures Point(a + b) == Point(a)
  {
    assert forall i | 0 <= i < |a| :: (a + b)[i] == a[i];
  }

  /** Scalar values, encoded as UTF-8 and decoded. */
  lemma {:induction false} Decoded8(cs: seq<char32>)
    requires AllScalar(cs)
    ensures WellFormed8(To8(cs)) && Framed(To8(cs)) && Points8(To8(cs)) == cs
  {
    if cs != [] {
      var c, rest := cs[0], cs[1..];
      Decoded8(rest);
      EncodingIsUtf8Char(c);
      PointOfPrefix(Enc8(c), To8(rest));
      var s, n := To8(cs), |Enc8(c)|;
      assert s[..n] == Enc8(c) && s[n..] == To8(rest);
    }
  }

  lemma FirstOfWellFormed(s: seq<byte>) returns (c: char32)
    requires s != [] && WellFormed8(s)
    ensures var n := SeqLength(s[0]);
            && n <= |s| && WellFormed8(s[n..])
            && Scalar(c) && Enc8(c) == s[..n]
            && (Framed(s[n..]) ==> Framed(s) && Points8(s) == [c] + Points8(s[n..]))
  {
    var n := SeqLength(s[0]);
    Utf8CharIsEncoding(s[..n]);
    PointOfPrefix(s[..n], s[n..]);
    assert s == s[..n] + s[n..];
    c := Point(s);
  }

  lemma EncodedFirst(c: char32, cs: seq<char32>, s: seq<byte>, n: nat)
    requires n <= |s| && Enc8(c) == s[..n] && To8(cs) == s[n..]
    ensures To8([c] + cs) == s
  {
    assert ([c] + cs)[1..] == cs;
  }

  lemma AllScalarMore(c: char32, cs: seq<char32>)
    requires Scalar(c) && AllScalar(cs)
    ensures AllScalar([c] + cs)
  {
  }

  /** Well-formed UTF-8, decoded and encoded. */
  lemma {:induction false} Encoded8(s: seq<byte>)
    requires WellFormed8(s)
    ensures Framed(s) && AllScalar(Points8(s)) && To8(Points8(s)) == s
    decreases |s|
  {
    if s != [] {
      var n := SeqLength(s[0]);
      var c := FirstOfWellFormed(s);
      Encoded8(s[n..]);
      EncodedFirst(c, Points8(s[n..]), s, n);
      AllScalarMore(c, Points8(s[n..]));
    }
  }

  /** Every string of units, lone surrogates included, decoded and encoded. */
  lemma {:induction false} Encoded16(us: seq<unit>)
    ensures To16(Points16(us)) == us
    decreases |us|
  {
    if us != [] {
      var cs := Points16(us);
      if PairAt(us) {
        PairIsEncoding(us[0], us[1]);
        Encoded16(us[2..]);
        assert cs[1..] == Points16(us[2..]);
        assert us == [us[0], us[1]] + us[2..];
      } else {
        Encoded16(us[1..]);
        assert cs[1..] == Points16(us[1..]);
      }
    }
  }

  /** Scalar values, encoded as UTF-16 and decoded. */
  lemma {:induction false} Decoded16(cs: seq<char32>)
    requires AllScalar(cs)
    ensures Points16(To16(cs)) == cs && WellFormed16(To16(cs))
  {
    if cs != [] {
      var c, us := cs[0], To16(cs);
      Decoded16(cs[1..]);
      if c > 0xffff {
        EncodingIsPair(c);
        assert us[2..] == To16(cs[1..]);
      } else {
        assert us[0] == c && us[1..] == To16(cs[1..]);
      }
    }
  }

  lemma {:induction false} WellFormedIsScalar(us: seq<unit>)
    ensures WellFormed16(us) <==> AllScalar(Points16(us))
    decreases |us|
  {
    if us != [] {
      var n := if PairAt(us) then 2 else 1;
      WellFormedIsScalar(us[n..]);
      var cs := Points16(us);
      assert cs[1..] == Points16(us[n..]);
      if PairAt(us) { PairIsEncoding(us[0], us[1]); }
      assert AllScalar(cs) <==> Scalar(cs[0]) && AllScalar(cs[1..]) by { AllScalarFirst(cs); }
    }
  }

  lemma AllScalarFirst(cs: seq<char32>)
    requires cs != []
    ensures AllScalar(cs) <==> Scalar(cs[0]) && AllScalar(cs[1..])
  {
    if Scalar(cs[0]) && AllScalar(cs[1..]) {
      forall i | 0 <= i < |cs| ensures Scalar(cs[i]) {
        if i > 0 { assert cs[i] == cs[1..][i - 1]; }
      }
    }
  }

  /** The decoder of the UTF-32 converter agrees with the other one on well-formed text. */
  lemma {:induction false} SamePoints(s: seq<byte>, wide: Wide)
    requires WellFormed8(s)
    ensures Framed(s) && Framed32(s) && Points32(s, wide) == Points8(s)
    decreases |s|
  {
    if s != [] {
      SamePoint(s, wide);
      SamePoints(s[SeqLength(s[0])..], wide);
    }
  }

  // ---------- the conversions ----------

  /** What utf8_to_utf16 writes. */
  function Utf8To16(s: seq<byte>): seq<unit>
    requires Framed(s)
  {
    To16(Points8(s))
  }

  /** What utf16_to_utf8 writes before its terminator: lone surrogates leave no bytes. */
  function Utf16To8(us: seq<unit>): seq<byte> {
    To8(Points16(us))
  }

  /** Well-formed UTF-8 survives the way to UTF-16 and back. */
  lemma Utf8RoundTrip(s: seq<byte>)
    requires WellFormed8(s)
    ensures Framed(s) && WellFormed16(Utf8To16(s)) && Utf16To8(Utf8To16(s)) == s
  {
    Encoded8(s);
    Decoded16(Points8(s));
  }

  /** Well-formed UTF-16 survives the way to UTF-8 and back. */
  lemma Utf16RoundTrip(us: seq<unit>)
    requires WellFormed16(us)
    ensures var s := Utf16To8(us); WellFormed8(s) && Framed(s) && Utf8To16(s) == us
  {
    WellFormedIsScalar(us);
    Decoded8(Points16(us));
    Encoded16(us);
  }

  /** Scalar values survive the way to UTF-8 and back. */
  lemma Utf32RoundTrip(cs: seq<char32>, wide: Wide)
    requires AllScalar(cs)
    ensures var s := To8(cs); WellFormed8(s) && Framed32(s) && Points32(s, wide) == cs
  {
    Decoded8(cs);
    SamePoints(To8(cs), wide);
  }

  /** Well-formed UTF-8 survives the way to UTF-32 and back. */
  lemma Utf8ThroughUtf32(s: seq<byte>, wide: Wide)
    requires WellFormed8(s)
    ensures Framed32(s) && AllScalar(Points32(s, wide)) && To8(Points32(s, wide)) == s
  {
    Encoded8(s);
    SamePoints(s, wide);
  }

  // ---------- the length pass over UTF-16 ----------

  /** What utf16_to_utf8_length adds up: it steps past a high surrogate before it looks for the low one. */
  function Measured(us: seq<unit>): nat {
    if us == [] then 0
    else if PairAt(us) then 4 + Measured(us[2..])
    else if High(us[0]) && |us| > 1 then Utf8Length(us[1]) + Measured(us[2..])
    else Utf8Length(us[0]) + Measured(us[1..])
  }

  /** Low surrogates that end an even, positive number of high ones; run of them came before us. */
  function EvenRuns(us: seq<unit>, run: nat): nat {
    if us == [] then 0
    else if High(us[0]) then EvenRuns(us[1..], run + 1)
    else (if Low(us[0]) && run > 0 && run % 2 == 0 then 1 else 0) + EvenRuns(us[1..], 0)
  }

  /** The bytes that utf16_to_utf8 writes, unit by unit. */
  function ByUnit(us: seq<unit>, afterHigh: bool): nat {
    if us == [] then 0
    else (if afterHigh && Low(us[0]) then 4 else Utf8Length(us[0])) + ByUnit(us[1..], High(us[0]))
  }

  lemma {:induction false} WrittenByUnit(us: seq<unit>)
    ensures |Utf16To8(us)| == ByUnit(us, false)
    decreases |us|
  {
    if us != [] {
      var cs := Points16(us);
      if PairAt(us) {
        WrittenByUnit(us[2..]);
        assert cs[1..] == Points16(us[2..]);
        assert us[1..][1..] == us[2..];
      } else {
        WrittenByUnit(us[1..]);
        assert cs[1..] == Points16(us[1..]);
        assert ByUnit(us[1..], High(us[0])) == ByUnit(us[1..], false);
      }
    }
  }

  lemma {:induction false} MeasuredByUnit(us: seq<unit>, run: nat)
    requires run % 2 == 0
    ensures ByUnit(us, run > 0) == Measured(us) + 4 * EvenRuns(us, run)
    decreases |us|
  {
    if us != [] {
      if High(us[0]) && |us| > 1 {
        assert us[1..][1..] == us[2..];
        MeasuredByUnit(us[2..], if High(us[1]) then run + 2 else 0);
      } else {
        MeasuredByUnit(us[1..], 0);
      }
    }
  }

  /**
    The length pass falls four bytes short of what utf16_to_utf8 writes for each low surrogate that
    ends an even run of high ones, and by nothing else: it is exact if and only if there is none.
   */
  lemma LengthShortfall(us: seq<unit>)
    ensures |Utf16To8(us)| == Measured(us) + 4 * EvenRuns(us, 0)
    ensures Measured(us) == |Utf16To8(us)| <==> EvenRuns(us, 0) == 0
  {
    WrittenByUnit(us);
    MeasuredByUnit(us, 0);
  }

  lemma {:induction false} WellFormedHasNoRuns(us: seq<unit>)
    requires WellFormed16(us)
    ensures EvenRuns(us, 0) == 0
    decreases |us|
  {
    if us != [] {
      if PairAt(us) {
        assert us[1..][1..] == us[2..];
        WellFormedHasNoRuns(us[2..]);
      } else {
        WellFormedHasNoRuns(us[1..]);
      }
    }
  }

  /** Two high surrogates and a low one: nothing is measured, four bytes are written. */
  lemma ShortfallExample()
    ensures Measured([0xd800, 0xd800, 0xdc00]) == 0 && |Utf16To8([0xd800, 0xd800, 0xdc00])| == 4
  {
    var us: seq<unit> := [0xd800, 0xd800, 0xdc00];
    assert us[1..] == [0xd800, 0xdc00] && us[2..] == [0xdc00] && us[1..][1..] == us[2..] && us[1..][2..] == [];
    assert EvenRuns(us[2..], 2) == 1;
    assert EvenRuns(us, 0) == EvenRuns(us[1..], 1) == 1;
    LengthShortfall(us);
  }
}
