/** strdup8to16.c and strdup16to8.c: Java's modified UTF-8 to and from 16-bit units. */
module JavaUtf8 {
  import opened Basics
  import opened Utf8Lead
  import opened Arithmetic
  import opened CInt

  const REPLACEMENT: unit := 0xfffd
  const UNICODE_UPPER_LIMIT: nat := 0x10fffd

  /** The bytes of a C string before its terminator. */
  predicate CString(s: seq<byte>) {
    forall i :: 0 <= i < |s| ==> s[i] != 0
  }

  // ---------- from bytes to units ----------

  /** The payload of a first byte, by the leaderMask table. */
  function LeadBits(b: byte, n: nat): nat {
    if n == 1 then b else if n == 2 then b % 32 else if n == 3 then b % 16 else b % 8
  }

  datatype Decoded = Decoded(value: nat, used: nat)

  /** The value so far, with up to more extension bytes shifted in; a missing one spoils it. */
  function Extend(s: seq<byte>, value: nat, more: nat): (r: Decoded)
    ensures r.used <= |s| && r.used <= more
    decreases more
  {
    if more == 0 then Decoded(value, 0)
    else if s == [] || !IsExtension(s[0]) then Decoded(REPLACEMENT, 0)
    else
      var r := Extend(s[1..], value * 64 + s[0] % 64, more - 1);
      Decoded(r.value, r.used + 1)
  }

  /** getUtf32FromUtf8 on a non-empty rest of the string: the value and the bytes consumed. */
  function Decode(s: seq<byte>): (r: Decoded)
    requires s != []
    ensures 1 <= r.used <= |s|
  {
    if IsExtension(s[0]) then Decoded(REPLACEMENT, 1)
    else
      var n := SeqLength(s[0]);
      var r := Extend(s[1..], LeadBits(s[0], n), n - 1);
      Decoded(r.value, r.used + 1)
  }

  /** The units written for a value: one, a surrogate pair, or a replacement. */
  function Units(v: nat): seq<unit> {
    if v <= 0xffff then [v]
    else if v <= UNICODE_UPPER_LIMIT then [0xd800 + (v - 0x1_0000) / 0x400, 0xdc00 + (v - 0x1_0000) % 0x400]
    else [REPLACEMENT]
  }

  /** What strcpy8to16 writes. */
  function Copy8To16(s: seq<byte>): seq<unit> {
    if s == [] then [] else var r := Decode(s); Units(r.value) + Copy8To16(s[r.used..])
  }

  /** What strlen8to16 counts, with so many extension bytes still expected. */
  function Count8To16(s: seq<byte>, expected: int): nat {
    if s == [] then 0
    else if IsExtension(s[0]) then (if expected - 1 < 0 then 1 else 0) + Count8To16(s[1..], expected - 1)
    else
      var n := SeqLength(s[0]);
      (if n == 4 then 2 else 1) + Count8To16(s[1..], n - 1)
  }

  // ---------- the length pass against the copy pass ----------

  /** The count passes over the extension bytes that the decoder takes, and then expects no more of them. */
  lemma {:induction false} CountOverExtension(s: seq<byte>, value: nat, more: nat)
    ensures var n := Extend(s, value, more).used;
            && Count8To16(s, more) == Count8To16(s[n..], more - n)
            && (n < |s| && IsExtension(s[n]) ==> more - n <= 0)
    decreases more
  {
    if more > 0 && s != [] && IsExtension(s[0]) {
      CountOverExtension(s[1..], value * 64 + s[0] % 64, more - 1);
      var n := Extend(s, value, more).used;
      assert s[1..][n - 1..] == s[n..];
    } else {
      assert s[0..] == s;
    }
  }

  /** What so many extension bytes can still make of a value. */
  function Reach(value: nat, more: nat): nat
    decreases more
  {
    if more == 0 then value else Reach(value * 64 + 63, more - 1)
  }

  lemma {:induction false} ReachMonotone(v: nat, w: nat, more: nat)
    requires v <= w
    ensures Reach(v, more) <= Reach(w, more)
    decreases more
  {
    if more > 0 { ReachMonotone(v * 64 + 63, w * 64 + 63, more - 1); }
  }

  lemma {:induction false} ExtendReach(s: seq<byte>, value: nat, more: nat)
    ensures Extend(s, value, more).value <= Reach(value, more) || Extend(s, value, more).value == REPLACEMENT
    decreases more
  {
    if more > 0 && s != [] && IsExtension(s[0]) {
      ExtendReach(s[1..], value * 64 + s[0] % 64, more - 1);
      ReachMonotone(value * 64 + s[0] % 64, value * 64 + 63, more - 1);
    }
  }

  /** A decoded value takes no more units than its first byte was counted for. */
  lemma UnitsFit(s: seq<byte>)
    requires s != []
    ensures |Units(Decode(s).value)| <= (if !IsExtension(s[0]) && SeqLength(s[0]) == 4 then 2 else 1)
  {
    if !IsExtension(s[0]) {
      var n := SeqLength(s[0]);
      var lead := LeadBits(s[0], n);
      ExtendReach(s[1..], lead, n - 1);
      if n == 2 { ReachMonotone(lead, 31, 1); }
      if n == 3 { ReachMonotone(lead, 15, 2); assert Reach(15, 2) == 0xffff; }
    }
  }

  lemma CountOverLead(s: seq<byte>, expected: int)
    requires s != [] && !IsExtension(s[0])
    ensures var used, n := Decode(s).used, SeqLength(s[0]);
            && Count8To16(s, expected) == (if n == 4 then 2 else 1) + Count8To16(s[used..], n - used)
            && (used < |s| && IsExtension(s[used]) ==> n - used <= 0)
  {
    var n, used := SeqLength(s[0]), Decode(s).used;
    CountOverExtension(s[1..], LeadBits(s[0], n), n - 1);
    assert s[1..][used - 1..] == s[used..];
  }

  /** One decoded value against the count of its bytes. */
  lemma CountOverDecode(s: seq<byte>, expected: int) returns (left: int)
    requires s != [] && (IsExtension(s[0]) ==> expected <= 0)
    ensures var r := Decode(s);
            && Count8To16(s, expected) >= |Units(r.value)| + Count8To16(s[r.used..], left)
            && (r.used < |s| && IsExtension(s[r.used]) ==> left <= 0)
  {
    UnitsFit(s);
    if IsExtension(s[0]) {
      left := expected - 1;
    } else {
      CountOverLead(s, expected);
      left := SeqLength(s[0]) - Decode(s).used;
    }
  }

  /**
    For every byte string, well formed or not, strcpy8to16 writes at most as many units as
    strlen8to16 counts.
   */
  lemma {:induction false} CopyFitsCount(s: seq<byte>, expected: int)
    requires s != [] && IsExtension(s[0]) ==> expected <= 0
    ensures |Copy8To16(s)| <= Count8To16(s, expected)
    decreases |s|
  {
    if s != [] {
      var left := CountOverDecode(s, expected);
      CopyFitsCount(s[Decode(s).used..], left);
    }
  }

  // ---------- resynchronisation ----------

  /** Text that does not begin in the middle of a sequence. */
  predicate Fresh(s: seq<byte>) {
    s != [] ==> !IsExtension(s[0])
  }

  lemma {:induction false} ExtendStops(a: seq<byte>, b: seq<byte>, value: nat, more: nat)
    requires Fresh(b)
    ensures Extend(a + b, value, more) == Extend(a, value, more)
    decreases more
  {
    if more > 0 {
      if a == [] {
        assert a + b == b;
      } else if IsExtension(a[0]) {
        assert (a + b)[1..] == a[1..] + b;
        ExtendStops(a[1..], b, value * 64 + a[0] % 64, more - 1);
      }
    }
  }

  lemma DecodeStops(a: seq<byte>, b: seq<byte>)
    requires a != [] && Fresh(b)
    ensures Decode(a + b) == Decode(a)
  {
    assert (a + b)[1..] == a[1..] + b;
    var n := SeqLength(a[0]);
    ExtendStops(a[1..], b, LeadBits(a[0], n), n - 1);
  }

  lemma CopyFirst(s: seq<byte>, value: nat, used: nat)
    requires s != [] && Decode(s) == Decoded(value, used)
    ensures Copy8To16(s) == Units(value) + Copy8To16(s[used..])
  {
  }

  lemma CopyJoined(a: seq<byte>, b: seq<byte>, value: nat, used: nat)
    requires a != [] && used <= |a| && Decode(a + b) == Decoded(value, used)
    ensures Copy8To16(a + b) == Units(value) + Copy8To16(a[used..] + b)
  {
    CopyFirst(a + b, value, used);
    SliceOfJoin(a, b, used);
  }

  lemma SliceOfJoin(a: seq<byte>, b: seq<byte>, k: nat)
    requires k <= |a|
    ensures (a + b)[k..] == a[k..] + b
  {
  }

  lemma SplitFirst(a: seq<byte>, b: seq<byte>) returns (us: seq<unit>, used: nat)
    requires a != [] && Fresh(b)
    ensures 1 <= used <= |a|
    ensures Copy8To16(a) == us + Copy8To16(a[used..])
    ensures Copy8To16(a + b) == us + Copy8To16(a[used..] + b)
  {
    var value := Decode(a).value;
    us, used := Units(value), Decode(a).used;
    DecodeStops(a, b);
    CopyFirst(a, value, used);
    CopyJoined(a, b, value, used);
  }

  /**
    However broken the bytes before it are, text that starts at a sequence boundary converts as it
    would alone: an error never swallows the next character.
   */
  lemma {:induction false} CopySplits(a: seq<byte>, b: seq<byte>)
    requires Fresh(b)
    ensures Copy8To16(a + b) == Copy8To16(a) + Copy8To16(b)
    decreases |a|
  {
    if a == [] {
      assert a + b == b;
    } else {
      var us, used := SplitFirst(a, b);
      CopySplits(a[used..], b);
      Regroup(us, Copy8To16(a[used..]), Copy8To16(b));
    }
  }

  /** The count is split at the same places. */
  lemma {:induction false} CountSplits(a: seq<byte>, b: seq<byte>, expected: int)
    requires Fresh(b)
    ensures Count8To16(a + b, expected) == Count8To16(a, expected) + Count8To16(b, 0)
    decreases |a|
  {
    if a == [] {
      assert a + b == b;
    } else {
      assert (a + b)[1..] == a[1..] + b;
      CountSplits(a[1..], b, if IsExtension(a[0]) then expected - 1 else SeqLength(a[0]) - 1);
    }
  }

  // ---------- from units to bytes ----------

  /** The bytes of one unit; zero takes two, so that no byte is zero. */
  function EncodeUnit(u: unit): seq<byte> {
    if u > 0x7ff then [0xe0 + u / 4096, 0x80 + u / 64 % 64, 0x80 + u % 64]
    else if u > 0x7f || u == 0 then [0xc0 + u / 64, 0x80 + u % 64]
    else [u]
  }

  function Encode(us: seq<unit>): seq<byte> {
    if us == [] then [] else EncodeUnit(us[0]) + Encode(us[1..])
  }

  lemma {:induction false} EncodeAppend(us: seq<unit>, i: nat)
    requires i < |us|
    ensures Encode(us[..i + 1]) == Encode(us[..i]) + EncodeUnit(us[i])
  {
    if i == 0 {
      assert us[..1][1..] == [] && us[..0] == [];
    } else {
      EncodeAppend(us[1..], i - 1);
      assert us[..i + 1][1..] == us[1..][..i] && us[..i][1..] == us[1..][..i - 1];
      Regroup(EncodeUnit(us[0]), Encode(us[1..][..i - 1]), EncodeUnit(us[i]));
    }
  }

  lemma {:induction false} EncodePrefixFits(us: seq<unit>, i: nat)
    requires i <= |us|
    ensures |Encode(us[..i])| <= |Encode(us)|
    decreases |us| - i
  {
    if i < |us| {
      EncodeAppend(us, i);
      EncodePrefixFits(us, i + 1);
    } else {
      assert us[..i] == us;
    }
  }

  /** No byte before the terminator is zero, and at most three bytes are written for a unit. */
  lemma {:induction false} EncodeIsCString(us: seq<unit>)
    ensures CString(Encode(us)) && Fresh(Encode(us))
    ensures |us| <= |Encode(us)| <= 3 * |us|
  {
    if us != [] { EncodeIsCString(us[1..]); }
  }

  lemma ThreeBytesCount(a: byte, b: byte, c: byte)
    requires 0xe0 <= a < 0xf0 && IsExtension(b) && IsExtension(c)
    ensures Count8To16([a, b, c], 0) == 1
  {
    assert [a, b, c][1..] == [b, c] && [b, c][1..] == [c];
    assert Count8To16([c], 1) == Count8To16([], 0) == 0;
    assert Count8To16([b, c], 2) == 0;
  }

  lemma ThreeBytesDecode(a: byte, b: byte, c: byte)
    requires 0xe0 <= a < 0xf0 && IsExtension(b) && IsExtension(c)
    ensures Decode([a, b, c]) == Decoded((a % 16 * 64 + b % 64) * 64 + c % 64, 3)
  {
    assert [a, b, c][1..] == [b, c] && [b, c][1..] == [c] && [c][1..] == [];
    var v: nat := a % 16;
    assert Extend([c], v * 64 + b % 64, 1) == Decoded((v * 64 + b % 64) * 64 + c % 64, 1);
  }

  lemma ThreeBytes(u: unit)
    requires u > 0x7ff
    ensures Decode(EncodeUnit(u)) == Decoded(u, 3)
    ensures Count8To16(EncodeUnit(u), 0) == 1
  {
    var a, b, c := 0xe0 + u / 4096, 0x80 + u / 64 % 64, 0x80 + u % 64;
    ThreeBytesDecode(a, b, c);
    ThreeBytesCount(a, b, c);
    ThreeParts(u);
  }

  lemma ThreeParts(u: unit)
    ensures (0xe0 + u / 4096) % 16 == u / 4096 && (0x80 + u / 64 % 64) % 64 == u / 64 % 64 && (0x80 + u % 64) % 64 == u % 64
    ensures u == (u / 4096 * 64 + u / 64 % 64) * 64 + u % 64
  {
    var q: int := u / 64;
    assert u / 4096 == q / 64;
  }

  lemma TwoBytes(u: unit)
    requires u <= 0x7ff && (u > 0x7f || u == 0)
    ensures Decode(EncodeUnit(u)) == Decoded(u, 2)
    ensures Count8To16(EncodeUnit(u), 0) == 1
  {
    var s := EncodeUnit(u);
    assert s[1..] == [s[1]] && s[1..][1..] == [];
    assert LeadBits(s[0], 2) == u / 64;
    assert Count8To16(s[1..], 1) == Count8To16([], 0) == 0;
  }

  lemma UnitRoundTrip(u: unit)
    ensures Copy8To16(EncodeUnit(u)) == [u]
    ensures Count8To16(EncodeUnit(u), 0) == 1
  {
    var s := EncodeUnit(u);
    if u > 0x7ff { ThreeBytes(u); }
    else if u > 0x7f || u == 0 { TwoBytes(u); }
    assert Decode(s) == Decoded(u, |s|);
    assert s[|s|..] == [];
  }

  /**
    Every string of 16-bit units, surrogates and zeros included, survives the way to modified
    UTF-8 and back, and strlen8to16 counts exactly its units.
   */
  lemma {:induction false} RoundTrip(us: seq<unit>)
    ensures Copy8To16(Encode(us)) == us
    ensures Count8To16(Encode(us), 0) == |us|
  {
    if us != [] {
      RoundTrip(us[1..]);
      UnitRoundTrip(us[0]);
      EncodeIsCString(us[1..]);
      CopySplits(EncodeUnit(us[0]), Encode(us[1..]));
      CountSplits(EncodeUnit(us[0]), Encode(us[1..]), 0);
    }
  }

  // ---------- strdup8to16.c ----------

  /** What strlen8to16 counts with expected in an int. */
  function CountInInt(s: seq<byte>, expected: int): nat {
    if s == [] then 0
    else if IsExtension(s[0]) then
      var e := Wrap32(expected - 1); (if e < 0 then 1 else 0) + CountInInt(s[1..], e)
    else
      var n := SeqLength(s[0]);
      (if n == 4 then 2 else 1) + CountInInt(s[1..], n - 1)
  }

  /** No run of extension bytes takes expected below an int: 2^31 of them are never too many. */
  predicate RunsFit(s: seq<byte>, expected: int) {
    if s == [] then true
    else if IsExtension(s[0]) then expected > INT_MIN && RunsFit(s[1..], expected - 1)
    else RunsFit(s[1..], SeqLength(s[0]) - 1)
  }

  lemma {:induction false} ShortRunsFit(s: seq<byte>, expected: int)
    requires |s| <= expected - INT_MIN && expected <= 0
    ensures RunsFit(s, expected)
    decreases |s|
  {
    if s != [] {
      ShortRunsFit(s[1..], if IsExtension(s[0]) then expected - 1 else 0);
      RunsFitMore(s[1..], 0, SeqLength(s[0]) - 1);
    }
  }

  lemma {:induction false} RunsFitMore(s: seq<byte>, e: int, e': int)
    requires e <= e'
    ensures RunsFit(s, e) ==> RunsFit(s, e')
    decreases |s|
  {
    if s != [] && IsExtension(s[0]) { RunsFitMore(s[1..], e - 1, e' - 1); }
  }

  /** The more is expected the less is counted, and an int that wraps expects more. */
  lemma {:induction false} CountsNoMore(s: seq<byte>, expected: int, e: int)
    requires expected <= e && IsInt(e)
    ensures CountInInt(s, e) <= Count8To16(s, expected)
    decreases |s|
  {
    if s != [] {
      if IsExtension(s[0]) {
        Wrap32Shift(e - 1, 1);
        CountsNoMore(s[1..], expected - 1, Wrap32(e - 1));
      } else {
        CountsNoMore(s[1..], SeqLength(s[0]) - 1, SeqLength(s[0]) - 1);
      }
    }
  }

  /** The count in an int is exact if and only if no run of extension bytes is too long for one. */
  lemma {:induction false} CountIsExact(s: seq<byte>, expected: int)
    requires IsInt(expected)
    ensures CountInInt(s, expected) == Count8To16(s, expected) <==> RunsFit(s, expected)
    decreases |s|
  {
    if s != [] {
      if !IsExtension(s[0]) {
        CountIsExact(s[1..], SeqLength(s[0]) - 1);
      } else if expected > INT_MIN {
        CountIsExact(s[1..], expected - 1);
      } else {
        Wrap32Shift(expected - 1, 1);
        CountsNoMore(s[1..], expected - 1, INT_MAX);
      }
    }
  }

  /** No first byte announces four bytes, for which two units are counted. */
  predicate NoFours(s: seq<byte>) {
    forall i :: 0 <= i < |s| ==> s[i] < 0xf0
  }

  /** Without four-byte sequences the copy writes exactly what is counted. */
  lemma {:induction false} CopyIsCount(s: seq<byte>, expected: int)
    requires NoFours(s) && (s != [] && IsExtension(s[0]) ==> expected <= 0)
    ensures |Copy8To16(s)| == Count8To16(s, expected)
    decreases |s|
  {
    if s != [] {
      var used := Decode(s).used;
      UnitsFit(s);
      if IsExtension(s[0]) {
        CopyIsCount(s[1..], expected - 1);
      } else {
        CountOverLead(s, expected);
        CopyIsCount(s[used..], SeqLength(s[0]) - used);
      }
    }
  }

  /**
    The count in an int is enough for the copy whenever no run of extension bytes is too long for
    one, and without four-byte sequences, which are counted with one unit to spare, only then.
   */
  lemma CountIsEnough(s: seq<byte>)
    ensures RunsFit(s, 0) ==> |Copy8To16(s)| <= CountInInt(s, 0)
    ensures NoFours(s) ==> (|Copy8To16(s)| <= CountInInt(s, 0) <==> RunsFit(s, 0))
  {
    CountIsExact(s, 0);
    CopyFitsCount(s, 0);
    CountsNoMore(s, 0, 0);
    if NoFours(s) { CopyIsCount(s, 0); }
  }

  /** So many extension bytes without a first byte. */
  function Strays(n: nat): (s: seq<byte>)
    ensures |s| == n && NoFours(s) && CString(s)
  {
    if n == 0 then [] else [0x80] + Strays(n - 1)
  }

  lemma {:induction false} StraysCounted(n: nat, expected: int)
    requires INT_MIN <= expected <= 0 && n <= expected - INT_MIN + 1
    ensures CountInInt(Strays(n), expected) == if n <= expected - INT_MIN then n else n - 1
    ensures Count8To16(Strays(n), expected) == n
    decreases n
  {
    if n > 0 {
      assert Strays(n)[1..] == Strays(n - 1);
      if expected > INT_MIN {
        StraysCounted(n - 1, expected - 1);
      } else {
        Wrap32Shift(expected - 1, 1);
        assert n == 1 && Strays(0) == [];
      }
    }
  }

  /** 2^31 + 1 stray extension bytes: 2^31 units are counted and one more is written. */
  lemma CountFallsShort(n: nat)
    requires n == 0x8000_0001
    ensures CountInInt(Strays(n), 0) == 0x8000_0000 && |Copy8To16(Strays(n))| == 0x8000_0001
  {
    StraysCounted(n, 0);
    CopyIsCount(Strays(n), 0);
  }

  /**
    strlen8to16: one pass over the bytes.  The count is exact if and only if no run of extension
    bytes is too long for an int; then it is enough for the copy, and without four-byte sequences
    only then.
   */
  method StrLen8To16(s: seq<byte>) returns (len: nat)
    requires CString(s)
    ensures len == CountInInt(s, 0) && (len == Count8To16(s, 0) <==> RunsFit(s, 0))
    ensures |s| <= 0x8000_0000 ==> RunsFit(s, 0)
    ensures RunsFit(s, 0) ==> |Copy8To16(s)| <= len
    ensures NoFours(s) ==> (|Copy8To16(s)| <= len <==> RunsFit(s, 0))
  {
    len := 0;
    var expected := 0;
    var i := 0;
    while i < |s|
      invariant 0 <= i <= |s|
      invariant len + CountInInt(s[i..], expected) == CountInInt(s, 0)
    {
      var ic := s[i];
      assert s[i..][1..] == s[i + 1..];
      if IsExtension(ic) {
        expected := Wrap32(expected - 1);
        if expected < 0 { len := len + 1; }
      } else {
        len := len + 1;
        expected := TableLength(ic) - 1;
        if expected == 3 { len := len + 1; }
      }
      i := i + 1;
    }
    CountIsExact(s, 0);
    CountIsEnough(s);
    if |s| <= 0x8000_0000 { ShortRunsFit(s, 0); }
  }

  /** getUtf32FromUtf8 at a position inside the string. */
  method NextUtf32(s: seq<byte>, start: nat) returns (value: nat, next: nat)
    requires start < |s|
    ensures start < next <= |s|
    ensures Decode(s[start..]) == Decoded(value, next - start)
  {
    if IsExtension(s[start]) { return REPLACEMENT, start + 1; }
    var n := TableLength(s[start]);
    value := LeadBits(s[start], n);
    next := start + 1;
    assert s[start..][1..] == s[next..];
    var i := 1;
    while i < n
      invariant 1 <= i <= n && next == start + i && next <= |s|
      invariant n - i >= 0
      invariant var r := Extend(s[next..], value, n - i); Decode(s[start..]) == Decoded(r.value, r.used + i)
    {
      if next == |s| || !IsExtension(s[next]) { return REPLACEMENT, next; }
      assert s[next..][1..] == s[next + 1..];
      value := value * 64 + s[next] % 64;
      i := i + 1;
      next := next + 1;
    }
  }

  lemma CopyStep(done: seq<unit>, s: seq<byte>, i: nat, value: nat, next: nat)
    requires i < next <= |s| && Decode(s[i..]) == Decoded(value, next - i)
    ensures done + Copy8To16(s[i..]) == done + Units(value) + Copy8To16(s[next..])
  {
    CopyFirst(s[i..], value, next - i);
    assert s[i..][next - i..] == s[next..];
    Regroup(done, Units(value), Copy8To16(s[next..]));
  }

  /** strcpy8to16: every write lands inside a destination that holds the converted text. */
  method StrCpy8To16(dest: array<unit>, s: seq<byte>) returns (outLen: nat)
    requires CString(s) && |Copy8To16(s)| <= dest.Length
    modifies dest
    ensures outLen <= dest.Length && dest[..outLen] == Copy8To16(s)
    ensures forall k :: outLen <= k < dest.Length ==> dest[k] == old(dest[k])
  {
    ghost var text := Copy8To16(s);
    var i := 0;
    outLen := 0;
    assert s[0..] == s;
    while i < |s|
      invariant 0 <= i <= |s| && outLen <= dest.Length
      invariant dest[..outLen] + Copy8To16(s[i..]) == text
      invariant forall k :: outLen <= k < dest.Length ==> dest[k] == old(dest[k])
    {
      i, outLen := CopyOne(dest, outLen, s, i, text);
    }
  }

  /** One round of the loop of strcpy8to16. */
  method CopyOne(dest: array<unit>, at: nat, s: seq<byte>, i: nat, ghost text: seq<unit>) returns (next: nat, end: nat)
    requires i < |s| && at <= dest.Length && |text| <= dest.Length
    requires dest[..at] + Copy8To16(s[i..]) == text
    modifies dest
    ensures i < next <= |s| && at <= end <= dest.Length
    ensures dest[..end] + Copy8To16(s[next..]) == text
    ensures forall k :: end <= k < dest.Length ==> dest[k] == old(dest[k])
  {
    var value: nat;
    value, next := NextUtf32(s, i);
    CopyStep(dest[..at], s, i, value, next);
    end := WriteUnits(dest, at, value);
  }

  /** The unit or the pair of one value. */
  method WriteUnits(dest: array<unit>, at: nat, value: nat) returns (end: nat)
    requires at + |Units(value)| <= dest.Length
    modifies dest
    ensures end == at + |Units(value)| && dest[..end] == old(dest[..at]) + Units(value)
    ensures forall k :: end <= k < dest.Length ==> dest[k] == old(dest[k])
  {
    if value <= 0xffff {
      dest[at] := value;
      end := at + 1;
    } else if value <= UNICODE_UPPER_LIMIT {
      dest[at] := 0xd800 + (value - 0x1_0000) / 0x400;
      dest[at + 1] := 0xdc00 + (value - 0x1_0000) % 0x400;
      end := at + 2;
    } else {
      dest[at] := REPLACEMENT;
      end := at + 1;
    }
  }

  lemma QuotientBelowTwo(a: nat, b: nat)
    requires b > 0
    ensures a / b < 2 <==> a < 2 * b
  {
    if a < b { DivUnique(a, b, 0, a); }
    else if a < 2 * b { DivUnique(a, b, 1, a - b); }
    else { MulAtLeast(a / b + 1, b); }
  }

  /**
    strdup8to16, for a size_t up to sizeMax: it refuses exactly what would overflow the request, and
    it overruns its buffer exactly when the count falls short of the copy, after which nothing can be
    said.
   */
  method StrDup8To16(s: seq<byte>, sizeMax: nat) returns (r: array?<unit>, outLen: nat, overrun: bool)
    requires CString(s)
    ensures r == null <==> 2 * CountInInt(s, 0) > sizeMax
    ensures overrun <==> r != null && |Copy8To16(s)| > CountInInt(s, 0)
    ensures r != null && !overrun ==> fresh(r) && outLen <= r.Length && r[..outLen] == Copy8To16(s)
    ensures RunsFit(s, 0) ==> !overrun
  {
    var len := StrLen8To16(s);
    outLen, overrun := 0, false;
    if len != 0 { QuotientBelowTwo(sizeMax, len); }
    if len != 0 && sizeMax / len < 2 { return null, outLen, overrun; }
    r := new unit[len](_ => 0);
    if |Copy8To16(s)| > len {
      overrun := true;
    } else {
      outLen := StrCpy8To16(r, s);
    }
  }

  // ---------- strdup16to8.c ----------

  function UnitLength(u: unit): (n: nat)
    ensures n == |EncodeUnit(u)|
  {
    if u > 0x7ff then 3 else if u > 0x7f || u == 0 then 2 else 1
  }

  /** Addition in a size_t up to sizeMax. */
  function AddSize(a: nat, b: nat, sizeMax: nat): nat
    requires a <= sizeMax && b <= sizeMax
  {
    if a + b > sizeMax then a + b - sizeMax - 1 else a + b
  }

  /** The slower loop of strnlen16to8, which watches for the sum to wrap around. */
  method WatchedLength(us: seq<unit>, sizeMax: nat) returns (len: nat)
    requires sizeMax >= 0xffff
    ensures len == if |Encode(us)| < sizeMax then |Encode(us)| else sizeMax - 1
  {
    len := 0;
    var i := 0;
    while i < |us|
      invariant 0 <= i <= |us| && len == |Encode(us[..i])| && len <= sizeMax
    {
      EncodeAppend(us, i);
      EncodePrefixFits(us, i + 1);
      var current := len;
      len := AddSize(len, UnitLength(us[i]), sizeMax);
      i := i + 1;
      if len < current { return sizeMax - 1; }
    }
    assert us[..i] == us;
    if len == sizeMax { len := sizeMax - 1; }
  }

  /** strnlen16to8 for a size_t up to sizeMax: the exact length, held at sizeMax - 1. */
  method StrNLen16To8(us: seq<unit>, sizeMax: nat) returns (len: nat)
    requires sizeMax >= 0xffff
    ensures len == if |Encode(us)| < sizeMax then |Encode(us)| else sizeMax - 1
  {
    if |us| >= (sizeMax - 1) / 3 {
      len := WatchedLength(us, sizeMax);
      return;
    }
    len := 0;
    var i := 0;
    while i < |us|
      invariant 0 <= i <= |us| && len == |Encode(us[..i])|
      invariant len <= 3 * i
    {
      EncodeAppend(us, i);
      len := AddSize(len, UnitLength(us[i]), sizeMax);
      i := i + 1;
    }
    assert us[..i] == us;
  }

  /** strncpy16to8: exactly the counted bytes and one terminator. */
  method StrNCpy16To8(dest: array<byte>, us: seq<unit>)
    requires |Encode(us)| < dest.Length
    modifies dest
    ensures dest[..|Encode(us)| + 1] == Encode(us) + [0]
    ensures CString(dest[..|Encode(us)|])
    ensures forall k :: |Encode(us)| < k < dest.Length ==> dest[k] == old(dest[k])
  {
    var cur := 0;
    var i := 0;
    while i < |us|
      invariant 0 <= i <= |us| && cur == |Encode(us[..i])| && cur < dest.Length
      invariant dest[..cur] == Encode(us[..i])
      invariant forall k :: cur <= k < dest.Length ==> dest[k] == old(dest[k])
    {
      EncodeAppend(us, i);
      EncodePrefixFits(us, i + 1);
      cur := WriteBytes(dest, cur, us[i]);
      i := i + 1;
    }
    assert us[..i] == us;
    dest[cur] := 0;
    EncodeIsCString(us);
  }

  /** The bytes of one unit. */
  method WriteBytes(dest: array<byte>, at: nat, u: unit) returns (end: nat)
    requires at + |EncodeUnit(u)| <= dest.Length
    modifies dest
    ensures end == at + |EncodeUnit(u)| && dest[..end] == old(dest[..at]) + EncodeUnit(u)
    ensures forall k :: end <= k < dest.Length ==> dest[k] == old(dest[k])
  {
    if u > 0x7ff {
      dest[at] := 0xe0 + u / 4096;
      dest[at + 1] := 0x80 + u / 64 % 64;
      dest[at + 2] := 0x80 + u % 64;
      end := at + 3;
    } else if u > 0x7f || u == 0 {
      dest[at] := 0xc0 + u / 64;
      dest[at + 1] := 0x80 + u % 64;
      end := at + 2;
    } else {
      dest[at] := u;
      end := at + 1;
    }
  }

  /** strndup16to8, where the allocator gives what is asked for. */
  method StrNDup16To8(us: seq<unit>, sizeMax: nat) returns (r: array?<byte>)
    requires sizeMax >= 0xffff
    ensures r == null <==> |Encode(us)| >= sizeMax - 1
    ensures r != null ==> fresh(r) && r[..] == Encode(us) + [0]
  {
    var len := StrNLen16To8(us, sizeMax);
    if len >= sizeMax - 1 { return null; }
    r := new byte[len + 1](_ => 0);
    StrNCpy16To8(r, us);
    assert r[..] == r[..len + 1];
  }
}
