/** The loops of Unicode.cpp, over cursors and buffers. */
module Transcoders {
  import opened Basics
  import opened Utf8Lead
  import opened Unicode

  // ---------- to UTF-8 ----------

  function FirstByteMark(n: nat): byte {
    if n == 2 then 0xc0 else if n == 3 then 0xe0 else if n == 4 then 0xf0 else 0
  }

  /** utf32_codepoint_to_utf8: from the last byte back to the first, falling through the cases. */
  method WriteCodepoint(dst: array<byte>, at: nat, c: char32)
    requires at + Utf8Length(c) <= dst.Length
    modifies dst
    ensures dst[at..at + Utf8Length(c)] == Enc8(c)
    ensures forall k :: 0 <= k < dst.Length && !(at <= k < at + Utf8Length(c)) ==> dst[k] == old(dst[k])
  {
    var n := Utf8Length(c);
    var p, ch := at + n, c;
    if n == 4 {
      p := p - 1;
      dst[p] := 0x80 + ch % 64;
      ch := ch / 64;
    }
    if n >= 3 {
      p := p - 1;
      dst[p] := 0x80 + ch % 64;
      ch := ch / 64;
    }
    if n >= 2 {
      p := p - 1;
      dst[p] := 0x80 + ch % 64;
      ch := ch / 64;
    }
    if n >= 1 {
      p := p - 1;
      dst[p] := ch + FirstByteMark(n);
    }
  }

  /** One code point of a text of which rest is still to come. */
  method Emit(dst: array<byte>, at: nat, c: char32, ghost rest: seq<byte>, ghost text: seq<byte>) returns (end: nat)
    requires at <= dst.Length && |text| < dst.Length
    requires dst[..at] + (Enc8(c) + rest) == text
    modifies dst
    ensures at <= end < dst.Length && dst[..end] + rest == text
    ensures forall k :: end <= k < dst.Length ==> dst[k] == old(dst[k])
  {
    end := at + Utf8Length(c);
    ghost var before := dst[..at];
    Regroup(before, Enc8(c), rest);
    WriteCodepoint(dst, at, c);
    assert dst[..end] == dst[..at] + dst[at..end];
    assert dst[..at] == before;
  }

  /** utf32_to_utf8_length: exactly what utf32_to_utf8 writes, for every input. */
  method Utf32To8Length(src: seq<char32>) returns (r: int)
    ensures r == if src == [] then -1 else |To8(src)|
  {
    if src == [] { return -1; }
    r := 0;
    var i := 0;
    while i < |src|
      invariant 0 <= i <= |src| && r + |To8(src[i..])| == |To8(src)|
    {
      assert src[i..][1..] == src[i + 1..];
      r := r + Utf8Length(src[i]);
      i := i + 1;
    }
  }

  /** utf32_to_utf8: an empty source leaves even the terminator out. */
  method Utf32To8(src: seq<char32>, dst: array<byte>)
    requires src != [] ==> |To8(src)| < dst.Length
    modifies dst
    ensures src == [] ==> dst[..] == old(dst[..])
    ensures src != [] ==> dst[..|To8(src)| + 1] == To8(src) + [0]
    ensures forall k :: |To8(src)| < k < dst.Length ==> dst[k] == old(dst[k])
  {
    if src == [] { return; }
    ghost var text := To8(src);
    var i: nat, cur: nat := 0, 0;
    while i < |src|
      invariant 0 <= i <= |src| && cur < dst.Length
      invariant dst[..cur] + To8(src[i..]) == text
      invariant forall k :: cur <= k < dst.Length ==> dst[k] == old(dst[k])
    {
      assert src[i..][1..] == src[i + 1..];
      cur := Emit(dst, cur, src[i], To8(src[i + 1..]), text);
      i := i + 1;
    }
    dst[cur] := 0;
  }

  /** The next code point of utf16_to_utf8. */
  method NextPoint16(us: seq<unit>, i: nat) returns (c: char32, next: nat)
    requires i < |us|
    ensures i < next <= |us| && Points16(us[i..]) == [c] + Points16(us[next..])
  {
    if High(us[i]) && i + 1 < |us| && Low(us[i + 1]) {
      c := Pair(us[i], us[i + 1]);
      next := i + 2;
    } else {
      c := us[i];
      next := i + 1;
    }
    assert us[i..][next - i..] == us[next..];
  }

  lemma To8First(c: char32, cs: seq<char32>)
    ensures To8([c] + cs) == Enc8(c) + To8(cs)
  {
    assert ([c] + cs)[1..] == cs;
  }

  /** utf16_to_utf8. */
  method Utf16ToUtf8(us: seq<unit>, dst: array<byte>)
    requires us != [] ==> |Utf16To8(us)| < dst.Length
    modifies dst
    ensures us == [] ==> dst[..] == old(dst[..])
    ensures us != [] ==> dst[..|Utf16To8(us)| + 1] == Utf16To8(us) + [0]
    ensures forall k :: |Utf16To8(us)| < k < dst.Length ==> dst[k] == old(dst[k])
  {
    if us == [] { return; }
    ghost var text := Utf16To8(us);
    var i: nat, cur: nat := 0, 0;
    assert us[0..] == us;
    while i < |us|
      invariant 0 <= i <= |us| && cur < dst.Length
      invariant dst[..cur] + To8(Points16(us[i..])) == text
      invariant forall k :: cur <= k < dst.Length ==> dst[k] == old(dst[k])
    {
      var c, next := NextPoint16(us, i);
      To8First(c, Points16(us[next..]));
      cur := Emit(dst, cur, c, To8(Points16(us[next..])), text);
      i := next;
    }
    dst[cur] := 0;
  }

  /** utf16_to_utf8_length, with its early step past a high surrogate. */
  method Utf16To8Length(us: seq<unit>) returns (r: int)
    ensures r == if us == [] then -1 else Measured(us)
    ensures us != [] ==> (r == |Utf16To8(us)| <==> EvenRuns(us, 0) == 0)
    ensures us != [] && WellFormed16(us) ==> r == |Utf16To8(us)|
  {
    LengthShortfall(us);
    if WellFormed16(us) { WellFormedHasNoRuns(us); }
    if us == [] { return -1; }
    r := MeasureLoop(us);
  }

  method MeasureLoop(us: seq<unit>) returns (r: nat)
    ensures r == Measured(us)
  {
    r := 0;
    var i := 0;
    while i < |us|
      invariant 0 <= i <= |us| && r + Measured(us[i..]) == Measured(us)
    {
      ghost var start := i;
      var pair := false;
      if High(us[i]) && i + 1 < |us| {
        i := i + 1;
        pair := Low(us[i]);
      }
      r := r + if pair then 4 else Utf8Length(us[i]);
      i := i + 1;
      assert us[start..][i - start..] == us[i..];
    }
  }

  // ---------- from UTF-8 to UTF-32 ----------

  /** The mask loop of utf32_at_internal, which also shifts the payload in. */
  method ShiftIn(s: seq<byte>, i: nat) returns (word: char32, read: nat)
    requires i < |s| && s[i] >= 0x80 && i + Reads(s[i]) <= |s|
    ensures read == Reads(s[i]) && word == Shifted(s[i], s[i + 1..i + read])
  {
    var first, mask: nat := s[i], 0x40;
    word, read := first, 1;
    OnesAreRead(first);
    ghost var n := Reads(first);
    ghost var rest := s[i + 1..i + n];
    ghost var goal := Shifted(first, rest);
    while HasBit(first, mask)
      invariant 1 <= read <= n && n == read + Ones(first, mask)
      invariant rest == s[i + read..i + n] && Shifted(word, rest) == goal
      decreases mask
    {
      word := Absorb(word, s[i + read], rest);
      rest := rest[1..];
      read := read + 1;
      mask := mask / 2;
    }
  }

  /** Six more bits in the word. */
  method Absorb(word: char32, b: byte, ghost rest: seq<byte>) returns (word': char32)
    requires rest != [] && rest[0] == b
    ensures Shifted(word', rest[1..]) == Shifted(word, rest)
  {
    word' := Word(Six(word, b));
  }

  /** utf32_at_internal. */
  method ReadPoint32(s: seq<byte>, i: nat, wide: Wide) returns (value: char32, read: nat)
    requires i < |s| && i + Reads(s[i]) <= |s|
    ensures read == Reads(s[i]) && value == Point32(s[i..], wide)
  {
    if s[i] < 0x80 { return s[i], 1; }
    var word: char32;
    word, read := ShiftIn(s, i);
    value := Payload(word, read, wide);
    assert s[i..][1..read] == s[i + 1..i + read];
  }

  /** What utf8_to_utf32_length counts: the first bytes it lands on, even when the last one overshoots. */
  function Count32(s: seq<byte>): nat {
    if s == [] then 0
    else if Reads(s[0]) >= |s| then 1
    else 1 + Count32(s[Reads(s[0])..])
  }

  /**
    From cur on, inside len bytes of a memory, the converter can read what it lands on: the bytes
    announced are there, if need be behind the text.
   */
  predicate Readable32(s: seq<byte>, len: nat, cur: nat)
    requires len <= |s|
    decreases len - cur
  {
    cur >= len || (cur + Reads(s[cur]) <= |s| && Readable32(s, len, cur + Reads(s[cur])))
  }

  /** The code points read from cur on. */
  function PointsIn32(s: seq<byte>, len: nat, cur: nat, wide: Wide): seq<char32>
    requires len <= |s| && Readable32(s, len, cur)
    decreases len - cur
  {
    if cur >= len then [] else [Point32(s[cur..], wide)] + PointsIn32(s, len, cur + Reads(s[cur]), wide)
  }

  /** The length pass counts what the converter writes, even where the last sequence runs past the text. */
  lemma {:induction false} CountsPoints32(s: seq<byte>, len: nat, cur: nat, wide: Wide)
    requires cur <= len <= |s| && Readable32(s, len, cur)
    ensures Count32(s[cur..len]) == |PointsIn32(s, len, cur, wide)|
    decreases len - cur
  {
    if cur < len {
      var next := cur + Reads(s[cur]);
      if next < len {
        assert s[cur..len][Reads(s[cur])..] == s[next..len];
        CountsPoints32(s, len, next, wide);
      }
    }
  }

  lemma SameBytes32(a: seq<byte>, b: seq<byte>, wide: Wide)
    requires a != [] && Reads(a[0]) <= |a| && a <= b
    ensures Point32(a, wide) == Point32(b, wide)
  {
    assert a[1..Reads(a[0])] == b[1..Reads(a[0])];
  }

  /** On text that ends with a whole sequence nothing behind it is read. */
  lemma {:induction false} PointsOfText32(s: seq<byte>, len: nat, cur: nat, wide: Wide)
    requires cur <= len <= |s| && Framed32(s[cur..len])
    ensures Readable32(s, len, cur) && PointsIn32(s, len, cur, wide) == Points32(s[cur..len], wide)
    decreases len - cur
  {
    if cur < len {
      var n := Reads(s[cur]);
      SameBytes32(s[cur..len], s[cur..], wide);
      assert s[cur..len][n..] == s[cur + n..len];
      PointsOfText32(s, len, cur + n, wide);
    }
  }

  /** The mask loop of utf8_to_utf32_length. */
  method SkipLength(b: byte) returns (skip: nat)
    ensures skip == Reads(b)
  {
    skip := 1;
    if b >= 0x80 {
      OnesAreRead(b);
      var mask: nat := 0x40;
      while HasBit(b, mask)
        invariant Reads(b) == skip + Ones(b, mask)
        decreases mask
      {
        skip := skip + 1;
        mask := mask / 2;
      }
    }
  }

  /** utf8_to_utf32_length. */
  method Utf8To32Length(s: seq<byte>) returns (r: nat)
    ensures r == Count32(s)
  {
    r := 0;
    var cur: nat := 0;
    assert s[0..] == s;
    while cur < |s|
      invariant 0 <= cur && r >= 0
      invariant r + (if cur < |s| then Count32(s[cur..]) else 0) == Count32(s)
      decreases if cur < |s| then |s| - cur else 0
    {
      var skip := SkipLength(s[cur]);
      if cur + skip < |s| { assert s[cur..][skip..] == s[cur + skip..]; }
      cur := cur + skip;
      r := r + 1;
    }
  }

  method Store(dst: array<char32>, out: nat, value: char32)
    requires out < dst.Length
    modifies dst
    ensures dst[..out + 1] == old(dst[..out]) + [value]
    ensures forall k :: out < k < dst.Length ==> dst[k] == old(dst[k])
  {
    dst[out] := value;
  }

  /** One round of utf8_to_utf32. */
  method StorePoint(dst: array<char32>, out: nat, s: seq<byte>, len: nat, cur: nat, wide: Wide, ghost points: seq<char32>)
    returns (next: nat)
    requires cur < len <= |s| && Readable32(s, len, cur) && out < dst.Length && |points| < dst.Length
    requires dst[..out] + PointsIn32(s, len, cur, wide) == points
    modifies dst
    ensures cur < next && out + 1 < dst.Length && Readable32(s, len, next)
    ensures dst[..out + 1] + PointsIn32(s, len, next, wide) == points
    ensures forall k :: out < k < dst.Length ==> dst[k] == old(dst[k])
  {
    var value, read := ReadPoint32(s, cur, wide);
    next := cur + read;
    Regroup(dst[..out], [value], PointsIn32(s, len, next, wide));
    Store(dst, out, value);
  }

  /** utf8_to_utf32 of the first len bytes of a memory. */
  method Utf8To32(s: seq<byte>, len: nat, dst: array<char32>, wide: Wide)
    requires len <= |s| && Readable32(s, len, 0)
    requires len > 0 ==> |PointsIn32(s, len, 0, wide)| < dst.Length
    modifies dst
    ensures len == 0 ==> dst[..] == old(dst[..])
    ensures len > 0 ==> dst[..|PointsIn32(s, len, 0, wide)| + 1] == PointsIn32(s, len, 0, wide) + [0]
    ensures forall k :: |PointsIn32(s, len, 0, wide)| < k < dst.Length ==> dst[k] == old(dst[k])
    ensures Framed32(s[..len]) ==> PointsIn32(s, len, 0, wide) == Points32(s[..len], wide)
  {
    if Framed32(s[..len]) {
      assert s[0..len] == s[..len];
      PointsOfText32(s, len, 0, wide);
    }
    if len == 0 { return; }
    ghost var points := PointsIn32(s, len, 0, wide);
    var cur: nat, out: nat := 0, 0;
    while cur < len
      invariant Readable32(s, len, cur)
      invariant out < dst.Length && dst[..out] + PointsIn32(s, len, cur, wide) == points
      invariant forall k :: out <= k < dst.Length ==> dst[k] == old(dst[k])
      decreases len - cur
    {
      cur := StorePoint(dst, out, s, len, cur, wide, points);
      out := out + 1;
    }
    dst[out] := 0;
  }

  // ---------- from UTF-8 to UTF-16 ----------

  /** The length pass of utf8_to_utf16 on a cursor that stops at or past the end. */
  lemma FramedStep(s: seq<byte>, len: nat, cur: nat)
    requires cur < len <= |s|
    ensures var next := cur + SeqLength(s[cur]);
            && (next <= len ==> (Framed(s[cur..len]) <==> Framed(s[next..len])))
            && (next > len ==> !Framed(s[cur..len]))
  {
    var n := SeqLength(s[cur]);
    if cur + n <= len { assert s[cur..len][n..] == s[cur + n..len]; }
  }

  lemma To16First(c: char32, cs: seq<char32>)
    ensures To16([c] + cs) == Enc16(c) + To16(cs)
  {
    assert ([c] + cs)[1..] == cs;
  }

  lemma SameBytes(a: seq<byte>, b: seq<byte>)
    requires a != [] && SeqLength(a[0]) <= |a| && a <= b
    ensures Point(a) == Point(b)
  {
    PointOfPrefix(a, b[|a|..]);
    assert b == a + b[|a|..];
  }

  /** One code point of framed text. */
  lemma ConvertStep(s: seq<byte>, len: nat, cur: nat)
    requires cur < len <= |s| && Framed(s[cur..len])
    ensures var next := cur + SeqLength(s[cur]);
            && next <= len && Framed(s[next..len])
            && Utf8To16(s[cur..len]) == Enc16(Point(s[cur..])) + Utf8To16(s[next..len])
  {
    var n := SeqLength(s[cur]);
    assert s[cur..len][n..] == s[cur + n..len];
    SameBytes(s[cur..len], s[cur..]);
    To16First(Point(s[cur..len]), Points8(s[cur + n..len]));
  }

  /**
    From cur on, inside len bytes of a memory, the bytes that are announced can be read, if need be
    behind the text.
   */
  predicate Readable(s: seq<byte>, len: nat, cur: nat)
    requires len <= |s|
    decreases len - cur
  {
    cur >= len || (cur + SeqLength(s[cur]) <= |s| && Readable(s, len, cur + SeqLength(s[cur])))
  }

  /** The code points read from cur on, and the units written for them. */
  function PointsIn(s: seq<byte>, len: nat, cur: nat): seq<char32>
    requires len <= |s| && Readable(s, len, cur)
    decreases len - cur
  {
    if cur >= len then [] else [Point(s[cur..])] + PointsIn(s, len, cur + SeqLength(s[cur]))
  }

  function UnitsIn(s: seq<byte>, len: nat, cur: nat): seq<unit>
    requires len <= |s| && Readable(s, len, cur)
  {
    To16(PointsIn(s, len, cur))
  }

  lemma {:induction false} TextIsReadable(s: seq<byte>, len: nat, cur: nat)
    requires cur <= len <= |s| && Framed(s[cur..len])
    ensures Readable(s, len, cur)
    decreases len - cur
  {
    if cur < len {
      FramedStep(s, len, cur);
      TextIsReadable(s, len, cur + SeqLength(s[cur]));
    }
  }

  lemma PointsAlike(s: seq<byte>, len: nat, cur: nat, next: nat)
    requires cur < len <= |s| && next == cur + SeqLength(s[cur]) <= len
    requires Framed(s[cur..len]) && Framed(s[next..len]) && Readable(s, len, cur) && Readable(s, len, next)
    requires PointsIn(s, len, next) == Points8(s[next..len])
    ensures PointsIn(s, len, cur) == Points8(s[cur..len])
  {
    SameBytes(s[cur..len], s[cur..]);
    assert s[cur..len][next - cur..] == s[next..len];
  }

  /** On text that ends with a whole sequence nothing behind it is read. */
  lemma {:induction false} PointsOfText(s: seq<byte>, len: nat, cur: nat)
    requires cur <= len <= |s| && Framed(s[cur..len])
    ensures Readable(s, len, cur) && PointsIn(s, len, cur) == Points8(s[cur..len])
    decreases len - cur
  {
    TextIsReadable(s, len, cur);
    if cur < len {
      var next := cur + SeqLength(s[cur]);
      FramedStep(s, len, cur);
      PointsOfText(s, len, next);
      PointsAlike(s, len, cur, next);
    }
  }

  /** The next code point of a memory. */
  lemma NextPoint(s: seq<byte>, len: nat, cur: nat, next: nat, c: char32)
    requires cur < len <= |s| && Readable(s, len, cur) && next == cur + SeqLength(s[cur]) <= |s| && c == Point(s[cur..])
    ensures Readable(s, len, next) && PointsIn(s, len, cur) == [c] + PointsIn(s, len, next)
  {
  }

  /** The units that the text from a cursor on takes, or -1 when it is not framed. */
  ghost function UnitsFrom(s: seq<byte>, len: nat, cur: nat): int
    requires len <= |s|
  {
    if cur > len || !Framed(s[cur..len]) then -1 else |Utf8To16(s[cur..len])|
  }

  lemma MeasureStep(s: seq<byte>, len: nat, cur: nat)
    requires cur < len <= |s| && cur + SeqLength(s[cur]) <= |s|
    ensures var rest := UnitsFrom(s, len, cur + SeqLength(s[cur]));
            UnitsFrom(s, len, cur) == if rest < 0 then -1 else rest + if Point(s[cur..]) > 0xffff then 2 else 1
  {
    FramedStep(s, len, cur);
    if Framed(s[cur..len]) { ConvertStep(s, len, cur); }
  }

  /**
    utf8_to_utf16_length over the first len bytes of a memory: -1 exactly when the announced lengths
    do not end at the end, else exactly the units written.
   */
  method Utf8To16Length(s: seq<byte>, len: nat) returns (r: int)
    requires len <= |s| && Readable(s, len, 0)
    ensures r == if Framed(s[..len]) then |Utf8To16(s[..len])| else -1
    ensures r >= 0 ==> r == |UnitsIn(s, len, 0)|
  {
    ghost var total := UnitsFrom(s, len, 0);
    assert s[0..len] == s[..len];
    if Framed(s[..len]) { PointsOfText(s, len, 0); }
    var cur: nat := 0;
    r := 0;
    while cur < len
      invariant r >= 0 && Readable(s, len, cur)
      invariant total == var rest := UnitsFrom(s, len, cur); if rest < 0 then -1 else r + rest
      decreases len - cur
    {
      MeasureStep(s, len, cur);
      r := r + 1;
      if Point(s[cur..]) > 0xffff { r := r + 1; }
      cur := cur + TableLength(s[cur]);
    }
    if cur != len { return -1; }
  }

  /** utf8_to_utf16 with its terminator, of the first len bytes of a memory. */
  method Utf8ToUtf16(s: seq<byte>, len: nat, dst: array<unit>)
    requires len <= |s| && Readable(s, len, 0) && |UnitsIn(s, len, 0)| < dst.Length
    modifies dst
    ensures dst[..|UnitsIn(s, len, 0)| + 1] == UnitsIn(s, len, 0) + [0]
    ensures forall k :: |UnitsIn(s, len, 0)| < k < dst.Length ==> dst[k] == old(dst[k])
    ensures Framed(s[..len]) ==> UnitsIn(s, len, 0) == Utf8To16(s[..len])
  {
    if Framed(s[..len]) {
      assert s[0..len] == s[..len];
      PointsOfText(s, len, 0);
    }
    ghost var text := UnitsIn(s, len, 0);
    var cur: nat, out: nat := 0, 0;
    while cur < len
      invariant Readable(s, len, cur)
      invariant out < dst.Length && dst[..out] + UnitsIn(s, len, cur) == text
      invariant forall k :: out <= k < dst.Length ==> dst[k] == old(dst[k])
      decreases len - cur
    {
      cur, out := ConvertOne(dst, out, s, len, cur, text);
    }
    dst[out] := 0;
  }

  /** The unit or the pair of one code point. */
  method WriteUnits(dst: array<unit>, at: nat, c: char32) returns (end: nat)
    requires at + |Enc16(c)| <= dst.Length
    modifies dst
    ensures end == at + |Enc16(c)| && dst[..end] == old(dst[..at]) + Enc16(c)
    ensures forall k :: end <= k < dst.Length ==> dst[k] == old(dst[k])
  {
    if c <= 0xffff {
      dst[at] := c;
      end := at + 1;
    } else {
      dst[at] := ((c - 0x1_0000) / 0x400 + 0xd800) % 0x1_0000;
      dst[at + 1] := (c - 0x1_0000) % 0x400 + 0xdc00;
      end := at + 2;
    }
  }

  lemma EmitStep(done: seq<unit>, c: char32, cs: seq<char32>)
    ensures done + To16([c] + cs) == done + Enc16(c) + To16(cs)
  {
    To16First(c, cs);
    Regroup(done, Enc16(c), To16(cs));
  }

  /** One round of utf8_to_utf16_no_null_terminator. */
  method ConvertOne(dst: array<unit>, out: nat, s: seq<byte>, len: nat, cur: nat, ghost text: seq<unit>)
    returns (next: nat, end: nat)
    requires cur < len <= |s| && Readable(s, len, cur) && out < dst.Length && |text| < dst.Length
    requires dst[..out] + UnitsIn(s, len, cur) == text
    modifies dst
    ensures cur < next && out <= end < dst.Length && Readable(s, len, next)
    ensures dst[..end] + UnitsIn(s, len, next) == text
    ensures forall k :: end <= k < dst.Length ==> dst[k] == old(dst[k])
  {
    var c := Point(s[cur..]);
    next := cur + TableLength(s[cur]);
    NextPoint(s, len, cur, next, c);
    EmitStep(dst[..out], c, PointsIn(s, len, next));
    end := WriteUnits(dst, out, c);
  }

  // ---------- into a bounded buffer ----------

  /** Whole code points as long as they fit into so much room. */
  function FitPoints(cs: seq<char32>, room: nat): (r: seq<unit>)
    ensures |r| <= room
  {
    if cs == [] || |Enc16(cs[0])| > room then []
    else Enc16(cs[0]) + FitPoints(cs[1..], room - |Enc16(cs[0])|)
  }

  lemma FitFirst(c: char32, cs: seq<char32>, room: nat)
    ensures FitPoints([c] + cs, room) ==
            if |Enc16(c)| > room then [] else Enc16(c) + FitPoints(cs, room - |Enc16(c)|)
  {
    assert ([c] + cs)[1..] == cs;
  }

  /** What fits of a framed text, and of a memory from cur on. */
  function Fitted(s: seq<byte>, room: nat): seq<unit>
    requires Framed(s)
  {
    FitPoints(Points8(s), room)
  }

  function FittedIn(s: seq<byte>, len: nat, cur: nat, room: nat): seq<unit>
    requires len <= |s| && Readable(s, len, cur)
  {
    FitPoints(PointsIn(s, len, cur), room)
  }

  /** A place between two sequences. */
  predicate Boundary(s: seq<byte>, p: nat)
    requires p <= |s|
  {
    p == 0 || (SeqLength(s[0]) <= p && Boundary(s[SeqLength(s[0])..], p - SeqLength(s[0])))
  }

  lemma PrefixStep(s: seq<byte>, p: nat)
    requires Framed(s) && 0 < p <= |s| && Boundary(s, p)
    ensures var n := SeqLength(s[0]);
            && n <= p && s[..p][n..] == s[n..][..p - n] && (Framed(s[..p]) <==> Framed(s[n..][..p - n]))
            && (Framed(s[..p]) ==> Utf8To16(s[..p]) == Enc16(Point(s)) + Utf8To16(s[n..][..p - n]))
  {
    var n := SeqLength(s[0]);
    assert s[..p][n..] == s[n..][..p - n];
    if Framed(s[..p]) {
      SameBytes(s[..p], s);
      To16First(Point(s), Points8(s[n..][..p - n]));
    }
  }

  lemma {:induction false} BoundaryFrames(s: seq<byte>, p: nat)
    requires Framed(s) && p <= |s| && Boundary(s, p)
    ensures Framed(s[..p])
    decreases |s|
  {
    if p > 0 {
      BoundaryFrames(s[SeqLength(s[0])..], p - SeqLength(s[0]));
      PrefixStep(s, p);
    }
  }

  /** What fits is the text of a prefix that ends between two sequences. */
  lemma {:induction false} FittedIsPrefix(s: seq<byte>, room: nat) returns (p: nat)
    requires Framed(s)
    ensures p <= |s| && Boundary(s, p) && Framed(s[..p]) && Fitted(s, room) == Utf8To16(s[..p])
    ensures forall q :: p < q <= |s| && Boundary(s, q) && Framed(s[..q]) ==> |Utf8To16(s[..q])| > room
    decreases |s|
  {
    p := 0;
    if s != [] {
      var n, w := SeqLength(s[0]), |Enc16(Point(s))|;
      FitFirst(Point(s), Points8(s[n..]), room);
      if w <= room {
        var p' := FittedIsPrefix(s[n..], room - w);
        p := n + p';
        BoundaryFrames(s, p);
        PrefixStep(s, p);
        forall q | p < q <= |s| && Boundary(s, q) && Framed(s[..q]) ensures |Utf8To16(s[..q])| > room {
          PrefixStep(s, q);
        }
      } else {
        forall q | 0 < q <= |s| && Boundary(s, q) && Framed(s[..q]) ensures |Utf8To16(s[..q])| > room {
          PrefixStep(s, q);
        }
      }
    }
  }

  /** The unit or the pair of one code point; a pair that finds room for one unit only is cut. */
  method WriteFitting(dst: array<unit>, at: nat, dstLen: nat, c: char32) returns (end: nat, full: bool)
    requires at < dstLen <= dst.Length
    modifies dst
    ensures full <==> at + |Enc16(c)| > dstLen
    ensures full ==> end == at && dst[..end] == old(dst[..at])
    ensures !full ==> end == at + |Enc16(c)| && dst[..end] == old(dst[..at]) + Enc16(c)
    ensures forall k :: dstLen <= k < dst.Length ==> dst[k] == old(dst[k])
  {
    if c > 0xffff && at + 1 == dstLen {
      dst[at] := ((c - 0x1_0000) / 0x400 + 0xd800) % 0x1_0000;
      return at, true;
    }
    end := WriteUnits(dst, at, c);
    full := false;
  }

  lemma FitStep(done: seq<unit>, c: char32, cs: seq<char32>, room: nat)
    ensures |Enc16(c)| > room ==> done + FitPoints([c] + cs, room) == done
    ensures |Enc16(c)| <= room ==>
              done + FitPoints([c] + cs, room) == done + Enc16(c) + FitPoints(cs, room - |Enc16(c)|)
  {
    FitFirst(c, cs, room);
    if |Enc16(c)| <= room { Regroup(done, Enc16(c), FitPoints(cs, room - |Enc16(c)|)); }
  }

  /** One round of utf8_to_utf16_n. */
  method StoreFitting(dst: array<unit>, at: nat, s: seq<byte>, len: nat, cur: nat, dstLen: nat, ghost text: seq<unit>)
    returns (next: nat, end: nat, full: bool)
    requires cur < len <= |s| && at < dstLen <= dst.Length && Readable(s, len, cur)
    requires dst[..at] + FittedIn(s, len, cur, dstLen - at) == text
    modifies dst
    ensures end <= dstLen
    ensures full ==> dst[..end] == text
    ensures !full ==> cur < next && Readable(s, len, next) && dst[..end] + FittedIn(s, len, next, dstLen - end) == text
    ensures forall k :: dstLen <= k < dst.Length ==> dst[k] == old(dst[k])
  {
    var c := Point(s[cur..]);
    next := cur + TableLength(s[cur]);
    NextPoint(s, len, cur, next, c);
    FitStep(dst[..at], c, PointsIn(s, len, next), dstLen - at);
    end, full := WriteFitting(dst, at, dstLen, c);
  }

  /**
    utf8_to_utf16_n over the first len bytes of a memory: whole code points as long as they fit; a
    pair that does not fit leaves its first unit behind the returned end.
   */
  method Utf8ToUtf16N(s: seq<byte>, len: nat, dst: array<unit>, dstLen: nat) returns (end: nat)
    requires len <= |s| && Readable(s, len, 0) && dstLen <= dst.Length
    modifies dst
    ensures end <= dstLen && dst[..end] == FittedIn(s, len, 0, dstLen)
    ensures forall k :: dstLen <= k < dst.Length ==> dst[k] == old(dst[k])
    ensures Framed(s[..len]) ==> dst[..end] == Fitted(s[..len], dstLen)
  {
    if Framed(s[..len]) {
      assert s[0..len] == s[..len];
      PointsOfText(s, len, 0);
    }
    ghost var text := FittedIn(s, len, 0, dstLen);
    var cur: nat := 0;
    end := 0;
    while cur < len && end < dstLen
      invariant end <= dstLen && Readable(s, len, cur)
      invariant dst[..end] + FittedIn(s, len, cur, dstLen - end) == text
      invariant forall k :: dstLen <= k < dst.Length ==> dst[k] == old(dst[k])
      decreases len - cur
    {
      var full: bool;
      cur, end, full := StoreFitting(dst, end, s, len, cur, dstLen, text);
      if full { return; }
    }
  }
}
