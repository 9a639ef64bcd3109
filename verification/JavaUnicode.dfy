/** strcpy8to16 against the grammar of UTF-8 and the converters of Unicode.cpp. */
module JavaUnicode {
  import opened Basics
  import opened Utf8Lead
  import opened JavaUtf8
  import opened Unicode

  // ---------- one sequence ----------

  /** The first byte is followed by all the extension bytes it announces. */
  predicate Complete(s: seq<byte>) {
    && s != [] && !IsExtension(s[0]) && SeqLength(s[0]) <= |s|
    && forall i :: 1 <= i < SeqLength(s[0]) ==> IsExtension(s[i])
  }

  /** The first byte is followed by k extension bytes, fewer than it announces, and then by none. */
  predicate Broken(s: seq<byte>, k: nat) {
    && s != [] && !IsExtension(s[0]) && k + 1 < SeqLength(s[0]) && k + 1 <= |s|
    && (forall i :: 1 <= i <= k ==> IsExtension(s[i]))
    && (k + 1 == |s| || !IsExtension(s[k + 1]))
  }

  lemma ExtendOne(s: seq<byte>, value: nat, more: nat)
    requires s != [] && IsExtension(s[0]) && more > 0
    ensures var r := Extend(s[1..], Six(value, s[0]), more - 1); Extend(s, value, more) == Decoded(r.value, r.used + 1)
  {
  }

  /** The value of a complete sequence is that of the other decoder, well formed or not. */
  lemma CompleteIsPoint(s: seq<byte>)
    requires Complete(s)
    ensures Decode(s) == Decoded(Point(s), SeqLength(s[0]))
  {
    var n, t := SeqLength(s[0]), s[1..];
    var v := LeadBits(s[0], n);
    if n >= 2 {
      ExtendOne(t, v, n - 1);
      assert t[1..] == s[2..];
    }
    if n >= 3 {
      ExtendOne(s[2..], Six(v, s[1]), n - 2);
      assert s[2..][1..] == s[3..];
    }
    if n == 4 {
      ExtendOne(s[3..], Six(Six(v, s[1]), s[2]), 1);
    }
  }

  /** A broken sequence, or an extension byte alone, becomes one replacement; the byte that breaks it is read anew. */
  lemma BrokenIsReplaced(s: seq<byte>, k: nat)
    requires Broken(s, k) || (k == 0 && s != [] && IsExtension(s[0]))
    ensures Copy8To16(s) == [REPLACEMENT] + Copy8To16(s[k + 1..])
  {
    if !IsExtension(s[0]) {
      ExtendBroken(s[1..], LeadBits(s[0], SeqLength(s[0])), SeqLength(s[0]) - 1, k);
    }
    CopyFirst(s, REPLACEMENT, k + 1);
  }

  lemma {:induction false} ExtendBroken(s: seq<byte>, value: nat, more: nat, k: nat)
    requires k < more && k <= |s| && (forall i :: 0 <= i < k ==> IsExtension(s[i])) && (k == |s| || !IsExtension(s[k]))
    ensures Extend(s, value, more) == Decoded(REPLACEMENT, k)
    decreases k
  {
    if k > 0 {
      ExtendBroken(s[1..], Six(value, s[0]), more - 1, k - 1);
      ExtendOne(s, value, more);
    }
  }

  /** Every byte string begins with a complete sequence or a broken one, so that the two laws say it all. */
  lemma CompleteOrBroken(s: seq<byte>) returns (k: nat)
    requires s != [] && !IsExtension(s[0])
    ensures Complete(s) || Broken(s, k)
  {
    k := 0;
    while k + 1 < |s| && k + 1 < SeqLength(s[0]) && IsExtension(s[k + 1])
      invariant k < |s| && k < SeqLength(s[0]) && forall i :: 1 <= i <= k ==> IsExtension(s[i])
    {
      k := k + 1;
    }
  }

  // ---------- well-formed text ----------

  /** The two last code points of the last plane are past the limit of strcpy8to16. */
  function Limited(c: char32): char32 {
    if c <= UNICODE_UPPER_LIMIT then c else REPLACEMENT
  }

  function AllLimited(cs: seq<char32>): seq<char32> {
    if cs == [] then [] else [Limited(cs[0])] + AllLimited(cs[1..])
  }

  /** A code point is written as the UTF-16 encoding of itself, or of the replacement past the limit. */
  lemma UnitsAreUtf16(c: char32)
    requires Scalar(c)
    ensures Units(c) == Enc16(Limited(c))
  {
    if 0x1_0000 <= c <= UNICODE_UPPER_LIMIT {
      assert (c - 0x1_0000) / 0x400 + 0xd800 < 0x1_0000;
    }
  }

  lemma FirstIsComplete(s: seq<byte>)
    requires s != [] && WellFormed8(s)
    ensures Complete(s) && Scalar(Point(s)) && WellFormed8(s[SeqLength(s[0])..])
  {
    var n := SeqLength(s[0]);
    var t := s[..n];
    Utf8CharIsEncoding(t);
    assert forall i :: 0 <= i < n ==> s[i] == t[i];
    assert Point(s) == Point(t);
  }

  lemma To16First(c: char32, cs: seq<char32>)
    ensures To16(AllLimited([c] + cs)) == Enc16(Limited(c)) + To16(AllLimited(cs))
  {
    assert ([c] + cs)[1..] == cs;
    assert ([Limited(c)] + AllLimited(cs))[1..] == AllLimited(cs);
  }

  /** Well-formed UTF-8 is converted to UTF-16 code point by code point, with replacements past the limit. */
  lemma {:induction false} WellFormedIsConverted(s: seq<byte>)
    requires WellFormed8(s)
    ensures Framed(s) && Copy8To16(s) == To16(AllLimited(Points8(s)))
    decreases |s|
  {
    if s != [] {
      var n := SeqLength(s[0]);
      FirstIsComplete(s);
      CompleteIsPoint(s);
      CopyFirst(s, Point(s), n);
      UnitsAreUtf16(Point(s));
      WellFormedIsConverted(s[n..]);
      To16First(Point(s), Points8(s[n..]));
    }
  }

  predicate WithinLimit(cs: seq<char32>) {
    forall i :: 0 <= i < |cs| ==> cs[i] <= UNICODE_UPPER_LIMIT
  }

  lemma {:induction false} LimitedAlike(cs: seq<char32>)
    requires AllScalar(cs)
    ensures To16(AllLimited(cs)) == To16(cs) <==> WithinLimit(cs)
  {
    if cs != [] {
      var c, rest := cs[0], cs[1..];
      LimitedAlike(rest);
      assert cs == [c] + rest;
      To16First(c, rest);
      assert WithinLimit(cs) <==> c <= UNICODE_UPPER_LIMIT && WithinLimit(rest) by {
        assert forall i :: 0 <= i < |rest| ==> rest[i] == cs[i + 1];
      }
      if c <= UNICODE_UPPER_LIMIT {
        SameFront(Enc16(c), To16(AllLimited(rest)), To16(rest));
      } else {
        assert To16(AllLimited(cs))[0] == REPLACEMENT && To16(cs)[0] == Enc16(c)[0];
      }
    }
  }

  lemma SameFront(a: seq<unit>, b: seq<unit>, c: seq<unit>)
    ensures a + b == a + c <==> b == c
  {
    if a + b == a + c {
      assert b == (a + b)[|a|..] && c == (a + c)[|a|..];
    }
  }

  /**
    strcpy8to16 of well-formed UTF-8 is what utf8_to_utf16 writes if and only if no code point is past
    0x10fffd.
   */
  lemma SameAsUtf8ToUtf16(s: seq<byte>)
    requires WellFormed8(s)
    ensures Framed(s) && (Copy8To16(s) == Utf8To16(s) <==> WithinLimit(Points8(s)))
  {
    WellFormedIsConverted(s);
    Encoded8(s);
    LimitedAlike(Points8(s));
  }

  /** Each of the two code points past the limit is an input for which they differ. */
  lemma PastLimitIsReplaced(c: char32)
    requires Scalar(c) && c > UNICODE_UPPER_LIMIT
    ensures Copy8To16(Enc8(c)) == [REPLACEMENT] && |Enc16(c)| == 2
  {
    var s := Enc8(c);
    EncodingIsUtf8Char(c);
    CompleteIsPoint(s);
    CopyFirst(s, c, 4);
    assert s[4..] == [] && Copy8To16([]) == [];
  }

  // ---------- from units to bytes ----------

  /**
    strncpy16to8 writes a unit as UTF-8 does, but for two exceptions of modified UTF-8: zero takes two
    bytes, and a surrogate three bytes of its own.
   */
  lemma UnitIsUtf8(u: unit)
    ensures u != 0 && !High(u) && !Low(u) ==> EncodeUnit(u) == Enc8(u)
    ensures u == 0 ==> EncodeUnit(u) == [0xc0, 0x80]
    ensures High(u) || Low(u) ==> Complete(EncodeUnit(u)) && |EncodeUnit(u)| == 3 && Point(EncodeUnit(u)) == u && Enc8(u) == []
  {
    assert u / 64 / 64 == u / 4096;
    if High(u) || Low(u) {
      var s := EncodeUnit(u);
      assert s[0] == 0xed;
      assert Six(Six(s[0] % 16, s[1]), s[2]) == u;
    }
  }

  /** Of text in the basic plane without zeros strncpy16to8 and utf16_to_utf8 make the same. */
  lemma {:induction false} SameAsUtf16ToUtf8(us: seq<unit>)
    requires forall i :: 0 <= i < |us| ==> us[i] != 0 && !High(us[i]) && !Low(us[i])
    ensures Encode(us) == Utf16To8(us)
  {
    if us != [] {
      UnitIsUtf8(us[0]);
      SameAsUtf16ToUtf8(us[1..]);
      var cs := Points16(us);
      assert cs == [us[0]] + Points16(us[1..]) && cs[1..] == Points16(us[1..]);
    }
  }
}
