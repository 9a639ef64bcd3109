/** record_stream.c: length-prefixed records out of a stream read in arbitrary pieces. */
module RecordStream {
  import opened Arithmetic
  import opened Basics

  const HEADER_SIZE: nat := 4

  // ---------- frames ----------

  /** The big-endian length of a header. */
  function HeaderLength(h: seq<byte>): (n: nat)
    requires |h| >= HEADER_SIZE
  {
    (h[0] as int) * 0x100_0000 + (h[1] as int) * 0x1_0000 + (h[2] as int) * 0x100 + h[3] as int
  }

  predicate RecordFits(rec: seq<byte>) {
    |rec| < 0x1_0000_0000
  }

  lemma HeaderExists(n: nat)
    requires n < 0x1_0000_0000
    ensures exists h: seq<byte> :: |h| == HEADER_SIZE && HeaderLength(h) == n
  {
    var x := n / 256;
    var y := x / 256;
    var z := y / 256;
    assert n == 256 * x + n % 256 && x == 256 * y + x % 256 && y == 256 * z + y % 256 && 0 <= z < 256;
    var h: seq<byte> := [z, y % 256, x % 256, n % 256];
    assert HeaderLength(h) == n;
  }

  /** The header of a length. */
  ghost function Header(n: nat): (h: seq<byte>)
    requires n < 0x1_0000_0000
    ensures |h| == HEADER_SIZE && HeaderLength(h) == n
  {
    HeaderExists(n);
    var h: seq<byte> :| |h| == HEADER_SIZE && HeaderLength(h) == n;
    h
  }

  /** What a writer sends for one record, and for many. */
  ghost function Frame(rec: seq<byte>): seq<byte>
    requires RecordFits(rec)
  {
    Header(|rec|) + rec
  }

  predicate AllFit(recs: seq<seq<byte>>) {
    forall k :: 0 <= k < |recs| ==> RecordFits(recs[k])
  }

  ghost function Frames(recs: seq<seq<byte>>): seq<byte>
    requires AllFit(recs)
  {
    if recs == [] then [] else Frame(recs[0]) + Frames(recs[1..])
  }

  /** getEndOfRecord: the end of the first frame, if it is all there. */
  function EndOfRecord(bytes: seq<byte>): (r: Option<nat>)
    ensures r.Some? ==> HEADER_SIZE <= r.value <= |bytes|
  {
    if |bytes| < HEADER_SIZE then None
    else if |bytes| < HEADER_SIZE + HeaderLength(bytes) then None
    else Some(HEADER_SIZE + HeaderLength(bytes))
  }

  /** An address, in an address space of so many bytes. */
  function Address(x: nat, space: nat): nat
    requires space > 0
  {
    x % space
  }

  /** getEndOfRecord on pointers, for bytes that begin at an address: the end less the beginning. */
  function EndByPointers(begin: nat, bytes: seq<byte>, space: nat): Option<int>
    requires begin + |bytes| < space
  {
    var end := begin + |bytes|;
    if end < begin + HEADER_SIZE then None
    else
      var ret := Address(begin + HEADER_SIZE + HeaderLength(bytes), space);
      if end < ret then None else Some(ret - begin)
  }

  /**
    The pointer sum finds the end of the record if and only if it does not pass the end of the
    address space: with 32-bit pointers a header can be too large, with a buffer that ends 2^32 bytes
    or more below the end of the space none is.
   */
  lemma EndIsExact(begin: nat, bytes: seq<byte>, space: nat)
    requires space >= 0x1_0000_0000 && begin + HEADER_SIZE < space && begin + |bytes| < space
    ensures EndByPointers(begin, bytes, space) == (if EndOfRecord(bytes).None? then None else Some(EndOfRecord(bytes).value)) <==>
            |bytes| < HEADER_SIZE || begin + HEADER_SIZE + HeaderLength(bytes) < space
  {
    if |bytes| >= HEADER_SIZE {
      var x := begin + HEADER_SIZE + HeaderLength(bytes);
      LengthBound(bytes);
      if x < space {
        DivUnique(x, space, 0, x);
      } else {
        DivUnique(x, space, 1, x - space);
      }
    }
  }

  /** A header of 0xfffffffc, with 32-bit pointers: the record seems to end where it begins. */
  lemma HeaderWraps(begin: nat)
    requires 0 < begin < 0xffff_fff0
    ensures var bytes := [0xff, 0xff, 0xff, 0xfc];
            EndByPointers(begin, bytes, 0x1_0000_0000) == Some(0) && EndOfRecord(bytes).None?
  {
    DivUnique(begin + HEADER_SIZE + 0xffff_fffc, 0x1_0000_0000, 1, begin);
  }

  /** The header of a length is its four digits to the base 256, the most significant first. */
  lemma HeaderIsBigEndian(n: nat)
    requires n < 0x1_0000_0000
    ensures Header(n) == [n / 0x100_0000, n / 0x1_0000 % 0x100, n / 0x100 % 0x100, n % 0x100]
  {
    var h: seq<byte> := [n / 0x100_0000, n / 0x1_0000 % 0x100, n / 0x100 % 0x100, n % 0x100];
    assert n / 0x1_0000 == n / 0x100 / 0x100 && n / 0x100_0000 == n / 0x1_0000 / 0x100;
    assert HeaderLength(h) == n;
    HeaderUnique(h);
  }

  lemma LengthBound(h: seq<byte>)
    requires |h| >= HEADER_SIZE
    ensures HeaderLength(h) < 0x1_0000_0000
  {
  }

  /** The records whose frames are complete in a byte stream, in order. */
  function Parse(bytes: seq<byte>): seq<seq<byte>> {
    var end := EndOfRecord(bytes);
    if end.None? then [] else [bytes[HEADER_SIZE..end.value]] + Parse(bytes[end.value..])
  }

  lemma FirstFrame(rec: seq<byte>, rest: seq<byte>)
    requires RecordFits(rec)
    ensures var bytes := Frame(rec) + rest;
            EndOfRecord(bytes) == Some(HEADER_SIZE + |rec|) &&
            bytes[HEADER_SIZE..HEADER_SIZE + |rec|] == rec && bytes[HEADER_SIZE + |rec|..] == rest
  {
    var bytes := Frame(rec) + rest;
    assert bytes[..HEADER_SIZE] == Header(|rec|);
    assert HeaderLength(bytes) == HeaderLength(bytes[..HEADER_SIZE]);
  }

  lemma ParseFrame(rec: seq<byte>, tail: seq<byte>)
    requires RecordFits(rec)
    ensures Parse(Frame(rec) + tail) == [rec] + Parse(tail)
  {
    FirstFrame(rec, tail);
  }

  /** The bytes begin with the whole frame of a record. */
  ghost predicate BeginsWith(bytes: seq<byte>, rec: seq<byte>) {
    RecordFits(rec) && Frame(rec) <= bytes
  }

  /**
    getEndOfRecord finds an end exactly if the bytes begin with the frame of some record; it is the
    end of that frame, and the bytes between are the record.
   */
  lemma EndIsFrame(bytes: seq<byte>)
    ensures EndOfRecord(bytes).Some? <==> exists rec :: BeginsWith(bytes, rec)
    ensures forall rec :: BeginsWith(bytes, rec) ==>
              EndOfRecord(bytes) == Some(|Frame(rec)|) && bytes[HEADER_SIZE..|Frame(rec)|] == rec
  {
    if EndOfRecord(bytes).Some? {
      ParsedIsFrame(bytes);
      var rec := bytes[HEADER_SIZE..EndOfRecord(bytes).value];
      assert BeginsWith(bytes, rec);
    }
    forall rec | BeginsWith(bytes, rec)
      ensures EndOfRecord(bytes) == Some(|Frame(rec)|) && bytes[HEADER_SIZE..|Frame(rec)|] == rec
    {
      var rest := bytes[|Frame(rec)|..];
      assert bytes == Frame(rec) + rest;
      FirstFrame(rec, rest);
    }
  }

  /** Parsing gives back what was framed, followed by what the rest holds. */
  lemma {:induction false} ParseFrames(recs: seq<seq<byte>>, rest: seq<byte>)
    requires AllFit(recs)
    ensures Parse(Frames(recs) + rest) == recs + Parse(rest)
  {
    if recs == [] {
      assert Frames(recs) + rest == rest;
      assert recs + Parse(rest) == Parse(rest);
    } else {
      Regroup(Frame(recs[0]), Frames(recs[1..]), rest);
      ParseFrame(recs[0], Frames(recs[1..]) + rest);
      ParseFrames(recs[1..], rest);
      Regroup([recs[0]], recs[1..], Parse(rest));
      assert [recs[0]] + recs[1..] == recs;
    }
  }

  lemma {:induction false} FramesAppend(recs: seq<seq<byte>>, rec: seq<byte>)
    requires AllFit(recs) && RecordFits(rec)
    ensures AllFit(recs + [rec]) && Frames(recs + [rec]) == Frames(recs) + Frame(rec)
  {
    if recs == [] {
      assert recs + [rec] == [rec];
      assert Frames([rec]) == Frame(rec) + Frames([]);
    } else {
      FramesAppend(recs[1..], rec);
      assert (recs + [rec])[1..] == recs[1..] + [rec];
    }
  }

  lemma ParseBoth(sent: seq<seq<byte>>, delivered: seq<seq<byte>>, tail: seq<byte>)
    requires AllFit(sent) && AllFit(delivered) && Frames(sent) == Frames(delivered) + tail
    ensures sent == delivered + Parse(tail)
  {
    ParseFrames(sent, []);
    assert Frames(sent) + [] == Frames(sent);
    ParseFrames(delivered, tail);
    assert Parse([]) == [];
    assert sent + [] == sent;
  }

  /**
    Whatever has been delivered is a prefix of the records of the stream, in order, however
    the stream was cut into what was read and what is still to come.
   */
  lemma DeliveredIsPrefix(sent: seq<seq<byte>>, delivered: seq<seq<byte>>, pending: seq<byte>, future: seq<byte>)
    requires AllFit(sent) && AllFit(delivered)
    requires Frames(sent) == Frames(delivered) + pending + future
    ensures delivered <= sent
    ensures EndOfRecord(pending).None? && future == [] ==> delivered == sent
  {
    var tail := pending + future;
    assert Frames(delivered) + pending + future == Frames(delivered) + tail;
    ParseBoth(sent, delivered, tail);
    if future == [] {
      assert tail == pending;
    }
  }

  /** The header of the pending bytes is that of the next record to deliver. */
  lemma PendingOfFrames(sent: seq<seq<byte>>, delivered: seq<seq<byte>>, pending: seq<byte>, future: seq<byte>)
    requires AllFit(sent) && AllFit(delivered) && |pending| >= HEADER_SIZE
    requires Frames(sent) == Frames(delivered) + pending + future
    ensures |delivered| < |sent| && HeaderLength(pending) == |sent[|delivered|]|
  {
    DeliveredIsPrefix(sent, delivered, pending, future);
    var rest := sent[|delivered|..];
    assert sent == delivered + rest;
    RestOfFrames(delivered, rest, pending + future);
    HeaderOfFrames(rest, pending, future);
  }

  lemma RestOfFrames(delivered: seq<seq<byte>>, rest: seq<seq<byte>>, tail: seq<byte>)
    requires AllFit(delivered) && AllFit(rest) && AllFit(delivered + rest) && Frames(delivered + rest) == Frames(delivered) + tail
    ensures Frames(rest) == tail
  {
    FramesConcat(delivered, rest);
    SameTail(Frames(delivered), Frames(rest), tail);
  }

  lemma SameTail(a: seq<byte>, b: seq<byte>, c: seq<byte>)
    requires a + b == a + c
    ensures b == c
  {
    assert (a + b)[|a|..] == b && (a + c)[|a|..] == c;
  }

  lemma HeaderOfFrames(recs: seq<seq<byte>>, pending: seq<byte>, future: seq<byte>)
    requires AllFit(recs) && Frames(recs) == pending + future && |pending| >= HEADER_SIZE
    ensures recs != [] && HeaderLength(pending) == |recs[0]|
  {
    assert recs != [];
    var h := Header(|recs[0]|);
    assert Frames(recs)[..HEADER_SIZE] == h;
    assert (pending + future)[..HEADER_SIZE] == pending[..HEADER_SIZE];
    assert HeaderLength(pending) == HeaderLength(pending[..HEADER_SIZE]);
  }

  lemma {:induction false} FramesConcat(a: seq<seq<byte>>, b: seq<seq<byte>>)
    requires AllFit(a) && AllFit(b) && AllFit(a + b)
    ensures Frames(a + b) == Frames(a) + Frames(b)
  {
    if a == [] {
      assert a + b == b;
    } else {
      assert (a + b)[1..] == a[1..] + b;
      FramesConcat(a[1..], b);
    }
  }

  // ---------- the stream ----------

  /** What read() can answer. */
  datatype ReadResult = Bytes(data: seq<byte>) | EndOfFile | ReadError

  datatype Outcome =
    | Record(data: seq<byte>)   // 0, with a record
    | EndOfStream               // 0, with NULL
    | Again                     // -1, EAGAIN
    | Failed                    // -1 from read
    | TooLong                   // the assertion that should never happen

  /** An answer of read() on a connection that still carries text, if it gives at most so many, asked for n. */
  function Reads(text: seq<byte>, most: Option<nat>, n: nat): (a: ReadResult)
    requires n > 0
    ensures DataOf(a) <= text && (a.Bytes? ==> 1 <= |a.data| <= n) && (a.EndOfFile? ==> text == [])
    ensures a.ReadError? <==> most == Some(0)
  {
    if most == Some(0) then ReadError
    else if text == [] then EndOfFile
    else
      var limit := if most.Some? && most.value < n then most.value else n;
      Bytes(if limit < |text| then text[..limit] else text)
  }

  function DataOf(answer: ReadResult): seq<byte> {
    if answer.Bytes? then answer.data else []
  }

  /** What is made of an answer of read(), with so much pending and no complete frame in it. */
  predicate PassesOn(answer: ReadResult, pending: seq<byte>, r: Outcome) {
    match answer
    case EndOfFile => r.EndOfStream?
    case ReadError => r.Failed?
    case Bytes(data) => if EndOfRecord(pending + data).Some? then r.Record? else r.Again?
  }

  class RecordStream {
    const maxRecordLen: nat
    const buffer: array<byte>
    var unconsumed: nat
    var readEnd: nat
    ghost var input: seq<byte>              // every byte read so far
    ghost var delivered: seq<seq<byte>>     // every record handed out so far

    ghost predicate Valid()
      reads this, buffer
    {
      && buffer.Length == maxRecordLen + HEADER_SIZE
      && unconsumed <= readEnd <= buffer.Length
      && AllFit(delivered)
      && input == Frames(delivered) + Pending()
    }

    ghost function Pending(): seq<byte>
      requires unconsumed <= readEnd <= buffer.Length
      reads this, buffer
    {
      buffer[unconsumed..readEnd]
    }

    constructor (maxRecordLen: nat)
      ensures Valid() && fresh(buffer) && input == [] && delivered == [] && this.maxRecordLen == maxRecordLen
    {
      this.maxRecordLen := maxRecordLen;
      buffer := new byte[maxRecordLen + HEADER_SIZE];
      unconsumed, readEnd := 0, 0;
      input, delivered := [], [];
    }

    /** getNextRecord: the first pending record, if it is complete. */
    method NextRecord() returns (r: Option<seq<byte>>)
      requires Valid()
      modifies this`unconsumed, this`delivered
      ensures Valid()
      ensures r.Some? <==> EndOfRecord(old(Pending())).Some?
      ensures r.None? ==> unconsumed == old(unconsumed) && delivered == old(delivered)
      ensures r.Some? ==> delivered == old(delivered) + [r.value] && RecordFits(r.value) && old(Pending()) == Frame(r.value) + Pending()
    {
      var bytes := buffer[unconsumed..readEnd];
      var end := EndOfRecord(bytes);
      if end.None? {
        return None;
      }
      var rec := bytes[HEADER_SIZE..end.value];
      ParsedIsFrame(bytes);
      FramesAppend(delivered, rec);
      unconsumed := unconsumed + end.value;
      assert bytes == Frame(rec) + bytes[end.value..];
      assert Pending() == bytes[end.value..];
      delivered := delivered + [rec];
      r := Some(rec);
    }

    /** Moves the remainder to the beginning of the buffer. */
    method Compact()
      requires Valid()
      modifies this`unconsumed, this`readEnd, buffer
      ensures Valid() && unconsumed == 0 && Pending() == old(Pending())
    {
      if unconsumed != 0 {
        var toMove := readEnd - unconsumed;
        ghost var before := Pending();
        forall i | 0 <= i < toMove {
          buffer[i] := buffer[unconsumed + i];
        }
        readEnd := toMove;
        unconsumed := 0;
        assert Pending() == before;
      }
    }

    /** read(): some bytes arrive behind the pending ones. */
    method Receive(data: seq<byte>)
      requires Valid() && readEnd + |data| <= buffer.Length
      modifies this`readEnd, this`input, buffer
      ensures Valid() && Pending() == old(Pending()) + data && input == old(input) + data
    {
      ghost var before := Pending();
      forall i | 0 <= i < |data| {
        buffer[readEnd + i] := data[i];
      }
      readEnd := readEnd + |data|;
      input := input + data;
      assert Pending() == before + data;
    }

    /** What read() is asked for: what the buffer still takes. */
    ghost function Room(): nat
      requires Valid()
      reads this, buffer
    {
      maxRecordLen + HEADER_SIZE - |Pending()|
    }

    /** Nothing complete is pending, so that more must be read, if there is room. */
    ghost predicate Starved()
      requires Valid()
      reads this, buffer
    {
      EndOfRecord(Pending()).None?
    }

    /**
      record_stream_get_next for any way read() answers.  With a complete frame pending it hands that
      out and reads nothing.  Otherwise it gives up exactly if the buffer is full, and else asks read()
      once, for as many bytes as there is room, at least one: the end of the stream and an error are
      passed on, and bytes that arrive complete the next frame or are to be continued.  A record handed
      out is the next frame of the input; without one, no complete frame is left pending.
     */
    method GetNext(read: nat --> ReadResult) returns (r: Outcome)
      requires Valid()
      requires forall n: nat :: n > 0 ==> read.requires(n) && (read(n).Bytes? ==> 1 <= |read(n).data| <= n)
      modifies this`unconsumed, this`readEnd, this`input, this`delivered, buffer
      ensures Valid()
      ensures if r.Record? then delivered == old(delivered) + [r.data] else delivered == old(delivered) && Starved()
      ensures !old(Starved()) ==> r.Record? && input == old(input)
      ensures r.TooLong? <==> old(Starved()) && old(Room()) == 0
      ensures r.TooLong? ==> input == old(input) && |Pending()| >= HEADER_SIZE && HeaderLength(Pending()) > maxRecordLen
      ensures old(Starved()) && old(Room()) > 0 ==>
                PassesOn(read(old(Room())), old(Pending()), r) && input == old(input) + DataOf(read(old(Room())))
    {
      ghost var room := Room();
      var rec := NextRecord();
      if rec.Some? {
        return Record(rec.value);
      }
      if unconsumed == 0 && readEnd == buffer.Length {
        FullIsTooLong(Pending(), maxRecordLen);
        return TooLong;
      }
      Compact();
      assert buffer.Length - readEnd == room > 0;
      var answer := read(buffer.Length - readEnd);
      r := TakeIn(answer);
    }

    /** What follows an answer of read(). */
    method TakeIn(answer: ReadResult) returns (r: Outcome)
      requires Valid() && Starved() && readEnd + |DataOf(answer)| <= buffer.Length
      modifies this`unconsumed, this`readEnd, this`input, this`delivered, buffer
      ensures Valid() && input == old(input) + DataOf(answer) && PassesOn(answer, old(Pending()), r)
      ensures if r.Record? then delivered == old(delivered) + [r.data] else delivered == old(delivered) && Starved()
    {
      if answer.EndOfFile? {
        return EndOfStream;
      } else if answer.ReadError? {
        return Failed;
      }
      Receive(answer.data);
      var rec := NextRecord();
      r := if rec.Some? then Record(rec.value) else Again;
    }

    /**
      Calls record_stream_get_next until the stream ends or a record is too long, on a connection that
      still carries text.  sizes says how read() behaves: 0 is an error, any other number the most it
      gives, and after the last of them it gives all it can.  However it cuts the text, the records
      handed out are those of the text, and all of them if none is longer than maxRecordLen.
     */
    method Drain(text: seq<byte>, sizes: seq<nat>, ghost sent: seq<seq<byte>>) returns (records: seq<seq<byte>>, r: Outcome)
      requires Valid()
      modifies this`unconsumed, this`readEnd, this`input, this`delivered, buffer
      ensures Valid() && delivered == old(delivered) + records && (r.EndOfStream? || r.TooLong?)
      ensures r.EndOfStream? ==> input == old(input) + text && records == Parse(old(Pending()) + text)
      ensures r.TooLong? ==> records <= Parse(old(Pending()) + text)
      ensures AllFit(sent) && Frames(sent) == old(Pending()) + text && (forall k :: 0 <= k < |sent| ==> |sent[k]| <= maxRecordLen) ==>
                r.EndOfStream? && records == sent
    {
      records, r := [], Again;
      var left, step := text, 0;
      assert Frames([]) + Pending() + left == Pending() + left;
      while !r.EndOfStream? && !r.TooLong?
        invariant Valid() && delivered == old(delivered) + records && step <= |sizes| && AllFit(records)
        invariant old(Pending()) + text == Frames(records) + (Pending() + left)
        invariant input + left == old(input) + text
        invariant r.EndOfStream? ==> left == [] && Starved()
        invariant r.TooLong? ==> |Pending()| >= HEADER_SIZE && HeaderLength(Pending()) > maxRecordLen
        decreases !r.EndOfStream? && !r.TooLong?, |sizes| - step, |left|, |Pending()|
      {
        ghost var before := Pending() + left;
        var asked;
        r, left, asked := NextOf(left, if step < |sizes| then Some(sizes[step]) else None);
        if asked && step < |sizes| {
          step := step + 1;
        }
        if r.Record? {
          OneMore(records, r.data, before, Pending() + left);
          records := records + [r.data];
        }
      }
      AllHandedOut(records, Pending(), left, old(Pending()) + text, sent, maxRecordLen);
    }

    /** One call on a connection that still carries text, and what it carries then. */
    method NextOf(text: seq<byte>, most: Option<nat>) returns (r: Outcome, left: seq<byte>, asked: bool)
      requires Valid()
      modifies this`unconsumed, this`readEnd, this`input, this`delivered, buffer
      ensures Valid() && delivered == old(delivered) + (if r.Record? then [r.data] else [])
      ensures r.Record? ==> RecordFits(r.data) && old(Pending()) + text == Frame(r.data) + (Pending() + left)
      ensures !r.Record? ==> old(Pending()) + text == Pending() + left && Starved()
      ensures input + left == old(input) + text && |left| <= |text|
      ensures r.EndOfStream? ==> left == []
      ensures r.TooLong? ==> |Pending()| >= HEADER_SIZE && HeaderLength(Pending()) > maxRecordLen
      ensures !asked ==> left == text && (r.TooLong? || |Pending()| < old(|Pending()|))
      ensures asked && most.None? ==> r.EndOfStream? || |left| < |text|
    {
      ghost var before, pending := delivered, Pending();
      var more;
      r, more, asked := CallOn(text, most);
      left := text[|more|..];
      AfterCall(before, delivered, pending, more, Pending(), r);
      Passed(pending, more, left, text, Pending(), r);
    }

    /** One call, and the bytes that arrived in it. */
    method CallOn(text: seq<byte>, most: Option<nat>) returns (r: Outcome, more: seq<byte>, asked: bool)
      requires Valid()
      modifies this`unconsumed, this`readEnd, this`input, this`delivered, buffer
      ensures Valid() && delivered == old(delivered) + (if r.Record? then [r.data] else []) && (r.Record? || Starved())
      ensures more <= text && input == old(input) + more
      ensures r.EndOfStream? ==> text == []
      ensures r.TooLong? ==> |Pending()| >= HEADER_SIZE && HeaderLength(Pending()) > maxRecordLen
      ensures !asked ==> more == [] && (r.TooLong? || r.Record?)
      ensures asked && most.None? ==> r.EndOfStream? || more != []
    {
      var pending := buffer[unconsumed..readEnd];
      asked := EndOfRecord(pending).None? && |pending| < buffer.Length;
      var room := buffer.Length - |pending|;
      more := if asked then DataOf(Reads(text, most, room)) else [];
      assert Pending() == pending && Room() == room && asked == (Starved() && room > 0);
      r := GetNextOf(text, most);
      if asked {
        AnswerPassedOn(text, most, room, pending, r);
      }
    }

    /** The call itself, with read() on that connection. */
    method GetNextOf(text: seq<byte>, most: Option<nat>) returns (r: Outcome)
      requires Valid()
      modifies this`unconsumed, this`readEnd, this`input, this`delivered, buffer
      ensures Valid()
      ensures if r.Record? then delivered == old(delivered) + [r.data] else delivered == old(delivered) && Starved()
      ensures !old(Starved()) ==> r.Record? && input == old(input)
      ensures r.TooLong? <==> old(Starved()) && old(Room()) == 0
      ensures r.TooLong? ==> input == old(input) && |Pending()| >= HEADER_SIZE && HeaderLength(Pending()) > maxRecordLen
      ensures old(Starved()) && old(Room()) > 0 ==>
                && PassesOn(Reads(text, most, old(Room())), old(Pending()), r)
                && input == old(input) + DataOf(Reads(text, most, old(Room())))
    {
      var read := (n: nat) requires n > 0 => Reads(text, most, n);
      r := GetNext(read);
    }

    /** With every record sent at most maxRecordLen long, TooLong is impossible. */
    lemma NeverTooLong(sent: seq<seq<byte>>, future: seq<byte>)
      requires Valid() && AllFit(sent) && Frames(sent) == input + future
      requires forall k :: 0 <= k < |sent| ==> |sent[k]| <= maxRecordLen
      ensures delivered <= sent
      ensures |Pending()| >= HEADER_SIZE ==> HeaderLength(Pending()) <= maxRecordLen
      ensures future == [] && EndOfRecord(Pending()).None? ==> delivered == sent
    {
      DeliveredIsPrefix(sent, delivered, Pending(), future);
      if |Pending()| >= HEADER_SIZE {
        PendingOfFrames(sent, delivered, Pending(), future);
      }
    }
  }

  lemma FullIsTooLong(pending: seq<byte>, maxRecordLen: nat)
    requires |pending| == maxRecordLen + HEADER_SIZE && EndOfRecord(pending).None?
    ensures HeaderLength(pending) > maxRecordLen
  {
  }

  lemma AnswerPassedOn(text: seq<byte>, most: Option<nat>, n: nat, pending: seq<byte>, r: Outcome)
    requires n > 0 && PassesOn(Reads(text, most, n), pending, r)
    ensures (r.EndOfStream? ==> text == []) && (most.None? ==> r.EndOfStream? || DataOf(Reads(text, most, n)) != [])
    ensures !r.TooLong? && DataOf(Reads(text, most, n)) <= text
  {
  }

  /** What one call takes from the pending bytes and those that arrived. */
  lemma AfterCall(before: seq<seq<byte>>, after: seq<seq<byte>>, pending: seq<byte>, more: seq<byte>, pending': seq<byte>, r: Outcome)
    requires AllFit(before) && AllFit(after) && after == before + (if r.Record? then [r.data] else [])
    requires Frames(before) + pending + more == Frames(after) + pending'
    ensures r.Record? ==> RecordFits(r.data) && pending + more == Frame(r.data) + pending'
    ensures !r.Record? ==> pending + more == pending'
  {
    Regroup(Frames(before), pending, more);
    if r.Record? {
      assert after[|before|] == r.data;
      FramesAppend(before, r.data);
      Regroup(Frames(before), Frame(r.data), pending');
      SameTail(Frames(before), pending + more, Frame(r.data) + pending');
    } else {
      assert after == before;
      SameTail(Frames(before), pending + more, pending');
    }
  }

  /** The same with what is still to come. */
  lemma Passed(pending: seq<byte>, more: seq<byte>, left: seq<byte>, text: seq<byte>, pending': seq<byte>, r: Outcome)
    requires more <= text && left == text[|more|..]
    requires r.Record? ==> RecordFits(r.data) && pending + more == Frame(r.data) + pending'
    requires !r.Record? ==> pending + more == pending'
    ensures text == more + left
    ensures if r.Record? then pending + text == Frame(r.data) + (pending' + left) else pending + text == pending' + left
    ensures r.Record? && more == [] ==> |pending'| < |pending|
  {
    assert text == more + left;
    Regroup(pending, more, left);
    if r.Record? {
      Regroup(Frame(r.data), pending', left);
      if more == [] {
        assert pending + more == pending;
      }
    }
  }

  /** One more record handed out. */
  lemma OneMore(records: seq<seq<byte>>, rec: seq<byte>, before: seq<byte>, after: seq<byte>)
    requires AllFit(records) && RecordFits(rec) && before == Frame(rec) + after
    ensures AllFit(records + [rec]) && Frames(records) + before == Frames(records + [rec]) + after
  {
    FramesAppend(records, rec);
    Regroup(Frames(records), Frame(rec), after);
  }

  /** When nothing is left to read and no frame is complete, every record has been handed out. */
  lemma AllHandedOut(records: seq<seq<byte>>, pending: seq<byte>, left: seq<byte>, all: seq<byte>, sent: seq<seq<byte>>, maxRecordLen: nat)
    requires AllFit(records) && all == Frames(records) + (pending + left)
    requires (left == [] && EndOfRecord(pending).None?) || (|pending| >= HEADER_SIZE && HeaderLength(pending) > maxRecordLen)
    ensures records <= Parse(all) && (left == [] && EndOfRecord(pending).None? ==> records == Parse(all))
    ensures AllFit(sent) && Frames(sent) == all && (forall k :: 0 <= k < |sent| ==> |sent[k]| <= maxRecordLen) ==>
              left == [] && EndOfRecord(pending).None? && records == sent
  {
    ParseFrames(records, pending + left);
    if left == [] {
      assert pending + left == pending;
    }
    if AllFit(sent) && Frames(sent) == all && (forall k :: 0 <= k < |sent| ==> |sent[k]| <= maxRecordLen) {
      Regroup(Frames(records), pending, left);
      DeliveredIsPrefix(sent, records, pending, left);
      if |pending| >= HEADER_SIZE {
        PendingOfFrames(sent, records, pending, left);
      }
    }
  }

  /** A complete frame is the frame of its body. */
  lemma ParsedIsFrame(bytes: seq<byte>)
    requires EndOfRecord(bytes).Some?
    ensures var end := EndOfRecord(bytes).value; var rec := bytes[HEADER_SIZE..end];
            RecordFits(rec) && bytes == Frame(rec) + bytes[end..]
  {
    var end := EndOfRecord(bytes).value;
    var rec := bytes[HEADER_SIZE..end];
    HeaderUnique(bytes[..HEADER_SIZE]);
    assert HeaderLength(bytes) == HeaderLength(bytes[..HEADER_SIZE]);
    assert bytes == bytes[..HEADER_SIZE] + rec + bytes[end..];
  }

  lemma HeaderUnique(h: seq<byte>)
    requires |h| == HEADER_SIZE
    ensures HeaderLength(h) < 0x1_0000_0000 && Header(HeaderLength(h)) == h
  {
    var g := Header(HeaderLength(h));
    var a: int, b: int, c: int, d: int := h[0], h[1], h[2], h[3];
    var a': int, b': int, c': int, d': int := g[0], g[1], g[2], g[3];
    SameDigits(a, b, c, d, a', b', c', d');
    assert g == h;
  }

  lemma SameDigits(a: int, b: int, c: int, d: int, a': int, b': int, c': int, d': int)
    requires 0 <= a < 256 && 0 <= b < 256 && 0 <= c < 256 && 0 <= d < 256
    requires 0 <= a' < 256 && 0 <= b' < 256 && 0 <= c' < 256 && 0 <= d' < 256
    requires a * 0x100_0000 + b * 0x1_0000 + c * 0x100 + d == a' * 0x100_0000 + b' * 0x1_0000 + c' * 0x100 + d'
    ensures a == a' && b == b' && c == c' && d == d'
  {
  }
}
