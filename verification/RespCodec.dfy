/** The RESP codec: the blocking reader over a byte stream, the writer's request encoding, and
    the round trip between them. */
module RespCodec {
  import opened Options
  import opened RespNumbers

  const STAR: Byte := 42
  const DOLLAR: Byte := 36
  const CRLF: Bytes := [CR, LF]
  const MAX_HEADER_LINE: nat := 64

  type Args = seq<Bytes>

  /** Ceilings on declared sizes, the size of the read buffer, and whether the stream ends in a
      transport error rather than an end of file. */
  datatype Limits = Limits(maxBulk: nat, maxMultibulk: nat, buffer: nat, broken: bool)

  const DEFAULT_LIMITS: Limits := Limits(536_870_912, 1_048_576, 16_384, false)

  datatype Kind = ExpectedArray | ExpectedBulk | BadLength | MissingCRLF | BulkTooLong | MultibulkTooLong | LineTooLong

  datatype Error = CleanEOF | UnexpectedEOF | Transport | Protocol(kind: Kind)

  /** How the stream's end is reported: a transport error as it is, an end of file by where it falls. */
  function Ending(lim: Limits, between: bool): Error
  {
    if lim.broken then Transport else if between then CleanEOF else UnexpectedEOF
  }

  /** A value and the bytes left in the stream, or an error. */
  datatype Read<T> = Got(value: T, rest: Bytes) | Failed(error: Error)

  /** Position of the first line feed, or the length if there is none. */
  function FirstLF(s: Bytes): (i: nat)
    ensures i <= |s| && (forall j :: 0 <= j < i ==> s[j] != LF) && (i < |s| ==> s[i] == LF)
  {
    if s == [] then 0 else if s[0] == LF then 0 else 1 + FirstLF(s[1..])
  }

  lemma FirstLFIs(s: Bytes, i: nat)
    requires i <= |s| && (forall j :: 0 <= j < i ==> s[j] != LF) && (i < |s| ==> s[i] == LF)
    ensures FirstLF(s) == i
  {
  }

  // ---- Reading ----

  /** One header line without its CRLF.  `first` marks the first line of a command, where an
      empty stream is a clean end. */
  function HeaderLine(s: Bytes, lim: Limits, first: bool): Read<Bytes>
  {
    var i := FirstLF(s);
    if i < |s| && i < lim.buffer then
      if i + 1 > MAX_HEADER_LINE then Failed(Protocol(LineTooLong))
      else if i < 1 || s[i - 1] != CR then Failed(Protocol(MissingCRLF))
      else Got(s[..i - 1], s[i + 1..])
    else if |s| >= lim.buffer then Failed(Protocol(LineTooLong))
    else Failed(Ending(lim, first && s == []))
  }

  /** A header that declares a size: the type byte, then a canonical decimal. */
  function Size(s: Bytes, lim: Limits, first: bool, mark: Byte, wrong: Kind, max: nat, over: Kind): (r: Read<nat>)
    ensures r.Got? ==> |r.rest| < |s|
  {
    match HeaderLine(s, lim, first)
    case Failed(e) => Failed(e)
    case Got(line, rest) =>
      if line == [] || line[0] != mark then Failed(Protocol(wrong))
      else
        match ParsedInt(line[1..])
        case None => Failed(Protocol(BadLength))
        case Some(n) => if n > max then Failed(Protocol(over)) else Got(n, rest)
  }

  /** One bulk string: its size, its bytes, and a CRLF. */
  function BulkArg(s: Bytes, lim: Limits): (r: Read<Bytes>)
    ensures r.Got? ==> |r.rest| < |s|
  {
    match Size(s, lim, false, DOLLAR, ExpectedBulk, lim.maxBulk, BulkTooLong)
    case Failed(e) => Failed(e)
    case Got(n, rest) =>
      if |rest| < n + 2 then Failed(Ending(lim, false))
      else if rest[n..n + 2] != CRLF then Failed(Protocol(MissingCRLF))
      else Got(rest[..n], rest[n + 2..])
  }

  function BulkArgs(s: Bytes, lim: Limits, n: nat): (r: Read<Args>)
    ensures r.Got? ==> |r.value| == n
  {
    if n == 0 then Got([], s)
    else
      match BulkArg(s, lim)
      case Failed(e) => Failed(e)
      case Got(a, rest) =>
        match BulkArgs(rest, lim, n - 1)
        case Failed(e) => Failed(e)
        case Got(as', rest') => Got([a] + as', rest')
  }

  /** One command: an array of bulk strings. */
  function Command(s: Bytes, lim: Limits): Read<Args>
  {
    match Size(s, lim, true, STAR, ExpectedArray, lim.maxMultibulk, MultibulkTooLong)
    case Failed(e) => Failed(e)
    case Got(n, rest) => BulkArgs(rest, lim, n)
  }

  // ---- Writing ----

  function Header(mark: Byte, n: nat): Bytes
  {
    [mark] + Decimal(n) + CRLF
  }

  function EncodeBulk(b: Bytes): Bytes
  {
    Header(DOLLAR, |b|) + b + CRLF
  }

  function EncodeBulks(args: Args): Bytes
  {
    if args == [] then [] else EncodeBulk(args[0]) + EncodeBulks(args[1..])
  }

  function Encode(args: Args): Bytes
  {
    Header(STAR, |args|) + EncodeBulks(args)
  }

  /** A size the limits admit, with a header line that fits the read buffer. */
  predicate SizeFits(mark: Byte, n: nat, max: nat, lim: Limits)
  {
    n <= max && n <= MAX_INT && |Header(mark, n)| <= lim.buffer
  }

  predicate ArgsFit(args: Args, lim: Limits)
  {
    forall i :: 0 <= i < |args| ==> SizeFits(DOLLAR, |args[i]|, lim.maxBulk, lim)
  }

  /** A command the limits and the buffer admit. */
  predicate Within(args: Args, lim: Limits)
  {
    SizeFits(STAR, |args|, lim.maxMultibulk, lim) && ArgsFit(args, lim)
  }

  // ---- Round trip ----

  lemma HeaderBytes(mark: Byte, n: nat)
    requires mark != LF
    ensures var h := Header(mark, n);
      && 4 <= |h| && (n <= MAX_INT ==> |h| <= 22) && h[0] == mark && h[|h| - 2] == CR && h[|h| - 1] == LF
      && h[1..|h| - 2] == Decimal(n)
      && (forall j :: 0 <= j < |h| - 1 ==> h[j] != LF)
      && (mark != CR ==> forall j :: 0 <= j < |h| - 2 ==> h[j] != CR)
  {
    if n <= MAX_INT {
      DecimalFits(n);
    }
    hide Decimal;
    var h, d := Header(mark, n), Decimal(n);
    assert forall j :: 1 <= j < |h| - 2 ==> h[j] == d[j - 1];
  }

  /** The number in a written header parses back, unless it is too large. */
  lemma SizeParses(n: nat)
    ensures ParsedInt(Decimal(n)) == if n <= MAX_INT then Some(n) else None
  {
    ParsesExactlyDecimals(Decimal(n), n);
    if ParsedInt(Decimal(n)).Some? {
      var k := ParsedInt(Decimal(n)).value;
      ParsesExactlyDecimals(Decimal(n), k);
      DecimalValue(n);
      DecimalValue(k);
    }
  }

  /** A written header is read back, whatever follows it, exactly when the size fits. */
  lemma SizeRoundTrip(mark: Byte, n: nat, tail: Bytes, lim: Limits, first: bool, wrong: Kind, max: nat, over: Kind)
    requires mark != LF
    ensures var r := Size(Header(mark, n) + tail, lim, first, mark, wrong, max, over);
      if SizeFits(mark, n, max, lim) then r == Got(n, tail) else r.Failed?
  {
    var h := Header(mark, n);
    var s := h + tail;
    HeaderBytes(mark, n);
    SizeParses(n);
    hide ParsedInt;
    hide Header;
    hide Decimal;
    FirstLFIs(s, |h| - 1);
    assert s[..|h| - 2] == h[..|h| - 2] && s[|h|..] == tail;
    assert h[..|h| - 2][1..] == h[1..|h| - 2];
  }

  lemma BulkRoundTrip(b: Bytes, tail: Bytes, lim: Limits)
    ensures var r := BulkArg(EncodeBulk(b) + tail, lim);
      if SizeFits(DOLLAR, |b|, lim.maxBulk, lim) then r == Got(b, tail) else r.Failed?
  {
    var rest := b + CRLF + tail;
    assert EncodeBulk(b) + tail == Header(DOLLAR, |b|) + rest;
    SizeRoundTrip(DOLLAR, |b|, rest, lim, false, ExpectedBulk, lim.maxBulk, BulkTooLong);
    hide Header;
    hide Size;
    assert rest[|b|..|b| + 2] == CRLF && rest[..|b|] == b && rest[|b| + 2..] == tail;
  }

  lemma {:induction false} BulksRoundTrip(args: Args, tail: Bytes, lim: Limits)
    ensures var r := BulkArgs(EncodeBulks(args) + tail, lim, |args|);
      if ArgsFit(args, lim) then r == Got(args, tail) else r.Failed?
  {
    if args == [] {
      assert EncodeBulks(args) + tail == tail;
    } else {
      var more := EncodeBulks(args[1..]) + tail;
      assert EncodeBulks(args) + tail == EncodeBulk(args[0]) + more;
      BulkRoundTrip(args[0], more, lim);
      BulksRoundTrip(args[1..], tail, lim);
      FirstFits(args, lim);
      hide EncodeBulk;
      hide BulkArg;
      hide ArgsFit;
      hide SizeFits;
      assert args == [args[0]] + args[1..];
    }
  }

  lemma FirstFits(args: Args, lim: Limits)
    requires args != []
    ensures ArgsFit(args, lim) <==> SizeFits(DOLLAR, |args[0]|, lim.maxBulk, lim) && ArgsFit(args[1..], lim)
  {
    hide SizeFits;
    if SizeFits(DOLLAR, |args[0]|, lim.maxBulk, lim) && ArgsFit(args[1..], lim) {
      forall i | 0 <= i < |args|
        ensures SizeFits(DOLLAR, |args[i]|, lim.maxBulk, lim)
      {
        if i > 0 {
          assert args[i] == args[1..][i - 1];
        }
      }
    }
    if ArgsFit(args, lim) {
      forall i | 0 <= i < |args| - 1
        ensures SizeFits(DOLLAR, |args[1..][i]|, lim.maxBulk, lim)
      {
        assert args[i + 1] == args[1..][i];
      }
    }
  }

  /** A written command is read back as exactly its arguments, leaving the rest of the stream
      untouched, if and only if it is within the limits and its headers fit the buffer. */
  lemma RoundTripIff(args: Args, tail: Bytes, lim: Limits)
    ensures var r := Command(Encode(args) + tail, lim);
      if Within(args, lim) then r == Got(args, tail) else r.Failed?
  {
    assert Encode(args) + tail == Header(STAR, |args|) + (EncodeBulks(args) + tail);
    SizeRoundTrip(STAR, |args|, EncodeBulks(args) + tail, lim, true, ExpectedArray, lim.maxMultibulk, MultibulkTooLong);
    BulksRoundTrip(args, tail, lim);
    hide Header;
    hide Size;
    hide SizeFits;
    hide ArgsFit;
  }

  // ---- Truncated frames ----

  lemma HeaderCut(mark: Byte, n: nat, k: nat, lim: Limits, first: bool, wrong: Kind, max: nat, over: Kind)
    requires mark != LF && |Header(mark, n)| <= lim.buffer && k < |Header(mark, n)|
    ensures Size(Header(mark, n)[..k], lim, first, mark, wrong, max, over) == Failed(Ending(lim, first && k == 0))
  {
    HeaderBytes(mark, n);
    FirstLFIs(Header(mark, n)[..k], k);
    hide Header;
  }

  lemma BulkCut(b: Bytes, k: nat, lim: Limits)
    requires SizeFits(DOLLAR, |b|, lim.maxBulk, lim) && k < |EncodeBulk(b)|
    ensures BulkArg(EncodeBulk(b)[..k], lim) == Failed(Ending(lim, false))
  {
    var h := Header(DOLLAR, |b|);
    if k < |h| {
      assert EncodeBulk(b)[..k] == h[..k];
      HeaderCut(DOLLAR, |b|, k, lim, false, ExpectedBulk, lim.maxBulk, BulkTooLong);
    } else {
      var q := (b + CRLF)[..k - |h|];
      assert EncodeBulk(b)[..k] == h + q;
      SizeRoundTrip(DOLLAR, |b|, q, lim, false, ExpectedBulk, lim.maxBulk, BulkTooLong);
    }
    hide Header;
    hide Size;
  }

  lemma {:induction false} BulksCut(args: Args, k: nat, lim: Limits)
    requires ArgsFit(args, lim) && k < |EncodeBulks(args)|
    ensures BulkArgs(EncodeBulks(args)[..k], lim, |args|) == Failed(Ending(lim, false))
  {
    hide EncodeBulk;
    hide BulkArg;
    hide ArgsFit;
    hide SizeFits;
    FirstFits(args, lim);
    var e := EncodeBulk(args[0]);
    if k < |e| {
      assert EncodeBulks(args)[..k] == e[..k];
      BulkCut(args[0], k, lim);
    } else {
      var q := EncodeBulks(args[1..])[..k - |e|];
      assert EncodeBulks(args)[..k] == e + q;
      BulkRoundTrip(args[0], q, lim);
      BulksCut(args[1..], k - |e|, lim);
    }
  }

  /** A stream that ends inside a command is reported as truncated, never as a shorter command
      or a malformed one; a stream that ends between commands is a clean end. */
  lemma TruncatedCommand(args: Args, k: nat, lim: Limits)
    requires Within(args, lim) && k < |Encode(args)|
    ensures Command(Encode(args)[..k], lim)
         == Failed(if lim.broken then Transport else if k == 0 then CleanEOF else UnexpectedEOF)
  {
    var h := Header(STAR, |args|);
    if k < |h| {
      assert Encode(args)[..k] == h[..k];
      HeaderCut(STAR, |args|, k, lim, true, ExpectedArray, lim.maxMultibulk, MultibulkTooLong);
    } else {
      var q := EncodeBulks(args)[..k - |h|];
      assert Encode(args)[..k] == h + q;
      SizeRoundTrip(STAR, |args|, q, lim, true, ExpectedArray, lim.maxMultibulk, MultibulkTooLong);
      BulksCut(args, k - |h|, lim);
    }
    hide Header;
    hide Size;
  }

  // ---- The reader and writer as objects ----

  /** Reads commands off a byte stream; the unread bytes are its only state. */
  class Reader {
    var s: Bytes
    const lim: Limits

    constructor (s: Bytes, lim: Limits)
      ensures this.s == s && this.lim == lim
    {
      this.s, this.lim := s, lim;
    }

    method ReadSize(first: bool, mark: Byte, wrong: Kind, max: nat, over: Kind) returns (r: Read<nat>)
      modifies this`s
      ensures r == Size(old(s), lim, first, mark, wrong, max, over)
      ensures r.Got? ==> s == r.rest
    {
      match HeaderLine(s, lim, first)
      case Failed(e) => r := Failed(e);
      case Got(line, rest) =>
        s := rest;
        if line == [] || line[0] != mark {
          return Failed(Protocol(wrong));
        }
        var n := ParseInt(line[1..]);
        if n.None? {
          return Failed(Protocol(BadLength));
        }
        r := if n.value > max then Failed(Protocol(over)) else Got(n.value, rest);
    }

    method ReadBulkArg() returns (r: Read<Bytes>)
      modifies this`s
      ensures r == BulkArg(old(s), lim)
      ensures r.Got? ==> s == r.rest
    {
      var n := ReadSize(false, DOLLAR, ExpectedBulk, lim.maxBulk, BulkTooLong);
      if n.Failed? {
        return Failed(n.error);
      }
      if |s| < n.value + 2 {
        return Failed(Ending(lim, false));
      }
      if s[n.value..n.value + 2] != CRLF {
        return Failed(Protocol(MissingCRLF));
      }
      var b := s[..n.value];
      s := s[n.value + 2..];
      r := Got(b, s);
    }

    method ReadArgs(n: nat) returns (r: Read<Args>)
      modifies this`s
      ensures r == BulkArgs(old(s), lim, n)
      ensures r.Got? ==> s == r.rest
    {
      hide *;
      var args: Args := [];
      PrependNone(BulkArgs(s, lim, n));
      while |args| < n
        invariant |args| <= n
        invariant BulkArgs(old(s), lim, n) == Prepend(args, BulkArgs(s, lim, n - |args|))
        decreases n - |args|
      {
        PrependNext(args, s, lim, n - |args|);
        var a := ReadBulkArg();
        if a.Failed? {
          return Failed(a.error);
        }
        args := args + [a.value];
      }
      PrependLast(args, s, lim);
      r := Got(args, s);
    }

    /** Read one command and leave the stream just after it. */
    method ReadCommand() returns (r: Read<Args>)
      modifies this`s
      ensures r == Command(old(s), lim)
      ensures r.Got? ==> s == r.rest
    {
      hide Size;
      hide BulkArgs;
      var n := ReadSize(true, STAR, ExpectedArray, lim.maxMultibulk, MultibulkTooLong);
      if n.Failed? {
        return Failed(n.error);
      }
      r := ReadArgs(n.value);
    }
  }

  /** The arguments already read, in front of what is still to come. */
  function Prepend(args: Args, r: Read<Args>): Read<Args>
  {
    match r
    case Failed(e) => Failed(e)
    case Got(more, rest) => Got(args + more, rest)
  }

  lemma PrependNone(r: Read<Args>)
    ensures Prepend([], r) == r
  {
    if r.Got? {
      assert [] + r.value == r.value;
    }
  }

  lemma PrependNext(args: Args, s: Bytes, lim: Limits, n: nat)
    requires n > 0
    ensures Prepend(args, BulkArgs(s, lim, n)) == match BulkArg(s, lim)
      case Failed(e) => Failed(e)
      case Got(a, rest) => Prepend(args + [a], BulkArgs(rest, lim, n - 1))
  {
    hide BulkArg;
    if BulkArg(s, lim).Got? {
      var a, more := BulkArg(s, lim).value, BulkArgs(BulkArg(s, lim).rest, lim, n - 1);
      if more.Got? {
        assert args + [a] + more.value == args + ([a] + more.value);
      }
    }
  }

  lemma PrependLast(args: Args, s: Bytes, lim: Limits)
    ensures Prepend(args, BulkArgs(s, lim, 0)) == Got(args, s)
  {
    assert args + [] == args;
  }

  /** What a sink with room for `room` bytes has taken of `b`. */
  function Cut(b: Bytes, room: nat): (c: Bytes)
    ensures |c| <= room && c <= b && (|b| <= room ==> c == b)
  {
    if |b| <= room then b else b[..room]
  }

  /** More bytes change nothing once the room is used up. */
  lemma CutFull(a: Bytes, b: Bytes, room: nat)
    requires |a| > room
    ensures Cut(a + b, room) == Cut(a, room)
  {
    assert (a + b)[..room] == a[..room];
  }

  /** The size of the buffer that the standard library gives a writer. */
  const WRITE_BUFFER: nat := 4096

  /** Encodes replies through a buffer into a sink that fails for good after `room` bytes.  `all` is
      what has been written so far.  The first error sticks: nothing reaches the sink after it. */
  class Writer {
    var sink: Bytes
    var buf: Bytes
    var err: bool
    ghost var all: Bytes
    const room: nat
    const size: nat

    /** Nothing is lost, doubled or out of order: sink and buffer together hold all that was written,
        or the sink has failed and holds as much of it as it could take. */
    ghost predicate Valid()
      reads this
    {
      && size > 0
      && (if err then |all| > room && sink == Cut(all, room)
          else sink + buf == all && |sink| <= room && |buf| <= size)
    }

    constructor (room: nat, size: nat)
      requires size > 0
      ensures Valid() && sink == buf == all == [] && !err && this.room == room && this.size == size
    {
      sink, buf, err, all, this.room, this.size := [], [], false, [], room, size;
    }

    /** Hand `p` to the sink, which takes what it has room for. */
    method Send(p: Bytes)
      requires !err && |sink| <= room
      modifies this`sink, this`err
      ensures sink == Cut(old(sink) + p, room) && err == (|old(sink)| + |p| > room) && old(sink) <= sink
    {
      err := |sink| + |p| > room;
      sink := Cut(sink + p, room);
    }

    /** Empty the buffer into the sink. */
    method FlushBuffer()
      requires !err && |sink| <= room
      modifies this`sink, this`buf, this`err
      ensures sink == Cut(old(sink + buf), room) && err == (|old(sink + buf)| > room)
      ensures old(sink) <= sink && (!err ==> buf == [])
    {
      if buf == [] {
        return;
      }
      var before := |sink|;
      Send(buf);
      buf := buf[|sink| - before..];
    }

    /** As `Valid`, with `rest` still to be written. */
    ghost predicate Carries(rest: Bytes)
      reads this
    {
      && size > 0
      && (if err then |all| > room && sink == Cut(all, room)
          else sink + buf + rest == all && |sink| <= room && |buf| <= size)
    }

    /** Write some of a `rest` that does not fit: fill the buffer and flush it.  With `direct`, a rest
        that finds the buffer empty goes straight to the sink. */
    method Spill(rest: Bytes, direct: bool) returns (left: Bytes)
      requires Carries(rest) && !err && |rest| > size - |buf|
      modifies this`sink, this`buf, this`err
      ensures Carries(left) && old(sink) <= sink
      ensures !err ==> |left| < |rest| || (|left| == |rest| && |buf| < |old(buf)|)
    {
      hide Cut;
      if buf == [] && direct {
        assert sink + rest == all;
        Send(rest);
        left := [];
      } else {
        var n := size - |buf|;
        left := rest[n..];
        var full := buf + rest[..n];
        assert sink + full + left == all;
        buf := full;
        FlushBuffer();
        if err {
          CutFull(old(sink) + full, left, room);
        }
      }
    }

    /** Write `b`: spill until the rest fits into the buffer. */
    method Write(b: Bytes, direct: bool)
      requires Valid()
      modifies this`sink, this`buf, this`err, this`all
      ensures Valid() && all == old(all) + b && old(sink) <= sink
      ensures old(err) ==> err && sink == old(sink)
    {
      hide Cut;
      all := all + b;
      if err {
        CutFull(old(all), b, room);
        return;
      }
      var rest := b;
      while |rest| > size - |buf| && !err
        invariant Carries(rest) && all == old(all) + b && old(sink) <= sink
        decreases !err, |rest|, |buf|
      {
        rest := Spill(rest, direct);
      }
      if !err {
        assert sink + (buf + rest) == sink + buf + rest;
        buf := buf + rest;
      }
    }

    /** Push what is buffered to the sink, and report the first error there was. */
    method Flush() returns (failed: bool)
      requires Valid()
      modifies this`sink, this`buf, this`err
      ensures Valid() && sink == Cut(all, room) && failed == err == (|all| > room)
      ensures old(sink) <= sink && (old(err) ==> sink == old(sink))
    {
      if err {
        return true;
      }
      FlushBuffer();
      failed := err;
    }

    method WriteHeader(mark: Byte, n: nat)
      requires Valid()
      modifies this`sink, this`buf, this`err, this`all
      ensures Valid() && all == old(all) + Header(mark, n) && old(sink) <= sink
      ensures old(err) ==> err && sink == old(sink)
    {
      hide *;
      ghost var was := all;
      Write([mark], false);
      Write(Decimal(n), true);
      Write(CRLF, false);
      HeaderParts(was, mark, n);
    }

    method WriteArrayHeader(n: nat)
      requires Valid()
      modifies this`sink, this`buf, this`err, this`all
      ensures Valid() && all == old(all) + Header(STAR, n) && old(sink) <= sink
      ensures old(err) ==> err && sink == old(sink)
    {
      WriteHeader(STAR, n);
    }

    method WriteBulk(b: Bytes)
      requires Valid()
      modifies this`sink, this`buf, this`err, this`all
      ensures Valid() && all == old(all) + EncodeBulk(b) && old(sink) <= sink
      ensures old(err) ==> err && sink == old(sink)
    {
      hide *;
      ghost var was := all;
      WriteHeader(DOLLAR, |b|);
      Write(b, true);
      Write(CRLF, false);
      BulkParts(was, b);
    }

    method WriteCommand(args: Args)
      requires Valid()
      modifies this`sink, this`buf, this`err, this`all
      ensures Valid() && all == old(all) + Encode(args) && old(sink) <= sink
      ensures old(err) ==> err && sink == old(sink)
    {
      hide *;
      ghost var was := all;
      WriteArrayHeader(|args|);
      var i := 0;
      EncodeEnds(was, args);
      while i < |args|
        invariant 0 <= i <= |args| && Valid() && old(sink) <= sink && (old(err) ==> err && sink == old(sink))
        invariant all == was + Header(STAR, |args|) + EncodeBulks(args[..i])
      {
        EncodeLast(args, i);
        Append(was + Header(STAR, |args|), EncodeBulks(args[..i]), EncodeBulk(args[i]));
        WriteBulk(args[i]);
        i := i + 1;
      }
    }
  }

  lemma HeaderParts(was: Bytes, mark: Byte, n: nat)
    ensures was + [mark] + Decimal(n) + CRLF == was + Header(mark, n)
  {
  }

  lemma BulkParts(was: Bytes, b: Bytes)
    ensures was + Header(DOLLAR, |b|) + b + CRLF == was + EncodeBulk(b)
  {
    hide Header;
  }

  lemma EncodeEnds(was: Bytes, args: Args)
    ensures was + Header(STAR, |args|) + EncodeBulks(args[..0]) == was + Header(STAR, |args|)
    ensures was + Header(STAR, |args|) + EncodeBulks(args[..|args|]) == was + Encode(args)
  {
    hide Header;
    assert args[..|args|] == args;
    assert args[..0] == [];
  }

  lemma Append(a: Bytes, b: Bytes, c: Bytes)
    ensures a + b + c == a + (b + c)
  {
  }

  lemma {:induction false} EncodeLast(args: Args, i: nat)
    requires i < |args|
    ensures EncodeBulks(args[..i + 1]) == EncodeBulks(args[..i]) + EncodeBulk(args[i])
  {
    hide EncodeBulk;
    var x, y := args[..i + 1], args[..i];
    if i == 0 {
      assert x[1..] == [];
      assert EncodeBulk(args[0]) + [] == EncodeBulk(args[0]);
    } else {
      assert x[1..] == args[1..][..i] && y[1..] == args[1..][..i - 1] && x[0] == y[0] == args[0];
      EncodeLast(args[1..], i - 1);
    }
  }

  function EncodeAll(cmds: seq<Args>): Bytes
  {
    if cmds == [] then [] else Encode(cmds[0]) + EncodeAll(cmds[1..])
  }

  lemma {:induction false} EncodeAllLast(cmds: seq<Args>, i: nat)
    requires i < |cmds|
    ensures EncodeAll(cmds[..i + 1]) == EncodeAll(cmds[..i]) + Encode(cmds[i])
  {
    hide Encode;
    var x, y := cmds[..i + 1], cmds[..i];
    if i == 0 {
      assert x[1..] == [];
      assert Encode(cmds[0]) + [] == Encode(cmds[0]);
    } else {
      assert x[1..] == cmds[1..][..i] && y[1..] == cmds[1..][..i - 1] && x[0] == y[0] == cmds[0];
      EncodeAllLast(cmds[1..], i - 1);
    }
  }

  lemma EncodeAllNext(cmds: seq<Args>, i: nat)
    requires i < |cmds|
    ensures EncodeAll(cmds[i..]) == Encode(cmds[i]) + EncodeAll(cmds[i + 1..])
  {
    hide Encode;
    assert cmds[i..][1..] == cmds[i + 1..];
  }

  /** Where a prefix of `e + rest` ends: inside `e`, or in the rest. */
  lemma StreamSplits(p: Bytes, e: Bytes, rest: Bytes)
    requires p <= e + rest
    ensures |p| < |e| ==> p == e[..|p|]
    ensures |p| >= |e| ==> p == e + p[|e|..] && p[|e|..] <= rest
  {
    var s := e + rest;
    if |p| < |e| {
      assert forall i :: 0 <= i < |p| ==> p[i] == s[i] == e[i];
    } else {
      assert forall i :: 0 <= i < |e| ==> p[i] == s[i] == e[i];
      assert p == e + p[|e|..];
      assert forall i :: 0 <= i < |p| - |e| ==> p[|e|..][i] == s[i + |e|] == rest[i];
    }
  }

  /** Write commands to a sink that may fail at any point, and flush: the sink has got as much of the
      stream as it could take, and the flush reports whether that is less than all of it. */
  method WriteAll(cmds: seq<Args>, room: nat) returns (out: Bytes, failed: bool)
    ensures out == Cut(EncodeAll(cmds), room) && failed == (|EncodeAll(cmds)| > room)
  {
    var w := new Writer(room, WRITE_BUFFER);
    var i := 0;
    assert cmds[..0] == [];
    while i < |cmds|
      invariant 0 <= i <= |cmds| && fresh(w) && w.Valid() && w.room == room && w.all == EncodeAll(cmds[..i])
    {
      hide *;
      EncodeAllLast(cmds, i);
      w.WriteCommand(cmds[i]);
      i := i + 1;
    }
    assert cmds[..i] == cmds;
    failed := w.Flush();
    out := w.sink;
  }

  /** The commands of a cut stream: the `j` complete ones, and the end it is read as. */
  ghost predicate ReadBack(cmds: seq<Args>, s: Bytes, lim: Limits, back: seq<Args>, last: Read<Args>)
  {
    var j := |back|;
    && j <= |cmds| && back == cmds[..j] && EncodeAll(back) <= s
    && (j < |cmds| ==> |s| - |EncodeAll(back)| < |Encode(cmds[j])|)
    && last == Failed(if lim.broken then Transport else if s == EncodeAll(back) then CleanEOF else UnexpectedEOF)
  }

  /** Write any commands within the limits to a sink that may fail at any point, then read what
      arrived: every complete command, in order, and then the end of the stream, clean exactly when it
      falls between commands. */
  method WriteThenRead(cmds: seq<Args>, room: nat, lim: Limits) returns (back: seq<Args>, last: Read<Args>)
    requires forall i :: 0 <= i < |cmds| ==> Within(cmds[i], lim)
    requires lim.buffer > 0
    ensures ReadBack(cmds, Cut(EncodeAll(cmds), room), lim, back, last)
  {
    var s, failed := WriteAll(cmds, room);
    back, last := ReadAll(cmds, s, lim);
  }

  lemma EmptyCommand(lim: Limits)
    requires lim.buffer > 0
    ensures Command([], lim) == Failed(Ending(lim, true))
  {
  }

  /** One command off a prefix of the stream of the commands from `i` on. */
  lemma NextCommand(cmds: seq<Args>, i: nat, p: Bytes, lim: Limits)
    requires i <= |cmds| && p <= EncodeAll(cmds[i..]) && lim.buffer > 0 && (i < |cmds| ==> Within(cmds[i], lim))
    ensures var r := Command(p, lim);
      if i < |cmds| && |Encode(cmds[i])| <= |p| then
        r == Got(cmds[i], p[|Encode(cmds[i])|..]) && p == Encode(cmds[i]) + r.rest && r.rest <= EncodeAll(cmds[i + 1..])
      else r == Failed(Ending(lim, p == []))
  {
    hide Command;
    hide Within;
    hide Encode;
    EmptyCommand(lim);
    if i == |cmds| {
      assert cmds[i..] == [];
    } else {
      var e := Encode(cmds[i]);
      EncodeAllNext(cmds, i);
      StreamSplits(p, e, EncodeAll(cmds[i + 1..]));
      if |p| < |e| {
        TruncatedCommand(cmds[i], |p|, lim);
      } else {
        RoundTripIff(cmds[i], p[|e|..], lim);
      }
    }
  }

  /** `back` has been read off `s`, and `p` is left. */
  ghost predicate ReadingAt(cmds: seq<Args>, s: Bytes, back: seq<Args>, p: Bytes)
  {
    |back| <= |cmds| && back == cmds[..|back|] && s == EncodeAll(back) + p && p <= EncodeAll(cmds[|back|..])
  }

  lemma ReadingStarts(cmds: seq<Args>, s: Bytes)
    requires s <= EncodeAll(cmds)
    ensures ReadingAt(cmds, s, [], s)
  {
    assert cmds[0..] == cmds;
    assert [] + s == s;
  }

  lemma ReadingNext(cmds: seq<Args>, s: Bytes, back: seq<Args>, p: Bytes, lim: Limits)
    requires ReadingAt(cmds, s, back, p) && lim.buffer > 0 && (|back| < |cmds| ==> Within(cmds[|back|], lim))
    ensures var r := Command(p, lim);
      if r.Got? then |back| < |cmds| && ReadingAt(cmds, s, back + [r.value], r.rest)
      else ReadBack(cmds, s, lim, back, r)
  {
    hide Encode;
    hide Command;
    hide Within;
    hide EncodeAll;
    NextCommand(cmds, |back|, p, lim);
    var r := Command(p, lim);
    if r.Got? {
      EncodeAllLast(cmds, |back|);
      Append(EncodeAll(back), Encode(cmds[|back|]), r.rest);
      assert cmds[..|back| + 1] == back + [r.value];
    }
  }

  method ReadAll(cmds: seq<Args>, s: Bytes, lim: Limits) returns (back: seq<Args>, last: Read<Args>)
    requires forall i :: 0 <= i < |cmds| ==> Within(cmds[i], lim)
    requires lim.buffer > 0 && s <= EncodeAll(cmds)
    ensures ReadBack(cmds, s, lim, back, last)
  {
    hide *;
    var r := new Reader(s, lim);
    back := [];
    ReadingStarts(cmds, s);
    while true
      invariant fresh(r) && r.lim == lim && |back| <= |cmds| && ReadingAt(cmds, s, back, r.s)
      decreases |cmds| - |back|
    {
      ReadingNext(cmds, s, back, r.s, lim);
      last := r.ReadCommand();
      if last.Failed? {
        return;
      }
      back := back + [last.value];
    }
  }
}
