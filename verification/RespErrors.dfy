/** Which error the blocking reader reports: for every stream, by whether more bytes could still
    mend it, and for every header line and payload, by its bytes. */
module RespErrors {
  import opened Options
  import opened RespNumbers
  import opened RespCodec

  // ---- More bytes do not change a value or a protocol error ----

  /** What a result becomes when `t` follows the stream. */
  ghost predicate Settled<T>(r: Read<T>, more: Read<T>, t: Bytes)
  {
    && (r.Got? ==> more == Got(r.value, r.rest + t))
    && (r.Failed? && r.error.Protocol? ==> more == r)
  }

  lemma HeaderLineSettled(s: Bytes, t: Bytes, lim: Limits, first: bool)
    ensures Settled(HeaderLine(s, lim, first), HeaderLine(s + t, lim, first), t)
  {
    var i := FirstLF(s);
    if i < |s| {
      FirstLFIs(s + t, i);
      if i > 0 {
        assert (s + t)[..i - 1] == s[..i - 1];
      }
      assert (s + t)[i + 1..] == s[i + 1..] + t;
    } else {
      assert forall k :: 0 <= k < |s| ==> (s + t)[k] == s[k];
    }
  }

  lemma SizeSettled(s: Bytes, t: Bytes, lim: Limits, first: bool, mark: Byte, wrong: Kind, max: nat, over: Kind)
    ensures Settled(Size(s, lim, first, mark, wrong, max, over), Size(s + t, lim, first, mark, wrong, max, over), t)
  {
    HeaderLineSettled(s, t, lim, first);
    hide HeaderLine;
    hide ParsedInt;
  }

  lemma BulkSettled(s: Bytes, t: Bytes, lim: Limits)
    ensures Settled(BulkArg(s, lim), BulkArg(s + t, lim), t)
  {
    SizeSettled(s, t, lim, false, DOLLAR, ExpectedBulk, lim.maxBulk, BulkTooLong);
    var h := Size(s, lim, false, DOLLAR, ExpectedBulk, lim.maxBulk, BulkTooLong);
    hide Size;
    if h.Got? && |h.rest| >= h.value + 2 {
      SliceSettled(h.rest, t, h.value);
    }
  }

  lemma SliceSettled(rest: Bytes, t: Bytes, n: nat)
    requires n + 2 <= |rest|
    ensures (rest + t)[n..n + 2] == rest[n..n + 2] && (rest + t)[..n] == rest[..n]
    ensures (rest + t)[n + 2..] == rest[n + 2..] + t
  {
  }

  lemma {:induction false} BulksSettled(s: Bytes, t: Bytes, lim: Limits, n: nat)
    ensures Settled(BulkArgs(s, lim, n), BulkArgs(s + t, lim, n), t)
    decreases n
  {
    hide BulkArg;
    if n > 0 {
      BulkSettled(s, t, lim);
      var a := BulkArg(s, lim);
      if a.Got? {
        BulksSettled(a.rest, t, lim, n - 1);
      }
    }
  }

  lemma CommandSettled(s: Bytes, t: Bytes, lim: Limits)
    ensures Settled(Command(s, lim), Command(s + t, lim), t)
  {
    SizeSettled(s, t, lim, true, STAR, ExpectedArray, lim.maxMultibulk, MultibulkTooLong);
    var h := Size(s, lim, true, STAR, ExpectedArray, lim.maxMultibulk, MultibulkTooLong);
    hide Size;
    hide BulkArgs;
    if h.Got? {
      BulksSettled(h.rest, t, lim, h.value);
    }
  }

  // ---- They can change an end of the stream ----

  /** So many bytes, none a line feed, that no header line or payload is left open. */
  function Padding(lim: Limits): (p: Bytes)
    ensures |p| == lim.buffer + lim.maxBulk + 2 && forall i :: 0 <= i < |p| ==> p[i] == 65
  {
    seq(lim.buffer + lim.maxBulk + 2, _ => 65)
  }

  /** An end of the stream, reported as one, that padding turns into a protocol error. */
  ghost predicate Mended<T>(r: Read<T>, more: Read<T>, lim: Limits, clean: bool)
  {
    r.Failed? && !r.error.Protocol? ==>
      && more.Failed? && more.error.Protocol?
      && r.error == if lim.broken then Transport else if clean then CleanEOF else UnexpectedEOF
  }

  lemma SizeMended(s: Bytes, lim: Limits, first: bool, mark: Byte, wrong: Kind, max: nat, over: Kind)
    ensures Mended(Size(s, lim, first, mark, wrong, max, over),
                   Size(s + Padding(lim), lim, first, mark, wrong, max, over), lim, first && s == [])
  {
    var p := Padding(lim);
    if FirstLF(s) == |s| {
      FirstLFIs(s + p, |s + p|);
    }
    hide ParsedInt;
  }

  lemma BulkMended(s: Bytes, lim: Limits)
    ensures Mended(BulkArg(s, lim), BulkArg(s + Padding(lim), lim), lim, false)
  {
    var p := Padding(lim);
    SizeMended(s, lim, false, DOLLAR, ExpectedBulk, lim.maxBulk, BulkTooLong);
    SizeSettled(s, p, lim, false, DOLLAR, ExpectedBulk, lim.maxBulk, BulkTooLong);
    var h := Size(s, lim, false, DOLLAR, ExpectedBulk, lim.maxBulk, BulkTooLong);
    SizeBounded(s, lim);
    hide Size;
    if h.Got? && |h.rest| < h.value + 2 {
      var n, all := h.value, h.rest + p;
      assert all[n..n + 2][1] == all[n + 1] == 65;
    }
  }

  lemma SizeBounded(s: Bytes, lim: Limits)
    ensures var h := Size(s, lim, false, DOLLAR, ExpectedBulk, lim.maxBulk, BulkTooLong);
      h.Got? ==> h.value <= lim.maxBulk
  {
  }

  lemma {:induction false} BulksMended(s: Bytes, lim: Limits, n: nat)
    ensures Mended(BulkArgs(s, lim, n), BulkArgs(s + Padding(lim), lim, n), lim, false)
    decreases n
  {
    hide BulkArg;
    hide Padding;
    if n > 0 {
      BulkMended(s, lim);
      BulkSettled(s, Padding(lim), lim);
      var a := BulkArg(s, lim);
      if a.Got? {
        BulksMended(a.rest, lim, n - 1);
      }
    }
  }

  lemma CommandMended(s: Bytes, lim: Limits)
    ensures Mended(Command(s, lim), Command(s + Padding(lim), lim), lim, s == [])
  {
    var p := Padding(lim);
    SizeMended(s, lim, true, STAR, ExpectedArray, lim.maxMultibulk, MultibulkTooLong);
    SizeSettled(s, p, lim, true, STAR, ExpectedArray, lim.maxMultibulk, MultibulkTooLong);
    var h := Size(s, lim, true, STAR, ExpectedArray, lim.maxMultibulk, MultibulkTooLong);
    hide Size;
    hide BulkArgs;
    if h.Got? {
      BulksMended(h.rest, lim, h.value);
    }
  }

  /** For every stream that is refused: the error is a protocol error if and only if no bytes that
      could follow would change it.  Otherwise it is the transport's own, or the end of the file, which
      is clean just when nothing was read. */
  lemma ErrorsExactly(s: Bytes, lim: Limits)
    ensures var r := Command(s, lim);
      r.Failed? ==>
        && (r.error.Protocol? <==> forall t :: Command(s + t, lim) == r)
        && (!r.error.Protocol? ==>
            r.error == if lim.broken then Transport else if s == [] then CleanEOF else UnexpectedEOF)
  {
    hide Command;
    CommandMended(s, lim);
    forall t
      ensures Settled(Command(s, lim), Command(s + t, lim), t)
    {
      CommandSettled(s, t, lim);
    }
  }

  // ---- Which protocol error ----

  /** A header line, up to its line feed, and the error its bytes get. */
  lemma HeaderErrors(line: Bytes, rest: Bytes, lim: Limits, first: bool, mark: Byte, wrong: Kind, max: nat, over: Kind)
    requires LF !in line
    ensures var r, n := Size(line + [LF] + rest, lim, first, mark, wrong, max, over), |line|;
      if n >= lim.buffer || n >= MAX_HEADER_LINE then r == Failed(Protocol(LineTooLong))
      else if n == 0 || line[n - 1] != CR then r == Failed(Protocol(MissingCRLF))
      else if n == 1 || line[0] != mark then r == Failed(Protocol(wrong))
      else
        && (forall k: nat :: k <= MAX_INT && line[1..n - 1] == Decimal(k) ==>
            r == if k > max then Failed(Protocol(over)) else Got(k, rest))
        && ((forall k: nat :: k <= MAX_INT ==> line[1..n - 1] != Decimal(k)) ==> r == Failed(Protocol(BadLength)))
  {
    var n := |line|;
    LineIs(line, rest, lim, first);
    if n > 1 {
      assert line[..n - 1][1..] == line[1..n - 1];
      OnlyDecimals(line[1..n - 1]);
    }
    hide ParsedInt;
    hide Decimal;
    hide HeaderLine;
    hide Size;
    SizeIs(line + [LF] + rest, lim, first, mark, wrong, max, over);
  }

  lemma SizeIs(s: Bytes, lim: Limits, first: bool, mark: Byte, wrong: Kind, max: nat, over: Kind)
    ensures var l, r := HeaderLine(s, lim, first), Size(s, lim, first, mark, wrong, max, over);
      if l.Failed? then r == Failed(l.error)
      else if l.value == [] || l.value[0] != mark then r == Failed(Protocol(wrong))
      else if ParsedInt(l.value[1..]).None? then r == Failed(Protocol(BadLength))
      else r == if ParsedInt(l.value[1..]).value > max then Failed(Protocol(over))
                else Got(ParsedInt(l.value[1..]).value, l.rest)
  {
    hide ParsedInt;
    hide HeaderLine;
  }

  lemma LineIs(line: Bytes, rest: Bytes, lim: Limits, first: bool)
    requires LF !in line
    ensures var n := |line|;
      HeaderLine(line + [LF] + rest, lim, first)
      == if n >= lim.buffer || n >= MAX_HEADER_LINE then Failed(Protocol(LineTooLong))
         else if n == 0 || line[n - 1] != CR then Failed(Protocol(MissingCRLF))
         else Got(line[..n - 1], rest)
  {
    var s, n := line + [LF] + rest, |line|;
    FirstLFIs(s, n);
    hide FirstLF;
    if n > 0 {
      assert s[..n - 1] == line[..n - 1] && s[n + 1..] == rest && s[n - 1] == line[n - 1];
    }
  }

  lemma OnlyDecimals(d: Bytes)
    ensures forall k: nat :: k <= MAX_INT && d == Decimal(k) ==> ParsedInt(d) == Some(k)
    ensures (forall k: nat :: k <= MAX_INT ==> d != Decimal(k)) ==> ParsedInt(d).None?
  {
    forall k: nat
      ensures ParsedInt(d) == Some(k) <==> k <= MAX_INT && d == Decimal(k)
    {
      ParsesExactlyDecimals(d, k);
    }
    hide ParsedInt;
    hide Decimal;
  }

  /** A stream without a line feed: too long for the buffer, or at its end. */
  lemma OpenLineErrors(s: Bytes, lim: Limits, first: bool, mark: Byte, wrong: Kind, max: nat, over: Kind)
    requires LF !in s
    ensures Size(s, lim, first, mark, wrong, max, over) == Failed(
      if |s| >= lim.buffer then Protocol(LineTooLong)
      else if lim.broken then Transport else if first && s == [] then CleanEOF else UnexpectedEOF)
  {
    FirstLFIs(s, |s|);
  }

  /** A payload after its header. */
  lemma PayloadErrors(n: nat, p: Bytes, lim: Limits)
    requires SizeFits(DOLLAR, n, lim.maxBulk, lim)
    ensures BulkArg(Header(DOLLAR, n) + p, lim) ==
      if |p| < n + 2 then Failed(if lim.broken then Transport else UnexpectedEOF)
      else if p[n] != CR || p[n + 1] != LF then Failed(Protocol(MissingCRLF))
      else Got(p[..n], p[n + 2..])
  {
    SizeRoundTrip(DOLLAR, n, p, lim, false, ExpectedBulk, lim.maxBulk, BulkTooLong);
    hide Header;
    hide Size;
    if |p| >= n + 2 {
      assert p[n..n + 2] == [p[n], p[n + 1]];
    }
  }

  /** A command fails as the argument it fails in: after any arguments that were fine, the next one's
      error is the command's. */
  lemma ErrorInArgument(n: nat, args: Args, t: Bytes, lim: Limits)
    requires SizeFits(STAR, n, lim.maxMultibulk, lim) && ArgsFit(args, lim) && |args| < n && BulkArg(t, lim).Failed?
    ensures Command(Header(STAR, n) + EncodeBulks(args) + t, lim) == Failed(BulkArg(t, lim).error)
  {
    hide Size;
    hide Header;
    hide SizeFits;
    hide ArgsFit;
    hide BulkArg;
    hide BulkArgs;
    hide EncodeBulks;
    hide Command;
    var h, s := Header(STAR, n), EncodeBulks(args) + t;
    Append(h, EncodeBulks(args), t);
    SizeRoundTrip(STAR, n, s, lim, true, ExpectedArray, lim.maxMultibulk, MultibulkTooLong);
    ErrorAmongArguments(n, args, t, lim);
    CommandIs(h + s, lim, n, s);
  }

  lemma CommandIs(s: Bytes, lim: Limits, n: nat, rest: Bytes)
    requires Size(s, lim, true, STAR, ExpectedArray, lim.maxMultibulk, MultibulkTooLong) == Got(n, rest)
    ensures Command(s, lim) == BulkArgs(rest, lim, n)
  {
  }

  lemma {:induction false} ErrorAmongArguments(n: nat, args: Args, t: Bytes, lim: Limits)
    requires ArgsFit(args, lim) && |args| < n && BulkArg(t, lim).Failed?
    ensures BulkArgs(EncodeBulks(args) + t, lim, n) == Failed(BulkArg(t, lim).error)
  {
    hide BulkArg;
    hide SizeFits;
    hide EncodeBulk;
    if args == [] {
      assert EncodeBulks(args) + t == t;
    } else {
      var more := EncodeBulks(args[1..]) + t;
      assert EncodeBulks(args) + t == EncodeBulk(args[0]) + more;
      BulkRoundTrip(args[0], more, lim);
      FirstFits(args, lim);
      ErrorAmongArguments(n - 1, args[1..], t, lim);
    }
  }

  /** The bytes of a command on the wire: *1 CRLF $4 CRLF PING CRLF. */
  lemma PingOnTheWire()
    ensures Encode([[80, 73, 78, 71]]) == [42, 49, 13, 10, 36, 52, 13, 10, 80, 73, 78, 71, 13, 10]
  {
    var ping: Args := [[80, 73, 78, 71]];
    assert Decimal(1) == [49] && Decimal(4) == [52];
    assert ping[1..] == [];
  }
}
