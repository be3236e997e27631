/** What the event loop's parser accepts, refuses and waits for, said of the bytes alone, and what a
    malformed frame does to a connection. */
module EventFrames {
  import opened Options
  import opened RespNumbers
  import opened RespCodec
  import opened EventLoop

  // ---- The grammar ----

  /** A header line: the type byte, a signed or unsigned decimal of at most `max`, CRLF. */
  predicate HeaderOf(h: Bytes, mark: Byte, n: nat, max: nat)
  {
    var l := |h|;
    l >= 3 && h[0] == mark && h[l - 2] == CR && h[l - 1] == LF && Atoi(h[1..l - 2]) == Some(n) && n <= max
  }

  /** One argument: its header, its bytes, CRLF. */
  ghost predicate IsBulk(w: Bytes, a: Bytes)
  {
    exists l: nat :: l <= |w| && HeaderOf(w[..l], DOLLAR, |a|, MAX_BULK) && w[l..] == a + CRLF
  }

  ghost predicate AreBulks(w: Bytes, args: Args)
    decreases |args|
  {
    if args == [] then w == []
    else exists u: nat :: u <= |w| && IsBulk(w[..u], args[0]) && AreBulks(w[u..], args[1..])
  }

  /** A frame: the header of an array, and its arguments. */
  ghost predicate IsFrame(w: Bytes, args: Args)
  {
    exists l: nat :: l <= |w| && HeaderOf(w[..l], STAR, |args|, MAX_MULTIBULK) && AreBulks(w[l..], args)
  }

  lemma AtoiBytes(d: Bytes)
    requires Atoi(d).Some?
    ensures CR !in d
  {
    var digits := if d[0] == 43 || d[0] == 45 then d[1..] else d;
    forall i | 0 <= i < |d|
      ensures d[i] != CR
    {
      if digits == d {
        assert IsDigit(digits[i]);
      } else if i > 0 {
        assert digits[i - 1] == d[i];
      }
    }
    hide Value;
  }

  lemma HeadAccepts(t: Bytes, mark: Byte, max: nat, n: nat, l: nat)
    requires mark != CR
    ensures ParseHead(t, mark, max) == HeadGot(n, l) <==> l <= |t| && HeaderOf(t[..l], mark, n, max)
  {
    hide Atoi;
    if l <= |t| && HeaderOf(t[..l], mark, n, max) {
      var h := t[..l];
      assert h[1..l - 2] == t[1..l - 2];
      AtoiBytes(t[1..l - 2]);
      assert forall j :: 1 <= j < l - 2 ==> t[j] == t[1..l - 2][j - 1];
      FirstCRLFIs(t, l - 2);
    }
    if ParseHead(t, mark, max) == HeadGot(n, l) {
      assert t[..l][1..l - 2] == t[1..l - 2];
    }
  }

  lemma BulkAccepts(t: Bytes, a: Bytes, u: nat)
    ensures ParseBulk(t) == OneDone(a, u) <==> u <= |t| && IsBulk(t[..u], a)
  {
    hide ParseHead;
    hide HeaderOf;
    if ParseBulk(t) == OneDone(a, u) {
      var h := ParseHead(t, DOLLAR, MAX_BULK);
      HeadAccepts(t, DOLLAR, MAX_BULK, h.n, h.len);
      CutBoth(t, h.len, u);
      assert t[h.len..][..u - h.len] == t[h.len..h.len + h.n] + t[h.len + h.n..u];
    }
    if u <= |t| && IsBulk(t[..u], a) {
      BulkFound(t, a, u);
    }
  }

  lemma BulkFound(t: Bytes, a: Bytes, u: nat)
    requires u <= |t| && IsBulk(t[..u], a)
    ensures ParseBulk(t) == OneDone(a, u)
  {
    hide ParseHead;
    hide HeaderOf;
    var l: nat :| l <= u && HeaderOf(t[..u][..l], DOLLAR, |a|, MAX_BULK) && t[..u][l..] == a + CRLF;
    assert t[..u][..l] == t[..l];
    HeadAccepts(t, DOLLAR, MAX_BULK, |a|, l);
    PayloadSlices(t, u, l, a);
  }

  lemma PayloadSlices(t: Bytes, u: nat, l: nat, a: Bytes)
    requires l <= u <= |t| && t[..u][l..] == a + CRLF
    ensures u == l + |a| + 2 && t[l..l + |a|] == a && t[l + |a|..l + |a| + 2] == CRLF
  {
    var w := t[..u][l..];
    assert |w| == u - l;
    assert t[l..l + |a|] == w[..|a|] && t[l + |a|..l + |a| + 2] == w[|a|..];
  }

  lemma {:induction false} BulksAccept(t: Bytes, args: Args, u: nat)
    ensures ParseBulks(t, |args|) == Done(args, u) <==> u <= |t| && AreBulks(t[..u], args)
    decreases |args|
  {
    hide ParseBulk;
    hide IsBulk;
    if args != [] {
      if ParseBulks(t, |args|) == Done(args, u) {
        var k := ParseBulk(t).used;
        assert args[0] == ParseBulk(t).arg && args[1..] == ParseBulks(t[k..], |args| - 1).args;
        BulkAccepts(t, args[0], k);
        BulksAccept(t[k..], args[1..], u - k);
        CutBoth(t, k, u);
      }
      if u <= |t| && AreBulks(t[..u], args) {
        var k: nat :| k <= u && IsBulk(t[..u][..k], args[0]) && AreBulks(t[..u][k..], args[1..]);
        CutBoth(t, k, u);
        BulkAccepts(t, args[0], k);
        BulksAccept(t[k..], args[1..], u - k);
        hide AreBulks;
        BulksOneMore(t, args, k, u);
      }
    }
  }

  lemma BulksOneMore(t: Bytes, args: Args, k: nat, u: nat)
    requires args != [] && k <= u && ParseBulk(t) == OneDone(args[0], k)
    requires ParseBulks(t[k..], |args| - 1) == Done(args[1..], u - k)
    ensures ParseBulks(t, |args|) == Done(args, u)
  {
    hide ParseBulk;
    assert [args[0]] + args[1..] == args;
  }

  lemma CutBoth(t: Bytes, k: nat, u: nat)
    requires k <= u <= |t|
    ensures t[..u][..k] == t[..k] && t[..u][k..] == t[k..][..u - k]
  {
  }

  /** The parser accepts exactly the frames of the grammar, at the front of the buffer, with their
      arguments and their length. */
  lemma AcceptsExactly(b: Bytes, args: Args, u: nat)
    ensures Parse(b) == Done(args, u) <==> u <= |b| && IsFrame(b[..u], args)
  {
    hide ParseHead;
    hide HeaderOf;
    hide AreBulks;
    hide ParseBulks;
    if Parse(b) == Done(args, u) {
      var h := ParseHead(b, STAR, MAX_MULTIBULK);
      HeadAccepts(b, STAR, MAX_MULTIBULK, h.n, h.len);
      BulksAccept(b[h.len..], args, u - h.len);
      CutBoth(b, h.len, u);
    }
    if u <= |b| && IsFrame(b[..u], args) {
      var l: nat :| l <= u && HeaderOf(b[..u][..l], STAR, |args|, MAX_MULTIBULK) && AreBulks(b[..u][l..], args);
      CutBoth(b, l, u);
      HeadAccepts(b, STAR, MAX_MULTIBULK, |args|, l);
      BulksAccept(b[l..], args, u - l);
    }
  }

  // ---- Malformed frames ----

  ghost predicate IsHeader(h: Bytes, mark: Byte, max: nat)
  {
    exists n: nat :: HeaderOf(h, mark, n, max)
  }

  /** Where a header is due: another type byte, a complete line that is no count within its maximum, or
      more than the longest line without its end. */
  ghost predicate WrongHeader(t: Bytes, mark: Byte, max: nat)
  {
    t != [] && (
      || t[0] != mark
      || (FirstCRLF(t) < |t| && !IsHeader(t[..FirstCRLF(t) + 2], mark, max))
      || (FirstCRLF(t) == |t| && |t| > MAX_HEADER_LINE))
  }

  /** Where an argument is due: a wrong header, or a payload that no CRLF follows. */
  ghost predicate WrongBulk(t: Bytes)
  {
    || WrongHeader(t, DOLLAR, MAX_BULK)
    || (exists l: nat, n: nat :: UnendedPayload(t, l, n))
  }

  predicate UnendedPayload(t: Bytes, l: nat, n: nat)
  {
    l + n + 2 <= |t| && HeaderOf(t[..l], DOLLAR, n, MAX_BULK) && (t[l + n] != CR || t[l + n + 1] != LF)
  }

  /** One of `c` arguments is wrong, after others that are not. */
  ghost predicate WrongBulks(t: Bytes, c: nat)
  {
    exists args: Args, u: nat :: |args| < c && WrongAfter(t, args, u)
  }

  ghost predicate WrongAfter(t: Bytes, args: Args, u: nat)
  {
    u <= |t| && AreBulks(t[..u], args) && WrongBulk(t[u..])
  }

  ghost predicate WrongFrame(b: Bytes)
  {
    || WrongHeader(b, STAR, MAX_MULTIBULK)
    || (exists l: nat, c: nat :: l <= |b| && HeaderOf(b[..l], STAR, c, MAX_MULTIBULK) && WrongBulks(b[l..], c))
  }

  lemma HeadRefuses(t: Bytes, mark: Byte, max: nat)
    requires mark != CR
    ensures ParseHead(t, mark, max).HeadBad? <==> WrongHeader(t, mark, max)
  {
    var nl := FirstCRLF(t);
    hide Atoi;
    if t != [] && t[0] == mark && nl < |t| {
      assert t[..nl + 2][1..nl] == t[1..nl];
      if ParseHead(t, mark, max).HeadGot? {
        assert HeaderOf(t[..nl + 2], mark, ParseHead(t, mark, max).n, max);
      }
    }
  }

  lemma BulkRefuses(t: Bytes)
    ensures ParseBulk(t).OneBad? <==> WrongBulk(t)
  {
    HeadRefuses(t, DOLLAR, MAX_BULK);
    hide WrongHeader;
    hide ParseHead;
    hide HeaderOf;
    var h := ParseHead(t, DOLLAR, MAX_BULK);
    if h.HeadGot? && |t| >= h.len + h.n + 2 {
      HeadAccepts(t, DOLLAR, MAX_BULK, h.n, h.len);
      EndsWithCRLF(t, h.len + h.n);
      if ParseBulk(t).OneBad? {
        assert UnendedPayload(t, h.len, h.n);
      }
    }
    if l: nat, n: nat :| UnendedPayload(t, l, n) {
      UnendedRefused(t, l, n);
    }
  }

  lemma UnendedRefused(t: Bytes, l: nat, n: nat)
    requires UnendedPayload(t, l, n)
    ensures ParseBulk(t).OneBad?
  {
    hide ParseHead;
    hide HeaderOf;
    HeadAccepts(t, DOLLAR, MAX_BULK, n, l);
    EndsWithCRLF(t, l + n);
  }

  lemma {:induction false} RefusedAfter(t: Bytes, c: nat) returns (args: Args, u: nat)
    requires ParseBulks(t, c).Bad?
    ensures |args| < c && WrongAfter(t, args, u)
    decreases c
  {
    hide ParseBulk;
    hide WrongBulk;
    hide IsBulk;
    if ParseBulk(t).OneBad? {
      args, u := [], 0;
      BulkRefuses(t);
      assert t[..0] == [] && t[0..] == t;
    } else {
      var k, a := ParseBulk(t).used, ParseBulk(t).arg;
      var more, v := RefusedAfter(t[k..], c - 1);
      args, u := [a] + more, k + v;
      BulkAccepts(t, a, k);
      CutBoth(t, k, u);
      assert args[1..] == more;
      assert t[k..][v..] == t[u..];
    }
  }

  lemma {:induction false} AfterRefused(t: Bytes, c: nat, args: Args, u: nat)
    requires |args| < c && WrongAfter(t, args, u)
    ensures ParseBulks(t, c).Bad?
    decreases c
  {
    hide ParseBulk;
    hide WrongBulk;
    hide IsBulk;
    if args == [] {
      assert u == |t[..u]| == 0;
      assert t[0..] == t;
      BulkRefuses(t);
    } else {
      var k: nat :| k <= u && IsBulk(t[..u][..k], args[0]) && AreBulks(t[..u][k..], args[1..]);
      CutBoth(t, k, u);
      BulkAccepts(t, args[0], k);
      assert t[k..][u - k..] == t[u..];
      AfterRefused(t[k..], c - 1, args[1..], u - k);
    }
  }

  /** The parser refuses a buffer if and only if its first frame goes wrong: a wrong byte where a header
      is due, a line that is no count, a line without end, or a payload that CRLF does not follow. */
  lemma RefusesExactly(b: Bytes)
    ensures Parse(b).Bad? <==> WrongFrame(b)
  {
    HeadRefuses(b, STAR, MAX_MULTIBULK);
    hide WrongHeader;
    hide ParseHead;
    hide HeaderOf;
    hide ParseBulks;
    hide WrongAfter;
    var h := ParseHead(b, STAR, MAX_MULTIBULK);
    if Parse(b).Bad? && h.HeadGot? {
      HeadAccepts(b, STAR, MAX_MULTIBULK, h.n, h.len);
      var args, u := RefusedAfter(b[h.len..], h.n);
      assert WrongBulks(b[h.len..], h.n);
    }
    if l: nat, c: nat :| l <= |b| && HeaderOf(b[..l], STAR, c, MAX_MULTIBULK) && WrongBulks(b[l..], c) {
      HeadAccepts(b, STAR, MAX_MULTIBULK, c, l);
      var args: Args, u: nat :| |args| < c && WrongAfter(b[l..], args, u);
      AfterRefused(b[l..], c, args, u);
    }
  }

  // ---- Awaited frames ----

  predicate InRange(d: Bytes, max: nat)
  {
    Atoi(d).Some? && 0 <= Atoi(d).value <= max
  }

  /** The start of a count within `max`: nothing or a sign yet, a count, or one with its CR. */
  predicate CountStart(d: Bytes, max: nat)
  {
    || d == [] || d == [43] || d == [45]
    || InRange(d, max)
    || (d[|d| - 1] == CR && InRange(d[..|d| - 1], max))
  }

  predicate HopefulHeader(t: Bytes, max: nat)
  {
    t == [] || CountStart(t[1..], max)
  }

  /** An unfinished argument: its header can still become one, or its payload is awaited and does not
      already lack its CR. */
  predicate HopefulBulk(t: Bytes)
  {
    if FirstCRLF(t) == |t| then HopefulHeader(t, MAX_BULK)
    else
      var h := ParseHead(t, DOLLAR, MAX_BULK);
      h.HeadGot? ==> |t| == h.len + h.n + 1 ==> t[h.len + h.n] == CR
  }

  predicate HopefulBulks(t: Bytes, c: nat)
  {
    c > 0 ==> if ParseBulk(t).OneDone? then HopefulBulks(t[ParseBulk(t).used..], c - 1) else HopefulBulk(t)
  }

  predicate Hopeful(b: Bytes)
  {
    if FirstCRLF(b) == |b| then HopefulHeader(b, MAX_MULTIBULK)
    else
      var h := ParseHead(b, STAR, MAX_MULTIBULK);
      h.HeadGot? ==> HopefulBulks(b[h.len..], h.n)
  }

  lemma AtoiIs(sign: Bytes, digits: Bytes)
    requires AllDigits(digits) && digits != [] && (sign == [] || sign == [43] || sign == [45])
    ensures var v := if sign == [45] then 0 - Value(digits) else Value(digits);
      Atoi(sign + digits) == if -(MAX_INT + 1) <= v <= MAX_INT then Some(v) else None
  {
    hide Value;
    if sign == [] {
      assert sign + digits == digits && IsDigit(digits[0]);
    } else {
      assert (sign + digits)[1..] == digits;
    }
  }

  lemma DigitsPrefix(digits: Bytes, sign: Bytes, max: nat, j: nat)
    requires AllDigits(digits) && 0 < j <= |digits| && (sign == [] || sign == [43] || sign == [45])
    requires InRange(sign + digits, max)
    ensures InRange(sign + digits[..j], max)
  {
    AtoiIs(sign, digits);
    AtoiIs(sign, digits[..j]);
    ValueGrows(digits, j);
    hide Value;
    hide Atoi;
  }

  lemma Signed(d: Bytes) returns (sign: Bytes, digits: Bytes)
    requires Atoi(d).Some?
    ensures d == sign + digits && AllDigits(digits) && digits != [] && (sign == [] || sign == [43] || sign == [45])
  {
    hide Value;
    if d[0] == 43 || d[0] == 45 {
      sign, digits := [d[0]], d[1..];
    } else {
      sign, digits := [], d;
    }
  }

  /** The start of a count stays one: digits only add to it. */
  lemma CountPrefix(d: Bytes, max: nat, k: nat)
    requires InRange(d, max) && k <= |d|
    ensures CountStart(d[..k], max)
  {
    var sign, digits := Signed(d);
    hide Atoi;
    var j := k - |sign|;
    if j > 0 {
      DigitsPrefix(digits, sign, max, j);
      assert d[..k] == sign + digits[..j];
    } else if j == 0 {
      assert (sign + digits)[..k] == sign;
    }
  }

  lemma HeaderStarts(t: Bytes, m: Bytes, mark: Byte, max: nat)
    requires mark != CR && ParseHead(t, mark, max).HeadNeed? && t != [] && ParseHead(t + m, mark, max).HeadGot?
    ensures CountStart(t[1..], max)
  {
    hide Atoi;
    var s := t + m;
    var nl := FirstCRLF(s);
    var d := s[1..nl];
    if |t| >= nl + 2 {
      FirstCRLFIs(t, nl);
    }
    hide ParseHead;
    hide FirstCRLF;
    if |t| <= nl {
      CountPrefix(d, max, |t| - 1);
      PrefixSlices(t, m, nl);
    } else {
      CRSlices(t, m, nl);
    }
  }

  lemma PrefixSlices(t: Bytes, m: Bytes, nl: nat)
    requires 1 <= |t| <= nl <= |t + m|
    ensures (t + m)[1..nl][..|t| - 1] == t[1..]
  {
  }

  lemma CRSlices(t: Bytes, m: Bytes, nl: nat)
    requires 1 <= nl && |t| == nl + 1 && (t + m)[nl] == CR
    ensures t[1..][|t[1..]| - 1] == CR && t[1..][..|t[1..]| - 1] == (t + m)[1..nl]
  {
  }

  lemma HeaderWhole(h: Bytes, mark: Byte, d: Bytes, max: nat)
    requires mark != CR && h == [mark] + d + CRLF && InRange(d, max)
    ensures ParseHead(h, mark, max) == HeadGot(Atoi(d).value, |h|)
  {
    hide Atoi;
    assert h[1..|h| - 2] == d && h[..|h|] == h;
    HeadAccepts(h, mark, max, Atoi(d).value, |h|);
  }

  /** The bytes that complete a header. */
  lemma HeaderEnds(t: Bytes, mark: Byte, max: nat) returns (m: Bytes)
    requires mark != CR && ParseHead(t, mark, max).HeadNeed? && HopefulHeader(t, max)
    ensures var h := ParseHead(t + m, mark, max); h.HeadGot? && h.len == |t + m|
  {
    ZeroCounts();
    hide Atoi;
    var d: Bytes := if t == [] then [] else t[1..];
    var full: Bytes;
    if t == [] {
      m, full := [mark, ZERO] + CRLF, [ZERO];
      assert t + m == [mark] + full + CRLF;
    } else if d == [] || d == [43] || d == [45] {
      m, full := [ZERO] + CRLF, d + [ZERO];
      assert full == [ZERO] || full == [43, ZERO] || full == [45, ZERO];
      assert t + m == [mark] + full + CRLF;
    } else if InRange(d, max) {
      m, full := CRLF, d;
      assert t + m == [mark] + full + CRLF;
    } else {
      m, full := [LF], d[..|d| - 1];
      assert t + m == [mark] + full + CRLF;
    }
    hide ParseHead;
    HeaderWhole(t + m, mark, full, max);
  }

  lemma ZeroCounts()
    ensures Atoi([ZERO]) == Some(0) && Atoi([43, ZERO]) == Some(0) && Atoi([45, ZERO]) == Some(0)
  {
    assert Value([ZERO]) == 0 by { assert [ZERO][..0] == []; }
    assert [43, ZERO][1..] == [ZERO] && [45, ZERO][1..] == [ZERO];
  }

  lemma BulkStarts(t: Bytes, m: Bytes)
    requires ParseBulk(t).OneNeed? && ParseBulk(t + m).OneDone?
    ensures HopefulBulk(t)
  {
    hide ParseHead;
    if ParseHead(t, DOLLAR, MAX_BULK).HeadNeed? {
      NeedIsOpen(t, DOLLAR, MAX_BULK);
      if t != [] {
        HeaderStarts(t, m, DOLLAR, MAX_BULK);
      }
      hide CountStart;
    } else {
      PayloadStarts(t, m);
    }
  }

  lemma BulkEnds(t: Bytes) returns (m: Bytes)
    requires ParseBulk(t).OneNeed? && HopefulBulk(t)
    ensures ParseBulk(t + m).OneDone?
  {
    hide ParseHead;
    hide CountStart;
    if ParseHead(t, DOLLAR, MAX_BULK).HeadNeed? {
      NeedIsOpen(t, DOLLAR, MAX_BULK);
      var q := HeaderEnds(t, DOLLAR, MAX_BULK);
      var p := PayloadEnds(t + q);
      m := q + p;
      assert t + q + p == t + m;
    } else {
      GotIsLine(t, DOLLAR, MAX_BULK);
      m := PayloadEnds(t);
    }
  }

  lemma NeedIsOpen(t: Bytes, mark: Byte, max: nat)
    requires mark != CR && ParseHead(t, mark, max).HeadNeed?
    ensures FirstCRLF(t) == |t|
  {
  }

  lemma GotIsLine(t: Bytes, mark: Byte, max: nat)
    requires mark != CR && ParseHead(t, mark, max).HeadGot?
    ensures FirstCRLF(t) < |t|
  {
  }

  lemma PayloadStarts(t: Bytes, m: Bytes)
    requires ParseHead(t, DOLLAR, MAX_BULK).HeadGot? && ParseBulk(t).OneNeed? && ParseBulk(t + m).OneDone?
    ensures HopefulBulk(t)
  {
    hide ParseHead;
    var h := ParseHead(t, DOLLAR, MAX_BULK);
    GotIsLine(t, DOLLAR, MAX_BULK);
    assert (t + m)[..h.len] == t[..h.len];
    HeadLocal(t, t + m, DOLLAR, MAX_BULK);
    EndsWithCRLF(t + m, h.len + h.n);
  }

  /** The bytes that complete a payload, unless another byte stands where its CR should. */
  lemma PayloadEnds(t: Bytes) returns (p: Bytes)
    requires ParseHead(t, DOLLAR, MAX_BULK).HeadGot?
    requires var h := ParseHead(t, DOLLAR, MAX_BULK);
      ParseBulk(t).OneNeed? ==> |t| == h.len + h.n + 1 ==> t[h.len + h.n] == CR
    requires !ParseBulk(t).OneBad?
    ensures ParseBulk(t + p).OneDone?
  {
    hide ParseHead;
    var h := ParseHead(t, DOLLAR, MAX_BULK);
    var end := h.len + h.n;
    if ParseBulk(t).OneDone? {
      p := [];
      assert t + p == t;
    } else {
      p := if |t| == end + 1 then [LF] else seq(end - |t|, _ => 0) + CRLF;
      var s := t + p;
      assert s[..h.len] == t[..h.len];
      HeadLocal(t, s, DOLLAR, MAX_BULK);
      assert |s| == end + 2 && s[end] == CR && s[end + 1] == LF;
      EndsWithCRLF(s, end);
    }
  }

  /** Arguments of no bytes. */
  function Empties(c: nat): Bytes
  {
    if c == 0 then [] else Header(DOLLAR, 0) + CRLF + Empties(c - 1)
  }

  lemma {:induction false} EmptiesDone(c: nat)
    ensures ParseBulks(Empties(c), c).Done?
  {
    hide ParseBulk;
    hide ParseBulks;
    hide Header;
    if c == 0 {
      BulksNone([]);
    } else {
      var e := Header(DOLLAR, 0) + CRLF;
      var rest := Empties(c - 1);
      EmptiesDone(c - 1);
      EmptyDone();
      DoneThen(e, rest, c);
    }
  }

  lemma EmptyDone()
    ensures ParseBulk(Header(DOLLAR, 0) + CRLF) == OneDone([], |Header(DOLLAR, 0) + CRLF|)
  {
    var e: Bytes := [DOLLAR, ZERO, CR, LF, CR, LF];
    assert Header(DOLLAR, 0) + CRLF == e;
    ZeroCounts();
    hide Atoi;
    assert e[..4] == [DOLLAR, ZERO, CR, LF];
    assert [DOLLAR, ZERO, CR, LF][1..2] == [ZERO];
    HeadAccepts(e, DOLLAR, MAX_BULK, 0, 4);
    assert e[4..6] == CRLF && e[4..4] == [];
  }

  /** A completed argument reaches past what was there of it, so it can be cut to its end. */
  lemma Trimmed(t: Bytes, m: Bytes) returns (p: Bytes)
    requires ParseBulk(t).OneNeed? && ParseBulk(t + m).OneDone?
    ensures ParseBulk(t + p).OneDone? && ParseBulk(t + p).used == |t + p|
  {
    hide ParseBulk;
    var s, u := t + m, ParseBulk(t + m).used;
    if u <= |t| {
      assert s[..u] == t[..u];
      BulkLocal(s, t);
      assert false;
    }
    p := m[..u - |t|];
    assert t + p == s[..u];
    assert s[..u][..u] == s[..u];
    BulkLocal(s, t + p);
  }

  lemma {:induction false} BulksStart(t: Bytes, m: Bytes, c: nat)
    requires ParseBulks(t, c).Need? && ParseBulks(t + m, c).Done?
    ensures HopefulBulks(t, c)
    decreases c
  {
    hide ParseBulk;
    hide HopefulBulk;
    if ParseBulk(t).OneDone? {
      var u := ParseBulk(t).used;
      assert (t + m)[..u] == t[..u] && (t + m)[u..] == t[u..] + m;
      BulkLocal(t, t + m);
      BulksStart(t[u..], m, c - 1);
    } else {
      BulkStarts(t, m);
    }
  }

  lemma {:induction false} BulksEnd(t: Bytes, c: nat) returns (m: Bytes)
    requires ParseBulks(t, c).Need? && HopefulBulks(t, c)
    ensures ParseBulks(t + m, c).Done?
    decreases c
  {
    hide ParseBulk;
    hide HopefulBulk;
    if ParseBulk(t).OneDone? {
      var u := ParseBulk(t).used;
      m := BulksEnd(t[u..], c - 1);
      assert (t + m)[..u] == t[..u] && (t + m)[u..] == t[u..] + m;
      BulkLocal(t, t + m);
    } else {
      var q := BulkEnds(t);
      var p := Trimmed(t, q);
      m := p + Empties(c - 1);
      EmptiesDone(c - 1);
      DoneThen(t + p, Empties(c - 1), c);
      assert t + p + Empties(c - 1) == t + m;
    }
  }

  lemma DoneThen(t: Bytes, rest: Bytes, c: nat)
    requires c > 0 && ParseBulk(t).OneDone? && ParseBulk(t).used == |t| && ParseBulks(rest, c - 1).Done?
    ensures ParseBulks(t + rest, c).Done?
  {
    hide ParseBulk;
    assert (t + rest)[..|t|] == t[..|t|] && (t + rest)[|t|..] == rest;
    BulkLocal(t, t + rest);
  }

  /** A frame that the parser waits for can be completed by further bytes if and only if its unfinished
      header line, if it breaks off in one, starts a count within the maximum, and its unfinished
      payload, if it breaks off just after one, has its CR.  Otherwise the wait is in vain. */
  lemma AwaitedIff(b: Bytes)
    requires Parse(b).Need?
    ensures (exists m :: Parse(b + m).Done?) <==> Hopeful(b)
  {
    hide ParseHead;
    hide ParseBulks;
    hide HopefulBulks;
    hide HopefulHeader;
    if m :| Parse(b + m).Done? {
      FrameStarts(b, m);
    }
    if Hopeful(b) {
      var m := FrameEnds(b);
    }
  }

  lemma FrameStarts(b: Bytes, m: Bytes)
    requires Parse(b).Need? && Parse(b + m).Done?
    ensures Hopeful(b)
  {
    hide ParseHead;
    hide ParseBulks;
    hide HopefulBulks;
    hide CountStart;
    var h := ParseHead(b, STAR, MAX_MULTIBULK);
    if h.HeadNeed? {
      NeedIsOpen(b, STAR, MAX_MULTIBULK);
      if b != [] {
        HeaderStarts(b, m, STAR, MAX_MULTIBULK);
      }
    } else {
      GotIsLine(b, STAR, MAX_MULTIBULK);
      assert (b + m)[..h.len] == b[..h.len] && (b + m)[h.len..] == b[h.len..] + m;
      HeadLocal(b, b + m, STAR, MAX_MULTIBULK);
      BulksStart(b[h.len..], m, h.n);
    }
  }

  lemma FrameEnds(b: Bytes) returns (m: Bytes)
    requires Parse(b).Need? && Hopeful(b)
    ensures Parse(b + m).Done?
  {
    hide ParseHead;
    hide ParseBulks;
    hide HopefulBulks;
    hide HopefulHeader;
    hide Empties;
    var h := ParseHead(b, STAR, MAX_MULTIBULK);
    if h.HeadNeed? {
      NeedIsOpen(b, STAR, MAX_MULTIBULK);
      var q := HeaderEnds(b, STAR, MAX_MULTIBULK);
      var k := ParseHead(b + q, STAR, MAX_MULTIBULK);
      m := q + Empties(k.n);
      EmptiesDone(k.n);
      assert (b + q)[k.len..] + Empties(k.n) == Empties(k.n);
      HeadThen(b + q, Empties(k.n));
      assert b + q + Empties(k.n) == b + m;
    } else {
      GotIsLine(b, STAR, MAX_MULTIBULK);
      m := BulksEnd(b[h.len..], h.n);
      HeadThen(b, m);
    }
  }

  lemma HeadThen(t: Bytes, m: Bytes)
    requires var h := ParseHead(t, STAR, MAX_MULTIBULK); h.HeadGot? && ParseBulks(t[h.len..] + m, h.n).Done?
    ensures Parse(t + m).Done?
  {
    hide ParseHead;
    hide ParseBulks;
    var l := ParseHead(t, STAR, MAX_MULTIBULK).len;
    assert (t + m)[..l] == t[..l] && (t + m)[l..] == t[l..] + m;
    HeadLocal(t, t + m, STAR, MAX_MULTIBULK);
  }

  /** A wait in vain: a payload is all there and another byte stands where its CR should. */
  lemma WaitsInVain()
    ensures var b: Bytes := [STAR, 49, CR, LF, DOLLAR, ZERO, CR, LF, 65];
      Parse(b).Need? && forall m :: !Parse(b + m).Done?
  {
    var b: Bytes := [STAR, 49, CR, LF, DOLLAR, ZERO, CR, LF, 65];
    VainArgument();
    assert Atoi([49]) == Some(1) by { assert Value([49]) == 1 by { assert [49][..0] == []; } }
    hide Atoi;
    hide ParseBulk;
    hide HopefulBulk;
    assert b[..4] == [STAR, 49, CR, LF];
    assert [STAR, 49, CR, LF][1..2] == [49];
    HeadAccepts(b, STAR, MAX_MULTIBULK, 1, 4);
    GotIsLine(b, STAR, MAX_MULTIBULK);
    hide ParseHead;
    assert b[4..] == [DOLLAR, ZERO, CR, LF, 65];
    AwaitedIff(b);
  }

  lemma VainArgument()
    ensures var t: Bytes := [DOLLAR, ZERO, CR, LF, 65]; ParseBulk(t).OneNeed? && !HopefulBulk(t)
  {
    var t: Bytes := [DOLLAR, ZERO, CR, LF, 65];
    ZeroCounts();
    hide Atoi;
    assert t[..4] == [DOLLAR, ZERO, CR, LF];
    assert [DOLLAR, ZERO, CR, LF][1..2] == [ZERO];
    HeadAccepts(t, DOLLAR, MAX_BULK, 0, 4);
    GotIsLine(t, DOLLAR, MAX_BULK);
    hide ParseHead;
    hide HopefulHeader;
  }

  // ---- Connections ----

  /** Commands, then a malformed frame, in any chunks: the commands are dispatched and the connection
      is closed, unless a command has asked to close it before. */
  lemma MalformedCloses(cmds: seq<Args>, t: Bytes, chunks: seq<Bytes>, stops: Stops)
    requires AllWithin(cmds) && WrongFrame(t) && Concat(chunks) == EncodeAll(cmds) + t
    requires forall i :: 0 < i <= |cmds| ==> !stops(cmds[..i])
    ensures var c := Feed(START, chunks, stops); c.closed && c.log == cmds
  {
    var s := EncodeAll(cmds) + t;
    RefusesExactly(t);
    assert forall i :: 0 < i <= |cmds| ==> [] + cmds[..i] == cmds[..i];
    DrainThenBad(cmds, t, [], stops);
    hide Drain;
    hide ShortAll;
    hide EncodeAll;
    hide WrongFrame;
    assert [] + cmds == cmds;
    ChunkingInvisibleIff(s, stops);
  }

  lemma {:induction false} DrainThenBad(cmds: seq<Args>, t: Bytes, log: seq<Args>, stops: Stops)
    requires AllWithin(cmds) && Parse(t).Bad? && forall i :: 0 < i <= |cmds| ==> !stops(log + cmds[..i])
    ensures var s := EncodeAll(cmds) + t; Drain(s, log, stops) == Conn(t, log + cmds, true) && ShortAll(s, log, stops)
    decreases |cmds|
  {
    hide Encode;
    hide Parse;
    hide Short;
    if cmds == [] {
      assert EncodeAll(cmds) + t == t && log + cmds == log;
    } else {
      var more, log' := EncodeAll(cmds[1..]) + t, log + [cmds[0]];
      assert EncodeAll(cmds) + t == Encode(cmds[0]) + more;
      EncodedFrame(cmds[0], more);
      assert (Encode(cmds[0]) + more)[|Encode(cmds[0])|..] == more;
      assert log + cmds[..1] == log';
      forall i | 0 < i <= |cmds[1..]|
        ensures !stops(log' + cmds[1..][..i])
      {
        assert log' + cmds[1..][..i] == log + cmds[..i + 1];
      }
      DrainThenBad(cmds[1..], t, log', stops);
      assert log' + cmds[1..] == log + cmds;
    }
  }
}
