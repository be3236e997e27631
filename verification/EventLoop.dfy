/** The event loop's incremental parser and its parse/consume loop: what a split of the bytes
    into chunks can and cannot change. */
module EventLoop {
  import opened RespNumbers
  import opened RespCodec

  const MAX_BULK: nat := 536_870_912
  const MAX_MULTIBULK: nat := 1_048_576

  /** Position of the first CRLF, or the length if there is none. */
  function FirstCRLF(b: Bytes): (i: nat)
    ensures i <= |b| && (i < |b| ==> i + 1 < |b| && b[i] == CR && b[i + 1] == LF)
    ensures forall j :: 0 <= j < i && j + 1 < |b| ==> !(b[j] == CR && b[j + 1] == LF)
  {
    if |b| < 2 then |b| else if b[0] == CR && b[1] == LF then 0 else 1 + FirstCRLF(b[1..])
  }

  /** Scan for the first CRLF. */
  method IndexCRLF(b: Bytes) returns (i: int)
    ensures i == if FirstCRLF(b) < |b| then FirstCRLF(b) else -1
  {
    i := 0;
    while i + 1 < |b|
      invariant 0 <= i <= |b| && forall j :: 0 <= j < i && j + 1 < |b| ==> !(b[j] == CR && b[j + 1] == LF)
    {
      if b[i] == CR && b[i + 1] == LF {
        return;
      }
      i := i + 1;
    }
    i := -1;
  }

  // ---- Parsing one frame ----

  /** A size header: not all there yet, malformed, or a count and the bytes it took. */
  datatype Head = HeadNeed | HeadBad | HeadGot(n: nat, len: nat)

  function ParseHead(t: Bytes, mark: Byte, max: nat): (h: Head)
    requires mark != CR
    ensures h.HeadGot? ==> 3 <= h.len <= |t| && h.n <= max && h.len == FirstCRLF(t) + 2 && t[0] == mark
  {
    if t == [] then HeadNeed
    else if t[0] != mark then HeadBad
    else
      var nl := FirstCRLF(t);
      if nl == |t| then if |t| > MAX_HEADER_LINE then HeadBad else HeadNeed
      else
        match Atoi(t[1..nl])
        case None => HeadBad
        case Some(v) => if v < 0 || v > max then HeadBad else HeadGot(v, nl + 2)
  }

  /** One argument. */
  datatype One = OneNeed | OneBad | OneDone(arg: Bytes, used: nat)

  function ParseBulk(t: Bytes): (r: One)
    ensures r.OneDone? ==> 0 < r.used <= |t|
  {
    match ParseHead(t, DOLLAR, MAX_BULK)
    case HeadNeed => OneNeed
    case HeadBad => OneBad
    case HeadGot(n, l) =>
      if |t| < l + n + 2 then OneNeed
      else if t[l + n..l + n + 2] != CRLF then OneBad
      else OneDone(t[l..l + n], l + n + 2)
  }

  /** A frame: incomplete, malformed, or the arguments and the bytes they took. */
  datatype Frame = Need | Bad | Done(args: Args, used: nat)

  function ParseBulks(t: Bytes, c: nat): (r: Frame)
    ensures r.Done? ==> r.used <= |t| && |r.args| == c
  {
    if c == 0 then Done([], 0)
    else
      match ParseBulk(t)
      case OneNeed => Need
      case OneBad => Bad
      case OneDone(a, u) =>
        match ParseBulks(t[u..], c - 1)
        case Need => Need
        case Bad => Bad
        case Done(as', u') => Done([a] + as', u + u')
  }

  function Parse(b: Bytes): (r: Frame)
    ensures r.Done? ==> 0 < r.used <= |b|
  {
    match ParseHead(b, STAR, MAX_MULTIBULK)
    case HeadNeed => Need
    case HeadBad => Bad
    case HeadGot(c, l) =>
      match ParseBulks(b[l..], c)
      case Need => Need
      case Bad => Bad
      case Done(args, u) => Done(args, l + u)
  }

  // ---- What a parse depends on ----

  lemma FirstCRLFIs(b: Bytes, i: nat)
    requires i <= |b| && (i < |b| ==> i + 1 < |b| && b[i] == CR && b[i + 1] == LF)
    requires forall j :: 0 <= j < i && j + 1 < |b| ==> !(b[j] == CR && b[j + 1] == LF)
    ensures FirstCRLF(b) == i
  {
  }

  /** `t` and `u` agree on their first `n` bytes. */
  predicate Agree(t: Bytes, u: Bytes, n: nat)
  {
    n <= |t| && n <= |u| && t[..n] == u[..n]
  }

  lemma HeadLocal(t: Bytes, u: Bytes, mark: Byte, max: nat)
    requires mark != CR && ParseHead(t, mark, max).HeadGot? && Agree(t, u, ParseHead(t, mark, max).len)
    ensures ParseHead(u, mark, max) == ParseHead(t, mark, max)
  {
    var l := ParseHead(t, mark, max).len;
    assert forall j :: 0 <= j < l ==> t[..l][j] == u[..l][j];
    assert forall j :: 0 <= j < l ==> t[j] == u[j];
    FirstCRLFIs(u, l - 2);
    assert t[1..l - 2] == u[1..l - 2];
  }

  /** Agreement restricts to a shorter prefix, and to what follows it. */
  lemma AgreeSplit(t: Bytes, u: Bytes, n: nat, k: nat)
    requires Agree(t, u, n) && k <= n
    ensures Agree(t, u, k) && Agree(t[k..], u[k..], n - k)
  {
    assert t[..k] == t[..n][..k] && u[..k] == u[..n][..k];
    assert t[k..][..n - k] == t[..n][k..] && u[k..][..n - k] == u[..n][k..];
  }

  lemma AgreeSlice(t: Bytes, u: Bytes, n: nat, a: nat, b: nat)
    requires Agree(t, u, n) && a <= b <= n
    ensures t[a..b] == u[a..b]
  {
    assert t[a..b] == t[..n][a..b] && u[a..b] == u[..n][a..b];
  }

  lemma BulkLocal(t: Bytes, u: Bytes)
    requires ParseBulk(t).OneDone? && Agree(t, u, ParseBulk(t).used)
    ensures ParseBulk(u) == ParseBulk(t)
  {
    hide ParseHead;
    hide Agree;
    var h, n := ParseHead(t, DOLLAR, MAX_BULK), ParseBulk(t).used;
    AgreeSplit(t, u, n, h.len);
    HeadLocal(t, u, DOLLAR, MAX_BULK);
    AgreeSlice(t, u, n, h.len, h.len + h.n);
    AgreeSlice(t, u, n, h.len + h.n, n);
    AgreeBounds(t, u, n);
  }

  lemma AgreeBounds(t: Bytes, u: Bytes, n: nat)
    requires Agree(t, u, n)
    ensures n <= |t| && n <= |u|
  {
  }

  lemma {:induction false} BulksLocal(t: Bytes, u: Bytes, c: nat)
    requires ParseBulks(t, c).Done? && Agree(t, u, ParseBulks(t, c).used)
    ensures ParseBulks(u, c) == ParseBulks(t, c)
  {
    hide ParseBulk;
    hide Agree;
    if c > 0 {
      var n, k := ParseBulks(t, c).used, ParseBulk(t).used;
      AgreeSplit(t, u, n, k);
      BulkLocal(t, u);
      BulksLocal(t[k..], u[k..], c - 1);
    }
  }

  /** A complete parse depends only on the bytes it used: appending to them or cutting what
      follows changes nothing. */
  lemma ParseLocal(b: Bytes, u: Bytes)
    requires Parse(b).Done? && Agree(b, u, Parse(b).used)
    ensures Parse(u) == Parse(b)
  {
    hide ParseHead;
    hide ParseBulks;
    hide Agree;
    var h := ParseHead(b, STAR, MAX_MULTIBULK);
    AgreeSplit(b, u, Parse(b).used, h.len);
    HeadLocal(b, u, STAR, MAX_MULTIBULK);
    BulksLocal(b[h.len..], u[h.len..], h.n);
  }

  // ---- Short headers ----

  /** A header accepted here is short enough that no cut inside it can be called too long. */
  predicate ShortHead(t: Bytes, mark: Byte, max: nat)
    requires mark != CR
  {
    var h := ParseHead(t, mark, max);
    h.HeadGot? ==> h.len <= MAX_HEADER_LINE + 1
  }

  predicate ShortBulks(t: Bytes, c: nat)
  {
    c == 0 || (ShortHead(t, DOLLAR, MAX_BULK)
               && (ParseBulk(t).OneDone? ==> ShortBulks(t[ParseBulk(t).used..], c - 1)))
  }

  /** Every header accepted in the first frame of `b` is short. */
  predicate Short(b: Bytes)
  {
    var h := ParseHead(b, STAR, MAX_MULTIBULK);
    h.HeadGot? ==> h.len <= MAX_HEADER_LINE + 1 && ShortBulks(b[h.len..], h.n)
  }

  /** A header that parses keeps doing so, or is still awaited, on every prefix: unless it is long. */
  lemma HeadPrefix(p: Bytes, t: Bytes, mark: Byte, max: nat)
    requires mark != CR && p <= t && ShortHead(t, mark, max) && !ParseHead(t, mark, max).HeadBad?
    ensures !ParseHead(p, mark, max).HeadBad?
    ensures ParseHead(p, mark, max).HeadGot? ==> ParseHead(p, mark, max) == ParseHead(t, mark, max)
  {
    var nl := FirstCRLF(p);
    if p != [] && nl < |p| {
      FirstCRLFIs(t, nl);
      assert p[1..nl] == t[1..nl];
    }
  }

  /** The cut that calls a long header too long. */
  lemma HeadCut(t: Bytes, mark: Byte, max: nat)
    requires mark != CR && !ShortHead(t, mark, max)
    ensures |t| > MAX_HEADER_LINE && ParseHead(t[..MAX_HEADER_LINE + 1], mark, max).HeadBad?
  {
    var p := t[..MAX_HEADER_LINE + 1];
    FirstCRLFIs(p, |p|);
  }

  lemma PrefixSlice(p: Bytes, t: Bytes, a: nat, b: nat)
    requires p <= t && a <= b <= |p|
    ensures p[a..b] == t[a..b]
  {
  }

  lemma BulkPrefix(p: Bytes, t: Bytes)
    requires p <= t && ShortHead(t, DOLLAR, MAX_BULK) && !ParseBulk(t).OneBad?
    ensures !ParseBulk(p).OneBad? && ShortHead(p, DOLLAR, MAX_BULK)
    ensures ParseBulk(p).OneDone? ==> ParseBulk(p) == ParseBulk(t)
  {
    hide ParseHead;
    HeadPrefix(p, t, DOLLAR, MAX_BULK);
    var h := ParseHead(p, DOLLAR, MAX_BULK);
    if h.HeadGot? && |p| >= h.len + h.n + 2 {
      PrefixSlice(p, t, h.len, h.len + h.n);
      PrefixSlice(p, t, h.len + h.n, h.len + h.n + 2);
    }
  }

  lemma PrefixTail(p: Bytes, t: Bytes, k: nat)
    requires p <= t && k <= |p|
    ensures p[k..] <= t[k..]
  {
    assert forall i :: 0 <= i < |p| - k ==> p[k..][i] == t[k..][i];
  }

  lemma {:induction false} BulksPrefix(p: Bytes, t: Bytes, c: nat)
    requires p <= t && ShortBulks(t, c) && !ParseBulks(t, c).Bad?
    ensures !ParseBulks(p, c).Bad? && ShortBulks(p, c)
    ensures ParseBulks(p, c).Done? ==> ParseBulks(p, c) == ParseBulks(t, c)
  {
    hide ParseBulk;
    hide ShortHead;
    if c > 0 {
      BulkPrefix(p, t);
      if ParseBulk(p).OneDone? {
        var u := ParseBulk(p).used;
        PrefixTail(p, t, u);
        BulksPrefix(p[u..], t[u..], c - 1);
      }
    }
  }

  /** A frame that is not malformed and has short headers is malformed on no prefix. */
  lemma FramePrefix(p: Bytes, t: Bytes)
    requires p <= t && Short(t) && !Parse(t).Bad?
    ensures !Parse(p).Bad? && Short(p) && (Parse(p).Done? ==> Parse(p) == Parse(t))
  {
    HeadPrefix(p, t, STAR, MAX_MULTIBULK);
    hide ParseHead;
    hide ParseBulks;
    hide ShortBulks;
    var h := ParseHead(p, STAR, MAX_MULTIBULK);
    if h.HeadGot? {
      PrefixTail(p, t, h.len);
      BulksPrefix(p[h.len..], t[h.len..], h.n);
    }
  }

  lemma CutAgrees(t: Bytes, u: nat, m: nat)
    requires u + m <= |t|
    ensures Agree(t, t[..u + m], u) && t[..u + m][u..] == t[u..][..m]
  {
    assert t[..u + m][..u] == t[..u];
  }

  lemma BulkCutLong(t: Bytes)
    requires !ShortHead(t, DOLLAR, MAX_BULK)
    ensures |t| > MAX_HEADER_LINE && ParseBulk(t[..MAX_HEADER_LINE + 1]).OneBad?
  {
    hide ParseHead;
    hide ShortHead;
    HeadCut(t, DOLLAR, MAX_BULK);
  }

  lemma {:induction false} BulksCutAt(t: Bytes, c: nat) returns (k: nat)
    requires !ParseBulks(t, c).Bad? && !ShortBulks(t, c)
    ensures k <= |t| && ParseBulks(t[..k], c).Bad?
  {
    hide ParseBulk;
    hide ShortHead;
    if !ShortHead(t, DOLLAR, MAX_BULK) {
      BulkCutLong(t);
      k := MAX_HEADER_LINE + 1;
    } else {
      var u := ParseBulk(t).used;
      var m := BulksCutAt(t[u..], c - 1);
      k := u + m;
      CutAgrees(t, u, m);
      BulkLocal(t, t[..k]);
    }
  }

  /** A frame that is not malformed but has a long header is malformed on some prefix. */
  lemma FrameCutAt(t: Bytes) returns (k: nat)
    requires !Parse(t).Bad? && !Short(t)
    ensures k <= |t| && Parse(t[..k]).Bad?
  {
    var h := ParseHead(t, STAR, MAX_MULTIBULK);
    if h.len > MAX_HEADER_LINE + 1 {
      HeadCut(t, STAR, MAX_MULTIBULK);
      k := MAX_HEADER_LINE + 1;
    } else {
      var m := BulksCutAt(t[h.len..], h.n);
      k := h.len + m;
      CutAgrees(t, h.len, m);
      HeadLocal(t, t[..k], STAR, MAX_MULTIBULK);
    }
  }

  // ---- The loop ----

  /** Decides, from everything dispatched so far, whether the last command asked to close. */
  type Stops = seq<Args> -> bool

  /** A connection: bytes received and not consumed, commands dispatched, and whether it closed. */
  datatype Conn = Conn(buf: Bytes, log: seq<Args>, closed: bool)

  /** Parse and dispatch until the bytes run out, are malformed, or a command asks to close. */
  function Drain(b: Bytes, log: seq<Args>, stops: Stops): (c: Conn)
    ensures log <= c.log && |c.buf| <= |b|
    decreases |b|
  {
    match Parse(b)
    case Need => Conn(b, log, false)
    case Bad => Conn(b, log, true)
    case Done(args, u) =>
      if stops(log + [args]) then Conn(b[u..], log + [args], true) else Drain(b[u..], log + [args], stops)
  }

  function OnTraffic(c: Conn, chunk: Bytes, stops: Stops): Conn
  {
    if c.closed then c else Drain(c.buf + chunk, c.log, stops)
  }

  function Feed(c: Conn, chunks: seq<Bytes>, stops: Stops): Conn
    decreases |chunks|
  {
    if chunks == [] then c else Feed(OnTraffic(c, chunks[0], stops), chunks[1..], stops)
  }

  function Concat(chunks: seq<Bytes>): Bytes
  {
    if chunks == [] then [] else chunks[0] + Concat(chunks[1..])
  }

  /** Alike to a client: what was dispatched, whether the connection closed, and, while it is open,
      what it still holds. */
  predicate Alike(c: Conn, d: Conn)
  {
    c.log == d.log && c.closed == d.closed && (!c.closed ==> c.buf == d.buf)
  }

  /** Every frame met when all the bytes arrive at once is malformed anyway, or has short headers. */
  predicate ShortAll(b: Bytes, log: seq<Args>, stops: Stops)
    decreases |b|
  {
    match Parse(b)
    case Bad => true
    case Need => Short(b)
    case Done(args, u) => Short(b) && (stops(log + [args]) || ShortAll(b[u..], log + [args], stops))
  }

  /** Bytes that arrive in two parts are treated as if they had come at once. */
  lemma {:induction false} DrainInTwo(b: Bytes, r: Bytes, log: seq<Args>, stops: Stops)
    requires ShortAll(b + r, log, stops)
    ensures Alike(OnTraffic(Drain(b, log, stops), r, stops), Drain(b + r, log, stops))
    ensures var c := Drain(b, log, stops); !c.closed ==> ShortAll(c.buf + r, c.log, stops)
    decreases |b|
  {
    hide Parse;
    hide Short;
    match Parse(b)
    case Need =>
    case Bad =>
      if !Parse(b + r).Bad? {
        FramePrefix(b, b + r);
      }
    case Done(args, u) =>
      ParseLocal(b, b + r) by { assert (b + r)[..u] == b[..u]; }
      assert (b + r)[u..] == b[u..] + r;
      if !stops(log + [args]) {
        DrainInTwo(b[u..], r, log + [args], stops);
      }
  }

  lemma {:induction false} FeedClosed(c: Conn, chunks: seq<Bytes>, stops: Stops)
    requires c.closed
    ensures Feed(c, chunks, stops) == c
  {
    if chunks != [] {
      FeedClosed(c, chunks[1..], stops);
    }
  }

  /** However the bytes are cut, the connection ends as if they had come at once. */
  lemma {:induction false} FeedIsDrain(c: Conn, chunks: seq<Bytes>, stops: Stops)
    requires !c.closed && c == Drain(c.buf, c.log, stops) && ShortAll(c.buf + Concat(chunks), c.log, stops)
    ensures Alike(Feed(c, chunks, stops), Drain(c.buf + Concat(chunks), c.log, stops))
    decreases |chunks|
  {
    hide ShortAll;
    if chunks == [] {
      assert c.buf + Concat(chunks) == c.buf;
    } else {
      var b, r := c.buf + chunks[0], Concat(chunks[1..]);
      assert c.buf + Concat(chunks) == b + r;
      DrainInTwo(b, r, c.log, stops);
      var d := Drain(b, c.log, stops);
      if d.closed {
        FeedClosed(d, chunks[1..], stops);
      } else {
        DrainIsDrained(b, c.log, stops);
        FeedIsDrain(d, chunks[1..], stops);
      }
    }
  }

  /** What the loop leaves behind in an open connection holds no complete frame. */
  lemma {:induction false} DrainIsDrained(b: Bytes, log: seq<Args>, stops: Stops)
    ensures var c := Drain(b, log, stops); !c.closed ==> Parse(c.buf).Need? && Drain(c.buf, c.log, stops) == c
    decreases |b|
  {
    if Parse(b).Done? && !stops(log + [Parse(b).args]) {
      DrainIsDrained(b[Parse(b).used..], log + [Parse(b).args], stops);
    }
  }

  /** A long header has a cut that makes the outcome differ. */
  lemma {:induction false} DrainDiffers(b: Bytes, log: seq<Args>, stops: Stops) returns (k: nat)
    requires !ShortAll(b, log, stops)
    ensures k <= |b| && Drain(b[..k], log, stops).closed
    ensures !Alike(Drain(b[..k], log, stops), Drain(b, log, stops))
    decreases |b|
  {
    hide Parse;
    hide Short;
    if !Short(b) {
      k := FrameCutAt(b);
    } else {
      var u, args := Parse(b).used, Parse(b).args;
      var m := DrainDiffers(b[u..], log + [args], stops);
      k := u + m;
      CutAgrees(b, u, m);
      ParseLocal(b, b[..k]);
    }
  }

  const START: Conn := Conn([], [], false)

  /** The chunking of a stream never shows, exactly when no accepted header of it is long. */
  lemma ChunkingInvisibleIff(s: Bytes, stops: Stops)
    ensures (forall chunks :: Concat(chunks) == s ==> Alike(Feed(START, chunks, stops), Drain(s, [], stops)))
       <==> ShortAll(s, [], stops)
  {
    if ShortAll(s, [], stops) {
      forall chunks | Concat(chunks) == s
        ensures Alike(Feed(START, chunks, stops), Drain(s, [], stops))
      {
        assert START.buf + Concat(chunks) == s;
        FeedIsDrain(START, chunks, stops);
      }
    } else {
      var k := DrainDiffers(s, [], stops);
      var chunks: seq<Bytes> := [s[..k], s[k..]];
      TwoChunks(s, k, stops);
      assert Concat(chunks) == s;
    }
  }

  lemma TwoChunks(s: Bytes, k: nat, stops: Stops)
    requires k <= |s| && Drain(s[..k], [], stops).closed
    ensures Concat([s[..k], s[k..]]) == s
    ensures Feed(START, [s[..k], s[k..]], stops) == Drain(s[..k], [], stops)
  {
    hide Drain;
    var chunks: seq<Bytes> := [s[..k], s[k..]];
    assert chunks[1..] == [s[k..]];
    assert |chunks[1..][1..]| == 0;
    assert Concat(chunks[1..]) == s[k..] + Concat(chunks[1..][1..]) == s[k..];
    assert START.buf + s[..k] == s[..k];
    FeedClosed(Drain(s[..k], [], stops), chunks[1..], stops);
  }

  lemma {:induction false} ZerosAreZero(n: nat)
    ensures var z := seq(n, _ => ZERO); AllDigits(z) && Value(z) == 0
  {
    var z := seq(n, _ => ZERO);
    if n > 0 {
      ZerosAreZero(n - 1);
      assert z[..n - 1] == seq(n - 1, _ => ZERO);
    }
  }

  /** A count padded with zeros past the header bound is such a stream: whole, it is an empty
      command; cut after sixty-five bytes, it closes the connection. */
  lemma PaddedCountShows(n: nat, stops: Stops)
    requires n >= MAX_HEADER_LINE
    ensures var s := [STAR] + seq(n, _ => ZERO) + CRLF; Parse(s) == Done([], n + 3) && !ShortAll(s, [], stops)
  {
    hide ParseHead;
    PaddedHead(n);
  }

  lemma PaddedHead(n: nat)
    requires n > 0
    ensures ParseHead([STAR] + seq(n, _ => ZERO) + CRLF, STAR, MAX_MULTIBULK) == HeadGot(0, n + 3)
  {
    var z: Bytes := seq(n, _ => ZERO);
    var s: Bytes := [STAR] + z + CRLF;
    ZerosAreZero(n);
    hide Value;
    assert forall j :: 1 <= j < n + 1 ==> s[j] == z[j - 1] == ZERO;
    FirstCRLFIs(s, n + 1);
    assert s[1..n + 1] == z;
  }

  // ---- Agreement with the blocking reader ----

  /** A header accepted here is also one the strict reader accepts: canonical digits, short line. */
  predicate CanonicalHead(t: Bytes, mark: Byte, max: nat)
    requires mark != CR
  {
    var h := ParseHead(t, mark, max);
    h.HeadGot? ==> h.len <= MAX_HEADER_LINE && Canonical(t[1..h.len - 2])
  }

  predicate CanonicalBulks(t: Bytes, c: nat)
  {
    c == 0 || (CanonicalHead(t, DOLLAR, MAX_BULK)
               && (ParseBulk(t).OneDone? ==> CanonicalBulks(t[ParseBulk(t).used..], c - 1)))
  }

  /** Every header of the first frame of `b` is canonical. */
  predicate CanonicalFrame(b: Bytes)
  {
    var h := ParseHead(b, STAR, MAX_MULTIBULK);
    CanonicalHead(b, STAR, MAX_MULTIBULK) && (h.HeadGot? ==> CanonicalBulks(b[h.len..], h.n))
  }

  /** A line of type byte and digits ends at the same place for both scans. */
  lemma SameLine(s: Bytes, nl: nat)
    requires 1 <= nl && nl + 1 < |s| && s[0] != CR && s[0] != LF && AllDigits(s[1..nl])
    requires s[nl] == CR && s[nl + 1] == LF
    ensures FirstCRLF(s) == nl && FirstLF(s) == nl + 1
  {
    assert forall j :: 1 <= j < nl ==> s[j] == s[1..nl][j - 1];
    FirstCRLFIs(s, nl);
    FirstLFIs(s, nl + 1);
  }

  lemma SizeAgrees(s: Bytes, first: bool, mark: Byte, wrong: Kind, max: nat, over: Kind)
    requires mark != CR && mark != LF
    ensures var r, h := Size(s, DEFAULT_LIMITS, first, mark, wrong, max, over), ParseHead(s, mark, max);
      && (r.Got? <==> h.HeadGot? && CanonicalHead(s, mark, max))
      && (r.Got? ==> r.value == h.n && r.rest == s[h.len..])
  {
    var r, h := Size(s, DEFAULT_LIMITS, first, mark, wrong, max, over), ParseHead(s, mark, max);
    if h.HeadGot? && CanonicalHead(s, mark, max) {
      var nl := h.len - 2;
      SameLine(s, nl);
      assert s[..nl][1..] == s[1..nl];
    }
    if r.Got? {
      var nl := FirstLF(s) - 1;
      assert s[..nl][1..] == s[1..nl];
      SameLine(s, nl);
      AtoiCanonical(s[1..nl]);
    }
  }

  lemma BulkAgrees(s: Bytes)
    ensures var r, o := BulkArg(s, DEFAULT_LIMITS), ParseBulk(s);
      && (r.Got? <==> o.OneDone? && CanonicalHead(s, DOLLAR, MAX_BULK))
      && (r.Got? ==> r.value == o.arg && r.rest == s[o.used..])
  {
    SizeAgrees(s, false, DOLLAR, ExpectedBulk, MAX_BULK, BulkTooLong);
    hide ParseHead;
    hide Size;
    hide CanonicalHead;
    var h := ParseHead(s, DOLLAR, MAX_BULK);
    if h.HeadGot? && |s| >= h.len + h.n + 2 {
      TailSlices(s, h.len, h.n);
    }
  }

  lemma TailSlices(s: Bytes, l: nat, n: nat)
    requires l + n + 2 <= |s|
    ensures s[l..][n..n + 2] == s[l + n..l + n + 2] && s[l..][..n] == s[l..l + n] && s[l..][n + 2..] == s[l + n + 2..]
  {
  }

  lemma {:induction false} BulksAgree(s: Bytes, c: nat)
    ensures var r, f := BulkArgs(s, DEFAULT_LIMITS, c), ParseBulks(s, c);
      && (r.Got? <==> f.Done? && CanonicalBulks(s, c))
      && (r.Got? ==> r.value == f.args && r.rest == s[f.used..])
  {
    hide ParseBulk;
    hide BulkArg;
    hide CanonicalHead;
    if c > 0 {
      BulkAgrees(s);
      if BulkArg(s, DEFAULT_LIMITS).Got? {
        var u := ParseBulk(s).used;
        BulksAgree(s[u..], c - 1);
        if ParseBulks(s[u..], c - 1).Done? {
          DropTwice(s, u, ParseBulks(s[u..], c - 1).used);
        }
      }
    }
  }

  lemma DropTwice(s: Bytes, a: nat, b: nat)
    requires a + b <= |s|
    ensures s[a..][b..] == s[a + b..]
  {
  }

  /** The blocking reader, under default limits, accepts exactly the frames the event loop accepts
      whose headers are canonical, with the same arguments and the same length. */
  lemma ParsersAgree(s: Bytes)
    ensures var r, f := Command(s, DEFAULT_LIMITS), Parse(s);
      && (r.Got? <==> f.Done? && CanonicalFrame(s))
      && (r.Got? ==> r.value == f.args && r.rest == s[f.used..])
  {
    hide Size;
    hide ParseHead;
    hide CanonicalHead;
    hide BulkArgs;
    hide ParseBulks;
    hide CanonicalBulks;
    SizeAgrees(s, true, STAR, ExpectedArray, MAX_MULTIBULK, MultibulkTooLong);
    var h := ParseHead(s, STAR, MAX_MULTIBULK);
    if h.HeadGot? {
      BulksAgree(s[h.len..], h.n);
      if ParseBulks(s[h.len..], h.n).Done? {
        DropTwice(s, h.len, ParseBulks(s[h.len..], h.n).used);
      }
    }
  }

  /** The inclusion is strict: a signed count is taken by the event loop only. */
  lemma LenientCount()
    ensures var s := [STAR, 43, ZERO, CR, LF];
      Parse(s) == Done([], 5) && Command(s, DEFAULT_LIMITS) == Failed(Protocol(BadLength))
  {
    var s: Bytes := [STAR, 43, ZERO, CR, LF];
    FirstCRLFIs(s, 3);
    FirstLFIs(s, 4);
    assert s[1..3] == [43, ZERO] && s[1..3][1..] == [ZERO];
    assert s[..3][1..] == s[1..3];
    assert Value([ZERO]) == 0 by { assert [ZERO][..0] == []; }
  }

  lemma {:induction false} CanonicalBulksShort(t: Bytes, c: nat)
    requires CanonicalBulks(t, c)
    ensures ShortBulks(t, c)
  {
    hide ParseBulk;
    hide ParseHead;
    if c > 0 && ParseBulk(t).OneDone? {
      CanonicalBulksShort(t[ParseBulk(t).used..], c - 1);
    }
  }

  // ---- Canonical streams ----

  /** An encoded command, whatever follows it, is parsed back exactly. */
  lemma EncodedFrame(args: Args, tail: Bytes)
    requires Within(args, DEFAULT_LIMITS)
    ensures Parse(Encode(args) + tail) == Done(args, |Encode(args)|) && Short(Encode(args) + tail)
  {
    var s := Encode(args) + tail;
    RoundTripIff(args, tail, DEFAULT_LIMITS);
    ParsersAgree(s);
    hide Command;
    hide Encode;
    hide Parse;
    assert |s[Parse(s).used..]| == |tail|;
    var h := ParseHead(s, STAR, MAX_MULTIBULK);
    if h.HeadGot? {
      CanonicalBulksShort(s[h.len..], h.n);
    }
  }

  /** What a strict prefix of an encoded command is: incomplete. */
  lemma EncodedCut(args: Args, p: Bytes)
    requires Within(args, DEFAULT_LIMITS) && p <= Encode(args) && |p| < |Encode(args)|
    ensures Parse(p).Need? && Short(p)
  {
    hide Encode;
    EncodedFrame(args, []);
    assert Encode(args) + [] == Encode(args);
    hide Parse;
    hide Short;
    FramePrefix(p, Encode(args));
  }

  ghost predicate AllWithin(cmds: seq<Args>)
  {
    forall i :: 0 <= i < |cmds| ==> Within(cmds[i], DEFAULT_LIMITS)
  }

  /** `c` has dispatched the first `j` of `cmds`, stopping only where one asked to close, and, while
      open, holds the bytes of `p` past them, which are part of one frame at most. */
  ghost predicate Dispatched(cmds: seq<Args>, p: Bytes, log: seq<Args>, stops: Stops, c: Conn, j: nat)
  {
    && j <= |cmds| && c.log == log + cmds[..j]
    && (c.closed <==> j > 0 && stops(log + cmds[..j]))
    && (forall i :: 0 < i < j ==> !stops(log + cmds[..i]))
    && EncodeAll(cmds[..j]) <= p
    && (!c.closed ==>
      p == EncodeAll(cmds[..j]) + c.buf && if j < |cmds| then |c.buf| < |Encode(cmds[j])| else c.buf == [])
  }

  lemma DispatchedOne(cmds: seq<Args>, p: Bytes, log: seq<Args>, stops: Stops, c: Conn, j: nat)
    requires cmds != [] && Encode(cmds[0]) <= p && !stops(log + [cmds[0]])
    requires Dispatched(cmds[1..], p[|Encode(cmds[0])|..], log + [cmds[0]], stops, c, j)
    ensures Dispatched(cmds, p, log, stops, c, j + 1)
  {
    hide Encode;
    var e, more, log' := Encode(cmds[0]), cmds[1..], log + [cmds[0]];
    forall i | 0 <= i <= j
      ensures log + cmds[..i + 1] == log' + more[..i]
    {
      assert cmds[..i + 1] == [cmds[0]] + more[..i];
      assert log + ([cmds[0]] + more[..i]) == log' + more[..i];
    }
    assert cmds[..j + 1][1..] == more[..j];
    assert EncodeAll(cmds[..j + 1]) == e + EncodeAll(more[..j]);
    assert p == e + p[|e|..];
    assert log' + more[..0] == log';
    forall i | 0 < i < j + 1
      ensures !stops(log + cmds[..i])
    {
      assert log + cmds[..i] == log' + more[..i - 1];
    }
  }

  lemma {:induction false} DrainEncoded(cmds: seq<Args>, p: Bytes, log: seq<Args>, stops: Stops) returns (j: nat)
    requires AllWithin(cmds) && p <= EncodeAll(cmds)
    ensures Dispatched(cmds, p, log, stops, Drain(p, log, stops), j) && ShortAll(p, log, stops)
    decreases |cmds|
  {
    hide Encode;
    hide Parse;
    hide Short;
    if cmds == [] {
      j := 0;
      NothingYet();
    } else {
      var e := Encode(cmds[0]);
      StreamSplits(p, e, EncodeAll(cmds[1..]));
      if |p| < |e| {
        EncodedCut(cmds[0], p);
        j := 0;
      } else {
        EncodedFrame(cmds[0], p[|e|..]);
        if stops(log + [cmds[0]]) {
          j := 1;
          assert cmds[..1] == [cmds[0]];
          assert EncodeAll(cmds[..1]) == e;
        } else {
          j := DrainEncoded(cmds[1..], p[|e|..], log + [cmds[0]], stops);
          DispatchedOne(cmds, p, log, stops, Drain(p, log, stops), j);
          j := j + 1;
        }
      }
    }
  }

  lemma NothingYet()
    ensures Parse([]).Need? && Short([])
  {
  }

  /** Any commands within the limits, any part of their encoding delivered, in any chunks: they are
      dispatched in order up to the first that asks to close, and only an incomplete frame is kept. */
  lemma CommandsInOrder(cmds: seq<Args>, chunks: seq<Bytes>, stops: Stops) returns (j: nat)
    requires AllWithin(cmds) && Concat(chunks) <= EncodeAll(cmds)
    ensures Dispatched(cmds, Concat(chunks), [], stops, Feed(START, chunks, stops), j)
  {
    j := DrainEncoded(cmds, Concat(chunks), [], stops);
    hide Encode;
    hide EncodeAll;
    hide Drain;
    ChunkingInvisibleIff(Concat(chunks), stops);
  }

  // ---- The parser and the connection as code ----

  /** What a frame is once `out`, taking `n` bytes, has been parsed before it. */
  function After(out: Args, n: nat, f: Frame): Frame
  {
    if f.Done? then Done(out + f.args, n + f.used) else f
  }

  method ReadHead(t: Bytes, mark: Byte, max: nat) returns (h: Head)
    requires mark != CR
    ensures h == ParseHead(t, mark, max)
  {
    if |t| == 0 {
      return HeadNeed;
    }
    if t[0] != mark {
      return HeadBad;
    }
    var nl := IndexCRLF(t);
    if nl < 0 {
      if |t| > MAX_HEADER_LINE {
        return HeadBad;
      }
      return HeadNeed;
    }
    var v := Atoi(t[1..nl]);
    if v.None? || v.value < 0 || v.value > max {
      return HeadBad;
    }
    h := HeadGot(v.value, nl + 2);
  }

  /** One argument, from position `i`. */
  method ReadBulk(b: Bytes, i: nat) returns (o: One)
    requires i <= |b|
    ensures o == ParseBulk(b[i..])
  {
    hide ParseHead;
    var g := ReadHead(b[i..], DOLLAR, MAX_BULK);
    if g.HeadNeed? {
      return OneNeed;
    }
    if g.HeadBad? {
      return OneBad;
    }
    var j := i + g.len;
    if j + g.n + 2 > |b| {
      return OneNeed;
    }
    SubSlices(b, i, g.len, g.n);
    EndsWithCRLF(b, j + g.n);
    if b[j + g.n] != CR || b[j + g.n + 1] != LF {
      return OneBad;
    }
    o := OneDone(b[j..j + g.n], g.len + g.n + 2);
  }

  /** `c` arguments, from position `start`, by advancing an index. */
  method ReadBulks(b: Bytes, start: nat, c: nat) returns (f: Frame)
    requires start <= |b|
    ensures f == ParseBulks(b[start..], c)
  {
    hide ParseBulk;
    hide ParseBulks;
    var i, out, e := start, [], 0;
    AfterNone(ParseBulks(b[start..], c));
    while e < c
      invariant start <= i <= |b| && e <= c
      invariant ParseBulks(b[start..], c) == After(out, i - start, ParseBulks(b[i..], c - e))
    {
      var o := ReadBulk(b, i);
      BulksStep(b[i..], c - e);
      if o.OneNeed? {
        return Need;
      }
      if o.OneBad? {
        return Bad;
      }
      AfterOne(b[i..], c - e, out, i - start);
      DropTwice(b, i, o.used);
      out := out + [o.arg];
      i := i + o.used;
      e := e + 1;
    }
    BulksNone(b[i..]);
    assert out + [] == out;
    f := Done(out, i - start);
  }

  lemma BulksStep(t: Bytes, c: nat)
    requires c > 0
    ensures ParseBulk(t).OneNeed? ==> ParseBulks(t, c) == Need
    ensures ParseBulk(t).OneBad? ==> ParseBulks(t, c) == Bad
  {
    hide ParseBulk;
  }

  lemma BulksNone(t: Bytes)
    ensures ParseBulks(t, 0) == Done([], 0)
  {
  }

  lemma AfterNone(f: Frame)
    ensures After([], 0, f) == f
  {
    if f.Done? {
      assert [] + f.args == f.args;
    }
  }

  /** One frame. */
  method ParseCommand(b: Bytes) returns (f: Frame)
    ensures f == Parse(b)
  {
    hide ParseHead;
    hide ParseBulks;
    var h := ReadHead(b, STAR, MAX_MULTIBULK);
    if h.HeadNeed? {
      return Need;
    }
    if h.HeadBad? {
      return Bad;
    }
    f := ReadBulks(b, h.len, h.n);
    if f.Done? {
      f := Done(f.args, h.len + f.used);
    }
  }

  lemma EndsWithCRLF(b: Bytes, j: nat)
    requires j + 2 <= |b|
    ensures b[j..j + 2] == CRLF <==> b[j] == CR && b[j + 1] == LF
  {
    assert b[j..j + 2] == [b[j], b[j + 1]];
  }

  lemma SubSlices(b: Bytes, i: nat, l: nat, n: nat)
    requires i + l + n + 2 <= |b|
    ensures b[i..][l..l + n] == b[i + l..i + l + n]
    ensures b[i..][l + n..l + n + 2] == b[i + l + n..i + l + n + 2]
  {
  }

  lemma AfterOne(t: Bytes, c: nat, out: Args, n: nat)
    requires c > 0 && ParseBulk(t).OneDone?
    ensures var o := ParseBulk(t);
      After(out, n, ParseBulks(t, c)) == After(out + [o.arg], n + o.used, ParseBulks(t[o.used..], c - 1))
  {
    hide ParseBulk;
    var o := ParseBulk(t);
    var f := ParseBulks(t[o.used..], c - 1);
    if f.Done? {
      assert out + ([o.arg] + f.args) == out + [o.arg] + f.args;
    }
  }

  /** A connection on the event loop. */
  class EvConn {
    var buf: Bytes
    var log: seq<Args>
    var closed: bool
    const stops: Stops

    constructor (stops: Stops)
      ensures View() == START && this.stops == stops
    {
      buf, log, closed := [], [], false;
      this.stops := stops;
    }

    function View(): Conn
      reads this
    {
      Conn(buf, log, closed)
    }

    /** Parse and dispatch every complete command, then discard the bytes consumed. */
    method Traffic(chunk: Bytes)
      requires !closed
      modifies this
      ensures View() == OnTraffic(old(View()), chunk, stops)
    {
      hide Parse;
      var data, consumed, stop := buf + chunk, 0, false;
      var entry := log;
      while true
        invariant 0 <= consumed <= |data|
        invariant Drain(data, entry, stops) == Drain(data[consumed..], log, stops)
        decreases |data| - consumed
      {
        var f := ParseCommand(data[consumed..]);
        if f.Bad? {
          stop := true;
          break;
        }
        if f.Need? {
          break;
        }
        DropTwice(data, consumed, f.used);
        consumed := consumed + f.used;
        log := log + [f.args];
        if stops(log) {
          stop := true;
          break;
        }
      }
      buf := data[consumed..];
      closed := stop;
    }
  }
}
