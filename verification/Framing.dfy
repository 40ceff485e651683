/** Octets and the 16-bit big-endian numbers of section 4.1.1 of RFC 1035. */
module Bytes {
  type byte = x: int | 0 <= x < 256

  const HEADER_LENGTH: nat := 12  // DNS_HEADER_LENGTH

  function U16(s: seq<byte>): (n: nat)
    requires |s| >= 2
    ensures n < 65536
  {
    s[0] as int * 256 + s[1] as int
  }

  function PutU16(n: nat): (s: seq<byte>)
    requires n < 65536
    ensures |s| == 2 && U16(s) == n
  {
    [n / 256, n % 256]
  }
}

/** Length-prefixed DNS messages on a byte stream (section 4.2.2 of RFC 1035), and what one
    TCP connection delivers when the stream arrives in arbitrary pieces. */
module Framing {
  import opened Bytes

  type Message = seq<byte>

  const READ_SIZE: nat := 4096      // DNS_REQUEST_BUFFER_SIZE
  const MAX_BUFFERED: nat := 65533  // TCP_DNS_MAX_PAYLOAD
  const SAFE_PAYLOAD: nat := 61436  // MAX_BUFFERED - READ_SIZE - 1
  const MAX_DELIVERED: nat := 65531 // MAX_BUFFERED - 2
  const MAX_UNWRAPPED: nat := 65279 // largest declared length whose high byte is not 0xFF

  ghost predicate Encodable(ms: seq<Message>) {
    forall i :: 0 <= i < |ms| ==> |ms[i]| < 65536
  }

  function Frame(m: Message): seq<byte>
    requires |m| < 65536
  {
    PutU16(|m|) + m
  }

  /** A frame is the length in network order, then the message. */
  lemma FrameBytes(m: Message)
    requires |m| < 65536
    ensures |Frame(m)| == |m| + 2 && Frame(m)[0] as int * 256 + Frame(m)[1] as int == |m| && Frame(m)[2..] == m
  {
    assert Frame(m)[..2] == PutU16(|m|);
  }

  ghost function Frames(ms: seq<Message>): seq<byte>
    requires Encodable(ms)
  {
    if ms == [] then [] else Frame(ms[0]) + Frames(ms[1..])
  }

  /** The stream starts with a whole frame. */
  predicate Complete(s: seq<byte>) {
    |s| >= 2 && |s| >= 2 + U16(s)
  }

  function Payload(s: seq<byte>): (m: Message)
    requires Complete(s)
    ensures |m| == U16(s)
  {
    s[2..2 + U16(s)]
  }

  function Rest(s: seq<byte>): (r: seq<byte>)
    requires Complete(s)
    ensures |r| < |s|
  {
    s[2 + U16(s)..]
  }

  /** The requests at the front of a stream, and what remains: either an unfinished frame, or a
      frame too short to be a DNS message, where the connection ends. */
  datatype Split = Split(requests: seq<Message>, rest: seq<byte>)

  predicate Blocked(rest: seq<byte>) {
    Complete(rest) && U16(rest) < HEADER_LENGTH
  }

  /** The one-shot parse of a whole stream. */
  function Parse(s: seq<byte>): Split
    decreases |s|
  {
    if !Complete(s) || U16(s) < HEADER_LENGTH then
      Split([], s)
    else
      var p := Parse(Rest(s));
      Split([Payload(s)] + p.requests, p.rest)
  }

  /** What being the parse of `s` means, without saying how to compute it. */
  ghost predicate IsSplit(s: seq<byte>, p: Split) {
    && Encodable(p.requests)
    && s == Frames(p.requests) + p.rest
    && (forall i :: 0 <= i < |p.requests| ==> |p.requests[i]| >= HEADER_LENGTH)
    && (Complete(p.rest) ==> Blocked(p.rest))
  }

  lemma FramesCons(m: Message, ms: seq<Message>)
    requires Encodable(ms) && |m| < 65536
    ensures Encodable([m] + ms) && Frames([m] + ms) == Frame(m) + Frames(ms)
  {
    assert ([m] + ms)[1..] == ms;
  }

  lemma {:induction false} FramesConcat(a: seq<Message>, b: seq<Message>)
    requires Encodable(a) && Encodable(b)
    ensures Encodable(a + b)
    ensures Frames(a + b) == Frames(a) + Frames(b)
  {
    if a == [] {
      assert a + b == b;
    } else {
      FramesConcat(a[1..], b);
      FramesCons(a[0], a[1..]);
      FramesCons(a[0], a[1..] + b);
      assert a == [a[0]] + a[1..] && a + b == [a[0]] + (a[1..] + b);
      var x, y, z := Frame(a[0]), Frames(a[1..]), Frames(b);
      assert x + (y + z) == (x + y) + z;
    }
  }

  lemma FrameThenRest(m: Message, r: seq<byte>)
    requires |m| < 65536
    ensures Complete(Frame(m) + r)
    ensures Payload(Frame(m) + r) == m && Rest(Frame(m) + r) == r
  {
    var s := Frame(m) + r;
    assert U16(s) == U16(PutU16(|m|));
    assert s[2..] == m + r;
    assert Payload(s) == s[2..][..|m|];
    assert Rest(s) == s[2..][|m|..];
  }

  lemma FrontFrame(s: seq<byte>)
    requires Complete(s)
    ensures s == Frame(Payload(s)) + Rest(s)
  {
    assert PutU16(U16(s)) == s[..2];
    assert s == s[..2] + Payload(s) + Rest(s);
  }

  lemma PrependToSplit(s: seq<byte>, p: Split)
    requires Complete(s) && U16(s) >= HEADER_LENGTH && IsSplit(Rest(s), p)
    ensures IsSplit(s, Split([Payload(s)] + p.requests, p.rest))
  {
    FrontFrame(s);
    FramesCons(Payload(s), p.requests);
    var x, y := Frame(Payload(s)), Frames(p.requests);
    assert s == x + (y + p.rest) == (x + y) + p.rest;
  }

  lemma {:induction false} ParseIsSplit(s: seq<byte>)
    ensures IsSplit(s, Parse(s))
    decreases |s|
  {
    if !Complete(s) || U16(s) < HEADER_LENGTH {
    } else {
      ParseIsSplit(Rest(s));
      PrependToSplit(s, Parse(Rest(s)));
    }
  }

  lemma {:induction false} SplitIsParse(s: seq<byte>, p: Split)
    requires IsSplit(s, p)
    ensures p == Parse(s)
    decreases |p.requests|
  {
    if p.requests == [] {
      assert s == p.rest;
    } else {
      var tail := Frames(p.requests[1..]) + p.rest;
      assert s == Frame(p.requests[0]) + tail;
      FrameThenRest(p.requests[0], tail);
      SplitIsParse(tail, Split(p.requests[1..], p.rest));
    }
  }

  /** Parsing finds the one decomposition of the stream into frames. */
  lemma ParseExact(s: seq<byte>, p: Split)
    ensures p == Parse(s) <==> IsSplit(s, p)
  {
    ParseIsSplit(s);
    if IsSplit(s, p) {
      SplitIsParse(s, p);
    }
  }

  /** Splitting gives back the messages that framing put on the wire. */
  lemma RoundTrip(ms: seq<Message>)
    requires forall i :: 0 <= i < |ms| ==> HEADER_LENGTH <= |ms[i]| < 65536
    ensures Parse(Frames(ms)) == Split(ms, [])
  {
    assert Frames(ms) == Frames(ms) + [];
    SplitIsParse(Frames(ms), Split(ms, []));
  }

  lemma AppendToBlocked(a: seq<byte>, b: seq<byte>, p: Split)
    requires IsSplit(a, p) && Blocked(p.rest)
    ensures IsSplit(a + b, Split(p.requests, p.rest + b)) && Blocked(p.rest + b)
  {
    assert (p.rest + b)[..2] == p.rest[..2];
    assert a + b == Frames(p.requests) + (p.rest + b);
  }

  lemma Regroup(a: seq<byte>, x: seq<byte>, r: seq<byte>, b: seq<byte>, y: seq<byte>, q: seq<byte>)
    requires a == x + r && r + b == y + q
    ensures a + b == (x + y) + q
  {
    assert a + b == x + (r + b);
    assert x + (y + q) == (x + y) + q;
  }

  lemma AppendToOpen(a: seq<byte>, b: seq<byte>, p: Split, q: Split)
    requires IsSplit(a, p) && IsSplit(p.rest + b, q)
    ensures IsSplit(a + b, Split(p.requests + q.requests, q.rest))
  {
    FramesConcat(p.requests, q.requests);
    Regroup(a, Frames(p.requests), p.rest, b, Frames(q.requests), q.rest);
  }

  /** Parsing what is left of `a` followed by `b` continues the parse of `a`. */
  lemma ParseAppend(a: seq<byte>, b: seq<byte>, p: Split, q: Split)
    requires p == Parse(a) && q == Parse(p.rest + b)
    ensures Blocked(p.rest) ==> Parse(a + b) == Split(p.requests, p.rest + b) && Blocked(p.rest + b)
    ensures !Blocked(p.rest) ==> Parse(a + b) == Split(p.requests + q.requests, q.rest)
  {
    ParseIsSplit(a);
    if Blocked(p.rest) {
      AppendToBlocked(a, b, p);
      SplitIsParse(a + b, Split(p.requests, p.rest + b));
    } else {
      ParseIsSplit(p.rest + b);
      AppendToOpen(a, b, p, q);
      SplitIsParse(a + b, Split(p.requests + q.requests, q.rest));
    }
  }

  // ---- The 16-bit sum ----

  /** A declared length plus two, in 16 bits. */
  function DataSize(n: nat): (d: nat)
    requires n < 65536
    ensures d == if n < 65534 then n + 2 else n - 65534
  {
    (2 + n) % 65536
  }

  /** With these bytes in use, and `stale` behind a lone one, the declared length plus two exceeds
      16 bits and comes out as 0 or 1. */
  predicate LookWraps(s: seq<byte>, stale: byte) {
    if |s| >= 2 then U16(s) >= 65534 else |s| == 1 && s[0] == 255 && stale >= 254
  }

  /** The byte behind a lone last byte once the whole requests are off: from the last header taken. */
  function StaleAfter(s: seq<byte>, stale: byte): byte
    decreases |s|
  {
    if Complete(s) && U16(s) >= HEADER_LENGTH then StaleAfter(Rest(s), s[1]) else stale
  }

  /** The last look at these bytes, the one that ends the splitting, does not wrap. */
  predicate WrapFree(s: seq<byte>, stale: byte) {
    !LookWraps(Parse(s).rest, StaleAfter(s, stale))
  }

  lemma SplitOff(s: seq<byte>, stale: byte)
    ensures Complete(s) && U16(s) >= HEADER_LENGTH ==>
              && Parse(s) == Split([Payload(s)] + Parse(Rest(s)).requests, Parse(Rest(s)).rest)
              && StaleAfter(s, stale) == StaleAfter(Rest(s), s[1])
    ensures !(Complete(s) && U16(s) >= HEADER_LENGTH) ==> Parse(s) == Split([], s) && StaleAfter(s, stale) == stale
  {
  }

  /** `taken` has been split off the front of `all`; `t` is left, with `stale` behind a lone byte. */
  ghost predicate SplitSoFar(all: seq<byte>, stale0: byte, taken: seq<Message>, t: seq<byte>, stale: byte) {
    && Parse(all) == Split(taken + Parse(t).requests, Parse(t).rest)
    && StaleAfter(all, stale0) == StaleAfter(t, stale)
  }

  lemma SplitStart(all: seq<byte>, stale: byte)
    ensures SplitSoFar(all, stale, [], all, stale)
  {
    assert [] + Parse(all).requests == Parse(all).requests;
  }

  lemma SplitNext(all: seq<byte>, stale0: byte, taken: seq<Message>, t: seq<byte>, stale: byte)
    requires SplitSoFar(all, stale0, taken, t, stale) && Complete(t) && U16(t) >= HEADER_LENGTH
    ensures SplitSoFar(all, stale0, taken + [Payload(t)], Rest(t), t[1])
  {
    var more := Parse(Rest(t)).requests;
    assert taken + ([Payload(t)] + more) == taken + [Payload(t)] + more;
  }

  lemma SplitEnd(all: seq<byte>, stale0: byte, taken: seq<Message>, t: seq<byte>, stale: byte)
    requires SplitSoFar(all, stale0, taken, t, stale) && !(Complete(t) && U16(t) >= HEADER_LENGTH)
    ensures Parse(all) == Split(taken, t) && (WrapFree(all, stale0) <==> !LookWraps(t, stale))
  {
    assert taken + [] == taken;
  }

  lemma StaleRarelyMatters(s: seq<byte>, a: byte, b: byte)
    requires |s| >= 2
    ensures WrapFree(s, a) == WrapFree(s, b)
  {
  }

  // ---- One connection ----

  datatype Status = Open | Malformed | Oversized

  /** A connection: the requests handed on so far, the bytes kept, and whether it still lives. */
  datatype Conn = Conn(delivered: seq<Message>, tail: seq<byte>, status: Status)

  const FRESH := Conn([], [], Open)

  /** One successful read. */
  function ReadStep(c: Conn, chunk: seq<byte>): Conn {
    if c.status != Open then c
    else if |c.tail| + |chunk| > MAX_BUFFERED then c.(status := Oversized)
    else
      var p := Parse(c.tail + chunk);
      Conn(c.delivered + p.requests, p.rest, if Blocked(p.rest) then Malformed else Open)
  }

  ghost function ReadAll(chunks: seq<seq<byte>>): Conn {
    if chunks == [] then FRESH
    else ReadStep(ReadAll(chunks[..|chunks| - 1]), chunks[|chunks| - 1])
  }

  ghost function Flatten(chunks: seq<seq<byte>>): seq<byte> {
    if chunks == [] then []
    else Flatten(chunks[..|chunks| - 1]) + chunks[|chunks| - 1]
  }

  /** The pieces that successive reads can return. */
  ghost predicate LegalReads(chunks: seq<seq<byte>>) {
    forall i :: 0 <= i < |chunks| ==> 1 <= |chunks[i]| <= READ_SIZE
  }

  /** No length the splitter looks at can exceed `n`; of a lone first octet, the high byte counts. */
  predicate LengthsAtMost(s: seq<byte>, n: nat)
    decreases |s|
  {
    if s == [] then true
    else if |s| == 1 then s[0] as int * 256 <= n
    else U16(s) <= n && (Complete(s) && U16(s) >= HEADER_LENGTH ==> LengthsAtMost(Rest(s), n))
  }

  lemma {:induction false} LengthsOfPrefix(a: seq<byte>, b: seq<byte>, n: nat)
    requires LengthsAtMost(a + b, n)
    ensures LengthsAtMost(a, n)
    decreases |a|
  {
    if |a| < 2 {
    } else {
      assert (a + b)[..2] == a[..2];
      if Complete(a) && U16(a) >= HEADER_LENGTH {
        assert Rest(a + b) == Rest(a) + b;
        LengthsOfPrefix(Rest(a), b, n);
      }
    }
  }

  /** What is kept of a stream, with the next piece behind it, declares no longer lengths. */
  lemma {:induction false} LeftoverLengths(s: seq<byte>, more: seq<byte>, n: nat)
    requires LengthsAtMost(s + more, n) && !Blocked(Parse(s).rest)
    ensures LengthsAtMost(Parse(s).rest + more, n)
    decreases |s|
  {
    if !Complete(s) || U16(s) < HEADER_LENGTH {
    } else {
      assert (s + more)[..2] == s[..2];
      assert Rest(s + more) == Rest(s) + more;
      LeftoverLengths(Rest(s), more, n);
    }
  }

  /** Declared lengths without a high byte of 0xFF never wrap. */
  lemma {:induction false} BoundedIsWrapFree(s: seq<byte>, stale: byte)
    requires LengthsAtMost(s, MAX_UNWRAPPED)
    ensures WrapFree(s, stale)
    decreases |s|
  {
    if !Complete(s) || U16(s) < HEADER_LENGTH {
    } else {
      BoundedIsWrapFree(Rest(s), s[1]);
    }
  }

  lemma {:induction false} LengthsMonotone(s: seq<byte>, m: nat, n: nat)
    requires LengthsAtMost(s, m) && m <= n
    ensures LengthsAtMost(s, n)
    decreases |s|
  {
    if !Complete(s) || U16(s) < HEADER_LENGTH {
    } else {
      LengthsMonotone(Rest(s), m, n);
    }
  }

  lemma {:induction false} UnfinishedIsShort(s: seq<byte>, n: nat)
    requires LengthsAtMost(s, n) && !Blocked(Parse(s).rest)
    ensures |Parse(s).rest| <= n + 1
    decreases |s|
  {
    if !Complete(s) || U16(s) < HEADER_LENGTH {
    } else {
      UnfinishedIsShort(Rest(s), n);
    }
  }

  /** Chunking does not matter: whatever the cut, a connection whose declared lengths stay within
      61436 delivers the one-shot parse of its stream, keeps exactly the unparsed tail, is never
      dropped for size, and is removed exactly when the parse stops at a message under 12 bytes. */
  lemma {:induction false} ChunkingDoesNotMatter(chunks: seq<seq<byte>>)
    requires LegalReads(chunks)
    requires LengthsAtMost(Flatten(chunks), SAFE_PAYLOAD)
    ensures var c, p := ReadAll(chunks), Parse(Flatten(chunks));
            && c.delivered == p.requests
            && c.status == (if Blocked(p.rest) then Malformed else Open)
            && (c.status == Open ==> c.tail == p.rest)
    decreases |chunks|
  {
    if chunks == [] {
    } else {
      var init, last := chunks[..|chunks| - 1], chunks[|chunks| - 1];
      var s := Flatten(init);
      LengthsOfPrefix(s, last, SAFE_PAYLOAD);
      ChunkingDoesNotMatter(init);
      ParseAppend(s, last, Parse(s), Parse(Parse(s).rest + last));
      if !Blocked(Parse(s).rest) {
        UnfinishedIsShort(s, SAFE_PAYLOAD);
        assert |last| <= READ_SIZE;
      }
    }
  }

  lemma {:induction false} FramedLengths(ms: seq<Message>)
    requires forall i :: 0 <= i < |ms| ==> HEADER_LENGTH <= |ms[i]| <= SAFE_PAYLOAD
    ensures LengthsAtMost(Frames(ms), SAFE_PAYLOAD)
  {
    if ms == [] {
    } else {
      FramedLengths(ms[1..]);
      FrameThenRest(ms[0], Frames(ms[1..]));
    }
  }

  /** Messages of 12 to 61436 bytes survive framing and any cut of the stream. */
  lemma ChunkedRoundTrip(ms: seq<Message>, chunks: seq<seq<byte>>)
    requires forall i :: 0 <= i < |ms| ==> HEADER_LENGTH <= |ms[i]| <= SAFE_PAYLOAD
    requires LegalReads(chunks) && Flatten(chunks) == Frames(ms)
    ensures ReadAll(chunks) == Conn(ms, [], Open)
  {
    FramedLengths(ms);
    RoundTrip(ms);
    ChunkingDoesNotMatter(chunks);
  }

  // ---- The threshold is tight ----

  lemma {:induction false} FlattenConcat(a: seq<seq<byte>>, b: seq<seq<byte>>)
    ensures Flatten(a + b) == Flatten(a) + Flatten(b)
    decreases |b|
  {
    if b == [] {
      assert a + b == a;
    } else {
      var init, last := b[..|b| - 1], b[|b| - 1];
      FlattenConcat(a, init);
      assert (a + b)[..|a + b| - 1] == a + init;
      assert Flatten(a) + (Flatten(init) + last) == Flatten(a) + Flatten(init) + last;
    }
  }

  lemma FlattenOne(chunk: seq<byte>)
    ensures Flatten([chunk]) == chunk
  {
    assert Flatten([chunk]) == Flatten([chunk][..0]) + chunk;
  }

  /** Reads of the largest size, the last one possibly shorter. */
  ghost function Cut(s: seq<byte>): (chunks: seq<seq<byte>>)
    ensures LegalReads(chunks)
    decreases |s|
  {
    if s == [] then []
    else if |s| <= READ_SIZE then [s]
    else Cut(s[..|s| - READ_SIZE]) + [s[|s| - READ_SIZE..]]
  }

  lemma {:induction false} FlattenCut(s: seq<byte>)
    ensures Flatten(Cut(s)) == s
    decreases |s|
  {
    if s == [] {
    } else if |s| <= READ_SIZE {
      FlattenOne(s);
    } else {
      FlattenCut(s[..|s| - READ_SIZE]);
    }
  }

  /** As long as one frame is unfinished, its bytes are kept and nothing is delivered. */
  lemma {:induction false} UnfinishedFrameIsKept(m: Message, more: seq<byte>, chunks: seq<seq<byte>>)
    requires HEADER_LENGTH <= |m| <= MAX_DELIVERED
    requires Flatten(chunks) <= Frame(m) + more && |Flatten(chunks)| < |m| + 2
    ensures ReadAll(chunks) == Conn([], Flatten(chunks), Open)
    decreases |chunks|
  {
    if chunks == [] {
    } else {
      var s := Flatten(chunks);
      UnfinishedFrameIsKept(m, more, chunks[..|chunks| - 1]);
      FrameThenRest(m, more);
      if |s| >= 2 {
        assert s[..2] == (Frame(m) + more)[..2];
      }
      assert !Complete(s);
    }
  }

  /** Once a first message is out, further reads only add to what was delivered. */
  lemma {:induction false} DeliveredGrows(a: seq<seq<byte>>, b: seq<seq<byte>>)
    ensures ReadAll(a).delivered <= ReadAll(a + b).delivered
    ensures ReadAll(a).status != Open ==> ReadAll(a + b) == ReadAll(a)
    decreases |b|
  {
    if b == [] {
      assert a + b == a;
    } else {
      DeliveredGrows(a, b[..|b| - 1]);
      assert (a + b)[..|a + b| - 1] == a + b[..|b| - 1];
    }
  }

  /** The read that finishes the frame either delivers its message or drops the client. */
  lemma FinishingRead(m: Message, more: seq<byte>, chunks: seq<seq<byte>>, last: seq<byte>)
    requires HEADER_LENGTH <= |m| <= MAX_DELIVERED
    requires Flatten(chunks) + last <= Frame(m) + more
    requires |Flatten(chunks)| < |m| + 2 <= |Flatten(chunks) + last|
    ensures var c := ReadAll(chunks + [last]);
            if |Flatten(chunks) + last| > MAX_BUFFERED then c.delivered == [] && c.status == Oversized
            else c.delivered != [] && c.delivered[0] == m
  {
    var s := Flatten(chunks) + last;
    assert Flatten(chunks) <= s;
    UnfinishedFrameIsKept(m, more, chunks);
    assert (chunks + [last])[..|chunks|] == chunks;
    FrameThenRest(m, more);
    assert s[..2] == (Frame(m) + more)[..2];
    assert Payload(s) == Payload(Frame(m) + more);
  }

  ghost predicate DeliversFirst(m: Message, chunks: seq<seq<byte>>) {
    var d := ReadAll(chunks).delivered;
    d != [] && d[0] == m
  }

  /** A payload of at most 61436 bytes gets through however it is cut ... */
  lemma {:induction false} AlwaysDelivered(m: Message, more: seq<byte>, chunks: seq<seq<byte>>)
    requires HEADER_LENGTH <= |m| <= SAFE_PAYLOAD
    requires LegalReads(chunks) && Flatten(chunks) <= Frame(m) + more && |Flatten(chunks)| >= |m| + 2
    ensures DeliversFirst(m, chunks)
    decreases |chunks|
  {
    var init, last := chunks[..|chunks| - 1], chunks[|chunks| - 1];
    assert chunks == init + [last];
    if |Flatten(init)| < |m| + 2 {
      FinishingRead(m, more, init, last);
    } else {
      assert Flatten(init) <= Flatten(chunks);
      AlwaysDelivered(m, more, init);
      DeliveredGrows(init, [last]);
    }
  }

  lemma CutAround(head: seq<byte>, mid: seq<byte>, more: seq<byte>) returns (chunks: seq<seq<byte>>)
    requires 1 <= |mid| <= READ_SIZE
    ensures LegalReads(chunks) && Flatten(chunks) == head + mid + more
    ensures ReadAll(Cut(head) + [mid]).delivered <= ReadAll(chunks).delivered
    ensures ReadAll(Cut(head) + [mid]).status != Open ==> ReadAll(chunks) == ReadAll(Cut(head) + [mid])
    ensures Flatten(Cut(head)) == head
  {
    var a, b := Cut(head) + [mid], Cut(more);
    chunks := a + b;
    DeliveredGrows(a, b);
    FlattenCut(head);
    assert Flatten(chunks) == head + mid + more by {
      FlattenOne(mid);
      FlattenCut(more);
      FlattenConcat(Cut(head), [mid]);
      FlattenConcat(a, b);
    }
  }

  /** ... and a larger one gets through or not, depending on the cut alone. */
  lemma TwoCuts(m: Message, more: seq<byte>) returns (good: seq<seq<byte>>, bad: seq<seq<byte>>)
    requires SAFE_PAYLOAD < |m| <= MAX_DELIVERED && |more| >= READ_SIZE - 1
    ensures LegalReads(good) && Flatten(good) == Frame(m) + more && DeliversFirst(m, good)
    ensures LegalReads(bad) && Flatten(bad) == Frame(m) + more
    ensures ReadAll(bad).delivered == [] && ReadAll(bad).status == Oversized
  {
    var head, last := Frame(m)[..|m| + 1], Frame(m)[|m| + 1..];
    var extra, later := more[..READ_SIZE - 1], more[READ_SIZE - 1..];
    good := CutAround(head, last, more);
    assert head + last == Frame(m);
    FinishingRead(m, more, Cut(head), last);
    bad := CutAround(head, last + extra, later);
    assert head + (last + extra) + later == Frame(m) + more;
    FinishingRead(m, more, Cut(head), last + extra);
  }

  /** 61436 is exactly the payload size up to which the cut of the stream makes no difference. */
  lemma ThresholdIsTight(m: Message, more: seq<byte>)
    requires HEADER_LENGTH <= |m| <= MAX_DELIVERED && |more| >= READ_SIZE - 1
    ensures (forall chunks :: LegalReads(chunks) && Flatten(chunks) == Frame(m) + more ==> DeliversFirst(m, chunks))
            <==> |m| <= SAFE_PAYLOAD
  {
    if |m| <= SAFE_PAYLOAD {
      forall chunks | LegalReads(chunks) && Flatten(chunks) == Frame(m) + more
        ensures DeliversFirst(m, chunks)
      {
        AlwaysDelivered(m, more, chunks);
      }
    } else {
      var good, bad := TwoCuts(m, more);
      assert !DeliversFirst(m, bad);
    }
  }
}
