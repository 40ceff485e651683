/** UDP responses: the size a requester accepts, and cutting a response down to it. */
module Truncation {
  import opened Bytes

  const SIZE_LIMIT: nat := 512    // DNS_SIZE_LIMIT
  const GUARD: nat := 255         // UINT8_MAX

  /** A resource record as the library writes it behind the records before it. Compression only
      points backwards, so deleting records from the end leaves the others' bytes alone. */
  datatype Rr = Rr(isOpt: bool, udpSize: nat, wire: seq<byte>)

  datatype DnsRecord = DnsRecord(id: nat, flags1: byte, flags2: byte, questions: nat, question: seq<byte>,
                                 answers: seq<Rr>, authority: seq<Rr>, additional: seq<Rr>)

  datatype Parsed = ParseFailed | Record(rec: DnsRecord)

  /** What the library's parser can return. */
  ghost predicate WellFormed(r: DnsRecord) {
    && r.id < 65536 && r.questions < 65536
    && |r.answers| < 65536 && |r.authority| < 65536 && |r.additional| < 65536
    && (forall i :: 0 <= i < |r.answers| ==> r.answers[i].wire != [])
    && (forall i :: 0 <= i < |r.additional| ==> r.additional[i].udpSize < 65536)
  }

  function Wire(rrs: seq<Rr>): seq<byte> {
    if rrs == [] then [] else Wire(rrs[..|rrs| - 1]) + rrs[|rrs| - 1].wire
  }

  /** The library's writer: header, question and the three sections. */
  function Write(r: DnsRecord): seq<byte>
    requires WellFormed(r)
  {
    PutU16(r.id) + [r.flags1, r.flags2]
    + PutU16(r.questions) + PutU16(|r.answers|) + PutU16(|r.authority|) + PutU16(|r.additional|)
    + r.question + Wire(r.answers) + Wire(r.authority) + Wire(r.additional)
  }

  /** Bit 0x02 is set and the other seven are as they were. */
  function SetTc(b: byte): (r: byte)
    ensures r / 2 % 2 == 1 && r % 2 == b % 2 && r / 4 == b / 4
  {
    if b / 2 % 2 == 1 then b else b + 2
  }

  function WithTc(s: seq<byte>): seq<byte>
    requires |s| >= 3
  {
    s[2 := SetTc(s[2])]
  }

  /** The record with its first `k` answers and nothing behind them. */
  function Keep(r: DnsRecord, k: nat): DnsRecord
    requires k <= |r.answers|
  {
    r.(answers := r.answers[..k], authority := [], additional := [])
  }

  ghost function Size(r: DnsRecord, k: nat): nat
    requires k <= |r.answers|
  {
    HEADER_LENGTH + |r.question| + |Wire(r.answers[..k])|
  }

  lemma SizeIsLength(r: DnsRecord, k: nat)
    requires WellFormed(r) && k <= |r.answers|
    ensures WellFormed(Keep(r, k)) && |Write(Keep(r, k))| == Size(r, k)
    ensures U16(Write(Keep(r, k))) == r.id
  {
    assert Wire(Keep(r, k).authority) == [] && Wire(Keep(r, k).additional) == [];
    assert Write(Keep(r, k))[..2] == PutU16(r.id);
  }

  lemma {:induction false} SizeGrows(r: DnsRecord, j: nat, k: nat)
    requires j <= k <= |r.answers|
    ensures Size(r, j) <= Size(r, k)
    decreases k
  {
    if j == k {
    } else {
      SizeGrows(r, j, k - 1);
      assert r.answers[..k][..k - 1] == r.answers[..k - 1];
    }
  }

  ghost predicate Fits(r: DnsRecord, k: nat, limit: nat) {
    k <= |r.answers| && Size(r, k) < limit
  }

  // ---- The counts that are tried ----

  ghost function Log2(k: nat): nat {
    if k <= 1 then 0 else 1 + Log2(k / 2)
  }

  ghost function Halvings(k: nat): (s: seq<nat>)
    ensures |s| == if k == 0 then 1 else Log2(k) + 2
    ensures s[0] == k && s[|s| - 1] == 0
  {
    if k == 0 then [0] else [k] + Halvings(k / 2)
  }

  lemma {:induction false} HalvingsStep(k: nat, j: nat)
    requires j + 1 < |Halvings(k)|
    ensures 0 < Halvings(k)[j] <= k && Halvings(k)[j + 1] == Halvings(k)[j] / 2
  {
    if j == 0 {
    } else {
      HalvingsStep(k / 2, j - 1);
    }
  }

  /** The proportional first guess: as many of `n` answers as the room behind the header holds when each
      takes an equal share of the old size, and at least one. */
  ghost predicate FirstGuess(n: nat, limit: nat, oldSize: nat, k0: nat)
    requires limit >= HEADER_LENGTH
  {
    if (limit - HEADER_LENGTH) * n < oldSize then k0 == 1
    else k0 * oldSize <= (limit - HEADER_LENGTH) * n < (k0 + 1) * oldSize
  }

  function Estimate(n: nat, limit: nat, oldSize: nat): (k0: nat)
    requires limit >= HEADER_LENGTH && oldSize > 0
    ensures FirstGuess(n, limit, oldSize, k0)
  {
    var room := (limit - HEADER_LENGTH) * n;
    var e := room / oldSize;
    assert e * oldSize <= room < (e + 1) * oldSize by {
      assert room == e * oldSize + room % oldSize;
    }
    if e > 0 then e else 1
  }

  /** All answers first, then the first guess and its halvings down to none. */
  ghost function Tries(n: nat, k0: nat): (s: seq<nat>) {
    [n] + Halvings(k0)
  }

  lemma ScaleBy(d: nat, a: nat, b: nat)
    requires a <= b
    ensures d * a <= d * b
  {
  }

  lemma GuessNotBelow(n: nat, limit: nat, oldSize: nat, a: nat, b: nat)
    requires HEADER_LENGTH <= limit && oldSize > 0
    requires FirstGuess(n, limit, oldSize, a) && FirstGuess(n, limit, oldSize, b)
    ensures a >= b
  {
    if a < b {
      ScaleBy(oldSize, a + 1, b);
    }
  }

  /** The inequalities determine the guess, which lies between one and the number of answers. */
  lemma GuessUnique(n: nat, limit: nat, oldSize: nat, a: nat, b: nat)
    requires HEADER_LENGTH <= limit && oldSize > 0
    requires FirstGuess(n, limit, oldSize, a) && FirstGuess(n, limit, oldSize, b)
    ensures a == b
  {
    GuessNotBelow(n, limit, oldSize, a, b);
    GuessNotBelow(n, limit, oldSize, b, a);
  }

  lemma GuessInRange(n: nat, limit: nat, oldSize: nat, k0: nat)
    requires HEADER_LENGTH <= limit < oldSize && FirstGuess(n, limit, oldSize, k0)
    ensures 1 <= k0 <= if n > 0 then n else 1
  {
    var room := (limit - HEADER_LENGTH) * n;
    assert room <= oldSize * n by {
      ScaleBy(n, limit - HEADER_LENGTH, oldSize);
    }
    if k0 > n && room >= oldSize {
      ScaleBy(oldSize, n + 1, k0);
    }
  }

  ghost function Exp(e: nat): nat {
    if e == 0 then 1 else 2 * Exp(e - 1)
  }

  lemma {:induction false} LogBound(k: nat, e: nat, p: nat)
    requires k < 2 * p && p == Exp(e)
    ensures Log2(k) <= e
    decreases e
  {
    if k <= 1 || e == 0 {
    } else {
      LogBound(k / 2, e - 1, Exp(e - 1));
    }
  }

  lemma SixteenBits()
    ensures Exp(15) == 32768
  {
    assert Exp(5) == 32;
    assert Exp(10) == 1024;
  }

  lemma Product32(a: nat, b: nat)
    requires a <= 65523 && b < 65536
    ensures a * b < 0x1_0000_0000
  {
    ScaleBy(b, a, 65523);
  }

  /** With 16-bit counts there are at most 18 tries, and the product of the estimate stays in 32 bits. */
  lemma FewTries(n: nat, limit: nat, oldSize: nat, k0: nat)
    requires HEADER_LENGTH <= limit < oldSize && limit < 65536 && n < 65536 && FirstGuess(n, limit, oldSize, k0)
    ensures |Tries(n, k0)| == Log2(k0) + 3 <= 18
    ensures (limit - HEADER_LENGTH) * n < 0x1_0000_0000
  {
    hide Exp;
    GuessInRange(n, limit, oldSize, k0);
    SixteenBits();
    LogBound(k0, 15, 32768);
    Product32(limit - HEADER_LENGTH, n);
  }

  /** `kept` is the first of the tried counts that gets under the limit, or the last try, none. */
  ghost predicate FirstThatFits(r: DnsRecord, limit: nat, tries: seq<nat>, writes: nat, kept: nat) {
    && 1 <= writes <= |tries| && kept == tries[writes - 1] <= |r.answers|
    && (Fits(r, kept, limit) || kept == 0)
    && forall j :: 0 <= j < writes - 1 ==> tries[j] != 0 && !Fits(r, tries[j], limit)
  }

  /** The search finds that count before the writer, which succeeds `written` times, fails. */
  ghost predicate FoundWithin(r: DnsRecord, limit: nat, tries: seq<nat>, written: nat) {
    exists writes: nat, kept: nat :: FirstThatFits(r, limit, tries, writes, kept) && writes <= written
  }

  lemma FactorTwoOfHalvings(r: DnsRecord, limit: nat, k0: nat, writes: nat, kept: nat, m: nat)
    requires |r.answers| > 0 ==> k0 <= |r.answers|
    requires FirstThatFits(r, limit, Tries(|r.answers|, k0), writes, kept)
    requires Fits(r, m, limit)
    ensures 2 * kept >= if m < k0 then m else k0
  {
    var n, h := |r.answers|, Halvings(k0);
    var tries := Tries(n, k0);
    if writes >= 3 {
      var before := tries[writes - 2];
      HalvingsStep(k0, writes - 3);
      assert before == h[writes - 3] && kept == h[writes - 2] == before / 2;
      assert !Fits(r, before, limit) && tries[0] != 0;
      if before <= m {
        SizeGrows(r, before, m);
      }
    }
  }

  /** The kept count is within a factor of two of the best count up to the first guess. */
  lemma WithinFactorTwo(r: DnsRecord, limit: nat, oldSize: nat, k0: nat, writes: nat, kept: nat, m: nat)
    requires HEADER_LENGTH <= limit < oldSize && FirstGuess(|r.answers|, limit, oldSize, k0)
    requires FirstThatFits(r, limit, Tries(|r.answers|, k0), writes, kept)
    requires Fits(r, m, limit)
    ensures 2 * kept >= if m < k0 then m else k0
  {
    GuessInRange(|r.answers|, limit, oldSize, k0);
    FactorTwoOfHalvings(r, limit, k0, writes, kept, m);
  }

  // ---- truncate_dns_response ----

  /** The sections behind the answers play no part in the search. */
  lemma SameSizes(r: DnsRecord, limit: nat, tries: seq<nat>, writes: nat, kept: nat)
    ensures FirstThatFits(Keep(r, |r.answers|), limit, tries, writes, kept)
            <==> FirstThatFits(r, limit, tries, writes, kept)
    ensures kept <= |r.answers| ==> Keep(Keep(r, |r.answers|), kept) == Keep(r, kept)
  {
    assert Keep(r, |r.answers|).answers == r.answers;
  }

  lemma SameSearch(r: DnsRecord, limit: nat, tries: seq<nat>, written: nat)
    ensures FoundWithin(Keep(r, |r.answers|), limit, tries, written) <==> FoundWithin(r, limit, tries, written)
  {
    hide FirstThatFits;
    forall writes: nat, kept: nat
      ensures FirstThatFits(Keep(r, |r.answers|), limit, tries, writes, kept)
              <==> FirstThatFits(r, limit, tries, writes, kept)
    {
      SameSizes(r, limit, tries, writes, kept);
    }
  }

  /** What the writer gave for the count the search ended on. */
  datatype Rewritten = NotWritten | Rewritten(bytes: seq<byte>)

  /** Removes every additional and authority record, first ones first. */
  method StripSections(whole: DnsRecord) returns (rec: DnsRecord)
    ensures rec == Keep(whole, |whole.answers|)
  {
    rec := whole;
    while |rec.additional| > 0
      invariant rec == whole.(additional := rec.additional)
      decreases |rec.additional|
    {
      rec := rec.(additional := rec.additional[1..]);
    }
    while |rec.authority| > 0
      invariant rec == whole.(additional := [], authority := rec.authority)
      decreases |rec.authority|
    {
      rec := rec.(authority := rec.authority[1..]);
    }
    assert whole.answers[..|whole.answers|] == whole.answers;
  }

  /** Removes answers from the end until `keep` are left. */
  method DropAnswers(whole: DnsRecord, answers: nat, keep: nat) returns (rec: DnsRecord, left: nat)
    requires answers <= |whole.answers|
    ensures left == (if answers > keep then keep else answers) && rec == Keep(whole, left)
  {
    left := answers;
    rec := Keep(whole, left);
    while left > keep
      invariant left <= answers && rec == Keep(whole, left)
      invariant left >= keep || left == answers
    {
      assert rec.answers[..left - 1] == whole.answers[..left - 1];
      rec := rec.(answers := rec.answers[..left - 1]);
      left := left - 1;
    }
  }

  lemma StartOfTries(r: DnsRecord, limit: nat, oldSize: nat, k0: nat)
    requires WellFormed(r) && HEADER_LENGTH <= limit < oldSize && limit < 65536
    requires r.authority == [] && r.additional == [] && FirstGuess(|r.answers|, limit, oldSize, k0)
    ensures var tries := Tries(|r.answers|, k0);
            2 <= |tries| <= 18 && tries[0] == |r.answers| && tries[1] == k0
    ensures r == Keep(r, |r.answers|)
  {
    FewTries(|r.answers|, limit, oldSize, k0);
    assert r.answers[..|r.answers|] == r.answers;
  }

  /** A try of some answers is followed by one of fewer or as many, and that by one of half as many. */
  lemma NextTry(n: nat, k0: nat, g: nat)
    requires (n > 0 ==> k0 <= n) && g < |Tries(n, k0)| && Tries(n, k0)[g] > 0
    ensures var tries := Tries(n, k0);
            && g + 1 < |tries| && tries[g + 1] <= tries[g]
            && (g + 2 < |tries| ==> tries[g + 2] == tries[g + 1] / 2)
  {
    hide Halvings;
    var h := Halvings(k0);
    if g < |h| - 1 {
      HalvingsStep(k0, g);
    }
    if 0 < g {
      assert h[g - 1] > 0 && g - 1 < |h| - 1;
      HalvingsStep(k0, g - 1);
    }
  }

  /** The search: write, stop when that fails, the result is under the limit or no answers are left,
      otherwise drop answers and halve the next target. The guard of 255 rounds never ends it. */
  method Shrink(whole: DnsRecord, oldSize: nat, limit: nat, written: nat)
    returns (resp: Rewritten, kept: nat, writes: nat, k0: nat)
    requires WellFormed(whole) && whole.authority == [] && whole.additional == []
    requires SIZE_LIMIT <= limit < 65536 && limit < oldSize
    ensures FirstGuess(|whole.answers|, limit, oldSize, k0)
    ensures resp.Rewritten? <==> FoundWithin(whole, limit, Tries(|whole.answers|, k0), written)
    ensures resp.NotWritten? ==> written < 18
    ensures resp.Rewritten? ==>
              && FirstThatFits(whole, limit, Tries(|whole.answers|, k0), writes, kept) && writes <= written
              && resp.bytes == Write(Keep(whole, kept)) && |resp.bytes| == Size(whole, kept)
  {
    hide Estimate, Halvings, Log2, Write, Wire, Size, WellFormed;
    var rec := whole;
    var answers := |rec.answers|;
    k0 := Estimate(answers, limit, oldSize);
    var toKeep := k0;
    ghost var n := |whole.answers|;
    ghost var tries := Tries(n, k0);
    StartOfTries(whole, limit, oldSize, k0);
    GuessInRange(n, limit, oldSize, k0);
    hide Tries, FirstGuess;
    var g := 0;
    while g < GUARD
      invariant g < |tries| && answers == tries[g] <= n && rec == Keep(whole, answers)
      invariant g + 1 < |tries| ==> toKeep == tries[g + 1]
      invariant g <= written && forall j :: 0 <= j < g ==> tries[j] != 0 && !Fits(whole, tries[j], limit)
      decreases GUARD - g
    {
      SizeIsLength(whole, answers);
      if g == written {
        return NotWritten, 0, g, k0;
      }
      var bytes := Write(rec);
      if |bytes| < limit || answers == 0 {
        assert FirstThatFits(whole, limit, tries, g + 1, answers);
        return Rewritten(bytes), answers, g + 1, k0;
      }
      NextTry(n, k0, g);
      rec, answers := DropAnswers(rec, answers, toKeep);
      toKeep := toKeep / 2;
      g := g + 1;
    }
    assert false;
  }

  /** The bytes of a cut response: the old ID, question and flags with TC set, `k` announced answers, no
      later section, then the question and the first `k` answers. */
  lemma CutResponse(r: DnsRecord, k: nat)
    requires WellFormed(r) && k <= |r.answers|
    ensures |Write(Keep(r, k))| == HEADER_LENGTH + |r.question| + |Wire(r.answers[..k])|
    ensures var b := WithTc(Write(Keep(r, k)));
            && U16(b) == r.id && U16(b[4..6]) == r.questions && U16(b[6..8]) == k && b[8..12] == [0, 0, 0, 0]
            && b[2] / 2 % 2 == 1 && b[2] % 2 == r.flags1 % 2 && b[2] / 4 == r.flags1 / 4 && b[3] == r.flags2
            && b[12..] == r.question + Wire(r.answers[..k])
  {
    var w := Write(Keep(r, k));
    var body := r.question + Wire(r.answers[..k]);
    SizeIsLength(r, k);
    assert Wire([]) == [] && PutU16(0) == [0, 0];
    assert w == PutU16(r.id) + [r.flags1, r.flags2] + PutU16(r.questions) + PutU16(k) + [0, 0, 0, 0] + body;
    var b := WithTc(w);
    assert b[..2] == PutU16(r.id) && b[4..6] == PutU16(r.questions) && b[6..8] == PutU16(k);
  }

  /** Rewrites the response in `buf` so that it gets under `limit`. `parsed` is the library's reading
      of the buffer, and its writer succeeds `written` times before it fails; `kept` and `writes` report
      the answers kept and the number of writer calls, `k0` the first guess. */
  method TruncateDnsResponse(buf: array<byte>, oldSize: nat, limit: nat, parsed: Parsed, written: nat)
    returns (newSize: nat, ghost kept: nat, ghost writes: nat, ghost k0: nat)
    requires HEADER_LENGTH <= oldSize <= buf.Length && SIZE_LIMIT <= limit < 65536 && limit < oldSize
    requires parsed.Record? ==> WellFormed(parsed.rec)
    modifies buf
    ensures newSize <= oldSize
    ensures parsed.Record? ==> FirstGuess(|parsed.rec.answers|, limit, oldSize, k0)
    ensures parsed.Record? && written >= 18 ==>
              FoundWithin(parsed.rec, limit, Tries(|parsed.rec.answers|, k0), written)
    ensures var found := parsed.Record? && FoundWithin(parsed.rec, limit, Tries(|parsed.rec.answers|, k0), written);
            && (found ==> writes <= written)
            && (found ==> FirstThatFits(parsed.rec, limit, Tries(|parsed.rec.answers|, k0), writes, kept))
            && buf[..newSize] == if found && Size(parsed.rec, kept) < oldSize
                                 then WithTc(Write(Keep(parsed.rec, kept))) else WithTc(old(buf[..oldSize]))
  {
    kept, writes, k0 := 0, 0, 0;
    buf[2] := SetTc(buf[2]);
    assert buf[..oldSize] == WithTc(old(buf[..oldSize]));
    if parsed.ParseFailed? {
      return oldSize, 0, 0, 0;
    }
    var rec := StripSections(parsed.rec);
    var resp, answers, tries, guess := Shrink(rec, oldSize, limit, written);
    SameSearch(parsed.rec, limit, Tries(|parsed.rec.answers|, guess), written);
    SameSizes(parsed.rec, limit, Tries(|parsed.rec.answers|, guess), tries, answers);
    hide FoundWithin, Tries, Write, Wire, FirstGuess;
    kept, writes, k0 := answers, tries, guess;
    newSize := oldSize;
    if resp.Rewritten? && |resp.bytes| < oldSize {
      forall i | 0 <= i < |resp.bytes| {
        buf[i] := resp.bytes[i];
      }
      newSize := |resp.bytes|;
      buf[2] := SetTc(buf[2]);
      assert buf[..newSize] == WithTc(resp.bytes);
    }
  }

  // ---- get_edns_udp_size and dns_server_respond ----

  ghost predicate FirstOpt(rrs: seq<Rr>, i: nat) {
    i < |rrs| && rrs[i].isOpt && forall j :: 0 <= j < i ==> !rrs[j].isOpt
  }

  /** The size the requester takes: that of its first OPT record, never less than 512. */
  ghost predicate AcceptedSize(request: Parsed, size: nat) {
    if request.Record? && exists i :: 0 <= i < |request.rec.additional| && request.rec.additional[i].isOpt then
      exists i: nat :: FirstOpt(request.rec.additional, i) &&
        size == if request.rec.additional[i].udpSize < 512 then 512
                else request.rec.additional[i].udpSize
    else
      size == 512
  }

  method GetEdnsUdpSize(request: Parsed) returns (size: nat)
    requires request.Record? ==> WellFormed(request.rec)
    ensures AcceptedSize(request, size) && SIZE_LIMIT <= size < 65536
  {
    if request.ParseFailed? {
      return SIZE_LIMIT;
    }
    var rrs := request.rec.additional;
    var udpSize := 0;
    var i := 0;
    while i < |rrs|
      invariant i <= |rrs| && udpSize == 0
      invariant forall j :: 0 <= j < i ==> !rrs[j].isOpt
    {
      if rrs[i].isOpt {
        udpSize := rrs[i].udpSize;
        assert FirstOpt(rrs, i);
        break;
      }
      i := i + 1;
    }
    size := if udpSize < SIZE_LIMIT then SIZE_LIMIT else udpSize;
  }

  /** At most one answer to what a requester accepts. */
  lemma AcceptedSizeUnique(request: Parsed, a: nat, b: nat)
    requires AcceptedSize(request, a) && AcceptedSize(request, b)
    ensures a == b
  {
    if request.Record? && exists i :: 0 <= i < |request.rec.additional| && request.rec.additional[i].isOpt {
      var rrs := request.rec.additional;
      var i: nat :| FirstOpt(rrs, i) && a == if rrs[i].udpSize < SIZE_LIMIT then SIZE_LIMIT else rrs[i].udpSize;
      var j: nat :| FirstOpt(rrs, j) && b == if rrs[j].udpSize < SIZE_LIMIT then SIZE_LIMIT else rrs[j].udpSize;
      assert i == j;
    }
  }

  datatype Datagram = Nothing | Datagram(bytes: seq<byte>)

  /** Sends a response. It goes out untouched when the requester accepts its size. A longer one is
      sent with TC set; if it parses and the writer does not fail, as a prefix of its answers with no
      later section, and under the limit whenever header and question are. */
  method DnsServerRespond(request: Parsed, buf: array<byte>, len: nat, parsed: Parsed, written: nat, ghost limit: nat)
    returns (out: Datagram, ghost kept: nat, ghost writes: nat, ghost k0: nat)
    requires len <= buf.Length && AcceptedSize(request, limit)
    requires request.Record? ==> WellFormed(request.rec)
    requires parsed.Record? ==> WellFormed(parsed.rec)
    modifies buf
    ensures out.Nothing? <==> len < HEADER_LENGTH
    ensures HEADER_LENGTH <= len <= limit ==> out == Datagram(old(buf[..len]))
    ensures len > limit && parsed.ParseFailed? ==> out == Datagram(WithTc(old(buf[..len])))
    ensures len > limit && parsed.Record? ==>
              var tries := Tries(|parsed.rec.answers|, k0);
              && FirstGuess(|parsed.rec.answers|, limit, len, k0)
              && (written >= 18 ==> FoundWithin(parsed.rec, limit, tries, written))
              && (FoundWithin(parsed.rec, limit, tries, written) ==>
                    FirstThatFits(parsed.rec, limit, tries, writes, kept))
              && (FoundWithin(parsed.rec, limit, tries, written) && Size(parsed.rec, 0) <= limit ==>
                    && Size(parsed.rec, kept) <= limit
                    && (Size(parsed.rec, 0) < limit ==> Size(parsed.rec, kept) < limit)
                    && out == Datagram(WithTc(Write(Keep(parsed.rec, kept)))))
              && (!FoundWithin(parsed.rec, limit, tries, written) ==> out == Datagram(WithTc(old(buf[..len]))))
    ensures out.Datagram? ==>
              (|out.bytes| <= limit <==>
                 || len <= limit
                 || (parsed.Record? && FoundWithin(parsed.rec, limit, Tries(|parsed.rec.answers|, k0), written)
                     && Size(parsed.rec, 0) <= limit))
  {
    kept, writes, k0 := 0, 0, 0;
    if len < HEADER_LENGTH {
      return Nothing, 0, 0, 0;
    }
    var size := len;
    if len > SIZE_LIMIT {
      var udpSize := GetEdnsUdpSize(request);
      AcceptedSizeUnique(request, limit, udpSize);
      hide FoundWithin, Tries, Write, Wire, AcceptedSize, FirstGuess;
      if len > udpSize {
        size, kept, writes, k0 := TruncateDnsResponse(buf, len, udpSize, parsed, written);
        if parsed.Record? && FoundWithin(parsed.rec, limit, Tries(|parsed.rec.answers|, k0), written) {
          SizeIsLength(parsed.rec, kept);
          SizeGrows(parsed.rec, 0, kept);
        }
      }
    }
    out := Datagram(buf[..size]);
  }

  /** With one question (a name of at most 255 octets, type and class) the limit is always met. */
  lemma OneQuestionFits(r: DnsRecord, limit: nat)
    requires |r.question| <= 255 + 4 && limit >= SIZE_LIMIT
    ensures Size(r, 0) <= 271 < limit
  {
    assert r.answers[..0] == [];
  }
}
