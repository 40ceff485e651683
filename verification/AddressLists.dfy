/** Comma-separated address lists: printing them, comparing them, and cutting them out of a pin. */
module AddressLists {
  const LIST_SIZE: nat := 1024  // POLLER_ADDR_LIST_SIZE
  const MAX_TEXT: nat := 50     // sizeof(current) in addr_list_reduced

  /** Printed addresses are non-empty and hold no commas. */
  ghost predicate IsAddress(t: string) {
    t != "" && ',' !in t
  }

  ghost predicate Addresses(ts: seq<string>) {
    forall i :: 0 <= i < |ts| ==> IsAddress(ts[i])
  }

  function Join(ts: seq<string>): string {
    if ts == [] then ""
    else if |ts| == 1 then ts[0]
    else ts[0] + "," + Join(ts[1..])
  }

  // ---- get_addr_listing ----

  /** One node of a lookup result; the text is what ares_inet_ntop prints. */
  datatype Node = Inet(text: string) | Inet6(text: string) | OtherFamily

  function Handled(nodes: seq<Node>): seq<string> {
    if nodes == [] then []
    else
      var last := nodes[|nodes| - 1];
      Handled(nodes[..|nodes| - 1]) + (if last.OtherFamily? then [] else [last.text])
  }

  /** Space taken by addresses with a separator, or the final NUL, behind each. */
  function Cost(addrs: seq<string>): nat {
    if addrs == [] then 0 else |addrs[0]| + 1 + Cost(addrs[1..])
  }

  ghost function WithCommas(addrs: seq<string>): string {
    if addrs == [] then "" else addrs[0] + "," + WithCommas(addrs[1..])
  }

  /** How many leading addresses fit: the longest prefix whose cost is within `room`. */
  function Kept(addrs: seq<string>, room: nat): (k: nat)
    ensures k <= |addrs| && Cost(addrs[..k]) <= room
    ensures k < |addrs| ==> Cost(addrs[..k + 1]) > room
  {
    if addrs == [] then 0
    else if |addrs[0]| + 1 > room then
      assert Cost(addrs[..1]) == |addrs[0]| + 1 + Cost(addrs[..1][1..]);
      0
    else
      var k := Kept(addrs[1..], room - |addrs[0]| - 1);
      assert addrs[..k + 1][1..] == addrs[1..][..k];
      assert k < |addrs[1..]| ==> addrs[..k + 2][1..] == addrs[1..][..k + 1];
      k + 1
  }

  lemma Regroup(x: string, y: string, z: string)
    ensures x + (y + z) == (x + y) + z
  {
  }

  lemma {:induction false} CostConcat(a: seq<string>, b: seq<string>)
    ensures Cost(a + b) == Cost(a) + Cost(b)
    ensures WithCommas(a + b) == WithCommas(a) + WithCommas(b)
    ensures |WithCommas(a)| == Cost(a)
  {
    if a == [] {
      assert a + b == b;
    } else {
      CostConcat(a[1..], b);
      assert (a + b)[1..] == a[1..] + b && (a + b)[0] == a[0];
      Regroup(a[0] + ",", WithCommas(a[1..]), WithCommas(b));
    }
  }

  lemma CostOfPrefix(addrs: seq<string>, k: nat)
    requires k <= |addrs|
    ensures Cost(addrs[..k]) <= Cost(addrs)
  {
    assert addrs == addrs[..k] + addrs[k..];
    CostConcat(addrs[..k], addrs[k..]);
  }

  /** Only one prefix is the longest that fits. */
  lemma KeptUnique(addrs: seq<string>, room: nat, k: nat)
    requires k <= |addrs| && Cost(addrs[..k]) <= room
    requires k < |addrs| ==> Cost(addrs[..k + 1]) > room
    ensures k == Kept(addrs, room)
  {
    var m := Kept(addrs, room);
    if k < m {
      assert addrs[..m][..k + 1] == addrs[..k + 1];
      CostOfPrefix(addrs[..m], k + 1);
    } else if m < k {
      assert addrs[..k][..m + 1] == addrs[..m + 1];
      CostOfPrefix(addrs[..k], m + 1);
    }
  }

  lemma {:induction false} JoinDropsLastComma(addrs: seq<string>)
    requires addrs != []
    ensures WithCommas(addrs) == Join(addrs) + ","
  {
    if |addrs| == 1 {
    } else {
      JoinDropsLastComma(addrs[1..]);
    }
  }

  lemma OneAddress(t: string)
    ensures Cost([t]) == |t| + 1 && WithCommas([t]) == t + ","
  {
    assert WithCommas([t]) == t + "," + WithCommas([t][1..]);
  }

  lemma {:induction false} HandledOfPrefix(nodes: seq<Node>, i: nat)
    requires i <= |nodes|
    ensures Handled(nodes[..i]) <= Handled(nodes)
    decreases |nodes| - i
  {
    if i == |nodes| {
      assert nodes[..i] == nodes;
    } else {
      HandledOfPrefix(nodes, i + 1);
      assert nodes[..i + 1][..i] == nodes[..i];
    }
  }

  /** How many nodes are IPv4 or IPv6. */
  ghost function Inets(nodes: seq<Node>): nat {
    if nodes == [] then 0 else (if nodes[0].Inet? || nodes[0].Inet6? then 1 else 0) + Inets(nodes[1..])
  }

  lemma {:induction false} HandledConcat(a: seq<Node>, b: seq<Node>)
    ensures Handled(a + b) == Handled(a) + Handled(b)
    decreases |b|
  {
    if b == [] {
      assert a + b == a;
    } else {
      HandledConcat(a, b[..|b| - 1]);
      assert (a + b)[..|a + b| - 1] == a + b[..|b| - 1];
    }
  }

  lemma {:induction false} CountHandled(nodes: seq<Node>)
    ensures |Handled(nodes)| == Inets(nodes)
  {
    if nodes == [] {
    } else {
      CountHandled(nodes[1..]);
      HandledConcat([nodes[0]], nodes[1..]);
      assert [nodes[0]] + nodes[1..] == nodes && Handled([nodes[0]][..0]) == [];
    }
  }

  /** IPv4 and IPv6 nodes alike are handled, each in its place, and no other. */
  lemma HandledInOrder(nodes: seq<Node>, i: nat)
    requires i < |nodes| && (nodes[i].Inet? || nodes[i].Inet6?)
    ensures |Handled(nodes)| == Inets(nodes) && Inets(nodes[..i]) < Inets(nodes)
    ensures Handled(nodes)[Inets(nodes[..i])] == nodes[i].text
  {
    var a, b := nodes[..i], nodes[i + 1..];
    assert nodes == a + ([nodes[i]] + b);
    HandledConcat(a, [nodes[i]] + b);
    HandledConcat([nodes[i]], b);
    assert Handled([nodes[i]][..0]) == [];
    CountHandled(a);
    CountHandled(nodes);
  }

  /** ares_inet_ntop: prints when the text and its NUL fit into `room` characters. */
  predicate Prints(text: string, room: nat) {
    |text| + 1 <= room
  }

  method PutText(b: array<char>, pos: nat, text: string)
    requires pos + |text| <= b.Length
    modifies b
    ensures b[..pos + |text|] == old(b[..pos]) + text
  {
    forall j | 0 <= j < |text| {
      b[pos + j] := text[j];
    }
    assert b[..pos] == old(b[..pos]);
  }

  datatype Listing = NoList | List(text: string)

  lemma NextNode(nodes: seq<Node>, i: nat, done: seq<string>)
    requires i < |nodes| && done == Handled(nodes[..i])
    ensures Handled(nodes[..i + 1]) == if nodes[i].OtherFamily? then done else done + [nodes[i].text]
    ensures Handled(nodes[..i + 1]) <= Handled(nodes) && done <= Handled(nodes)
  {
    assert nodes[..i + 1][..i] == nodes[..i];
    HandledOfPrefix(nodes, i);
    HandledOfPrefix(nodes, i + 1);
  }

  /** Nothing more fits when the buffer is full or the next address does not. */
  lemma StoppedHere(h: seq<string>, done: seq<string>, text: string)
    requires done <= h && Cost(done) <= LIST_SIZE - 1
    requires Cost(done) == LIST_SIZE - 1 || (done + [text] <= h && Cost(done) + |text| + 1 > LIST_SIZE - 1)
    ensures done == h[..Kept(h, LIST_SIZE - 1)]
  {
    if |done| < |h| {
      var next := h[|done|];
      assert h[..|done| + 1] == done + [next];
      CostConcat(done, [next]);
      OneAddress(next);
    }
    assert h[..|done|] == done;
    KeptUnique(h, LIST_SIZE - 1, |done|);
  }

  /** Fills a buffer through a moving position, a comma behind each address, until one does not fit. */
  method FillListing(b: array<char>, nodes: seq<Node>) returns (pos: nat)
    requires b.Length == LIST_SIZE
    modifies b
    ensures var h := Handled(nodes);
            var fit := h[..Kept(h, LIST_SIZE - 1)];
            pos == Cost(fit) && b[..pos] == WithCommas(fit)
  {
    pos := 0;
    var i := 0;
    ghost var done: seq<string> := [];
    ghost var h := Handled(nodes);
    while i < |nodes|
      invariant 0 <= i <= |nodes| && done == Handled(nodes[..i])
      invariant pos == Cost(done) <= LIST_SIZE - 1 && b[..pos] == WithCommas(done)
    {
      NextNode(nodes, i, done);
      if pos >= LIST_SIZE - 1 {
        StoppedHere(h, done, "");
        return;
      }
      var remaining := LIST_SIZE - 1 - pos;
      if nodes[i].OtherFamily? {
        i := i + 1;
        continue;
      }
      var text := nodes[i].text;
      CostConcat(done, [text]);
      OneAddress(text);
      if !Prints(text, remaining) {
        StoppedHere(h, done, text);
        return;
      }
      PutText(b, pos, text);
      pos := pos + |text|;
      if pos >= LIST_SIZE - 1 {
        assert false;  // no room for the comma separator: cannot happen
      }
      PutText(b, pos, ",");
      pos := pos + 1;
      done := done + [text];
      i := i + 1;
    }
    assert nodes[..|nodes|] == nodes;
    assert done == h[..|done|];
    KeptUnique(h, LIST_SIZE - 1, |done|);
  }

  /** The listing joins the longest fitting prefix of the handled addresses, without a last comma. */
  method GetAddrListing(nodes: seq<Node>) returns (list: Listing)
    ensures var h := Handled(nodes);
            var k := Kept(h, LIST_SIZE - 1);
            list == (if k == 0 then NoList else List(Join(h[..k])))
    ensures list.List? ==> |list.text| <= LIST_SIZE - 2
  {
    var b := new char[LIST_SIZE](_ => '\0');
    var pos := FillListing(b, nodes);
    ghost var h := Handled(nodes);
    ghost var fit := h[..Kept(h, LIST_SIZE - 1)];
    if pos == 0 {
      return NoList;
    }
    JoinDropsLastComma(fit);
    assert b[..pos - 1] == b[..pos][..pos - 1];
    b[pos - 1] := '\0';
    list := List(b[..pos - 1]);
  }

  /** All addresses are listed if and only if they fit with a separator behind each. */
  lemma AllListedIff(addrs: seq<string>)
    ensures Kept(addrs, LIST_SIZE - 1) == |addrs| <==> Cost(addrs) <= LIST_SIZE - 1
  {
    assert addrs[..|addrs|] == addrs;
    if Cost(addrs) <= LIST_SIZE - 1 {
      KeptUnique(addrs, LIST_SIZE - 1, |addrs|);
    }
  }

  ghost predicate AllWithin(addrs: seq<string>, len: nat) {
    forall i :: 0 <= i < |addrs| ==> |addrs[i]| <= len
  }

  lemma {:induction false} CostBound(addrs: seq<string>, len: nat)
    requires AllWithin(addrs, len)
    ensures Cost(addrs) <= |addrs| * (len + 1)
    ensures (forall i :: 0 <= i < |addrs| ==> |addrs[i]| == len) ==> Cost(addrs) == |addrs| * (len + 1)
  {
    if addrs == [] {
    } else {
      CostBound(addrs[1..], len);
    }
  }

  /** Addresses of at most `len` characters all fit while their number times (len + 1) is within 1023:
      63 IPv4 addresses (15 characters), 25 IPv6 addresses (39 characters). */
  lemma AlwaysFit(addrs: seq<string>, len: nat)
    requires AllWithin(addrs, len)
    requires |addrs| * (len + 1) <= LIST_SIZE - 1
    ensures Kept(addrs, LIST_SIZE - 1) == |addrs|
  {
    CostBound(addrs, len);
    AllListedIff(addrs);
  }

  lemma ListingCapacity(addrs: seq<string>)
    requires (|addrs| <= 63 && AllWithin(addrs, 15)) || (|addrs| <= 25 && AllWithin(addrs, 39))
    ensures Kept(addrs, LIST_SIZE - 1) == |addrs|
  {
    var len := if |addrs| <= 63 && AllWithin(addrs, 15) then 15 else 39;
    AlwaysFit(addrs, len);
  }

  /** Of more than 63 IPv4 addresses of full length 63 are listed, one fewer than the header file promises. */
  lemma SixtyFourDoNotFit(addrs: seq<string>)
    requires |addrs| >= 64 && forall i :: 0 <= i < |addrs| ==> |addrs[i]| == 15
    ensures Kept(addrs, LIST_SIZE - 1) == 63
  {
    CostBound(addrs[..63], 15);
    CostBound(addrs[..64], 15);
    KeptUnique(addrs, LIST_SIZE - 1, 63);
  }

  lemma CostWithShort(addrs: seq<string>, i: nat)
    requires AllWithin(addrs, 15) && i < |addrs| && |addrs[i]| < 15
    ensures Cost(addrs) < |addrs| * 16
  {
    var front, back := addrs[..i], addrs[i + 1..];
    assert addrs == front + ([addrs[i]] + back);
    CostConcat(front, [addrs[i]] + back);
    CostConcat([addrs[i]], back);
    OneAddress(addrs[i]);
    CostBound(front, 15);
    CostBound(back, 15);
  }

  /** 64 IPv4 addresses are all listed exactly when one of them is shorter than 15 characters. */
  lemma SixtyFourFitIff(addrs: seq<string>)
    requires |addrs| == 64 && AllWithin(addrs, 15)
    ensures Kept(addrs, LIST_SIZE - 1) == 64 <==> exists i :: 0 <= i < |addrs| && |addrs[i]| < 15
  {
    AllListedIff(addrs);
    CostBound(addrs, 15);
    if i :| 0 <= i < |addrs| && |addrs[i]| < 15 {
      CostWithShort(addrs, i);
    }
  }
}
