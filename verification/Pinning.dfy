/** Deciding whether the pinned addresses are still valid: addr_list_reduced and dns_poll_cb. */
module Pinning {
  import opened AddressLists

  predicate OccursAt(s: string, t: string, p: nat) {
    p + |t| <= |s| && s[p..p + |t|] == t
  }

  ghost predicate Contains(s: string, t: string) {
    exists p: nat :: OccursAt(s, t, p)
  }

  function FindFrom(s: string, t: string, i: nat): (r: int)
    requires i <= |s|
    ensures r == -1 || (i <= r && OccursAt(s, t, r))
    ensures forall q: nat :: i <= q && (r == -1 || q < r) ==> !OccursAt(s, t, q)
    decreases |s| - i
  {
    if OccursAt(s, t, i) then i
    else if i == |s| then -1
    else FindFrom(s, t, i + 1)
  }

  /** strstr: the position of the first occurrence, or -1. */
  function Strstr(s: string, t: string): (r: int)
    ensures r == -1 <==> !Contains(s, t)
    ensures r != -1 ==> r >= 0 && OccursAt(s, t, r) && forall q: nat :: q < r ==> !OccursAt(s, t, q)
  {
    FindFrom(s, t, 0)
  }

  /** strchr for a comma: the position of the first one, or the length. */
  function CommaIndex(s: string): (k: nat)
    ensures k <= |s| && ',' !in s[..k] && (k < |s| ==> s[k] == ',')
  {
    if s == "" || s[0] == ',' then 0 else 1 + CommaIndex(s[1..])
  }

  /** The pieces between commas, as the comparison walks them. */
  function Tokens(s: string): seq<string>
    decreases |s|
  {
    if s == "" then []
    else
      var k := CommaIndex(s);
      [s[..k]] + (if k < |s| then Tokens(s[k + 1..]) else [])
  }

  /** The first occurrence of `t` fills the space between two separators. */
  predicate WholeMatch(full: string, t: string) {
    var m := Strstr(full, t);
    && m != -1
    && (m == 0 || full[m - 1] == ',')
    && (m + |t| == |full| || full[m + |t|] == ',')
  }

  ghost predicate AllPresent(full: string, ts: seq<string>) {
    forall i :: 0 <= i < |ts| ==> |ts[i]| < MAX_TEXT && WholeMatch(full, ts[i])
  }

  lemma PresentNext(full: string, ts: seq<string>)
    requires ts != []
    ensures AllPresent(full, ts) <==> |ts[0]| < MAX_TEXT && WholeMatch(full, ts[0]) && AllPresent(full, ts[1..])
  {
    assert forall i :: 1 <= i < |ts| ==> ts[i] == ts[1..][i - 1];
    assert forall i :: 0 <= i < |ts[1..]| ==> ts[1..][i] == ts[i + 1];
  }

  /** Walks the old list; "reduced" as soon as one of its addresses is not seen in the new list. */
  method AddrListReduced(fullList: string, list: string) returns (reduced: bool)
    ensures reduced <==> !AllPresent(fullList, Tokens(list))
  {
    hide WholeMatch;
    var pos := 0;
    ghost var left := Tokens(list);
    assert list[pos..] == list;
    while pos < |list|
      invariant 0 <= pos && left == (if pos < |list| then Tokens(list[pos..]) else [])
      invariant AllPresent(fullList, Tokens(list)) <==> AllPresent(fullList, left)
    {
      var rest := list[pos..];
      var len := CommaIndex(rest);
      var current := rest[..len];
      assert left[0] == current;
      PresentNext(fullList, left);
      if len >= MAX_TEXT {
        return true;
      }
      if !WholeMatch(fullList, current) {
        return true;
      }
      assert len < |rest| ==> rest[len + 1..] == list[pos + len + 1..];
      pos := pos + len + 1;
      left := left[1..];
    }
    reduced := false;
  }

  // ---- What the comparison means for lists of addresses ----

  lemma {:induction false} CommaIndexBehind(a: string, rest: string)
    requires ',' !in a
    ensures CommaIndex(a + rest) == |a| + CommaIndex(rest)
  {
    if a == "" {
      assert a + rest == rest;
    } else {
      assert (a + rest)[0] == a[0] && (a + rest)[1..] == a[1..] + rest;
      CommaIndexBehind(a[1..], rest);
    }
  }

  lemma FirstToken(ts: seq<string>)
    requires Addresses(ts) && ts != []
    ensures Join(ts) != "" && CommaIndex(Join(ts)) == |ts[0]| && Join(ts)[..|ts[0]|] == ts[0]
  {
    var a, s := ts[0], Join(ts);
    assert s == a + s[|a|..];
    CommaIndexBehind(a, s[|a|..]);
  }

  lemma {:induction false} TokensOfJoin(ts: seq<string>)
    requires Addresses(ts)
    ensures Tokens(Join(ts)) == ts
    decreases |ts|
  {
    if ts == [] {
    } else {
      var s, k := Join(ts), CommaIndex(Join(ts));
      FirstToken(ts);
      if |ts| > 1 {
        assert s[k + 1..] == Join(ts[1..]);
        TokensOfJoin(ts[1..]);
      }
    }
  }

  /** The first new address that contains `t` is `t` itself. */
  ghost predicate FirstHolder(ts: seq<string>, t: string) {
    exists i :: 0 <= i < |ts| && ts[i] == t && forall j :: 0 <= j < i ==> !Contains(ts[j], t)
  }

  lemma HolderStep(ts: seq<string>, t: string)
    requires ts != []
    ensures FirstHolder(ts, t) <==> if Contains(ts[0], t) then ts[0] == t else FirstHolder(ts[1..], t)
  {
    if ts[0] == t {
      assert OccursAt(t, t, 0);
    }
    if FirstHolder(ts, t) {
      var i :| 0 <= i < |ts| && ts[i] == t && forall j :: 0 <= j < i ==> !Contains(ts[j], t);
      if i > 0 {
        assert ts[1..][i - 1] == t;
      }
    }
    if !Contains(ts[0], t) && FirstHolder(ts[1..], t) {
      var i :| 0 <= i < |ts[1..]| && ts[1..][i] == t && forall j :: 0 <= j < i ==> !Contains(ts[1..][j], t);
      assert ts[i + 1] == t;
      forall j | 0 <= j < i + 1 ensures !Contains(ts[j], t) {
        if j > 0 {
          assert ts[j] == ts[1..][j - 1];
        }
      }
    }
  }

  /** In "a,rest" an address occurs inside a or inside the rest, never across the comma. */
  lemma OccursInJoin(a: string, rest: string, t: string, p: nat)
    requires IsAddress(t)
    ensures OccursAt(a + "," + rest, t, p) <==>
            OccursAt(a, t, p) || (p > |a| && OccursAt(rest, t, p - |a| - 1))
  {
    var s := a + "," + rest;
    if p + |t| <= |a| {
      assert s[p..p + |t|] == a[p..p + |t|];
    } else if p > |a| && p + |t| <= |s| {
      assert s[p..p + |t|] == rest[p - |a| - 1..p - |a| - 1 + |t|];
    } else if p <= |a| && p + |t| <= |s| {
      assert s[p..p + |t|][|a| - p] == ',' && t[|a| - p] in t;
    }
  }

  lemma MatchInFirst(a: string, s: string, t: string)
    requires IsAddress(a) && IsAddress(t) && Contains(a, t) && a <= s && (|s| > |a| ==> s[|a|] == ',')
    requires Strstr(s, t) == Strstr(a, t)
    ensures WholeMatch(s, t) <==> a == t
  {
    var m := Strstr(a, t);
    if a == t {
      assert OccursAt(a, t, 0);
    } else {
      if m > 0 {
        assert a[m - 1] in a;
      } else if m + |t| < |a| {
        assert a[m + |t|] in a;
      }
    }
  }

  lemma FoundInRest(a: string, rest: string, t: string)
    requires IsAddress(t) && !Contains(a, t)
    ensures Strstr(a + "," + rest, t) == if Strstr(rest, t) == -1 then -1 else |a| + 1 + Strstr(rest, t)
  {
    var s, m := a + "," + rest, Strstr(rest, t);
    forall p: nat ensures OccursAt(s, t, p) <==> p > |a| && OccursAt(rest, t, p - |a| - 1) {
      OccursInJoin(a, rest, t, p);
    }
    if m != -1 {
      assert OccursAt(s, t, |a| + 1 + m);
    } else {
      forall p: nat ensures !OccursAt(s, t, p) {
        if p > |a| {
          assert !OccursAt(rest, t, p - |a| - 1);
        }
      }
    }
  }

  lemma MatchInRest(a: string, rest: string, t: string)
    requires IsAddress(t) && !Contains(a, t)
    ensures WholeMatch(a + "," + rest, t) <==> WholeMatch(rest, t)
  {
    hide OccursAt, Contains;
    FoundInRest(a, rest, t);
  }

  lemma {:induction false} WholeMatchExact(ts: seq<string>, t: string)
    requires Addresses(ts) && IsAddress(t)
    ensures WholeMatch(Join(ts), t) <==> FirstHolder(ts, t)
    decreases |ts|
  {
    if ts == [] {
    } else {
      var a, s := ts[0], Join(ts);
      HolderStep(ts, t);
      if |ts| == 1 {
        if Contains(a, t) {
          MatchInFirst(a, s, t);
        }
      } else {
        var rest := Join(ts[1..]);
        if Contains(a, t) {
          forall p: nat
            ensures OccursAt(s, t, p) <==> OccursAt(a, t, p) || (p > |a| && OccursAt(rest, t, p - |a| - 1))
          {
            OccursInJoin(a, rest, t, p);
          }
          MatchInFirst(a, s, t);
        } else {
          MatchInRest(a, rest, t);
          WholeMatchExact(ts[1..], t);
        }
      }
    }
  }

  /** Exactly when the old list counts as still covered by the new one. */
  lemma CoveredExactly(new_: seq<string>, old_: seq<string>)
    requires Addresses(new_) && Addresses(old_)
    ensures AllPresent(Join(new_), Tokens(Join(old_))) <==>
            forall i :: 0 <= i < |old_| ==> |old_[i]| < MAX_TEXT && FirstHolder(new_, old_[i])
  {
    TokensOfJoin(old_);
    forall i | 0 <= i < |old_|
      ensures WholeMatch(Join(new_), old_[i]) <==> FirstHolder(new_, old_[i])
    {
      WholeMatchExact(new_, old_[i]);
    }
  }

  ghost predicate Included(a: seq<string>, b: seq<string>) {
    forall i :: 0 <= i < |a| ==> a[i] in b
  }

  lemma {:induction false} EarliestHolder(ts: seq<string>, t: string)
    requires t in ts && forall j :: 0 <= j < |ts| && Contains(ts[j], t) ==> ts[j] == t
    ensures FirstHolder(ts, t)
  {
    HolderStep(ts, t);
    assert OccursAt(t, t, 0);
    if ts[0] == t {
    } else {
      forall j | 0 <= j < |ts[1..]| && Contains(ts[1..][j], t) ensures ts[1..][j] == t {
        assert ts[1..][j] == ts[j + 1];
      }
      EarliestHolder(ts[1..], t);
    }
  }

  /** A list that counts as covered is included; the converse needs the two extra conditions. */
  lemma CoveredMeansIncluded(new_: seq<string>, old_: seq<string>)
    requires Addresses(new_) && Addresses(old_)
    ensures AllPresent(Join(new_), Tokens(Join(old_))) ==> Included(old_, new_)
    ensures (forall i, j :: 0 <= i < |old_| && 0 <= j < |new_| && Contains(new_[j], old_[i]) ==> new_[j] == old_[i])
            && (forall i :: 0 <= i < |old_| ==> |old_[i]| < MAX_TEXT)
            ==> (AllPresent(Join(new_), Tokens(Join(old_))) <==> Included(old_, new_))
  {
    CoveredExactly(new_, old_);
    if (forall i, j :: 0 <= i < |old_| && 0 <= j < |new_| && Contains(new_[j], old_[i]) ==> new_[j] == old_[i])
       && Included(old_, new_) {
      forall i | 0 <= i < |old_| ensures FirstHolder(new_, old_[i]) {
        EarliestHolder(new_, old_[i]);
      }
    }
  }

  /** An included list need not count as covered: a longer address that comes first hides it. */
  lemma IncludedYetNotCovered()
    ensures var new_, old_ := ["11.1.1.1", "1.1.1.1"], ["1.1.1.1"];
            Included(old_, new_) && !AllPresent(Join(new_), Tokens(Join(old_)))
  {
    var new_, old_ := ["11.1.1.1", "1.1.1.1"], ["1.1.1.1"];
    assert OccursAt(new_[0], old_[0], 1);
    CoveredExactly(new_, old_);
  }

  // ---- dns_poll_cb ----

  const PIN_SIZE: nat := 255 + 5 + LIST_SIZE
  const MARK: string := ":443:"
  const MAX_HOST: nat := 254

  datatype Pin = NoPin | Pinned(text: string)

  /** snprintf into `size` characters: the text, cut so that its NUL fits. */
  function Snprintf(size: nat, s: string): string {
    if |s| < size then s else s[..if size > 0 then size - 1 else 0]
  }

  function PinText(host: string, list: string): string
    requires |host| <= MAX_HOST
  {
    var start := |host| + |MARK|;
    Snprintf(PIN_SIZE - 1, host + MARK) + Snprintf(PIN_SIZE - 1 - start, list)
  }

  /** Exactly how much fits into a pin; the listing always does. */
  lemma PinTextNotCut(host: string, list: string)
    requires |host| <= MAX_HOST
    ensures PinText(host, list) == host + MARK + list <==> |host| + |list| <= 1277
    ensures |list| <= LIST_SIZE - 2 ==> PinText(host, list) == host + MARK + list
  {
    assert |PinText(host, list)| == |host| + |MARK| + |Snprintf(PIN_SIZE - 1 - |host| - |MARK|, list)|;
  }

  /** The address list inside a pin: what follows the first mark. */
  function CutOut(text: string): (r: Pin) {
    var m := Strstr(text, MARK);
    if m == -1 then NoPin else Pinned(text[m + |MARK|..])
  }

  /** With a colon-free host name the list cut out is the list put in. */
  lemma CutOutPutIn(host: string, list: string)
    requires ':' !in host
    ensures CutOut(host + MARK + list) == Pinned(list)
  {
    var s := host + MARK + list;
    assert s[|host|..|host| + |MARK|] == MARK;
    assert OccursAt(s, MARK, |host|);
    forall q: nat | q < |host| ensures !OccursAt(s, MARK, q) {
      assert s[q] == host[q] && host[q] in host;
    }
    assert Strstr(s, MARK) == |host|;
    assert s[|host| + |MARK|..] == list;
  }

  /** The pin after a lookup: kept when its addresses are all seen in the new list, else replaced. */
  ghost function NewPin(pin: Pin, host: string, list: string): string
    requires |host| <= MAX_HOST
  {
    if pin.Pinned? && CutOut(pin.text).Pinned? && AllPresent(list, Tokens(CutOut(pin.text).text))
    then pin.text
    else PinText(host, list)
  }

  ghost predicate Listable(addrs: seq<string>) {
    addrs != [] && Addresses(addrs) && |Join(addrs)| <= LIST_SIZE - 2
  }

  /** Whatever a lookup lists can be pinned: the listing of the poller meets what a pin asks for. */
  lemma ListingsCanBePinned(nodes: seq<Node>)
    requires Addresses(Handled(nodes)) && Kept(Handled(nodes), LIST_SIZE - 1) > 0
    ensures Listable(Handled(nodes)[..Kept(Handled(nodes), LIST_SIZE - 1)])
  {
    var h := Handled(nodes);
    var fit := h[..Kept(h, LIST_SIZE - 1)];
    JoinDropsLastComma(fit);
    CostConcat(fit, []);
  }

  /** One poll: the pin stays, its addresses all being in the new list, or becomes the new list. */
  lemma PollStep(host: string, pinned: seq<string>, addrs: seq<string>)
    requires |host| <= MAX_HOST && ':' !in host && Addresses(pinned) && Listable(addrs)
    ensures var text := NewPin(Pinned(host + MARK + Join(pinned)), host, Join(addrs));
            || (text == host + MARK + Join(pinned) && Included(pinned, addrs))
            || text == host + MARK + Join(addrs)
  {
    CutOutPutIn(host, Join(pinned));
    PinTextNotCut(host, Join(addrs));
    CoveredMeansIncluded(addrs, pinned);
  }

  ghost function AfterPolls(host: string, lists: seq<seq<string>>): Pin
    requires |host| <= MAX_HOST
  {
    if lists == [] then NoPin
    else Pinned(NewPin(AfterPolls(host, lists[..|lists| - 1]), host, Join(lists[|lists| - 1])))
  }

  /** After every run of polls the pin is an address list included in the latest lookup. */
  lemma {:induction false} PinsAreCurrent(host: string, lists: seq<seq<string>>) returns (pinned: seq<string>)
    requires |host| <= MAX_HOST && ':' !in host && lists != []
    requires forall i :: 0 <= i < |lists| ==> Listable(lists[i])
    ensures AfterPolls(host, lists) == Pinned(host + MARK + Join(pinned))
    ensures Listable(pinned) && Included(pinned, lists[|lists| - 1])
    decreases |lists|
  {
    var addrs := lists[|lists| - 1];
    pinned := addrs;
    if |lists| == 1 {
      PinTextNotCut(host, Join(addrs));
    } else {
      var before := PinsAreCurrent(host, lists[..|lists| - 1]);
      PollStep(host, before, addrs);
      if AfterPolls(host, lists).text == host + MARK + Join(before) && Included(before, addrs) {
        pinned := before;
      }
    }
  }
}
