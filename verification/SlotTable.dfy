/** Tables of I/O watchers: a fixed array in which descriptor 0 marks a free slot. */
module SlotTables {
  datatype Interest = Interest(read: bool, write: bool)
  datatype Slot = Slot(fd: int, interest: Interest)

  /** No descriptor but the free mark is in two slots. */
  ghost predicate Distinct(slots: seq<Slot>) {
    forall i, j :: 0 <= i < j < |slots| && slots[i].fd == slots[j].fd ==> slots[i].fd == 0
  }

  /** The table read as a map from descriptors to what they are watched for. */
  ghost function Watched(slots: seq<Slot>): map<int, Interest>
    requires Distinct(slots)
  {
    map i | 0 <= i < |slots| && slots[i].fd != 0 :: slots[i].fd := slots[i].interest
  }

  /** Every slot is taken by some descriptor other than `fd`. */
  ghost predicate FullOfOthers(slots: seq<Slot>, fd: int) {
    forall i :: 0 <= i < |slots| ==> slots[i].fd != 0 && slots[i].fd != fd
  }

  /** Freeing a slot takes its descriptor, and no other, out of the map. */
  lemma ReleasedFor(slots: seq<Slot>, at: nat, x: int)
    requires Distinct(slots) && at < |slots|
    ensures var after := slots[at := slots[at].(fd := 0)];
            && Distinct(after)
            && (x in Watched(after) <==> x in Watched(slots) && x != slots[at].fd)
            && (x in Watched(after) ==> Watched(after)[x] == Watched(slots)[x])
  {
    var after := slots[at := slots[at].(fd := 0)];
    if x in Watched(after) {
      var i :| 0 <= i < |after| && after[i].fd == x && x != 0;
      assert slots[i] == after[i];
    }
    if x in Watched(slots) && x != slots[at].fd {
      var i :| 0 <= i < |slots| && slots[i].fd == x && x != 0;
      assert after[i] == slots[i];
    }
  }

  lemma ReleaseSlot(slots: seq<Slot>, at: nat)
    requires Distinct(slots) && at < |slots|
    ensures var after := slots[at := slots[at].(fd := 0)];
            && Distinct(after) && Watched(after) == Watched(slots) - {slots[at].fd}
  {
    ReleasedFor(slots, at, 0);
    hide Watched, Distinct;
    var a, b := Watched(slots[at := slots[at].(fd := 0)]), Watched(slots) - {slots[at].fd};
    forall x ensures x in a <==> x in b
             ensures x in a ==> a[x] == b[x] {
      ReleasedFor(slots, at, x);
    }
  }

  lemma NoneAtZero(slots: seq<Slot>)
    requires Distinct(slots)
    ensures 0 !in Watched(slots)
  {
  }

  /** The slot just filled is the only one that changes the map. */
  lemma ReservedFor(slots: seq<Slot>, at: nat, fd: int, interest: Interest, x: int)
    requires Distinct(slots) && at < |slots| && slots[at].fd == 0
    requires fd != 0 ==> forall i :: 0 <= i < |slots| ==> slots[i].fd != fd
    ensures var after := slots[at := Slot(fd, interest)];
            && Distinct(after)
            && (x in Watched(after) <==> x in Watched(slots) || (x == fd && fd != 0))
            && (x in Watched(after) ==> Watched(after)[x] == if x == fd then interest else Watched(slots)[x])
  {
    var after := slots[at := Slot(fd, interest)];
    assert after[at].fd == fd;
    if x in Watched(after) && x != fd {
      var i :| 0 <= i < |after| && after[i].fd == x && x != 0;
      assert slots[i] == after[i];
    }
    if x in Watched(slots) {
      var i :| 0 <= i < |slots| && slots[i].fd == x && x != 0;
      assert after[i] == slots[i];
    }
  }

  lemma ReserveSlot(slots: seq<Slot>, at: nat, fd: int, interest: Interest)
    requires Distinct(slots) && at < |slots| && slots[at].fd == 0
    requires fd != 0 ==> forall i :: 0 <= i < |slots| ==> slots[i].fd != fd
    ensures var after := slots[at := Slot(fd, interest)];
            Distinct(after) && Watched(after) == if fd != 0 then Watched(slots)[fd := interest] else Watched(slots)
  {
    ReservedFor(slots, at, fd, interest, 0);
    hide Watched, Distinct;
    var a, b := Watched(slots[at := Slot(fd, interest)]), Watched(slots);
    forall x ensures x in a <==> x in b || (x == fd && fd != 0)
             ensures x in a ==> a[x] == if x == fd then interest else b[x] {
      ReservedFor(slots, at, fd, interest, x);
    }
    NoneAtZero(slots);
  }

  lemma {:induction false} ManyDescriptors(slots: seq<Slot>, open: set<int>)
    requires Distinct(slots) && forall i :: 0 <= i < |slots| ==> slots[i].fd != 0 && slots[i].fd in open
    ensures |slots| <= |open|
    decreases |slots|
  {
    if slots == [] {
    } else {
      var n := |slots| - 1;
      ManyDescriptors(slots[..n], open - {slots[n].fd});
    }
  }

  class SlotTable {
    const slots: array<Slot>

    ghost predicate Valid()
      reads slots
    {
      Distinct(slots[..])
    }

    ghost function Map(): map<int, Interest>
      reads slots
      requires Valid()
    {
      Watched(slots[..])
    }

    constructor (n: nat)
      ensures Valid() && slots.Length == n && fresh(slots) && Map() == map[]
    {
      slots := new Slot[n](_ => Slot(0, Interest(false, false)));
    }

    /** The first slot that holds `fd`, or -1. */
    method GetIoEvent(fd: int) returns (at: int)
      ensures -1 <= at < slots.Length
      ensures at >= 0 ==> slots[at].fd == fd
      ensures at == -1 ==> forall i :: 0 <= i < slots.Length ==> slots[i].fd != fd
    {
      for i := 0 to slots.Length
        invariant forall j :: 0 <= j < i ==> slots[j].fd != fd
      {
        if slots[i].fd == fd {
          return i;
        }
      }
      at := -1;
    }

    /** Stops watching `fd`. Descriptor 0 is found in any free slot, which stays free. */
    method Release(fd: int)
      requires Valid()
      modifies slots
      ensures Valid() && Map() == old(Map()) - {fd}
      ensures fd != 0 ==> forall i :: 0 <= i < slots.Length ==> slots[i].fd != fd
      ensures FullOfOthers(slots[..], fd) <==> FullOfOthers(old(slots[..]), fd)
    {
      var at := GetIoEvent(fd);
      if at >= 0 {
        ReleaseSlot(slots[..], at);
        slots[at] := slots[at].(fd := 0);
        assert slots[..] == old(slots[..])[at := old(slots[at]).(fd := 0)];
        assert old(slots[..])[at].fd == fd && slots[..][at].fd == 0;
      }
    }

    /** Puts `fd` into a free slot, if there is one. A slot given to descriptor 0 counts as free again. */
    method Reserve(fd: int, interest: Interest) returns (ok: bool)
      requires Valid() && (fd != 0 ==> forall i :: 0 <= i < slots.Length ==> slots[i].fd != fd)
      modifies slots
      ensures Valid() && (ok <==> !FullOfOthers(old(slots[..]), fd))
      ensures Map() == if ok && fd != 0 then old(Map())[fd := interest] else old(Map())
    {
      var free := GetIoEvent(0);
      if free == -1 {
        return false;
      }
      ReserveSlot(slots[..], free, fd, interest);
      slots[free] := Slot(fd, interest);
      assert slots[..] == old(slots[..])[free := Slot(fd, interest)];
      assert old(slots[..])[free].fd == 0;
      ok := true;
    }

    /** The library asks for `fd` to be watched, or no longer. The table changes as the map does; there
        is no room exactly when every slot is taken by another descriptor. Descriptor 0 is never watched. */
    method Update(fd: int, remove: bool, interest: Interest) returns (ok: bool)
      requires Valid()
      modifies slots
      ensures Valid()
      ensures ok <==> remove || !FullOfOthers(old(slots[..]), fd)
      ensures Map() == if !remove && ok && fd != 0 then old(Map())[fd := interest] else old(Map()) - {fd}
    {
      hide Distinct, Watched, FullOfOthers;
      Release(fd);
      if remove {
        return true;
      }
      ok := Reserve(fd, interest);
      assert (old(Map()) - {fd})[fd := interest] == old(Map())[fd := interest];
    }
  }

  /** With no more open sockets than slots, one of them is never kept out by the others. */
  lemma RoomForOpen(slots: seq<Slot>, open: set<int>, sock: int)
    requires Distinct(slots) && Watched(slots).Keys <= open && |open| <= |slots| && sock in open
    ensures !FullOfOthers(slots, sock)
  {
    if FullOfOthers(slots, sock) {
      forall i | 0 <= i < |slots| ensures slots[i].fd in open - {sock} {
        assert slots[i].fd in Watched(slots);
      }
      ManyDescriptors(slots, open - {sock});
    }
  }

  const SOCKET_LIMIT: nat := 12  // HTTPS_SOCKET_LIMIT

  /** The sockets of the HTTPS client and the table that watches them. `lawful` says that the library has
      so far closed only open sockets that are not watched and watched only open ones. */
  class HttpsSockets {
    const table: SlotTable
    var connections: int
    ghost var open: set<int>
    ghost var lawful: bool

    /** At most 12 sockets are counted and, with a lawful library, open ones are counted and watched ones open. */
    ghost predicate Valid()
      reads this, table.slots
    {
      && table.Valid() && table.slots.Length == 12
      && connections <= 12
      && (lawful ==> |open| <= connections && table.Map().Keys <= open)
    }

    constructor ()
      ensures Valid() && open == {} && connections == 0 && lawful
    {
      table := new SlotTable(SOCKET_LIMIT);
      connections, open, lawful := 0, {}, true;
    }

    /** Opens a socket unless 12 are counted already; `sock` is what socket() returned. */
    method OpenSocket(sock: int) returns (r: int)
      requires Valid()
      modifies this
      ensures Valid() && lawful == old(lawful)
      ensures if old(connections) < 12 && sock != -1
              then r == sock && open == old(open) + {sock} && connections == old(connections) + 1
              else r == -1 && open == old(open) && connections == old(connections)
    {
      if connections >= SOCKET_LIMIT {
        return -1;
      }
      if sock == -1 {
        return -1;
      }
      connections := connections + 1;
      open := open + {sock};
      r := sock;
    }

    /** Closes a socket. A close that fails leaves the count as it is. */
    method CloseSocket(sock: int, closed: bool) returns (failed: bool)
      requires Valid()
      modifies this
      ensures Valid() && open == old(open) - {sock} && failed == !closed
      ensures lawful == (old(lawful) && sock in old(open) && sock !in table.Map())
      ensures connections == if closed then old(connections) - 1 else old(connections)
    {
      lawful := lawful && sock in open && sock !in table.Map();
      open := open - {sock};
      if !closed {
        return true;
      }
      connections := connections - 1;
      failed := false;
    }

    /** A watcher for an open socket is always found. */
    method Watch(sock: int, remove: bool, interest: Interest) returns (ok: bool)
      requires Valid()
      modifies this`lawful, table.slots
      ensures Valid() && lawful == (old(lawful) && (remove || sock in open))
      ensures ok <==> remove || !FullOfOthers(old(table.slots[..]), sock)
      ensures lawful ==> ok
      ensures table.Map() == if !remove && ok && sock != 0 then old(table.Map())[sock := interest]
                             else old(table.Map()) - {sock}
    {
      lawful := lawful && (remove || sock in open);
      if lawful && !remove {
        RoomForOpen(table.slots[..], open, sock);
      }
      hide FullOfOthers;
      ok := table.Update(sock, remove, interest);
    }
  }
}
