/** The flight recorder: a ring of the latest log entries. */
module RingBuffers {
  const MAX_LOG_ENTRY_SIZE: nat := 8192

  datatype Entry = Empty | Text(text: string)

  function Cut(s: string): string {
    if |s| > MAX_LOG_ENTRY_SIZE then s[..MAX_LOG_ENTRY_SIZE] else s
  }

  /** The last `n` entries pushed, or all of them, oldest first, each cut to size. */
  ghost function Recent(history: seq<string>, n: nat): seq<string> {
    var from := if |history| > n then |history| - n else 0;
    seq(|history| - from, i requires 0 <= i < |history| - from => Cut(history[from + i]))
  }

  /** The lines are the beginnings of the last entries, each of up to 8192 characters. */
  ghost predicate Beginnings(lines: seq<string>, history: seq<string>, n: nat) {
    && |lines| == (if |history| < n then |history| else n)
    && forall i :: 0 <= i < |lines| ==>
         var entry := history[|history| - |lines| + i];
         lines[i] <= entry && |lines[i]| == if |entry| < 8192 then |entry| else 8192
  }

  lemma RecentIs(history: seq<string>, n: nat)
    ensures Beginnings(Recent(history, n), history, n)
  {
    var lines := Recent(history, n);
    forall i | 0 <= i < |lines|
      ensures var entry := history[|history| - |lines| + i];
              lines[i] <= entry && |lines[i]| == if |entry| < 8192 then |entry| else 8192
    {
      assert lines[i] == Cut(history[|history| - |lines| + i]);
    }
  }

  class RingBuffer {
    const storage: array<Entry>
    var next: nat
    var full: bool
    ghost var history: seq<string>

    /** Which entry of the history slot `i` holds: of this lap in front of `next`, of the last behind. */
    ghost function Lap(i: nat): int
      reads this
    {
      if i < next then |history| - next + i else |history| - next - storage.Length + i
    }

    ghost predicate Valid()
      reads this, storage
    {
      && next < storage.Length
      && (if full then |history| >= storage.Length else |history| == next)
      && (forall i :: 0 <= i < storage.Length ==>
            if i < next || full then 0 <= Lap(i) < |history| && storage[i] == Text(Cut(history[Lap(i)]))
            else storage[i] == Empty)
    }

    constructor (size: nat)
      requires size >= 1
      ensures Valid() && storage.Length == size && fresh(storage) && history == []
    {
      storage := new Entry[size](_ => Empty);
      next, full, history := 0, false, [];
    }

    /** No recorder is made for size 0. */
    static method Init(size: nat) returns (rb: RingBuffer?)
      ensures rb == null <==> size < 1
      ensures rb != null ==>
                fresh(rb) && fresh(rb.storage) && rb.Valid() && rb.storage.Length == size && rb.history == []
    {
      rb := null;
      if size < 1 {
        return;
      }
      rb := new RingBuffer(size);
    }

    method PushBack(data: string)
      requires Valid()
      modifies this, storage
      ensures Valid() && history == old(history) + [data]
    {
      hide Cut;
      storage[next] := Text(Cut(data));
      history := history + [data];
      next := next + 1;
      if next == storage.Length {
        next := 0;
        full := true;
      }
    }

    /** The dump is exactly the recent history, each entry cut to 8192 characters; the loop visits each live
        slot once. */
    method Dump() returns (lines: seq<string>)
      requires Valid()
      ensures lines == Recent(history, storage.Length)
      ensures Beginnings(lines, history, storage.Length)
    {
      hide Cut, Beginnings;
      RecentIs(history, storage.Length);
      lines := [];
      if next == 0 && !full {
        return;
      }
      var current: nat := if full then next else 0;
      ghost var live := if full then storage.Length else next;
      ghost var from := |history| - live;
      var first := true;
      while first || current != next
        invariant current < storage.Length && |lines| <= live
        invariant first <==> |lines| == 0
        invariant first ==> current == if full then next else 0
        invariant !first && current != next ==> |lines| < live
        invariant !first && current == next ==> |lines| == live
        invariant current != next || first ==> Lap(current) == from + |lines|
        invariant forall i :: 0 <= i < |lines| ==> lines[i] == Cut(history[from + i])
        decreases live - |lines|
      {
        first := false;
        assert storage[current].Text?;
        lines := lines + [storage[current].text];
        current := current + 1;
        if current == storage.Length {
          current := 0;
        }
      }
    }
  }
}
