/** The growing output buffer `SB` of src/util/json.c. */
module StringBuffer {
  import opened Bytes
  import opened Memory

  /** The capacities a buffer goes through: 16, doubled any number of times. */
  predicate IsCapacity(n: nat) {
    n == 16 || (n > 16 && n % 2 == 0 && IsCapacity(n / 2))
  }

  /** Of the buffers that are allocated, the one at `start` has become the one at `at`. */
  ghost predicate Moved<T>(before: set<T>, start: T, now: set<T>, at: T) {
    now == before - {start} + {at}
  }

  lemma MovedAgain<T>(before: set<T>, start: T, now: set<T>, at: T, later: set<T>, to: T)
    requires Moved(before, start, now, at) && Moved(now, at, later, to)
    requires at == start || at !in before
    ensures Moved(before, start, later, to) == true
  {
  }

  class SB {
    var start: array<byte>
    var cur: nat
    var end: nat

    ghost predicate Valid()
      reads this
    {
      cur <= end && IsCapacity(end) && start.Length == end + 1
    }

    ghost function Contents(): bytes
      requires Valid()
      reads this, start
    {
      start[..cur]
    }

    /** `sb_init`. */
    constructor (h: Heap)
      modifies h`buffers
      ensures Valid() && fresh(start) && Contents() == [] && end == 16
      ensures h.buffers == old(h.buffers) + {start}
    {
      var a := h.Malloc(17);
      start := a;
      cur := 0;
      end := 16;
    }

    /** `sb_grow`. */
    method Grow(h: Heap, need: nat)
      requires Valid() && start in h.buffers
      modifies this, start, h`buffers
      ensures Valid() && fresh(start) && Contents() == old(Contents()) && cur == old(cur)
      ensures end - cur >= need
      ensures end == 2 * old(end) || end < 2 * (cur + need)
      ensures h.buffers == old(h.buffers) - {old(start)} + {start}
    {
      var alloc := 2 * end;
      assert alloc / 2 == end;
      while alloc < cur + need
        invariant IsCapacity(alloc) && alloc >= 2 * end
        invariant alloc == 2 * end || alloc < 2 * (cur + need)
        decreases cur + need - alloc
      {
        assert 2 * alloc / 2 == alloc;
        alloc := 2 * alloc;
      }
      start := h.Realloc(start, alloc + 1);
      end := alloc;
      assert start[..cur] == old(start[..])[..cur];
    }

    /** `sb_need`. */
    method Need(h: Heap, need: nat)
      requires Valid() && start in h.buffers
      modifies this, start, h`buffers
      ensures Valid() && Contents() == old(Contents()) && cur == old(cur)
      ensures end - cur >= need
      ensures start == old(start) || fresh(start)
      ensures h.buffers == old(h.buffers) - {old(start)} + {start}
    {
      if end - cur < need {
        Grow(h, need);
      }
    }

    /** What the loops of `parse_string` and `emit_string` do after raw writes up to position `b`: the
        buffer gets to know about the new bytes and makes room for the next ones. */
    method Commit(h: Heap, b: nat, need: nat)
      requires Valid() && start in h.buffers && b <= end
      modifies this, start, h`buffers
      ensures Valid() && Contents() == old(start[..b]) && cur == b
      ensures end - cur >= need
      ensures start == old(start) || fresh(start)
      ensures h.buffers == old(h.buffers) - {old(start)} + {start}
    {
      cur := b;
      Need(h, need);
    }

    /** `sb_put` and `sb_puts`. */
    method Put(h: Heap, text: bytes)
      requires Valid() && start in h.buffers
      modifies this, start, h`buffers
      ensures Valid() && Contents() == old(Contents()) + text
      ensures start == old(start) || fresh(start)
      ensures h.buffers == old(h.buffers) - {old(start)} + {start}
    {
      Need(h, |text|);
      ghost var before := Contents();
      forall i | 0 <= i < |text| {
        start[cur + i] := text[i];
      }
      assert start[..cur + |text|] == before + text;
      cur := cur + |text|;
    }

    /** `sb_putc`. */
    method Putc(h: Heap, c: byte)
      requires Valid() && start in h.buffers
      modifies this, start, h`buffers
      ensures Valid() && Contents() == old(Contents()) + [c]
      ensures start == old(start) || fresh(start)
      ensures h.buffers == old(h.buffers) - {old(start)} + {start}
    {
      if cur >= end {
        Grow(h, 1);
      }
      start[cur] := c;
      cur := cur + 1;
    }

    /** `sb_finish`: the buffer itself, terminated, becomes the C string that is returned. */
    method Finish(h: Heap) returns (p: Ptr)
      requires Valid() && start in h.buffers && 0 !in Contents()
      modifies start, h
      ensures p != NULL && p !in old(h.m).texts
      ensures h.m == old(h.m).(texts := old(h.m).texts[p := old(Contents())])
      ensures h.buffers == old(h.buffers) - {start}
    {
      ghost var t := Contents();
      start[cur] := 0;
      assert start[..cur] == t;
      p := h.Seal(start, cur);
    }

    /** `sb_free`. */
    method Free(h: Heap)
      requires start in h.buffers
      modifies start, h`buffers
      ensures h.buffers == old(h.buffers) - {start}
    {
      h.FreeBuffer(start);
    }
  }
}
