/** The C heap: what is allocated, what it holds, and the calls that allocate and free. */
module Memory {
  import opened Bytes

  /** Addresses; 0 is the null pointer. */
  type Ptr = nat

  const NULL: Ptr := 0

  /** The struct JsonNode, with the members of its union side by side. A number is held as the text
      it prints as. */
  datatype Node =
    Node(parent: Ptr, prev: Ptr, next: Ptr, key: Ptr, tag: nat,
         bool_: bool, string_: Ptr, number_: bytes, head: Ptr, tail: Ptr)

  /** The allocated nodes and C strings. */
  datatype Mem = Mem(nodes: map<Ptr, Node>, texts: map<Ptr, bytes>)

  lemma {:induction false} UpperBound(s: set<Ptr>) returns (b: Ptr)
    ensures forall p <- s :: p < b
  {
    if s == {} {
      b := 0;
    } else {
      var p :| p in s;
      var c := UpperBound(s - {p});
      b := if c <= p then p + 1 else c;
      assert forall q <- s :: q == p || q in s - {p};
    }
  }

  lemma FreshExists(s: set<Ptr>)
    ensures exists p: Ptr :: p != NULL && p !in s
  {
    var b := UpperBound(s + {NULL});
    assert b != NULL && b !in s;
  }

  /** The part of the state that `malloc` and `free` work on. An access to a node or string that is
      not allocated has no meaning here, so that every proof about a method shows that there is
      none. */
  class Heap {
    var m: Mem
    /** The byte buffers that are allocated and being filled. */
    ghost var buffers: set<array<byte>>

    constructor ()
      ensures m == Mem(map[], map[]) && buffers == {}
    {
      m := Mem(map[], map[]);
      buffers := {};
    }

    /** `mknode`: a struct of zeroes but for its tag. */
    method NewNode(tag: nat) returns (p: Ptr)
      modifies this`m
      ensures p != NULL && p !in old(m).nodes
      ensures m == old(m).(nodes := old(m).nodes[p := Node(0, 0, 0, 0, tag, false, 0, [], 0, 0)])
    {
      FreshExists(m.nodes.Keys);
      p :| p != NULL && p !in m.nodes.Keys;
      m := m.(nodes := m.nodes[p := Node(0, 0, 0, 0, tag, false, 0, [], 0, 0)]);
    }

    /** A store through a `JsonNode *`. */
    method Write(p: Ptr, n: Node)
      requires p in m.nodes
      modifies this`m
      ensures m == old(m).(nodes := old(m).nodes[p := n])
    {
      m := m.(nodes := m.nodes[p := n]);
    }

    method FreeNode(p: Ptr)
      requires p in m.nodes
      modifies this`m
      ensures m == old(m).(nodes := old(m).nodes - {p})
    {
      m := m.(nodes := m.nodes - {p});
    }

    /** `json_strdup`. */
    method Strdup(t: bytes) returns (p: Ptr)
      requires 0 !in t
      modifies this`m
      ensures p != NULL && p !in old(m).texts
      ensures m == old(m).(texts := old(m).texts[p := t])
    {
      FreshExists(m.texts.Keys);
      p :| p != NULL && p !in m.texts.Keys;
      m := m.(texts := m.texts[p := t]);
    }

    /** `free` of a C string, which does nothing for the null pointer. */
    method FreeText(p: Ptr)
      requires p != NULL ==> p in m.texts
      modifies this`m
      ensures m == if p == NULL then old(m) else old(m).(texts := old(m).texts - {p})
    {
      if p != NULL {
        m := m.(texts := m.texts - {p});
      }
    }

    method Malloc(size: nat) returns (a: array<byte>)
      modifies this`buffers
      ensures fresh(a) && a.Length == size
      ensures buffers == old(buffers) + {a}
    {
      a := new byte[size];
      buffers := buffers + {a};
    }

    method FreeBuffer(a: array<byte>)
      requires a in buffers
      modifies this`buffers, a
      ensures buffers == old(buffers) - {a}
    {
      modify a;
      buffers := buffers - {a};
    }

    /** `realloc` to a larger size, which keeps the bytes of the old block. */
    method Realloc(a: array<byte>, size: nat) returns (b: array<byte>)
      requires a in buffers && a.Length <= size
      modifies this`buffers, a
      ensures fresh(b) && b.Length == size && b[..a.Length] == old(a[..])
      ensures buffers == old(buffers) - {a} + {b}
    {
      b := Malloc(size);
      forall i | 0 <= i < a.Length {
        b[i] := a[i];
      }
      assert b[..a.Length] == a[..];
      FreeBuffer(a);
    }

    /** The buffer with a terminator behind its first `len` bytes is from now on used as a C string. */
    method Seal(a: array<byte>, len: nat) returns (p: Ptr)
      requires a in buffers && len < a.Length && a[len] == 0 && 0 !in a[..len]
      modifies this
      ensures p != NULL && p !in old(m).texts
      ensures m == old(m).(texts := old(m).texts[p := a[..len]])
      ensures buffers == old(buffers) - {a}
    {
      p := Strdup(a[..len]);
      buffers := buffers - {a};
    }
  }
}
