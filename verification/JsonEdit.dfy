/** The operations of src/util/json.c that make, link, unlink and free nodes. */
module JsonEdit {
  import opened Bytes
  import opened Memory
  import opened JsonGrammar
  import opened JsonTree
  import opened JsonLinks

  /** `append_node`. */
  method AppendNode(h: Heap, parent: Ptr, child: Ptr)
    requires parent in h.m.nodes && child in h.m.nodes
    requires parent != child
    requires h.m.nodes[parent].tail != NULL ==> h.m.nodes[parent].tail in h.m.nodes && h.m.nodes[parent].tail != child
    modifies h`m
    ensures h.m == AppendMem(old(h.m), parent, child)
  {
    h.Write(child, h.m.nodes[child].(parent := parent));
    h.Write(child, h.m.nodes[child].(prev := h.m.nodes[parent].tail));
    h.Write(child, h.m.nodes[child].(next := NULL));
    if h.m.nodes[parent].tail != NULL {
      h.Write(h.m.nodes[parent].tail, h.m.nodes[h.m.nodes[parent].tail].(next := child));
    } else {
      h.Write(parent, h.m.nodes[parent].(head := child));
    }
    h.Write(parent, h.m.nodes[parent].(tail := child));
  }

  /** `prepend_node`. */
  method PrependNode(h: Heap, parent: Ptr, child: Ptr)
    requires parent in h.m.nodes && child in h.m.nodes
    requires parent != child
    requires h.m.nodes[parent].head != NULL ==> h.m.nodes[parent].head in h.m.nodes && h.m.nodes[parent].head != child
    modifies h`m
    ensures h.m == PrependMem(old(h.m), parent, child)
  {
    h.Write(child, h.m.nodes[child].(parent := parent));
    h.Write(child, h.m.nodes[child].(prev := NULL));
    h.Write(child, h.m.nodes[child].(next := h.m.nodes[parent].head));
    if h.m.nodes[parent].head != NULL {
      h.Write(h.m.nodes[parent].head, h.m.nodes[h.m.nodes[parent].head].(prev := child));
    } else {
      h.Write(parent, h.m.nodes[parent].(tail := child));
    }
    h.Write(parent, h.m.nodes[parent].(head := child));
  }

  /** `json_append_element`; the requirements on tag and parent are the assertions of the source. */
  method JsonAppendElement(h: Heap, array_: Ptr, element: Ptr)
    requires array_ in h.m.nodes && element in h.m.nodes && array_ != element
    requires h.m.nodes[array_].tag == JSON_ARRAY && h.m.nodes[element].parent == NULL
    requires h.m.nodes[array_].tail != NULL ==> h.m.nodes[array_].tail in h.m.nodes && h.m.nodes[array_].tail != element
    modifies h`m
    ensures h.m == AppendMem(old(h.m), array_, element)
  {
    AppendNode(h, array_, element);
  }

  /** `append_member`, which takes the key over. */
  method AppendMember(h: Heap, object_: Ptr, key: Ptr, value: Ptr)
    requires object_ in h.m.nodes && value in h.m.nodes && object_ != value
    requires h.m.nodes[object_].tail != NULL ==> h.m.nodes[object_].tail in h.m.nodes && h.m.nodes[object_].tail != value
    modifies h`m
    ensures h.m == AppendMem(Set(old(h.m), value, Struct(old(h.m), value).(key := key)), object_, value)
  {
    h.Write(value, h.m.nodes[value].(key := key));
    AppendNode(h, object_, value);
  }

  /** `json_prepend_element`. */
  method JsonPrependElement(h: Heap, array_: Ptr, element: Ptr)
    requires array_ in h.m.nodes && element in h.m.nodes && array_ != element
    requires h.m.nodes[array_].tag == JSON_ARRAY && h.m.nodes[element].parent == NULL
    requires h.m.nodes[array_].head != NULL ==> h.m.nodes[array_].head in h.m.nodes && h.m.nodes[array_].head != element
    modifies h`m
    ensures h.m == PrependMem(old(h.m), array_, element)
  {
    PrependNode(h, array_, element);
  }

  /** `json_append_member`, which makes a copy of the key; `k` is where. */
  method JsonAppendMember(h: Heap, object_: Ptr, key: bytes, value: Ptr) returns (k: Ptr)
    requires object_ in h.m.nodes && value in h.m.nodes && object_ != value && 0 !in key
    requires h.m.nodes[object_].tag == JSON_OBJECT && h.m.nodes[value].parent == NULL
    requires h.m.nodes[object_].tail != NULL ==> h.m.nodes[object_].tail in h.m.nodes && h.m.nodes[object_].tail != value
    modifies h`m
    ensures k != NULL && k !in old(h.m).texts
    ensures h.m == AppendMem(WithNewKey(old(h.m), value, k, key), object_, value)
  {
    k := h.Strdup(key);
    AppendMember(h, object_, k, value);
  }

  /** `json_prepend_member`. */
  method JsonPrependMember(h: Heap, object_: Ptr, key: bytes, value: Ptr) returns (k: Ptr)
    requires object_ in h.m.nodes && value in h.m.nodes && object_ != value && 0 !in key
    requires h.m.nodes[object_].tag == JSON_OBJECT && h.m.nodes[value].parent == NULL
    requires h.m.nodes[object_].head != NULL ==> h.m.nodes[object_].head in h.m.nodes && h.m.nodes[object_].head != value
    modifies h`m
    ensures k != NULL && k !in old(h.m).texts
    ensures h.m == PrependMem(WithNewKey(old(h.m), value, k, key), object_, value)
  {
    k := h.Strdup(key);
    h.Write(value, h.m.nodes[value].(key := k));
    PrependNode(h, object_, value);
  }

  /** The pointers that `json_remove_from_parent` follows and writes through. */
  predicate Removable(m: Mem, n: Ptr) {
    n in m.nodes && n != NULL &&
    var d := m.nodes[n];
    d.parent != NULL ==>
      && d.parent in m.nodes && d.parent !in {n, d.prev, d.next}
      && d.prev != n && d.next != n && (d.prev == d.next ==> d.prev == NULL)
      && (d.prev != NULL ==> d.prev in m.nodes) && (d.next != NULL ==> d.next in m.nodes)
      && (d.key != NULL ==> d.key in m.texts)
  }

  /** `json_remove_from_parent`. */
  method JsonRemoveFromParent(h: Heap, node: Ptr)
    requires Removable(h.m, node)
    modifies h`m
    ensures h.m == RemoveMem(old(h.m), node)
  {
    var parent := h.m.nodes[node].parent;
    if parent != NULL {
      if h.m.nodes[node].prev != NULL {
        h.Write(h.m.nodes[node].prev, h.m.nodes[h.m.nodes[node].prev].(next := h.m.nodes[node].next));
      } else {
        h.Write(parent, h.m.nodes[parent].(head := h.m.nodes[node].next));
      }
      if h.m.nodes[node].next != NULL {
        h.Write(h.m.nodes[node].next, h.m.nodes[h.m.nodes[node].next].(prev := h.m.nodes[node].prev));
      } else {
        h.Write(parent, h.m.nodes[parent].(tail := h.m.nodes[node].prev));
      }
      h.FreeText(h.m.nodes[node].key);
      h.Write(node, h.m.nodes[node].(parent := NULL, prev := NULL, next := NULL, key := NULL));
    }
  }
}
