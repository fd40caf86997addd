/** What the tools take from the kernel: hash maps that refuse a new key once they
    are full, and 64-bit unsigned words whose arithmetic wraps. */
module BpfMap {

  const U16: nat := 0x1_0000
  const U32: nat := 0x1_0000_0000
  const U64: nat := 0x1_0000_0000_0000_0000

  datatype Option<+T> = None | Some(value: T)

  function Sub64(a: nat, b: nat): nat {
    (a - b) % U64
  }

  lemma Sub64Exact(a: nat, b: nat)
    requires b <= a < U64
    ensures Sub64(a, b) == a - b
  {
  }

  /** `bpf_map_update_elem` with BPF_ANY: overwrite, or insert while there is room. */
  function Put<K, V>(m: map<K, V>, capacity: nat, key: K, value: V): map<K, V> {
    if key in m || |m| < capacity then m[key := value] else m
  }

  lemma PutSize<K, V>(m: map<K, V>, capacity: nat, key: K, value: V)
    ensures |Put(m, capacity, key, value)| == if key in m || |m| >= capacity then |m| else |m| + 1
  {
    if key in m {
      assert m[key := value].Keys == m.Keys;
    } else {
      assert m[key := value].Keys == m.Keys + {key};
    }
  }
}
