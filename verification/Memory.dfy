/** Byte-addressed memory: a finite map, so that touching an unmapped address is visible. */
module Memory {
  import opened Words
  import opened Ebpf

  type Mem = map<int, byte>

  predicate Mapped(m: Mem, a: int, n: nat)
  {
    forall k :: a <= k < a + n ==> k in m
  }

  function ReadBytes(m: Mem, a: int, n: nat): (bs: seq<byte>)
    requires Mapped(m, a, n)
    ensures |bs| == n
    decreases n
  {
    if n == 0 then [] else [m[a]] + ReadBytes(m, a + 1, n - 1)
  }

  function WriteBytes(m: Mem, a: int, bs: seq<byte>): Mem
    decreases |bs|
  {
    if bs == [] then m else WriteBytes(m[a := bs[0]], a + 1, bs[1..])
  }

  /** A little-endian load of `n` bytes. */
  function Load(m: Mem, a: int, n: nat): nat
    requires Mapped(m, a, n)
  {
    FromLe(ReadBytes(m, a, n))
  }

  /** A little-endian store of the low `n` bytes of `v`. */
  function Store(m: Mem, a: int, n: nat, v: int): Mem
  {
    WriteBytes(m, a, LeBytes(v, n))
  }

  lemma {:induction false} ReadBytesAt(m: Mem, a: int, n: nat)
    requires Mapped(m, a, n)
    ensures forall k :: 0 <= k < n ==> ReadBytes(m, a, n)[k] == m[a + k]
    decreases n
  {
    if n > 0 {
      ReadBytesAt(m, a + 1, n - 1);
      forall k | 0 <= k < n ensures ReadBytes(m, a, n)[k] == m[a + k] {
        if k > 0 {
          assert ReadBytes(m, a, n)[k] == ReadBytes(m, a + 1, n - 1)[k - 1] == m[a + 1 + (k - 1)];
        }
      }
    }
  }

  /** What a store changes: exactly the bytes it names. */
  lemma {:induction false} WriteBytesAt(m: Mem, a: int, bs: seq<byte>)
    ensures forall k :: k in WriteBytes(m, a, bs) <==> k in m || a <= k < a + |bs|
    ensures forall k :: k in WriteBytes(m, a, bs) ==>
      WriteBytes(m, a, bs)[k] == if a <= k < a + |bs| then bs[k - a] else m[k]
    decreases |bs|
  {
    if bs != [] {
      var m1, w := m[a := bs[0]], WriteBytes(m, a, bs);
      WriteBytesAt(m1, a + 1, bs[1..]);
      assert w == WriteBytes(m1, a + 1, bs[1..]);
    }
  }

  lemma StoreAt(m: Mem, a: int, n: nat, v: int)
    requires Mapped(m, a, n)
    ensures Store(m, a, n, v).Keys == m.Keys
    ensures forall k :: k in m && !(a <= k < a + n) ==> Store(m, a, n, v)[k] == m[k]
    ensures forall k :: a <= k < a + n ==> k in m && Store(m, a, n, v)[k] == LeBytes(v, n)[k - a]
  {
    WriteBytesAt(m, a, LeBytes(v, n));
    assert forall k :: k in Store(m, a, n, v) <==> k in m;
  }

  /** Loading depends on the loaded bytes only. */
  lemma LoadCong(m1: Mem, m2: Mem, a: int, n: nat)
    requires Mapped(m1, a, n) && Mapped(m2, a, n)
    requires forall k :: a <= k < a + n ==> m1[k] == m2[k]
    ensures Load(m1, a, n) == Load(m2, a, n)
  {
    ReadBytesAt(m1, a, n);
    ReadBytesAt(m2, a, n);
    assert ReadBytes(m1, a, n) == ReadBytes(m2, a, n);
  }

  lemma LoadStore(m: Mem, a: int, n: nat, v: int)
    requires Mapped(m, a, n)
    ensures Mapped(Store(m, a, n, v), a, n)
    ensures Load(Store(m, a, n, v), a, n) == v % Pow2(8 * n)
  {
    StoreAt(m, a, n, v);
    var w := Store(m, a, n, v);
    ReadBytesAt(w, a, n);
    assert ReadBytes(w, a, n) == LeBytes(v, n);
    FromLeBytes(v, n);
  }

  lemma LoadBound(m: Mem, a: int, n: nat)
    requires Mapped(m, a, n)
    ensures Load(m, a, n) < Pow2(8 * n)
  {
    FromLeBound(ReadBytes(m, a, n));
  }

  lemma LoadIsWord(m: Mem, a: int, sz: Size)
    requires Mapped(m, a, SizeBytes(sz))
    ensures Load(m, a, SizeBytes(sz)) < TWO64
  {
    LoadBound(m, a, SizeBytes(sz));
    Pow2Values();
    hide Load, Mapped;
  }

  function Load64(m: Mem, a: int): u64
    requires Mapped(m, a, 8)
  {
    var n := 8;
    LoadBound(m, a, n);
    Pow2Values();
    Load(m, a, n)
  }

  /** `big` holds everything `small` holds. */
  predicate Contains(big: Mem, small: Mem)
  {
    forall a :: a in small ==> a in big && big[a] == small[a]
  }

  /** The same store keeps containment. */
  lemma StoreBoth(big: Mem, small: Mem, a: int, n: nat, v: int)
    requires Contains(big, small) && Mapped(small, a, n)
    ensures Mapped(big, a, n) && Contains(Store(big, a, n, v), Store(small, a, n, v))
  {
    StoreAt(big, a, n, v);
    StoreAt(small, a, n, v);
  }
}
