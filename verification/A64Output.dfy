/** Emitted AArch64 code before and during back-patching. */
module A64Output {
  import opened Words
  import opened Ebpf
  import opened A64
  import opened A64Patch
  import opened A64Select
  import opened A64Exec
  import opened A64Layout
  import L = Layout

  predicate AllEncodable(items: seq<Item>) { forall i :: 0 <= i < |items| ==> Encodable(items[i]) }

  /** The instruction words, least significant byte first, with blank jumps and addresses. */
  function Image(items: seq<Item>): (s: seq<byte>)
    requires AllEncodable(items)
    ensures |s| == 4 * |items|
  {
    if items == [] then [] else Image(items[..|items| - 1]) + LeBytes(Encode(Blank(items[|items| - 1])), 4)
  }

  function JumpOf(item: Item, at: nat): seq<L.Jump>
  {
    match item
    case To(t) => [L.Jump(at, L.TargetPc(t))]
    case If(_, t) => [L.Jump(at, L.TargetPc(t))]
    case _ => []
  }

  function StringOf(item: Item, at: nat): seq<L.StringRef>
  {
    if item.Address? then [L.StringRef(at, 0)] else []
  }

  /** The jumps of the first `k` items, and the rest of them. */
  function JumpSites(items: seq<Item>, k: nat): seq<L.Jump>
    requires k <= |items|
  {
    if k == 0 then [] else JumpSites(items, k - 1) + JumpOf(items[k - 1], 4 * (k - 1))
  }

  function StringSites(items: seq<Item>, k: nat): seq<L.StringRef>
    requires k <= |items|
  {
    if k == 0 then [] else StringSites(items, k - 1) + StringOf(items[k - 1], 4 * (k - 1))
  }

  /** A table that is full takes no more entries. */
  function Cut<T>(s: seq<T>): seq<T> { if |s| <= MAX_INSTS then s else s[..MAX_INSTS] }

  lemma CutMore<T>(s: seq<T>, t: seq<T>)
    ensures |Cut(s)| == MAX_INSTS ==> Cut(s + t) == Cut(s)
    ensures |Cut(s)| < MAX_INSTS ==> Cut(s) == s
    ensures |t| <= 1 && |Cut(s)| < MAX_INSTS ==> Cut(s + t) == s + t
  {
  }

  lemma {:induction false} SitesPrefix(items: seq<Item>, more: seq<Item>, k: nat)
    requires k <= |items|
    ensures JumpSites(items + more, k) == JumpSites(items, k) && StringSites(items + more, k) == StringSites(items, k)
    decreases k
  {
    if k > 0 {
      SitesPrefix(items, more, k - 1);
    }
  }

  /** One more item. */
  lemma Snoc(items: seq<Item>, item: Item)
    requires AllEncodable(items) && Encodable(item)
    ensures var all, n := items + [item], |items|;
      && AllEncodable(all) && Image(all) == Image(items) + LeBytes(Encode(Blank(item)), 4)
      && JumpSites(all, n + 1) == JumpSites(items, n) + JumpOf(item, 4 * n)
      && StringSites(all, n + 1) == StringSites(items, n) + StringOf(item, 4 * n)
  {
    hide Encode, LeBytes, Encodable;
    var all := items + [item];
    assert all[..|all| - 1] == items;
    SitesPrefix(items, [item], |items|);
  }

  // ----- words -----

  lemma WordOfBytes(s: seq<byte>, at: nat, w: u32)
    requires at + 4 <= |s| && s[at..at + 4] == LeBytes(w, 4)
    ensures WordAt(s, at) == w
  {
    hide LeBytes, FromLe, Pow2;
    assert Pow2(32) == TWO32 by { Pow2Values(); }
    FromLeBytes(w, 4);
  }

  lemma SameWord(s: seq<byte>, t: seq<byte>, at: nat)
    requires at + 4 <= |s| && at + 4 <= |t| && s[at..at + 4] == t[at..at + 4]
    ensures WordAt(s, at) == WordAt(t, at)
  {
    hide FromLe;
  }

  function Overwritten(s: seq<byte>, at: nat, w: u32): (r: seq<byte>)
    requires at + 4 <= |s|
    ensures |r| == |s|
  {
    s[..at] + LeBytes(w, 4) + s[at + 4..]
  }

  lemma OverwrittenWords(s: seq<byte>, at: nat, w: u32, other: nat)
    requires at + 4 <= |s| && other + 4 <= |s| && at % 4 == 0 && other % 4 == 0
    ensures WordAt(Overwritten(s, at, w), other) == if other == at then w else WordAt(s, other)
  {
    hide LeBytes, WordAt;
    var r := Overwritten(s, at, w);
    if other == at {
      assert r[at..at + 4] == LeBytes(w, 4);
      WordOfBytes(r, at, w);
    } else {
      assert other + 4 <= at || at + 4 <= other;
      assert r[other..other + 4] == s[other..other + 4];
      SameWord(r, s, other);
    }
  }

  lemma {:induction false} ImageWords(items: seq<Item>, i: nat, tail: seq<byte>)
    requires AllEncodable(items) && i < |items|
    ensures WordAt(Image(items) + tail, 4 * i) == Encode(Blank(items[i]))
    decreases |items|
  {
    hide LeBytes, Encode, WordAt;
    var n := |items| - 1;
    var front, last := items[..n], LeBytes(Encode(Blank(items[n])), 4);
    var s := Image(items) + tail;
    assert Image(items) == Image(front) + last;
    if i == n {
      assert s[4 * i..4 * i + 4] == last;
      WordOfBytes(s, 4 * i, Encode(Blank(items[n])));
    } else {
      ImageWords(front, i, tail);
      assert s[4 * i..4 * i + 4] == (Image(front) + tail)[4 * i..4 * i + 4];
      SameWord(s, Image(front) + tail, 4 * i);
    }
  }

  // ----- back-patching -----

  predicate IsJump(item: Item) { item.To? || item.If? }

  /** Item `i` when the jumps of the first `jumps` items, and the addresses of the first `strings`, are filled in. */
  function Stage(items: seq<Item>, i: nat, l: L.Places, jumps: nat, strings: nat): A
    requires i < |items|
  {
    if (IsJump(items[i]) && i < jumps) || (items[i].Address? && i < strings) then Final(items[i], 4 * i, l)
      else Blank(items[i])
  }

  lemma StageEncodable(items: seq<Item>, i: nat, l: L.Places, jumps: nat, strings: nat)
    requires i < |items| && AllEncodable(items)
    ensures WellFormed(Stage(items, i, l, jumps, strings))
  {
    assert Encodable(items[i]);
  }

  ghost predicate WordIs(s: seq<byte>, items: seq<Item>, i: nat, l: L.Places, jumps: nat, strings: nat)
    requires i < |items|
  {
    var a := Stage(items, i, l, jumps, strings);
    4 * i + 4 <= |s| && WellFormed(a) && WordAt(s, 4 * i) == Encode(a)
  }

  /** Back-patching has come this far, and has left what follows the code alone. */
  ghost predicate Patched(s: seq<byte>, items: seq<Item>, l: L.Places, jumps: nat, strings: nat, tail: seq<byte>)
  {
    && |s| == 4 * |items| + |tail| && s[4 * |items|..] == tail
    && forall i :: 0 <= i < |items| ==> WordIs(s, items, i, l, jumps, strings)
  }

  lemma UnpatchedImage(items: seq<Item>, l: L.Places, tail: seq<byte>)
    requires AllEncodable(items)
    ensures Patched(Image(items) + tail, items, l, 0, 0, tail)
  {
    hide Encode, WordAt, Encodable;
    var s := Image(items) + tail;
    forall i | 0 <= i < |items| ensures WordIs(s, items, i, l, 0, 0) {
      ImageWords(items, i, tail);
      StageEncodable(items, i, l, 0, 0);
    }
  }

  /** Items that are not of the kind being patched are passed over. */
  lemma PassOver(s: seq<byte>, items: seq<Item>, l: L.Places, jumps: nat, strings: nat, jumps': nat, strings': nat,
                 tail: seq<byte>)
    requires Patched(s, items, l, jumps, strings, tail) && jumps <= jumps' <= |items| && strings <= strings' <= |items|
    requires forall i :: jumps <= i < jumps' ==> !IsJump(items[i])
    requires forall i :: strings <= i < strings' ==> !items[i].Address?
    ensures Patched(s, items, l, jumps', strings', tail)
  {
    hide Encode, WordAt, Final, Blank, WellFormed;
    forall i | 0 <= i < |items| ensures WordIs(s, items, i, l, jumps', strings') {
      assert WordIs(s, items, i, l, jumps, strings);
    }
  }

  /** The word of one item is replaced by its final form. */
  lemma PatchOne(s: seq<byte>, items: seq<Item>, l: L.Places, k: nat, jumps: nat, strings: nat, tail: seq<byte>, w: u32)
    requires Patched(s, items, l, jumps, strings, tail) && k < |items| && AllEncodable(items)
    requires w == Encode(Final(items[k], 4 * k, l))
    requires (IsJump(items[k]) && jumps == k) || (items[k].Address? && strings == k)
    ensures Patched(Overwritten(s, 4 * k, w), items, l, if IsJump(items[k]) then k + 1
      else jumps, if IsJump(items[k]) then strings else k + 1, tail)
  {
    hide Encode, WordAt, Final, Blank, WellFormed, LeBytes;
    var r := Overwritten(s, 4 * k, w);
    var jumps', strings' := if IsJump(items[k]) then k + 1 else jumps, if IsJump(items[k]) then strings else k + 1;
    assert r[4 * |items|..] == s[4 * |items|..];
    forall i | 0 <= i < |items| ensures WordIs(r, items, i, l, jumps', strings') {
      assert WordIs(s, items, i, l, jumps, strings);
      OverwrittenWords(s, 4 * k, w, 4 * i);
      StageEncodable(items, i, l, jumps', strings');
    }
  }

  /** The fix-up of a jump's blank word gives its final word. */
  lemma JumpFixed(s: seq<byte>, items: seq<Item>, l: L.Places, k: nat, strings: nat, tail: seq<byte>)
    requires Patched(s, items, l, k, strings, tail) && k < |items| && IsJump(items[k])
    ensures 4 * k + 4 <= |s| && WellFormed(Final(items[k], 4 * k, l))
    ensures var t := items[k].target;
      UpdateBranch(WordAt(s, 4 * k), L.PlaceOf(l, L.TargetPc(t)) - 4 * k) == Encode(Final(items[k], 4 * k, l))
  {
    assert WordIs(s, items, k, l, k, strings);
    hide Encode, WordAt, UpdateBranch, L.PlaceOf;
    BranchUpdated(Blank(items[k]), L.PlaceOf(l, L.TargetPc(items[k].target)) - 4 * k);
  }

  lemma AddressFixed(s: seq<byte>, items: seq<Item>, l: L.Places, k: nat, jumps: nat, tail: seq<byte>)
    requires Patched(s, items, l, jumps, k, tail) && k < |items| && items[k].Address?
    ensures 4 * k + 4 <= |s| && WellFormed(Final(items[k], 4 * k, l))
    ensures UpdateAdr(WordAt(s, 4 * k), l.strings - 4 * k) == Encode(Final(items[k], 4 * k, l))
  {
    hide Encode, WordAt, UpdateAdr, L.PlaceOf;
    assert WordIs(s, items, k, l, jumps, k);
    hide Patched, AllEncodable;
    AdrUpdated(items[k].rd, l.strings - 4 * k);
  }

  /** The item of the j-th recorded jump: no jump lies between it and the one before. */
  lemma {:induction false} NextJump(items: seq<Item>, k: nat, n: nat) returns (i: nat)
    requires k <= n <= |items| && |JumpSites(items, k)| < |JumpSites(items, n)|
    ensures k <= i < n && IsJump(items[i]) && |JumpSites(items, i)| == |JumpSites(items, k)|
    ensures forall x :: k <= x < i ==> !IsJump(items[x])
    ensures JumpSites(items, n)[|JumpSites(items, k)|] == L.Jump(4 * i, L.TargetPc(items[i].target))
    decreases n - k
  {
    if IsJump(items[k]) {
      i := k;
      JumpAt(items, k, n);
    } else {
      assert JumpSites(items, k + 1) == JumpSites(items, k);
      i := NextJump(items, k + 1, n);
    }
  }

  lemma {:induction false} JumpAt(items: seq<Item>, k: nat, n: nat)
    requires k < n <= |items| && IsJump(items[k])
    ensures |JumpSites(items, k)| < |JumpSites(items, n)|
    ensures JumpSites(items, n)[|JumpSites(items, k)|] == L.Jump(4 * k, L.TargetPc(items[k].target))
    ensures |JumpSites(items, k + 1)| == |JumpSites(items, k)| + 1
    decreases n
  {
    if k + 1 < n {
      JumpAt(items, k, n - 1);
    }
  }

  lemma {:induction false} NoMoreJumps(items: seq<Item>, k: nat, n: nat)
    requires k <= n <= |items| && |JumpSites(items, k)| == |JumpSites(items, n)|
    ensures forall x :: k <= x < n ==> !IsJump(items[x])
  {
    forall x | k <= x < n ensures !IsJump(items[x]) {
      if IsJump(items[x]) {
        JumpAt(items, x, n);
        SitesGrow(items, k, x);
      }
    }
  }

  lemma {:induction false} SitesGrow(items: seq<Item>, k: nat, n: nat)
    requires k <= n <= |items|
    ensures |JumpSites(items, k)| <= |JumpSites(items, n)| && |StringSites(items, k)| <= |StringSites(items, n)|
    decreases n
  {
    if k < n {
      SitesGrow(items, k, n - 1);
    }
  }

  lemma {:induction false} NextString(items: seq<Item>, k: nat, n: nat) returns (i: nat)
    requires k <= n <= |items| && |StringSites(items, k)| < |StringSites(items, n)|
    ensures k <= i < n && items[i].Address? && |StringSites(items, i)| == |StringSites(items, k)|
    ensures |StringSites(items, i + 1)| == |StringSites(items, k)| + 1
    ensures forall x :: k <= x < i ==> !items[x].Address?
    ensures StringSites(items, n)[|StringSites(items, k)|] == L.StringRef(4 * i, 0)
    decreases n - k
  {
    if items[k].Address? {
      i := k;
      StringAt(items, k, n);
    } else {
      assert StringSites(items, k + 1) == StringSites(items, k);
      i := NextString(items, k + 1, n);
    }
  }

  lemma {:induction false} StringAt(items: seq<Item>, k: nat, n: nat)
    requires k < n <= |items| && items[k].Address?
    ensures |StringSites(items, k)| < |StringSites(items, n)|
    ensures StringSites(items, n)[|StringSites(items, k)|] == L.StringRef(4 * k, 0)
    ensures |StringSites(items, k + 1)| == |StringSites(items, k)| + 1
    decreases n
  {
    if k + 1 < n {
      StringAt(items, k, n - 1);
    }
  }

  lemma NoMoreStrings(items: seq<Item>, k: nat, n: nat)
    requires k <= n <= |items| && |StringSites(items, k)| == |StringSites(items, n)|
    ensures forall x :: k <= x < n ==> !items[x].Address?
  {
    forall x | k <= x < n ensures !items[x].Address? {
      if items[x].Address? {
        StringAt(items, x, n);
        SitesGrow(items, k, x);
      }
    }
  }

  /** Everything patched: the items are in place. */
  lemma AllPatched(s: seq<byte>, items: seq<Item>, l: L.Places, tail: seq<byte>)
    requires Patched(s, items, l, |items|, |items|, tail) && AllEncodable(items)
    ensures InPlace(s, 0, items, l) && |s| == 4 * |items| + |tail| && s[4 * |items|..] == tail
  {
    hide Encode, WordAt, Encodable, WellFormed;
    forall i | 0 <= i < |items| ensures ItemAt(s, 4 * (0 + i), items[i], l) {
      assert WordIs(s, items, i, l, |items|, |items|);
      assert Encodable(items[i]);
    }
  }
}
