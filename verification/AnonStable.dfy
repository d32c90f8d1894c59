/** Over any sequence of additions a name keeps its offset, and no two names share one. */
module AnonStable {
  import opened Slices
  import opened AnonHash
  import opened AnonNames

  // ----- what is assumed of the names -----

  /** Two names agree in their first `i + 1` hashes. */
  predicate Same(hash: Hashes, i: nat, s: string, t: string)
    requires i < ANONY_HASH_FUNC_NUM
  {
    HashText(hash, i, s) == HashText(hash, i, t)
  }

  lemma SameMeans(hash: Hashes, i: nat, s: string, t: string)
    requires i < ANONY_HASH_FUNC_NUM
    ensures Same(hash, i, s, t) <==> forall k: nat :: k <= i ==> hash(k, s) == hash(k, t)
    ensures forall j: nat :: j <= i && Same(hash, i, s, t) ==> Same(hash, j, s, t)
  {
    HashTextInjective(hash, i, s, i, t);
    forall j: nat | j <= i && Same(hash, i, s, t) ensures Same(hash, j, s, t) {
      HashTextInjective(hash, j, s, j, t);
    }
  }

  /** The names are identifiers of which no two agree in their first `n` hashes. */
  predicate Distinguished(hash: Hashes, n: nat, names: set<string>)
    requires 0 < n <= ANONY_HASH_FUNC_NUM
  {
    && (forall s :: s in names ==> Identifier(s))
    && forall s, t :: s in names && t in names && s != t ==> !Same(hash, n - 1, s, t)
  }

  /** No string added as it is equals a hash text. */
  predicate NoText(hash: Hashes, names: set<string>, raws: set<string>)
  {
    forall x :: x in raws ==> NulFree(x) && forall s, i: nat :: s in names && i <= ANONY_HASH_FUNC_NUM ==>
      x != HashText(hash, i, s)
  }

  predicate NulFree(x: string) { forall i :: 0 <= i < |x| ==> x[i] != '\0' }

  // ----- the invariant -----

  /** `given` holds for every name added the number of hashes, less one, in the text it was given. */
  type Given = map<string, nat>

  predicate Levels(names: set<string>, given: Given)
  {
    forall s :: s in given ==> s in names && given[s] < ANONY_HASH_FUNC_NUM
  }

  /** Names added and all their texts were seen, and nothing else. */
  predicate SeenIs(hash: Hashes, given: Given, seen: set<string>)
  {
    && (forall s :: s in given ==> s in seen)
    && (forall s, i: nat :: s in given && i < ANONY_HASH_FUNC_NUM ==> HashText(hash, i, s) in seen)
    && forall x :: x in seen ==> x in given || ComesFrom(hash, given, x)
  }

  predicate ComesFrom(hash: Hashes, given: Given, x: string)
  {
    exists s, i: nat :: s in given && i < ANONY_HASH_FUNC_NUM && x == HashText(hash, i, s)
  }

  /** The text a name was given, and its first hash, are in the section. */
  predicate Issued(hash: Hashes, names: set<string>, given: Given, offsets: map<string, nat>)
    requires Levels(names, given)
  {
    forall s :: s in given ==> HashText(hash, given[s], s) in offsets && HashText(hash, 0, s) in offsets
  }

  predicate OnlyIssued(hash: Hashes, raws: set<string>, given: Given, offsets: map<string, nat>)
  {
    forall x :: x in offsets ==> x == "" || x in raws || IsGiven(hash, given, x)
  }

  predicate IsGiven(hash: Hashes, given: Given, x: string)
  {
    exists s :: s in given && given[s] < ANONY_HASH_FUNC_NUM && x == HashText(hash, given[s], s)
  }

  /** Two names do not agree as far as the longer of their texts goes. */
  predicate Apart(hash: Hashes, names: set<string>, given: Given)
    requires Levels(names, given)
  {
    forall s, t :: s in given && t in given && s != t ==> !Same(hash, Longer(given[s], given[t]), s, t)
  }

  function Longer(a: nat, b: nat): nat { if a < b then b else a }

  /** A name has a longer text only because another name has the shorter ones. */
  predicate Crowded(hash: Hashes, given: Given)
  {
    forall s, j: nat :: s in given && j < given[s] && j < ANONY_HASH_FUNC_NUM ==> Taken(hash, given, s, j)
  }

  /** Another name has the same first hashes. */
  predicate Taken(hash: Hashes, given: Given, s: string, j: nat)
    requires j < ANONY_HASH_FUNC_NUM
  {
    exists t :: t in given && t != s && Same(hash, j, s, t)
  }

  /** The search table holds the strings of the section. */
  predicate TableOk(st: Names)
  {
    st.section != "" && st.section[0] == '\0' && "" in st.offsets
    && forall x :: x in st.offsets ==>
      NulFree(x) && At(st.section, st.offsets[x], x + "\0") && (x != "" ==> st.offsets[x] > 0)
  }

  predicate Inv(hash: Hashes, names: set<string>, raws: set<string>, given: Given, st: Names)
  {
    && Levels(names, given) && SeenIs(hash, given, st.seen) && Issued(hash, names, given, st.offsets)
    && OnlyIssued(hash, raws, given, st.offsets) && Apart(hash, names, given) && Crowded(hash, given) && TableOk(st)
  }

  // ----- the table -----

  /** Two strings of the section at one offset are one string. */
  lemma OffsetsInjective(st: Names, x: string, y: string)
    requires TableOk(st) && x in st.offsets && y in st.offsets && st.offsets[x] == st.offsets[y]
    ensures x == y
  {
    var c, o := st.section, st.offsets[x];
    assert NulFree(x) && NulFree(y) && At(c, o, x + "\0") && At(c, o, y + "\0");
    hide TableOk, At;
    StringAt(c, o, x);
    StringAt(c, o, y);
    assert |x| == |y|;
    forall j | 0 <= j < |x| ensures x[j] == y[j] {
      assert c[o + j] == x[o + j - o] && c[o + j] == y[o + j - o];
    }
  }

  /** The characters of a string and its NUL, at its place. */
  lemma StringAt(c: string, o: nat, x: string)
    requires At(c, o, x + "\0") && NulFree(x)
    ensures o + |x| < |c| && c[o + |x|] == '\0'
    ensures forall k :: o <= k < o + |x| ==> c[k] == x[k - o] && c[k] != '\0'
  {
    var t := x + "\0";
    forall k | o <= k <= o + |x| ensures c[k] == t[k - o] {
      AtByte(c, o, t, k - o);
    }
  }

  lemma AppendKeepsTable(st: Names, text: string)
    requires TableOk(st) && NulFree(text) && text !in st.offsets
    ensures TableOk(AppendText(st, text))
  {
    var st' := AppendText(st, text);
    forall x | x in st'.offsets
      ensures NulFree(x) && At(st'.section, st'.offsets[x], x + "\0") && (x != "" ==> st'.offsets[x] > 0)
    {
      if x == text {
        assert st'.section == st.section + (text + "\0");
      } else {
        StaysAt(st.section, st.offsets[x], x + "\0", text + "\0");
        assert st'.section == st.section + (text + "\0");
      }
    }
  }

  lemma StaysAt(a: string, o: nat, t: string, b: string)
    requires At(a, o, t)
    ensures At(a + b, o, t)
  {
    assert (a + b)[o..o + |t|] == a[o..o + |t|];
  }

  // ----- a new name -----

  lemma NoName(hash: Hashes, i: nat, t: string, s: string)
    requires i < ANONY_HASH_FUNC_NUM && Identifier(s)
    ensures HashText(hash, i, t) != s
  {
    HashTextDigits(hash, i, t);
  }

  lemma SeenName(hash: Hashes, given: Given, seen: set<string>, s: string)
    requires SeenIs(hash, given, seen) && Identifier(s)
    ensures s in seen <==> s in given
  {
    hide HashText, Identifier;
    if s in seen && s !in given {
      var t, i: nat :| t in given && i < ANONY_HASH_FUNC_NUM && s == HashText(hash, i, t);
      NoName(hash, i, t, s);
    }
  }

  /** A text of a new name was seen exactly if another name has the same. */
  lemma SeenText(hash: Hashes, names: set<string>, given: Given, seen: set<string>, s: string, i: nat)
    requires Levels(names, given) && SeenIs(hash, given, seen) && s in names && s !in given && i < ANONY_HASH_FUNC_NUM
    requires forall t :: t in names ==> Identifier(t)
    ensures HashText(hash, i, s) in seen + {s} <==> Taken(hash, given, s, i)
  {
    hide HashText, Identifier;
    var x := HashText(hash, i, s);
    NoName(hash, i, s, s);
    if Taken(hash, given, s, i) {
      var t :| t in given && t != s && Same(hash, i, s, t);
      assert x == HashText(hash, i, t);
    }
    if x in seen {
      if x in given {
        NoName(hash, i, s, x);
      }
      var t, j: nat :| t in given && j < ANONY_HASH_FUNC_NUM && x == HashText(hash, j, t);
      HashTextInjective(hash, i, s, j, t);
      assert Same(hash, i, s, t);
    }
  }

  /** The level of a new name: all shorter texts are taken by other names, its own is not. */
  predicate Fits(hash: Hashes, given: Given, s: string, k: nat)
  {
    k < ANONY_HASH_FUNC_NUM && !Taken(hash, given, s, k) && forall j: nat :: j < k ==> Taken(hash, given, s, j)
  }

  lemma LevelFits(hash: Hashes, names: set<string>, given: Given, seen: set<string>, s: string)
    requires Levels(names, given) && SeenIs(hash, given, seen) && s in names && s !in given
    requires Distinguished(hash, 4, names)
    ensures Fits(hash, given, s, Level(seen + {s}, hash, s, 0))
    ensures HashText(hash, Level(seen + {s}, hash, s, 0), s) !in seen
  {
    hide HashText, Same, Identifier, SeenIs, Taken;
    var k := Level(seen + {s}, hash, s, 0);
    assert !Taken(hash, given, s, 3) by { NotAllTaken(hash, names, given, s); }
    forall j: nat | j <= k ensures Taken(hash, given, s, j) <==> j < k {
      SeenText(hash, names, given, seen, s, j);
    }
    SeenText(hash, names, given, seen, s, k);
  }

  lemma NotAllTaken(hash: Hashes, names: set<string>, given: Given, s: string)
    requires Levels(names, given) && s in names && s !in given && Distinguished(hash, 4, names)
    ensures !Taken(hash, given, s, 3)
  {
    hide Same;
  }

  lemma {:induction false} HashTextsFrom(hash: Hashes, s: string, n: nat, x: string) returns (i: nat)
    requires n <= ANONY_HASH_FUNC_NUM && x in HashTexts(hash, s, n)
    ensures i < n && x == HashText(hash, i, s)
  {
    hide HashText;
    if x == HashText(hash, n - 1, s) {
      i := n - 1;
    } else {
      i := HashTextsFrom(hash, s, n - 1, x);
    }
  }

  lemma NewSeen(hash: Hashes, given: Given, seen: set<string>, s: string, k: nat)
    requires SeenIs(hash, given, seen)
    ensures SeenIs(hash, given[s := k], seen + {s} + HashTexts(hash, s, ANONY_HASH_FUNC_NUM))
  {
    hide HashText;
    var seen', given' := seen + {s} + HashTexts(hash, s, ANONY_HASH_FUNC_NUM), given[s := k];
    forall x | x in seen' ensures x in given' || ComesFrom(hash, given', x) {
      if x in HashTexts(hash, s, ANONY_HASH_FUNC_NUM) {
        var i := HashTextsFrom(hash, s, ANONY_HASH_FUNC_NUM, x);
        assert s in given';
      } else if x in seen && x !in given {
        var t, i: nat :| t in given && i < ANONY_HASH_FUNC_NUM && x == HashText(hash, i, t);
        assert t in given';
      }
    }
  }

  /** The text of a new name is not in the section. */
  lemma NotIssued(hash: Hashes, names: set<string>, raws: set<string>, given: Given, st: Names, s: string, k: nat)
    requires SeenIs(hash, given, st.seen) && OnlyIssued(hash, raws, given, st.offsets) && NoText(hash, names, raws)
    requires s in names && k < ANONY_HASH_FUNC_NUM && HashText(hash, k, s) !in st.seen
    ensures HashText(hash, k, s) !in st.offsets
  {
    HashTextDigits(hash, k, s);
    hide HashText, DigitsAndBars;
  }

  lemma NewIssued(hash: Hashes, names: set<string>, given: Given, offsets: map<string, nat>, s: string, k: nat, o: nat)
    requires Levels(names, given) && s in names && s !in given && Fits(hash, given, s, k)
    requires Issued(hash, names, given, offsets)
    ensures Issued(hash, names, given[s := k], offsets[HashText(hash, k, s) := o])
  {
    hide HashText;
    if k > 0 {
      assert Taken(hash, given, s, 0);
      var t :| t in given && t != s && Same(hash, 0, s, t);
      assert HashText(hash, 0, s) == HashText(hash, 0, t);
    }
  }

  lemma NewOnlyIssued(hash: Hashes, raws: set<string>, given: Given, offsets: map<string, nat>, s: string, k: nat,
                      o: nat)
    requires s !in given && k < ANONY_HASH_FUNC_NUM && OnlyIssued(hash, raws, given, offsets)
    ensures OnlyIssued(hash, raws, given[s := k], offsets[HashText(hash, k, s) := o])
  {
    hide HashText;
    var given', text := given[s := k], HashText(hash, k, s);
    forall x | x in offsets && x != "" && x !in raws ensures IsGiven(hash, given', x) {
      var t :| t in given && given[t] < ANONY_HASH_FUNC_NUM && x == HashText(hash, given[t], t);
      assert t in given' && given'[t] == given[t];
    }
    assert s in given' && given'[s] == k;
    assert IsGiven(hash, given', text);
  }

  lemma NewApart(hash: Hashes, names: set<string>, given: Given, s: string, k: nat)
    requires Levels(names, given) && s in names && s !in given && Fits(hash, given, s, k) && Apart(hash, names, given)
    ensures Apart(hash, names, given[s := k])
  {
    hide HashText, Same;
    forall t | t in given
      ensures !Same(hash, Longer(given[t], k), s, t) && !Same(hash, Longer(k, given[t]), t, s)
    {
      SameMeans(hash, Longer(given[t], k), s, t);
      SameMeans(hash, Longer(given[t], k), t, s);
    }
  }

  lemma NewCrowded(hash: Hashes, given: Given, s: string, k: nat)
    requires s !in given && Fits(hash, given, s, k) && Crowded(hash, given)
    ensures Crowded(hash, given[s := k])
  {
    hide Same;
    var given' := given[s := k];
    forall t, j: nat | t in given' && j < given'[t] && j < ANONY_HASH_FUNC_NUM ensures Taken(hash, given', t, j) {
      assert Taken(hash, given, t, j);
      var u :| u in given && u != t && Same(hash, j, t, u);
      assert u in given';
    }
  }

  /** A name is added: its text is new, and the invariant is kept. */
  lemma NewName(hash: Hashes, names: set<string>, raws: set<string>, given: Given, st: Names, start: nat, s: string)
    requires Inv(hash, names, raws, given, st) && Distinguished(hash, 4, names) && NoText(hash, names, raws)
    requires s in names && s !in given
    ensures var (st', r) := Add(st, start, hash, s);
      var k := Level(st.seen + {s}, hash, s, 0);
      var text := HashText(hash, k, s);
      && text !in st.offsets && st'.offsets == st.offsets[text := |st.section|] && r == Find(st', start, text)
      && Inv(hash, names, raws, given[s := k], st')
  {
    hide HashText, Identifier, SeenIs, Apart, Crowded, Issued, OnlyIssued, TableOk, NoText, Fits, Level, HashTexts,
      Numerals.Numeral;
    assert Identifier(s);
    SeenName(hash, given, st.seen, s);
    var k := Level(st.seen + {s}, hash, s, 0);
    LevelFits(hash, names, given, st.seen, s);
    assert k < ANONY_HASH_FUNC_NUM;
    NotIssued(hash, names, raws, given, st, s, k);
    NewIssued(hash, names, given, st.offsets, s, k, |st.section|);
    NewOnlyIssued(hash, raws, given, st.offsets, s, k, |st.section|);
    NewSeen(hash, given, st.seen, s, k);
    NewApart(hash, names, given, s, k);
    NewCrowded(hash, given, s, k);
    TextNulFree(hash, k, s);
    AppendKeepsTable(st, HashText(hash, k, s));
    SameTable(AppendText(st, HashText(hash, k, s)), Add(st, start, hash, s).0);
  }

  lemma SameTable(a: Names, b: Names)
    requires TableOk(a) && a.section == b.section && a.offsets == b.offsets
    ensures TableOk(b)
  {
  }

  lemma TextNulFree(hash: Hashes, k: nat, s: string)
    requires k < ANONY_HASH_FUNC_NUM
    ensures NulFree(HashText(hash, k, s))
  {
    HashTextDigits(hash, k, s);
    hide HashText;
    var t := HashText(hash, k, s);
    forall i | 0 <= i < |t| ensures t[i] != '\0' { assert DigitOrBar(t[i]); }
  }

  // ----- a known name -----

  /** All texts of a name up to the one it was given are in the section. */
  predicate Unbroken(hash: Hashes, k: nat, st: Names, s: string)
    requires k < ANONY_HASH_FUNC_NUM
  {
    forall j: nat :: j <= k ==> HashText(hash, j, s) in st.offsets
  }

  /** The next longer text of a name was given to no one. */
  lemma NextMissing(hash: Hashes, names: set<string>, raws: set<string>, given: Given, st: Names, s: string)
    requires Inv(hash, names, raws, given, st) && Distinguished(hash, 4, names) && NoText(hash, names, raws)
    requires s in given
    ensures HashText(hash, given[s] + 1, s) !in st.offsets
  {
    var x := HashText(hash, given[s] + 1, s);
    assert x != "" && x !in raws;
    hide HashText, NoText;
    NextNotGiven(hash, names, given, s);
  }

  lemma NextNotGiven(hash: Hashes, names: set<string>, given: Given, s: string)
    requires Levels(names, given) && Apart(hash, names, given) && s in given && forall t :: t in names ==> Identifier(t)
    ensures !IsGiven(hash, given, HashText(hash, given[s] + 1, s))
  {
    hide HashText, Identifier, Same;
    var x := HashText(hash, given[s] + 1, s);
    if IsGiven(hash, given, x) {
      var t :| t in given && given[t] < ANONY_HASH_FUNC_NUM && x == HashText(hash, given[t], t);
      NotLonger(hash, given[s], s, given[t], t);
    }
  }

  lemma NotLonger(hash: Hashes, k: nat, s: string, j: nat, t: string)
    requires k < ANONY_HASH_FUNC_NUM && j < ANONY_HASH_FUNC_NUM && Identifier(s)
    requires HashText(hash, k + 1, s) == HashText(hash, j, t)
    ensures j == k + 1 && Same(hash, j, s, t)
  {
    LastTextLetters(hash, s);
    HashTextDigits(hash, j, t);
    hide HashText, Identifier, DigitsAndBars;
    HashTextInjective(hash, k + 1, s, j, t);
  }

  /** The search walks over texts of which both it and the next are present. */
  lemma {:induction false} Walk(hash: Hashes, st: Names, start: nat, s: string, i: nat, k: nat)
    requires i <= k < ANONY_HASH_FUNC_NUM && TableOk(st) && HashText(hash, k + 1, s) !in st.offsets
    requires forall j: nat :: i <= j <= k ==> HashText(hash, j, s) in st.offsets
    requires k == 3 ==> |HashText(hash, 4, s)| < BUFFER_SIZE
    ensures Lookup(st, start, hash, s, i) == Find(st, start, HashText(hash, k, s))
    decreases k - i
  {
    HashTextDigits(hash, i, s);
    if i < 3 {
      TextLength(hash, i + 1, s);
    }
    hide HashText;
    if i < k {
      Walk(hash, st, start, s, i + 1, k);
    }
  }

  /** If a shorter text is missing, the search stops at a text that is not the name's. */
  lemma {:induction false} Strays(hash: Hashes, st: Names, start: nat, s: string, i: nat, k: nat) returns (j: nat)
    requires i < k < ANONY_HASH_FUNC_NUM && TableOk(st) && HashText(hash, i, s) in st.offsets
    requires exists j: nat :: i < j < k && HashText(hash, j, s) !in st.offsets
    ensures j < k && HashText(hash, j, s) in st.offsets
    ensures Lookup(st, start, hash, s, i) == Find(st, start, HashText(hash, j, s))
    decreases k - i
  {
    HashTextDigits(hash, i, s);
    TextLength(hash, i + 1, s);
    hide HashText;
    if HashText(hash, i + 1, s) in st.offsets {
      j := Strays(hash, st, start, s, i + 1, k);
    } else {
      j := i;
    }
  }

  /** A name of four hashes whose last text does not fit the buffer cannot be searched. */
  lemma {:induction false} TooLong(hash: Hashes, st: Names, start: nat, s: string, i: nat)
    requires i <= 3 && |HashText(hash, 4, s)| >= BUFFER_SIZE && forall j: nat :: i <= j <= 3 ==>
      HashText(hash, j, s) in st.offsets
    ensures Lookup(st, start, hash, s, i) == Aborted
    decreases 3 - i
  {
    hide HashText;
    if i < 3 {
      TooLong(hash, st, start, s, i + 1);
    }
  }

  /** The buffer holds every text the search for a name needs. */
  predicate Searchable(hash: Hashes, k: nat, s: string)
  {
    k == 3 ==> |HashText(hash, 4, s)| < 128
  }

  /**
   * When exactly a known name is found again: if and only if every shorter text of it is in the section too, and the
   * search's buffer is large enough.
   */
  lemma KnownName(hash: Hashes, names: set<string>, raws: set<string>, given: Given, st: Names, start: nat, s: string)
    requires Inv(hash, names, raws, given, st) && Distinguished(hash, 4, names) && NoText(hash, names, raws)
    requires s in given
    ensures Add(st, start, hash, s).0 == st
    ensures Add(st, start, hash, s).1 == Find(st, start, HashText(hash, given[s], s))
      <==> Unbroken(hash, given[s], st, s) && Searchable(hash, given[s], s)
  {
    hide HashText, Distinguished, Inv, NoText, Lookup, Unbroken, Searchable;
    KnownIn(hash, names, raws, given, st, s);
    NextMissing(hash, names, raws, given, st, s);
    FoundAgain(hash, st, start, s, given[s]);
  }

  lemma KnownIn(hash: Hashes, names: set<string>, raws: set<string>, given: Given, st: Names, s: string)
    requires Inv(hash, names, raws, given, st) && s in given
    ensures s in names && s in st.seen && given[s] < ANONY_HASH_FUNC_NUM && TableOk(st)
    ensures HashText(hash, 0, s) in st.offsets && HashText(hash, given[s], s) in st.offsets
  {
    hide HashText, Apart, Crowded, OnlyIssued, TableOk;
  }

  lemma FoundAgain(hash: Hashes, st: Names, start: nat, s: string, k: nat)
    requires TableOk(st) && k < ANONY_HASH_FUNC_NUM && HashText(hash, k + 1, s) !in st.offsets
    requires HashText(hash, 0, s) in st.offsets && HashText(hash, k, s) in st.offsets
    ensures Lookup(st, start, hash, s, 0) == Find(st, start, HashText(hash, k, s)) <==>
      Unbroken(hash, k, st, s) && Searchable(hash, k, s)
  {
    hide HashText, TableOk, Lookup;
    if Unbroken(hash, k, st, s) {
      if Searchable(hash, k, s) {
        Walk(hash, st, start, s, 0, k);
      } else {
        TooLong(hash, st, start, s, 0);
      }
    } else {
      var j := Strays(hash, st, start, s, 0, k);
      HashTextInjective(hash, j, s, k, s);
      if st.offsets[HashText(hash, j, s)] == st.offsets[HashText(hash, k, s)] {
        OffsetsInjective(st, HashText(hash, j, s), HashText(hash, k, s));
      }
    }
  }

  lemma {:induction false} TextLength(hash: Hashes, n: nat, s: string)
    requires n < ANONY_HASH_FUNC_NUM
    ensures |HashText(hash, n, s)| <= 6 * n + 5
  {
    hide Numerals.Numeral;
    NumeralLength(hash(n, s), 5);
    if n > 0 {
      TextLength(hash, n - 1, s);
    }
  }
}
