/** Sequences of additions to the string section. */
module AnonRuns {
  import opened Slices
  import opened AnonHash
  import opened AnonNames
  import opened AnonStable

  datatype Call = Anony(name: string) | Raw(text: string)

  datatype Ran = Ran(state: Names, outcomes: seq<Outcome>)

  function Apply(st: Names, start: nat, hash: Hashes, c: Call): (Names, Outcome)
  {
    match c
    case Anony(s) => Add(st, start, hash, s)
    case Raw(s) => AddRaw(st, start, s)
  }

  function RunCalls(hash: Hashes, start: nat, calls: seq<Call>): (r: Ran)
    ensures |r.outcomes| == |calls|
  {
    if calls == [] then Ran(EMPTY, [])
    else
      var before := RunCalls(hash, start, calls[..|calls| - 1]);
      var (st, o) := Apply(before.state, start, hash, calls[|calls| - 1]);
      Ran(st, before.outcomes + [o])
  }

  /** The same on the section object. */
  method Perform(section: StringSection, hash: Hashes, calls: seq<Call>) returns (outcomes: seq<Outcome>)
    requires section.State() == EMPTY
    modifies section
    ensures Ran(section.State(), outcomes) == RunCalls(hash, section.start, calls)
  {
    hide Add, AddRaw;
    outcomes := [];
    for i := 0 to |calls|
      invariant Ran(section.State(), outcomes) == RunCalls(hash, section.start, calls[..i])
    {
      assert calls[..i + 1][..i] == calls[..i];
      var o;
      match calls[i] {
        case Anony(s) => o := section.AddAnonyStr(hash, s);
        case Raw(s) => o := section.AddRawStr(s);
      }
      outcomes := outcomes + [o];
    }
    assert calls[..|calls|] == calls;
  }

  /** The number of hashes, less one, each name was given when it was first added. */
  function GivenLevels(hash: Hashes, start: nat, calls: seq<Call>): Given
  {
    if calls == [] then map[]
    else
      var before := calls[..|calls| - 1];
      NextGiven(hash, GivenLevels(hash, start, before), RunCalls(hash, start, before).state, calls[|calls| - 1])
  }

  function NextGiven(hash: Hashes, given: Given, st: Names, c: Call): Given
  {
    if c.Anony? && c.name !in given then given[c.name := Level(st.seen + {c.name}, hash, c.name, 0)] else given
  }

  predicate Allowed(names: set<string>, raws: set<string>, calls: seq<Call>)
  {
    forall i :: 0 <= i < |calls| ==> if calls[i].Anony? then calls[i].name in names else calls[i].text in raws
  }

  /** What callers were told is where the texts are: the first time for each name, or always. */
  predicate Told(hash: Hashes, start: nat, given: Given, st: Names, calls: seq<Call>, outcomes: seq<Outcome>,
                 always: bool)
    requires |outcomes| == |calls|
  {
    forall i :: 0 <= i < |calls| ==> ToldRight(hash, start, given, st, calls[i], always || First(calls, i), outcomes[i])
  }

  /** A string's offset is where it is; a name's first offset is where its text is. */
  predicate ToldRight(hash: Hashes, start: nat, given: Given, st: Names, c: Call, first: bool, o: Outcome)
  {
    match c
    case Raw(s) => s in st.offsets && o == Find(st, start, s)
    case Anony(s) =>
      && s in given && given[s] < ANONY_HASH_FUNC_NUM && HashText(hash, given[s], s) in st.offsets
      && (first ==> o == Find(st, start, HashText(hash, given[s], s)))
  }

  predicate First(calls: seq<Call>, i: nat)
    requires i < |calls|
  {
    calls[i] !in calls[..i]
  }

  predicate Grew(a: Names, b: Names) { forall x :: x in a.offsets ==> x in b.offsets && b.offsets[x] == a.offsets[x] }

  // ----- the invariant holds along every run -----

  lemma EmptyInv(hash: Hashes, names: set<string>, raws: set<string>)
    ensures Inv(hash, names, raws, map[], EMPTY)
  {
    assert EMPTY.section[0..1] == "" + "\0";
  }

  /** A plain string is added: nothing else changes. */
  lemma RawKeepsInv(hash: Hashes, names: set<string>, raws: set<string>, given: Given, st: Names, start: nat, s: string)
    requires Inv(hash, names, raws, given, st) && s in raws && NoText(hash, names, raws)
    ensures var (st', r) := AddRaw(st, start, s);
      Inv(hash, names, raws, given, st') && s in st'.offsets && r == Find(st', start, s) && Grew(st, st')
  {
    hide HashText, SeenIs, Apart, Crowded, TableOk;
    if s !in st.offsets {
      AppendKeepsTable(st, s);
    }
  }

  predicate Extends(a: Given, b: Given) { forall s :: s in a ==> s in b && b[s] == a[s] }

  lemma ToldGrows(hash: Hashes, start: nat, given: Given, st: Names, given': Given, st': Names,
                  calls: seq<Call>, outcomes: seq<Outcome>, always: bool, c: Call, o: Outcome)
    requires |outcomes| == |calls| && Told(hash, start, given, st, calls, outcomes, always) && Grew(st, st')
    requires Extends(given, given')
    requires ToldRight(hash, start, given', st', c, always || c !in calls, o)
    ensures Told(hash, start, given', st', calls + [c], outcomes + [o], always)
  {
    hide HashText;
    var all := calls + [c];
    assert all[..|calls|] == calls;
    forall i | 0 <= i < |all| ensures ToldRight(hash, start, given', st', all[i], always || First(all, i),
      (outcomes + [o])[i]) {
      if i < |calls| {
        assert all[..i] == calls[..i];
        assert ToldRight(hash, start, given, st, calls[i], always || First(calls, i), outcomes[i]);
      }
    }
  }

  /** How many hashes tell the names apart: two if every call is to find its name again, else four. */
  function HashesNeeded(always: bool): (n: nat)
    ensures 0 < n <= ANONY_HASH_FUNC_NUM
  {
    if always then 2 else ANONY_HASH_FUNC_NUM
  }

  lemma FourSuffice(hash: Hashes, n: nat, names: set<string>)
    requires 0 < n <= ANONY_HASH_FUNC_NUM && Distinguished(hash, n, names)
    ensures Distinguished(hash, ANONY_HASH_FUNC_NUM, names)
  {
    hide Same;
    forall s, t | s in names && t in names && s != t ensures !Same(hash, 3, s, t) {
      SameMeans(hash, 3, s, t);
    }
  }

  /** When two hashes tell all names apart, no text has more than two, and none is missing. */
  lemma TwoHashes(hash: Hashes, names: set<string>, raws: set<string>, given: Given, st: Names, s: string)
    requires Inv(hash, names, raws, given, st) && Distinguished(hash, 2, names) && s in given
    ensures given[s] <= 1 && Unbroken(hash, given[s], st, s) && Searchable(hash, given[s], s)
  {
    hide HashText, Same, SeenIs, TableOk, OnlyIssued, Apart;
    ghost var second := Taken(hash, given, s, 1);
  }

  /** One call keeps the invariant, moves nothing, and answers right. */
  lemma CallStep(hash: Hashes, names: set<string>, raws: set<string>, start: nat, given: Given, st: Names, c: Call,
                 always: bool)
    requires Inv(hash, names, raws, given, st) && Distinguished(hash, HashesNeeded(always), names)
    requires NoText(hash, names, raws)
    requires if c.Anony? then c.name in names else c.text in raws
    ensures var (st', o) := Apply(st, start, hash, c);
      var given' := NextGiven(hash, given, st, c);
      && Inv(hash, names, raws, given', st') && Grew(st, st') && Extends(given, given')
      && ToldRight(hash, start, given', st', c, always || (c.Anony? ==> c.name !in given), o)
  {
    hide HashText, Distinguished, NoText, Level, Add, AddRaw, Inv, Find, Unbroken, Searchable;
    FourSuffice(hash, HashesNeeded(always), names);
    match c
    case Raw(s) => RawKeepsInv(hash, names, raws, given, st, start, s);
    case Anony(s) =>
      if s in given {
        KnownIn(hash, names, raws, given, st, s);
        KnownName(hash, names, raws, given, st, start, s);
        if always {
          TwoHashes(hash, names, raws, given, st, s);
        }
      } else {
        NewName(hash, names, raws, given, st, start, s);
      }
  }

  /** What is true after each run. */
  ghost predicate Good(hash: Hashes, names: set<string>, raws: set<string>, start: nat, calls: seq<Call>, always: bool)
  {
    var r, given := RunCalls(hash, start, calls), GivenLevels(hash, start, calls);
    && Inv(hash, names, raws, given, r.state) && Told(hash, start, given, r.state, calls, r.outcomes, always)
    && forall s :: s in given <==> Anony(s) in calls
  }

  lemma NothingRun(hash: Hashes, names: set<string>, raws: set<string>, start: nat, always: bool)
    ensures Good(hash, names, raws, start, [], always)
  {
    hide Inv;
    EmptyInv(hash, names, raws);
  }

  lemma {:induction false} Reached(hash: Hashes, names: set<string>, raws: set<string>, start: nat, calls: seq<Call>,
                                   always: bool)
    requires Distinguished(hash, HashesNeeded(always), names) && NoText(hash, names, raws)
    requires Allowed(names, raws, calls)
    ensures Good(hash, names, raws, start, calls, always)
    decreases |calls|
  {
    hide Distinguished, NoText, Good;
    if calls == [] {
      NothingRun(hash, names, raws, start, always);
    } else {
      var before, c := calls[..|calls| - 1], calls[|calls| - 1];
      Reached(hash, names, raws, start, before, always);
      assert before + [c] == calls;
      ReachedStep(hash, names, raws, start, before, c, always);
    }
  }

  lemma RunSnoc(hash: Hashes, start: nat, before: seq<Call>, c: Call)
    ensures var r := RunCalls(hash, start, before);
      var (st', o) := Apply(r.state, start, hash, c);
      && RunCalls(hash, start, before + [c]) == Ran(st', r.outcomes + [o])
      && GivenLevels(hash, start, before + [c]) == NextGiven(hash, GivenLevels(hash, start, before), r.state, c)
  {
    hide Apply, NextGiven;
    var calls := before + [c];
    assert calls[..|before|] == before && calls[|before|] == c;
  }

  lemma ReachedStep(hash: Hashes, names: set<string>, raws: set<string>, start: nat, before: seq<Call>, c: Call,
                    always: bool)
    requires Distinguished(hash, HashesNeeded(always), names) && NoText(hash, names, raws)
    requires Allowed(names, raws, before + [c])
    requires Good(hash, names, raws, start, before, always)
    ensures Good(hash, names, raws, start, before + [c], always)
  {
    var r, given := RunCalls(hash, start, before), GivenLevels(hash, start, before);
    assert if c.Anony? then c.name in names else c.text in raws by { assert (before + [c])[|before|] == c; }
    hide Inv, Distinguished, NoText, Apply, Told, RunCalls, GivenLevels, Allowed;
    RunSnoc(hash, start, before, c);
    CallStep(hash, names, raws, start, given, r.state, c, always);
    var next := Apply(r.state, start, hash, c);
    ToldStep(hash, start, given, r.state, before, r.outcomes, always, c, next.0, next.1);
  }

  lemma ToldStep(hash: Hashes, start: nat, given: Given, st: Names, before: seq<Call>, outcomes: seq<Outcome>,
                 always: bool, c: Call, st': Names, o: Outcome)
    requires |outcomes| == |before| && Told(hash, start, given, st, before, outcomes, always) && Grew(st, st')
    requires forall s :: s in given <==> Anony(s) in before
    requires Extends(given, NextGiven(hash, given, st, c))
    requires ToldRight(hash, start, NextGiven(hash, given, st, c), st', c, always || (c.Anony? ==> c.name !in given), o)
    ensures Told(hash, start, NextGiven(hash, given, st, c), st', before + [c], outcomes + [o], always)
    ensures forall s :: s in NextGiven(hash, given, st, c) <==> Anony(s) in before + [c]
  {
    hide Told, ToldRight, Extends, Grew, Level;
    if c.Raw? {
      FirstRaw(hash, start, NextGiven(hash, given, st, c), st', c, o, always || c !in before);
    } else {
      assert c == Anony(c.name);
    }
    ToldGrows(hash, start, given, st, NextGiven(hash, given, st, c), st', before, outcomes, always, c, o);
  }

  lemma FirstRaw(hash: Hashes, start: nat, given: Given, st: Names, c: Call, o: Outcome, first: bool)
    requires c.Raw? && ToldRight(hash, start, given, st, c, true, o)
    ensures ToldRight(hash, start, given, st, c, first, o)
  {
  }

  // ----- main results -----

  /** The text a call's string is kept as. */
  function KeptAs(hash: Hashes, given: Given, c: Call): string
  {
    match c
    case Raw(s) => s
    case Anony(s) => if s in given && given[s] <= ANONY_HASH_FUNC_NUM then HashText(hash, given[s], s) else ""
  }

  /** An answer is an offset at which the section holds a string. */
  predicate Holds(st: Names, start: nat, o: Outcome, text: string)
  {
    o.Offset? && o.value >= start && At(st.section, o.value - start, text + "\0")
  }

  /**
   * A stable injection: if two hashes tell all names apart, then in every run of additions, of names and of other
   * strings, every call succeeds and answers with the place of its text, which for a name consists of one or two of its
   * hashes; and two calls get the same answer for names exactly when the names are the same.
   */
  lemma StableInjection(hash: Hashes, names: set<string>, raws: set<string>, start: nat, calls: seq<Call>)
    requires Distinguished(hash, 2, names) && NoText(hash, names, raws) && Allowed(names, raws, calls)
    ensures var (r, given) := (RunCalls(hash, start, calls), GivenLevels(hash, start, calls));
      && (forall i :: 0 <= i < |calls| ==> Holds(r.state, start, r.outcomes[i], KeptAs(hash, given, calls[i])))
      && (forall s :: s in given <==> Anony(s) in calls) && (forall s :: s in given ==> given[s] <= 1)
      && forall i, j :: 0 <= i < |calls| && 0 <= j < |calls| && calls[i].Anony? && calls[j].Anony? ==>
        (r.outcomes[i] == r.outcomes[j] <==> calls[i] == calls[j])
  {
    Reached(hash, names, raws, start, calls, true);
    var r, given := RunCalls(hash, start, calls), GivenLevels(hash, start, calls);
    hide RunCalls, GivenLevels, HashText, Distinguished, NoText, Inv, ToldRight, KeptAs, Holds, Allowed;
    forall s | s in given ensures given[s] <= 1 {
      TwoHashes(hash, names, raws, given, r.state, s);
    }
    forall i | 0 <= i < |calls| ensures Holds(r.state, start, r.outcomes[i], KeptAs(hash, given, calls[i])) {
      assert ToldRight(hash, start, given, r.state, calls[i], true, r.outcomes[i]);
      AnswerHolds(hash, names, raws, start, given, r.state, calls[i], r.outcomes[i]);
    }
    forall i, j | 0 <= i < |calls| && 0 <= j < |calls| && calls[i].Anony? && calls[j].Anony?
      ensures r.outcomes[i] == r.outcomes[j] <==> calls[i] == calls[j]
    {
      assert ToldRight(hash, start, given, r.state, calls[i], true, r.outcomes[i]);
      assert ToldRight(hash, start, given, r.state, calls[j], true, r.outcomes[j]);
      AnswersDiffer(hash, names, raws, start, given, r.state, calls[i], r.outcomes[i], calls[j], r.outcomes[j]);
    }
  }

  lemma AnswerHolds(hash: Hashes, names: set<string>, raws: set<string>, start: nat, given: Given, st: Names, c: Call,
                    o: Outcome)
    requires Inv(hash, names, raws, given, st) && ToldRight(hash, start, given, st, c, true, o)
    ensures Holds(st, start, o, KeptAs(hash, given, c))
  {
    hide HashText, SeenIs, Issued, OnlyIssued, Apart, Crowded, Levels, At;
  }

  lemma AnswersDiffer(hash: Hashes, names: set<string>, raws: set<string>, start: nat, given: Given, st: Names,
                      a: Call, o: Outcome, b: Call, q: Outcome)
    requires Inv(hash, names, raws, given, st) && a.Anony? && b.Anony?
    requires ToldRight(hash, start, given, st, a, true, o) && ToldRight(hash, start, given, st, b, true, q)
    ensures o == q <==> a == b
  {
    hide HashText, SeenIs, Issued, OnlyIssued, Crowded, Levels, TableOk;
    if o == q {
      OffsetsInjective(st, HashText(hash, given[a.name], a.name), HashText(hash, given[b.name], b.name));
      HashTextInjective(hash, given[a.name], a.name, given[b.name], b.name);
    }
  }

  /**
   * When exactly a name keeps its offset, if it takes up to four hashes to tell the names apart: a name added before
   * gets the answer of its first call if and only if all shorter texts of it are in the section and the buffer is large
   * enough.
   */
  lemma StableExactly(hash: Hashes, names: set<string>, raws: set<string>, start: nat, calls: seq<Call>, first: nat)
    requires Distinguished(hash, 4, names) && NoText(hash, names, raws) && Allowed(names, raws, calls)
    requires first < |calls| && calls[first].Anony? && First(calls, first)
    ensures var (r, given, s) := (RunCalls(hash, start, calls), GivenLevels(hash, start, calls), calls[first].name);
      && s in given && given[s] < ANONY_HASH_FUNC_NUM
      && (RunCalls(hash, start, calls + [Anony(s)]).outcomes[|calls|] == r.outcomes[first]
        <==> Unbroken(hash, given[s], r.state, s) && Searchable(hash, given[s], s))
  {
    Reached(hash, names, raws, start, calls, false);
    var r, given, s := RunCalls(hash, start, calls), GivenLevels(hash, start, calls), calls[first].name;
    hide RunCalls, GivenLevels, HashText, Distinguished, NoText, Inv, Allowed, Unbroken, Searchable, Add, Find;
    RunSnoc(hash, start, calls, Anony(s));
    assert ToldRight(hash, start, given, r.state, calls[first], true, r.outcomes[first]);
    KnownName(hash, names, raws, given, r.state, start, s);
  }

  /** Hash functions of which the first two are the same for all names. */
  const WEAK: Hashes := (n: nat, s: string) => if n == 2 && s == "b" then 1 else 0

  lemma WeakTexts()
    ensures HashText(WEAK, 0, "a") == "0" && HashText(WEAK, 1, "a") == "0|0" && HashText(WEAK, 2, "a") == "0|0|0"
    ensures HashText(WEAK, 3, "a") == "0|0|0|0"
    ensures HashText(WEAK, 0, "b") == "0" && HashText(WEAK, 1, "b") == "0|0" && HashText(WEAK, 2, "b") == "0|0|1"
  {
    assert Numerals.Numeral(0, 10) == "0" && Numerals.Numeral(1, 10) == "1";
    hide Numerals.Numeral;
    assert HashText(WEAK, 0, "a") == "0" && HashText(WEAK, 0, "b") == "0";
    assert HashText(WEAK, 1, "a") == "0" + "|" + "0" && HashText(WEAK, 1, "b") == "0" + "|" + "0";
    assert HashText(WEAK, 2, "a") == "0|0" + "|" + "0" && HashText(WEAK, 2, "b") == "0|0" + "|" + "1";
    assert HashText(WEAK, 3, "a") == "0|0|0" + "|" + "0";
  }

  lemma WeakFirst(start: nat) returns (st: Names)
    ensures Add(EMPTY, start, WEAK, "a") == (st, Offset(start + 1))
    ensures st.offsets == map["" := 0, "0" := 1] && |st.section| == 3
    ensures "0" in st.seen && "0|0" in st.seen && "b" !in st.seen && "0|0|1" !in st.seen
  {
    WeakTexts();
    hide HashText, HashTexts;
    assert Level({"a"}, WEAK, "a", 0) == 0 by { assert "0" != "a"; }
    assert {} + {"a"} == {"a"};
    st := Add(EMPTY, start, WEAK, "a").0;
    assert st.section == "\0" + "0" + "\0";
    forall x | x in HashTexts(WEAK, "a", 4) ensures x != "b" && x != "0|0|1" {
      var i := HashTextsFrom(WEAK, "a", 4, x);
      assert i == 0 || i == 1 || i == 2 || i == 3;
    }
  }

  lemma WeakSecond(start: nat, st: Names) returns (st': Names)
    requires st.offsets == map["" := 0, "0" := 1] && |st.section| == 3
    requires "0" in st.seen && "0|0" in st.seen && "b" !in st.seen && "0|0|1" !in st.seen
    ensures Add(st, start, WEAK, "b") == (st', Offset(start + 3))
    ensures st'.offsets == map["" := 0, "0" := 1, "0|0|1" := 3] && "b" in st'.seen
  {
    WeakTexts();
    hide HashText, HashTexts;
    var seen := st.seen + {"b"};
    assert Level(seen, WEAK, "b", 2) == 2 by { assert "0|0|1" != "b"; }
    assert Level(seen, WEAK, "b", 1) == 2;
    assert Level(seen, WEAK, "b", 0) == 2;
    st' := Add(st, start, WEAK, "b").0;
  }

  lemma WeakThird(start: nat, st: Names)
    requires st.offsets == map["" := 0, "0" := 1, "0|0|1" := 3] && "b" in st.seen
    ensures Add(st, start, WEAK, "b").1 == Offset(start + 1)
  {
    WeakTexts();
    hide HashText, HashTexts;
    assert "0|0" != "0|0|1" by { assert |"0|0"| != |"0|0|1"|; }
  }

  /** Two hashes in common are too many: the second name gets its own offset only the first time. */
  lemma SharedHashesCollide(start: nat)
    ensures var r := RunCalls(WEAK, start, [Anony("a"), Anony("b"), Anony("b")]);
      r.outcomes[0] == r.outcomes[2] != r.outcomes[1]
  {
    hide HashText, RunCalls, HashTexts, Level, Add;
    ThreeCalls(WEAK, start, Anony("a"), Anony("b"), Anony("b"));
    var one := WeakFirst(start);
    var two := WeakSecond(start, one);
    WeakThird(start, two);
  }

  lemma ThreeCalls(hash: Hashes, start: nat, a: Call, b: Call, c: Call)
    ensures var (one, o) := Apply(EMPTY, start, hash, a);
      var (two, p) := Apply(one, start, hash, b);
      RunCalls(hash, start, [a, b, c]).outcomes == [o, p, Apply(two, start, hash, c).1]
  {
    assert [] + [a] == [a] && [a] + [b] == [a, b] && [a, b] + [c] == [a, b, c];
    assert RunCalls(hash, start, []) == Ran(EMPTY, []);
    hide RunCalls, GivenLevels, Apply;
    RunSnoc(hash, start, [], a);
    RunSnoc(hash, start, [a], b);
    RunSnoc(hash, start, [a, b], c);
  }

  // ----- clashes with other strings -----

  function RawsOf(calls: seq<Call>): set<string>
  {
    set i | 0 <= i < |calls| && calls[i].Raw? :: calls[i].text
  }

  /** What is true after each run, whatever other strings are added: they are stored, and so are texts of names only. */
  ghost predicate Kept(hash: Hashes, names: set<string>, start: nat, calls: seq<Call>)
  {
    var st, given := RunCalls(hash, start, calls).state, GivenLevels(hash, start, calls);
    && Stored(hash, names, RawsOf(calls), given, st)
    && forall s :: s in given <==> Anony(s) in calls
  }

  predicate Stored(hash: Hashes, names: set<string>, raws: set<string>, given: Given, st: Names)
  {
    && Levels(names, given) && SeenIs(hash, given, st.seen) && OnlyIssued(hash, raws, given, st.offsets)
    && forall x :: x in raws ==> x in st.offsets
  }

  /** The text of a new name is present exactly if it was added as another string. */
  lemma NewText(hash: Hashes, names: set<string>, raws: set<string>, given: Given, st: Names, s: string)
    requires Stored(hash, names, raws, given, st) && Distinguished(hash, 4, names) && s in names && s !in given
    ensures s !in st.seen
    ensures var k := Level(st.seen + {s}, hash, s, 0);
      Fits(hash, given, s, k) && (HashText(hash, k, s) in st.offsets <==> HashText(hash, k, s) in raws)
  {
    SeenName(hash, given, st.seen, s);
    LevelFits(hash, names, given, st.seen, s);
    var k := Level(st.seen + {s}, hash, s, 0);
    HashTextDigits(hash, k, s);
    hide HashText, DigitsAndBars, Level, Fits, Distinguished;
  }

  lemma StoredName(hash: Hashes, names: set<string>, raws: set<string>, given: Given, st: Names, start: nat, s: string)
    requires Stored(hash, names, raws, given, st) && Distinguished(hash, 4, names) && s in names && s !in given
    ensures var k := Level(st.seen + {s}, hash, s, 0);
      var (st', o) := Add(st, start, hash, s);
      Stored(hash, names, raws, given[s := k], st') && (o == Aborted <==> HashText(hash, k, s) in raws)
  {
    NewText(hash, names, raws, given, st, s);
    hide HashText, Level, Fits, Distinguished, HashTexts, SeenIs, OnlyIssued;
    var k := Level(st.seen + {s}, hash, s, 0);
    assert k < ANONY_HASH_FUNC_NUM;
    NewSeen(hash, given, st.seen, s, k);
    NewOnlyIssued(hash, raws, given, st.offsets, s, k, |st.section|);
    FewerIssued(hash, raws, given[s := k], st.offsets, HashText(hash, k, s), |st.section|);
  }

  lemma FewerIssued(hash: Hashes, raws: set<string>, given: Given, offsets: map<string, nat>, text: string, o: nat)
    requires OnlyIssued(hash, raws, given, offsets[text := o])
    ensures OnlyIssued(hash, raws, given, offsets)
  {
    hide IsGiven;
    forall x | x in offsets ensures x == "" || x in raws || IsGiven(hash, given, x) {
      assert x in offsets[text := o];
    }
  }

  lemma StoredRaw(hash: Hashes, names: set<string>, raws: set<string>, given: Given, st: Names, start: nat, s: string)
    requires Stored(hash, names, raws, given, st)
    ensures Stored(hash, names, raws + {s}, given, AddRaw(st, start, s).0)
  {
    hide IsGiven, SeenIs;
  }

  lemma RawsSnoc(calls: seq<Call>, c: Call)
    ensures RawsOf(calls + [c]) == if c.Raw? then RawsOf(calls) + {c.text} else RawsOf(calls)
    ensures forall x :: x in RawsOf(calls) <==> Raw(x) in calls
  {
    var all := calls + [c];
    forall x | x in RawsOf(calls) ensures x in RawsOf(all) {
      var i :| 0 <= i < |calls| && calls[i] == Raw(x);
      assert all[i] == Raw(x);
    }
    forall x | Raw(x) in calls ensures x in RawsOf(calls) {
      var i :| 0 <= i < |calls| && calls[i] == Raw(x);
    }
    if c.Raw? {
      assert all[|calls|] == c;
    }
    forall x | x in RawsOf(all) ensures x in RawsOf(calls) || c == Raw(x) {
      var i :| 0 <= i < |all| && all[i] == Raw(x);
      if i < |calls| {
        assert calls[i] == Raw(x);
      }
    }
  }

  predicate NamesIn(calls: seq<Call>, names: set<string>)
  {
    forall i :: 0 <= i < |calls| && calls[i].Anony? ==> calls[i].name in names
  }

  lemma {:induction false} KeptAlong(hash: Hashes, names: set<string>, start: nat, calls: seq<Call>)
    requires Distinguished(hash, 4, names) && NamesIn(calls, names)
    ensures Kept(hash, names, start, calls)
    decreases |calls|
  {
    hide Distinguished, Stored, Apply, RunCalls, GivenLevels;
    if calls == [] {
      NothingStored(hash, names, start);
    } else {
      var before, c := calls[..|calls| - 1], calls[|calls| - 1];
      KeptAlong(hash, names, start, before);
      assert before + [c] == calls;
      KeptStep(hash, names, start, before, c);
    }
  }

  lemma NothingStored(hash: Hashes, names: set<string>, start: nat)
    ensures Kept(hash, names, start, [])
  {
  }

  lemma KeptStep(hash: Hashes, names: set<string>, start: nat, before: seq<Call>, c: Call)
    requires Distinguished(hash, 4, names) && Kept(hash, names, start, before) && (c.Anony? ==> c.name in names)
    ensures Kept(hash, names, start, before + [c])
  {
    var st, given := RunCalls(hash, start, before).state, GivenLevels(hash, start, before);
    hide Distinguished, RunCalls, GivenLevels, RawsOf, Level, AddRaw;
    RunSnoc(hash, start, before, c);
    RawsSnoc(before, c);
    match c
    case Raw(s) => StoredRaw(hash, names, RawsOf(before), given, st, start, s);
    case Anony(s) =>
      if s in given {
        assert s in st.seen;
      } else {
        StoredName(hash, names, RawsOf(before), given, st, start, s);
      }
  }

  /**
   * When exactly adding a new name fails, after any run of additions in which any other strings may occur: its text,
   * the shortest one that no other name has, was added as another string before.
   */
  lemma AbortsExactly(hash: Hashes, names: set<string>, start: nat, calls: seq<Call>, s: string)
    requires Distinguished(hash, 4, names) && NamesIn(calls, names) && s in names && Anony(s) !in calls
    ensures var given, k := GivenLevels(hash, start, calls), GivenLevels(hash, start, calls + [Anony(s)])[s];
      && (forall t :: t in given <==> Anony(t) in calls) && Fits(hash, given, s, k)
      && (RunCalls(hash, start, calls + [Anony(s)]).outcomes[|calls|] == Aborted <==>
        Raw(HashText(hash, k, s)) in calls)
  {
    KeptAlong(hash, names, start, calls);
    var st, given := RunCalls(hash, start, calls).state, GivenLevels(hash, start, calls);
    hide Distinguished, RunCalls, GivenLevels, RawsOf, Level, Stored, Add, HashText, Fits;
    RunSnoc(hash, start, calls, Anony(s));
    RawsSnoc(calls, Anony(s));
    NewText(hash, names, RawsOf(calls), given, st, s);
    StoredName(hash, names, RawsOf(calls), given, st, start, s);
  }

  /** The string "0" stands for every name that is left out, so a first name fails exactly when its first hash is 0. */
  lemma ZeroHashAborts(hash: Hashes, start: nat, s: string)
    requires Identifier(s)
    ensures RunCalls(hash, start, [Raw("0"), Anony(s)]).outcomes[1] == Aborted <==> hash(0, s) == 0
  {
    assert [] + [Raw("0")] == [Raw("0")] && [Raw("0")] + [Anony(s)] == [Raw("0"), Anony(s)];
    assert RunCalls(hash, start, []) == Ran(EMPTY, []);
    hide RunCalls, GivenLevels, HashTexts;
    RunSnoc(hash, start, [], Raw("0"));
    RunSnoc(hash, start, [Raw("0")], Anony(s));
    NoName(hash, 0, s, s);
    Numerals.NumeralDigits(hash(0, s), 10);
    assert Numerals.Numeral(0, 10) == "0";
    NumeralInjective(hash(0, s), 0);
    assert {} + {s} == {s};
  }
}
