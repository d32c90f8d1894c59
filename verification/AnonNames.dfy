/** The string section with anonymised names. */
module AnonNames {
  import opened AnonHash

  /** An offset, the error of a failed search, or a failed assertion. */
  datatype Outcome = Offset(value: nat) | Missing | Aborted

  /**
   * The strings ever seen or marked as used, the section's characters, and the search table over the section. Offsets
   * are shown to callers with the section's start added.
   */
  datatype Names = Names(seen: set<string>, section: string, offsets: map<string, nat>)

  const EMPTY := Names({}, "\0", map["" := 0])

  function Find(st: Names, start: nat, text: string): Outcome
  {
    if text in st.offsets then Offset(start + st.offsets[text]) else Missing
  }

  function AppendText(st: Names, text: string): Names
  {
    st.(section := st.section + text + "\0", offsets := st.offsets[text := |st.section|])
  }

  function HashTexts(hash: Hashes, s: string, n: nat): (r: set<string>)
    requires n <= ANONY_HASH_FUNC_NUM
    ensures forall i: nat :: i < n ==> HashText(hash, i, s) in r
  {
    if n == 0 then {} else HashTexts(hash, s, n - 1) + {HashText(hash, n - 1, s)}
  }

  /** How many hashes make the text of `s` unused, counted from `i`; the last if none does. */
  function Level(seen: set<string>, hash: Hashes, s: string, i: nat): (k: nat)
    requires i < ANONY_HASH_FUNC_NUM
    ensures i <= k < ANONY_HASH_FUNC_NUM
    ensures forall j: nat :: i <= j < k ==> HashText(hash, j, s) in seen
    ensures k < 3 ==> HashText(hash, k, s) !in seen
    decreases ANONY_HASH_FUNC_NUM - i
  {
    if HashText(hash, i, s) !in seen || i == 3 then i else Level(seen, hash, s, i + 1)
  }

  /** Search for the text that was given to a known name: a text that is present while the next longer one is not. */
  function Lookup(st: Names, start: nat, hash: Hashes, s: string, i: nat): Outcome
    requires i <= ANONY_HASH_FUNC_NUM
    decreases ANONY_HASH_FUNC_NUM - i
  {
    if i == ANONY_HASH_FUNC_NUM then Find(st, start, HashText(hash, i, s))
    else if |HashText(hash, i + 1, s)| >= BUFFER_SIZE then Aborted
    else
      var cur, next := Find(st, start, HashText(hash, i, s)), Find(st, start, HashText(hash, i + 1, s));
      if cur.Offset? && cur.value > 0 && next.Missing? then cur else Lookup(st, start, hash, s, i + 1)
  }

  /** Add a name. */
  function Add(st: Names, start: nat, hash: Hashes, s: string): (Names, Outcome)
  {
    if s in st.seen then (st, Lookup(st, start, hash, s, 0))
    else
      var seen := st.seen + {s};
      var text := HashText(hash, Level(seen, hash, s, 0), s);
      var marked := st.(seen := seen + HashTexts(hash, s, ANONY_HASH_FUNC_NUM));
      if text in st.offsets then (marked, Aborted)
      else (AppendText(marked, text), Offset(start + |st.section|))
  }

  /** Add a string that is not anonymised; a string that is there keeps its offset. */
  function AddRaw(st: Names, start: nat, s: string): (Names, Outcome)
  {
    if s in st.offsets then (st, Find(st, start, s)) else (AppendText(st, s), Offset(start + |st.section|))
  }

  /** The string section being built. */
  class StringSection {
    var seen: set<string>
    var section: string
    var offsets: map<string, nat>
    const start: nat

    ghost function State(): Names
      reads this
    {
      Names(seen, section, offsets)
    }

    constructor (start: nat)
      ensures State() == EMPTY && this.start == start
    {
      seen, section, offsets := {}, "\0", map["" := 0];
      this.start := start;
    }

    method FindStr(text: string) returns (r: Outcome)
      ensures r == Find(State(), start, text)
    {
      r := if text in offsets then Offset(start + offsets[text]) else Missing;
    }

    method AppendStr(text: string) returns (r: Outcome)
      modifies this`section, this`offsets
      ensures State() == AppendText(old(State()), text) && r == Offset(start + |old(section)|)
    {
      r := Offset(start + |section|);
      offsets := offsets[text := |section|];
      section := section + text + "\0";
    }

    /** Take the first unused hash text, and mark all texts of the name as used. */
    method CheckAndAddToCache(hash: Hashes, raw: string) returns (hashStr: string)
      modifies this`seen
      ensures hashStr == HashText(hash, Level(old(seen), hash, raw, 0), raw)
      ensures seen == old(seen) + HashTexts(hash, raw, ANONY_HASH_FUNC_NUM)
    {
      var ok, text := true, "";
      hashStr := "";
      var i := 0;
      while i < ANONY_HASH_FUNC_NUM
        invariant i <= ANONY_HASH_FUNC_NUM && seen == old(seen)
        invariant i < 4 ==> Level(seen, hash, raw, 0) == Level(seen, hash, raw, i)
        invariant i == 4 ==> hashStr == HashText(hash, Level(seen, hash, raw, 0), raw)
      {
        ok, hashStr := GetHashStrN(hash, i, raw);
        if hashStr !in seen {
          break;
        }
        i := i + 1;
      }
      assert HashTexts(hash, raw, 0) == {};
      for j := 0 to ANONY_HASH_FUNC_NUM
        invariant seen == old(seen) + HashTexts(hash, raw, j)
      {
        ok, text := GetHashStrN(hash, j, raw);
        seen := seen + {text};
      }
    }

    method AddAnonyStr(hash: Hashes, s: string) returns (r: Outcome)
      modifies this
      ensures (State(), r) == Add(old(State()), start, hash, s)
    {
      hide HashText;
      if s in seen {
        var next := Missing;
        for i := 0 to ANONY_HASH_FUNC_NUM
          invariant State() == old(State())
          invariant Lookup(State(), start, hash, s, 0) == Lookup(State(), start, hash, s, i)
          invariant i > 0 ==> next == Find(State(), start, HashText(hash, i, s))
        {
          var ok, curText := GetHashStrN(hash, i, s);
          var nextText: string;
          ok, nextText := GetHashStrN(hash, i + 1, s);
          if !ok {
            return Aborted;
          }
          var cur := FindStr(curText);
          next := FindStr(nextText);
          if cur.Offset? && cur.value > 0 && next.Missing? {
            return cur;
          }
        }
        return next;
      }
      seen := seen + {s};
      var text := CheckAndAddToCache(hash, s);
      if text in offsets {
        return Aborted;
      }
      r := AppendStr(text);
    }

    method AddRawStr(s: string) returns (r: Outcome)
      modifies this`section, this`offsets
      ensures (State(), r) == AddRaw(old(State()), start, s)
    {
      if s in offsets {
        return Offset(start + offsets[s]);
      }
      r := AppendStr(s);
    }
  }
}
