/** How values are printed: each byte and number in its one spelling, and white space where the format wants it. */
module PrintMeaning {
  import opened Words
  import opened JsonString
  import opened Json
  import opened PythonJson
  import M = JsonMeaning

  // ----- bytes and numbers -----

  predicate LowerDigit(b: byte, d: int) { M.DigitFor(b, d) && !(0x41 <= b <= 0x5a) }

  /** The two-character escape of a byte that may not stand for itself in a string, if it has one. */
  ghost predicate HasShort(b: byte) { exists e :: M.EscapeFor(e, b) && b != 0x2f }

  /**
   * How a byte of a string is printed: as a short escape where there is one but for the slash, as itself from the blank
   * on, and otherwise as \u and four digits.
   */
  lemma ByteMeans(b: byte)
    ensures var t := EscapeByte(b);
      if HasShort(b) then |t| == 2 && t[0] == 0x5c && M.EscapeFor(t[1], b)
      else if b >= 0x20 then t == [b]
      else
        && |t| == 6 && t[0] == 0x5c && t[1] == 0x75 && M.UnitAt(t, 2, b)
        && LowerDigit(t[4], b / 16) && LowerDigit(t[5], b % 16)
  {
    if b == 8 {
      assert M.EscapeFor(0x62, b);
    } else if b == 9 {
      assert M.EscapeFor(0x74, b);
    } else if b == 10 {
      assert M.EscapeFor(0x6e, b);
    } else if b == 12 {
      assert M.EscapeFor(0x66, b);
    } else if b == 13 {
      assert M.EscapeFor(0x72, b);
    } else if b == 0x22 || b == 0x5c {
      assert M.EscapeFor(b, b);
    } else if b < 0x20 {
      ControlMeans(b);
    }
  }

  lemma CharDigit(d: nat)
    requires d < 16
    ensures LowerDigit(HexChar(d), d)
  {
    M.DigitExactly(HexChar(d), d);
    hide M.DigitFor;
  }

  lemma ControlMeans(b: byte)
    requires b < 0x20
    ensures var t := [0x5c, 0x75, 0x30, 0x30, HexChar(b / 16), HexChar(b % 16)];
      M.UnitAt(t, 2, b) && LowerDigit(t[4], b / 16) && LowerDigit(t[5], b % 16)
  {
    CharDigit(b / 16);
    CharDigit(b % 16);
    var t := [0x5c, 0x75, 0x30, 0x30, HexChar(b / 16), HexChar(b % 16)];
    HexOfChar(b);
    assert t[2..6] == [0x30, 0x30, HexChar(b / 16), HexChar(b % 16)];
    hide M.UnitAt, Hex4, HexChar;
    M.UnitExactly(t, 2, b);
  }

  lemma {:induction false} DigitsMean(n: nat)
    ensures M.Spells(Digits(n), n) && (Digits(n)[0] == 0x30 <==> n == 0)
  {
    var t := Digits(n);
    if n >= 10 {
      DigitsMean(n / 10);
      assert t[..|t| - 1] == Digits(n / 10) && t[0] == Digits(n / 10)[0];
    }
  }

  /** A number is printed as its digits, the first of them 0 for 0 only, behind a minus sign if it is negative. */
  lemma DecimalMeans(n: int)
    ensures var t := Decimal(n);
      && M.SpellsSigned(t, n) && t != [] && (t[0] == 0x2d <==> n < 0) && (t[0] == 0x30 <==> n == 0)
  {
    DigitsMean(if n < 0 then -n else n);
    if n < 0 {
      assert Decimal(n)[1..] == Digits(-n);
    } else {
      M.SpelledDigits(Digits(n), n);
      assert IsDigit(Digits(n)[0]);
    }
  }

  // ----- the two formats -----

  /** cJSON's formatted text, or that of Python's `json.dumps` with an indent of 4. */
  datatype Style = Printed | Dumped

  /** Outside a string, in front of the first character of a line, in a string, or behind a backslash in one. */
  datatype Mode = Out | Fresh | In | Esc

  /** Where a reader of a text is: the mode, and the brackets that are open. */
  datatype Place = Place(style: Style, mode: Mode, open: seq<byte>)

  function Pop(open: seq<byte>): seq<byte> { if open == [] then [] else open[..|open| - 1] }

  /** Whether what is open last has a line for each of its entries. */
  predicate Lines(p: Place) { p.style.Dumped? || (p.open != [] && p.open[|p.open| - 1] == 0x7b) }

  /** The place behind one more character. */
  function Behind(p: Place, b: byte): Place
  {
    if p.mode.Esc? then p.(mode := In)
    else if p.mode.In? then p.(mode := if b == 0x22 then Out else if b == 0x5c then Esc else In)
    else if b == 0x22 then p.(mode := In)
    else if b == 0x7b || b == 0x5b then
      var q := p.(open := p.open + [b]);
      q.(mode := if Lines(q) then Fresh else Out)
    else if b == 0x7d || b == 0x5d then p.(mode := Out, open := Pop(p.open))
    else if b == 0x2c && Lines(p) then p.(mode := Fresh)
    else p.(mode := Out)
  }

  /** In front of the first character of a line: a tab, or four blanks behind a line break, for each open bracket. */
  function Lead(p: Place): seq<byte>
  {
    if !p.mode.Fresh? then [] else if p.style.Printed? then Tabs(|p.open|) else Line(|p.open|)
  }

  /** In front of a closing bracket; the break behind an opening brace is that brace's own in cJSON's text. */
  function CloseLead(p: Place): seq<byte>
  {
    if p.style.Printed? then (if p.mode.Fresh? then [] else [0x0a]) + Tabs(|Pop(p.open)|)
    else if p.mode.Fresh? then [] else Line(|Pop(p.open)|)
  }

  /** Behind a character: a tab or blank at a colon; in cJSON's text a break or blank at a comma and opening brace. */
  function Trail(p: Place, b: byte): seq<byte>
  {
    if b == 0x3a then (if p.style.Printed? then [0x09] else [0x20])
    else if p.style.Dumped? then []
    else if b == 0x7b then [0x0a]
    else if b == 0x2c then (if Lines(p) then [0x0a] else [0x20])
    else []
  }

  /** One character and the white space that goes with it. */
  function Spaced(p: Place, b: byte): seq<byte>
  {
    if p.mode.In? || p.mode.Esc? then [b]
    else if (b == 0x7d || b == 0x5d) && Lines(p) then CloseLead(p) + [b]
    else Lead(p) + [b] + Trail(p, b)
  }

  /** A text with no white space outside its strings. */
  predicate Tight(p: Place, t: seq<byte>)
    decreases |t|
  {
    t == [] || ((p.mode.In? || p.mode.Esc? || t[0] > 0x20) && Tight(Behind(p, t[0]), t[1..]))
  }

  function Last(p: Place, t: seq<byte>): Place
    decreases |t|
  {
    if t == [] then p else Last(Behind(p, t[0]), t[1..])
  }

  /** A text with the white space of the format put in. */
  function Format(p: Place, t: seq<byte>): seq<byte>
    decreases |t|
  {
    if t == [] then [] else Spaced(p, t[0]) + Format(Behind(p, t[0]), t[1..])
  }

  // ----- printing with format is formatting what is printed without -----

  /** Reading `t`, which has no white space outside strings, at `p` gives `f` and leads to `q`. */
  ghost predicate Gives(p: Place, t: seq<byte>, f: seq<byte>, q: Place)
  {
    Tight(p, t) && Format(p, t) == f && Last(p, t) == q
  }

  lemma {:induction false} Join(p: Place, a: seq<byte>, b: seq<byte>, f: seq<byte>, g: seq<byte>, q: Place, r: Place)
    requires Gives(p, a, f, q) && Gives(q, b, g, r)
    ensures Gives(p, a + b, f + g, r)
    decreases |a|
  {
    hide Format, Last, Spaced, Behind, Tight;
    if a == [] {
      FormatNothing(p);
      assert a + b == b && f + g == g;
    } else {
      var next := Behind(p, a[0]);
      var rest := Format(next, a[1..]);
      FormatStep(p, a);
      Join(next, a[1..], b, rest, g, q, r);
      assert (a + b)[1..] == a[1..] + b;
      FormatStep(p, a + b);
      assert Spaced(p, a[0]) + (rest + g) == f + g;
    }
  }

  lemma FormatNothing(p: Place)
    ensures Format(p, []) == [] && Last(p, []) == p && Tight(p, [])
  {
  }

  lemma FormatStep(p: Place, t: seq<byte>)
    requires t != []
    ensures Format(p, t) == Spaced(p, t[0]) + Format(Behind(p, t[0]), t[1..])
    ensures Last(p, t) == Last(Behind(p, t[0]), t[1..])
    ensures Tight(p, t) <==> (p.mode.In? || p.mode.Esc? || t[0] > 0x20) && Tight(Behind(p, t[0]), t[1..])
  {
  }

  lemma One(p: Place, b: byte)
    requires p.mode.In? || p.mode.Esc? || b > 0x20
    ensures Gives(p, [b], Spaced(p, b), Behind(p, b))
  {
    hide Spaced, Behind;
    assert [b][1..] == [];
    FormatStep(p, [b]);
    assert Format(Behind(p, b), []) == [] && Last(Behind(p, b), []) == Behind(p, b) && Tight(Behind(p, b), []);
    assert Spaced(p, b) + [] == Spaced(p, b);
  }

  lemma {:induction false} TabsMean(n: nat, k: nat)
    requires k < n
    ensures |Tabs(n)| == n && Tabs(n)[k] == 0x09
  {
    if k > 0 {
      TabsMean(n - 1, k - 1);
    }
  }

  lemma {:induction false} SpacesMean(n: nat, k: nat)
    requires k < n
    ensures |Spaces(n)| == n && Spaces(n)[k] == 0x20
  {
    if k > 0 {
      SpacesMean(n - 1, k - 1);
    }
  }

  /** A line break and four blanks for each open bracket. */
  lemma LineMeans(d: nat, k: nat)
    requires k < 4 * d
    ensures |Line(d)| == 1 + 4 * d && Line(d)[0] == 0x0a && Line(d)[1 + k] == 0x20
  {
    SpacesMean(4 * d, k);
  }

  /** Where a value may begin. */
  predicate Ready(p: Place) { p.mode.Out? || p.mode.Fresh? }

  /** Characters of no significance stay as they are. */
  predicate Quiet(b: byte)
  {
    b > 0x20 && b != 0x22 && b != 0x7b && b != 0x7d && b != 0x5b && b != 0x5d && b != 0x2c && b != 0x3a
  }

  lemma QuietOne(p: Place, b: byte)
    requires Ready(p) && Quiet(b)
    ensures Gives(p, [b], Lead(p) + [b], p.(mode := Out))
  {
    One(p, b);
    assert Lead(p) + [b] + [] == Lead(p) + [b];
  }

  lemma {:induction false} QuietRun(p: Place, t: seq<byte>)
    requires Ready(p) && t != [] && forall k :: 0 <= k < |t| ==> Quiet(t[k])
    ensures Gives(p, t, Lead(p) + t, p.(mode := Out))
    decreases |t|
  {
    hide Gives, Quiet;
    QuietOne(p, t[0]);
    if |t| == 1 {
      assert t == [t[0]];
    } else {
      var q, rest := p.(mode := Out), t[1..];
      QuietRun(q, rest);
      Join(p, [t[0]], rest, Lead(p) + [t[0]], Lead(q) + rest, q, q);
      assert Lead(q) == [];
      assert [t[0]] + rest == t;
      assert Lead(p) + [t[0]] + ([] + rest) == Lead(p) + t;
    }
  }

  lemma {:induction false} InsideString(p: Place, t: seq<byte>)
    requires p.mode.In? && forall k :: 0 <= k < |t| ==> t[k] != 0x22 && t[k] != 0x5c
    ensures Gives(p, t, t, p)
  {
    if t != [] {
      InsideString(p, t[1..]);
      assert [t[0]] + t[1..] == t;
    }
  }

  lemma EscapeShape(b: byte)
    ensures var t := EscapeByte(b);
      if |t| == 1 then t == [b] && b != 0x22 && b != 0x5c
      else t[0] == 0x5c && forall k :: 2 <= k < |t| ==> t[k] != 0x22 && t[k] != 0x5c
  {
    if b < 0x20 {
      CharDigit(b / 16);
      CharDigit(b % 16);
    }
  }

  lemma EscapeInside(p: Place, b: byte)
    requires p.mode.In?
    ensures Gives(p, EscapeByte(b), EscapeByte(b), p)
  {
    hide EscapeByte, Gives;
    EscapeShape(b);
    var t := EscapeByte(b);
    if |t| == 1 {
      InsideString(p, t);
    } else {
      var q := p.(mode := Esc);
      var a, e, tail := [t[0]], [t[1]], t[2..];
      One(p, t[0]);
      One(q, t[1]);
      InsideString(p, tail);
      Join(q, e, tail, e, tail, p, p);
      Join(p, a, e + tail, a, e + tail, q, p);
      assert t == a + (e + tail);
    }
  }

  lemma {:induction false} EscapesInside(p: Place, s: seq<byte>)
    requires p.mode.In?
    ensures Gives(p, Escape(s), Escape(s), p)
  {
    if s != [] {
      EscapeInside(p, s[0]);
      EscapesInside(p, s[1..]);
      Join(p, EscapeByte(s[0]), Escape(s[1..]), EscapeByte(s[0]), Escape(s[1..]), p, p);
    }
  }

  lemma Three(p: Place, q: Place, r: Place, s: Place, a: seq<byte>, b: seq<byte>, c: seq<byte>,
              f: seq<byte>, g: seq<byte>, h: seq<byte>)
    requires Gives(p, a, f, q) && Gives(q, b, g, r) && Gives(r, c, h, s)
    ensures Gives(p, a + b + c, f + g + h, s)
  {
    hide Gives;
    Join(p, a, b, f, g, q, r);
    Join(p, a + b, c, f + g, h, r, s);
  }

  lemma Regroup(l: seq<byte>, a: seq<byte>, b: seq<byte>, c: seq<byte>)
    ensures (l + a) + b + c == l + (a + b + c)
  {
  }

  /** The quotes around a string. */
  lemma QuoteGives(p: Place)
    requires Ready(p)
    ensures Gives(p, [0x22], Lead(p) + [0x22], p.(mode := In))
    ensures Gives(p.(mode := In), [0x22], [0x22], p.(mode := Out))
  {
    One(p, 0x22);
    One(p.(mode := In), 0x22);
    assert Lead(p) + [0x22] + [] == Lead(p) + [0x22];
  }

  lemma QuotedGives(p: Place, s: seq<byte>)
    requires Ready(p)
    ensures Gives(p, Quoted(s), Lead(p) + Quoted(s), p.(mode := Out))
  {
    hide Gives, Escape, Lead;
    var q := p.(mode := In);
    QuoteGives(p);
    EscapesInside(q, s);
    Three(p, q, q, p.(mode := Out), [0x22], Escape(s), [0x22], Lead(p) + [0x22], Escape(s), [0x22]);
    Regroup(Lead(p), [0x22], Escape(s), [0x22]);
  }

  lemma {:induction false} DigitsQuiet(n: nat)
    ensures var t := Digits(n); t != [] && forall k :: 0 <= k < |t| ==> Quiet(t[k])
  {
    if n >= 10 {
      DigitsQuiet(n / 10);
    }
  }

  lemma DecimalQuiet(n: int)
    ensures var t := Decimal(n); t != [] && forall k :: 0 <= k < |t| ==> Quiet(t[k])
  {
    DigitsQuiet(if n < 0 then -n else n);
  }

  /** The place in front of what stands in brackets of the kind `b` that are opened at `p`. */
  function Inside(p: Place, b: byte): Place { Behind(p.(mode := Out), b) }

  /**
   * A value that is printed with format is the value that is printed without, formatted: wherever it stands, if it has
   * as many tabs as brackets are open.
   */
  lemma {:induction false} FormatGives(j: Json, p: Place, d: nat)
    requires Plain(j) && Ready(p) && p.style.Printed?
    ensures Gives(p, Text(j, false, d), Lead(p) + Text(j, true, |p.open|), p.(mode := Out))
    decreases j, 1, 0
  {
    hide Gives, Quiet;
    match j
    case Null => WordsQuiet(); QuietRun(p, NULL_TEXT);
    case False => WordsQuiet(); QuietRun(p, FALSE_TEXT);
    case True => WordsQuiet(); QuietRun(p, TRUE_TEXT);
    case Number(n) =>
      DecimalQuiet(n);
      QuietRun(p, Decimal(n));
    case String(s) => QuotedGives(p, s);
    case Array(items) => ArrayGives(j, p, d);
    case Object(members) => ObjectGives(j, p, d);
  }

  lemma WordsQuiet()
    ensures forall k :: 0 <= k < |NULL_TEXT| ==> Quiet(NULL_TEXT[k])
    ensures forall k :: 0 <= k < |FALSE_TEXT| ==> Quiet(FALSE_TEXT[k])
    ensures forall k :: 0 <= k < |TRUE_TEXT| ==> Quiet(TRUE_TEXT[k])
  {
  }

  lemma BracketGives(p: Place)
    requires p.style.Printed?
    requires Ready(p)
    ensures var q := Place(Printed, Out, p.open + [0x5b]);
      && Gives(p, [0x5b], Lead(p) + [0x5b], q) && Gives(q, [0x5d], [0x5d], p.(mode := Out))
  {
    var q := Place(Printed, Out, p.open + [0x5b]);
    One(p, 0x5b);
    One(q, 0x5d);
    assert Pop(q.open) == p.open;
    assert Lead(p) + [0x5b] + [] == Lead(p) + [0x5b] && [] + [0x5d] + [] == [0x5d];
  }

  lemma ArrayUnfold(j: Json, fmt: bool, d: nat)
    requires j.Array?
    ensures Text(j, fmt, d) == [0x5b] + ItemsText(j, 0, fmt, d + 1) + [0x5d]
  {
    hide ItemsText;
  }

  lemma {:induction false} ArrayGives(j: Json, p: Place, d: nat)
    requires Plain(j) && Ready(p) && p.style.Printed? && j.Array?
    ensures Gives(p, Text(j, false, d), Lead(p) + Text(j, true, |p.open|), p.(mode := Out))
    decreases j, 0, |j.items| + 1
  {
    hide Gives, Text, ItemsText, Spaced, Behind, Lead, Plain;
    var q := Place(Printed, Out, p.open + [0x5b]);
    BracketGives(p);
    ItemsGive(j, 0, q, d + 1);
    Three(p, q, q, p.(mode := Out), [0x5b], ItemsText(j, 0, false, d + 1), [0x5d],
      Lead(p) + [0x5b], ItemsText(j, 0, true, |q.open|), [0x5d]);
    ArrayUnfold(j, false, d);
    ArrayUnfold(j, true, |p.open|);
    Regroup(Lead(p), [0x5b], ItemsText(j, 0, true, |q.open|), [0x5d]);
  }

  lemma {:induction false} ItemsGive(j: Json, i: nat, p: Place, d: nat)
    requires Plain(j) && j.Array? && i <= |j.items| && p.mode.Out? && p.style.Printed?
    requires p.open != [] && p.open[|p.open| - 1] == 0x5b
    ensures Gives(p, ItemsText(j, i, false, d), ItemsText(j, i, true, |p.open|), p)
    decreases j, 0, |j.items| - i
  {
    if i < |j.items| {
      var a, f := Text(j.items[i], false, d), Text(j.items[i], true, |p.open|);
      FormatGives(j.items[i], p, d);
      assert Lead(p) + f == f;
      ItemsGive(j, i + 1, p, d);
      var sep := if i + 1 < |j.items| then Separator(false) else [];
      var sepF := if i + 1 < |j.items| then Separator(true) else [];
      CommaGives(p);
      assert Gives(p, sep, sepF, p);
      hide Gives, Text, ItemsText;
      Join(p, a, sep, f, sepF, p, p);
      ItemsUnfold(j, i, false, d);
      ItemsUnfold(j, i, true, |p.open|);
      Join(p, a + sep, ItemsText(j, i + 1, false, d), f + sepF, ItemsText(j, i + 1, true, |p.open|), p, p);
    }
  }

  lemma CommaGives(p: Place)
    requires p.style.Printed?
    requires p.mode.Out? && p.open != [] && p.open[|p.open| - 1] == 0x5b
    ensures Gives(p, Separator(false), Separator(true), p) && Gives(p, [], [], p)
  {
    One(p, 0x2c);
    assert [] + [0x2c] + [0x20] == [0x2c, 0x20];
  }

  lemma ItemsUnfold(j: Json, i: nat, fmt: bool, d: nat)
    requires j.Array? && i < |j.items|
    ensures ItemsText(j, i, fmt, d) == Text(j.items[i], fmt, d)
      + (if i + 1 < |j.items| then Separator(fmt) else []) + ItemsText(j, i + 1, fmt, d)
  {
    hide Text;
  }

  lemma {:induction false} ObjectGives(j: Json, p: Place, d: nat)
    requires Plain(j) && Ready(p) && p.style.Printed? && j.Object?
    ensures Gives(p, Text(j, false, d), Lead(p) + Text(j, true, |p.open|), p.(mode := Out))
    decreases j, 0, |j.members| + 1
  {
    hide Gives, Text, MembersText, Spaced, Behind, Lead, Plain, Tabs, Pop;
    var q := Place(Printed, Fresh, p.open + [0x7b]);
    var o := q.(mode := Out);
    var a, tabs := MembersText(j, 0, false, d + 1), Tabs(|p.open|);
    BraceOpens(p);
    PopPushed(p.open, 0x7b);
    ObjectUnfold(j, d);
    ObjectUnfold(j, |p.open|);
    if j.members == [] {
      BraceCloses(q);
      Nothing(q);
      NoMembers(j, d + 1);
      NoMembers(j, |q.open|);
      Three(p, q, q, p.(mode := Out), [0x7b], [], [0x7d], Lead(p) + [0x7b, 0x0a], [], tabs + [0x7d]);
      RegroupEmpty(Lead(p), [0x7b, 0x0a], tabs, [0x7d]);
    } else {
      var f := MembersGive(j, 0, q, d + 1);
      BraceCloses(o);
      Three(p, q, o, p.(mode := Out), [0x7b], a, [0x7d], Lead(p) + [0x7b, 0x0a], f, [0x0a] + tabs + [0x7d]);
      RegroupMembers(Lead(p), [0x7b, 0x0a], f, [0x0a], tabs, [0x7d]);
    }
  }

  lemma PopPushed(open: seq<byte>, b: byte)
    ensures Pop(open + [b]) == open
  {
  }

  lemma Nothing(p: Place)
    ensures Gives(p, [], [], p)
  {
  }

  lemma RegroupEmpty(l: seq<byte>, a: seq<byte>, b: seq<byte>, c: seq<byte>)
    ensures (l + a) + [] + (b + c) == l + (a + [] + b + c)
  {
  }

  lemma RegroupMembers(l: seq<byte>, a: seq<byte>, f: seq<byte>, n: seq<byte>, b: seq<byte>, c: seq<byte>)
    ensures (l + a) + f + (n + b + c) == l + (a + (f + n) + b + c)
  {
  }

  lemma ObjectUnfold(j: Json, d: nat)
    requires j.Object?
    ensures Text(j, false, d) == [0x7b] + MembersText(j, 0, false, d + 1) + [0x7d]
    ensures Text(j, true, d) == [0x7b, 0x0a] + MembersText(j, 0, true, d + 1) + Tabs(d) + [0x7d]
  {
    hide MembersText, Tabs;
    assert [0x7b] + MembersText(j, 0, false, d + 1) + [] + [0x7d] == [0x7b] + MembersText(j, 0, false, d + 1) + [0x7d];
  }

  lemma NoMembers(j: Json, d: nat)
    requires j.Object? && j.members == []
    ensures MembersText(j, 0, false, d) == [] && MembersText(j, 0, true, d) == []
  {
  }

  lemma BraceOpens(p: Place)
    requires p.style.Printed?
    requires Ready(p)
    ensures Gives(p, [0x7b], Lead(p) + [0x7b, 0x0a], Place(Printed, Fresh, p.open + [0x7b]))
  {
    One(p, 0x7b);
    assert Lead(p) + [0x7b] + [0x0a] == Lead(p) + [0x7b, 0x0a];
  }

  lemma BraceCloses(q: Place)
    requires q.style.Printed? && q.open != [] && q.open[|q.open| - 1] == 0x7b
    requires Ready(q)
    ensures Gives(q, [0x7d], (if q.mode.Fresh? then [] else [0x0a]) + Tabs(|Pop(q.open)|) + [0x7d],
      Place(Printed, Out, Pop(q.open)))
    ensures q.mode.Fresh? ==> Gives(q, [0x7d], Tabs(|Pop(q.open)|) + [0x7d], Place(Printed, Out, Pop(q.open)))
  {
    One(q, 0x7d);
    assert [] + Tabs(|Pop(q.open)|) == Tabs(|Pop(q.open)|);
  }

  lemma ColonGives(q: Place)
    requires q.style.Printed?
    requires q.mode.Out?
    ensures Gives(q, [0x3a], [0x3a, 0x09], q)
  {
    One(q, 0x3a);
    assert [] + [0x3a] + [0x09] == [0x3a, 0x09];
  }

  lemma HeaderUnfold(name: seq<byte>, d: nat)
    ensures Header(name, false, d) == Quoted(name) + [0x3a]
    ensures Header(name, true, d) == (Tabs(d) + Quoted(name)) + [0x3a, 0x09]
  {
    hide Quoted, Tabs;
    assert [] + Quoted(name) + [0x3a] == Quoted(name) + [0x3a];
  }

  /** The name of a member and its colon. */
  lemma HeaderGives(name: seq<byte>, p: Place, d: nat)
    requires p.style.Printed?
    requires p.mode.Fresh?
    ensures Gives(p, Header(name, false, d), Header(name, true, |p.open|), p.(mode := Out))
  {
    hide Gives, Quoted, Header, Tabs;
    var q := p.(mode := Out);
    QuotedGives(p, name);
    ColonGives(q);
    HeaderUnfold(name, d);
    HeaderUnfold(name, |p.open|);
    Join(p, Quoted(name), [0x3a], Lead(p) + Quoted(name), [0x3a, 0x09], q, q);
  }

  lemma {:induction false} MembersGive(j: Json, i: nat, p: Place, d: nat) returns (f: seq<byte>)
    requires Plain(j) && j.Object? && i < |j.members| && p.mode.Fresh? && p.style.Printed?
    requires p.open != [] && p.open[|p.open| - 1] == 0x7b
    ensures Gives(p, MembersText(j, i, false, d), f, p.(mode := Out))
    ensures MembersText(j, i, true, |p.open|) == f + [0x0a]
    decreases j, 0, |j.members| - i
  {
    assert Plain(j.members[i].value);
    hide Gives, Text, Header, MembersText, Plain;
    var m, k, q := j.members[i], |p.open|, p.(mode := Out);
    var a, b := Header(m.name, false, d), Text(m.value, false, d);
    var aF, bF := Header(m.name, true, k), Text(m.value, true, k);
    HeaderGives(m.name, p, d);
    FormatGives(m.value, q, d);
    NoLead(q, bF);
    MembersUnfold(j, i, false, d);
    MembersUnfold(j, i, true, k);
    if i + 1 == |j.members| {
      Join(p, a, b, aF, bF, q, q);
      f := aF + bF;
      NoneLeft(j, d);
      NoneLeft(j, k);
      LastLine(a + b, f);
    } else {
      LineEnds(q);
      var g := MembersGive(j, i + 1, p, d);
      Three(p, q, q, p, a, b, [0x2c], aF, bF, [0x2c, 0x0a]);
      f := aF + bF + [0x2c, 0x0a] + g;
      Join(p, a + b + [0x2c], MembersText(j, i + 1, false, d), aF + bF + [0x2c, 0x0a], g, p, q);
      NextLine(aF + bF + [0x2c, 0x0a], g);
    }
  }

  lemma NoLead(q: Place, t: seq<byte>)
    requires q.mode.Out?
    ensures Lead(q) + t == t
  {
  }

  lemma LastLine(a: seq<byte>, f: seq<byte>)
    ensures a + [] + [] == a && f + [0x0a] + [] == f + [0x0a]
  {
  }

  lemma NextLine(f: seq<byte>, g: seq<byte>)
    ensures f + (g + [0x0a]) == f + g + [0x0a]
  {
  }

  lemma LineEnds(q: Place)
    requires q.style.Printed?
    requires q.mode.Out? && q.open != [] && q.open[|q.open| - 1] == 0x7b
    ensures Gives(q, [0x2c], [0x2c, 0x0a], q.(mode := Fresh))
  {
    One(q, 0x2c);
    assert [] + [0x2c] + [0x0a] == [0x2c, 0x0a];
  }

  lemma NoneLeft(j: Json, d: nat)
    requires j.Object?
    ensures MembersText(j, |j.members|, false, d) == [] && MembersText(j, |j.members|, true, d) == []
  {
  }

  lemma MembersUnfold(j: Json, i: nat, fmt: bool, d: nat)
    requires j.Object? && i < |j.members|
    ensures MembersText(j, i, fmt, d) == Header(j.members[i].name, fmt, d) + Text(j.members[i].value, fmt, d)
      + (if i + 1 == |j.members| then (if fmt then [0x0a] else []) else if fmt then [0x2c, 0x0a] else [0x2c])
      + MembersText(j, i + 1, fmt, d)
  {
    hide Text, Header;
    assert [] + [0x0a] == [0x0a] && [0x2c] + [0x0a] == [0x2c, 0x0a] && [0x2c] + [] == [0x2c];
  }

  /** The two formats of a document: without white space outside strings, and with all that the format wants. */
  lemma FormatMeans(j: Json)
    requires Plain(j)
    ensures Tight(Place(Printed, Out, []), Text(j, false, 0))
    ensures Text(j, true, 0) == Format(Place(Printed, Out, []), Text(j, false, 0))
  {
    hide Text;
    FormatGives(j, Place(Printed, Out, []), 0);
    assert Lead(Place(Printed, Out, [])) + Text(j, true, 0) == Text(j, true, 0);
  }
}
