/** JSON values, their printed form, and the parser's grammar as functions of the input text. */
module Json {
  import opened Words
  import opened JsonString
  import opened Slices

  const NESTING_LIMIT := 1000

  /**
   * A value as the tree of items stands for it. A number that is no plain 32-bit decimal is kept as the text that
   * `strtod` consumed.
   */
  datatype Json =
    | Null
    | False
    | True
    | Number(n: i32)
    | OtherNumber(text: seq<byte>)
    | String(s: seq<byte>)
    | Array(items: seq<Json>)
    | Object(members: seq<Member>)

  datatype Member = Member(name: seq<byte>, value: Json)

  // ----- what can be printed and read back -----

  /** Numbers are int-valued and strings hold no NUL. */
  predicate Plain(j: Json)
  {
    match j
    case OtherNumber(_) => false
    case String(s) => NoNul(s)
    case Array(items) => forall i :: 0 <= i < |items| ==> Plain(items[i])
    case Object(members) => forall i :: 0 <= i < |members| ==> NoNul(members[i].name) && Plain(members[i].value)
    case _ => true
  }

  function Max(a: nat, b: nat): nat { if a < b then b else a }

  /** How deeply arrays and objects are nested. */
  function Nesting(j: Json): nat
    decreases j, 1, 0
  {
    match j
    case Array(items) => 1 + ItemsNesting(j, 0)
    case Object(members) => 1 + MembersNesting(j, 0)
    case _ => 0
  }

  function ItemsNesting(j: Json, i: nat): nat
    requires j.Array? && i <= |j.items|
    decreases j, 0, |j.items| - i
  {
    if i == |j.items| then 0 else Max(Nesting(j.items[i]), ItemsNesting(j, i + 1))
  }

  function MembersNesting(j: Json, i: nat): nat
    requires j.Object? && i <= |j.members|
    decreases j, 0, |j.members| - i
  {
    if i == |j.members| then 0 else Max(Nesting(j.members[i].value), MembersNesting(j, i + 1))
  }

  // ----- printing -----

  function Digits(n: nat): seq<byte>
  {
    if n < 10 then [0x30 + n] else Digits(n / 10) + [0x30 + n % 10]
  }

  function Decimal(n: int): seq<byte> { if n < 0 then [0x2d] + Digits(-n) else Digits(n) }

  function Tabs(n: nat): (t: seq<byte>)
    ensures |t| == n
  {
    if n == 0 then [] else [0x09] + Tabs(n - 1)
  }

  const NULL_TEXT: seq<byte> := [0x6e, 0x75, 0x6c, 0x6c]
  const FALSE_TEXT: seq<byte> := [0x66, 0x61, 0x6c, 0x73, 0x65]
  const TRUE_TEXT: seq<byte> := [0x74, 0x72, 0x75, 0x65]

  const LBRACKET: byte := 0x5b
  const RBRACKET: byte := 0x5d
  const LBRACE: byte := 0x7b
  const RBRACE: byte := 0x7d
  const COMMA: byte := 0x2c
  const COLON: byte := 0x3a
  const SPACE: byte := 0x20
  const NEWLINE: byte := 0x0a
  const TAB: byte := 0x09

  /** The printed value, formatted or not, inside `depth` brackets. */
  function Text(j: Json, fmt: bool, depth: nat): seq<byte>
    decreases j, 1, 0
  {
    match j
    case Null => NULL_TEXT
    case False => FALSE_TEXT
    case True => TRUE_TEXT
    case Number(n) => Decimal(n)
    case OtherNumber(text) => text
    case String(s) => Quoted(s)
    case Array(items) => [LBRACKET] + ItemsText(j, 0, fmt, depth + 1) + [RBRACKET]
    case Object(members) =>
      (if fmt then [LBRACE, NEWLINE] else [LBRACE]) + MembersText(j, 0, fmt, depth + 1)
      + (if fmt then Tabs(depth) else []) + [RBRACE]
  }

  function Separator(fmt: bool): seq<byte> { if fmt then [COMMA, SPACE] else [COMMA] }

  function ItemsText(j: Json, i: nat, fmt: bool, depth: nat): seq<byte>
    requires j.Array? && i <= |j.items|
    decreases j, 0, |j.items| - i
  {
    if i == |j.items| then []
    else
      Text(j.items[i], fmt, depth) + (if i + 1 < |j.items| then Separator(fmt) else []) +
        ItemsText(j, i + 1, fmt, depth)
  }

  /** The line of one member up to its value. */
  function Header(name: seq<byte>, fmt: bool, depth: nat): seq<byte>
  {
    (if fmt then Tabs(depth) else []) + Quoted(name) + (if fmt then [COLON, TAB] else [COLON])
  }

  function Trailer(fmt: bool, last: bool): seq<byte>
  {
    (if last then [] else [COMMA]) + (if fmt then [NEWLINE] else [])
  }

  function MembersText(j: Json, i: nat, fmt: bool, depth: nat): seq<byte>
    requires j.Object? && i <= |j.members|
    decreases j, 0, |j.members| - i
  {
    if i == |j.members| then []
    else
      Header(j.members[i].name, fmt, depth) + Text(j.members[i].value, fmt, depth)
      + Trailer(fmt, i + 1 == |j.members|) + MembersText(j, i + 1, fmt, depth)
  }

  // ----- parsing -----

  datatype Parsed<T> = Parsed(value: T, offset: nat) | Failed

  /** The first byte above 32 at or after `o`, or the end. */
  function SkipTo(c: seq<byte>, o: nat): (r: nat)
    requires o <= |c|
    ensures o <= r <= |c|
    decreases |c| - o
  {
    if o < |c| && c[o] <= 32 then SkipTo(c, o + 1) else o
  }

  /** Skipping white space; at the end of the input it steps back onto the last byte. */
  function Skip(c: seq<byte>, o: nat): (r: nat)
    ensures o < |c| ==> o <= r < |c|
    ensures o >= |c| ==> r == o
  {
    if o >= |c| then o
    else
      var r := SkipTo(c, o);
      if r == |c| then r - 1 else r
  }

  /** A C string ends at the first NUL. */
  function CView(s: seq<byte>): seq<byte>
  {
    if s == [] || s[0] == 0 then [] else [s[0]] + CView(s[1..])
  }

  function ParseString(c: seq<byte>, o: nat): (r: Parsed<seq<byte>>)
    ensures r.Parsed? ==> o < r.offset <= |c|
  {
    if o >= |c| || c[o] != QUOTE then Failed
    else match Size(c, o + 1, 0)
      case Unterminated => Failed
      case Sized(end, _) =>
        match Decode(c, o + 1, end)
        case Bad(_) => Failed
        case Done(bytes) => Parsed(CView(bytes), end + 1)
  }

  predicate IsDigit(b: byte) { 0x30 <= b <= 0x39 }

  predicate InNumber(b: byte) { IsDigit(b) || b == 0x2b || b == 0x2d || b == 0x65 || b == 0x45 || b == 0x2e }

  /** At most `room` number characters. */
  function NumberRun(c: seq<byte>, o: nat, room: nat): (r: seq<byte>)
    requires o <= |c|
    ensures |r| <= room && o + |r| <= |c|
    decreases room
  {
    if room > 0 && o < |c| && InNumber(c[o]) then [c[o]] + NumberRun(c, o + 1, room - 1) else []
  }

  predicate AllDigits(s: seq<byte>) { forall i :: 0 <= i < |s| ==> IsDigit(s[i]) }

  predicate IsDecimal(s: seq<byte>)
  {
    if s != [] && s[0] == 0x2d then |s| > 1 && AllDigits(s[1..]) else s != [] && AllDigits(s)
  }

  function DigitsValue(s: seq<byte>): int
  {
    if s == [] then 0 else (var d: int := s[|s| - 1]; 10 * DigitsValue(s[..|s| - 1]) + d - 0x30)
  }

  function DecimalValue(s: seq<byte>): int
  {
    if s != [] && s[0] == 0x2d then -DigitsValue(s[1..]) else DigitsValue(s)
  }

  /** `strtod` on text that is no plain decimal: how many bytes it consumes. */
  type Strtod = seq<byte> -> nat

  function ParseNumber(c: seq<byte>, o: nat, strtod: Strtod): (r: Parsed<Json>)
    ensures r.Parsed? ==> o < r.offset <= |c|
  {
    if o >= |c| then Failed
    else
      var run := NumberRun(c, o, 63);
      if IsDecimal(run) then
        var v := DecimalValue(run);
        Parsed(if -TWO31 <= v < TWO31 then Number(v) else OtherNumber(run), o + |run|)
      else
        var n := strtod(run);
        if n == 0 || n > |run| then Failed else Parsed(OtherNumber(run[..n]), o + n)
  }

  function ParseValue(c: seq<byte>, o: nat, depth: nat, strtod: Strtod): (r: Parsed<Json>)
    ensures r.Parsed? ==> o < r.offset <= |c|
    decreases |c| - o, 2
  {
    if At(c, o, NULL_TEXT) then Parsed(Null, o + 4)
    else if At(c, o, FALSE_TEXT) then Parsed(False, o + 5)
    else if At(c, o, TRUE_TEXT) then Parsed(True, o + 4)
    else if o >= |c| then Failed
    else if c[o] == QUOTE then
      match ParseString(c, o)
      case Failed => Failed
      case Parsed(s, next) => Parsed(String(s), next)
    else if c[o] == 0x2d || IsDigit(c[o]) then ParseNumber(c, o, strtod)
    else if c[o] == LBRACKET then ParseArray(c, o, depth, strtod)
    else if c[o] == LBRACE then ParseObject(c, o, depth, strtod)
    else Failed
  }

  function ParseArray(c: seq<byte>, o: nat, depth: nat, strtod: Strtod): (r: Parsed<Json>)
    requires o < |c| && c[o] == LBRACKET
    ensures r.Parsed? ==> o < r.offset <= |c|
    decreases |c| - o, 1
  {
    if depth >= NESTING_LIMIT then Failed
    else
      var first := Skip(c, o + 1);
      if first >= |c| then Failed
      else if c[first] == RBRACKET then Parsed(Array([]), first + 1)
      else match ParseItems(c, first - 1, depth + 1, strtod)
        case Failed => Failed
        case Parsed(items, next) => Parsed(Array(items), next)
  }

  /** The items after the bracket or comma at `e`, up to and with the closing bracket. */
  function ParseItems(c: seq<byte>, e: nat, depth: nat, strtod: Strtod): (r: Parsed<seq<Json>>)
    requires e < |c|
    ensures r.Parsed? ==> e < r.offset <= |c|
    decreases |c| - e, 0
  {
    match ParseValue(c, Skip(c, e + 1), depth, strtod)
    case Failed => Failed
    case Parsed(v, next) =>
      var o := Skip(c, next);
      if o < |c| && c[o] == COMMA then
        match ParseItems(c, o, depth, strtod)
        case Failed => Failed
        case Parsed(rest, end) => Parsed([v] + rest, end)
      else if o < |c| && c[o] == RBRACKET then Parsed([v], o + 1)
      else Failed
  }

  function ParseObject(c: seq<byte>, o: nat, depth: nat, strtod: Strtod): (r: Parsed<Json>)
    requires o < |c| && c[o] == LBRACE
    ensures r.Parsed? ==> o < r.offset <= |c|
    decreases |c| - o, 1
  {
    if depth >= NESTING_LIMIT then Failed
    else
      var first := Skip(c, o + 1);
      if first >= |c| then Failed
      else if c[first] == RBRACE then Parsed(Object([]), first + 1)
      else match ParseMembers(c, first - 1, depth + 1, strtod)
        case Failed => Failed
        case Parsed(members, next) => Parsed(Object(members), next)
  }

  function ParseMembers(c: seq<byte>, e: nat, depth: nat, strtod: Strtod): (r: Parsed<seq<Member>>)
    requires e < |c|
    ensures r.Parsed? ==> e < r.offset <= |c|
    decreases |c| - e, 0
  {
    match ParseString(c, Skip(c, e + 1))
    case Failed => Failed
    case Parsed(name, next) =>
      var colon := Skip(c, next);
      if colon >= |c| || c[colon] != COLON then Failed
      else match ParseValue(c, Skip(c, colon + 1), depth, strtod)
        case Failed => Failed
        case Parsed(v, after) =>
          var o := Skip(c, after);
          if o < |c| && c[o] == COMMA then
            match ParseMembers(c, o, depth, strtod)
            case Failed => Failed
            case Parsed(rest, end) => Parsed([Member(name, v)] + rest, end)
          else if o < |c| && c[o] == RBRACE then Parsed([Member(name, v)], o + 1)
          else Failed
  }

  /** A byte order mark is skipped if more than one byte follows it. */
  function SkipBom(c: seq<byte>): nat
  {
    if |c| > 4 && c[..3] == [0xef, 0xbb, 0xbf] then 3 else 0
  }

  /** The whole input, with the NUL that ends it. */
  function Parse(c: seq<byte>, requireNull: bool, strtod: Strtod): Parsed<Json>
  {
    if c == [] then Failed
    else match ParseValue(c, Skip(c, SkipBom(c)), 0, strtod)
      case Failed => Failed
      case Parsed(v, next) =>
        if !requireNull then Parsed(v, next)
        else
          var end := Skip(c, next);
          if end >= |c| || c[end] != 0 then Failed else Parsed(v, end)
  }
}
