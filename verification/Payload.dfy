/** The way of a compiled patch into the process: hexadecimal text in a JSON document, read back and run. */
module Payload {
  import opened Words
  import opened Ebpf
  import opened JsonString
  import opened Json
  import opened CJson
  import I = Interp
  import R = Runs
  import opened UbpfVm

  // ----- writing -----

  const LOWER_X: byte := 0x78
  const EBPF_PATCH: seq<byte> := [0x65, 0x62, 0x70, 0x66, 0x5f, 0x70, 0x61, 0x74, 0x63, 0x68]
  const EBPF_PATCH_LEN: seq<byte> := EBPF_PATCH + [0x5f, 0x6c, 0x65, 0x6e]
  const NAME: seq<byte> := [0x6e, 0x61, 0x6d, 0x65]

  /** Two hexadecimal digits. */
  function Hex(b: byte): (t: seq<byte>)
    ensures |t| == 2
  {
    [HexChar(b / 16), HexChar(b % 16)]
  }

  /** Every byte as \xHH. */
  function HexText(ops: seq<byte>): seq<byte>
  {
    if ops == [] then [] else [BACKSLASH, LOWER_X] + Hex(ops[0]) + HexText(ops[1..])
  }

  /** A dictionary entry is replaced where it is, or added at the end. */
  function Update(ms: seq<Member>, m: Member): seq<Member>
  {
    if ms == [] then [m]
    else if ms[0].name == m.name then [m] + ms[1..]
    else [ms[0]] + Update(ms[1..], m)
  }

  function UpdateAll(ms: seq<Member>, news: seq<Member>): seq<Member>
    decreases |news|
  {
    if news == [] then ms else UpdateAll(Update(ms, news[0]), news[1..])
  }

  /** The entries that describe a compiled program; the length that is stored is one too large. */
  function CodeEntries(ops: seq<byte>, src: seq<byte>): seq<Member>
    requires |ops| < TWO31 - 1
  {
    [Member(EBPF_PATCH, String(HexText(ops))), Member(EBPF_PATCH_LEN, Number(|ops| + 1)), Member(NAME, String(src))]
  }

  /** The patch document: the configuration updated with the code's entries and any others. */
  function PatchDocument(config: seq<Member>, ops: seq<byte>, src: seq<byte>, more: seq<Member>): Json
    requires |ops| < TWO31 - 1
  {
    Object(UpdateAll(config, CodeEntries(ops, src) + more))
  }

  // ----- reading -----

  function ToLower(b: byte): byte { if 0x41 <= b <= 0x5a then b + 0x20 else b }

  function Lower(s: seq<byte>): (r: seq<byte>)
    ensures |r| == |s|
  {
    if s == [] then [] else [ToLower(s[0])] + Lower(s[1..])
  }

  /** The first member of a name, where case does not matter. */
  function Item(ms: seq<Member>, name: seq<byte>): Option<Json>
  {
    if ms == [] then None else if Lower(ms[0].name) == Lower(name) then Some(ms[0].value) else Item(ms[1..], name)
  }

  method GetObjectItem(ms: seq<Member>, name: seq<byte>) returns (r: Option<Json>)
    ensures r == Item(ms, name)
  {
    var i := 0;
    while i < |ms| && Lower(ms[i].name) != Lower(name)
      invariant i <= |ms| && Item(ms, name) == Item(ms[i..], name)
    {
      i := i + 1;
    }
    r := if i < |ms| then Some(ms[i].value) else None;
  }

  predicate IsDelimiter(b: byte) { b == BACKSLASH || b == LOWER_X }

  function SkipDelimiters(s: seq<byte>, p: nat): (r: nat)
    ensures p <= r && (p <= |s| ==> r <= |s|)
    decreases |s| - p
  {
    if p < |s| && IsDelimiter(s[p]) then SkipDelimiters(s, p + 1) else p
  }

  function TokenEnd(s: seq<byte>, p: nat): (r: nat)
    ensures p <= r && (p <= |s| ==> r <= |s|)
    decreases |s| - p
  {
    if p < |s| && !IsDelimiter(s[p]) then TokenEnd(s, p + 1) else p
  }

  /** The next token from `p` on, and where to go on behind the delimiter that ends it. */
  function NextToken(s: seq<byte>, p: nat): (r: Option<(seq<byte>, nat)>)
    requires p <= |s|
    ensures r.Some? ==> p <= r.value.1 <= |s|
  {
    var start := SkipDelimiters(s, p);
    if start == |s| then None
    else
      var end := TokenEnd(s, start);
      Some((s[start..end], if end < |s| then end + 1 else end))
  }

  /** The state strtok keeps between its calls. */
  class Strtok {
    const text: seq<byte>
    var pos: nat

    constructor (text: seq<byte>)
      ensures this.text == text && pos == 0
    {
      this.text := text;
      pos := 0;
    }

    method Next() returns (token: Option<seq<byte>>)
      requires pos <= |text|
      modifies this
      ensures pos <= |text|
      ensures match NextToken(text, old(pos))
        case None => token == None
        case Some((t, next)) => token == Some(t) && pos == next
    {
      while pos < |text| && IsDelimiter(text[pos])
        invariant pos <= |text| && SkipDelimiters(text, pos) == SkipDelimiters(text, old(pos))
        decreases |text| - pos
      {
        pos := pos + 1;
      }
      if pos == |text| {
        return None;
      }
      var start := pos;
      while pos < |text| && !IsDelimiter(text[pos])
        invariant start <= pos <= |text| && TokenEnd(text, pos) == TokenEnd(text, start)
        decreases |text| - pos
      {
        pos := pos + 1;
      }
      token := Some(text[start..pos]);
      if pos < |text| {
        pos := pos + 1;
      }
    }
  }

  predicate IsSpace(b: byte) { b == 0x20 || 9 <= b <= 13 }

  function SkipSpace(t: seq<byte>): seq<byte>
  {
    if t != [] && IsSpace(t[0]) then SkipSpace(t[1..]) else t
  }

  /** Hexadecimal digits up to something else, added to what was read. */
  function HexRun(t: seq<byte>, v: nat): nat
  {
    if t != [] && HexDigit(t[0]) >= 0 then HexRun(t[1..], 16 * v + HexDigit(t[0])) else v
  }

  function Unsigned(t: seq<byte>): nat
  {
    if |t| > 2 && t[0] == 0x30 && (t[1] == LOWER_X || t[1] == 0x58) && HexDigit(t[2]) >= 0 then HexRun(t[2..], 0)
      else HexRun(t, 0)
  }

  /** strtoul in base 16: white space, a sign, a prefix, digits; too large a number gives the largest. */
  function Strtoul16(token: seq<byte>): u64
  {
    var t := SkipSpace(token);
    var negative := t != [] && t[0] == 0x2d;
    var v: int := Unsigned(if negative || (t != [] && t[0] == 0x2b) then t[1..] else t);
    if v >= TWO64 then TWO64 - 1 else if negative then Wrap64(-v) else v
  }

  /** At most `room` bytes read from the tokens. */
  function TokenBytes(s: seq<byte>, p: nat, room: nat): (bs: seq<byte>)
    requires p <= |s|
    ensures |bs| <= room
    decreases room
  {
    if room == 0 then []
    else match NextToken(s, p)
      case None => []
      case Some((t, next)) => [Strtoul16(t) % 0x100] + TokenBytes(s, next, room - 1)
  }

  lemma TokenBytesStep(s: seq<byte>, p: nat, room: nat, read: seq<byte>)
    requires p <= |s| && NextToken(s, p).Some? && room > 0
    ensures var (t, next) := NextToken(s, p).value;
      read + TokenBytes(s, p, room) == (read + [Strtoul16(t) % 0x100]) + TokenBytes(s, next, room - 1)
  {
    hide NextToken, Strtoul16;
  }

  lemma TokenBytesEnd(s: seq<byte>, p: nat, room: nat, read: seq<byte>)
    requires p <= |s| && (NextToken(s, p).None? || room == 0)
    ensures read + TokenBytes(s, p, room) == read
  {
    hide NextToken;
  }

  /** Fill the array from the tokens; what no token reaches keeps its old contents. */
  method ReadTokens(s: seq<byte>, bytecode: array<byte>)
    modifies bytecode
    ensures var bs := TokenBytes(s, 0, bytecode.Length); bytecode[..] == bs + old(bytecode[..])[|bs|..]
  {
    hide NextToken, Strtoul16, TokenBytes;
    ghost var was := bytecode[..];
    var strtok := new Strtok(s);
    ghost var at: nat := 0;
    var token := strtok.Next();
    var i := 0;
    while i < bytecode.Length && token.Some?
      invariant i <= bytecode.Length && strtok.text == s && at <= |s| && strtok.pos <= |s|
      invariant match NextToken(s, at)
        case None => token == None
        case Some((t, next)) => token == Some(t) && strtok.pos == next
      invariant TokenBytes(s, 0, bytecode.Length) == bytecode[..i] + TokenBytes(s, at, bytecode.Length - i)
      invariant bytecode[..] == bytecode[..i] + was[i..]
    {
      TokenBytesStep(s, at, bytecode.Length - i, bytecode[..i]);
      WriteNext(bytecode[..], was, i, Strtoul16(token.value) % 0x100);
      bytecode[i] := Strtoul16(token.value) % 0x100;
      at := strtok.pos;
      token := strtok.Next();
      i := i + 1;
    }
    TokenBytesEnd(s, at, bytecode.Length - i, bytecode[..i]);
  }

  /** One more element of a sequence overwritten. */
  lemma WriteNext(a: seq<byte>, was: seq<byte>, i: nat, v: byte)
    requires i < |a| == |was| && a == a[..i] + was[i..]
    ensures a[i := v][..i + 1] == a[..i] + [v] && a[i := v] == a[i := v][..i + 1] + was[i + 1..]
  {
  }

  function Saturated(v: int): i32 { if v >= TWO31 then TWO31 - 1 else if v < -TWO31 then -TWO31 else v }

  /** The integer field of a parsed item: 1 in true, 0 in what is no number; fractions and exponents are left open. */
  function ValueInt(j: Json): Option<i32>
  {
    match j
    case Number(n) => Some(n)
    case True => Some(1)
    case OtherNumber(text) => if IsDecimal(text) then Some(Saturated(DecimalValue(text))) else None
    case _ => Some(0)
  }

  /** What the reader finds: the text of the code and the array's length. */
  datatype Found = Found(text: seq<byte>, length: nat) | NotFound

  function FindPatch(document: seq<byte>, strtod: Strtod): Found
  {
    match Parse(document, false, strtod)
    case Parsed(Object(ms), _) =>
      (match (Item(ms, EBPF_PATCH), Item(ms, EBPF_PATCH_LEN))
       case (Some(String(text)), Some(len)) =>
         if ValueInt(len).Some? && ValueInt(len).value >= 0 then Found(text, ValueInt(len).value) else NotFound
       case _ => NotFound)
    case _ => NotFound
  }

  method GetEbpfPatch(document: seq<byte>, strtod: Strtod) returns (bytecode: array?<byte>)
    ensures match FindPatch(document, strtod)
      case NotFound => bytecode == null
      case Found(text, length) =>
        bytecode != null && bytecode.Length == length && TokenBytes(text, 0, length) <= bytecode[..]
  {
    hide Parse, Item, TokenBytes;
    var ok, j := ParseWithOpts(document, false, strtod);
    if !ok || !j.Object? {
      return null;
    }
    var patch := GetObjectItem(j.members, EBPF_PATCH);
    var len := GetObjectItem(j.members, EBPF_PATCH_LEN);
    match (patch, len) {
      case (Some(String(text)), Some(len)) =>
        if ValueInt(len).None? || ValueInt(len).value < 0 {
          return null;
        }
        bytecode := new byte[ValueInt(len).value];
        ReadTokens(text, bytecode);
      case _ =>
        return null;
    }
  }

  // ----- running -----

  /** The number of instructions is a 16-bit field. */
  function NumInsts(length: nat): u16 { length / 8 % TWO16 }

  /** The three helpers programs may call. */
  datatype Helper3 = Helper3(sqrt: u64, strcmp: u64, unwind: u64)

  function ExtFuncs(f: Helper3): seq<u64>
  {
    seq<u64>(MAX_EXT_FUNCS, _ => 0)[1 := f.sqrt][2 := f.strcmp][3 := f.unwind]
  }

  /** Numbers 1 to 3 are taken, all others free. */
  lemma HelperTable(f: Helper3, i: nat)
    requires i < 64
    ensures |ExtFuncs(f)| == 64
    ensures ExtFuncs(f)[i] == if i == 1 then f.sqrt else if i == 2 then f.strcmp else if i == 3 then f.unwind else 0
  {
  }

  /**
   * Run a patch on a frame, without validating it and without bounds checks: the low half of register 0, or -1 after an
   * error.
   */
  method RunEbpf(code: seq<byte>, f: Helper3, ram: Ram, frame: u64, frameLen: u64, stack: u64, h: I.Helpers,
                 garbage: I.Regs, fuel: nat)
    returns (finished: bool, ret: i32)
    modifies ram
    ensures var vm := I.Vm(DecodeInsts(code), false, ExtFuncs(f), -1);
      var ctx := I.Ctx(frame, frameLen, stack);
      var o := I.Run(vm, h, ctx, I.Initial(ctx, garbage, old(ram.bytes)), fuel);
      && finished == !o.Next?
      && (o.Returned? ==> ret % 0x1_0000_0000 == o.ret % 0x1_0000_0000)
      && (o.DivideByZero? || o.OutOfBounds? ==> ret == -1)
      && (!o.Undefined? ==> ram.bytes == R.MemOf(o))
  {
    hide I.Run;
    var vm := new UbpfVm();
    var ok := vm.Register(1, None, f.sqrt);
    ok := vm.Register(2, None, f.strcmp);
    ok := vm.Register(3, None, f.unwind);
    vm.insts := Some(DecodeInsts(code));
    assert vm.extFuncs[..] == ExtFuncs(f);
    var o := vm.Exec(ram, frame, frameLen, stack, h, garbage, fuel);
    finished := !o.value.Next?;
    var result := TWO64 - 1;
    if o.value.Returned? {
      result := o.value.ret;
    }
    ret := Signed32(Low32(result));
  }
}
