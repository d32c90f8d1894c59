/** Printing and parsing whole documents. */
module CJson {
  import opened Words
  import opened Json
  import G = Json
  import opened JsonRoundTrip
  import opened JsonMeaning
  import opened CJsonParser
  import opened CJsonPrinter

  const DEFAULT_BUFFER_SIZE := 256

  /** The printed document with its NUL. Printing fails only when the text would not fit an `int`. */
  method Print(j: Json, format: bool) returns (ok: bool, text: seq<byte>)
    requires Plain(j)
    ensures ok ==> text == Text(j, format, 0) + [0]
    ensures |Text(j, format, 0)| + 2 <= 0x7fff_ffff ==> ok
  {
    var p := new PrintBuffer(DEFAULT_BUFFER_SIZE, format);
    ok := p.Print(j);
    text := [];
    if ok {
      text := p.buffer[..p.offset + 1];
    }
  }

  /** Parse a text: it succeeds exactly on the documents of the grammar, with their value. */
  method ParseWithOpts(text: seq<byte>, requireNullTerminated: bool, strtod: Strtod) returns (ok: bool, j: Json)
    ensures ok <==> G.Parse(text, requireNullTerminated, strtod).Parsed?
    ensures ok ==> j == G.Parse(text, requireNullTerminated, strtod).value
    ensures ok ==> exists end :: DocumentAt(text, requireNullTerminated, strtod, j, end)
    ensures !ok ==> forall v, end :: !DocumentAt(text, requireNullTerminated, strtod, v, end)
  {
    hide G.Parse, DocumentAt;
    var b := new ParseBuffer(text);
    ok, j := b.Parse(requireNullTerminated, strtod);
    forall v, end: nat
      ensures G.Parse(text, requireNullTerminated, strtod) == G.Parsed(v, end) <==>
        DocumentAt(text, requireNullTerminated, strtod, v, end)
    {
      DocumentExactly(text, requireNullTerminated, strtod, v, end);
    }
    if ok {
      assert DocumentAt(text, requireNullTerminated, strtod, j, G.Parse(text, requireNullTerminated, strtod).offset);
    }
  }

  /**
   * The two together, through the growing buffer and the parser's cursor: what comes back is what was printed, exactly
   * when the nesting limit is kept.
   */
  method PrintThenParse(j: Json, format: bool, strtod: Strtod) returns (ok: bool, back: Json)
    requires Plain(j) && |Text(j, format, 0)| + 2 <= INT_MAX
    ensures ok && back == j <==> Nesting(j) <= NESTING_LIMIT
  {
    var printed, text := Print(j, format);
    PrintParse(j, format, true, strtod);
    ok, back := ParseWithOpts(text, true, strtod);
  }
}
