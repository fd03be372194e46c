/** Printing what was parsed: when it parses again, and parse, measure, print as in the example of the library's
    header file. */
module Normalisation {
  import opened CStrings
  import opened Heaps
  import opened OrderedHeaders
  import opened HeaderTables
  import opened RequestLines
  import opened HeaderLines
  import opened Messages
  import opened PrintLengths
  import opened ParsedRequests

  // ---------- Lengths ----------

  /** A request prints to at most three bytes more than it was read from, beside the growth of its header lines. */
  lemma {:induction false} PrintIsBounded(input: string)
    requires Messages.Parse(input, []).Parsed?
    ensures var r := Messages.Parse(input, []);
            |Print(r.fields, r.headers)| <= |input| + 3 + Growth(Text(input))
  {
    hide *;
    PrintLengthIs(input);
    LineOfText(input);
    StartIs(input);
  }

  lemma {:induction false} StartIs(input: string)
    requires Messages.Parse(input, []).Parsed?
    ensures HeaderStart(Text(input)) == FindCrlf(Text(input), 0) + 2
  {
    ParsedIsLoop(input);
    hide Messages.Parse, FindCrlf, Text;
  }

  /** Well-formed header lines never grow. When no key is set twice they are the only ones that do not. */
  lemma {:induction false} GrowthIs(input: string)
    requires Messages.Parse(input, []).Parsed? && Messages.Parse(input, []).ok
    ensures WellFormedHeaders(input) ==> Growth(Text(input)) <= 0
    ensures Distinct(SetsOf(Text(input), HeaderStart(Text(input)))) ==>
              Growth(Text(input)) >= 0 && (Growth(Text(input)) == 0 <==> WellFormedHeaders(input))
  {
    hide Messages.Parse, Print, HeaderStart, LineText, FindBlank, FindCrlf, Text, WellFormedHeaders, Gained,
      Overwritten, SetsOf, Distinct;
    PrintLengthIs(input);
  }

  /** Reading what was printed gives the same request exactly when the printed request line, the blank line and the
      header lines with their growth are short enough. */
  lemma {:induction false} RoundTripIs(input: string)
    requires Messages.Parse(input, []).Parsed? && Messages.Parse(input, []).ok
    ensures var t, r := Text(input), Messages.Parse(input, []);
            Messages.Parse(Print(r.fields, r.headers), []) == r
            <==> |LineText(r.fields)| + 6 + FindBlank(t, 0) - HeaderStart(t) + Growth(t) <= MAX_REQ_LEN
  {
    hide Messages.Parse, Print, Growth, HeaderStart, LineText, FindBlank, FindCrlf, Text;
    PrintLengthIs(input);
    RoundTrip(input);
  }

  /** So below the limit by three bytes and the growth it always does. */
  lemma {:induction false} ShortRoundTrip(input: string)
    requires Messages.Parse(input, []).Parsed? && |input| + 3 + Growth(Text(input)) <= MAX_REQ_LEN
    ensures var r := Messages.Parse(input, []);
            Messages.Parse(Print(r.fields, r.headers), []) == Parsed(true, r.fields, r.headers)
  {
    hide Messages.Parse, Print, Growth, Text;
    PrintIsBounded(input);
    RoundTrip(input);
  }

  // ---------- Requests that grow by more than three bytes ----------

  const LONG_KEY := "x\r\na: b\r\n\r\n"
  const LONG_VALUE := "a:\r\nbbbb: c\r\n\r\n"

  /** A key that runs over a line end is printed once for each line in it. */
  lemma {:induction false} LongKeyGrows(f: Fields)
    requires Proper(f) && NulFree(f) && CrlfFree(f) && |LineText(f)| < 1000
    ensures var input, hs := LineText(f) + CRLF + LONG_KEY, [Header("x\r\na", "b"), Header("a", "b")];
            Messages.Parse(input, []) == Parsed(true, f, hs) && |Print(f, hs)| == |input| + 6
  {
    hide Loop, Messages.Parse, LineText, Print, Proper, NulFree, CrlfFree, BlankAt;
    ColonFurtherDown();
    LongTexts();
    GrowsBy(f, LONG_KEY, 7, Header("x\r\na", "b"), Header("a", "b"));
  }

  /** A value that starts at a line end is printed with the line it takes in, and that line once more. */
  lemma {:induction false} LongValueGrows(f: Fields)
    requires Proper(f) && NulFree(f) && CrlfFree(f) && |LineText(f)| < 1000
    ensures var input, hs := LineText(f) + CRLF + LONG_VALUE, [Header("a", "\nbbbb: c"), Header("bbbb", "c")];
            Messages.Parse(input, []) == Parsed(true, f, hs) && |Print(f, hs)| == |input| + 9
  {
    hide Loop, Messages.Parse, LineText, Print, Proper, NulFree, CrlfFree, BlankAt;
    ValueFurtherDown();
    LongTexts();
    GrowsBy(f, LONG_VALUE, 11, Header("a", "\nbbbb: c"), Header("bbbb", "c"));
  }

  lemma {:induction false} LongTexts()
    ensures NUL !in LONG_KEY && |LONG_KEY| == 11 && BlankAt(LONG_KEY, 7)
    ensures NUL !in LONG_VALUE && |LONG_VALUE| == 15 && BlankAt(LONG_VALUE, 11)
  {
  }

  lemma {:induction false} GrowsBy(f: Fields, rest: string, blank: nat, g: Header, h: Header)
    requires Proper(f) && NulFree(f) && CrlfFree(f) && |LineText(f)| < 1000 && |rest| < 1000
    requires NUL !in rest && BlankAt(rest, blank) && Loop(rest, 0, []) == Done(true, [g, h])
    ensures Messages.Parse(LineText(f) + CRLF + rest, []) == Parsed(true, f, [g, h])
    ensures |Print(f, [g, h])| == |LineText(f) + CRLF + rest| + 10 + |g.key| + |g.value| + |h.key| + |h.value| - |rest|
  {
    hide Loop, Messages.Parse, LineText, Print, HeaderText, Proper, NulFree, CrlfFree, BlankAt;
    ParseBehindLine(f, rest, blank, true, [g, h]);
    TwoHeadersPrint(f, g, h);
  }

  lemma {:induction false} TwoHeadersPrint(f: Fields, g: Header, h: Header)
    ensures |Print(f, [g, h])| == |LineText(f)| + 4 + |HeaderLine(g)| + |HeaderLine(h)|
  {
    hide HeaderLine, LineText;
    TextFront(h, []);
    TextFront(g, [h]);
    assert [g] + [h] == [g, h] && [h] + [] == [h];
    NothingPrinted();
    PrintedLength(f, [g, h]);
  }

  // ---------- The example ----------

  /** Prints a request into a buffer of the length predicted for it, or gives up when the parse fails: then the
      object stays behind with what it holds. */
  method Reprint(heap: Heap, input: string) returns (req: ParsedRequest, b: array?<char>)
    requires heap.Valid() && InBounds(input)
    modifies heap
    ensures b != null <==> !LineRefused(input) && !Colonless(Text(input))
    ensures b != null ==> heap.Valid() && heap.live == old(heap.live)
    ensures b != null ==> var r := Messages.Parse(input, []); r.Parsed? && b[..] == Print(r.fields, r.headers)
    ensures b == null ==> fresh(req) && req.heap == heap && req.Valid() && heap.live - req.Owned() == old(heap.live)
  {
    hide Messages.Parse, InBounds, LineRefused, Colonless, Print, HeaderBlock, Own, Entries, Distinct, Str;
    ParseOutcome(input, []);
    req := new ParsedRequest(heap);
    var ret := req.Parse(input);
    if ret < 0 { return req, null; }
    HeadersFit(input);
    b := PrintWhole(req);
    req.Destroy();
  }

  method PrintWhole(req: ParsedRequest) returns (b: array<char>)
    requires req.Valid() && req.buf != null && |HeaderBlock(req.table.Contents())| < 0x8000_0000
    ensures fresh(b) && b[..] == Print(req.FieldValues(), req.table.Contents())
  {
    MeasuredExact(|HeaderBlock(req.table.Contents())|);
    hide Measured, HeaderBlock, LineText, Own, Entries, Distinct, Str;
    var rlen := req.TotalLen();
    b := new char[rlen];
    var ret := req.Unparse(b, rlen);
    assert b[..] == b[..rlen];
  }
}
