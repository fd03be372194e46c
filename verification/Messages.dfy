/** Whole requests: what parsing a buffer means, what printing one means, and that they undo each other. */
module Messages {
  import opened CStrings
  import opened OrderedHeaders
  import opened RequestLines
  import opened RequestGrammar
  import opened HeaderLines
  import opened HeaderChains

  const MAX_REQ_LEN: nat := 65535
  const MIN_REQ_LEN: nat := 4

  /** `Refused`: -1, and the object is left as it was. `Parsed`: the object now holds a request;
      the return value is -1 when the header loop stopped at a line without colon. */
  datatype ParseResult = Refused | Parsed(ok: bool, fields: Fields, headers: seq<Header>) | OutOfBounds

  /** The part of the buffer the string functions see. */
  function Text(input: string): string { Str(input, 0) }

  function Parse(input: string, table: seq<Header>): ParseResult {
    var t := Text(input);
    if |input| < MIN_REQ_LEN || |input| > MAX_REQ_LEN || FindBlank(t, 0) == |t| then Refused
    else
      CrlfBeforeBlank(t);
      ParseOf(t, table)
  }

  /** The request line is everything before the first CRLF; the headers start behind it. */
  function ParseOf(t: string, table: seq<Header>): ParseResult
    requires FindCrlf(t, 0) + 2 <= |t|
  {
    match Split(t[..FindCrlf(t, 0)])
    case Rejected => Refused
    case Overrun => OutOfBounds
    case Accepted(f) =>
      match Loop(t, FindCrlf(t, 0) + 2, table)
      case Undefined => OutOfBounds
      case Done(ok, hs) => Parsed(ok, f, hs)
  }

  lemma {:induction false} CrlfBeforeBlank(t: string)
    ensures FindBlank(t, 0) < |t| ==> FindCrlf(t, 0) <= FindBlank(t, 0) && FindCrlf(t, 0) + 2 <= |t|
  {
    FindCrlfIsFirst(t, 0);
  }

  // ---------- What decides the outcome ----------

  /** What is refused before the headers are looked at. */
  predicate LineRefused(input: string) {
    var t := Text(input);
    || |input| < MIN_REQ_LEN || |input| > MAX_REQ_LEN || FindBlank(t, 0) == |t|
    || Split(t[..FindCrlf(t, 0)]) == Rejected
  }

  /** No colon from the last header line to the end of the text, the body included. */
  predicate Colonless(t: string) { HasHeaders(t) && ':' !in t[LastLine(t)..] }

  /** The first colon from the last header line on is the last byte of the text, or has no line end behind the byte
      after it. */
  predicate Runaway(t: string) {
    HasHeaders(t) && var i := FindColon(t, LastLine(t)); i < |t| && (i + 2 > |t| || FindCrlf(t, i + 2) == |t|)
  }

  /** What a caller has to see to: a byte behind the address, and an end of the last value. */
  predicate InBounds(input: string) {
    LineRefused(input) || (Split(Text(input)[..FindCrlf(Text(input), 0)]) != Overrun && !Runaway(Text(input)))
  }

  lemma {:induction false} ColonlessIs(t: string)
    requires HasHeaders(t)
    ensures Colonless(t) <==> FindColon(t, LastLine(t)) == |t|
  {
    var l := LastLine(t);
    ScanStops(t, l, |t|, {':'});
    var i := FindColon(t, l);
    assert i < |t| ==> t[l..][i - l] == ':';
    assert forall j: nat | j < |t[l..]| :: t[l..][j] == t[l + j];
  }

  lemma {:induction false} HeadersDecide(t: string, table: seq<Header>)
    requires FindBlank(t, 0) < |t| && FindCrlf(t, 0) + 2 <= |t|
    ensures var r := Loop(t, FindCrlf(t, 0) + 2, table);
            (r == Undefined <==> Runaway(t)) && (r.Done? && !r.ok <==> Colonless(t))
  {
    CrlfBeforeBlank(t);
    if HasHeaders(t) {
      LastLineEndsHeaders(t);
      ColonlessIs(t);
      RunawayIs(t);
      HeaderStarts(t);
      LastLineDecides(t, FindBlank(t, 0), FindCrlf(t, 0) + 2, LastLine(t), table);
      hide *;
    }
  }

  lemma {:induction false} HeaderStarts(t: string)
    requires FindBlank(t, 0) < |t|
    ensures FindCrlf(t, 0) + 2 <= |t| && FirstBlank(t, FindBlank(t, 0))
    ensures LineStart(t, FindBlank(t, 0), FindCrlf(t, 0) + 2)
  {
    CrlfBeforeBlank(t);
  }

  lemma {:induction false} RunawayIs(t: string)
    requires HasHeaders(t)
    ensures Runaway(t) <==> HeaderAt(t, LastLine(t)).Wild?
  {
    hide LastLine, FindCrlf, FindColon, FindBlank;
  }

  /** Whatever the table holds: a parse is refused before its headers, leaves its buffers, or fails in its headers
      and keeps the object assigned, just when the text is as described. */
  lemma {:induction false} ParseOutcome(input: string, table: seq<Header>)
    ensures var r := Parse(input, table);
            && (r == Refused <==> LineRefused(input))
            && (r == OutOfBounds <==> !InBounds(input))
            && (r.Parsed? && !r.ok <==> !LineRefused(input) && InBounds(input) && Colonless(Text(input)))
  {
    var t := Text(input);
    CrlfBeforeBlank(t);
    hide Split, Loop, FindBlank, FindCrlf, Text, Runaway, Colonless;
    if FindBlank(t, 0) < |t| { HeadersDecide(t, table); }
  }

  /** A parse that gets to the headers does to the table what its sets do, whether it ends well or not. */
  lemma {:induction false} ParsedIsSets(input: string, table: seq<Header>)
    requires Parse(input, table).Parsed?
    ensures var t, c := Text(input), FindCrlf(Text(input), 0) + 2;
            c <= |t| <= MAX_REQ_LEN && Parse(input, table).headers == PutAll(table, SetsOf(t, c))
  {
    var t := Text(input);
    CrlfBeforeBlank(t);
    assert |t| <= |input| <= MAX_REQ_LEN;
    hide Split, Loop, FindCrlf, FindBlank, Text;
    LoopIsSets(t, FindCrlf(t, 0) + 2, table);
  }

  /** Too short, too long, or without a blank line: refused, whatever else it is. */
  lemma {:induction false} RefusedEarly(input: string, table: seq<Header>)
    requires |input| < 4 || |input| > 65535 || forall i: nat :: !BlankAt(Text(input), i)
    ensures Parse(input, table) == Refused
  {
    hide ParseOf, Str;
    var t := Text(input);
    if FindBlank(t, 0) < |t| { assert BlankAt(t, FindBlank(t, 0)); }
  }

  // ---------- Printing ----------

  function HeaderLine(h: Header): string { h.key + ": " + h.value + CRLF }

  function HeaderText(hs: seq<Header>): string {
    if hs == [] then "" else HeaderText(hs[..|hs| - 1]) + HeaderLine(hs[|hs| - 1])
  }

  function HeaderBlock(hs: seq<Header>): string { HeaderText(hs) + CRLF }

  function Print(f: Fields, hs: seq<Header>): string { LineText(f) + CRLF + HeaderBlock(hs) }

  // ---------- Round trip ----------

  lemma {:induction false} LinesAreUnbroken(block: string)
    requires AllWellFormed(Lines(block))
    ensures forall h <- HeadersOf(Lines(block)) :: !Broken(h.key)
    decreases |block|
  {
    var e := FindCrlf(block, 0);
    if e < |block| {
      var line, rest := block[..e], block[e + 2..];
      Unfold([], line, Lines(rest));
      LineIsUnbroken(block, e);
      hide FindCrlf, WellFormed, HeaderOf;
      LinesAreUnbroken(rest);
    }
  }

  lemma {:induction false} LineIsUnbroken(block: string, e: nat)
    requires FindCrlf(block, 0) == e < |block| && WellFormed(block[..e])
    ensures !Broken(HeaderOf(block[..e]).key)
  {
    var key := HeaderOf(block[..e]).key;
    FindCrlfIsFirst(block, 0);
    var k := FindCrlf(key, 0);
    assert k < e ==> !CrlfAt(block, k);
  }

  /** HeaderText unfolded from the front, which is how the loop reads it. */
  lemma {:induction false} HeaderTextFront(hs: seq<Header>)
    requires hs != []
    ensures HeaderText(hs) == HeaderLine(hs[0]) + HeaderText(hs[1..])
  {
    if |hs| == 1 {
      assert hs[..0] == [] && hs[1..] == [];
    } else {
      hide HeaderLine;
      var front, last := hs[..|hs| - 1], hs[|hs| - 1];
      HeaderTextFront(front);
      assert hs[1..][..|hs| - 2] == front[1..];
      JoinRegroups(HeaderLine(hs[0]), HeaderText(front[1..]), HeaderLine(last));
    }
  }

  /** A printed header line is read back as that header; the line that the cursor is in ends inside the key when
      the key runs over a line end, and with the printed line otherwise. */
  lemma {:induction false} ReadLine(t: string, c: nat, h: Header, rest: string)
    requires Clean(h) && c <= |t| && t[c..] == HeaderLine(h) + rest
    ensures !CrlfAt(t, c) && c < |t| && HeaderAt(t, c) == Pair(h)
    ensures !Broken(h.key) ==> FindCrlf(t, c) + 2 == c + |HeaderLine(h)|
  {
    var i, e := c + |h.key|, c + |h.key| + 2 + |h.value|;
    var printed := t[c..];
    assert printed[..|h.key|] == h.key && printed[|h.key|..|h.key| + 2] == ": ";
    assert printed[|h.key| + 2..][..|h.value|] == h.value;
    assert t[c..i] == h.key && t[i] == printed[|h.key|] == ':' && t[i + 2..e] == h.value;
    assert t[e] == printed[e - c] == '\r' && t[e + 1] == printed[e - c + 1] == '\n';
    hide HeaderLine;
    ReadParts(t, c, i, e, h);
  }

  lemma {:induction false} ReadParts(t: string, c: nat, i: nat, e: nat, h: Header)
    requires Clean(h) && c <= i && i + 2 <= e < |t| && CrlfAt(t, e)
    requires t[c..i] == h.key && t[i] == ':' && t[i + 1] == ' ' && t[i + 2..e] == h.value
    ensures !CrlfAt(t, c) && HeaderAt(t, c) == Pair(h)
    ensures !Broken(h.key) ==> FindCrlf(t, c) == e
  {
    assert forall j | c <= j < i :: t[j] == h.key[j - c];
    ScanStops(t, c, |t|, {':'});
    assert FindColon(t, c) == i;
    NoCrlfBetween(t, i + 2, e);
    FirstCrlf(t, i + 2, e);
    if !Broken(h.key) {
      FindCrlfIsFirst(h.key, 0);
      forall j | c <= j < e
        ensures !CrlfAt(t, j)
      {
        assert j < i ==> !CrlfAt(h.key, j - c);
      }
      FirstCrlf(t, c, e);
    }
  }

  lemma {:induction false} NoCrlfBetween(t: string, lo: nat, hi: nat)
    requires lo <= hi < |t| && NoCrlf(t[lo..hi]) && t[hi] == '\r'
    ensures forall j | lo <= j < hi :: !CrlfAt(t, j)
  {
    forall j | lo <= j < hi
      ensures !CrlfAt(t, j)
    {
      assert !CrlfAt(t[lo..hi], j - lo);
    }
  }

  lemma {:induction false} Peel(t: string, c: nat, line: string, rest: string)
    requires c <= |t| && t[c..] == line + rest
    ensures c + |line| <= |t| && t[c..c + |line|] == line && t[c + |line|..] == rest
  {
    assert t[c..c + |line|] == t[c..][..|line|] && t[c + |line|..] == t[c..][|line|..];
  }

  lemma {:induction false} HeaderBlockFront(hs: seq<Header>)
    requires hs != []
    ensures HeaderBlock(hs) == HeaderLine(hs[0]) + HeaderBlock(hs[1..])
  {
    HeaderTextFront(hs);
  }

  /** Inside a broken key the cursor stands before a printed line again: the rest of the key and the same value. */
  lemma {:induction false} ReadRest(t: string, c: nat, h: Header, rest: string)
    requires Clean(h) && Broken(h.key) && c <= |t| && t[c..] == HeaderLine(h) + rest
    ensures var e, r := FindCrlf(t, c), Header(Rest(h.key), h.value);
            && e < |t| && t[e + 2..] == HeaderLine(r) + rest
            && e + 2 + |HeaderLine(r)| == c + |HeaderLine(h)|
            && (CrlfAt(t, e + 2) <==> CrlfAt(Rest(h.key), 0))
            && (!CrlfAt(Rest(h.key), 0) ==> Clean(r))
  {
    ReadLine(t, c, h, rest);
    NextInKey(t, c);
    LineWithoutFront(h);
    hide HeaderAt, HeaderLine, FindCrlf;
    var n := FindCrlf(h.key, 0) + 2;
    assert t[c..][n..] == t[c + n..];
    DropFront(HeaderLine(h), rest, n);
  }

  lemma {:induction false} LineWithoutFront(h: Header)
    requires Clean(h) && Broken(h.key)
    ensures var n, r := FindCrlf(h.key, 0) + 2, Header(Rest(h.key), h.value);
            && n + |HeaderLine(r)| == |HeaderLine(h)| && HeaderLine(h)[n..] == HeaderLine(r)
            && (!CrlfAt(r.key, 0) ==> Clean(r))
  {
    var n := FindCrlf(h.key, 0) + 2;
    hide FindCrlf;
    DropFront(h.key + ": " + h.value, CRLF, n);
    DropFront(h.key + ": ", h.value, n);
    DropFront(h.key, ": ", n);
  }

  lemma {:induction false} LoopReadsLine(t: string, c: nat, h: Header, rest: string, table: seq<Header>)
    requires Clean(h) && c <= |t| && t[c..] == HeaderLine(h) + rest
    ensures c + |HeaderLine(h)| <= |t|
    ensures Loop(t, c, table) == if Halts(h.key) then Done(true, PutAll(table, ReadSets(h)))
                                 else Loop(t, c + |HeaderLine(h)|, PutAll(table, ReadSets(h)))
    decreases |h.key|
  {
    hide FindCrlf, HeaderAt, HeaderLine, Put, Clean, Broken, Rest;
    ReadLine(t, c, h, rest);
    PutAllFirst(table, h, ReadSets(h)[1..]);
    if Broken(h.key) {
      var r := Header(Rest(h.key), h.value);
      ReadRest(t, c, h, rest);
      if !CrlfAt(Rest(h.key), 0) {
        LoopReadsLine(t, FindCrlf(t, c) + 2, r, rest, Put(table, h.key, h.value));
      }
    }
  }

  lemma {:induction false} LoopReadsHeaderText(t: string, c: nat, hs: seq<Header>, table: seq<Header>)
    requires AllClean(hs) && c <= |t| && t[c..] == HeaderBlock(hs)
    ensures Loop(t, c, table) == Done(true, PutAll(table, Reread(hs)))
    decreases |hs|
  {
    hide Loop, PutAll, Reread, HeaderLine, HeaderBlock, ReadSets, Halts, Clean;
    RereadUnfold(hs, table);
    if hs == [] {
      LoopEnds(t, c, table);
    } else {
      var h := hs[0];
      HeaderBlockFront(hs);
      Peel(t, c, HeaderLine(h), HeaderBlock(hs[1..]));
      LoopReadsLine(t, c, h, HeaderBlock(hs[1..]), table);
      if Halts(h.key) {
        assert ReadSets(h) + [] == ReadSets(h);
      } else {
        LoopReadsHeaderText(t, c + |HeaderLine(h)|, hs[1..], PutAll(table, ReadSets(h)));
        PutAllJoin(table, ReadSets(h), Reread(hs[1..]));
      }
    }
  }

  lemma {:induction false} RereadUnfold(hs: seq<Header>, table: seq<Header>)
    ensures Reread(hs) == if hs == [] then [] else ReadSets(hs[0]) + if Halts(hs[0].key) then [] else Reread(hs[1..])
    ensures PutAll(table, []) == table
  {
  }

  lemma {:induction false} LoopEnds(t: string, c: nat, table: seq<Header>)
    requires c <= |t| && t[c..] == HeaderBlock([])
    ensures Loop(t, c, table) == Done(true, table)
  {
    BlockEnd(t, c);
  }

  lemma {:induction false} BlockEnd(t: string, c: nat)
    requires c <= |t| && t[c..] == HeaderBlock([])
    ensures CrlfAt(t, c)
  {
    assert t[c..][0] == '\r' && t[c..][1] == '\n';
  }

  lemma {:induction false} PutAllKeeps(table: seq<Header>, hs: seq<Header>)
    requires Distinct(table) && AllClean(table) && AllClean(hs)
    ensures Distinct(PutAll(table, hs)) && AllClean(PutAll(table, hs))
    decreases |hs|
  {
    if hs != [] {
      var h := hs[0];
      PutDistinct(table, h.key, h.value);
      WithoutKeys(table, h.key);
      assert h == Header(h.key, h.value);
      PutAllKeeps(Put(table, h.key, h.value), hs[1..]);
    }
  }

  ghost predicate NulFree(f: Fields) {
    && NUL !in f.method_ && NUL !in f.protocol && NUL !in f.host && (f.port.Some? ==> NUL !in f.port.value)
    && NUL !in f.path && NUL !in f.version
  }

  ghost predicate CrlfFree(f: Fields) {
    && NoCrlf(f.method_) && NoCrlf(f.protocol) && NoCrlf(f.host) && (f.port.Some? ==> NoCrlf(f.port.value))
    && NoCrlf(f.path) && NoCrlf(f.version)
  }

  lemma {:induction false} FieldsAreClean(line: string, c: Cuts)
    requires c.InOrder(|line|) && c.addr.hi < |line| && NUL !in line && NoCrlf(line)
    ensures NulFree(FieldsAt(line, c)) && CrlfFree(FieldsAt(line, c))
  {
    NoCrlfSlice(line, c.verb.lo, c.verb.hi);
    NoCrlfSlice(line, c.protocol.lo, c.protocol.hi);
    NoCrlfSlice(line, c.host.lo, c.host.hi);
    NoCrlfSlice(line, c.port.lo, c.port.hi);
    NoCrlfSlice(line, c.tail.lo, c.tail.hi);
    NoCrlfSlice(line, c.addr.hi + 1, |line|);
    ToTheEnd(line, c.addr.hi + 1);
    NoCrlfJoin("/", line[c.tail.lo..c.tail.hi]);
  }

  lemma {:induction false} LineTextIsClean(f: Fields)
    requires Proper(f) && NulFree(f) && CrlfFree(f)
    ensures NUL !in LineText(f) && NoCrlf(LineText(f))
  {
    AddressIsClean(f);
    NoCrlfJoin(f.method_, " ");
    NoCrlfJoin(f.method_ + " ", Address(f));
    NoCrlfJoin(f.method_ + " " + Address(f), " ");
    NoCrlfJoin(f.method_ + " " + Address(f) + " ", f.version);
  }

  lemma {:induction false} AuthorityIsClean(f: Fields)
    requires Proper(f) && NulFree(f) && CrlfFree(f)
    ensures NUL !in Authority(f) && NoCrlf(Authority(f))
  {
    if f.port.Some? {
      NoCrlfJoin(":", f.port.value);
      NoCrlfJoin(f.host, ":" + f.port.value);
    } else {
      assert Authority(f) == f.host;
    }
  }

  lemma {:induction false} AddressIsClean(f: Fields)
    requires Proper(f) && NulFree(f) && CrlfFree(f)
    ensures NUL !in Address(f) && NoCrlf(Address(f))
  {
    AuthorityIsClean(f);
    NoCrlfJoin(f.protocol, "://");
    NoCrlfJoin(f.protocol + "://", Authority(f));
    NoCrlfJoin(f.protocol + "://" + Authority(f), f.path);
  }

  lemma {:induction false} TextOfNulFree(s: string)
    requires NUL !in s
    ensures Text(s) == s
  {
    ScanStops(s, 0, |s|, {NUL});
  }

  lemma {:induction false} PrintEndsBlank(line: string, hs: seq<Header>)
    ensures var p := line + CRLF + HeaderBlock(hs); |p| >= 4 && BlankAt(p, |p| - 4)
  {
    if hs != [] {
      var h := hs[|hs| - 1];
      var front := line + CRLF + HeaderText(hs[..|hs| - 1]) + (h.key + ": " + h.value);
      assert line + CRLF + HeaderBlock(hs) == front + CRLF + CRLF;
    }
  }

  // ---------- The laws ----------

  /** The header lines of the text: what lies between the request line and the first blank line. */
  function Block(t: string): string
    requires FindBlank(t, 0) < |t|
  {
    CrlfBeforeBlank(t);
    t[FindCrlf(t, 0) + 2..FindBlank(t, 0) + 2]
  }

  ghost predicate WellFormedHeaders(input: string) {
    var t := Text(input);
    FindBlank(t, 0) < |t| && AllWellFormed(Lines(Block(t)))
  }

  lemma {:induction false} RequestLinePrintable(t: string)
    requires NUL !in t && FindCrlf(t, 0) < |t| && Split(t[..FindCrlf(t, 0)]).Accepted?
    ensures var f := Split(t[..FindCrlf(t, 0)]).fields; Proper(f) && NulFree(f) && CrlfFree(f)
  {
    hide Split, CutsOf, FieldsAt, Proper, NulFree, CrlfFree, FindCrlf;
    var line := t[..FindCrlf(t, 0)];
    SplitIsProper(line);
    FieldsOfSplit(line);
    FindCrlfIsFirst(t, 0);
    forall i: nat
      ensures !CrlfAt(line, i)
    {
      assert i < |line| ==> !CrlfAt(t, i);
    }
    FieldsAreClean(line, CutsOf(line));
  }

  lemma {:induction false} HeadersPrintable(t: string, c: nat)
    requires NUL !in t && c <= |t| && Loop(t, c, []) != Undefined
    ensures var hs := Loop(t, c, []).table; Distinct(hs) && AllClean(hs) && Printable(hs)
  {
    hide Loop, Clean;
    LoopIsSets(t, c, []);
    SetsAreLinked(t, c);
    PutAllKeeps([], SetsOf(t, c));
    PutAllIsSurvivors(SetsOf(t, c));
    SurvivorsArePrintable(SetsOf(t, c));
  }

  /** Everything a parse stores can be printed, even when the parse has failed in its headers. */
  lemma {:induction false} ParsedIsPrintable(input: string)
    requires Parse(input, []).Parsed?
    ensures var r := Parse(input, []);
            && Proper(r.fields) && NulFree(r.fields) && CrlfFree(r.fields)
            && Distinct(r.headers) && AllClean(r.headers) && Printable(r.headers)
  {
    hide Split, Loop;
    StrIsNulFree(input, 0);
    CrlfBeforeBlank(Text(input));
    HeadersPrintable(Text(input), FindCrlf(Text(input), 0) + 2);
    RequestLinePrintable(Text(input));
  }

  lemma {:induction false} LoopFoldsBlock(t: string)
    requires FindBlank(t, 0) < |t| && AllWellFormed(Lines(Block(t)))
    ensures var hs := HeadersOf(Lines(Block(t)));
            && FindCrlf(t, 0) + 2 <= |t| && Loop(t, FindCrlf(t, 0) + 2, []) == Done(true, PutAll([], hs))
            && forall h <- PutAll([], hs) :: !Broken(h.key)
  {
    HeaderStarts(t);
    hide Loop, Lines, PutAll, Sets, Survivors, HeadersOf, AllWellFormed, FindBlank, FindCrlf, FirstBlank, LineStart;
    LoopFoldsLines(t, FindBlank(t, 0), FindCrlf(t, 0) + 2, []);
    LinesAreUnbroken(Block(t));
    PutAllAddsNoKeys(HeadersOf(Lines(Block(t))));
  }

  lemma {:induction false} PutAllAddsNoKeys(hs: seq<Header>)
    ensures forall h <- PutAll([], hs) :: h in hs
  {
    PutAllIsSurvivors(hs);
    SurvivorsAreSets(hs);
  }

  /** When all header lines are well-formed the parse succeeds, and the headers are those of the lines, the last
      line of a key winning. */
  lemma {:induction false} WellFormedIsFold(input: string)
    requires WellFormedHeaders(input) && Parse(input, []).Parsed?
    ensures var r, hs := Parse(input, []), HeadersOf(Lines(Block(Text(input))));
            r.ok && r.headers == PutAll([], hs) && forall h <- r.headers :: !Broken(h.key)
  {
    hide Split, Loop, Lines, Block, FindCrlf, FindBlank, Text, PutAll, AllWellFormed, HeadersOf;
    LoopFoldsBlock(Text(input));
  }

  lemma {:induction false} PrintedShape(line: string, hs: seq<Header>)
    requires NUL !in line && NoCrlf(line) && AllClean(hs)
    ensures var p := line + CRLF + HeaderBlock(hs);
            && Text(p) == p && |p| >= MIN_REQ_LEN && FindBlank(p, 0) < |p| && FindCrlf(p, 0) == |line|
            && p[..|line|] == line && p[|line| + 2..] == HeaderBlock(hs)
  {
    var p := line + CRLF + HeaderBlock(hs);
    HeaderTextNulFree(hs);
    TextOfNulFree(p);
    PrintEndsBlank(line, hs);
    FindBlankIsFirst(p, 0);
    LineEnd(line, HeaderBlock(hs));
  }

  lemma {:induction false} ParseOfParts(p: string, line: string, f: Fields, hs: seq<Header>)
    requires Text(p) == p && |p| >= MIN_REQ_LEN && FindBlank(p, 0) < |p| && FindCrlf(p, 0) == |line| && |line| + 2 <= |p|
    requires p[..|line|] == line && Split(line) == Accepted(f) && p[|line| + 2..] == HeaderBlock(hs)
    requires Distinct(hs) && AllClean(hs) && Printable(hs)
    ensures Parse(p, []) == if |p| <= MAX_REQ_LEN then Parsed(true, f, hs) else Refused
  {
    hide Split, FindBlank, FindCrlf, Printable, Reread, Loop, PutAll, Survivors, Sets, HeaderBlock, Distinct, Clean, Str;
    LoopReadsHeaderText(p, |line| + 2, hs, []);
    PutAllIsSurvivors(Reread(hs));
    RereadLeavesAll(hs);
  }

  /** Reading a printed request gives it back, unless it is longer than any the parser takes. */
  lemma {:induction false} PrintedParses(f: Fields, hs: seq<Header>)
    requires Proper(f) && NulFree(f) && CrlfFree(f) && Distinct(hs) && AllClean(hs) && Printable(hs)
    ensures Parse(Print(f, hs), []) == if |Print(f, hs)| <= MAX_REQ_LEN then Parsed(true, f, hs) else Refused
  {
    var line := LineText(f);
    LineTextIsClean(f);
    PrintedLineSplits(f);
    PrintedShape(line, hs);
    ParseOfParts(line + CRLF + HeaderBlock(hs), line, f, hs);
  }

  /** Headers whose keys stay within a line. */
  ghost predicate OneLine(hs: seq<Header>) { AllClean(hs) && forall h <- hs :: !Broken(h.key) }

  lemma {:induction false} CleanLine(h: Header)
    requires Clean(h)
    ensures WellFormed(h.key + ": " + h.value)
  {
    var line := h.key + ": " + h.value;
    ScanStops(line, 0, |line|, {':'});
    assert line[|h.key|] == ':';
  }

  lemma {:induction false} PrintedLines(t: string, q: nat, c: nat, hs: seq<Header>)
    requires FirstBlank(t, q) && LineStart(t, q, c) && OneLine(hs) && t[c..] == HeaderBlock(hs)
    ensures AllWellFormed(Lines(t[c..q + 2]))
    decreases |hs|
  {
    hide HeaderBlock, FindCrlf, FindBlank, AllWellFormed, WellFormed, Lines, HeaderAt, Clean;
    NextLine(t, q, c);
    if hs == [] {
      BlockEnd(t, c);
      NoLines(t[c..q + 2], []);
    } else {
      var h := hs[0];
      var line, e := h.key + ": " + h.value, FindCrlf(t, c);
      HeaderBlockFront(hs);
      Peel(t, c, HeaderLine(h), HeaderBlock(hs[1..]));
      Peel(t, c, line, CRLF + HeaderBlock(hs[1..]));
      ReadLine(t, c, h, HeaderBlock(hs[1..]));
      CleanLine(h);
      FirstLine(t, q, c, e);
      PrintedLines(t, q, e + 2, hs[1..]);
      FirstAndRest(line, Lines(t[e + 2..q + 2]));
    }
  }

  lemma {:induction false} FirstAndRest(line: string, rest: seq<string>)
    requires WellFormed(line) && AllWellFormed(rest)
    ensures AllWellFormed([line] + rest)
  {
  }

  /** What is printed has well-formed header lines again. */
  lemma {:induction false} PrintedIsWellFormed(f: Fields, hs: seq<Header>)
    requires Proper(f) && NulFree(f) && CrlfFree(f) && OneLine(hs)
    ensures WellFormedHeaders(Print(f, hs))
  {
    LineTextIsClean(f);
    hide LineText, HeaderBlock, WellFormedHeaders;
    PrintedShape(LineText(f), hs);
    WellFormedOfParts(Print(f, hs), |LineText(f)|, hs);
  }

  lemma {:induction false} WellFormedOfParts(p: string, n: nat, hs: seq<Header>)
    requires Text(p) == p && FindBlank(p, 0) < |p| && FindCrlf(p, 0) == n && n + 2 <= |p|
    requires OneLine(hs) && p[n + 2..] == HeaderBlock(hs)
    ensures WellFormedHeaders(p)
  {
    hide HeaderBlock, AllWellFormed, Lines, Text;
    CrlfBeforeBlank(p);
    PrintedLines(p, FindBlank(p, 0), n + 2, hs);
  }

  lemma {:induction false} HeaderTextNulFree(hs: seq<Header>)
    requires AllClean(hs)
    ensures NUL !in HeaderText(hs)
  {
    if hs != [] {
      HeaderTextNulFree(hs[..|hs| - 1]);
      assert Clean(hs[|hs| - 1]);
    }
  }

  lemma {:induction false} LineEnd(line: string, rest: string)
    requires NoCrlf(line)
    ensures FindCrlf(line + CRLF + rest, 0) == |line|
  {
    var p := line + CRLF + rest;
    forall i | 0 <= i < |line|
      ensures !CrlfAt(p, i)
    {
      assert !CrlfAt(line, i);
    }
    FirstCrlf(p, 0, |line|);
  }

  /** Unparse after parse is a normalisation: whatever a parse stores, the printed request parses to the same
      fields and headers exactly when it fits, and printing it once more changes nothing. */
  lemma {:induction false} RoundTrip(input: string)
    requires Parse(input, []).Parsed?
    ensures var r := Parse(input, []); var printed := Print(r.fields, r.headers);
            Parse(printed, []) == if |printed| <= MAX_REQ_LEN then Parsed(true, r.fields, r.headers) else Refused
  {
    ParsedIsPrintable(input);
    PrintedParses(Parse(input, []).fields, Parse(input, []).headers);
  }

  /** A request without a path in its address is refused, whatever follows the request line. */
  lemma {:induction false} PathlessIsRefused(f: Fields, rest: string, table: seq<Header>)
    requires Proper(f) && NulFree(f) && CrlfFree(f) && NUL !in rest
    ensures var line := f.method_ + " " + f.protocol + "://" + Authority(f) + " " + f.version;
            Parse(line + CRLF + rest, table) == Refused
  {
    var line := f.method_ + " " + f.protocol + "://" + Authority(f) + " " + f.version;
    var t := line + CRLF + rest;
    PathlessLineSplits(f);
    PathlessIsClean(f);
    hide Split, FindBlank, FindCrlf, Str, Authority, Proper, NulFree, CrlfFree, Loop;
    TextOfNulFree(t);
    LineEnd(line, rest);
    CrlfBeforeBlank(t);
    assert t[..|line|] == line;
  }

  lemma {:induction false} PathlessIsClean(f: Fields)
    requires Proper(f) && NulFree(f) && CrlfFree(f)
    ensures var line := f.method_ + " " + f.protocol + "://" + Authority(f) + " " + f.version;
            NUL !in line && NoCrlf(line)
  {
    AuthorityIsClean(f);
    hide Authority, Proper;
    var scheme := f.method_ + " " + f.protocol + "://";
    NoCrlfJoin(f.method_, " ");
    NoCrlfJoin(f.method_ + " ", f.protocol);
    NoCrlfJoin(f.method_ + " " + f.protocol, "://");
    NoCrlfJoin(scheme, Authority(f));
    NoCrlfJoin(scheme + Authority(f), " ");
    NoCrlfJoin(scheme + Authority(f) + " ", f.version);
  }

  // ---------- Given headers behind any request line ----------

  /** What the loop makes of the text behind the request line decides the parse. */
  lemma {:induction false} ParseBehindLine(f: Fields, rest: string, blank: nat, ok: bool, hs: seq<Header>)
    requires Proper(f) && NulFree(f) && CrlfFree(f) && |LineText(f)| < 1000 && |rest| < 1000
    requires NUL !in rest && BlankAt(rest, blank) && Loop(rest, 0, []) == Done(ok, hs)
    ensures Parse(LineText(f) + CRLF + rest, []) == Parsed(ok, f, hs)
  {
    hide Proper, NulFree, CrlfFree, LineText, Split, Loop, FindBlank, FindCrlf, Str;
    var line, t := LineText(f), LineText(f) + CRLF + rest;
    LineTextIsClean(f);
    PrintedLineSplits(f);
    TextOfNulFree(t);
    LineEnd(line, rest);
    FindBlankIsFirst(t, 0);
    assert BlankAt(t, |line| + 2 + blank);
    assert t[..|line|] == line && t[|line| + 2..] == rest;
    LoopShift(t, |line| + 2, 0, []);
  }
}
