/** The header loop: a cursor that moves from line to line through the text behind the request line. */
module HeaderLines {
  import opened CStrings
  import opened OrderedHeaders

  /** What one call of ParsedHeader_parse makes of the text at the cursor. `Wild`: the value would be
      read outside the buffer, because the colon is its last byte or no CRLF follows. */
  datatype HeaderResult = Pair(header: Header) | NoColon | Wild

  /** index(line, ':'): not bounded by the line. */
  function FindColon(t: string, c: nat): (r: nat)
    requires c <= |t|
    ensures c <= r <= |t|
  {
    Scan(t, c, |t|, {':'})
  }

  function HeaderAt(t: string, c: nat): HeaderResult
    requires c <= |t|
  {
    var i := FindColon(t, c);
    if i == |t| then NoColon
    else if i + 2 > |t| || FindCrlf(t, i + 2) == |t| then Wild
    else Pair(Header(t[c..i], t[i + 2..FindCrlf(t, i + 2)]))
  }

  datatype LoopResult = Done(ok: bool, table: seq<Header>) | Undefined

  /** The loop from cursor `c`. It returns early on a line without colon, keeping what it has set. */
  function Loop(t: string, c: nat, table: seq<Header>): LoopResult
    requires c <= |t|
    decreases |t| - c
  {
    if c == |t| || CrlfAt(t, c) then Done(true, table)
    else match HeaderAt(t, c)
      case NoColon => Done(false, table)
      case Wild => Undefined
      case Pair(h) =>
        var e := FindCrlf(t, c);
        if e == |t| then Done(true, Put(table, h.key, h.value))
        else Loop(t, e + 2, Put(table, h.key, h.value))
  }

  /** The headers the loop sets, in order. */
  function SetsOf(t: string, c: nat): seq<Header>
    requires c <= |t|
    decreases |t| - c
  {
    if c == |t| || CrlfAt(t, c) || !HeaderAt(t, c).Pair? then []
    else [HeaderAt(t, c).header] + if FindCrlf(t, c) == |t| then [] else SetsOf(t, FindCrlf(t, c) + 2)
  }

  lemma {:induction false} LoopIsSets(t: string, c: nat, table: seq<Header>)
    requires c <= |t| && Loop(t, c, table) != Undefined
    ensures Loop(t, c, table).table == PutAll(table, SetsOf(t, c))
    decreases |t| - c
  {
    hide Put, FindCrlf, HeaderAt;
    if c < |t| && !CrlfAt(t, c) && HeaderAt(t, c).Pair? {
      var h := HeaderAt(t, c).header;
      var later := if FindCrlf(t, c) == |t| then [] else SetsOf(t, FindCrlf(t, c) + 2);
      if FindCrlf(t, c) < |t| { LoopIsSets(t, FindCrlf(t, c) + 2, Put(table, h.key, h.value)); }
      assert SetsOf(t, c) == [h] + later;
      hide SetsOf;
      PutAllFirst(table, h, later);
    }
  }

  // ---------- Text behind other text ----------

  lemma {:induction false} FindColonShift(t: string, c: nat, p: nat)
    requires c + p <= |t|
    ensures FindColon(t, c + p) == c + FindColon(t[c..], p)
  {
    ScanShift(t, c, p, {':'});
  }

  lemma {:induction false} HeaderAtShift(t: string, c: nat, p: nat)
    requires c + p <= |t|
    ensures HeaderAt(t, c + p) == HeaderAt(t[c..], p) && FindCrlf(t, c + p) == c + FindCrlf(t[c..], p)
  {
    hide FindCrlf, FindColon;
    FindColonShift(t, c, p);
    FindCrlfShift(t, c, p);
    var i, n := FindColon(t[c..], p), |t| - c;
    SliceOfTail(t, c, p, i);
    if i + 2 <= n {
      FindCrlfShift(t, c, i + 2);
      SliceOfTail(t, c, i + 2, FindCrlf(t[c..], i + 2));
    }
  }

  /** The loop sees only what stands behind its cursor. */
  lemma {:induction false} LoopShift(t: string, c: nat, p: nat, table: seq<Header>)
    requires c + p <= |t|
    ensures Loop(t, c + p, table) == Loop(t[c..], p, table)
    decreases |t| - p
  {
    hide HeaderAt, FindCrlf, Put;
    HeaderAtShift(t, c, p);
    assert CrlfAt(t, c + p) == CrlfAt(t[c..], p);
    if HeaderAt(t, c + p).Pair? && FindCrlf(t, c + p) < |t| {
      var h := HeaderAt(t, c + p).header;
      LoopShift(t, c, FindCrlf(t[c..], p) + 2, Put(table, h.key, h.value));
    }
  }

  // ---------- The cursor ----------

  /** The values the cursor takes. */
  function Visits(t: string, c: nat): seq<nat>
    requires c <= |t|
    decreases |t| - c
  {
    if c == |t| || CrlfAt(t, c) || !HeaderAt(t, c).Pair? || FindCrlf(t, c) == |t| then [c]
    else [c] + Visits(t, FindCrlf(t, c) + 2)
  }

  /** `c` is the start of a line of the header block that the blank line at `q + 2` closes. */
  ghost predicate LineStart(t: string, q: nat, c: nat) {
    2 <= c <= q + 2 && CrlfAt(t, c - 2)
  }

  ghost predicate FirstBlank(t: string, q: nat) {
    q < |t| && BlankAt(t, q) && FindBlank(t, 0) == q
  }

  /** Only the blank line itself starts with CRLF, and every other line has an end before it. */
  lemma {:induction false} NextLine(t: string, q: nat, c: nat)
    requires FirstBlank(t, q) && LineStart(t, q, c)
    ensures CrlfAt(t, c) <==> c == q + 2
    ensures c < q + 2 ==> FindCrlf(t, c) < |t| && LineStart(t, q, FindCrlf(t, c) + 2)
  {
    FindBlankIsFirst(t, 0);
    assert c - 2 < q ==> !BlankAt(t, c - 2);
    assert c != q + 1;
    FindCrlfIsFirst(t, c);
  }

  /** Only line starts, strictly advancing, each but the last followed by a line end. */
  ghost predicate OnLines(t: string, q: nat, vs: seq<nat>) {
    && (forall i | 0 <= i < |vs| :: vs[i] <= |t| && LineStart(t, q, vs[i]))
    && (forall i | 0 <= i < |vs| - 1 :: vs[i] < vs[i + 1] && FindCrlf(t, vs[i]) < |t|)
  }

  lemma {:induction false} OneMoreLine(t: string, q: nat, c: nat, vs: seq<nat>)
    requires OnLines(t, q, vs) && vs != [] && c <= |t| && LineStart(t, q, c) && c < vs[0] && FindCrlf(t, c) < |t|
    ensures OnLines(t, q, [c] + vs)
  {
    hide FindCrlf, LineStart;
    var all := [c] + vs;
    assert forall i | 0 <= i < |vs| :: all[i + 1] == vs[i];
    assert forall i | 0 < i < |all| :: all[i] == vs[i - 1];
  }

  /** The cursor advances over line starts, never passes the first blank line, never runs into the NULL
      branch, and stops early only where a line is not a header. */
  lemma {:induction false} CursorStaysOnLines(t: string, q: nat, c: nat)
    requires FirstBlank(t, q) && LineStart(t, q, c)
    ensures var vs := Visits(t, c);
            && vs != [] && vs[0] == c && OnLines(t, q, vs)
            && var last := vs[|vs| - 1]; last <= |t| && (last == q + 2 || !HeaderAt(t, last).Pair?)
    decreases |t| - c
  {
    hide HeaderAt, FindBlank, FindCrlf, OnLines;
    NextLine(t, q, c);
    if !CrlfAt(t, c) && HeaderAt(t, c).Pair? {
      var next := FindCrlf(t, c) + 2;
      CursorStaysOnLines(t, q, next);
      OneMoreLine(t, q, c, Visits(t, next));
      assert Visits(t, c) == [c] + Visits(t, next);
    } else {
      OneLine(t, q, c);
      assert Visits(t, c) == [c];
    }
  }

  lemma {:induction false} OneLine(t: string, q: nat, c: nat)
    requires c <= |t| && LineStart(t, q, c)
    ensures OnLines(t, q, [c])
  {
  }

  // ---------- The return value ----------

  /** The last line start up to `i`. */
  function LastStart(t: string, i: nat): (l: nat)
    requires i <= |t|
    ensures l <= i
  {
    if i < 2 || CrlfAt(t, i - 2) then i else LastStart(t, i - 1)
  }

  lemma {:induction false} LastStartIsLast(t: string, i: nat, c: nat)
    requires 2 <= c <= i <= |t| && CrlfAt(t, c - 2)
    ensures var l := LastStart(t, i); c <= l && CrlfAt(t, l - 2) && forall j: nat | l - 2 < j <= i - 2 :: !CrlfAt(t, j)
  {
    if !CrlfAt(t, i - 2) { LastStartIsLast(t, i - 1, c); }
  }

  /** The request has header lines. */
  predicate HasHeaders(t: string) { FindBlank(t, 0) < |t| && FindCrlf(t, 0) < FindBlank(t, 0) }

  /** Where the last of them starts. */
  function LastLine(t: string): (l: nat)
    requires HasHeaders(t)
    ensures l <= |t|
  {
    LastStart(t, FindBlank(t, 0))
  }

  lemma {:induction false} LastLineEndsHeaders(t: string)
    requires HasHeaders(t)
    ensures var l, q := LastLine(t), FindBlank(t, 0);
            FindCrlf(t, 0) + 2 <= l <= q && LineStart(t, q, l) && FindCrlf(t, l) == q
  {
    var c, q := FindCrlf(t, 0) + 2, FindBlank(t, 0);
    FindBlankIsFirst(t, 0);
    assert !BlankAt(t, c - 2);
    LastStartIsLast(t, q, c);
    NextLine(t, q, LastLine(t));
  }

  /** The line ends where the next line starts, which is not behind any later line start. */
  lemma {:induction false} LinesAreApart(t: string, c: nat, l: nat)
    requires 2 <= c < l <= |t| && CrlfAt(t, c - 2) && CrlfAt(t, l - 2)
    ensures FindCrlf(t, c) + 2 <= l
  {
    FindCrlfIsFirst(t, c);
  }

  /** The first colon from `c` is the first from `l` on, unless it stands before `l`. */
  lemma {:induction false} ColonFrom(t: string, c: nat, l: nat)
    requires c <= l <= |t|
    ensures FindColon(t, c) < l || FindColon(t, c) == FindColon(t, l)
  {
    ScanStops(t, c, |t|, {':'});
    ScanStops(t, l, |t|, {':'});
  }

  /** A header line before the last one leaves the buffer, or has no colon, just as the last one does. */
  lemma {:induction false} HeaderBefore(t: string, q: nat, c: nat, l: nat)
    requires q < |t| && BlankAt(t, q) && c <= l <= q
    ensures FindColon(t, c) < l ==> HeaderAt(t, c).Pair?
    ensures FindColon(t, c) >= l ==> (HeaderAt(t, c).Pair? <==> HeaderAt(t, l).Pair?)
                                     && (HeaderAt(t, c).Wild? <==> HeaderAt(t, l).Wild?)
    ensures FindColon(t, c) >= l ==> FindColon(t, c) == FindColon(t, l)
    ensures HeaderAt(t, c).NoColon? <==> FindColon(t, c) == |t|
  {
    ColonFrom(t, c, l);
    var i := FindColon(t, c);
    if i + 2 <= q + 2 { FindCrlfIsFirst(t, i + 2); }
  }

  /** What decides is the last header line alone, since the search for a colon runs over line ends: without a colon
      from there to the end of the text the loop fails, with one whose value has no end it leaves the buffer, and
      otherwise it succeeds, whatever the lines before look like. */
  lemma {:induction false} LastLineDecides(t: string, q: nat, c: nat, l: nat, table: seq<Header>)
    requires FirstBlank(t, q) && LineStart(t, q, c) && LineStart(t, q, l) && c <= l <= q && FindCrlf(t, l) == q
    ensures Loop(t, c, table) == Undefined <==> HeaderAt(t, l).Wild?
    ensures Loop(t, c, table).Done? && !Loop(t, c, table).ok <==> FindColon(t, l) == |t|
    decreases |t| - c
  {
    hide HeaderAt, FindColon, FindBlank, FindCrlf, Put;
    NextLine(t, q, c);
    if c < l {
      HeaderBefore(t, q, c, l);
      LinesAreApart(t, c, l);
      NextLine(t, q, FindCrlf(t, c) + 2);
      if HeaderAt(t, c).Pair? {
        var h := HeaderAt(t, c).header;
        LastLineDecides(t, q, FindCrlf(t, c) + 2, l, Put(table, h.key, h.value));
      }
    } else {
      HeaderBefore(t, q, l, l);
      NextLine(t, q, q + 2);
    }
  }

  /** A line without colon does not fail when a later line has one. */
  lemma {:induction false} ColonFurtherDown()
    ensures Loop("x\r\na: b\r\n\r\n", 0, []) == Done(true, [Header("x\r\na", "b"), Header("a", "b")])
  {
    hide HeaderAt, FindCrlf;
    TwoHeaders("x\r\na: b\r\n\r\n");
    var one := [Header("x\r\na", "b")];
    assert one[..0] == [];
    assert Put([], "x\r\na", "b") == one;
    assert Put(one, "a", "b") == one + [Header("a", "b")];
  }

  lemma {:induction false} TwoHeaders(t: string)
    requires t == "x\r\na: b\r\n\r\n"
    ensures HeaderAt(t, 0) == Pair(Header("x\r\na", "b")) && FindCrlf(t, 0) == 1
    ensures HeaderAt(t, 3) == Pair(Header("a", "b")) && FindCrlf(t, 3) == 7
  {
    assert FindColon(t, 0) == 4 by { ScanStops(t, 0, |t|, {':'}); assert t[4] == ':'; }
    assert FindColon(t, 3) == 4 by { ScanStops(t, 3, |t|, {':'}); assert t[4] == ':'; }
    FirstCrlf(t, 0, 1);
    FirstCrlf(t, 3, 7);
    FirstCrlf(t, 6, 7);
    hide FindColon, FindCrlf;
    assert t[0..4] == "x\r\na" && t[3..4] == "a" && t[6..7] == "b";
  }

  /** In a line that ends behind its colon the skipped byte is the CR, and the value takes in the next line. */
  lemma {:induction false} ValueFurtherDown()
    ensures Loop("a:\r\nbbbb: c\r\n\r\n", 0, []) == Done(true, [Header("a", "\nbbbb: c"), Header("bbbb", "c")])
  {
    hide HeaderAt, FindCrlf;
    LongValue("a:\r\nbbbb: c\r\n\r\n");
    var one := [Header("a", "\nbbbb: c")];
    assert one[..0] == [];
    assert Put([], "a", "\nbbbb: c") == one;
    assert Put(one, "bbbb", "c") == one + [Header("bbbb", "c")];
  }

  lemma {:induction false} LongValue(t: string)
    requires t == "a:\r\nbbbb: c\r\n\r\n"
    ensures HeaderAt(t, 0) == Pair(Header("a", "\nbbbb: c")) && FindCrlf(t, 0) == 2
    ensures HeaderAt(t, 4) == Pair(Header("bbbb", "c")) && FindCrlf(t, 4) == 11
  {
    assert FindColon(t, 0) == 1 by { ScanStops(t, 0, |t|, {':'}); assert t[1] == ':'; }
    assert FindColon(t, 4) == 8 by { ScanStops(t, 4, |t|, {':'}); assert t[8] == ':'; }
    FirstCrlf(t, 0, 2);
    FirstCrlf(t, 3, 11);
    FirstCrlf(t, 4, 11);
    FirstCrlf(t, 10, 11);
    hide FindColon, FindCrlf;
    assert t[0..1] == "a" && t[3..11] == "\nbbbb: c" && t[4..8] == "bbbb" && t[10..11] == "c";
  }

  // ---------- Lines ----------

  /** The lines of a block in which every line ends with CRLF. */
  function Lines(block: string): seq<string>
    decreases |block|
  {
    var e := FindCrlf(block, 0);
    if e == |block| then [] else [block[..e]] + Lines(block[e + 2..])
  }

  /** `key`, a colon, one byte that is skipped, `value`. */
  predicate WellFormed(line: string) { FindColon(line, 0) + 2 <= |line| }

  function HeaderOf(line: string): Header
    requires WellFormed(line)
  {
    Header(line[..FindColon(line, 0)], line[FindColon(line, 0) + 2..])
  }

  predicate AllWellFormed(lines: seq<string>) { forall i | 0 <= i < |lines| :: WellFormed(lines[i]) }

  function HeadersOf(lines: seq<string>): seq<Header>
    requires AllWellFormed(lines)
  {
    if lines == [] then [] else [HeaderOf(lines[0])] + HeadersOf(lines[1..])
  }

  lemma {:induction false} ColonInSlice(t: string, c: nat, e: nat)
    requires c <= e <= |t| && FindColon(t[c..e], 0) < e - c
    ensures FindColon(t, c) == c + FindColon(t[c..e], 0)
  {
    var line := t[c..e];
    ScanStops(line, 0, |line|, {':'});
    ScanStops(t, c, |t|, {':'});
    assert t[c + FindColon(line, 0)] == ':';
    assert forall j | c <= j < e :: t[j] == line[j - c];
  }

  /** Inside a line the unbounded searches find what searches bounded by the line find. */
  lemma {:induction false} HeaderInLine(t: string, c: nat, e: nat)
    requires c <= e < |t| && CrlfAt(t, e) && FindCrlf(t, c) == e
    requires WellFormed(t[c..e])
    ensures HeaderAt(t, c) == Pair(HeaderOf(t[c..e]))
  {
    var line := t[c..e];
    var i := FindColon(line, 0);
    ColonInSlice(t, c, e);
    FindCrlfIsFirst(t, c);
    FirstCrlf(t, c + i + 2, e);
    hide FindColon, FindCrlf;
    assert t[c..c + i] == line[..i] && t[c + i + 2..e] == line[i + 2..];
  }

  /** When every line is well-formed the loop stops at the first blank line, and the table is the fold of
      Set over the lines before it, whatever bytes follow. */
  lemma {:induction false} LoopFoldsLines(t: string, q: nat, c: nat, table: seq<Header>)
    requires FirstBlank(t, q) && LineStart(t, q, c)
    requires AllWellFormed(Lines(t[c..q + 2]))
    ensures Loop(t, c, table) == Done(true, PutAll(table, HeadersOf(Lines(t[c..q + 2]))))
    decreases |t| - c
  {
    hide Put, PutAll, HeadersOf, HeaderOf, AllWellFormed, WellFormed, HeaderAt, FindCrlf, Lines;
    NextLine(t, q, c);
    if c < q + 2 {
      var e := FindCrlf(t, c);
      var line, rest := t[c..e], Lines(t[e + 2..q + 2]);
      FirstLine(t, q, c, e);
      Unfold(table, line, rest);
      HeaderInLine(t, c, e);
      LoopFoldsLines(t, q, e + 2, Put(table, HeaderOf(line).key, HeaderOf(line).value));
    } else {
      NoLines(t[c..q + 2], table);
    }
  }

  lemma {:induction false} Unfold(table: seq<Header>, line: string, rest: seq<string>)
    requires AllWellFormed([line] + rest)
    ensures WellFormed(line) && AllWellFormed(rest)
    ensures HeadersOf([line] + rest) == [HeaderOf(line)] + HeadersOf(rest)
    ensures PutAll(table, HeadersOf([line] + rest))
            == PutAll(Put(table, HeaderOf(line).key, HeaderOf(line).value), HeadersOf(rest))
  {
    assert ([line] + rest)[0] == line && ([line] + rest)[1..] == rest;
    assert forall i | 0 <= i < |rest| :: rest[i] == ([line] + rest)[i + 1];
    assert ([HeaderOf(line)] + HeadersOf(rest))[1..] == HeadersOf(rest);
  }

  lemma {:induction false} NoLines(block: string, table: seq<Header>)
    requires block == ""
    ensures AllWellFormed(Lines(block)) && PutAll(table, HeadersOf(Lines(block))) == table
  {
    assert Lines(block) == [];
  }

  lemma {:induction false} LinesUnfold(block: string)
    ensures var e := FindCrlf(block, 0);
            Lines(block) == if e == |block| then [] else [block[..e]] + Lines(block[e + 2..])
  {
  }

  lemma {:induction false} FirstLine(t: string, q: nat, c: nat, e: nat)
    requires c <= e <= q < |t| && CrlfAt(t, e) && FindCrlf(t, c) == e && q + 2 <= |t|
    ensures Lines(t[c..q + 2]) == [t[c..e]] + Lines(t[e + 2..q + 2])
  {
    hide FindCrlf, Lines;
    FirstInSlice(t, c, q + 2);
    LinesUnfold(t[c..q + 2]);
    SliceOfSlice(t, c, q + 2, 0, e - c);
    SliceOfSlice(t, c, q + 2, e - c + 2, q + 2 - c);
    ToTheEnd(t[c..q + 2], e - c + 2);
  }
}
