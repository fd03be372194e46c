/** How long a printed request is, compared with the text it was read from. */
module PrintLengths {
  import opened CStrings
  import opened OrderedHeaders
  import opened RequestLines
  import opened HeaderLines
  import opened Messages

  /** The printed line can gain two slashes behind the protocol and the path "/". */
  lemma {:induction false} LineGrows(line: string)
    requires Split(line).Accepted?
    ensures |LineText(Split(line).fields)| <= |line| + 3
  {
    hide CutsOf, Token;
    var c := CutsOf(line);
    var f := FieldsAt(line, c);
    assert Split(line) == Accepted(f) && c.protocol.lo < c.protocol.hi;
    hide Split;
    assert c.protocol.hi < c.authority.hi;
    assert |Authority(f)| <= c.authority.hi - c.authority.lo;
    assert |f.path| <= 1 + c.tail.hi - c.tail.lo;
  }

  lemma {:induction false} AppendedText(hs: seq<Header>, h: Header)
    ensures HeaderText(hs + [h]) == HeaderText(hs) + HeaderLine(h)
  {
    assert (hs + [h])[..|hs|] == hs;
  }

  lemma {:induction false} WithoutShrinks(hs: seq<Header>, key: string)
    ensures |HeaderText(Without(hs, key))| <= |HeaderText(hs)|
  {
    hide HeaderLine;
    if hs != [] {
      var front, last := hs[..|hs| - 1], hs[|hs| - 1];
      WithoutShrinks(front, key);
      if last.key != key {
        AppendedText(Without(front, key), last);
      } else {
        assert Without(front, key) + [] == Without(front, key);
      }
    }
  }

  lemma {:induction false} PutAllShrinks(table: seq<Header>, hs: seq<Header>)
    ensures |HeaderText(PutAll(table, hs))| <= |HeaderText(table)| + |HeaderText(hs)|
    decreases |hs|
  {
    hide HeaderLine, Without;
    if hs == [] {
      assert HeaderText(hs) == "";
    } else {
      var h := hs[0];
      WithoutShrinks(table, h.key);
      AppendedText(Without(table, h.key), h);
      HeaderTextFront(hs);
      PutAllShrinks(Put(table, h.key, h.value), hs[1..]);
    }
  }

  /** Each turn of the loop sets a header no longer than the text, printed, and moves on by three bytes at least. */
  lemma {:induction false} SetsFit(t: string, c: nat)
    requires c <= |t| <= MAX_REQ_LEN
    ensures 3 * |HeaderText(SetsOf(t, c))| <= (|t| - c) * MAX_REQ_LEN
    decreases |t| - c
  {
    hide HeaderAt, HeaderLine, HeaderText, FindCrlf;
    if c < |t| && !CrlfAt(t, c) && HeaderAt(t, c).Pair? {
      HeaderFits(t, c);
      HeaderTextFront(SetsOf(t, c));
      if FindCrlf(t, c) < |t| {
        SetsFit(t, FindCrlf(t, c) + 2);
        assert SetsOf(t, c)[1..] == SetsOf(t, FindCrlf(t, c) + 2);
        assert FindCrlf(t, c) > c;
      } else {
        assert SetsOf(t, c)[1..] == [];
        NothingPrinted();
      }
    } else {
      assert SetsOf(t, c) == [];
      NothingPrinted();
    }
  }

  lemma {:induction false} HeaderFits(t: string, c: nat)
    requires c <= |t| && HeaderAt(t, c).Pair?
    ensures 4 <= |HeaderLine(HeaderAt(t, c).header)| <= |t| - c
  {
  }

  /** However its header lines look, the headers of an accepted request sum to a length that fits an int,
      with room left. */
  lemma {:induction false} HeadersFit(input: string)
    requires Messages.Parse(input, []).Parsed?
    ensures |HeaderBlock(Messages.Parse(input, []).headers)| < 0x6000_0000
  {
    var t := Text(input);
    var c := FindCrlf(t, 0) + 2;
    ParsedIsSets(input, []);
    hide *;
    NothingPrinted();
    PutAllShrinks([], SetsOf(t, c));
    SetsFit(t, c);
    FitsInt(|HeaderText(SetsOf(t, c))|, |t| - c);
    PrintedLength(Messages.Parse(input, []).fields, Messages.Parse(input, []).headers);
  }

  lemma {:induction false} FitsInt(size: nat, left: nat)
    requires 3 * size <= left * MAX_REQ_LEN && left <= MAX_REQ_LEN
    ensures size + 2 < 0x6000_0000
  {
  }

  lemma {:induction false} PrintedLength(f: Fields, hs: seq<Header>)
    ensures |Print(f, hs)| == |LineText(f)| + 2 + |HeaderBlock(hs)| && |HeaderBlock(hs)| == |HeaderText(hs)| + 2
  {
  }

  lemma {:induction false} NothingPrinted()
    ensures HeaderText([]) == ""
  {
  }

  lemma {:induction false} LineOfText(input: string)
    requires Messages.Parse(input, []).Parsed?
    ensures |LineText(Messages.Parse(input, []).fields)| <= FindCrlf(Text(input), 0) + 3
    ensures FindBlank(Text(input), 0) + 4 <= |Text(input)| <= |input|
  {
    var t := Text(input);
    CrlfBeforeBlank(t);
    LineGrows(t[..FindCrlf(t, 0)]);
    hide Split, Loop, LineText, FindCrlf, Text;
  }

  // ---------- What the header lines gain ----------

  /** How much longer the header found at the cursor prints than the line the cursor is in. */
  function Gain(t: string, c: nat): int
    requires c <= |t| && HeaderAt(t, c).Pair?
  {
    |HeaderLine(HeaderAt(t, c).header)| - (FindCrlf(t, c) + 2 - c)
  }

  function Gained(t: string, c: nat): int
    requires c <= |t|
    decreases |t| - c
  {
    if c == |t| || CrlfAt(t, c) || !HeaderAt(t, c).Pair? then 0
    else Gain(t, c) + if FindCrlf(t, c) == |t| then 0 else Gained(t, FindCrlf(t, c) + 2)
  }

  /** No header prints shorter than its line, and just the well-formed lines print equally long: the others hold
      a line end in their key or at the start of their value. */
  lemma {:induction false} GainIs(t: string, c: nat)
    requires c <= |t| && HeaderAt(t, c).Pair?
    ensures FindCrlf(t, c) < |t| && Gain(t, c) >= 0
    ensures Gain(t, c) == 0 <==> WellFormed(t[c..FindCrlf(t, c)])
  {
    var i, e := FindColon(t, c), FindCrlf(t, c);
    var f := FindCrlf(t, i + 2);
    FindCrlfIsFirst(t, c);
    assert e <= f;
    assert Gain(t, c) == f - e;
    hide FindCrlf;
    ColonWithin(t, c, e);
    if i + 2 <= e { FindCrlfIsFirst(t, i + 2); }
  }

  lemma {:induction false} ColonWithin(t: string, c: nat, e: nat)
    requires c <= e <= |t|
    ensures WellFormed(t[c..e]) <==> FindColon(t, c) + 2 <= e
  {
    var line := t[c..e];
    ScanStops(line, 0, |line|, {':'});
    ScanStops(t, c, |t|, {':'});
    if FindColon(line, 0) < |line| { ColonInSlice(t, c, e); }
    var i := FindColon(t, c);
    assert i < e ==> line[i - c] == ':';
  }

  lemma {:induction false} TextFront(h: Header, hs: seq<Header>)
    ensures HeaderText([h] + hs) == HeaderLine(h) + HeaderText(hs)
  {
    HeaderTextFront([h] + hs);
    assert ([h] + hs)[1..] == hs;
  }

  /** The headers that the loop sets print to the header lines' length and what these gain, which is nothing
      exactly when all are well-formed; less when the loop fails on the way. */
  lemma {:induction false} SetsText(t: string, q: nat, c: nat, table: seq<Header>)
    requires FirstBlank(t, q) && LineStart(t, q, c)
    ensures Gained(t, c) >= 0 && |HeaderText(SetsOf(t, c))| <= q + 2 - c + Gained(t, c)
    ensures Loop(t, c, table).Done? && Loop(t, c, table).ok ==>
              && |HeaderText(SetsOf(t, c))| == q + 2 - c + Gained(t, c)
              && (Gained(t, c) == 0 <==> AllWellFormed(Lines(t[c..q + 2])))
    decreases |t| - c
  {
    hide HeaderAt, HeaderText, HeaderLine, FindCrlf, FindBlank, Lines, AllWellFormed, WellFormed, Gain, Put;
    NextLine(t, q, c);
    NothingPrinted();
    if c == q + 2 {
      NoLines(t[c..q + 2], []);
    } else if HeaderAt(t, c).Pair? {
      var h, e := HeaderAt(t, c).header, FindCrlf(t, c);
      GainIs(t, c);
      SetsText(t, q, e + 2, Put(table, h.key, h.value));
      TextFront(h, SetsOf(t, e + 2));
      assert SetsOf(t, c) == [h] + SetsOf(t, e + 2);
      GainDef(t, c);
      FirstLine(t, q, c, e);
      AllOfFirst(t[c..e], Lines(t[e + 2..q + 2]));
    }
  }

  lemma {:induction false} GainDef(t: string, c: nat)
    requires c <= |t| && HeaderAt(t, c).Pair?
    ensures |HeaderLine(HeaderAt(t, c).header)| == Gain(t, c) + FindCrlf(t, c) + 2 - c
  {
  }

  lemma {:induction false} AllOfFirst(line: string, rest: seq<string>)
    ensures AllWellFormed([line] + rest) <==> WellFormed(line) && AllWellFormed(rest)
  {
    var all := [line] + rest;
    assert all[0] == line && forall i | 0 <= i < |rest| :: all[i + 1] == rest[i];
  }

  // ---------- What setting a key again saves ----------

  /** The printed length of the headers whose key is set again later. */
  function Overwritten(sets: seq<Header>): nat {
    if sets == [] then 0
    else (if Lacks(sets[1..], sets[0].key) then 0 else |HeaderLine(sets[0])|) + Overwritten(sets[1..])
  }

  lemma {:induction false} OverwrittenIs(sets: seq<Header>)
    ensures |HeaderText(Survivors(Sets(sets)))| + Overwritten(sets) == |HeaderText(sets)|
    ensures Overwritten(sets) == 0 <==> Distinct(sets)
  {
    hide HeaderLine, HeaderText, Survivors, Sets;
    if sets == [] {
      assert Sets(sets) == [];
      NothingSurvives();
      NothingPrinted();
    } else {
      var h, later := sets[0], sets[1..];
      assert sets == [h] + later;
      OverwrittenIs(later);
      SurvivorsUnfold(h, later);
      TextFront(h, later);
      TextFront(h, Survivors(Sets(later)));
      assert [] + Survivors(Sets(later)) == Survivors(Sets(later));
      assert Distinct(sets) <==> Lacks(later, h.key) && Distinct(later);
      LineIsLong(h);
    }
  }

  lemma {:induction false} LineIsLong(h: Header)
    ensures |HeaderLine(h)| >= 4
  {
  }

  lemma {:induction false} NothingSurvives()
    ensures HeaderText(Survivors([])) == ""
  {
  }

  // ---------- Whole requests ----------

  /** Where the headers of a text start. */
  function HeaderStart(t: string): (c: nat)
    ensures c <= |t|
  {
    if FindCrlf(t, 0) == |t| then |t| else FindCrlf(t, 0) + 2
  }

  /** By how much the print of a request is longer than the text up to the blank line, apart from the request line:
      for every input exactly what its lines gain, less what is set again. */
  function Growth(t: string): int {
    Gained(t, HeaderStart(t)) - Overwritten(SetsOf(t, HeaderStart(t)))
  }

  /** For every request that parses: the exact length of its print. Its lines gain nothing exactly when they are
      well-formed, and nothing is lost exactly when no key is set twice. */
  lemma {:induction false} PrintLengthIs(input: string)
    requires Messages.Parse(input, []).Parsed?
    ensures var t, r := Text(input), Messages.Parse(input, []);
            var c, q := HeaderStart(t), FindBlank(t, 0);
            && |Print(r.fields, r.headers)| <= |LineText(r.fields)| + 6 + q - c + Growth(t)
            && Gained(t, c) >= 0
            && (r.ok ==> && |Print(r.fields, r.headers)| == |LineText(r.fields)| + 6 + q - c + Growth(t)
                         && (Gained(t, c) == 0 <==> WellFormedHeaders(input)))
            && (Overwritten(SetsOf(t, c)) == 0 <==> Distinct(SetsOf(t, c)))
  {
    hide Messages.Parse, Print, LineText, HeaderText, HeaderBlock, SetsOf, Survivors, Sets, PutAll, Gained, Overwritten,
      FindBlank, FindCrlf, Text, HeaderStart, WellFormedHeaders, Distinct;
    var t, r := Text(input), Messages.Parse(input, []);
    var sets := SetsOf(t, HeaderStart(t));
    ParsedSetsText(input);
    OverwrittenIs(sets);
    PutAllIsSurvivors(sets);
    PrintedLength(r.fields, r.headers);
  }

  lemma {:induction false} ParsedSetsText(input: string)
    requires Messages.Parse(input, []).Parsed?
    ensures var t, r := Text(input), Messages.Parse(input, []);
            var c, q := HeaderStart(t), FindBlank(t, 0);
            && r.headers == PutAll([], SetsOf(t, c))
            && Gained(t, c) >= 0 && |HeaderText(SetsOf(t, c))| <= q + 2 - c + Gained(t, c)
            && (r.ok ==> |HeaderText(SetsOf(t, c))| == q + 2 - c + Gained(t, c)
                         && (Gained(t, c) == 0 <==> WellFormedHeaders(input)))
  {
    hide Messages.Parse, HeaderText, SetsOf, PutAll, Gained, FindBlank, FindCrlf, Text, Loop, AllWellFormed, Lines,
      FirstBlank, LineStart;
    var t := Text(input);
    ParsedIsLoop(input);
    ParsedIsSets(input, []);
    HeaderStarts(t);
    SetsText(t, FindBlank(t, 0), FindCrlf(t, 0) + 2, []);
  }

  lemma {:induction false} ParsedIsLoop(input: string)
    requires Messages.Parse(input, []).Parsed?
    ensures var t := Text(input);
            && FindBlank(t, 0) < |t| && FindCrlf(t, 0) + 2 <= |t|
            && Loop(t, FindCrlf(t, 0) + 2, []).Done?
            && Loop(t, FindCrlf(t, 0) + 2, []).ok == Messages.Parse(input, []).ok
  {
    CrlfBeforeBlank(Text(input));
    hide Split, Loop, FindBlank, FindCrlf, Text;
  }
}
