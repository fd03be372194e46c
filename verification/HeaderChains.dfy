/** Keys that run over line ends. The search for a colon is not bounded by its line, so a key can hold line ends, and
    the loop then comes back to each line inside it and sets the rest of the key with the same value. */
module HeaderChains {
  import opened CStrings
  import opened OrderedHeaders
  import opened HeaderLines

  predicate Broken(key: string) { FindCrlf(key, 0) < |key| }

  /** The key behind its first line end. */
  function Rest(key: string): (r: string)
    requires Broken(key)
    ensures |r| < |key|
  {
    key[FindCrlf(key, 0) + 2..]
  }

  /** The first line end that is followed by another one ends the header loop inside the key. */
  predicate Halts(key: string)
    decreases |key|
  {
    Broken(key) && (CrlfAt(Rest(key), 0) || Halts(Rest(key)))
  }

  /** What the loop can find: no colon in the key, no line end at its start, none in the value. */
  ghost predicate Clean(h: Header) {
    NoCrlf(h.value) && ':' !in h.key && !CrlfAt(h.key, 0) && NUL !in h.key && NUL !in h.value
  }

  ghost predicate AllClean(hs: seq<Header>) { forall h | h in hs :: Clean(h) }

  // ---------- The sets of a parse ----------

  /** After a key that runs over a line end comes its rest, or nothing. */
  predicate Linked(hs: seq<Header>) {
    hs == [] || (LinkedTo(hs[0], hs[1..]) && Linked(hs[1..]))
  }

  predicate LinkedTo(h: Header, later: seq<Header>) {
    Broken(h.key) ==>
      if CrlfAt(Rest(h.key), 0) then later == [] else later != [] && later[0] == Header(Rest(h.key), h.value)
  }

  lemma {:induction false} HeaderAtIsClean(t: string, c: nat)
    requires NUL !in t && c <= |t| && !CrlfAt(t, c) && HeaderAt(t, c).Pair?
    ensures Clean(HeaderAt(t, c).header)
  {
    var i := FindColon(t, c);
    var h := HeaderAt(t, c).header;
    ScanStops(t, c, |t|, {':'});
    FindCrlfIsFirst(t, i + 2);
    assert forall j: nat | j < |h.key| :: h.key[j] == t[c + j];
    assert NoCrlf(h.value) by {
      forall j: nat ensures !CrlfAt(h.value, j) {
        assert j < |h.value| ==> !CrlfAt(t, i + 2 + j);
      }
    }
  }

  /** The line that a broken key starts in ends inside the key, and the next line starts with the key's rest. */
  lemma {:induction false} NextInKey(t: string, c: nat)
    requires c <= |t| && HeaderAt(t, c).Pair? && Broken(HeaderAt(t, c).header.key)
    ensures var h, e := HeaderAt(t, c).header, FindCrlf(t, c);
            && e == c + FindCrlf(h.key, 0) && e + 2 < |t| && (CrlfAt(t, e + 2) <==> CrlfAt(Rest(h.key), 0))
            && HeaderAt(t, e + 2) == Pair(Header(Rest(h.key), h.value))
  {
    var i, key := FindColon(t, c), HeaderAt(t, c).header.key;
    var e := FindCrlf(key, 0);
    ScanStops(t, c, |t|, {':'});
    FirstInSlice(t, c, i);
    ScanStops(t, c + e + 2, |t|, {':'});
    assert FindColon(t, c + e + 2) == i && t[i] == ':';
    hide FindCrlf, FindColon;
    assert t[c + e + 2..i] == Rest(key);
  }

  /** What the loop sets behind the line at `c`. */
  function SetsBehind(t: string, c: nat): seq<Header>
    requires c <= |t|
  {
    if FindCrlf(t, c) == |t| then [] else SetsOf(t, FindCrlf(t, c) + 2)
  }

  lemma {:induction false} KeyIsLinked(t: string, c: nat)
    requires c <= |t| && HeaderAt(t, c).Pair?
    ensures LinkedTo(HeaderAt(t, c).header, SetsBehind(t, c))
  {
    hide FindCrlf, HeaderAt, Broken, Rest;
    if Broken(HeaderAt(t, c).header.key) {
      NextInKey(t, c);
    }
  }

  lemma {:induction false} SetsAreLinked(t: string, c: nat)
    requires NUL !in t && c <= |t|
    ensures Linked(SetsOf(t, c)) && AllClean(SetsOf(t, c))
    decreases |t| - c
  {
    hide FindCrlf, HeaderAt, Clean, LinkedTo;
    if c < |t| && !CrlfAt(t, c) && HeaderAt(t, c).Pair? {
      var h := HeaderAt(t, c).header;
      HeaderAtIsClean(t, c);
      if FindCrlf(t, c) < |t| { SetsAreLinked(t, FindCrlf(t, c) + 2); }
      KeyIsLinked(t, c);
      assert SetsOf(t, c) == [h] + SetsBehind(t, c);
      assert ([h] + SetsBehind(t, c))[1..] == SetsBehind(t, c);
    }
  }

  // ---------- What can be printed and read back ----------

  /** The rest of a broken key follows somewhere behind it, and directly behind it when the key would halt the loop. */
  predicate Printable(hs: seq<Header>) {
    hs == [] || (PrintableBefore(hs[0], hs[1..]) && Printable(hs[1..]))
  }

  predicate PrintableBefore(h: Header, later: seq<Header>) {
    Broken(h.key) ==>
      if CrlfAt(Rest(h.key), 0) then later == []
      else !Lacks(later, Rest(h.key)) && (Halts(Rest(h.key)) ==> later[..1] == [Header(Rest(h.key), h.value)])
  }

  /** Behind a key that halts the loop come only its rests. */
  lemma {:induction false} HaltingKeysShrink(hs: seq<Header>)
    requires Linked(hs) && hs != [] && Halts(hs[0].key)
    ensures forall h <- hs[1..] :: |h.key| < |hs[0].key|
  {
    if hs[1..] != [] {
      HaltingKeysShrink(hs[1..]);
      assert hs[1..] == [hs[1]] + hs[2..];
    }
  }

  /** What a parse leaves in the table can be printed. */
  lemma {:induction false} SurvivorsArePrintable(hs: seq<Header>)
    requires Linked(hs)
    ensures Printable(Survivors(Sets(hs)))
  {
    if hs != [] {
      var h, later := hs[0], hs[1..];
      assert hs == [h] + later;
      SurvivorsArePrintable(later);
      SurvivorsUnfold(h, later);
      SurvivesBefore(h, later);
      hide Linked, LinkedTo, Survivors, PrintableBefore;
      var left := Survivors(Sets(later));
      assert ([h] + left)[1..] == left && [] + left == left;
    }
  }

  lemma {:induction false} SurvivesBefore(h: Header, later: seq<Header>)
    requires LinkedTo(h, later) && Linked(later)
    ensures PrintableBefore(h, Survivors(Sets(later)))
  {
    hide Sets;
    if Broken(h.key) {
      if CrlfAt(Rest(h.key), 0) {
        assert Sets(later) == [];
      } else {
        assert later[0] in later;
        SurvivorsKeys(later, Rest(h.key));
        if Halts(Rest(h.key)) {
          HaltingKeysShrink(later);
          assert later == [later[0]] + later[1..];
          SurvivorsUnfold(later[0], later[1..]);
        }
      }
    }
  }

  // ---------- Reading printed headers ----------

  /** The headers the loop sets when it reads one printed header. */
  function ReadSets(h: Header): (r: seq<Header>)
    ensures r != [] && r[0] == h
    decreases |h.key|
  {
    [h] + if !Broken(h.key) || CrlfAt(Rest(h.key), 0) then [] else ReadSets(Header(Rest(h.key), h.value))
  }

  /** The headers it sets when it reads several, up to the one that halts it. */
  function Reread(hs: seq<Header>): seq<Header> {
    if hs == [] then []
    else ReadSets(hs[0]) + if Halts(hs[0].key) then [] else Reread(hs[1..])
  }

  /** All rests of a key are shorter than it. */
  lemma {:induction false} ReadKeysShrink(h: Header)
    ensures forall x <- ReadSets(h)[1..] :: |x.key| < |h.key|
    decreases |h.key|
  {
    if Broken(h.key) && !CrlfAt(Rest(h.key), 0) {
      var r := Header(Rest(h.key), h.value);
      ReadKeysShrink(r);
      assert ReadSets(h)[1..] == ReadSets(r) == [r] + ReadSets(r)[1..];
    } else {
      assert ReadSets(h)[1..] == [];
    }
  }

  /** A printable list that holds a key holds all its rests. */
  lemma {:induction false} RestsAreThere(hs: seq<Header>, h: Header)
    requires Printable(hs) && !Lacks(hs, h.key) && !Halts(h.key)
    ensures forall x <- ReadSets(h) :: !Lacks(hs, x.key)
    decreases |h.key|
  {
    if Broken(h.key) {
      RestIsThere(hs, h.key);
      RestsAreThere(hs, Header(Rest(h.key), h.value));
    }
  }

  lemma {:induction false} RestIsThere(hs: seq<Header>, key: string)
    requires Printable(hs) && !Lacks(hs, key) && Broken(key) && !Halts(key)
    ensures !Lacks(hs, Rest(key))
  {
    var g, later := hs[0], hs[1..];
    assert hs == [g] + later;
    if g.key != key { RestIsThere(later, key); }
    var x :| x in later && x.key == Rest(key);
    assert x in hs;
  }

  lemma {:induction false} HaltingListIsChain(hs: seq<Header>)
    requires Printable(hs) && hs != [] && Halts(hs[0].key)
    ensures hs == ReadSets(hs[0])
  {
    var later := hs[1..];
    assert hs == [hs[0]] + later;
    if later != [] {
      assert later[0] == later[..1][0];
      HaltingListIsChain(later);
    }
  }

  /** Reading a printable list of distinct keys leaves exactly this list. */
  lemma {:induction false} RereadLeavesAll(hs: seq<Header>)
    requires Printable(hs) && Distinct(hs)
    ensures Survivors(Sets(Reread(hs))) == hs
  {
    if hs != [] {
      var h, later := hs[0], hs[1..];
      assert hs == [h] + later;
      if Halts(h.key) {
        HaltingListIsChain(hs);
        DistinctSurvive(hs);
        assert ReadSets(h) + [] == ReadSets(h);
      } else {
        RereadLeavesAll(later);
        RestsAreCovered(h, later);
        RereadOne(h, later);
      }
    }
  }

  lemma {:induction false} RestsAreCovered(h: Header, later: seq<Header>)
    requires PrintableBefore(h, later) && Printable(later) && !Halts(h.key)
    ensures forall x <- ReadSets(h)[1..] :: !Lacks(later, x.key)
  {
    if Broken(h.key) {
      var r := Header(Rest(h.key), h.value);
      assert ReadSets(h)[1..] == ReadSets(r);
      RestsAreThere(later, r);
    } else {
      assert ReadSets(h)[1..] == [];
    }
  }

  lemma {:induction false} RereadOne(h: Header, later: seq<Header>)
    requires Lacks(later, h.key) && forall x <- ReadSets(h)[1..] :: !Lacks(later, x.key)
    requires Survivors(Sets(Reread(later))) == later
    ensures Survivors(Sets(ReadSets(h) + Reread(later))) == [h] + later
  {
    hide Survivors, Sets, Reread;
    ReadKeysShrink(h);
    var rests, all := ReadSets(h)[1..], Reread(later);
    assert ReadSets(h) + all == [h] + (rests + all);
    hide ReadSets;
    forall x <- rests
      ensures !Lacks(all, x.key)
    {
      SurvivorsKeys(all, x.key);
    }
    CoveredLeaveNothing(rests, all);
    SurvivorsKeys(all, h.key);
    assert Lacks(rests + all, h.key);
    SurvivorsUnfold(h, rests + all);
  }
}
