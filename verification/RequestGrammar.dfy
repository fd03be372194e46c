/** The request lines that are accepted, as a grammar, and what each of them is read as. */
module RequestGrammar {
  import opened CStrings
  import opened RequestLines

  /** A line in pieces: spaces, "GET", spaces, delimiters that are skipped, the protocol, the gap behind it, colons that
      are skipped, the host, a port behind ':', a path behind '/', a space, the version. */
  datatype Parts = Parts(before: string, between: string, skipped: string, protocol: string, gap: string,
                         colons: string, host: string, port: Option<string>, tail: Option<string>, version: string)

  function PortText(p: Parts): string { if p.port.Some? then ":" + p.port.value else "" }

  function TailText(p: Parts): string { if p.tail.Some? then "/" + p.tail.value else "" }

  function AuthorityOf(p: Parts): string { p.colons + p.host + PortText(p) }

  function AddressOf(p: Parts): string { p.skipped + p.protocol + p.gap + AuthorityOf(p) + TailText(p) }

  function LineOf(p: Parts): string { p.before + "GET" + p.between + AddressOf(p) + " " + p.version }

  ghost predicate AllIn(s: string, d: set<char>) { forall i | 0 <= i < |s| :: s[i] in d }

  /** What stands between the fields. */
  ghost predicate LegalFill(p: Parts) {
    && AllIn(p.before, SPACE) && p.between != "" && AllIn(p.between, SPACE) && AllIn(p.skipped, COLON_SLASH)
    && p.gap != "" && p.gap[0] in COLON_SLASH && AllIn(p.gap[1..], SLASH) && AllIn(p.colons, COLON)
  }

  ghost predicate Legal(p: Parts) {
    && LegalFill(p)
    && p.protocol != "" && Free(p.protocol, {':', '/', ' '}) && p.host != "" && Free(p.host, {':', '/', ' '})
    && (p.port.Some? ==> Free(p.port.value, {'/', ' '}))
    && (p.tail.Some? ==> Free(p.tail.value, SPACE) && (p.tail.value != "" ==> p.tail.value[0] != '/'))
    && HTTP <= p.version
  }

  /** An empty port is none, and a missing path is the root. */
  function FieldsOf(p: Parts): Fields {
    Fields("GET", p.protocol, p.host, if p.port == Some("") then None else p.port,
           if p.tail.Some? then "/" + p.tail.value else "/", p.version)
  }

  /** The path passes for missing: it is as short as the gap is shorter than "://", counting what was skipped before
      the protocol; from three skipped bytes on it is the length of the authority that counts. */
  predicate PathRefused(p: Parts) {
    if |p.skipped| >= 3 then |AuthorityOf(p)| == |p.skipped| - 3
    else |p.skipped| + |p.gap| + |TailText(p)| == 3
  }

  // ---------- Where the pieces lie ----------

  function CutsIn(p: Parts): Cuts {
    var v := |p.before|;
    var a := v + 3 + |p.between|;
    var q := a + |p.skipped|;
    var u := q + |p.protocol| + |p.gap|;
    var h := u + |p.colons|;
    var w := u + |AuthorityOf(p)|;
    var e := w + |TailText(p)|;
    Cuts(Span(v, v + 3), Span(a, e), Span(q, q + |p.protocol|), Span(u, w),
         if p.tail.Some? && p.tail.value != "" then Span(w + 1, e) else Span(e, e),
         Span(h, h + |p.host|), if p.port.Some? && p.port.value != "" then Span(h + |p.host| + 1, w) else Span(w, w))
  }

  lemma {:induction false} CutsInAre(p: Parts)
    ensures var c := CutsIn(p);
            && c.verb.lo == |p.before| && c.verb.hi == c.verb.lo + 3 && c.addr.lo == c.verb.hi + |p.between|
            && c.protocol.lo == c.addr.lo + |p.skipped| && c.protocol.hi == c.protocol.lo + |p.protocol|
            && c.authority.lo == c.protocol.hi + |p.gap| && c.authority.hi == c.authority.lo + |AuthorityOf(p)|
            && c.addr.hi == c.authority.hi + |TailText(p)| && c.addr.hi == c.addr.lo + |AddressOf(p)|
            && c.host.lo == c.authority.lo + |p.colons| && c.host.hi == c.host.lo + |p.host|
            && c.authority.hi == c.host.hi + |PortText(p)|
  {
  }

  ghost predicate AuthorityLies(p: Parts, line: string) {
    var c := CutsIn(p);
    && c.authority.hi <= |line|
    && line[c.authority.lo..c.host.lo] == p.colons && line[c.host.lo..c.host.hi] == p.host
    && line[c.host.hi..c.authority.hi] == PortText(p)
  }

  ghost predicate AddressLies(p: Parts, line: string) {
    var c := CutsIn(p);
    && c.addr.hi <= |line|
    && line[c.addr.lo..c.protocol.lo] == p.skipped && line[c.protocol.lo..c.protocol.hi] == p.protocol
    && line[c.protocol.hi..c.authority.lo] == p.gap && line[c.authority.hi..c.addr.hi] == TailText(p)
    && AuthorityLies(p, line)
  }

  ghost predicate Lies(p: Parts, line: string) {
    var c := CutsIn(p);
    && c.addr.hi + 1 + |p.version| == |line|
    && line[0..c.verb.lo] == p.before && line[c.verb.lo..c.verb.hi] == "GET"
    && line[c.verb.hi..c.addr.lo] == p.between && line[c.addr.hi..c.addr.hi + 1] == " "
    && line[c.addr.hi + 1..|line|] == p.version
    && AddressLies(p, line)
  }

  /** A slice is a join exactly when its two parts are the two joined. */
  lemma {:induction false} Joint(s: string, lo: nat, a: string, b: string)
    requires lo + |a| + |b| <= |s|
    ensures s[lo..lo + |a| + |b|] == a + b <==> s[lo..lo + |a|] == a && s[lo + |a|..lo + |a| + |b|] == b
  {
    var t := s[lo..lo + |a| + |b|];
    SliceOfSlice(s, lo, lo + |a| + |b|, 0, |a|);
    SliceOfSlice(s, lo, lo + |a| + |b|, |a|, |a| + |b|);
    assert t == t[0..|a|] + t[|a|..|a| + |b|];
    assert (a + b)[0..|a|] == a && (a + b)[|a|..|a| + |b|] == b;
  }

  lemma {:induction false} FiveParts(s: string, lo: nat, a: string, b: string, c: string, d: string, e: string)
    requires lo + |a| + |b| + |c| + |d| + |e| <= |s|
    ensures var i, j, k, l := lo + |a|, lo + |a| + |b|, lo + |a| + |b| + |c|, lo + |a| + |b| + |c| + |d|;
            s[lo..l + |e|] == a + b + c + d + e
            <==> s[lo..i] == a && s[i..j] == b && s[j..k] == c && s[k..l] == d && s[l..l + |e|] == e
  {
    Joint(s, lo, a + b + c + d, e);
    Joint(s, lo, a + b + c, d);
    Joint(s, lo, a + b, c);
    Joint(s, lo, a, b);
  }

  lemma {:induction false} SixParts(s: string, a: string, b: string, c: string, d: string, e: string, f: string)
    requires |a| + |b| + |c| + |d| + |e| + |f| == |s|
    ensures var i, j, k, l, m := |a|, |a| + |b|, |a| + |b| + |c|, |a| + |b| + |c| + |d|, |a| + |b| + |c| + |d| + |e|;
            s[0..|s|] == a + b + c + d + e + f
            <==> s[0..i] == a && s[i..j] == b && s[j..k] == c && s[k..l] == d && s[l..m] == e && s[m..|s|] == f
  {
    Joint(s, 0, a + b + c + d + e, f);
    FiveParts(s, 0, a, b, c, d, e);
  }

  lemma {:induction false} AuthorityLiesIs(p: Parts, line: string)
    requires CutsIn(p).authority.hi <= |line|
    ensures AuthorityLies(p, line) <==> line[CutsIn(p).authority.lo..CutsIn(p).authority.hi] == AuthorityOf(p)
  {
    var u := CutsIn(p).authority.lo;
    hide CutsIn, PortText;
    CutsInAre(p);
    Joint(line, u, p.colons + p.host, PortText(p));
    Joint(line, u, p.colons, p.host);
  }

  lemma {:induction false} AddressLiesIs(p: Parts, line: string)
    requires CutsIn(p).addr.hi <= |line|
    ensures AddressLies(p, line) <==> line[CutsIn(p).addr.lo..CutsIn(p).addr.hi] == AddressOf(p)
  {
    hide CutsIn, AuthorityOf, PortText, TailText, AuthorityLies;
    var a := CutsIn(p).addr.lo;
    CutsInAre(p);
    AuthorityLiesIs(p, line);
    FiveParts(line, a, p.skipped, p.protocol, p.gap, AuthorityOf(p), TailText(p));
  }

  lemma {:induction false} LiesIs(p: Parts, line: string)
    ensures Lies(p, line) <==> line == LineOf(p)
  {
    hide CutsIn, AddressOf, AuthorityOf, PortText, TailText, AddressLies;
    LineLength(p);
    if |line| == |LineOf(p)| {
      hide LineOf, Lies;
      LiesIsSlice(p, line);
      assert line[0..|line|] == line;
    }
  }

  lemma {:induction false} LiesIsSlice(p: Parts, line: string)
    requires |line| == CutsIn(p).addr.hi + 1 + |p.version|
    ensures Lies(p, line) <==> line[0..|line|] == LineOf(p)
  {
    hide CutsIn, AddressOf, AuthorityOf, PortText, TailText, AddressLies;
    CutsInAre(p);
    AddressLiesIs(p, line);
    SixParts(line, p.before, "GET", p.between, AddressOf(p), " ", p.version);
  }

  lemma {:induction false} LineLength(p: Parts)
    ensures |LineOf(p)| == CutsIn(p).addr.hi + 1 + |p.version|
  {
  }

  // ---------- A legal line is read as its pieces ----------

  lemma {:induction false} AllInSlice(s: string, lo: nat, hi: nat, d: set<char>)
    requires lo <= hi <= |s|
    ensures AllIn(s[lo..hi], d) <==> forall i | lo <= i < hi :: s[i] in d
  {
    assert forall i | lo <= i < hi :: s[i] == s[lo..hi][i - lo];
  }

  lemma {:induction false} FreeJoin(a: string, b: string, d: set<char>)
    ensures Free(a + b, d) <==> Free(a, d) && Free(b, d)
  {
    assert forall i | 0 <= i < |a| :: (a + b)[i] == a[i];
    assert forall i | 0 <= i < |b| :: (a + b)[|a| + i] == b[i];
  }

  lemma {:induction false} AuthorityIsFree(p: Parts)
    requires Legal(p)
    ensures AuthorityOf(p) != "" && Free(AuthorityOf(p), {'/', ' '})
  {
    FreeJoin(p.colons + p.host, PortText(p), {'/', ' '});
    FreeJoin(p.colons, p.host, {'/', ' '});
  }

  lemma {:induction false} AddressIsFree(p: Parts)
    requires Legal(p)
    ensures AddressOf(p) != "" && Free(AddressOf(p), SPACE)
  {
    AuthorityIsFree(p);
    assert p.gap == [p.gap[0]] + p.gap[1..];
    GapIsFree(p);
    hide AuthorityOf, Legal;
    FreeJoin(p.skipped + p.protocol + p.gap + AuthorityOf(p), TailText(p), SPACE);
    FreeJoin(p.skipped + p.protocol + p.gap, AuthorityOf(p), SPACE);
    FreeJoin(p.skipped + p.protocol, p.gap, SPACE);
    FreeJoin(p.skipped, p.protocol, SPACE);
    FreeLess(AuthorityOf(p), SPACE, {'/', ' '});
  }

  lemma {:induction false} GapIsFree(p: Parts)
    requires Legal(p)
    ensures Free(p.skipped, SPACE) && Free(p.protocol, SPACE) && Free(p.gap, SPACE) && Free(TailText(p), SPACE)
  {
    assert forall i | 0 < i < |p.gap| :: p.gap[i] == p.gap[1..][i - 1];
    if p.tail.Some? { FreeJoin("/", p.tail.value, SPACE); }
  }

  lemma {:induction false} GetIsFree()
    ensures Free("GET", SPACE)
  {
  }

  lemma {:induction false} VerbRead(p: Parts, line: string)
    requires Legal(p) && Lies(p, line)
    ensures var c, n := CutsIn(p), |line|;
            Token(line, 0, n, SPACE) == c.verb && Token(line, After(c.verb, n), n, SPACE) == c.addr
  {
    hide Token, CutsIn, AddressOf, AuthorityOf, PortText, TailText, AddressLies, Free;
    var c, n := CutsIn(p), |line|;
    CutsInAre(p);
    GetIsFree();
    AddressIsFree(p);
    AddressLiesIs(p, line);
    AllInSlice(line, 0, c.verb.lo, SPACE);
    AllInSlice(line, c.verb.hi, c.addr.lo, SPACE);
    assert line[c.addr.hi] == line[c.addr.hi..c.addr.hi + 1][0];
    PieceIsToken(line, 0, n, SPACE, c.verb.lo, "GET");
    PieceIsToken(line, c.verb.hi + 1, n, SPACE, c.addr.lo, AddressOf(p));
  }

  /** The bytes before and behind protocol and authority. */
  lemma {:induction false} GapBytes(p: Parts, line: string)
    requires LegalFill(p) && AddressLies(p, line)
    ensures var c := CutsIn(p); var q, u, w := c.protocol.hi, c.authority.lo, c.authority.hi;
            && q < u <= w <= c.addr.hi <= |line| && c.addr.lo <= c.protocol.lo
            && (forall i | c.addr.lo <= i < c.protocol.lo :: line[i] in COLON_SLASH)
            && line[q] in COLON_SLASH && (forall i | q < i < u :: line[i] in SLASH)
            && (w < c.addr.hi ==> line[w] in SLASH)
  {
    hide CutsIn, AuthorityOf, PortText, AuthorityLies;
    var c := CutsIn(p);
    var q, u, w := c.protocol.hi, c.authority.lo, c.authority.hi;
    CutsInAre(p);
    AllInSlice(line, c.addr.lo, c.protocol.lo, COLON_SLASH);
    SliceOfSlice(line, q, u, 1, u - q);
    ToTheEnd(line[q..u], 1);
    AllInSlice(line, q + 1, u, SLASH);
    hide AllIn;
    assert line[q] == line[q..u][0];
    if w < c.addr.hi { assert line[w] == line[w..c.addr.hi][0]; }
  }

  lemma {:induction false} LegalIsFilled(p: Parts)
    requires Legal(p)
    ensures LegalFill(p)
  {
  }

  /** Protocol and authority themselves. */
  lemma {:induction false} AddressNames(p: Parts, line: string)
    requires Legal(p) && AddressLies(p, line)
    ensures var c := CutsIn(p);
            && c.protocol.lo <= c.protocol.hi <= |line| && line[c.protocol.lo..c.protocol.hi] == p.protocol
            && c.authority.lo <= c.authority.hi <= |line| && line[c.authority.lo..c.authority.hi] == AuthorityOf(p)
            && p.protocol != "" && Free(p.protocol, COLON_SLASH)
            && AuthorityOf(p) != "" && Free(AuthorityOf(p), SLASH)
  {
    hide CutsIn, AuthorityOf, PortText, AuthorityLies, Free, LegalFill;
    CutsInAre(p);
    AuthorityIsFree(p);
    AuthorityLiesIs(p, line);
    FreeLess(AuthorityOf(p), SLASH, {'/', ' '});
    FreeLess(p.protocol, COLON_SLASH, {':', '/', ' '});
  }

  lemma {:induction false} AddressRead(p: Parts, line: string)
    requires Legal(p) && AddressLies(p, line)
    ensures var c := CutsIn(p); var e := c.addr.hi;
            && c.addr.lo <= e && Token(line, c.addr.lo, e, COLON_SLASH) == c.protocol
            && Token(line, After(c.protocol, e), e, SLASH) == c.authority
  {
    LegalIsFilled(p);
    hide Token, CutsIn, AuthorityOf, AddressLies, Free, LegalFill, Legal;
    var c := CutsIn(p);
    CutsInAre(p);
    GapBytes(p, line);
    AddressNames(p, line);
    PieceIsToken(line, c.addr.lo, c.addr.hi, COLON_SLASH, c.protocol.lo, p.protocol);
    PieceIsToken(line, c.protocol.hi + 1, c.addr.hi, SLASH, c.authority.lo, AuthorityOf(p));
  }

  lemma {:induction false} TailRead(p: Parts, line: string)
    requires Legal(p) && AddressLies(p, line)
    ensures var c := CutsIn(p); var e := c.addr.hi;
            && c.authority.hi <= e && Token(line, After(c.authority, e), e, SPACE) == c.tail
            && "/" + line[c.tail.lo..c.tail.hi] == FieldsOf(p).path
  {
    hide Token, AuthorityLies, Free, AuthorityOf, PortText;
    var c := CutsIn(p);
    var e, w := c.addr.hi, c.authority.hi;
    NothingLeft(line, e, SPACE);
    if p.tail.Some? {
      assert line[w..e] == "/" + p.tail.value;
      Joint(line, w, "/", p.tail.value);
      if p.tail.value != "" { PieceIsToken(line, w + 1, e, SPACE, w + 1, p.tail.value); }
    }
  }

  lemma {:induction false} HostRead(p: Parts, line: string)
    requires Legal(p) && AuthorityLies(p, line)
    ensures var c := CutsIn(p); var w := c.authority.hi;
            && c.authority.lo <= w && Token(line, c.authority.lo, w, COLON) == c.host
            && Token(line, After(c.host, w), w, SLASH) == c.port
            && line[c.port.lo..c.port.hi] == if p.port.Some? then p.port.value else ""
  {
    hide Token;
    var c := CutsIn(p);
    var h, w := c.host.hi, c.authority.hi;
    AllInSlice(line, c.authority.lo, c.host.lo, COLON);
    FreeLess(p.host, COLON, {':', '/', ' '});
    NothingLeft(line, w, SLASH);
    if p.port.Some? {
      assert line[h..w] == ":" + p.port.value;
      Joint(line, h, ":", p.port.value);
      assert line[h] == line[h..h + 1][0];
      FreeLess(p.port.value, SLASH, {'/', ' '});
      if p.port.value != "" { PieceIsToken(line, h + 1, w, SLASH, h + 1, p.port.value); }
    }
    PieceIsToken(line, c.authority.lo, w, COLON, c.host.lo, p.host);
  }

  lemma {:induction false} CutsRead(p: Parts, line: string)
    requires Legal(p) && Lies(p, line)
    ensures CutsOf(line) == CutsIn(p)
  {
    hide Token, Legal, AddressLies, AuthorityLies;
    VerbRead(p, line);
    LiesDown(p, line);
    AddressRead(p, line);
    TailRead(p, line);
    HostRead(p, line);
  }

  lemma {:induction false} LiesDown(p: Parts, line: string)
    requires Lies(p, line)
    ensures AddressLies(p, line) && AuthorityLies(p, line)
  {
  }

  lemma {:induction false} TestIsRefusal(p: Parts, line: string)
    requires Legal(p) && Lies(p, line)
    ensures CutsIn(p).InOrder(|line|) && AtPathTest(line, CutsIn(p))
    ensures TestFires(line, CutsIn(p)) <==> PathRefused(p)
  {
    hide TestFires, AddressLies;
    AuthorityIsFree(p);
    ToTheEnd(line, CutsIn(p).addr.hi + 1);
    PathTestIs(line, CutsIn(p));
  }

  /** Every legal line: rejected when its path passes for missing, and accepted with its pieces otherwise. */
  lemma {:induction false} GrammarIsRead(p: Parts)
    requires Legal(p)
    ensures Split(LineOf(p)) == if PathRefused(p) then Rejected else Accepted(FieldsOf(p))
  {
    var line := LineOf(p);
    LiesIs(p, line);
    hide LineOf, CutsOf, Split, Token, AddressLies, AuthorityLies, AuthorityOf, RestLength;
    CutsRead(p, line);
    LiesDown(p, line);
    TailRead(p, line);
    HostRead(p, line);
    AuthorityIsFree(p);
    ToTheEnd(line, CutsIn(p).addr.hi + 1);
    TestIsRefusal(p, line);
    DecisionAt(line);
    if p.tail.Some? && p.tail.value != "" { assert line[CutsIn(p).tail.lo] == FieldsOf(p).path[1]; }
  }

  // ---------- An accepted line is a legal line ----------

  function PartsAt(line: string, c: Cuts): Parts
    requires c.InOrder(|line|) && c.addr.hi < |line|
  {
    Parts(line[0..c.verb.lo], line[c.verb.hi..c.addr.lo], line[c.addr.lo..c.protocol.lo],
          line[c.protocol.lo..c.protocol.hi], line[c.protocol.hi..c.authority.lo],
          line[c.authority.lo..c.host.lo], line[c.host.lo..c.host.hi],
          if c.host.hi == c.authority.hi then None else Some(line[c.host.hi + 1..c.authority.hi]),
          if c.authority.hi == c.addr.hi then None else Some(line[c.authority.hi + 1..c.addr.hi]),
          line[c.addr.hi + 1..])
  }

  /** What the calls of strtok_r skip before their tokens. */
  ghost predicate Skipped(line: string, c: Cuts)
    requires c.InOrder(|line|)
  {
    && (forall i | 0 <= i < c.verb.lo :: line[i] in SPACE)
    && (forall i | c.verb.hi <= i < c.addr.lo :: line[i] in SPACE)
    && (forall i | c.addr.lo <= i < c.protocol.lo :: line[i] in COLON_SLASH)
    && (forall i | c.protocol.hi < i < c.authority.lo :: line[i] in SLASH)
    && (forall i | c.authority.lo <= i < c.host.lo :: line[i] in COLON)
  }

  /** What ends the tokens; the path token is everything behind the slash. */
  ghost predicate Ended(line: string, c: Cuts)
    requires c.InOrder(|line|)
  {
    && (c.addr.hi < |line| ==> line[c.addr.hi] == ' ')
    && (c.protocol.hi < c.addr.hi ==> line[c.protocol.hi] in COLON_SLASH)
    && (c.authority.hi < c.addr.hi ==> line[c.authority.hi] == '/')
    && (c.host.hi < c.authority.hi ==> line[c.host.hi] == ':')
    && (c.authority.hi + 1 < c.addr.hi ==> !c.tail.Empty() && c.tail.lo == c.authority.hi + 1)
  }

  lemma {:induction false} CutsAreSkipped(line: string)
    ensures Skipped(line, CutsOf(line))
  {
    hide Token, CutsOf;
    var c, n := CutsOf(line), |line|;
    CutsAreTokens(line);
    TokenStops(line, 0, n, SPACE);
    TokenStops(line, After(c.verb, n), n, SPACE);
    TokenStops(line, c.addr.lo, c.addr.hi, COLON_SLASH);
    TokenStops(line, After(c.protocol, c.addr.hi), c.addr.hi, SLASH);
    TokenStops(line, c.authority.lo, c.authority.hi, COLON);
  }

  lemma {:induction false} CutsAreEnded(line: string)
    ensures Ended(line, CutsOf(line))
  {
    hide Token, CutsOf;
    var c, n := CutsOf(line), |line|;
    CutsAreTokens(line);
    TokenStops(line, After(c.verb, n), n, SPACE);
    TokenStops(line, c.addr.lo, c.addr.hi, COLON_SLASH);
    TokenStops(line, After(c.protocol, c.addr.hi), c.addr.hi, SLASH);
    TokenStops(line, c.authority.lo, c.authority.hi, COLON);
    if c.authority.hi + 1 < c.addr.hi {
      TokenStarts(line, c.authority.hi + 1, c.addr.hi, SPACE, c.authority.hi + 1);
      TokenStops(line, c.authority.hi + 1, c.addr.hi, SPACE);
    }
  }

  lemma {:induction false} CutsAreTokens(line: string)
    ensures var c, n := CutsOf(line), |line|;
            && c.verb == Token(line, 0, n, SPACE) && c.addr == Token(line, After(c.verb, n), n, SPACE)
            && c.protocol == Token(line, c.addr.lo, c.addr.hi, COLON_SLASH)
            && c.authority == Token(line, After(c.protocol, c.addr.hi), c.addr.hi, SLASH)
            && c.tail == Token(line, After(c.authority, c.addr.hi), c.addr.hi, SPACE)
            && c.host == Token(line, c.authority.lo, c.authority.hi, COLON)
  {
  }

  /** The checks that an accepted line has passed. */
  lemma {:induction false} AcceptedPasses(line: string)
    requires Split(line).Accepted?
    ensures var c := CutsOf(line);
            && line[c.verb.lo..c.verb.hi] == "GET" && !c.addr.Empty() && AtPathTest(line, c) && !c.host.Empty()
            && (c.tail.Empty() || line[c.tail.lo] != '/')
  {
  }

  lemma {:induction false} PartsAddressLies(line: string, c: Cuts)
    requires c.InOrder(|line|) && Ended(line, c) && c.addr.hi < |line| && c.verb.hi - c.verb.lo == 3
    ensures var d := CutsIn(PartsAt(line, c));
            && d.verb == c.verb && d.addr == c.addr && d.protocol == c.protocol
            && d.authority == c.authority && d.host == c.host
    ensures AddressLies(PartsAt(line, c), line)
  {
    var p := PartsAt(line, c);
    if c.host.hi < c.authority.hi { OneAndRest(line, c.host.hi, c.authority.hi); }
    if c.authority.hi < c.addr.hi { OneAndRest(line, c.authority.hi, c.addr.hi); }
    assert PortText(p) == line[c.host.hi..c.authority.hi];
    assert TailText(p) == line[c.authority.hi..c.addr.hi];
    hide PortText, TailText, Ended;
    CutsInAre(p);
    hide CutsIn;
  }

  lemma {:induction false} PartsLie(line: string, c: Cuts)
    requires c.InOrder(|line|) && Ended(line, c) && c.addr.hi < |line| && line[c.verb.lo..c.verb.hi] == "GET"
    ensures Lies(PartsAt(line, c), line)
  {
    hide CutsIn, AddressLies;
    assert |line[c.verb.lo..c.verb.hi]| == 3;
    ToTheEnd(line, c.addr.hi + 1);
    OneAndRest(line, c.addr.hi, c.addr.hi + 1);
    PartsAddressLies(line, c);
  }

  lemma {:induction false} OneAndRest(s: string, lo: nat, hi: nat)
    requires lo < hi <= |s|
    ensures s[lo..hi] == [s[lo]] + s[lo + 1..hi]
  {
  }

  lemma {:induction false} PartsAreFilled(line: string, c: Cuts)
    requires c.InOrder(|line|) && Skipped(line, c) && Ended(line, c) && c.addr.hi < |line|
    requires !c.addr.Empty() && !c.authority.Empty()
    ensures LegalFill(PartsAt(line, c))
  {
    var u, q := c.authority.lo, c.protocol.hi;
    SliceOfSlice(line, q, u, 1, u - q);
    ToTheEnd(line[q..u], 1);
    OneAndRest(line, q, u);
    AllInSlice(line, 0, c.verb.lo, SPACE);
    AllInSlice(line, c.verb.hi, c.addr.lo, SPACE);
    AllInSlice(line, c.addr.lo, c.protocol.lo, COLON_SLASH);
    AllInSlice(line, q + 1, u, SLASH);
    AllInSlice(line, u, c.host.lo, COLON);
    hide AllIn, Skipped, Ended;
  }

  lemma {:induction false} PartsAreLegal(line: string, c: Cuts)
    requires c.InOrder(|line|) && Skipped(line, c) && Ended(line, c) && Stopped(line, c)
    requires AtPathTest(line, c) && !c.addr.Empty() && !c.host.Empty() && (c.tail.Empty() || line[c.tail.lo] != '/')
    ensures Legal(PartsAt(line, c))
  {
    hide LegalFill, Skipped;
    var w := c.authority.hi;
    PartsAreFilled(line, c);
    FreeSlice(line, c.protocol.lo, c.protocol.hi, {':', '/', ' '});
    FreeSlice(line, c.host.lo, c.host.hi, {':', '/', ' '});
    if c.host.hi < w { FreeSlice(line, c.host.hi + 1, w, {'/', ' '}); }
    if w < c.addr.hi { FreeSlice(line, w + 1, c.addr.hi, SPACE); }
    hide Free;
  }

  /** The accepted lines are exactly the legal ones whose path does not pass for missing, and each is read as its
      pieces. */
  lemma {:induction false} AcceptedIs(line: string, f: Fields)
    ensures Split(line) == Accepted(f)
       <==> exists p :: Legal(p) && !PathRefused(p) && line == LineOf(p) && f == FieldsOf(p)
  {
    hide Split, Legal, LineOf, PathRefused, Skipped, Ended, Stopped, Lies, PartsAt, CutsOf, FieldsOf;
    if Split(line) == Accepted(f) {
      AcceptedPasses(line);
      var p := PartsAt(line, CutsOf(line));
      CutsStop(line);
      CutsAreSkipped(line);
      CutsAreEnded(line);
      PartsLie(line, CutsOf(line));
      PartsAreLegal(line, CutsOf(line));
      LiesIs(p, line);
      GrammarIsRead(p);
      assert Legal(p) && !PathRefused(p) && line == LineOf(p) && f == FieldsOf(p);
    }
    if p :| Legal(p) && !PathRefused(p) && line == LineOf(p) && f == FieldsOf(p) {
      GrammarIsRead(p);
    }
  }

  // ---------- Lines that end with their address ----------

  ghost predicate NoVersion(line: string, before: string, between: string, addr: string) {
    && line == before + "GET" + between + addr && AllIn(before, SPACE)
    && between != "" && AllIn(between, SPACE) && addr != "" && Free(addr, SPACE)
  }

  /** The version pointer leaves the buffer exactly when nothing stands behind the address, not even a space. */
  lemma {:induction false} OverrunIs(line: string)
    ensures Split(line) == Overrun <==> exists before, between, addr :: NoVersion(line, before, between, addr)
  {
    hide Split, CutsOf, NoVersion;
    if before, between, addr :| NoVersion(line, before, between, addr) {
      NoVersionOverruns(line, before, between, addr);
    }
    if Split(line) == Overrun {
      OverrunHasNoVersion(line);
    }
  }

  lemma {:induction false} OverrunHasNoVersion(line: string)
    requires Split(line) == Overrun
    ensures var c := CutsOf(line);
            NoVersion(line, line[0..c.verb.lo], line[c.verb.hi..c.addr.lo], line[c.addr.lo..c.addr.hi])
  {
    OverrunPasses(line);
    hide *;
    CutsStop(line);
    CutsAreSkipped(line);
    SlicesAreNoVersion(line, CutsOf(line));
  }

  lemma {:induction false} OverrunPasses(line: string)
    requires Split(line) == Overrun
    ensures var c := CutsOf(line);
            line[c.verb.lo..c.verb.hi] == "GET" && c.addr.hi == |line| && !c.addr.Empty() && c.verb.hi < c.addr.lo
  {
    hide Token;
    CutsAreTokens(line);
    TokenStops(line, 0, |line|, SPACE);
  }

  lemma {:induction false} SlicesAreNoVersion(line: string, c: Cuts)
    requires c.InOrder(|line|) && Skipped(line, c) && Stopped(line, c)
    requires line[c.verb.lo..c.verb.hi] == "GET" && c.addr.hi == |line| && !c.addr.Empty() && c.verb.hi < c.addr.lo
    ensures NoVersion(line, line[0..c.verb.lo], line[c.verb.hi..c.addr.lo], line[c.addr.lo..c.addr.hi])
  {
    AllInSlice(line, 0, c.verb.lo, SPACE);
    AllInSlice(line, c.verb.hi, c.addr.lo, SPACE);
    FreeSlice(line, c.addr.lo, |line|, SPACE);
    hide AllIn, Free, Skipped, Stopped;
    Tiles(line, c.verb.lo, c.verb.hi, c.addr.lo);
  }

  lemma {:induction false} Tiles(s: string, i: nat, j: nat, k: nat)
    requires i <= j <= k <= |s|
    ensures s == s[0..i] + s[i..j] + s[j..k] + s[k..|s|]
  {
  }

  lemma {:induction false} NoVersionOverruns(line: string, before: string, between: string, addr: string)
    requires NoVersion(line, before, between, addr)
    ensures Split(line) == Overrun
  {
    hide Token;
    var v, n := |before|, |line|;
    FiveParts(line, 0, before, "GET", between, addr, "");
    assert line[0..n] == line == before + "GET" + between + addr + "";
    AllInSlice(line, 0, v, SPACE);
    AllInSlice(line, v + 3, v + 3 + |between|, SPACE);
    GetIsFree();
    PieceIsToken(line, 0, n, SPACE, v, "GET");
    PieceIsToken(line, v + 4, n, SPACE, v + 3 + |between|, addr);
    CutsAreTokens(line);
    hide CutsOf;
  }

  // ---------- Printed lines ----------

  /** The pieces of a line as it is printed; without a path when `path` is None. */
  function Printed(f: Fields, path: Option<string>): Parts {
    Parts("", " ", "", f.protocol, "://", "", f.host, f.port, path, f.version)
  }

  lemma {:induction false} PrintedIsLegal(f: Fields)
    requires Proper(f)
    ensures Legal(Printed(f, Some(f.path[1..]))) && Legal(Printed(f, None))
    ensures !PathRefused(Printed(f, Some(f.path[1..]))) && PathRefused(Printed(f, None))
    ensures FieldsOf(Printed(f, Some(f.path[1..]))) == f
  {
    assert f.path == "/" + f.path[1..];
    assert "://"[1..] == "//";
  }

  lemma {:induction false} PrintedIsLine(f: Fields)
    requires Proper(f)
    ensures LineOf(Printed(f, Some(f.path[1..]))) == LineText(f)
    ensures LineOf(Printed(f, None)) == f.method_ + " " + f.protocol + "://" + Authority(f) + " " + f.version
  {
    PrintedAddress(f);
    hide AddressOf, Address, AuthorityOf, Authority;
    assert "" + "GET" + " " == f.method_ + " ";
    JoinRegroups(f.method_ + " ", f.protocol + "://", Authority(f));
    JoinRegroups(f.method_ + " ", f.protocol, "://");
  }

  lemma {:induction false} PrintedAddress(f: Fields)
    requires Proper(f)
    ensures AddressOf(Printed(f, Some(f.path[1..]))) == Address(f)
    ensures AddressOf(Printed(f, None)) == f.protocol + "://" + Authority(f)
  {
    var p, q := Printed(f, Some(f.path[1..])), Printed(f, None);
    assert f.path == "/" + f.path[1..];
    assert AuthorityOf(p) == Authority(f) && AuthorityOf(q) == Authority(f);
    hide Authority, AuthorityOf, Free;
    assert "" + f.protocol == f.protocol;
  }

  /** Every line printed from proper fields is accepted with exactly those fields. */
  lemma {:induction false} PrintedLineSplits(f: Fields)
    requires Proper(f)
    ensures Split(LineText(f)) == Accepted(f)
  {
    hide Split, LineText, LineOf, Legal, PathRefused, Proper;
    PrintedIsLegal(f);
    PrintedIsLine(f);
    GrammarIsRead(Printed(f, Some(f.path[1..])));
  }

  /** The same line without a path is rejected. */
  lemma {:induction false} PathlessLineSplits(f: Fields)
    requires Proper(f)
    ensures Split(f.method_ + " " + f.protocol + "://" + Authority(f) + " " + f.version) == Rejected
  {
    hide Split, LineText, LineOf, Legal, PathRefused, Proper, Authority;
    PrintedIsLegal(f);
    PrintedIsLine(f);
    GrammarIsRead(Printed(f, None));
  }
}
