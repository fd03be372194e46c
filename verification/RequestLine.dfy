/** The request line as plain slices of the line, and the destructive scan that computes them. */
module RequestLines {
  import opened CStrings

  const SPACE: set<char> := {' '}
  const COLON_SLASH: set<char> := {':', '/'}
  const SLASH: set<char> := {'/'}
  const COLON: set<char> := {':'}
  const HTTP: string := "HTTP/"

  datatype Fields = Fields(method_: string, protocol: string, host: string, port: Option<string>,
                           path: string, version: string)

  /** `Overrun`: the address ends the line, so `version` would be read behind the end of the buffer. */
  datatype LineResult = Accepted(fields: Fields) | Rejected | Overrun

  /** Where the tokens of a line lie. Each is cut out of the text its predecessors leave. */
  datatype Cuts = Cuts(verb: Span, addr: Span, protocol: Span, authority: Span, tail: Span, host: Span, port: Span) {
    /** The tokens follow one another; protocol, host, port and path lie inside the address. */
    predicate InOrder(n: nat) {
      && verb.Within(0, n) && addr.Within(After(verb, n), n) && protocol.Within(addr.lo, addr.hi)
      && authority.Within(After(protocol, addr.hi), addr.hi) && tail.Within(After(authority, addr.hi), addr.hi)
      && host.Within(authority.lo, authority.hi) && port.Within(After(host, authority.hi), authority.hi)
    }
  }

  function CutsOf(line: string): (c: Cuts)
    ensures c.InOrder(|line|)
  {
    var n := |line|;
    var verb := Token(line, 0, n, SPACE);
    var addr := Token(line, After(verb, n), n, SPACE);
    var protocol := Token(line, addr.lo, addr.hi, COLON_SLASH);
    var authority := Token(line, After(protocol, addr.hi), addr.hi, SLASH);
    var tail := Token(line, After(authority, addr.hi), addr.hi, SPACE);
    var host := Token(line, authority.lo, authority.hi, COLON);
    var port := Token(line, After(host, authority.hi), authority.hi, SLASH);
    Cuts(verb, addr, protocol, authority, tail, host, port)
  }

  /** strlen of what the code takes for the text behind "://": it starts a protocol length and three
      bytes into the address, wherever the protocol really is, and ends at the next byte cut so far. */
  function RestLength(line: string, c: Cuts): int
    requires c.InOrder(|line|)
  {
    var rem := c.addr.lo + (c.protocol.hi - c.protocol.lo) + 3;
    (if rem <= c.protocol.hi then c.protocol.hi else if rem <= c.addr.hi then c.addr.hi else |line|) - rem
  }

  /** The decision, on slices of the untouched line. */
  function Split(line: string): LineResult {
    var c := CutsOf(line);
    if c.verb.Empty() || line[c.verb.lo..c.verb.hi] != "GET" then Rejected
    else if c.addr.Empty() then Rejected
    else if c.addr.hi == |line| then Overrun
    else if !(HTTP <= line[c.addr.hi + 1..]) then Rejected
    else if c.protocol.Empty() then Rejected
    else if c.authority.Empty() then Rejected
    else if c.authority.hi - c.authority.lo == RestLength(line, c) then Rejected
    else if !c.tail.Empty() && line[c.tail.lo] == '/' then Rejected
    else if c.host.Empty() then Rejected
    else Accepted(FieldsAt(line, c))
  }

  function FieldsAt(line: string, c: Cuts): Fields
    requires c.InOrder(|line|) && c.addr.hi < |line|
  {
    Fields(line[c.verb.lo..c.verb.hi], line[c.protocol.lo..c.protocol.hi], line[c.host.lo..c.host.hi],
           if c.port.Empty() then None else Some(line[c.port.lo..c.port.hi]),
           "/" + line[c.tail.lo..c.tail.hi], line[c.addr.hi + 1..])
  }

  /** The decision once the checks before the path test have passed. */
  lemma {:induction false} DecisionAt(line: string)
    ensures var c := CutsOf(line);
            !c.verb.Empty() && line[c.verb.lo..c.verb.hi] == "GET" && !c.addr.Empty() && AtPathTest(line, c) ==>
              Split(line) == if TestFires(line, c) || (!c.tail.Empty() && line[c.tail.lo] == '/') || c.host.Empty()
                             then Rejected else Accepted(FieldsAt(line, c))
  {
    hide CutsOf, RestLength, FieldsAt;
  }

  lemma {:induction false} FieldsOfSplit(line: string)
    requires Split(line).Accepted?
    ensures var c := CutsOf(line); c.addr.hi < |line| && Split(line).fields == FieldsAt(line, c)
  {
  }

  // ---------- The buffer during the scan ----------

  /** Where the C strings end after the first two, five and all seven calls of strtok_r. */
  function LineCuts(c: Cuts): set<nat> { {c.verb.hi, c.addr.hi} }

  function AddressCuts(c: Cuts): set<nat> { LineCuts(c) + {c.protocol.hi, c.authority.hi, c.tail.hi} }

  function AllCuts(c: Cuts): set<nat> { AddressCuts(c) + {c.host.hi, c.port.hi} }

  /** A token that ends at a cut, or with the line, and has none inside. */
  ghost predicate Whole(line: string, cuts: set<nat>, t: Span) {
    t.lo <= t.hi <= |line| && (forall i | t.lo <= i < t.hi :: i !in cuts) && (t.hi == |line| || t.hi in cuts)
  }

  lemma {:induction false} CutsMissTokens(line: string, c: Cuts)
    requires c.InOrder(|line|) && c.addr.hi < |line|
    ensures var cuts := AllCuts(c);
            && Whole(line, cuts, c.verb) && Whole(line, cuts, c.protocol) && Whole(line, cuts, c.host)
            && Whole(line, cuts, c.port) && Whole(line, cuts, Span(c.addr.hi + 1, |line|))
  {
    var cuts := AllCuts(c);
    assert cuts == {c.verb.hi, c.addr.hi, c.protocol.hi, c.authority.hi, c.tail.hi, c.host.hi, c.port.hi};
    hide AllCuts, AddressCuts, LineCuts;
    var e, u, p := c.addr.hi, c.authority.hi, c.protocol.hi;
    assert c.verb.hi <= c.addr.lo <= p <= u <= c.tail.hi <= e && c.host.hi <= c.port.lo <= c.port.hi <= u;
    assert p <= c.host.lo;
  }

  /** As a C string in `s`, the token is its slice of the line. */
  ghost predicate Denotes(s: string, line: string, t: Span) {
    t.lo <= t.hi <= |line| < |s| && Str(s, t.lo) == line[t.lo..t.hi]
  }

  /** After the scan every pointer denotes its slice of the original line: no later cut fell into it. */
  lemma {:induction false} PointersDenoteSlices(line: string, c: Cuts)
    requires NUL !in line && c.InOrder(|line|) && c.addr.hi < |line|
    ensures var s := Cut(line, AllCuts(c));
            && Denotes(s, line, c.verb) && Denotes(s, line, c.protocol) && Denotes(s, line, c.host)
            && Denotes(s, line, c.port) && Denotes(s, line, Span(c.addr.hi + 1, |line|))
  {
    var cuts := AllCuts(c);
    CutsMissTokens(line, c);
    hide *;
    WholeIsSlice(line, cuts, c.verb);
    WholeIsSlice(line, cuts, c.protocol);
    WholeIsSlice(line, cuts, c.host);
    WholeIsSlice(line, cuts, c.port);
    WholeIsSlice(line, cuts, Span(c.addr.hi + 1, |line|));
  }

  lemma {:induction false} WholeIsSlice(line: string, cuts: set<nat>, t: Span)
    requires NUL !in line && Whole(line, cuts, t)
    ensures Denotes(Cut(line, cuts), line, t)
  {
    StrOfCut(line, cuts, t.lo, t.hi);
  }

  /** strlen(rem), taken when only the protocol has been cut off. */
  lemma {:induction false} RestIsMeasured(line: string, c: Cuts, rem: nat)
    requires NUL !in line && c.InOrder(|line|)
    requires rem == c.addr.lo + (c.protocol.hi - c.protocol.lo) + 3 <= |line|
    ensures StrEnd(Cut(line, LineCuts(c) + {c.protocol.hi}), rem) - rem == RestLength(line, c)
  {
    var cuts := LineCuts(c) + {c.protocol.hi};
    var end := if rem <= c.protocol.hi then c.protocol.hi else if rem <= c.addr.hi then c.addr.hi else |line|;
    StrOfCut(line, cuts, rem, end);
  }

  // ---------- The test for a missing path ----------

  /** All checks before it have passed. */
  ghost predicate AtPathTest(line: string, c: Cuts)
    requires c.InOrder(|line|)
  {
    c.addr.hi < |line| && HTTP <= line[c.addr.hi + 1..] && !c.protocol.Empty() && !c.authority.Empty()
  }

  /** The code takes the path for missing. */
  predicate TestFires(line: string, c: Cuts)
    requires c.InOrder(|line|)
  {
    c.authority.hi - c.authority.lo == RestLength(line, c)
  }

  /** What the test comes to, by the number of delimiters before the protocol: from three on it compares the
      authority with the rest of them. With fewer it asks whether as many bytes follow the authority as the authority
      starts before the place three bytes behind the protocol's length. */
  lemma {:induction false} PathTestIs(line: string, c: Cuts)
    requires c.InOrder(|line|) && AtPathTest(line, c)
    ensures var skipped, expected := c.protocol.lo - c.addr.lo, c.addr.lo + (c.protocol.hi - c.protocol.lo) + 3;
            TestFires(line, c) <==> if skipped >= 3 then c.authority.hi - c.authority.lo == skipped - 3
                                    else c.addr.hi - c.authority.hi == expected - c.authority.lo
  {
    assert |line| - c.addr.hi - 1 >= |HTTP|;
  }

  lemma {:induction false} AuthorityIs(line: string)
    ensures var c := CutsOf(line); c.authority == Token(line, After(c.protocol, c.addr.hi), c.addr.hi, SLASH)
  {
  }

  /** Nothing follows the authority in the address. */
  lemma {:induction false} PathMissingIs(line: string)
    requires !CutsOf(line).authority.Empty()
    ensures var c := CutsOf(line); c.authority.hi == c.addr.hi <==> '/' !in line[c.authority.lo..c.addr.hi]
  {
    hide CutsOf, Token;
    var c := CutsOf(line);
    AuthorityIs(line);
    TokenStops(line, After(c.protocol, c.addr.hi), c.addr.hi, SLASH);
    var lo, hi, e := c.authority.lo, c.authority.hi, c.addr.hi;
    assert forall i | lo <= i < e :: line[lo..e][i - lo] == line[i];
    assert hi < e ==> line[lo..e][hi - lo] == '/';
  }

  /** The exact condition under which the test finds out whether the path is missing: with fewer than three skipped
      delimiters, the authority starts where it is expected, or there is a path that is not taken for the shift. */
  lemma {:induction false} PathTestIsRight(line: string, c: Cuts)
    requires c.InOrder(|line|) && AtPathTest(line, c)
    ensures var skipped, expected := c.protocol.lo - c.addr.lo, c.addr.lo + (c.protocol.hi - c.protocol.lo) + 3;
            var missing := c.authority.hi == c.addr.hi;
            (TestFires(line, c) <==> missing)
            <==> if skipped >= 3 then c.authority.hi - c.authority.lo == skipped - 3 <==> missing
                 else c.authority.lo == expected
                      || (!missing && c.addr.hi - c.authority.hi != expected - c.authority.lo)
  {
    PathTestIs(line, c);
  }

  /** In an address of the documented form, where "://" and one more byte that is no slash follow the protocol, the
      test is right: it fires exactly when no slash follows. */
  lemma {:induction false} DocumentedFormIsTested(line: string)
    requires var c := CutsOf(line);
             && AtPathTest(line, c) && c.protocol.lo == c.addr.lo && c.protocol.hi + 3 < c.addr.hi
             && line[c.protocol.hi..c.protocol.hi + 3] == "://" && line[c.protocol.hi + 3] != '/'
    ensures var c := CutsOf(line);
            TestFires(line, c) <==> '/' !in line[c.protocol.hi + 3..c.addr.hi]
  {
    hide CutsOf, Token, RestLength, TestFires;
    var c := CutsOf(line);
    var p := c.protocol.hi;
    assert line[p + 1] == line[p..p + 3][1] && line[p + 2] == line[p..p + 3][2];
    AuthorityIs(line);
    TokenStarts(line, p + 1, c.addr.hi, SLASH, p + 3);
    PathMissingIs(line);
    PathTestIs(line, c);
  }

  /** Without the two slashes a missing path can go unnoticed. */
  lemma {:induction false} MissingPathAccepted()
    ensures Split("GET http:h HTTP/1.0") == Accepted(Fields("GET", "http", "h", None, "/", "HTTP/1.0"))
  {
    hide CutsOf;
    CutsWithoutSlashes("GET http:h HTTP/1.0");
  }

  lemma {:induction false} CutsWithoutSlashes(line: string)
    requires line == "GET http:h HTTP/1.0"
    ensures CutsOf(line)
         == Cuts(Span(0, 3), Span(4, 10), Span(4, 8), Span(9, 10), Span(10, 10), Span(9, 10), Span(10, 10))
  {
    NothingLeft(line, 10, SPACE);
    NothingLeft(line, 10, SLASH);
    TokenIs(line, 0, 19, SPACE, 0, 3);
    TokenIs(line, 4, 19, SPACE, 4, 10);
    TokenIs(line, 4, 10, COLON_SLASH, 4, 8);
    TokenIs(line, 9, 10, SLASH, 9, 10);
    TokenIs(line, 9, 10, COLON, 9, 10);
    hide Token;
  }

  /** Nor does a path always help. */
  lemma {:induction false} PathRejected()
    ensures Split("GET ab:h/x HTTP/1.0") == Rejected
  {
    hide CutsOf;
    CutsWithPath("GET ab:h/x HTTP/1.0");
  }

  lemma {:induction false} CutsWithPath(line: string)
    requires line == "GET ab:h/x HTTP/1.0"
    ensures var c := CutsOf(line);
            && c.verb == Span(0, 3) && c.addr == Span(4, 10) && c.protocol == Span(4, 6) && c.authority == Span(7, 8)
  {
    TokenIs(line, 0, 19, SPACE, 0, 3);
    TokenIs(line, 4, 19, SPACE, 4, 10);
    TokenIs(line, 4, 10, COLON_SLASH, 4, 6);
    TokenIs(line, 7, 10, SLASH, 7, 8);
    hide Token;
  }

  // ---------- What can come out, and what can go in ----------

  ghost predicate Free(s: string, d: set<char>) { forall i | 0 <= i < |s| :: s[i] !in d }

  /** Exactly the field values a request can have. */
  ghost predicate Proper(f: Fields) {
    && f.method_ == "GET"
    && f.protocol != "" && Free(f.protocol, {':', '/', ' '})
    && f.host != "" && Free(f.host, {':', '/', ' '})
    && (f.port.Some? ==> f.port.value != "" && Free(f.port.value, {'/', ' '}))
    && f.path != "" && f.path[0] == '/' && Free(f.path[1..], SPACE) && (|f.path| > 1 ==> f.path[1] != '/')
    && HTTP <= f.version
  }

  function Authority(f: Fields): string {
    f.host + if f.port.Some? then ":" + f.port.value else ""
  }

  function Address(f: Fields): string {
    f.protocol + "://" + Authority(f) + f.path
  }

  /** The request line as printed, without its CRLF. */
  function LineText(f: Fields): string {
    f.method_ + " " + Address(f) + " " + f.version
  }

  lemma {:induction false} FreeSlice(s: string, lo: nat, hi: nat, d: set<char>)
    requires lo <= hi <= |s|
    ensures Free(s[lo..hi], d) <==> forall i | lo <= i < hi :: s[i] !in d
  {
    assert forall i | lo <= i < hi :: s[i] == s[lo..hi][i - lo];
  }

  lemma {:induction false} FreeLess(s: string, d: set<char>, more: set<char>)
    requires Free(s, more) && d <= more
    ensures Free(s, d)
  {
  }

  /** No token holds a delimiter of its own scan. */
  ghost predicate Stopped(line: string, c: Cuts)
    requires c.InOrder(|line|)
  {
    && (forall i | c.addr.lo <= i < c.addr.hi :: line[i] != ' ')
    && (forall i | c.protocol.lo <= i < c.protocol.hi :: line[i] !in COLON_SLASH)
    && (forall i | c.authority.lo <= i < c.authority.hi :: line[i] != '/')
    && (forall i | c.host.lo <= i < c.host.hi :: line[i] != ':')
  }

  lemma {:induction false} CutsStop(line: string)
    ensures Stopped(line, CutsOf(line))
  {
    var c, n := CutsOf(line), |line|;
    TokenStops(line, After(c.verb, n), n, SPACE);
    TokenStops(line, c.addr.lo, c.addr.hi, COLON_SLASH);
    TokenStops(line, After(c.protocol, c.addr.hi), c.addr.hi, SLASH);
    TokenStops(line, c.authority.lo, c.authority.hi, COLON);
  }

  /** No field of an accepted line can break the format it was cut from. */
  lemma {:induction false} SplitIsProper(line: string)
    requires Split(line).Accepted?
    ensures Proper(Split(line).fields)
  {
    CutsStop(line);
    FieldsAreProper(line, CutsOf(line));
  }

  lemma {:induction false} FieldsAreProper(line: string, c: Cuts)
    requires c.InOrder(|line|) && c.addr.hi < |line| && Stopped(line, c)
    requires line[c.verb.lo..c.verb.hi] == "GET" && HTTP <= line[c.addr.hi + 1..]
    requires !c.protocol.Empty() && !c.host.Empty() && (c.tail.Empty() || line[c.tail.lo] != '/')
    ensures Proper(FieldsAt(line, c))
  {
    FreeSlice(line, c.protocol.lo, c.protocol.hi, {':', '/', ' '});
    FreeSlice(line, c.host.lo, c.host.hi, {':', '/', ' '});
    FreeSlice(line, c.port.lo, c.port.hi, {'/', ' '});
    FreeSlice(line, c.tail.lo, c.tail.hi, SPACE);
    assert FieldsAt(line, c).path[1..] == line[c.tail.lo..c.tail.hi];
    assert !c.tail.Empty() ==> FieldsAt(line, c).path[1] == line[c.tail.lo];
  }

  /** A delimiter-free piece that ends where a delimiter stands is the next token. */
  lemma {:induction false} PieceIsToken(s: string, p: nat, e: nat, d: set<char>, lo: nat, piece: string)
    requires p <= lo && lo + |piece| <= e <= |s|
    requires piece != "" && s[lo..lo + |piece|] == piece && Free(piece, d)
    requires forall i | p <= i < lo :: s[i] in d
    requires lo + |piece| == e || s[lo + |piece|] in d
    ensures Token(s, p, e, d) == Span(lo, lo + |piece|)
  {
    FreeSlice(s, lo, lo + |piece|, d);
    TokenIs(s, p, e, d, lo, lo + |piece|);
  }

  lemma {:induction false} NothingLeft(s: string, e: nat, d: set<char>)
    requires e <= |s|
    ensures Token(s, e, e, d) == Span(e, e)
  {
  }
}
