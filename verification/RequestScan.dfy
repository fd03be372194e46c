/** The destructive scan of the request line: seven calls of strtok_r on one buffer. Each method is one
    stretch of the parser between two allocations; it returns false where the parser rejects the line. */
module RequestScan {
  import opened CStrings
  import opened RequestLines

  /** What the stages decide, in the order in which the code decides it. */
  ghost predicate LineStage(line: string, c: Cuts)
    requires c.InOrder(|line|)
  {
    && VerbStage(line, c) && !c.addr.Empty() && c.addr.hi < |line| && HTTP <= line[c.addr.hi + 1..]
  }

  ghost predicate AddressStage(line: string, c: Cuts)
    requires c.InOrder(|line|)
  {
    && !c.protocol.Empty() && !c.authority.Empty()
    && c.authority.hi - c.authority.lo != RestLength(line, c)
    && (c.tail.Empty() || line[c.tail.lo] != '/')
  }

  lemma {:induction false} Stages(line: string)
    requires Split(line) != Overrun
    ensures var n, c := |line|, CutsOf(line);
            && (Split(line).Accepted? <==> LineStage(line, c) && AddressStage(line, c) && !c.host.Empty())
            && (Split(line).Accepted? ==> Split(line).fields == FieldsAt(line, c))
            && (VerbStage(line, c) && !c.addr.Empty() ==> c.addr.hi < n)
            && c.verb == Token(line, 0, n, SPACE) && c.addr == Token(line, After(c.verb, n), n, SPACE)
  {
  }

  lemma {:induction false} AddressTokens(line: string)
    ensures var c := CutsOf(line);
            && c.protocol == Token(line, c.addr.lo, c.addr.hi, COLON_SLASH)
            && c.authority == Token(line, After(c.protocol, c.addr.hi), c.addr.hi, SLASH)
            && c.tail == Token(line, After(c.authority, c.addr.hi), c.addr.hi, SPACE)
            && c.host == Token(line, c.authority.lo, c.authority.hi, COLON)
            && c.port == Token(line, After(c.host, c.authority.hi), c.authority.hi, SLASH)
  {
  }

  ghost predicate VerbStage(line: string, c: Cuts)
    requires c.InOrder(|line|)
  {
    !c.verb.Empty() && line[c.verb.lo..c.verb.hi] == "GET"
  }

  /** The method, which must be GET. */
  method ScanVerb(buf: array<char>, ghost line: string) returns (ok: bool, verb: nat, save: nat)
    requires NUL !in line && buf[..] == Cut(line, {}) && Split(line) != Overrun
    modifies buf
    ensures var c := CutsOf(line);
            && ok == VerbStage(line, c)
            && (ok ==> buf[..] == Cut(line, {c.verb.hi}) && verb == c.verb.lo && save == After(c.verb, |line|))
  {
    ghost var n, c := |line|, CutsOf(line);
    Stages(line);
    hide CutsOf, Split, Token, Cut, Str, StrEnd;
    ok, verb := false, 0;
    var token;
    token, save := StrtokR(buf, 0, SPACE, line, {}, n);
    if token == None { return; }
    verb := token.value;
    assert {} + {c.verb.hi} == {c.verb.hi};
    StrOfCut(line, {c.verb.hi}, c.verb.lo, c.verb.hi);
    ok := Str(buf[..], verb) == "GET";
  }

  lemma {:induction false} VersionIs(line: string, verbEnd: nat, t: Span)
    requires NUL !in line && verbEnd < t.lo <= t.hi < |line|
    ensures StrEnd(Cut(line, {verbEnd, t.hi}), t.lo) == t.hi
    ensures Str(Cut(line, {verbEnd, t.hi}), t.hi + 1) == line[t.hi + 1..]
  {
    StrOfCut(line, {verbEnd, t.hi}, t.lo, t.hi);
    StrOfCut(line, {verbEnd, t.hi}, t.hi + 1, |line|);
    ToTheEnd(line, t.hi + 1);
  }

  /** The address, and the version behind it. */
  method ScanTarget(buf: array<char>, ghost line: string, ghost verbEnd: nat, saved: nat)
    returns (ok: bool, addr: nat, version: nat)
    requires NUL !in line && buf[..] == Cut(line, {verbEnd}) && verbEnd <= saved <= |line|
    requires verbEnd < saved || saved == |line|
    requires var t := Token(line, saved, |line|, SPACE); t.Empty() || t.hi < |line|
    modifies buf
    ensures var t := Token(line, saved, |line|, SPACE);
            && ok == (!t.Empty() && HTTP <= line[t.hi + 1..])
            && (ok ==> buf[..] == Cut(line, {verbEnd, t.hi}) && addr == t.lo && version == t.hi + 1)
  {
    hide Token, Cut, Str, StrEnd, After;
    ok, addr, version := false, 0, 0;
    ghost var t := Token(line, saved, |line|, SPACE);
    var token, _ := StrtokR(buf, saved, SPACE, line, {verbEnd}, |line|);
    if token.Some? {
      addr := token.value;
      assert {verbEnd} + {t.hi} == {verbEnd, t.hi};
      VersionIs(line, verbEnd, t);
      version := StrEnd(buf[..], addr) + 1;
      ok := HTTP <= Str(buf[..], version);
    }
  }

  /** The three parts of a request line. */
  method ScanLine(buf: array<char>, ghost line: string) returns (ok: bool, verb: nat, addr: nat, version: nat)
    requires NUL !in line && buf[..] == Cut(line, {}) && Split(line) != Overrun
    modifies buf
    ensures var c := CutsOf(line);
            && ok == LineStage(line, c)
            && (ok ==> buf[..] == Cut(line, LineCuts(c)) && verb == c.verb.lo && addr == c.addr.lo
                       && version == c.addr.hi + 1)
  {
    Stages(line);
    hide CutsOf, Split, Token, Cut, Str, StrEnd;
    addr, version := 0, 0;
    var save;
    ok, verb, save := ScanVerb(buf, line);
    if ok {
      ok, addr, version := ScanTarget(buf, line, CutsOf(line).verb.hi, save);
    }
  }

  /** Protocol, host with port, and path; `tail` is the path behind its first slash, or None for NULL. */
  method ScanAddress(buf: array<char>, ghost line: string, addr: nat)
    returns (ok: bool, protocol: nat, authority: nat, tail: Option<nat>)
    requires NUL !in line && LineStage(line, CutsOf(line))
    requires buf[..] == Cut(line, LineCuts(CutsOf(line))) && addr == CutsOf(line).addr.lo
    modifies buf
    ensures var c := CutsOf(line);
            && ok == AddressStage(line, c)
            && (ok ==> buf[..] == Cut(line, AddressCuts(c)) && protocol == c.protocol.lo && authority == c.authority.lo
                       && tail == if c.tail.Empty() then None else Some(c.tail.lo))
  {
    ghost var c := CutsOf(line);
    ghost var e, k := c.addr.hi, LineCuts(c);
    AddressTokens(line);
    hide CutsOf, Token, Cut, Str, StrEnd, RestLength;
    ok, protocol, authority, tail := false, 0, 0, None;
    var token, save := StrtokR(buf, addr, COLON_SLASH, line, k, e);
    if token == None { return; }
    protocol := token.value;
    StrOfCut(line, k + {c.protocol.hi}, c.protocol.lo, c.protocol.hi);
    var rem := addr + (StrEnd(buf[..], protocol) - protocol) + 3;
    RestIsMeasured(line, c, rem);
    var absUriLen := StrEnd(buf[..], rem) - rem;
    token, save := StrtokR(buf, save, SLASH, line, k + {c.protocol.hi}, e);
    if token == None { return; }
    authority := token.value;
    StrOfCut(line, k + {c.protocol.hi} + {c.authority.hi}, c.authority.lo, c.authority.hi);
    if StrEnd(buf[..], authority) - authority == absUriLen { return; }
    tail, save := StrtokR(buf, save, SPACE, line, k + {c.protocol.hi} + {c.authority.hi}, e);
    assert k + {c.protocol.hi} + {c.authority.hi} + {c.tail.hi} == AddressCuts(c);
    if tail.Some? {
      StrOfCut(line, AddressCuts(c), c.tail.lo, c.tail.hi);
    }
    ok := tail == None || !("/" <= Str(buf[..], tail.value));
  }

  /** Host and port inside the authority. */
  method ScanAuthority(buf: array<char>, ghost line: string, authority: nat)
    returns (ok: bool, host: nat, port: Option<nat>)
    requires NUL !in line && LineStage(line, CutsOf(line))
    requires buf[..] == Cut(line, AddressCuts(CutsOf(line))) && authority == CutsOf(line).authority.lo
    modifies buf
    ensures var c := CutsOf(line);
            && ok == !c.host.Empty()
            && (ok ==> buf[..] == Cut(line, AllCuts(c)) && host == c.host.lo
                       && port == if c.port.Empty() then None else Some(c.port.lo))
  {
    ghost var c := CutsOf(line);
    ghost var e, k := c.authority.hi, AddressCuts(c);
    AddressTokens(line);
    hide CutsOf, Token, Cut;
    var token, save := StrtokR(buf, authority, COLON, line, k, e);
    port, save := StrtokR(buf, save, SLASH, line, k + {c.host.hi}, e);
    assert k + {c.host.hi} + {c.port.hi} == AllCuts(c);
    ok, host := token != None, if token.Some? then token.value else 0;
  }
}
