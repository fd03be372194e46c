/** The request object: parsed in place from a buffer of its own, printed back, and destroyed. */
module ParsedRequests {
  import opened CStrings
  import opened Heaps
  import opened OrderedHeaders
  import opened HeaderTables
  import opened RequestLines
  import opened RequestScan
  import opened HeaderLines
  import opened Messages

  /** The abstract value of a request object. */
  datatype Object = Unassigned(headers: seq<Header>) | Assigned(fields: Fields, headers: seq<Header>)

  /** What a parse makes of an object that holds no request yet. */
  function Stored(obj: Object, r: ParseResult): Object {
    if r.Parsed? then Assigned(r.fields, r.headers) else obj
  }

  class ParsedRequest {
    const heap: Heap
    const table: HeaderTable
    const block: nat             // the heap block of the object itself
    var buf: array?<char>        // the request line, cut into C strings by NULs
    var bufBlock: nat
    var method_: nat             // pointers into buf
    var protocol: nat
    var host: nat
    var port: Option<nat>
    var version: nat
    var path: Option<CStr>       // a block of its own

    ghost function Owned(): set<nat>
      reads this, table
    {
      {block} + table.owned + (if buf != null then {bufBlock} else {})
      + (if path.Some? then {path.value.block} else {})
    }

    /** No block is counted twice, and all are live. */
    ghost predicate Owns()
      reads this, table, heap
    {
      && block !in table.owned
      && (buf != null ==> bufBlock != block && bufBlock !in table.owned)
      && (path.Some? ==> path.value.block != block && path.value.block !in table.owned
                         && (buf != null ==> path.value.block != bufBlock))
      && Owned() <= heap.live
    }

    ghost predicate Sound()
      reads this, table, heap
    {
      heap.Valid() && table.heap == heap && table.Valid() && Owns()
    }

    /** The pointers of an assigned object point into its buffer. */
    ghost predicate Pointing()
      reads this, buf
    {
      && buf != null && path.Some?
      && method_ < buf.Length && protocol < buf.Length && host < buf.Length && version < buf.Length
      && (port.Some? ==> port.value < buf.Length)
    }

    ghost predicate Valid()
      reads this, table, heap, buf
    {
      Sound() && (if buf == null then path == None else Pointing())
    }

    /** The fields as the strings the pointers denote. */
    function FieldValues(): Fields
      reads this, buf
      requires Pointing()
    {
      Fields(Str(buf[..], method_), Str(buf[..], protocol), Str(buf[..], host),
             if port.Some? then Some(Str(buf[..], port.value)) else None,
             path.value.text, Str(buf[..], version))
    }

    ghost function Value(): Object
      reads this, table, heap, buf
      requires Valid()
    {
      if buf == null then Unassigned(table.Contents()) else Assigned(FieldValues(), table.Contents())
    }

    constructor (h: Heap)
      requires h.Valid()
      modifies h
      ensures heap == h && Valid() && fresh(table) && buf == null
      ensures Value() == Unassigned([])
      ensures heap.live - Owned() == old(h.live)
    {
      heap := h;
      var b := h.Malloc();
      block := b;
      table := new HeaderTable(h);
      buf, path := null, None;
    }

    method Destroy()
      requires Valid()
      modifies this, table, heap
      ensures heap.Valid()
      ensures heap.live == old(heap.live - Owned())
    {
      ghost var mine, others := table.owned, heap.live - Owned();
      if buf != null { heap.Free(bufBlock); }
      if path.Some? { heap.Free(path.value.block); }
      assert heap.live == others + mine + {block};
      table.Destroy();
      heap.Free(block);
    }

    // ---------- Parsing ----------

    /** In the middle of a parse: `buf` holds the request line and `tmp` is still allocated. */
    ghost predicate Scanning(tmp: nat)
      reads this, table, heap
    {
      Sound() && buf != null && path == None && tmp in heap.live && tmp !in Owned()
    }

    /** The common end of every rejection. */
    method Reject(tmp: nat)
      requires Scanning(tmp)
      modifies this`buf, heap
      ensures Sound() && buf == null && path == None
      ensures heap.live - Owned() == old(heap.live - Owned()) - {tmp}
    {
      heap.Free(tmp);
      heap.Free(bufBlock);
      buf := null;
    }

    /** The state in which only host and port are left to be found. */
    ghost predicate AtAuthority(line: string, authority: nat)
      reads this, buf
    {
      var c := CutsOf(line);
      && NUL !in line && LineStage(line, c) && buf != null && buf[..] == Cut(line, AddressCuts(c))
      && authority == c.authority.lo
      && method_ == c.verb.lo && protocol == c.protocol.lo && version == c.addr.hi + 1
      && path.Some? && path.value.text == "/" + line[c.tail.lo..c.tail.hi]
    }

    /** Everything up to the path, which gets a block of its own. */
    method ParseAddress(tmp: nat, ghost line: string) returns (ok: bool, authority: nat)
      requires Scanning(tmp) && NUL !in line && buf[..] == Cut(line, {}) && Split(line) != Overrun
      modifies this`buf, this`method_, this`protocol, this`version, this`path, heap, buf
      ensures var c := CutsOf(line);
              && Sound()
              && ok == (LineStage(line, c) && AddressStage(line, c))
              && (ok ==> buf == old(buf) && AtAuthority(line, authority))
      ensures ok ==> tmp in heap.live && tmp !in Owned() && heap.live - Owned() == old(heap.live - Owned())
      ensures !ok ==> buf == null && path == None && heap.live - Owned() == old(heap.live - Owned()) - {tmp}
    {
      ghost var c := CutsOf(line);
      hide CutsOf, Split, Str, Cut, Own, Entries, Distinct;
      authority := 0;
      var addr, tail;
      ok, method_, addr, version := ScanLine(buf, line);
      if ok {
        ok, protocol, authority, tail := ScanAddress(buf, line, addr);
      }
      if !ok { Reject(tmp); return; }
      TailIs(line, c);
      var p := heap.Malloc();
      path := Some(CStr(p, "/" + if tail.Some? then Str(buf[..], tail.value) else ""));
    }

    /** When the scan is over, the pointers denote the fields of the split. */
    lemma {:induction false} ReadBack(line: string, c: Cuts)
      requires NUL !in line && c.InOrder(|line|) && c.addr.hi < |line|
      requires buf != null && buf[..] == Cut(line, AllCuts(c))
      requires method_ == c.verb.lo && protocol == c.protocol.lo && host == c.host.lo && version == c.addr.hi + 1
      requires port == if c.port.Empty() then None else Some(c.port.lo)
      requires path.Some? && path.value.text == "/" + line[c.tail.lo..c.tail.hi]
      ensures Pointing() && FieldValues() == FieldsAt(line, c)
    {
      hide Cut, Str, AllCuts;
      PointersDenoteSlices(line, c);
      assert buf.Length == |buf[..]| == |line| + 1;
      ToTheEnd(line, c.addr.hi + 1);
    }

    /** The rejection that finds a path already allocated. */
    method RejectWithPath(tmp: nat)
      requires Sound() && buf != null && path.Some? && tmp in heap.live && tmp !in Owned()
      modifies this`buf, this`path, heap
      ensures Sound() && buf == null && path == None
      ensures heap.live - Owned() == old(heap.live - Owned()) - {tmp}
    {
      heap.Free(path.value.block);
      path := None;
      Reject(tmp);
    }

    /** Host and port, once everything before them has been accepted. */
    method ParseAuthority(tmp: nat, ghost line: string, authority: nat) returns (ok: bool)
      requires Sound() && tmp in heap.live && tmp !in Owned() && AtAuthority(line, authority)
      modifies this`buf, this`host, this`port, this`path, heap, buf
      ensures Sound() && ok == !CutsOf(line).host.Empty()
      ensures ok ==> buf == old(buf) && Pointing() && FieldValues() == FieldsAt(line, CutsOf(line))
      ensures ok ==> heap.live == old(heap.live) && Owned() == old(Owned())
      ensures !ok ==> buf == null && path == None && heap.live - Owned() == old(heap.live - Owned()) - {tmp}
    {
      hide CutsOf, Cut, Str, AllCuts, AddressCuts, FieldsAt;
      ok, host, port := ScanAuthority(buf, line, authority);
      if ok {
        ReadBack(line, CutsOf(line));
      } else {
        RejectWithPath(tmp);
      }
    }

    /** The request line. Accepted: the fields are those of the pure split. Rejected: nothing is left of the
        attempt but pointers nobody reads. */
    method ParseLine(tmp: nat, ghost line: string) returns (ok: bool)
      requires Scanning(tmp) && NUL !in line && buf[..] == Cut(line, {}) && Split(line) != Overrun
      modifies this`buf, this`method_, this`protocol, this`host, this`port, this`version, this`path, heap, buf
      ensures Sound() && ok == Split(line).Accepted?
      ensures ok ==> buf == old(buf) && Pointing() && FieldValues() == Split(line).fields
      ensures ok ==> tmp in heap.live && tmp !in Owned() && heap.live - Owned() == old(heap.live - Owned())
      ensures !ok ==> buf == null && path == None && heap.live - Owned() == old(heap.live - Owned()) - {tmp}
    {
      Stages(line);
      hide CutsOf, Split, Cut, Str, LineStage, AddressStage, FieldsAt;
      var authority;
      ok, authority := ParseAddress(tmp, line);
      if ok {
        ok := ParseAuthority(tmp, line, authority);
      }
    }

    /** Copies the request line into a buffer of its own. */
    method LoadLine(tmp: nat, line: string)
      requires Sound() && buf == null && path == None && tmp in heap.live && tmp !in Owned()
      modifies this`buf, this`bufBlock, heap
      ensures Scanning(tmp) && fresh(buf) && buf[..] == Cut(line, {})
      ensures heap.live - Owned() == old(heap.live - Owned())
    {
      bufBlock := heap.Malloc();
      var n := |line|;
      buf := new char[n + 1](i requires 0 <= i <= n => if i < n then line[i] else NUL);
      assert buf[..] == Cut(line, {});
    }

    /** The header loop touches no block but those of the header table. */
    method ParseHeaders(tmp: nat, t: string, c: nat) returns (ret: int)
      requires Sound() && tmp in heap.live && tmp !in Owned()
      requires c <= |t| && Loop(t, c, table.Contents()) != Undefined
      modifies table, heap
      ensures Sound() && tmp in heap.live && tmp !in Owned() && heap.live - Owned() == old(heap.live - Owned())
      ensures Loop(t, c, old(table.Contents())) == Done(ret == 0, table.Contents())
      ensures ret == 0 || ret == -1
    {
      hide Loop, Own, Entries, Distinct;
      ghost var rest, mine := heap.live - table.owned, Owned() - table.owned;
      assert mine + {tmp} <= rest;
      ghost var visited;
      ret, visited := table.ParseHeaders(t, c);
      assert heap.live - table.owned == rest;
      assert Owned() == mine + table.owned;
      assert heap.live - Owned() == rest - mine;
    }

    /** Request line and headers of a text in which a blank line ends the headers. */
    method ParseText(tmp: nat, t: string) returns (ret: int)
      requires Valid() && buf == null && tmp in heap.live && tmp !in Owned()
      requires NUL !in t && FindCrlf(t, 0) + 2 <= |t|
      requires ParseOf(t, table.Contents()) != OutOfBounds
      modifies this, table, heap
      ensures Valid() && heap.live - Owned() == old(heap.live - Owned()) - {tmp}
      ensures var r := ParseOf(t, old(table.Contents()));
              ret == (if r.Parsed? && r.ok then 0 else -1) && Value() == Stored(old(Value()), r)
    {
      hide Split, Loop, Own, Entries, Distinct, Put, FieldValues;
      var index := FindCrlf(t, 0);
      var line := t[..index];
      LoadLine(tmp, line);
      var ok := ParseLine(tmp, line);
      if ok {
        ret := ParseHeaders(tmp, t, index + 2);
        heap.Free(tmp);
      } else {
        ret := -1;
      }
    }

    /** ParsedRequest_parse. It never reads outside its buffers, and does to the object what `Messages.Parse` says. */
    method Parse(input: string) returns (ret: int)
      requires Valid()
      requires buf == null ==> InBounds(input)
      modifies this, table, heap
      ensures Valid() && heap.live - Owned() == old(heap.live - Owned())
      ensures old(buf) != null ==> ret == -1 && Value() == old(Value())
      ensures old(buf) == null ==>
                var r := Messages.Parse(input, old(table.Contents()));
                ret == (if r.Parsed? && r.ok then 0 else -1) && Value() == Stored(old(Value()), r)
    {
      hide InBounds, LineRefused, Colonless, ParseOf, Own, Entries, Distinct, FieldValues, FindBlank, FindCrlf, Str;
      ParseOutcome(input, table.Contents());
      if buf != null || |input| < MIN_REQ_LEN || |input| > MAX_REQ_LEN { return -1; }
      var tmp := heap.Malloc();
      var t := Text(input);
      StrIsNulFree(input, 0);
      CrlfBeforeBlank(t);
      if FindBlank(t, 0) == |t| {
        heap.Free(tmp);
        ret := -1;
      } else {
        ret := ParseText(tmp, t);
      }
    }

    // ---------- Printing ----------

    /** Predicts the printed request line, CRLF included. */
    function RequestLineLen(): (len: nat)
      reads this, buf
      requires buf != null ==> Pointing()
      ensures buf != null ==> len == |LineText(FieldValues()) + CRLF|
    {
      if buf == null then 0
      else
        var f := FieldValues();
        |f.method_| + 1 + |f.protocol| + 3 + |f.host| + 1 + |f.version| + 2
        + (if f.port.Some? then |f.port.value| + 1 else 0) + |f.path|
    }

    method HeadersLen() returns (size: nat)
      requires Valid()
      ensures size == if buf == null then 0 else Measured(|HeaderBlock(table.Contents())|)
    {
      if buf == null { return 0; }
      size := table.HeadersLen();
    }

    /** Predicts the printed request, exactly as long as the header length fits an int. */
    method TotalLen() returns (size: nat)
      requires Valid()
      ensures buf == null ==> size == 0
      ensures buf != null ==> size == |LineText(FieldValues()) + CRLF| + Measured(|HeaderBlock(table.Contents())|)
      ensures buf != null && |HeaderBlock(table.Contents())| < 0x8000_0000 ==>
                size == |Print(FieldValues(), table.Contents())|
    {
      MeasuredExact(|HeaderBlock(table.Contents())|);
      var headers := HeadersLen();
      size := RequestLineLen() + headers;
    }

    method PrintRequestLine(out: array<char>, buflen: nat) returns (ret: int, tmp: nat)
      requires Pointing() && buflen <= out.Length && out != buf
      modifies out
      ensures ret == if buflen < |LineText(FieldValues()) + CRLF| then -1 else 0
      ensures ret == -1 ==> out[..] == old(out[..])
      ensures ret == 0 ==> tmp == |LineText(FieldValues()) + CRLF| <= buflen
                           && out[..tmp] == LineText(FieldValues()) + CRLF
                           && forall i | tmp <= i < out.Length :: out[i] == old(out[i])
    {
      var f := FieldValues();
      tmp := RequestLineLen();
      if buflen < tmp { return -1, tmp; }
      EmitLine(out, f);
      return 0, tmp;
    }

    /** Succeeds exactly when the request line and what the headers are measured at fit, and then writes exactly
        the request. */
    method Unparse(out: array<char>, buflen: nat) returns (ret: int)
      requires Valid() && buflen <= out.Length && out != buf
      requires buf != null ==> PrintFits(buflen - |LineText(FieldValues()) + CRLF|)
      modifies out
      ensures buf == null ==> ret == -1 && out[..] == old(out[..])
      ensures buf != null ==>
                var line, all := LineText(FieldValues()) + CRLF, Print(FieldValues(), table.Contents());
                && ret == (if buflen < |line| + Measured(|HeaderBlock(table.Contents())|) then -1 else 0)
                && (ret == 0 ==> |all| <= buflen && out[..|all|] == all
                                 && forall i | |all| <= i < out.Length :: out[i] == old(out[i]))
                && (ret == -1 && |line| <= buflen ==>
                      out[..|line|] == line && forall i | |line| <= i < out.Length :: out[i] == old(out[i]))
                && (buflen < |line| ==> out[..] == old(out[..]))
    {
      hide Own, Entries, Distinct, HeaderBlock, LineText, FieldValues, ToSize, ToInt32;
      if buf == null { return -1; }
      var tmp;
      ret, tmp := PrintRequestLine(out, buflen);
      if ret < 0 { return -1; }
      ret := table.PrintHeaders(out, tmp, buflen - tmp);
      if ret < 0 { return -1; }
      return 0;
    }

    /** A header block that is measured to fit into `len` bytes does fit: the code does not write behind them. */
    ghost predicate PrintFits(len: int)
      reads table
      requires table.headersused <= |table.headers|
    {
      var n := |HeaderBlock(table.Contents())|;
      Measured(n) <= len ==> n <= len
    }

    method UnparseHeaders(out: array<char>, buflen: nat) returns (ret: int)
      requires Valid() && buflen <= out.Length && out != buf && PrintFits(buflen)
      modifies out
      ensures ret == if buf == null || buflen < Measured(|HeaderBlock(table.Contents())|) then -1 else 0
      ensures ret == -1 ==> out[..] == old(out[..])
      ensures ret == 0 ==> |HeaderBlock(table.Contents())| <= buflen
                           && out[..|HeaderBlock(table.Contents())|] == HeaderBlock(table.Contents())
                           && forall i | |HeaderBlock(table.Contents())| <= i < out.Length :: out[i] == old(out[i])
    {
      hide Own, Entries, Distinct, HeaderBlock, ToSize, ToInt32;
      if buf == null { return -1; }
      ret := table.PrintHeaders(out, 0, buflen);
      assert out[..0] == "";
    }

    // ---------- Headers ----------

    method SetHeader(key: string, value: string) returns (ret: int)
      requires Valid()
      modifies table, heap
      ensures Valid() && heap.live - Owned() == old(heap.live - Owned()) && ret == 0
      ensures Value() == old(Value()).(headers := Put(old(table.Contents()), key, value))
      ensures table.Contents() == Put(old(table.Contents()), key, value)
    {
      hide Own, Entries, Distinct, FieldValues, Put;
      ghost var rest, mine := heap.live - table.owned, Owned() - table.owned;
      ret := table.Set(key, value);
      Rebalanced(rest, mine);
    }

    method RemoveHeader(key: string) returns (ret: int)
      requires Valid()
      modifies table, heap
      ensures Valid() && heap.live - Owned() == old(heap.live - Owned())
      ensures ret == if Lookup(old(table.Contents()), key).Some? then 0 else -1
      ensures Value() == old(Value()).(headers := Without(old(table.Contents()), key))
      ensures table.Contents() == Without(old(table.Contents()), key)
    {
      hide Own, Entries, Distinct, FieldValues, Without;
      ghost var rest, mine := heap.live - table.owned, Owned() - table.owned;
      ret := table.Remove(key);
      Rebalanced(rest, mine);
    }

    /** When the table has kept its hands off the other live blocks, the object still owns its own. */
    lemma {:induction false} Rebalanced(rest: set<nat>, mine: set<nat>)
      requires heap.Valid() && table.heap == heap && table.Valid()
      requires heap.live - table.owned == rest && mine <= rest
      requires Owned() == mine + table.owned && block in mine
      requires buf != null ==> bufBlock in mine && bufBlock != block
      requires path.Some? ==> path.value.block in mine && path.value.block != block
                              && (buf != null ==> path.value.block != bufBlock)
      ensures Sound() && heap.live - Owned() == rest - mine
    {
    }
  }

  /** The memcpys of the request line. */
  method EmitLine(out: array<char>, f: Fields)
    requires |LineText(f) + CRLF| <= out.Length
    modifies out
    ensures out[..|LineText(f) + CRLF|] == LineText(f) + CRLF
    ensures forall i | |LineText(f) + CRLF| <= i < out.Length :: out[i] == old(out[i])
  {
    hide Address;
    var current := EmitNext(out, 0, f.method_);
    assert out[..current] == f.method_;
    current := EmitNext(out, current, " ");
    current := EmitAddress(out, current, f);
    current := EmitNext(out, current, " ");
    current := EmitNext(out, current, f.version);
    current := EmitNext(out, current, CRLF);
  }

  /** Protocol, host, port and path. */
  method EmitAddress(out: array<char>, at: nat, f: Fields) returns (current: nat)
    requires at + |Address(f)| <= out.Length
    modifies out
    ensures current == at + |Address(f)| && out[..current] == old(out[..at]) + Address(f)
    ensures forall i | current <= i < out.Length :: out[i] == old(out[i])
  {
    ghost var front := out[..at];
    AddressRegroups(front, f);
    hide Address;
    current := EmitNext(out, at, f.protocol);
    current := EmitNext(out, current, "://");
    current := EmitNext(out, current, f.host);
    if f.port.Some? {
      current := EmitNext(out, current, ":");
      current := EmitNext(out, current, f.port.value);
    }
    current := EmitNext(out, current, f.path);
  }

  lemma {:induction false} AddressRegroups(front: string, f: Fields)
    ensures var host := front + f.protocol + "://" + f.host;
            (if f.port.Some? then host + ":" + f.port.value else host) + f.path == front + Address(f)
  {
    var scheme := f.protocol + "://";
    JoinRegroups(front, scheme + Authority(f), f.path);
    JoinRegroups(front, scheme, Authority(f));
    JoinRegroups(front, f.protocol, "://");
    if f.port.Some? {
      JoinRegroups(front + scheme, f.host, ":" + f.port.value);
      JoinRegroups(front + scheme + f.host, ":", f.port.value);
    }
    hide Address;
  }

  /** memcpy to a pointer that moves on. */
  method EmitNext(out: array<char>, current: nat, s: string) returns (next: nat)
    requires current + |s| <= out.Length
    modifies out
    ensures next == current + |s| && out[..next] == old(out[..current]) + s
    ensures forall i | next <= i < out.Length :: out[i] == old(out[i])
  {
    Emit(out, current, s);
    next := current + |s|;
  }

  lemma {:induction false} TailIs(line: string, c: Cuts)
    requires NUL !in line && c.InOrder(|line|)
    ensures Str(Cut(line, AddressCuts(c)), c.tail.lo) == line[c.tail.lo..c.tail.hi]
  {
    StrOfCut(line, AddressCuts(c), c.tail.lo, c.tail.hi);
  }
}
