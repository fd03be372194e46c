/** The header array of a parsed request: slots are appended, removal leaves a tombstone,
    and the array doubles when it is about to fill up. */
module HeaderTables {
  import opened CStrings
  import opened Heaps
  import opened OrderedHeaders
  import opened HeaderLines
  import opened Messages

  const DEFAULT_NHDRS: nat := 8

  /** A heap block holding a NUL-terminated copy of `text`. */
  datatype CStr = CStr(block: nat, text: string)

  /** A removed slot has a NULL key and a dangling value. */
  datatype Slot = Slot(key: Option<CStr>, value: CStr) {
    predicate Has(k: string) { key.Some? && key.value.text == k }
  }

  const EMPTY_SLOT := Slot(None, CStr(0, ""))

  /** The live headers in slot order. */
  function Entries(slots: seq<Slot>): seq<Header> {
    if slots == [] then []
    else Entries(slots[..|slots| - 1]) + Entry(slots[|slots| - 1])
  }

  function Entry(s: Slot): seq<Header> {
    if s.key.Some? then [Header(s.key.value.text, s.value.text)] else []
  }

  /** `ids` are the heap blocks the live slots own: two for each, and no block twice. */
  ghost predicate Own(slots: seq<Slot>, ids: set<nat>) {
    if slots == [] then ids == {}
    else var s, front := slots[|slots| - 1], slots[..|slots| - 1];
      if s.key.None? then Own(front, ids)
      else
        var k, v := s.key.value.block, s.value.block;
        k != v && k in ids && v in ids && Own(front, ids - {k, v})
  }

  /** A size_t total kept in a 32-bit int, and converted back to size_t. */
  function ToInt32(n: int): (r: int)
    ensures -0x8000_0000 <= r < 0x8000_0000
  {
    (n + 0x8000_0000) % 0x1_0000_0000 - 0x8000_0000
  }

  function ToSize(n: int): int { if n < 0 then n + 0x1_0000_0000_0000_0000 else n }

  /** What comes out for `n` bytes. */
  function Measured(n: nat): nat { ToSize(ToInt32(n)) }

  lemma {:induction false} Int32Sum(a: int, b: int)
    ensures ToInt32(ToInt32(a) + b) == ToInt32(a + b)
  {
    var m := 0x1_0000_0000;
    var k := (a + 0x8000_0000) / m;
    assert ToInt32(a) == a - k * m;
    assert (a + b + 0x8000_0000 - k * m) % m == (a + b + 0x8000_0000) % m;
  }

  /** For any size of real memory the detour through int is harmless exactly below 2^31. */
  lemma {:induction false} MeasuredExact(n: nat)
    ensures n < 0x8000_0000 ==> Measured(n) == n
    ensures 0x8000_0000 <= n < 0x8000_0000_0000_0000 ==> Measured(n) != n
  {
  }

  function Pow2(n: nat): nat { if n == 0 then 1 else 2 * Pow2(n - 1) }

  lemma {:induction false} EntriesAppend(slots: seq<Slot>, s: Slot)
    ensures Entries(slots + [s]) == Entries(slots) + Entry(s)
  {
    assert (slots + [s])[..|slots|] == slots;
  }

  /** Clearing the only slot of a key removes the key from the map. */
  lemma {:induction false} ClearEntries(slots: seq<Slot>, i: nat, s: Slot, key: string)
    requires i < |slots| && slots[i].Has(key) && s.key.None?
    requires forall j | 0 <= j < |slots| && j != i :: !slots[j].Has(key)
    ensures Entries(slots[i := s]) == Without(Entries(slots), key)
  {
    hide Without;
    var n := |slots| - 1;
    var front := slots[..n];
    WithoutJoin(Entries(front), Entry(slots[n]), key);
    if i == n {
      assert slots[i := s] == front + [s];
      EntriesAppend(front, s);
      EntriesLack(front, key);
      WithoutAbsent(Entries(front), key);
      WithoutOne(slots[n], key);
    } else {
      assert slots[i := s] == front[i := s] + [slots[n]];
      EntriesAppend(front[i := s], slots[n]);
      ClearEntries(front, i, s, key);
      OtherEntry(slots[n], key);
      WithoutAbsent(Entry(slots[n]), key);
    }
  }

  lemma {:induction false} OtherEntry(s: Slot, key: string)
    requires !s.Has(key)
    ensures Lacks(Entry(s), key)
  {
  }

  lemma {:induction false} WithoutOne(s: Slot, key: string)
    requires s.Has(key)
    ensures Without(Entry(s), key) == []
  {
    assert Without(Entry(s)[..0], key) == [];
  }

  lemma {:induction false} OwnAppend(slots: seq<Slot>, ids: set<nat>, s: Slot)
    requires Own(slots, ids)
    requires s.key.Some? && s.key.value.block != s.value.block
    requires s.key.value.block !in ids && s.value.block !in ids
    ensures Own(slots + [s], ids + {s.key.value.block, s.value.block})
  {
    assert (slots + [s])[..|slots|] == slots;
    assert ids + {s.key.value.block, s.value.block} - {s.key.value.block, s.value.block} == ids;
  }

  /** A live slot owns two distinct blocks, which clearing it gives up. */
  lemma {:induction false} OwnClear(slots: seq<Slot>, ids: set<nat>, i: nat, s: Slot)
    requires Own(slots, ids) && i < |slots| && slots[i].key.Some? && s.key.None?
    ensures slots[i].key.value.block != slots[i].value.block
    ensures slots[i].key.value.block in ids && slots[i].value.block in ids
    ensures Own(slots[i := s], ids - {slots[i].key.value.block, slots[i].value.block})
  {
    var n := |slots| - 1;
    var last, mine := slots[n], {slots[i].key.value.block, slots[i].value.block};
    if i == n {
      assert slots[i := s][..n] == slots[..n];
    } else {
      assert slots[i := s][..n] == slots[..n][i := s];
      if last.key.None? {
        OwnClear(slots[..n], ids, i, s);
      } else {
        var his := {last.key.value.block, last.value.block};
        OwnClear(slots[..n], ids - his, i, s);
        assert ids - mine - his == ids - his - mine;
      }
    }
  }

  lemma {:induction false} OwnNothing(slots: seq<Slot>, ids: set<nat>)
    requires Own(slots, ids) && forall i | 0 <= i < |slots| :: slots[i].key.None?
    ensures ids == {}
  {
    if slots != [] { OwnNothing(slots[..|slots| - 1], ids); }
  }

  lemma {:induction false} EntriesLack(slots: seq<Slot>, key: string)
    requires forall j | 0 <= j < |slots| :: !slots[j].Has(key)
    ensures Lacks(Entries(slots), key)
  {
    if slots != [] {
      EntriesLack(slots[..|slots| - 1], key);
    }
  }

  lemma {:induction false} EntryIn(slots: seq<Slot>, i: nat)
    requires i < |slots| && slots[i].key.Some?
    ensures Header(slots[i].key.value.text, slots[i].value.text) in Entries(slots)
  {
    if i < |slots| - 1 { EntryIn(slots[..|slots| - 1], i); }
  }

  /** Keys that differ in the map differ in the slots. */
  lemma {:induction false} SlotsDistinct(slots: seq<Slot>, i: nat, j: nat)
    requires Distinct(Entries(slots)) && i < j < |slots| && slots[i].key.Some?
    ensures !slots[j].Has(slots[i].key.value.text)
  {
    var n := |slots| - 1;
    var front := Entries(slots[..n]);
    if j == n {
      var h := Header(slots[i].key.value.text, slots[i].value.text);
      EntryIn(slots[..n], i);
      var k :| 0 <= k < |front| && front[k] == h;
      assert Entries(slots)[k] == h;
      assert slots[j].key.Some? ==> Entries(slots)[|front|].key == slots[j].key.value.text;
    } else {
      assert forall a, b | 0 <= a < b < |front| :: front[a] == Entries(slots)[a] && front[b] == Entries(slots)[b];
      SlotsDistinct(slots[..n], i, j);
    }
  }

  lemma {:induction false} OnlySlot(slots: seq<Slot>, i: nat, key: string)
    requires Distinct(Entries(slots)) && i < |slots| && slots[i].Has(key)
    ensures forall j | 0 <= j < |slots| && j != i :: !slots[j].Has(key)
  {
    forall j | 0 <= j < |slots| && j != i
      ensures !slots[j].Has(key)
    {
      if i < j { SlotsDistinct(slots, i, j); } else if slots[j].key.Some? { SlotsDistinct(slots, j, i); }
    }
  }

  lemma {:induction false} ClearSlot(slots: seq<Slot>, i: nat, s: Slot, key: string)
    requires Distinct(Entries(slots)) && i < |slots| && slots[i].Has(key) && s.key.None?
    ensures Entries(slots[i := s]) == Without(Entries(slots), key)
    ensures Distinct(Entries(slots[i := s]))
    ensures Lookup(Entries(slots), key).Some?
  {
    OnlySlot(slots, i, key);
    ClearEntries(slots, i, s, key);
    WithoutDistinct(Entries(slots), key);
    LookupEntry(slots, i);
  }

  function LineLen(s: Slot): nat { if s.key.Some? then |s.key.value.text| + |s.value.text| + 4 else 0 }

  /** Printing one slot more. */
  lemma {:induction false} PrefixText(slots: seq<Slot>, s: Slot)
    ensures HeaderText(Entries(slots + [s]))
            == HeaderText(Entries(slots)) + if s.key.Some? then HeaderLine(Header(s.key.value.text, s.value.text)) else ""
    ensures |HeaderText(Entries(slots + [s]))| == |HeaderText(Entries(slots))| + LineLen(s)
  {
    EntriesAppend(slots, s);
    var hs := Entries(slots);
    if s.key.Some? {
      assert (hs + Entry(s))[..|hs|] == hs;
    } else {
      assert hs + Entry(s) == hs;
    }
  }

  lemma {:induction false} ZeroText(slots: seq<Slot>)
    ensures HeaderText(Entries(slots[..0])) == "" && ToInt32(0) == 0
  {
    assert slots[..0] == [];
  }

  lemma {:induction false} TextGrows(slots: seq<Slot>, n: nat)
    requires n <= |slots|
    ensures |HeaderText(Entries(slots[..n]))| <= |HeaderText(Entries(slots))|
  {
    hide Entries, HeaderText;
    if n < |slots| {
      var front := slots[..|slots| - 1];
      TextGrows(front, n);
      assert front[..n] == slots[..n] && slots == front + [slots[|slots| - 1]];
      PrefixText(front, slots[|slots| - 1]);
    } else {
      assert slots[..n] == slots;
    }
  }

  /** The four memcpys of one header line. */
  method EmitHeader(out: array<char>, at: nat, key: string, value: string) returns (next: nat)
    requires at + |key| + |value| + 4 <= out.Length
    modifies out
    ensures next == at + |key| + |value| + 4
    ensures out[..next] == old(out[..at]) + HeaderLine(Header(key, value))
    ensures forall i | next <= i < out.Length :: out[i] == old(out[i])
  {
    Emit(out, at, key);
    Emit(out, at + |key|, ": ");
    Emit(out, at + |key| + 2, value);
    Emit(out, at + |key| + 2 + |value|, CRLF);
    next := at + |key| + |value| + 4;
  }

  class HeaderTable {
    const heap: Heap
    var headers: seq<Slot>   // the array, with the unused slots at its end
    var block: nat           // its heap block
    var headersused: nat
    var headerslen: nat
    ghost var sets: nat      // calls of Set so far
    ghost var copied: nat    // slots moved by realloc so far
    ghost var doublings: nat
    ghost var owned: set<nat>  // the blocks still to be freed: the array's, each live key's and value's

    ghost function Slots(): seq<Slot>
      reads this
      requires headersused <= |headers|
    {
      headers[..headersused]
    }

    /** The abstract value: the live headers in order. */
    ghost function Contents(): seq<Header>
      reads this
      requires headersused <= |headers|
    {
      Entries(Slots())
    }

    /** There is always room for one more header, the array has doubled only when it had to,
        and all the doublings together have moved fewer than two slots per set. */
    ghost predicate Grown()
      reads this
    {
      && sets == headersused
      && headersused + 1 <= headerslen
      && headerslen == DEFAULT_NHDRS * Pow2(doublings)
      && (headerslen == DEFAULT_NHDRS || headerslen <= 2 * headersused)
      && copied == headerslen - DEFAULT_NHDRS
      && (sets > 0 ==> copied < 2 * sets)
    }

    ghost predicate Owns()
      reads this, heap
      requires headersused <= |headers|
    {
      block in owned && Own(Slots(), owned - {block}) && owned <= heap.live
    }

    ghost predicate Valid()
      reads this, heap
    {
      && heap.Valid()
      && |headers| == headerslen
      && Grown()
      && Distinct(Contents())
      && Owns()
    }

    constructor (h: Heap)
      requires h.Valid()
      modifies h
      ensures heap == h && Valid()
      ensures Contents() == [] && headersused == 0 && headerslen == 8
      ensures h.live - owned == old(h.live)
    {
      heap := h;
      var b := h.Malloc();
      block := b;
      headers := seq(DEFAULT_NHDRS, _ => EMPTY_SLOT);
      headerslen, headersused := DEFAULT_NHDRS, 0;
      sets, copied, doublings := 0, 0, 0;
      owned := {b};
    }

    /** The slot with the key, or None for NULL. */
    method Get(key: string) returns (at: Option<nat>)
      requires Valid()
      ensures at.Some? ==> at.value < headersused && headers[at.value].Has(key)
                           && Lookup(Contents(), key) == Some(headers[at.value].value.text)
      ensures at.None? ==> Lookup(Contents(), key) == None
    {
      var i := 0;
      while headersused > i
        invariant i <= headersused
        invariant forall j | 0 <= j < i :: !headers[j].Has(key)
      {
        var tmp := headers[i];
        if tmp.Has(key) {
          LookupEntry(Slots(), i);
          return Some(i);
        }
        i := i + 1;
      }
      EntriesLack(Slots(), key);
      LookupLacks(Contents(), key);
      return None;
    }

    /** Returns -1 when there is no such key. Only the first match is cleared: keys are distinct. */
    method Remove(key: string) returns (ret: int)
      requires Valid()
      modifies this, heap
      ensures Valid() && headersused == old(headersused)
      ensures ret == if Lookup(old(Contents()), key).Some? then 0 else -1
      ensures Contents() == Without(old(Contents()), key)
      ensures heap.live - owned == old(heap.live - owned)
    {
      var at := Get(key);
      if at.None? {
        LookupLacks(Contents(), key);
        WithoutAbsent(Contents(), key);
        return -1;
      }
      Clear(at.value, key);
      return 0;
    }

    /** Frees the key and the value of a slot and leaves a tombstone. */
    method Clear(i: nat, ghost key: string)
      requires Valid() && i < headersused && headers[i].Has(key)
      modifies this`headers, this`owned, heap
      ensures Valid()
      ensures Contents() == Without(old(Contents()), key)
      ensures heap.live - owned == old(heap.live - owned)
    {
      hide Entries, Own, Distinct, Without, Pow2;
      ghost var slots := Slots();
      var tmp := headers[i];
      var cleared := tmp.(key := None);
      ClearSlot(slots, i, cleared, key);
      OwnClear(slots, owned - {block}, i, cleared);
      heap.Free(tmp.key.value.block);
      heap.Free(tmp.value.block);
      headers := headers[i := cleared];
      assert Slots() == slots[i := cleared];
      ghost var freed := {tmp.key.value.block, tmp.value.block};
      assert owned - freed - {block} == owned - {block} - freed;
      owned := owned - freed;
    }

    method Set(key: string, value: string) returns (ret: int)
      requires Valid()
      modifies this, heap
      ensures Valid() && headersused == old(headersused) + 1
      ensures ret == 0
      ensures Contents() == Put(old(Contents()), key, value)
      ensures heap.live - owned == old(heap.live - owned)
    {
      PutDistinct(Contents(), key, value);
      var _ := Remove(key);
      if headerslen <= headersused + 1 {
        Double();
      }
      Append(key, value);
      return 0;
    }

    /** Copies a key and a value into the next slot. */
    method Append(key: string, value: string)
      requires headersused < |headers| == headerslen
      requires heap.Valid() && Owns()
      modifies this`headers, this`headersused, this`sets, this`owned, heap
      ensures headersused == old(headersused) + 1 <= |headers| == old(|headers|) && sets == old(sets) + 1
      ensures heap.Valid() && Owns()
      ensures Contents() == old(Contents()) + [Header(key, value)]
      ensures heap.live - owned == old(heap.live - owned)
    {
      ghost var slots := Slots();
      var k := heap.Malloc();
      var v := heap.Malloc();
      var slot := Slot(Some(CStr(k, key)), CStr(v, value));
      headers := headers[headersused := slot];
      headersused, sets := headersused + 1, sets + 1;
      assert Slots() == slots + [slot];
      EntriesAppend(slots, slot);
      OwnAppend(slots, owned - {block}, slot);
      assert owned + {k, v} - {block} == owned - {block} + {k, v};
      owned := owned + {k, v};
    }

    /** realloc to twice the length. */
    method Double()
      requires Valid() && headerslen == headersused + 1
      modifies this, heap
      ensures |headers| == headerslen == 2 * old(headerslen)
      ensures headersused == old(headersused) && sets == old(sets)
      ensures heap.Valid() && Owns()
      ensures headerslen == DEFAULT_NHDRS * Pow2(doublings)
      ensures copied == headerslen - DEFAULT_NHDRS
      ensures Slots() == old(Slots())
      ensures heap.live - owned == old(heap.live - owned)
    {
      copied, doublings := copied + headerslen, doublings + 1;
      headers := headers + seq(headerslen, _ => EMPTY_SLOT);
      headerslen := headerslen * 2;
      ghost var stale := block;
      block := heap.Realloc(block);
      assert owned - {stale} + {block} - {block} == owned - {stale};
      owned := owned - {stale} + {block};
      assert Slots() == old(Slots());
    }

    /** ParsedHeader_parse at cursor `c`: -1 when no colon follows. Key and value pass through blocks of
        their own. */
    method ParseHeader(t: string, c: nat) returns (ret: int)
      requires Valid() && c <= |t| && HeaderAt(t, c) != Wild
      modifies this, heap
      ensures Valid() && heap.live - owned == old(heap.live - owned)
      ensures match HeaderAt(t, c)
              case NoColon => ret == -1 && Contents() == old(Contents())
              case Pair(h) => ret == 0 && Contents() == Put(old(Contents()), h.key, h.value)
    {
      hide Own, Entries, Distinct, FindCrlf, FindColon, Put;
      var index1 := FindColon(t, c);
      if index1 == |t| { return -1; }
      var key := heap.Malloc();
      var keyText := t[c..index1];
      index1 := index1 + 2;
      var index2 := FindCrlf(t, index1);
      var value := heap.Malloc();
      ghost var others := heap.live - owned;
      ret := Set(keyText, t[index1..index2]);
      assert others == old(heap.live - owned) + {key, value};
      heap.Free(key);
      heap.Free(value);
      assert heap.live - owned == others - {key, value};
    }

    /** The header loop from cursor `c`; `visited` are the values of the cursor. */
    method ParseHeaders(t: string, c: nat) returns (ret: int, ghost visited: seq<nat>)
      requires Valid() && c <= |t| && Loop(t, c, Contents()) != Undefined
      modifies this, heap
      ensures Valid() && heap.live - owned == old(heap.live - owned)
      ensures Loop(t, c, old(Contents())) == Done(ret == 0, Contents())
      ensures ret == 0 || ret == -1
      ensures visited == Visits(t, c)
    {
      hide Own, Entries, Distinct, FindCrlf, FindColon, Put, HeaderAt;
      var currentHeader := c;
      visited := [];
      while currentHeader < |t| && !CrlfAt(t, currentHeader)
        invariant currentHeader <= |t| && Valid() && heap.live - owned == old(heap.live - owned)
        invariant Loop(t, currentHeader, Contents()) == old(Loop(t, c, Contents()))
        invariant visited + Visits(t, currentHeader) == Visits(t, c)
        decreases |t| - currentHeader
      {
        ghost var here := currentHeader;
        ret := ParseHeader(t, currentHeader);
        if ret != 0 { return -1, visited + [here]; }
        currentHeader := FindCrlf(t, currentHeader);
        if currentHeader == |t| { return 0, visited + [here]; }
        currentHeader := currentHeader + 2;
        JoinRegroups(visited, [here], Visits(t, currentHeader));
        visited := visited + [here];
      }
      return 0, visited + [currentHeader];
    }

    /** The length of the printed headers, summed in an int as the code does. */
    method HeadersLen() returns (size: nat)
      requires Valid()
      ensures size == Measured(|HeaderBlock(Contents())|)
    {
      hide Own, Entries, Distinct, HeaderText, ToInt32;
      assert ToInt32(0) == 0 && HeaderText(Entries(headers[..0])) == "" by { ZeroText(headers); }
      var i, len := 0, 0;
      while headersused > i
        invariant i <= headersused && len == ToInt32(|HeaderText(Entries(headers[..i]))|)
      {
        PrefixText(headers[..i], headers[i]);
        assert headers[..i + 1] == headers[..i] + [headers[i]];
        Int32Sum(|HeaderText(Entries(headers[..i]))|, LineLen(headers[i]));
        len := ToInt32(len + LineLen(headers[i]));
        i := i + 1;
      }
      Int32Sum(|HeaderText(Contents())|, 2);
      return ToSize(ToInt32(len + 2));
    }

    /** Prints the headers at `out + at`, where `len` bytes are available. When the sum wraps so far that the
        block passes for shorter than it is, the code writes behind them. */
    method PrintHeaders(out: array<char>, at: nat, len: nat) returns (ret: int)
      requires Valid() && at + len <= out.Length
      requires Measured(|HeaderBlock(Contents())|) <= len ==> |HeaderBlock(Contents())| <= len
      modifies out
      ensures ret == if len < Measured(|HeaderBlock(Contents())|) then -1 else 0
      ensures ret == -1 ==> out[..] == old(out[..])
      ensures ret == 0 ==> out[..at + |HeaderBlock(Contents())|] == old(out[..at]) + HeaderBlock(Contents())
                           && forall i | at + |HeaderBlock(Contents())| <= i < out.Length :: out[i] == old(out[i])
    {
      hide Own, Entries, Distinct, HeaderText, Measured;
      var needed := HeadersLen();
      if len < needed { return -1; }
      ghost var front := out[..at];
      var current := PrintLines(out, at);
      Emit(out, current, CRLF);
      JoinRegroups(front, HeaderText(Contents()), CRLF);
      return 0;
    }

    /** The loop over the slots: tombstones print nothing. */
    method PrintLines(out: array<char>, at: nat) returns (current: nat)
      requires Valid() && at + |HeaderText(Contents())| <= out.Length
      modifies out
      ensures current == at + |HeaderText(Contents())|
      ensures out[..current] == old(out[..at]) + HeaderText(Contents())
      ensures forall i | current <= i < out.Length :: out[i] == old(out[i])
    {
      hide Own, Entries, Distinct, HeaderText, HeaderLine, ToInt32;
      ZeroText(headers);
      var i := 0;
      current := at;
      ghost var front := out[..at];
      while headersused > i
        invariant i <= headersused
        invariant current == at + |HeaderText(Entries(headers[..i]))| <= out.Length
        invariant out[..current] == front + HeaderText(Entries(headers[..i]))
        invariant forall j | current <= j < out.Length :: out[j] == old(out[j])
      {
        var ph := headers[i];
        NextSlot(i);
        if ph.key.Some? {
          JoinRegroups(front, HeaderText(Entries(headers[..i])), HeaderLine(Header(ph.key.value.text, ph.value.text)));
          current := EmitHeader(out, current, ph.key.value.text, ph.value.text);
        } else {
          assert HeaderText(Entries(headers[..i])) + "" == HeaderText(Entries(headers[..i]));
        }
        i := i + 1;
      }
    }

    lemma {:induction false} NextSlot(i: nat)
      requires i < headersused <= |headers|
      ensures var ph, before := headers[i], HeaderText(Entries(headers[..i]));
              && HeaderText(Entries(headers[..i + 1]))
                 == before + (if ph.key.Some? then HeaderLine(Header(ph.key.value.text, ph.value.text)) else "")
              && |before| + LineLen(ph) <= |HeaderText(Contents())|
    {
      PrefixText(headers[..i], headers[i]);
      assert headers[..i + 1] == headers[..i] + [headers[i]];
      TextGrows(Slots(), i + 1);
      assert headers[..headersused][..i + 1] == headers[..i + 1];
    }

    /** Releases every live header and the array. */
    method Destroy()
      requires Valid()
      modifies this, heap
      ensures heap.Valid()
      ensures heap.live == old(heap.live - owned)
    {
      var i := 0;
      while headersused > i
        invariant i <= headersused <= |headers| && headersused == old(headersused)
        invariant heap.Valid() && Owns() && heap.live - owned == old(heap.live - owned)
        invariant forall j | 0 <= j < i :: headers[j].key.None?
      {
        DestroyOne(i);
        i := i + 1;
      }
      OwnNothing(Slots(), owned - {block});
      headersused := 0;
      heap.Free(block);
      headerslen := 0;
    }

    method DestroyOne(i: nat)
      requires i < headersused <= |headers| && heap.Valid() && Owns()
      modifies this`headers, this`owned, heap
      ensures |headers| == old(|headers|)
      ensures heap.Valid() && Owns() && heap.live - owned == old(heap.live - owned)
      ensures headers[i].key.None?
      ensures forall j | 0 <= j < |headers| && j != i :: headers[j] == old(headers[j])
    {
      var ph := headers[i];
      if ph.key.Some? {
        ghost var slots, freed := Slots(), {ph.key.value.block, ph.value.block};
        OwnClear(slots, owned - {block}, i, EMPTY_SLOT);
        heap.Free(ph.key.value.block);
        heap.Free(ph.value.block);
        headers := headers[i := EMPTY_SLOT];
        assert Slots() == slots[i := EMPTY_SLOT];
        assert owned - freed - {block} == owned - {block} - freed;
        owned := owned - freed;
      }
    }
  }

  /** With distinct keys, the first slot of a key holds the value the map holds. */
  lemma {:induction false} LookupEntry(slots: seq<Slot>, i: nat)
    requires Distinct(Entries(slots)) && i < |slots| && slots[i].key.Some?
    ensures Lookup(Entries(slots), slots[i].key.value.text) == Some(slots[i].value.text)
  {
    var hs, h := Entries(slots), Header(slots[i].key.value.text, slots[i].value.text);
    EntryIn(slots, i);
    var k :| 0 <= k < |hs| && hs[k] == h;
    LookupAt(hs, k);
  }

  lemma {:induction false} LookupAt(hs: seq<Header>, k: nat)
    requires Distinct(hs) && k < |hs|
    ensures Lookup(hs, hs[k].key) == Some(hs[k].value)
  {
    if k < |hs| - 1 { LookupAt(hs[..|hs| - 1], k); }
  }
}
