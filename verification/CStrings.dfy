/** The C library functions the request parser calls, over text whose end a NUL byte marks.
    A pointer into a buffer is an index. A search that would return NULL returns the end of the text. */
module CStrings {

  const NUL: char := '\0'
  const CRLF: string := "\r\n"

  datatype Option<+T> = None | Some(value: T)

  /** The half-open range `lo..hi` of a token inside a line. */
  datatype Span = Span(lo: nat, hi: nat) {
    predicate Within(p: nat, e: nat) { p <= lo <= hi <= e }
    predicate Empty() { lo >= hi }
  }

  lemma {:induction false} JoinRegroups<T>(a: seq<T>, b: seq<T>, c: seq<T>)
    ensures (a + b) + c == a + (b + c)
  {
  }

  lemma {:induction false} SliceOfSlice<T>(s: seq<T>, lo: nat, hi: nat, a: nat, b: nat)
    requires lo <= hi <= |s| && a <= b <= hi - lo
    ensures s[lo..hi][a..b] == s[lo + a..lo + b]
  {
    var m := s[lo..hi];
    assert forall i | 0 <= i < b - a :: m[a..b][i] == m[a + i] && m[a + i] == s[lo + (a + i)];
  }

  lemma {:induction false} SliceOfTail<T>(s: seq<T>, c: nat, a: nat, b: nat)
    requires c <= |s| && a <= b <= |s| - c
    ensures s[c..][a..b] == s[c + a..c + b]
  {
    assert s[c..] == s[c..|s|];
    SliceOfSlice(s, c, |s|, a, b);
  }

  lemma {:induction false} DropFront<T>(a: seq<T>, b: seq<T>, n: nat)
    requires n <= |a|
    ensures (a + b)[n..] == a[n..] + b
  {
  }

  lemma {:induction false} ToTheEnd(s: string, lo: nat)
    requires lo <= |s|
    ensures s[lo..|s|] == s[lo..]
  {
  }

  // ---------- Searching ----------

  /** strspn: the first index from `p` whose character is not in `d`, or `e`. */
  function Skip(s: string, p: nat, e: nat, d: set<char>): (r: nat)
    requires p <= e <= |s|
    ensures p <= r <= e
    decreases e - p
  {
    if p < e && s[p] in d then Skip(s, p + 1, e, d) else p
  }

  /** strcspn: the first index from `p` whose character is in `d`, or `e`. */
  function Scan(s: string, p: nat, e: nat, d: set<char>): (r: nat)
    requires p <= e <= |s|
    ensures p <= r <= e
    decreases e - p
  {
    if p < e && s[p] !in d then Scan(s, p + 1, e, d) else p
  }

  lemma {:induction false} SkipStops(s: string, p: nat, e: nat, d: set<char>)
    requires p <= e <= |s|
    ensures var r := Skip(s, p, e, d); (forall i | p <= i < r :: s[i] in d) && (r < e ==> s[r] !in d)
    decreases e - p
  {
    if p < e && s[p] in d { SkipStops(s, p + 1, e, d); }
  }

  lemma {:induction false} ScanStops(s: string, p: nat, e: nat, d: set<char>)
    requires p <= e <= |s|
    ensures var r := Scan(s, p, e, d); (forall i | p <= i < r :: s[i] !in d) && (r < e ==> s[r] in d)
    decreases e - p
  {
    if p < e && s[p] !in d { ScanStops(s, p + 1, e, d); }
  }

  /** strlen, as the index of the NUL that ends the text at `p`. */
  function StrEnd(s: string, p: nat): (r: nat)
    requires p <= |s|
    ensures p <= r <= |s|
  {
    Scan(s, p, |s|, {NUL})
  }

  /** The text a pointer denotes: everything before the next NUL. */
  function Str(s: string, p: nat): string
    requires p <= |s|
  {
    s[p..StrEnd(s, p)]
  }

  lemma {:induction false} StrIsNulFree(s: string, p: nat)
    requires p <= |s|
    ensures NUL !in Str(s, p)
  {
    ScanStops(s, p, |s|, {NUL});
  }

  predicate CrlfAt(s: string, i: nat) { i + 1 < |s| && s[i] == '\r' && s[i + 1] == '\n' }

  predicate BlankAt(s: string, i: nat) { CrlfAt(s, i) && CrlfAt(s, i + 2) }

  /** strstr(s + p, "\r\n") */
  function FindCrlf(s: string, p: nat): (r: nat)
    requires p <= |s|
    ensures p <= r <= |s| && (r < |s| ==> CrlfAt(s, r))
    decreases |s| - p
  {
    if p == |s| || CrlfAt(s, p) then p else FindCrlf(s, p + 1)
  }

  /** strstr(s + p, "\r\n\r\n") */
  function FindBlank(s: string, p: nat): (r: nat)
    requires p <= |s|
    ensures p <= r <= |s| && (r < |s| ==> BlankAt(s, r))
    decreases |s| - p
  {
    if p == |s| || BlankAt(s, p) then p else FindBlank(s, p + 1)
  }

  lemma {:induction false} FindCrlfIsFirst(s: string, p: nat)
    requires p <= |s|
    ensures forall i | p <= i < FindCrlf(s, p) :: !CrlfAt(s, i)
    decreases |s| - p
  {
    if p < |s| && !CrlfAt(s, p) { FindCrlfIsFirst(s, p + 1); }
  }

  lemma {:induction false} FindBlankIsFirst(s: string, p: nat)
    requires p <= |s|
    ensures forall i | p <= i < FindBlank(s, p) :: !BlankAt(s, i)
    decreases |s| - p
  {
    if p < |s| && !BlankAt(s, p) { FindBlankIsFirst(s, p + 1); }
  }

  /** The first CRLF, recognised. */
  lemma {:induction false} FirstCrlf(s: string, p: nat, r: nat)
    requires p <= r <= |s| && CrlfAt(s, r) && forall i | p <= i < r :: !CrlfAt(s, i)
    ensures FindCrlf(s, p) == r
  {
    FindCrlfIsFirst(s, p);
  }

  /** A line end inside a slice is the first of the slice when it is the first of the text. */
  lemma {:induction false} FirstInSlice(t: string, lo: nat, hi: nat)
    requires lo <= hi <= |t|
    ensures FindCrlf(t[lo..hi], 0) < hi - lo <==> FindCrlf(t, lo) + 2 <= hi
    ensures FindCrlf(t, lo) + 2 <= hi ==> FindCrlf(t[lo..hi], 0) == FindCrlf(t, lo) - lo
  {
    var s, e := t[lo..hi], FindCrlf(t, lo);
    FindCrlfIsFirst(t, lo);
    FindCrlfIsFirst(s, 0);
    var k := FindCrlf(s, 0);
    assert k < |s| ==> CrlfAt(t, lo + k);
    assert e + 2 <= hi ==> CrlfAt(s, e - lo);
    assert k < e - lo ==> !CrlfAt(t, lo + k);
  }

  lemma {:induction false} FindCrlfShift(t: string, c: nat, p: nat)
    requires c + p <= |t|
    ensures FindCrlf(t, c + p) == c + FindCrlf(t[c..], p)
    decreases |t| - p
  {
    assert CrlfAt(t, c + p) == CrlfAt(t[c..], p);
    if c + p < |t| && !CrlfAt(t, c + p) { FindCrlfShift(t, c, p + 1); }
  }

  lemma {:induction false} ScanShift(t: string, c: nat, p: nat, d: set<char>)
    requires c + p <= |t|
    ensures Scan(t, c + p, |t|, d) == c + Scan(t[c..], p, |t| - c, d)
    decreases |t| - p
  {
    if c + p < |t| && t[c + p] !in d { ScanShift(t, c, p + 1, d); }
  }

  ghost predicate NoCrlf(s: string) { forall i: nat :: !CrlfAt(s, i) }

  /** Text without CRLF stays so when joined, unless the seam itself forms one. */
  lemma {:induction false} NoCrlfJoin(a: string, b: string)
    requires NoCrlf(a) && NoCrlf(b)
    requires a == "" || b == "" || a[|a| - 1] != '\r' || b[0] != '\n'
    ensures NoCrlf(a + b)
  {
    forall i: nat
      ensures !CrlfAt(a + b, i)
    {
      assert !CrlfAt(a, i);
      if i >= |a| { assert !CrlfAt(b, i - |a|); }
    }
  }

  lemma {:induction false} NoCrlfSlice(s: string, lo: nat, hi: nat)
    requires lo <= hi <= |s| && NoCrlf(s)
    ensures NoCrlf(s[lo..hi])
  {
    forall i: nat
      ensures !CrlfAt(s[lo..hi], i)
    {
      assert !CrlfAt(s, lo + i);
    }
  }

  // ---------- Tokens ----------

  /** The token strtok_r finds in `s[p..e]`: leading delimiters skipped, up to the next delimiter.
      Empty at `e` when only delimiters are left. */
  function Token(s: string, p: nat, e: nat, d: set<char>): (t: Span)
    requires p <= e <= |s|
    ensures t.Within(p, e)
  {
    var lo := Skip(s, p, e, d);
    Span(lo, Scan(s, lo, e, d))
  }

  lemma {:induction false} TokenStops(s: string, p: nat, e: nat, d: set<char>)
    requires p <= e <= |s|
    ensures var t := Token(s, p, e, d);
            && (forall i | p <= i < t.lo :: s[i] in d) && (forall i | t.lo <= i < t.hi :: s[i] !in d)
            && (t.hi < e ==> s[t.hi] in d) && (t.Empty() ==> t.lo == e)
  {
    SkipStops(s, p, e, d);
    ScanStops(s, Skip(s, p, e, d), e, d);
  }

  lemma {:induction false} TokenStarts(s: string, p: nat, e: nat, d: set<char>, lo: nat)
    requires p <= lo < e <= |s| && s[lo] !in d && forall i | p <= i < lo :: s[i] in d
    ensures Token(s, p, e, d).lo == lo
  {
    SkipStops(s, p, e, d);
  }

  /** Where the next call continues: behind the delimiter that ended the token, or at the end. */
  function After(t: Span, e: nat): (p: nat)
    requires t.hi <= e
    ensures t.hi <= p <= e
  {
    if t.hi < e then t.hi + 1 else e
  }

  lemma {:induction false} TokenIs(s: string, p: nat, e: nat, d: set<char>, lo: nat, hi: nat)
    requires p <= lo < hi <= e <= |s|
    requires forall i | p <= i < lo :: s[i] in d
    requires forall i | lo <= i < hi :: s[i] !in d
    requires hi == e || s[hi] in d
    ensures Token(s, p, e, d) == Span(lo, hi)
  {
    var t := Token(s, p, e, d);
    TokenStops(s, p, e, d);
    assert s[lo] !in d;
    assert t.lo == lo;
    assert t.hi < e ==> s[t.hi] in d;
  }

  /** `line` with its terminating NUL, and a NUL written over each position in `cuts`.
      A token that reaches the end of its text is cut there too: that byte is a NUL already. */
  function Cut(line: string, cuts: set<nat>): (s: string)
    ensures |s| == |line| + 1
  {
    seq(|line| + 1, i requires 0 <= i <= |line| => if i == |line| || i in cuts then NUL else line[i])
  }

  /** A pointer to the start of an uncut range that ends at a cut denotes exactly that range. */
  lemma {:induction false} StrOfCut(line: string, cuts: set<nat>, lo: nat, hi: nat)
    requires NUL !in line && lo <= hi <= |line|
    requires forall i | lo <= i < hi :: i !in cuts
    requires hi == |line| || hi in cuts
    ensures StrEnd(Cut(line, cuts), lo) == hi
    ensures Str(Cut(line, cuts), lo) == line[lo..hi]
  {
    var s := Cut(line, cuts);
    var e := StrEnd(s, lo);
    ScanStops(s, lo, |s|, {NUL});
    assert s[hi] == NUL;
    assert forall i | lo <= i < hi :: s[i] == line[i] && line[i] in line;
  }

  /** strtok_r. `p` is the string argument, or the saved pointer when that is NULL. */
  method StrtokR(a: array<char>, p: nat, d: set<char>, ghost line: string, ghost cuts: set<nat>, ghost e: nat)
    returns (token: Option<nat>, save: nat)
    requires NUL !in line && NUL !in d
    requires a[..] == Cut(line, cuts)
    requires p <= e <= |line| && (e == |line| || e in cuts)
    requires forall i | p <= i < e :: i !in cuts
    modifies a
    ensures var t := Token(line, p, e, d);
            && token == (if t.Empty() then None else Some(t.lo))
            && save == After(t, e)
            && a[..] == Cut(line, cuts + {t.hi})
  {
    StrOfCut(line, cuts, p, e);
    ghost var s := a[..];
    var end := StrEnd(a[..], p);
    var start := Skip(a[..], p, end, d);
    assert forall i | p <= i < e :: s[i] == line[i];
    SameTokens(s, line, p, e, d);
    TokenStops(line, p, e, d);
    if start == end {
      token, save := None, start;
    } else {
      var stop := Scan(a[..], start, end, d);
      if stop == end {
        token, save := Some(start), stop;
      } else {
        a[stop] := NUL;
        token, save := Some(start), stop + 1;
      }
    }
  }

  lemma {:induction false} SameTokens(s: string, t: string, p: nat, e: nat, d: set<char>)
    requires p <= e <= |s| && e <= |t|
    requires forall i | p <= i < e :: s[i] == t[i]
    ensures Skip(s, p, e, d) == Skip(t, p, e, d)
    ensures Token(s, p, e, d) == Token(t, p, e, d)
  {
    SkipStops(s, p, e, d);
    SkipStops(t, p, e, d);
    var a, b := Skip(s, p, e, d), Skip(t, p, e, d);
    assert a < e ==> s[a] == t[a];
    assert b < e ==> s[b] == t[b];
    ScanStops(s, a, e, d);
    ScanStops(t, a, e, d);
    var x, y := Scan(s, a, e, d), Scan(t, a, e, d);
    assert x < e ==> s[x] == t[x];
    assert y < e ==> s[y] == t[y];
  }

  /** memcpy of `s` to `out + p`. */
  method Emit(out: array<char>, p: nat, s: string)
    requires p + |s| <= out.Length
    modifies out
    ensures out[..p + |s|] == old(out[..p]) + s
    ensures forall i | p + |s| <= i < out.Length :: out[i] == old(out[i])
  {
    forall i | 0 <= i < |s| {
      out[p + i] := s[i];
    }
  }
}
