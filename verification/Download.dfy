/** A file sent in chunks by the server and saved by the client, which takes a short read for the end. */
module Download {
  import opened CStrings

  type byte = bv8

  function Concat(pieces: seq<seq<byte>>): seq<byte> {
    if pieces == [] then [] else pieces[0] + Concat(pieces[1..])
  }

  /** Pieces of at most the given size, none of them empty. */
  predicate Pieces(pieces: seq<seq<byte>>, size: nat) {
    forall p <- pieces :: 0 < |p| <= size
  }

  /** All of them are full but perhaps the last. */
  predicate Framed(pieces: seq<seq<byte>>, size: nat) {
    Pieces(pieces, size) && forall i | 0 <= i < |pieces| - 1 :: |pieces[i]| == size
  }

  predicate AllFull(pieces: seq<seq<byte>>, size: nat) { forall p <- pieces :: |p| == size }

  // ---------- The server ----------

  method Fread(file: seq<byte>, at: nat, buf: array<byte>) returns (n: nat)
    requires at <= |file|
    modifies buf
    ensures n == if at + buf.Length <= |file| then buf.Length else |file| - at
    ensures buf[..n] == file[at..at + n]
  {
    n := if at + buf.Length <= |file| then buf.Length else |file| - at;
    forall i | 0 <= i < n { buf[i] := file[at + i]; }
  }

  /** The send loop: what is sent is the file, in full buffers up to the last. */
  method SendFile(file: seq<byte>, buf: array<byte>) returns (sends: seq<seq<byte>>)
    requires buf.Length > 0
    modifies buf
    ensures Concat(sends) == file && Framed(sends, buf.Length)
  {
    hide Concat, Framed, AllFull;
    sends := [];
    NoPieces(buf.Length);
    var at: nat := 0;
    var fileread: nat := Fread(file, at, buf);
    while fileread > 0
      invariant at + fileread <= |file| && fileread <= buf.Length
      invariant fileread < buf.Length ==> at + fileread == |file|
      invariant buf[..fileread] == file[at..at + fileread]
      invariant Concat(sends) == file[..at] && Framed(sends, buf.Length)
      invariant fileread > 0 ==> AllFull(sends, buf.Length)
      decreases |file| - at
    {
      Extend(sends, buf[..fileread], buf.Length);
      assert file[..at + fileread] == file[..at] + file[at..at + fileread];
      sends := sends + [buf[..fileread]];
      at := at + fileread;
      fileread := Fread(file, at, buf);
    }
    assert file[..at] == file;
  }

  lemma {:induction false} NoPieces(size: nat)
    ensures AllFull([], size) && Framed([], size) && Concat([]) == []
  {
  }

  lemma {:induction false} Extend(pieces: seq<seq<byte>>, piece: seq<byte>, size: nat)
    requires AllFull(pieces, size) && 0 < |piece| <= size
    ensures Framed(pieces + [piece], size) && Concat(pieces + [piece]) == Concat(pieces) + piece
    ensures |piece| == size ==> AllFull(pieces + [piece], size)
  {
    ConcatJoins(pieces, [piece]);
    assert Concat([piece]) == piece;
  }

  // ---------- The client ----------

  /** What the client has written after these reads: all of them up to and including the first short one. */
  function Saved(arrivals: seq<seq<byte>>, size: nat): seq<byte> {
    if arrivals == [] then []
    else if |arrivals[0]| == size then arrivals[0] + Saved(arrivals[1..], size)
    else arrivals[0]
  }

  /** Whether it has stopped reading. */
  predicate Finished(arrivals: seq<seq<byte>>, size: nat) {
    exists a <- arrivals :: |a| != size
  }

  method Receive(arrival: seq<byte>, buf: array<byte>) returns (received: nat)
    requires |arrival| <= buf.Length
    modifies buf
    ensures received == |arrival| && buf[..received] == arrival
  {
    received := |arrival|;
    forall i | 0 <= i < received { buf[i] := arrival[i]; }
  }

  /** The receive loop; waiting means that it is still asking for more when the reads run out. */
  method SaveFile(arrivals: seq<seq<byte>>, buf: array<byte>) returns (file: seq<byte>, waiting: bool)
    requires buf.Length > 0 && forall a <- arrivals :: |a| <= buf.Length
    modifies buf
    ensures file == Saved(arrivals, buf.Length)
    ensures waiting <==> !Finished(arrivals, buf.Length)
  {
    hide Saved, Finished;
    file := [];
    assert arrivals[0..] == arrivals;
    OneRead(arrivals, 0, buf.Length);
    if arrivals == [] { return file, true; }
    var next: nat := 1;
    var received: nat := Receive(arrivals[0], buf);
    while received == buf.Length
      invariant 0 < next <= |arrivals| && received == |arrivals[next - 1]| && buf[..received] == arrivals[next - 1]
      invariant Saved(arrivals, buf.Length) == file + Saved(arrivals[next - 1..], buf.Length)
      invariant Finished(arrivals, buf.Length) <==> Finished(arrivals[next - 1..], buf.Length)
      decreases |arrivals| - next
    {
      SaveOne(file, arrivals, next - 1, buf.Length);
      OneRead(arrivals, next, buf.Length);
      file := file + buf[..received];
      if next == |arrivals| { return file, true; }
      received := Receive(arrivals[next], buf);
      next := next + 1;
    }
    OneRead(arrivals, next - 1, buf.Length);
    file := file + buf[..received];
    waiting := false;
  }

  /** A full read moves from what is still to be saved to what is saved. */
  lemma {:induction false} SaveOne(file: seq<byte>, arrivals: seq<seq<byte>>, k: nat, size: nat)
    requires k < |arrivals| && |arrivals[k]| == size
    ensures file + Saved(arrivals[k..], size) == (file + arrivals[k]) + Saved(arrivals[k + 1..], size)
    ensures Finished(arrivals[k..], size) <==> Finished(arrivals[k + 1..], size)
  {
    hide Saved, Finished;
    OneRead(arrivals, k, size);
    JoinRegroups(file, arrivals[k], Saved(arrivals[k + 1..], size));
  }

  lemma {:induction false} OneRead(arrivals: seq<seq<byte>>, k: nat, size: nat)
    requires k <= |arrivals|
    ensures Saved(arrivals[k..], size) == if k == |arrivals| then []
                                          else if |arrivals[k]| == size then arrivals[k] + Saved(arrivals[k + 1..], size)
                                          else arrivals[k]
    ensures Finished(arrivals[k..], size) <==>
            k < |arrivals| && (|arrivals[k]| != size || Finished(arrivals[k + 1..], size))
  {
    if k < |arrivals| {
      assert arrivals[k..][1..] == arrivals[k + 1..];
      assert arrivals[k..] == [arrivals[k]] + arrivals[k + 1..];
    }
  }

  // ---------- When the copy is right ----------

  lemma {:induction false} ConcatJoins(a: seq<seq<byte>>, b: seq<seq<byte>>)
    ensures Concat(a + b) == Concat(a) + Concat(b)
  {
    if a == [] {
      assert a + b == b;
    } else {
      ConcatJoins(a[1..], b);
      assert (a + b)[1..] == a[1..] + b && (a + b)[0] == a[0];
      JoinRegroups(a[0], Concat(a[1..]), Concat(b));
    }
  }

  /** There is one way to cut a file into full pieces and a rest. */
  lemma {:induction false} FramingIsUnique(a: seq<seq<byte>>, b: seq<seq<byte>>, size: nat)
    requires Framed(a, size) && Framed(b, size) && Concat(a) == Concat(b)
    ensures a == b
  {
    if a != [] && b != [] {
      assert |a| > 1 ==> |a[0]| == size;
      assert |b| > 1 ==> |b[0]| == size;
      assert |a| == 1 ==> Concat(a[1..]) == [];
      assert |b| == 1 ==> Concat(b[1..]) == [];
      assert Concat(a)[..|a[0]|] == a[0] && Concat(a)[|a[0]|..] == Concat(a[1..]);
      assert Concat(b)[..|b[0]|] == b[0] && Concat(b)[|b[0]|..] == Concat(b[1..]);
      assert |a[0]| == |b[0]|;
      FramingIsUnique(a[1..], b[1..], size);
    }
  }

  predicate Divides(size: nat, n: nat)
    requires size > 0
  {
    n % size == 0
  }

  /** The last piece is full exactly when the chunk size divides the length of the file. */
  lemma {:induction false} RestIsRemainder(pieces: seq<seq<byte>>, size: nat)
    requires size > 0 && Framed(pieces, size)
    ensures Divides(size, |Concat(pieces)|) <==> !Finished(pieces, size)
  {
    hide Finished, Divides;
    OneRead(pieces, 0, size);
    assert pieces[0..] == pieces;
    if pieces == [] {
      Small(0, size);
    } else if |pieces[0]| != size {
      assert pieces[1..] == [];
      assert Concat(pieces) == pieces[0];
      Small(|pieces[0]|, size);
    } else {
      FirstIsFull(pieces, size);
      RestIsRemainder(pieces[1..], size);
      OneMore(|Concat(pieces[1..])|, size);
    }
  }

  lemma {:induction false} Small(n: nat, size: nat)
    requires n < size
    ensures Divides(size, n) <==> n == 0
  {
  }

  lemma {:induction false} OneMore(n: nat, size: nat)
    requires size > 0
    ensures Divides(size, size + n) <==> Divides(size, n)
  {
    var q, p := (size + n) / size, n / size;
    var r, m := (size + n) % size, n % size;
    assert size * q + r == size + size * p + m;
    SameQuotient(q, 1 + p, r, m, size);
  }

  lemma {:induction false} SameQuotient(q: nat, p: nat, r: nat, m: nat, size: nat)
    requires r < size && m < size && size * q + r == size * p + m
    ensures r == m
  {
    assert size * (q - p) == m - r;
    if q > p { AtLeastOne(q - p, size); }
    if q < p { AtLeastOne(p - q, size); }
  }

  lemma {:induction false} AtLeastOne(k: nat, size: nat)
    requires k > 0
    ensures size * k >= size
  {
  }

  lemma {:induction false} FirstIsFull(pieces: seq<seq<byte>>, size: nat)
    requires pieces != [] && |pieces[0]| == size > 0
    ensures Framed(pieces, size) <==> Framed(pieces[1..], size)
  {
    var rest := pieces[1..];
    assert pieces == [pieces[0]] + rest;
    if Framed(rest, size) {
      assert forall i | 0 < i < |pieces| :: pieces[i] == rest[i - 1];
    }
    if Framed(pieces, size) {
      assert forall i | 0 <= i < |rest| :: rest[i] == pieces[i + 1];
    }
  }

  lemma {:induction false} SameFront(front: seq<byte>, a: seq<byte>, b: seq<byte>)
    ensures front + a == front + b <==> a == b
  {
    assert (front + a)[|front|..] == a && (front + b)[|front|..] == b;
  }

  /** When pieces bring a file and more reads follow, the client ends with exactly that file just in these cases. */
  lemma {:induction false} SavesAll(pieces: seq<seq<byte>>, more: seq<seq<byte>>, size: nat)
    requires size > 0 && Pieces(pieces, size)
    ensures Finished(pieces + more, size) && Saved(pieces + more, size) == Concat(pieces)
       <==> Framed(pieces, size) && (Finished(pieces, size) || (more != [] && more[0] == []))
  {
    hide Finished;
    var all := pieces + more;
    assert all[0..] == all && pieces[0..] == pieces;
    OneRead(all, 0, size);
    OneRead(pieces, 0, size);
    if pieces == [] {
      assert all == more;
    } else {
      assert all[1..] == pieces[1..] + more;
      if |pieces[0]| == size {
        FirstIsFull(pieces, size);
        SavesAll(pieces[1..], more, size);
        assert Saved(all, size) == Concat(pieces) <==> Saved(all[1..], size) == Concat(pieces[1..])
          by { SameFront(pieces[0], Saved(all[1..], size), Concat(pieces[1..])); }
      } else if |pieces| > 1 {
        assert Concat(pieces[1..]) == pieces[1] + Concat(pieces[2..]);
        assert |Saved(all, size)| < |Concat(pieces)|;
        assert !Framed(pieces, size);
      } else {
        assert Concat(pieces) == pieces[0];
      }
    }
  }

  /** The copy is complete exactly when every read returned one send and the end can be told: the chunk size does
      not divide the length of the file, or the next read is empty. */
  lemma {:induction false} CopyIsRight(file: seq<byte>, sends: seq<seq<byte>>, arrivals: seq<seq<byte>>,
                                       more: seq<seq<byte>>, size: nat)
    requires size > 0 && Concat(sends) == file && Framed(sends, size)
    requires Concat(arrivals) == file && Pieces(arrivals, size)
    ensures Finished(arrivals + more, size) && Saved(arrivals + more, size) == file
       <==> arrivals == sends && (|file| % size != 0 || (more != [] && more[0] == []))
  {
    SavesAll(arrivals, more, size);
    RestIsRemainder(sends, size);
    if Framed(arrivals, size) { FramingIsUnique(arrivals, sends, size); }
  }
}
