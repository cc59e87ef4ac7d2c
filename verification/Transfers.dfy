/**
 Memory transfers: a list of moves, carried out in order.

 Every loop of the driver that copies rectangles, scan lines or pixels has one form: three nested loops (z outermost,
 x innermost) around one memmove between two computed offsets.
 */
module Transfers {
  import opened Boxes

  newtype byte = b: int | 0 <= b < 256

  /** One memmove of n bytes from offset s to offset d. */
  datatype Move = Move(d: nat, s: nat, n: nat)

  predicate Fits(m: Move, dstLength: nat, srcLength: nat) {
    m.d + m.n <= dstLength && m.s + m.n <= srcLength
  }

  predicate AllFit(moves: seq<Move>, dstLength: nat, srcLength: nat) {
    forall k :: 0 <= k < |moves| ==> Fits(moves[k], dstLength, srcLength)
  }

  /** The ranges [a, a + n) and [b, b + m) share no byte. */
  predicate Apart(a: int, n: nat, b: int, m: nat) {
    a + n <= b || b + m <= a
  }

  /** No two moves write a common byte. */
  predicate Separate(moves: seq<Move>) {
    forall j, k :: 0 <= j < k < |moves| ==> Apart(moves[j].d, moves[j].n, moves[k].d, moves[k].n)
  }

  /** Move m does not change what is read later from this place, or moves its bytes to where they are anyway. */
  predicate LeavesIntact(m: Move, later: Move) {
    Apart(later.s, later.n, m.d, m.n) || m.s == m.d
  }

  /** No move reads a byte that an earlier move changes. */
  predicate ReadsIntact(moves: seq<Move>) {
    forall j, k :: 0 <= k < j < |moves| ==> LeavesIntact(moves[k], moves[j])
  }

  /** Some move writes byte a. */
  predicate Writes(moves: seq<Move>, a: int) {
    exists k :: 0 <= k < |moves| && moves[k].d <= a < moves[k].d + moves[k].n
  }

  /** Where the bytes come from: the memory being written, or a different one. */
  datatype Source = Same | Other(bytes: seq<byte>)
  {
    function Bytes(current: seq<byte>): seq<byte> {
      if Same? then current else bytes
    }
  }

  /** The effect of one memmove. */
  function Copy(mem: seq<byte>, from: seq<byte>, m: Move): (r: seq<byte>)
    requires Fits(m, |mem|, |from|)
    ensures |r| == |mem|
  {
    mem[..m.d] + from[m.s..m.s + m.n] + mem[m.d + m.n..]
  }

  /** The effect of the first n moves, one after the other. */
  function RunTo(mem: seq<byte>, from: Source, moves: seq<Move>, n: nat): (r: seq<byte>)
    requires AllFit(moves, |mem|, |from.Bytes(mem)|) && n <= |moves|
    ensures |r| == |mem|
  {
    if n == 0 then mem
    else
      var current := RunTo(mem, from, moves, n - 1);
      Copy(current, from.Bytes(current), moves[n - 1])
  }

  /** The effect of all moves. */
  function Run(mem: seq<byte>, from: Source, moves: seq<Move>): (r: seq<byte>)
    requires AllFit(moves, |mem|, |from.Bytes(mem)|)
    ensures |r| == |mem|
  {
    RunTo(mem, from, moves, |moves|)
  }

  lemma {:induction false} RunToSame(mem: seq<byte>, from: Source, a: seq<Move>, b: seq<Move>, n: nat)
    requires AllFit(a, |mem|, |from.Bytes(mem)|) && AllFit(b, |mem|, |from.Bytes(mem)|) && n <= |a| && n <= |b|
    requires forall k :: 0 <= k < n ==> a[k] == b[k]
    ensures RunTo(mem, from, a, n) == RunTo(mem, from, b, n)
  {
    hide Copy;
    if n > 0 {
      RunToSame(mem, from, a, b, n - 1);
    }
  }

  lemma RunSnoc(mem: seq<byte>, from: Source, moves: seq<Move>, m: Move)
    requires AllFit(moves, |mem|, |from.Bytes(mem)|) && Fits(m, |mem|, |from.Bytes(mem)|)
    ensures AllFit(moves + [m], |mem|, |from.Bytes(mem)|)
    ensures var current := Run(mem, from, moves);
      Run(mem, from, moves + [m]) == Copy(current, from.Bytes(current), m)
  {
    RunToSame(mem, from, moves, moves + [m], |moves|);
  }

  /** The destination of m holds the bytes of its source. */
  predicate Moved(after: seq<byte>, from: seq<byte>, m: Move)
    requires Fits(m, |after|, |from|)
  {
    after[m.d..m.d + m.n] == from[m.s..m.s + m.n]
  }

  /** What a simultaneous copy does: every destination holds its source bytes, everything else is as before. */
  predicate Transferred(before: seq<byte>, after: seq<byte>, from: seq<byte>, moves: seq<Move>)
    requires AllFit(moves, |before|, |from|)
  {
    && |after| == |before|
    && (forall k :: 0 <= k < |moves| ==> Moved(after, from, moves[k]))
    && (forall a :: 0 <= a < |after| && !Writes(moves, a) ==> after[a] == before[a])
  }

  /** Into a second memory, separate moves do what a simultaneous copy does. */
  lemma {:induction false} RunTransfers(mem: seq<byte>, bytes: seq<byte>, moves: seq<Move>)
    requires AllFit(moves, |mem|, |bytes|) && Separate(moves)
    ensures Transferred(mem, Run(mem, Other(bytes), moves), bytes, moves)
  {
    if moves != [] {
      var n := |moves| - 1;
      RunTransfers(mem, bytes, moves[..n]);
      RunSnoc(mem, Other(bytes), moves[..n], moves[n]);
      assert moves == moves[..n] + [moves[n]];
      CopyTransfers(mem, Run(mem, Other(bytes), moves[..n]), bytes, moves[..n], moves[n]);
    }
  }

  lemma CopyKeeps(mem: seq<byte>, bytes: seq<byte>, m: Move, kept: Move)
    requires Fits(m, |mem|, |bytes|) && Fits(kept, |mem|, |bytes|) && Apart(kept.d, kept.n, m.d, m.n)
    requires Moved(mem, bytes, kept)
    ensures Moved(Copy(mem, bytes, m), bytes, kept)
  {
    var after := Copy(mem, bytes, m);
    assert forall k | kept.d <= k < kept.d + kept.n :: after[k] == mem[k];
    assert after[kept.d..kept.d + kept.n] == mem[kept.d..kept.d + kept.n];
  }

  lemma CopyMoves(mem: seq<byte>, bytes: seq<byte>, m: Move)
    requires Fits(m, |mem|, |bytes|)
    ensures Moved(Copy(mem, bytes, m), bytes, m)
  {
  }

  /** One more move, to a place no earlier move has written. */
  lemma CopyTransfers(mem: seq<byte>, current: seq<byte>, bytes: seq<byte>, moves: seq<Move>, m: Move)
    requires AllFit(moves, |mem|, |bytes|) && Transferred(mem, current, bytes, moves) && Fits(m, |mem|, |bytes|)
    requires forall k :: 0 <= k < |moves| ==> Apart(moves[k].d, moves[k].n, m.d, m.n)
    ensures AllFit(moves + [m], |mem|, |bytes|) && Transferred(mem, Copy(current, bytes, m), bytes, moves + [m])
  {
    var all, after := moves + [m], Copy(current, bytes, m);
    CopyMoves(current, bytes, m);
    forall k | 0 <= k < |all| ensures Moved(after, bytes, all[k]) {
      if k < |moves| {
        CopyKeeps(current, bytes, m, moves[k]);
      }
    }
    forall a | 0 <= a < |after| && !Writes(all, a) ensures after[a] == mem[a] {
      assert all[|moves|] == m;
      forall k | 0 <= k < |moves| ensures !(moves[k].d <= a < moves[k].d + moves[k].n) {
        assert all[k] == moves[k];
      }
      assert !Writes(moves, a);
    }
  }

  /** Moves of the same bytes may meet, as long as they meet exactly: each destination holds them in the end. */
  lemma {:induction false} RunSameBytes(mem: seq<byte>, bytes: seq<byte>, moves: seq<Move>, s: nat, n: nat)
    requires AllFit(moves, |mem|, |bytes|)
    requires forall k :: 0 <= k < |moves| ==> moves[k].s == s && moves[k].n == n
    requires forall j, k :: 0 <= j < k < |moves| ==>
      moves[j].d == moves[k].d || Apart(moves[j].d, n, moves[k].d, n)
    ensures forall k :: 0 <= k < |moves| ==> Moved(Run(mem, Other(bytes), moves), bytes, moves[k])
  {
    if moves != [] {
      var last := |moves| - 1;
      var init, m := moves[..last], moves[last];
      var current := Run(mem, Other(bytes), init);
      RunSameBytes(mem, bytes, init, s, n);
      RunSnoc(mem, Other(bytes), init, m);
      assert moves == init + [m];
      CopyMoves(current, bytes, m);
      forall k | 0 <= k < last ensures Moved(Copy(current, bytes, m), bytes, moves[k]) {
        assert init[k] == moves[k];
        if moves[k].d != m.d {
          CopyKeeps(current, bytes, m, moves[k]);
        }
      }
    }
  }

  /** A source that no move changes still has its first contents. */
  lemma SourceKept(mem: seq<byte>, after: seq<byte>, moves: seq<Move>, m: Move)
    requires AllFit(moves, |mem|, |mem|) && Fits(m, |mem|, |mem|) && Transferred(mem, after, mem, moves)
    requires forall k :: 0 <= k < |moves| ==> LeavesIntact(moves[k], m)
    ensures Copy(after, after, m) == Copy(after, mem, m)
  {
    forall a | m.s <= a < m.s + m.n ensures after[a] == mem[a] {
      if Writes(moves, a) {
        var k :| 0 <= k < |moves| && moves[k].d <= a < moves[k].d + moves[k].n;
        MovedByte(after, mem, moves[k], a - moves[k].d);
      }
    }
    assert after[m.s..m.s + m.n] == mem[m.s..m.s + m.n];
  }

  lemma MovedByte(after: seq<byte>, from: seq<byte>, m: Move, i: nat)
    requires Fits(m, |after|, |from|) && Moved(after, from, m) && i < m.n
    ensures after[m.d + i] == from[m.s + i]
  {
    assert after[m.d..m.d + m.n][i] == from[m.s..m.s + m.n][i];
  }

  lemma CopyHit(mem: seq<byte>, from: seq<byte>, m: Move, i: nat)
    requires Fits(m, |mem|, |from|) && i < m.n
    ensures Copy(mem, from, m)[m.d + i] == from[m.s + i]
  {
  }

  lemma CopyMiss(mem: seq<byte>, from: seq<byte>, m: Move, k: nat)
    requires Fits(m, |mem|, |from|) && k < |mem| && !(m.d <= k < m.d + m.n)
    ensures Copy(mem, from, m)[k] == mem[k]
  {
  }

  lemma RunHits(mem: seq<byte>, from: Source, moves: seq<Move>, a: nat, i: nat)
    requires AllFit(moves, |mem|, |from.Bytes(mem)|) && a < |moves| && i < moves[a].n
    ensures RunTo(mem, from, moves, a + 1)[moves[a].d + i] == from.Bytes(RunTo(mem, from, moves, a))[moves[a].s + i]
  {
    var current := RunTo(mem, from, moves, a);
    CopyHit(current, from.Bytes(current), moves[a], i);
  }

  /** What move a wrote is still there after the moves up to n. */
  lemma {:induction false} RunKeepsByte(mem: seq<byte>, from: Source, moves: seq<Move>, a: nat, n: nat, k: nat)
    requires AllFit(moves, |mem|, |from.Bytes(mem)|) && Separate(moves) && a < n <= |moves|
    requires moves[a].d <= k < moves[a].d + moves[a].n
    ensures RunTo(mem, from, moves, n)[k] == RunTo(mem, from, moves, a + 1)[k]
  {
    hide Copy;
    if a + 1 < n {
      RunKeepsByte(mem, from, moves, a, n - 1, k);
      var current := RunTo(mem, from, moves, n - 1);
      CopyMiss(current, from.Bytes(current), moves[n - 1], k);
    }
  }

  lemma AppendInit<T>(a: seq<T>, b: seq<T>)
    requires b != []
    ensures a + b == a + b[..|b| - 1] + [b[|b| - 1]]
  {
  }

  /** Inside one memory the same holds as long as no move reads what an earlier one changed. */
  lemma {:induction false} RunInPlace(mem: seq<byte>, moves: seq<Move>)
    requires AllFit(moves, |mem|, |mem|) && Separate(moves) && ReadsIntact(moves)
    ensures Run(mem, Same, moves) == Run(mem, Other(mem), moves)
  {
    if moves != [] {
      var init := moves[..|moves| - 1];
      RunInPlace(mem, init);
      RunSnoc(mem, Same, init, moves[|moves| - 1]);
      RunSnoc(mem, Other(mem), init, moves[|moves| - 1]);
      assert moves == init + [moves[|moves| - 1]];
      RunTransfers(mem, mem, init);
      SourceKept(mem, Run(mem, Other(mem), init), init, moves[|moves| - 1]);
    }
  }

  /** The first move that reads something changed. */
  lemma {:induction false} FirstBadReader(moves: seq<Move>) returns (k: nat, j: nat)
    requires !ReadsIntact(moves)
    ensures k < j < |moves| && ReadsIntact(moves[..j]) && !LeavesIntact(moves[k], moves[j])
  {
    var init := moves[..|moves| - 1];
    if ReadsIntact(init) {
      j := |moves| - 1;
      k :| 0 <= k < j && !LeavesIntact(moves[k], moves[j]);
    } else {
      k, j := FirstBadReader(init);
      assert init[..j] == moves[..j];
    }
  }

  /** Otherwise some byte is wrong on some memory: it comes from where the byte in its place came from. */
  lemma InPlaceCorrupts(length: nat, moves: seq<Move>) returns (mem: seq<byte>)
    requires AllFit(moves, length, length) && Separate(moves) && !ReadsIntact(moves)
    requires forall k :: 0 <= k < |moves| ==> moves[k].n > 0
    ensures |mem| == length && Run(mem, Same, moves) != Run(mem, Other(mem), moves)
  {
    hide Copy, Run, RunTo, ReadsIntact, Separate;
    var k, j := FirstBadReader(moves);
    var a := if moves[k].d < moves[j].s then moves[j].s else moves[k].d;
    var origin, place := moves[k].s + (a - moves[k].d), moves[j].d + (a - moves[j].s);
    mem := seq(length, i => if i == origin then 1 as byte else 0);
    WrongByte(mem, moves, k, j, a);
    TransferredByte(mem, moves, j, place);
  }

  lemma WrongByte(mem: seq<byte>, moves: seq<Move>, k: nat, j: nat, a: nat)
    requires AllFit(moves, |mem|, |mem|) && Separate(moves) && k < j < |moves| && ReadsIntact(moves[..j])
    requires moves[k].d <= a < moves[k].d + moves[k].n && moves[j].s <= a < moves[j].s + moves[j].n
    ensures moves[j].d + (a - moves[j].s) < |mem| && moves[k].s + (a - moves[k].d) < |mem|
    ensures Run(mem, Same, moves)[moves[j].d + (a - moves[j].s)] == mem[moves[k].s + (a - moves[k].d)]
  {
    hide Copy, Run, RunTo, ReadsIntact, Separate;
    ChangedByte(mem, moves, k, j, a);
    RunHits(mem, Same, moves, j, a - moves[j].s);
    RunKeepsByte(mem, Same, moves, j, |moves|, moves[j].d + (a - moves[j].s));
    RunIsRunTo(mem, Same, moves);
  }

  lemma RunIsRunTo(mem: seq<byte>, from: Source, moves: seq<Move>)
    requires AllFit(moves, |mem|, |from.Bytes(mem)|)
    ensures Run(mem, from, moves) == RunTo(mem, from, moves, |moves|)
  {
  }

  /** Before move j, what move k wrote at place a. */
  lemma ChangedByte(mem: seq<byte>, moves: seq<Move>, k: nat, j: nat, a: nat)
    requires AllFit(moves, |mem|, |mem|) && Separate(moves) && k < j < |moves| && ReadsIntact(moves[..j])
    requires moves[k].d <= a < moves[k].d + moves[k].n
    ensures RunTo(mem, Same, moves, j)[a] == mem[moves[k].s + (a - moves[k].d)]
  {
    hide Copy, Run, RunTo, ReadsIntact, Separate, AllFit;
    var init := moves[..j];
    FirstMoves(moves, j, |mem|);
    RunToSame(mem, Same, init, moves, j);
    RunIsRunTo(mem, Same, init);
    RunInPlace(mem, init);
    TransferredByte(mem, init, k, a);
  }

  lemma FirstMoves(moves: seq<Move>, j: nat, length: nat)
    requires AllFit(moves, length, length) && Separate(moves) && j <= |moves|
    ensures AllFit(moves[..j], length, length) && Separate(moves[..j])
  {
  }

  lemma TransferredByte(mem: seq<byte>, moves: seq<Move>, k: nat, a: nat)
    requires AllFit(moves, |mem|, |mem|) && Separate(moves) && k < |moves|
    requires moves[k].d <= a < moves[k].d + moves[k].n
    ensures a < |mem| && moves[k].s + (a - moves[k].d) < |mem|
    ensures Run(mem, Other(mem), moves)[a] == mem[moves[k].s + (a - moves[k].d)]
  {
    hide Run, Separate;
    RunTransfers(mem, mem, moves);
    MovedByte(Run(mem, Other(mem), moves), mem, moves[k], a - moves[k].d);
  }

  /** Inside one memory, separate moves do what a simultaneous copy does exactly if no move reads a changed byte. */
  lemma RunInPlaceExact(length: nat, moves: seq<Move>)
    requires AllFit(moves, length, length) && Separate(moves)
    requires forall k :: 0 <= k < |moves| ==> moves[k].n > 0
    ensures (forall mem: seq<byte> | |mem| == length :: Run(mem, Same, moves) == Run(mem, Other(mem), moves))
            <==> ReadsIntact(moves)
  {
    if ReadsIntact(moves) {
      forall mem: seq<byte> | |mem| == length ensures Run(mem, Same, moves) == Run(mem, Other(mem), moves) {
        RunInPlace(mem, moves);
      }
    } else {
      var mem := InPlaceCorrupts(length, moves);
    }
  }

  /** Of the moves that write a byte, one leaves its source byte there. */
  lemma {:induction false} LastWriter(mem: seq<byte>, bytes: seq<byte>, moves: seq<Move>, a: nat) returns (k: nat)
    requires AllFit(moves, |mem|, |bytes|) && a < |mem| && Writes(moves, a)
    ensures k < |moves| && moves[k].d <= a < moves[k].d + moves[k].n
    ensures Run(mem, Other(bytes), moves)[a] == bytes[moves[k].s + (a - moves[k].d)]
  {
    var init, m := moves[..|moves| - 1], moves[|moves| - 1];
    RunSnoc(mem, Other(bytes), init, m);
    assert moves == init + [m];
    var current := Run(mem, Other(bytes), init);
    if m.d <= a < m.d + m.n {
      k := |moves| - 1;
      CopyHit(current, bytes, m, a - m.d);
    } else {
      CopyMiss(current, bytes, m, a);
      var i :| 0 <= i < |moves| && moves[i].d <= a < moves[i].d + moves[i].n;
      assert init[i] == moves[i];
      k := LastWriter(mem, bytes, init, a);
    }
  }

  lemma {:induction false} NeverWritten(mem: seq<byte>, from: Source, moves: seq<Move>, a: nat)
    requires AllFit(moves, |mem|, |from.Bytes(mem)|) && a < |mem| && !Writes(moves, a)
    ensures Run(mem, from, moves)[a] == mem[a]
  {
    if moves != [] {
      var init, m := moves[..|moves| - 1], moves[|moves| - 1];
      RunSnoc(mem, from, init, m);
      assert moves == init + [m];
      forall i | 0 <= i < |init| ensures !(init[i].d <= a < init[i].d + init[i].n) {
        assert init[i] == moves[i];
      }
      NeverWritten(mem, from, init, a);
      var current := Run(mem, from, init);
      CopyMiss(current, from.Bytes(current), m, a);
    }
  }

  /** A run can be cut in two. */
  lemma {:induction false} RunAppend(mem: seq<byte>, from: Source, a: seq<Move>, b: seq<Move>)
    requires AllFit(a, |mem|, |from.Bytes(mem)|) && AllFit(b, |mem|, |from.Bytes(mem)|)
    ensures AllFit(a + b, |mem|, |from.Bytes(mem)|)
    ensures Run(mem, from, a + b) == Run(Run(mem, from, a), from, b)
  {
    if b == [] {
      assert a + b == a;
    } else {
      var init, m := b[..|b| - 1], b[|b| - 1];
      RunAppend(mem, from, a, init);
      RunSnoc(mem, from, a + init, m);
      RunSnoc(Run(mem, from, a), from, init, m);
      assert b == init + [m];
      AppendInit(a, b);
    }
  }

  /** One memmove; the two arrays may be the same object. */
  method MoveBytes(dst: array<byte>, src: array<byte>, m: Move)
    requires Fits(m, dst.Length, src.Length)
    modifies dst
    ensures dst[..] == Copy(old(dst[..]), old(src[..]), m)
  {
    forall i | 0 <= i < m.n {
      dst[m.d + i] := src[m.s + i];
    }
  }

  /** The moves for a list of points. */
  function Moves(points: seq<Point>, at: Point -> Move): (r: seq<Move>)
    ensures |r| == |points| && forall k :: 0 <= k < |r| ==> r[k] == at(points[k])
  {
    seq(|points|, k requires 0 <= k < |points| => at(points[k]))
  }

  /** The moves of three nested loops over a box. */
  function BoxMoves(b: Point, at: Point -> Move): seq<Move> {
    Moves(Points(b), at)
  }

  /** The bytes of the source array, which may be the destination array itself. */
  ghost predicate Reads(src: array<byte>, dst: array<byte>, from: Source)
    reads src
  {
    if src == dst then from == Same else from == Other(src[..])
  }

  /** Three nested loops around one memmove. */
  method Execute(b: Point, at: Point -> Move, dst: array<byte>, src: array<byte>)
    requires AllFit(BoxMoves(b, at), dst.Length, src.Length)
    modifies dst
    ensures dst[..] == Run(old(dst[..]), if src == dst then Same else Other(old(src[..])), BoxMoves(b, at))
  {
    hide Copy;
    ghost var mem, from := dst[..], if src == dst then Same else Other(src[..]);
    PointsCoverBox(b);
    for z := 0 to b.z
      invariant Reads(src, dst, from) && AllFit(Moves(Before(Point(0, 0, z), b), at), dst.Length, src.Length)
      invariant dst[..] == Run(mem, from, Moves(Before(Point(0, 0, z), b), at))
    {
      for y := 0 to b.y
        invariant Reads(src, dst, from) && AllFit(Moves(Before(Point(0, y, z), b), at), dst.Length, src.Length)
        invariant dst[..] == Run(mem, from, Moves(Before(Point(0, y, z), b), at))
      {
        for x := 0 to b.x
          invariant Reads(src, dst, from) && AllFit(Moves(Before(Point(x, y, z), b), at), dst.Length, src.Length)
          invariant dst[..] == Run(mem, from, Moves(Before(Point(x, y, z), b), at))
        {
          var p := Point(x, y, z);
          MoveFits(b, at, p, dst.Length, src.Length);
          RunSnoc(mem, from, Moves(Before(p, b), at), at(p));
          MoveBytes(dst, src, at(p));
          assert Moves(Before(Point(x + 1, y, z), b), at) == Moves(Before(p, b), at) + [at(p)];
        }
      }
    }
  }

  lemma MoveFits(b: Point, at: Point -> Move, p: Point, dstLength: nat, srcLength: nat)
    requires Inside(p, b) && AllFit(BoxMoves(b, at), dstLength, srcLength)
    ensures Fits(at(p), dstLength, srcLength)
  {
    PointsCoverBox(b);
    var k :| 0 <= k < |Points(b)| && Points(b)[k] == p;
    assert BoxMoves(b, at)[k] == at(p);
  }

  /** Separate points give separate moves. */
  lemma BoxSeparate(b: Point, at: Point -> Move)
    requires forall p, q :: Inside(p, b) && Inside(q, b) && p != q ==> Apart(at(p).d, at(p).n, at(q).d, at(q).n)
    ensures Separate(BoxMoves(b, at))
  {
    PointsCoverBox(b);
    var points := Points(b);
    forall j, k | 0 <= j < k < |points|
      ensures Apart(at(points[j]).d, at(points[j]).n, at(points[k]).d, at(points[k]).n)
    {
      assert points[j] in points && points[k] in points;
    }
  }

  /** Of the moves of a box, which are made in loop order. */
  lemma BoxReadsIntact(b: Point, at: Point -> Move)
    ensures ReadsIntact(BoxMoves(b, at)) <==>
            forall p, q :: Inside(p, b) && Inside(q, b) && Earlier(q, p) ==> LeavesIntact(at(q), at(p))
  {
    PointsCoverBox(b);
    var points, moves := Points(b), BoxMoves(b, at);
    if forall p, q :: Inside(p, b) && Inside(q, b) && Earlier(q, p) ==> LeavesIntact(at(q), at(p)) {
      forall j, k | 0 <= k < j < |moves| ensures LeavesIntact(moves[k], moves[j]) {
        PointsInOrder(b, k, j);
        assert points[j] in points && points[k] in points;
      }
    }
    if ReadsIntact(moves) {
      forall p, q | Inside(p, b) && Inside(q, b) && Earlier(q, p) ensures LeavesIntact(at(q), at(p)) {
        EarlierRank(q, p, b);
        assert moves[Rank(p, b)] == at(p) && moves[Rank(q, b)] == at(q);
      }
    }
  }

  lemma BoxFits(b: Point, at: Point -> Move, dstLength: nat, srcLength: nat)
    ensures AllFit(BoxMoves(b, at), dstLength, srcLength) <==>
            forall p :: Inside(p, b) ==> Fits(at(p), dstLength, srcLength)
  {
    if AllFit(BoxMoves(b, at), dstLength, srcLength) {
      forall p | Inside(p, b) ensures Fits(at(p), dstLength, srcLength) {
        MoveFits(b, at, p, dstLength, srcLength);
      }
    } else {
      PointsCoverBox(b);
      var k :| 0 <= k < |Points(b)| && !Fits(BoxMoves(b, at)[k], dstLength, srcLength);
      assert Points(b)[k] in Points(b);
    }
  }

  /** A transfer over a box reaches the destination of every point. */
  lemma BoxMoved(b: Point, at: Point -> Move, before: seq<byte>, after: seq<byte>, from: seq<byte>, p: Point)
    requires AllFit(BoxMoves(b, at), |before|, |from|) && Transferred(before, after, from, BoxMoves(b, at))
    requires Inside(p, b)
    ensures Fits(at(p), |after|, |from|) && Moved(after, from, at(p))
  {
    PointsCoverBox(b);
    var k :| 0 <= k < |Points(b)| && Points(b)[k] == p;
    assert BoxMoves(b, at)[k] == at(p);
  }
}
