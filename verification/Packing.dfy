/** How the points of one type are split into ASDUs (interrogation.c), and what of them the library puts into an ASDU. */
module Packing {

  /** A configured address, which may be any int, and a value. */
  datatype Point = Point(ioa: int, data: int)

  // ----- sizes -----

  /** C division, which truncates towards zero. */
  function Divide(a: int, b: int): int
    requires b > 0
  {
    if a >= 0 then a / b else -((-a) / b)
  }

  function CalcMaxIOAsSQ0(maxASDUSize: int, ioSize: int): int
    requires ioSize > 0
  {
    Divide(maxASDUSize - 6, ioSize)
  }

  function GetIOSizeNoIOA(ioSizeWithIOA: int): int {
    ioSizeWithIOA - 3
  }

  function CalcMaxIOAsSQ1(maxASDUSize: int, ioSizeWithIOA: int, ioSizeNoIOA: int): int
    requires ioSizeNoIOA > 0
  {
    if maxASDUSize <= 6 + ioSizeWithIOA then 1
    else Divide(maxASDUSize - 6 - ioSizeWithIOA, ioSizeNoIOA) + 1
  }

  /** How many objects go into one ASDU. */
  function MaxIOAs(sequence: bool, maxASDUSize: int, ioSize: int): int
    requires ioSize > 3
  {
    if sequence then CalcMaxIOAsSQ1(maxASDUSize, ioSize, GetIOSizeNoIOA(ioSize)) else CalcMaxIOAsSQ0(maxASDUSize, ioSize)
  }

  /** The encoded length of an ASDU with `n` objects; in a sequence only the first one has an address. */
  function EncodedSize(sequence: bool, n: nat, ioSize: int): int {
    if n == 0 then 6 else if sequence then 6 + ioSize + (n - 1) * (ioSize - 3) else 6 + n * ioSize
  }

  /** One object fits into an ASDU. */
  predicate Fits(maxASDUSize: int, ioSize: int) { ioSize > 3 && maxASDUSize >= 6 + ioSize }

  lemma QuotientBounds(a: nat, b: int, n: nat)
    requires b > 0
    ensures n * b <= a <==> n <= a / b
  {
    var q := a / b;
    assert q * b <= a < (q + 1) * b;
    if n <= q { MulMono(n, q, b); } else { MulMono(q + 1, n, b); }
  }

  lemma MulMono(x: nat, y: nat, b: int)
    requires x <= y && b > 0
    ensures x * b <= y * b
  {
  }

  lemma SQ0Tight(maxASDUSize: int, ioSize: int, n: nat)
    requires Fits(maxASDUSize, ioSize)
    ensures n * ioSize <= maxASDUSize - 6 <==> n <= CalcMaxIOAsSQ0(maxASDUSize, ioSize)
  {
    QuotientBounds(maxASDUSize - 6, ioSize, n);
  }

  lemma SQ1Tight(maxASDUSize: int, ioSize: int, n: nat)
    requires Fits(maxASDUSize, ioSize) && n >= 1
    ensures (n - 1) * (ioSize - 3) <= maxASDUSize - 6 - ioSize <==> n <= CalcMaxIOAsSQ1(maxASDUSize, ioSize, ioSize - 3)
  {
    var a, b := maxASDUSize - 6 - ioSize, ioSize - 3;
    QuotientBounds(a, b, n - 1);
    if a == 0 { assert a / b == 0; }
  }

  /** The bounds are tight: exactly the ASDUs of at most that many objects are short enough. */
  lemma MaxIOAsTight(sequence: bool, maxASDUSize: int, ioSize: int, n: nat)
    requires Fits(maxASDUSize, ioSize)
    ensures MaxIOAs(sequence, maxASDUSize, ioSize) >= 1
    ensures EncodedSize(sequence, n, ioSize) <= maxASDUSize <==> n <= MaxIOAs(sequence, maxASDUSize, ioSize)
  {
    hide Divide;
    if sequence {
      SQ1Tight(maxASDUSize, ioSize, 1);
      if n > 0 { SQ1Tight(maxASDUSize, ioSize, n); }
    } else {
      SQ0Tight(maxASDUSize, ioSize, 1);
      if n > 0 { SQ0Tight(maxASDUSize, ioSize, n); }
    }
  }

  /** The loop over a short run makes progress exactly when an object fits. */
  lemma ProgressExactly(maxASDUSize: int, ioSize: int)
    requires ioSize > 3
    ensures CalcMaxIOAsSQ0(maxASDUSize, ioSize) >= 1 <==> Fits(maxASDUSize, ioSize)
    ensures MaxIOAs(true, maxASDUSize, ioSize) >= 1
  {
    if maxASDUSize >= 6 {
      QuotientBounds(maxASDUSize - 6, ioSize, 1);
    }
    if maxASDUSize > 6 + ioSize { QuotientBounds(maxASDUSize - 6 - ioSize, ioSize - 3, 0); }
  }

  // ----- CS101_ASDU -----

  /** An address fits into the three bytes of an information object address. */
  predicate FitsIoa(ioa: int) { 0 <= ioa < 0x100_0000 }

  /** InformationObject_encodeBase and getFirstIOA: what is read of an address that was written with three bytes. */
  function Encoded(ioa: int): int {
    ioa % 0x100 + Divide(ioa, 0x100) % 0x100 * 0x100 + Divide(ioa, 0x1_0000) % 0x100 * 0x1_0000
  }

  /** Exactly the addresses that fit are read as they were written. */
  lemma EncodedExactly(ioa: int)
    ensures FitsIoa(Encoded(ioa)) && (Encoded(ioa) == ioa <==> FitsIoa(ioa))
  {
    if ioa >= 0 { assert ioa / 0x100 / 0x100 == ioa / 0x1_0000; }
  }

  /** The objects that are in the ASDU, with the addresses that are read from it. */
  datatype Asdu = Asdu(sequence: bool, objects: seq<Point>)

  const MAX_ELEMENTS: nat := 0x7f

  /**
   * CS101_ASDU_addInformationObject: an object that does not fit or does not belong there is left out. In a sequence only
   * the first address is written; the others count up from what is read of it.
   */
  function AddInformationObject(a: Asdu, p: Point, maxASDUSize: int, ioSize: int): Asdu {
    var n := |a.objects|;
    if EncodedSize(a.sequence, n + 1, ioSize) > maxASDUSize then a
    else if n == 0 || (n < MAX_ELEMENTS && !a.sequence) then a.(objects := a.objects + [p.(ioa := Encoded(p.ioa))])
    else if n < MAX_ELEMENTS && p.ioa == a.objects[0].ioa + n then a.(objects := a.objects + [p])
    else a
  }

  function Filled(sequence: bool, ps: seq<Point>, maxASDUSize: int, ioSize: int): Asdu {
    if ps == [] then Asdu(sequence, [])
    else AddInformationObject(Filled(sequence, ps[..|ps| - 1], maxASDUSize, ioSize), ps[|ps| - 1], maxASDUSize, ioSize)
  }

  /** The addresses count up from the first one. */
  predicate Consecutive(ps: seq<Point>) {
    forall i :: 0 <= i < |ps| ==> ps[i].ioa == ps[0].ioa + i
  }

  function Min(a: int, b: int): int { if a < b then a else b }

  /**
   * What an ASDU holds of points that are short enough for it: at most 127, one by one as their addresses are read, or as
   * a sequence the first ones, if the first address fits. If it does not, the others are compared with what is read.
   */
  predicate Holds(sequence: bool, ps: seq<Point>, r: seq<Point>) {
    var n := Min(|ps|, MAX_ELEMENTS);
    && |r| <= n && (ps != [] ==> r != [] && r[0].ioa == Encoded(ps[0].ioa))
    && (sequence && (ps == [] || FitsIoa(ps[0].ioa)) ==> r == ps[..n])
    && (!sequence ==> |r| == n && forall i :: 0 <= i < n ==> r[i] == ps[i].(ioa := Encoded(ps[i].ioa)))
  }

  /** It is what was handed over exactly when this was not too long and the addresses that are written fit. */
  lemma HeldExactly(sequence: bool, ps: seq<Point>, r: seq<Point>)
    requires Holds(sequence, ps, r)
    ensures r == ps <==> |ps| <= MAX_ELEMENTS && AddressesFit(sequence, ps)
  {
    if ps != [] { EncodedExactly(ps[0].ioa); }
    if !sequence {
      forall i | 0 <= i < |r| ensures r[i] == ps[i] <==> FitsIoa(ps[i].ioa) { EncodedExactly(ps[i].ioa); }
    }
  }

  predicate AddressesFit(sequence: bool, ps: seq<Point>) {
    if sequence then ps != [] ==> FitsIoa(ps[0].ioa)
    else forall i :: 0 <= i < |ps| ==> FitsIoa(ps[i].ioa)
  }

  /** One more point. */
  lemma HeldStep(sequence: bool, ps: seq<Point>, r: seq<Point>, maxASDUSize: int, ioSize: int)
    requires ps != [] && (sequence ==> Consecutive(ps)) && Holds(sequence, ps[..|ps| - 1], r)
    requires EncodedSize(sequence, |r| + 1, ioSize) <= maxASDUSize
    ensures
      var a := AddInformationObject(Asdu(sequence, r), ps[|ps| - 1], maxASDUSize, ioSize);
      a.sequence == sequence && Holds(sequence, ps, a.objects)
  {
    hide EncodedSize, Encoded;
    var n := |ps| - 1;
    EncodedExactly(ps[0].ioa);
    if n == 0 {
      assert r == [] && ps[..1] == ps;
    } else {
      assert ps[..n][0] == ps[0];
      if sequence {
        assert ps[n].ioa == ps[0].ioa + n;
        assert ps[..n] + [ps[n]] == ps;
        assert n >= MAX_ELEMENTS ==> ps[..n][..MAX_ELEMENTS] == ps[..MAX_ELEMENTS];
      }
    }
  }

  lemma FilledUnfold(sequence: bool, ps: seq<Point>, maxASDUSize: int, ioSize: int)
    requires ps != []
    ensures Filled(sequence, ps, maxASDUSize, ioSize) ==
      AddInformationObject(Filled(sequence, ps[..|ps| - 1], maxASDUSize, ioSize), ps[|ps| - 1], maxASDUSize, ioSize)
  {
  }

  /** Of a chunk that is short enough, the ASDU holds at most 127 objects. */
  lemma {:induction false} FilledTakes(sequence: bool, ps: seq<Point>, maxASDUSize: int, ioSize: int)
    requires Fits(maxASDUSize, ioSize) && |ps| <= MaxIOAs(sequence, maxASDUSize, ioSize)
    requires sequence ==> Consecutive(ps)
    ensures
      var a := Filled(sequence, ps, maxASDUSize, ioSize);
      a.sequence == sequence && Holds(sequence, ps, a.objects)
    decreases |ps|
  {
    hide MaxIOAs, EncodedSize, AddInformationObject, Encoded;
    if ps != [] {
      var n := |ps| - 1;
      FilledUnfold(sequence, ps, maxASDUSize, ioSize);
      if sequence { assert Consecutive(ps[..n]); }
      FilledTakes(sequence, ps[..n], maxASDUSize, ioSize);
      var r := Filled(sequence, ps[..n], maxASDUSize, ioSize).objects;
      MaxIOAsTight(sequence, maxASDUSize, ioSize, |r| + 1);
      HeldStep(sequence, ps, r, maxASDUSize, ioSize);
    }
  }

  // ----- runs and chunks -----

  /** How many points from the first one on have consecutive addresses. */
  function RunLength(ps: seq<Point>): (n: nat)
    requires ps != []
    ensures 1 <= n <= |ps|
    ensures Consecutive(ps[..n])
    ensures n < |ps| ==> ps[n].ioa != ps[n - 1].ioa + 1
  {
    if |ps| == 1 || ps[1].ioa != ps[0].ioa + 1 then 1
    else
      var r := RunLength(ps[1..]);
      assert forall i :: 0 < i < 1 + r ==> ps[i] == ps[1..][..r][i - 1];
      1 + r
  }

  /** What is handed to one ASDU. */
  datatype Chunk = Chunk(sequence: bool, points: seq<Point>)

  /** The chunks of one run. */
  function ChunksOf(run: seq<Point>, sequence: bool, m: int): seq<Chunk>
    requires m >= 1
    decreases |run|
  {
    if run == [] then []
    else
      var n := Min(m, |run|);
      [Chunk(sequence, run[..n])] + ChunksOf(run[n..], sequence, m)
  }

  /** All chunks: runs of three or more points as sequences, the others as single objects. */
  function Chunks(ps: seq<Point>, maxASDUSize: int, ioSize: int): seq<Chunk>
    requires Fits(maxASDUSize, ioSize)
    decreases |ps|
  {
    if ps == [] then []
    else
      var n := RunLength(ps);
      MaxIOAsTight(n >= 3, maxASDUSize, ioSize, 0);
      ChunksOf(ps[..n], n >= 3, MaxIOAs(n >= 3, maxASDUSize, ioSize)) + Chunks(ps[n..], maxASDUSize, ioSize)
  }

  lemma ChunksUnfold(ps: seq<Point>, maxASDUSize: int, ioSize: int)
    requires Fits(maxASDUSize, ioSize) && ps != []
    ensures
      var n := RunLength(ps);
      var m := MaxIOAs(n >= 3, maxASDUSize, ioSize);
      m >= 1
      && Chunks(ps, maxASDUSize, ioSize) == ChunksOf(ps[..n], n >= 3, m) + Chunks(ps[n..], maxASDUSize, ioSize)
  {
    MaxIOAsTight(RunLength(ps) >= 3, maxASDUSize, ioSize, 0);
    hide MaxIOAs, ChunksOf;
  }

  function Asdus(chunks: seq<Chunk>, maxASDUSize: int, ioSize: int): (r: seq<Asdu>)
    ensures |r| == |chunks|
    ensures forall i :: 0 <= i < |r| ==> r[i] == Filled(chunks[i].sequence, chunks[i].points, maxASDUSize, ioSize)
  {
    seq(|chunks|, i requires 0 <= i < |chunks| => Filled(chunks[i].sequence, chunks[i].points, maxASDUSize, ioSize))
  }

  // ----- each point is handed over once, in order -----

  function Joined(chunks: seq<Chunk>): seq<Point> {
    if chunks == [] then [] else chunks[0].points + Joined(chunks[1..])
  }

  lemma {:induction false} JoinedConcat(a: seq<Chunk>, b: seq<Chunk>)
    ensures Joined(a + b) == Joined(a) + Joined(b)
  {
    if a == [] {
      assert a + b == b;
    } else {
      JoinedConcat(a[1..], b);
      assert (a + b)[1..] == a[1..] + b && (a + b)[0] == a[0];
      assert a[0].points + (Joined(a[1..]) + Joined(b)) == a[0].points + Joined(a[1..]) + Joined(b);
    }
  }

  lemma {:induction false} ChunksOfJoin(run: seq<Point>, sequence: bool, m: int)
    requires m >= 1
    ensures Joined(ChunksOf(run, sequence, m)) == run
    decreases |run|
  {
    if run != [] {
      var n := Min(m, |run|);
      var first, rest := Chunk(sequence, run[..n]), ChunksOf(run[n..], sequence, m);
      ChunksOfJoin(run[n..], sequence, m);
      assert ChunksOf(run, sequence, m) == [first] + rest;
      hide ChunksOf;
      assert ([first] + rest)[1..] == rest;
      assert run[..n] + run[n..] == run;
    }
  }

  lemma {:induction false} ChunksJoin(ps: seq<Point>, maxASDUSize: int, ioSize: int)
    requires Fits(maxASDUSize, ioSize)
    ensures Joined(Chunks(ps, maxASDUSize, ioSize)) == ps
    decreases |ps|
  {
    if ps == [] {
      NothingJoined(maxASDUSize, ioSize);
    } else {
      var n := RunLength(ps);
      ChunksJoin(ps[n..], maxASDUSize, ioSize);
      RunJoins(ps, maxASDUSize, ioSize);
    }
  }

  lemma RunJoins(ps: seq<Point>, maxASDUSize: int, ioSize: int)
    requires Fits(maxASDUSize, ioSize) && ps != []
    requires Joined(Chunks(ps[RunLength(ps)..], maxASDUSize, ioSize)) == ps[RunLength(ps)..]
    ensures Joined(Chunks(ps, maxASDUSize, ioSize)) == ps
  {
    hide Chunks, ChunksOf, MaxIOAs, Joined, RunLength, Consecutive;
    var n := RunLength(ps);
    ChunksUnfold(ps, maxASDUSize, ioSize);
    var run := ChunksOf(ps[..n], n >= 3, MaxIOAs(n >= 3, maxASDUSize, ioSize));
    var rest := Chunks(ps[n..], maxASDUSize, ioSize);
    ChunksOfJoin(ps[..n], n >= 3, MaxIOAs(n >= 3, maxASDUSize, ioSize));
    JoinedConcat(run, rest);
    assert Joined(run) + Joined(rest) == ps[..n] + ps[n..] == ps;
  }

  lemma NothingJoined(maxASDUSize: int, ioSize: int)
    requires Fits(maxASDUSize, ioSize)
    ensures Joined(Chunks([], maxASDUSize, ioSize)) == []
  {
  }

  // ----- what a chunk is -----

  /** ps[r..r + n] has consecutive addresses, and cannot be made longer on either side. */
  predicate MaximalRun(ps: seq<Point>, r: nat, n: nat) {
    && n >= 1 && r + n <= |ps| && Consecutive(ps[r..r + n])
    && (r > 0 ==> ps[r].ioa != ps[r - 1].ioa + 1)
    && (r + n < |ps| ==> ps[r + n].ioa != ps[r + n - 1].ioa + 1)
  }

  /** The chunk is part of a maximal run, starts at `a`, and is a sequence exactly when the run has three points or more. */
  ghost predicate PartOfRun(ps: seq<Point>, c: Chunk, a: nat, r: nat, n: nat, maxASDUSize: int, ioSize: int) {
    && MaximalRun(ps, r, n) && r <= a && a + |c.points| <= r + n
    && c.points != [] && c.points == ps[a..a + |c.points|]
    && (c.sequence <==> n >= 3)
    && (c.sequence ==> Consecutive(c.points))
    && EncodedSize(c.sequence, |c.points|, ioSize) <= maxASDUSize
    && (a + |c.points| < r + n ==> EncodedSize(c.sequence, |c.points| + 1, ioSize) > maxASDUSize)
  }

  ghost predicate WellChunked(ps: seq<Point>, c: Chunk, maxASDUSize: int, ioSize: int) {
    exists a: nat, r: nat, n: nat :: PartOfRun(ps, c, a, r, n, maxASDUSize, ioSize)
  }

  lemma SubRun(ps: seq<Point>, a: nat, b: nat, r: nat, e: nat)
    requires r <= a <= b <= e <= |ps| && Consecutive(ps[r..e])
    ensures Consecutive(ps[a..b])
  {
    assert forall i :: 0 <= i < b - a ==> ps[a..b][i] == ps[r..e][a - r + i];
  }

  /** The first chunk of what is left of a run. */
  lemma FirstChunk(ps: seq<Point>, a: nat, r: nat, n: nat, m: int, maxASDUSize: int, ioSize: int)
    requires Fits(maxASDUSize, ioSize) && MaximalRun(ps, r, n) && r <= a < r + n && m == MaxIOAs(n >= 3, maxASDUSize, ioSize)
    ensures m >= 1 && WellChunked(ps, Chunk(n >= 3, ps[a..r + n][..Min(m, r + n - a)]), maxASDUSize, ioSize)
  {
    hide EncodedSize, MaxIOAs, Consecutive;
    MaxIOAsTight(n >= 3, maxASDUSize, ioSize, 0);
    var k := Min(m, r + n - a);
    assert ps[a..r + n][..k] == ps[a..a + k];
    SubRun(ps, a, a + k, r, r + n);
    MaxIOAsTight(n >= 3, maxASDUSize, ioSize, k);
    MaxIOAsTight(n >= 3, maxASDUSize, ioSize, k + 1);
    assert PartOfRun(ps, Chunk(n >= 3, ps[a..a + k]), a, r, n, maxASDUSize, ioSize);
  }

  lemma {:induction false} ChunksOfRun(ps: seq<Point>, a: nat, r: nat, n: nat, m: int, maxASDUSize: int, ioSize: int)
    requires Fits(maxASDUSize, ioSize) && MaximalRun(ps, r, n) && r <= a <= r + n && m == MaxIOAs(n >= 3, maxASDUSize, ioSize)
    ensures m >= 1 && forall c :: c in ChunksOf(ps[a..r + n], n >= 3, m) ==> WellChunked(ps, c, maxASDUSize, ioSize)
    decreases r + n - a
  {
    hide EncodedSize, MaxIOAs, MaximalRun, WellChunked;
    MaxIOAsTight(n >= 3, maxASDUSize, ioSize, 0);
    RunBounds(ps, r, n);
    var run := ps[a..r + n];
    if run != [] {
      FirstChunk(ps, a, r, n, m, maxASDUSize, ioSize);
      var k := Min(m, |run|);
      assert run[k..] == ps[a + k..r + n];
      ChunksOfRun(ps, a + k, r, n, m, maxASDUSize, ioSize);
    }
  }

  lemma RunBounds(ps: seq<Point>, r: nat, n: nat)
    requires MaximalRun(ps, r, n)
    ensures n >= 1 && r + n <= |ps|
  {
  }

  ghost predicate AllWellChunked(ps: seq<Point>, chunks: seq<Chunk>, maxASDUSize: int, ioSize: int) {
    forall c :: c in chunks ==> WellChunked(ps, c, maxASDUSize, ioSize)
  }

  /**
   * Every chunk is part of a maximal run, is a sequence exactly when the run has three points or more, is short enough,
   * and could not take one point more unless it ends with the run.
   */
  lemma {:induction false} ChunksAreRuns(ps: seq<Point>, r: nat, maxASDUSize: int, ioSize: int)
    requires Fits(maxASDUSize, ioSize) && r <= |ps|
    requires 0 < r < |ps| ==> ps[r].ioa != ps[r - 1].ioa + 1
    ensures AllWellChunked(ps, Chunks(ps[r..], maxASDUSize, ioSize), maxASDUSize, ioSize)
    decreases |ps| - r
  {
    hide Chunks, AllWellChunked, MaximalRun, Consecutive, RunLength;
    if r < |ps| {
      var n := RunLength(ps[r..]);
      RunIsMaximal(ps, r);
      ChunksAreRuns(ps, r + n, maxASDUSize, ioSize);
      assert ps[r..][n..] == ps[r + n..];
      hide Fits;
      RunChunks(ps, r, maxASDUSize, ioSize);
    } else {
      assert ps[r..] == [];
      NoChunks(ps, maxASDUSize, ioSize);
    }
  }

  lemma NoChunks(ps: seq<Point>, maxASDUSize: int, ioSize: int)
    requires Fits(maxASDUSize, ioSize)
    ensures AllWellChunked(ps, Chunks([], maxASDUSize, ioSize), maxASDUSize, ioSize)
  {
  }

  lemma RunChunks(ps: seq<Point>, r: nat, maxASDUSize: int, ioSize: int)
    requires Fits(maxASDUSize, ioSize) && r < |ps| && MaximalRun(ps, r, RunLength(ps[r..]))
    requires AllWellChunked(ps, Chunks(ps[r..][RunLength(ps[r..])..], maxASDUSize, ioSize), maxASDUSize, ioSize)
    ensures AllWellChunked(ps, Chunks(ps[r..], maxASDUSize, ioSize), maxASDUSize, ioSize)
  {
    hide Chunks, ChunksOf, MaxIOAs, RunLength, Consecutive, WellChunked, MaximalRun;
    var rest := ps[r..];
    var n := RunLength(rest);
    var m := MaxIOAs(n >= 3, maxASDUSize, ioSize);
    ChunksUnfold(rest, maxASDUSize, ioSize);
    ChunksOfRun(ps, r, r, n, m, maxASDUSize, ioSize);
    assert rest[..n] == ps[r..r + n];
  }

  lemma RunIsMaximal(ps: seq<Point>, r: nat)
    requires r < |ps| && (r > 0 ==> ps[r].ioa != ps[r - 1].ioa + 1)
    ensures
      var n := RunLength(ps[r..]);
      MaximalRun(ps, r, n) && (r + n < |ps| ==> ps[r + n].ioa != ps[r + n - 1].ioa + 1)
  {
    var rest := ps[r..];
    var n := RunLength(rest);
    assert rest[..n] == ps[r..r + n];
    assert n < |rest| ==> rest[n] == ps[r + n];
    assert rest[n - 1] == ps[r + n - 1];
    hide RunLength, Consecutive;
  }

  // ----- no fewer ASDUs would do -----

  function Total(sizes: seq<nat>): nat {
    if sizes == [] then 0 else sizes[0] + Total(sizes[1..])
  }

  lemma {:induction false} TotalBound(sizes: seq<nat>, m: nat)
    requires forall i :: 0 <= i < |sizes| ==> sizes[i] <= m
    ensures Total(sizes) <= |sizes| * m
  {
    if sizes != [] { TotalBound(sizes[1..], m); }
  }

  lemma {:induction false} ChunkCount(run: seq<Point>, sequence: bool, m: int)
    requires m >= 1
    ensures run != [] ==> (|ChunksOf(run, sequence, m)| - 1) * m < |run|
    decreases |run|
  {
    if |run| > m { ChunkCount(run[m..], sequence, m); }
  }

  /** However a run is split into ASDUs of its mode that are short enough, there are at least as many. */
  lemma FewestAsdus(run: seq<Point>, sequence: bool, sizes: seq<nat>, maxASDUSize: int, ioSize: int)
    requires Fits(maxASDUSize, ioSize) && Total(sizes) == |run|
    requires forall i :: 0 <= i < |sizes| ==> EncodedSize(sequence, sizes[i], ioSize) <= maxASDUSize
    ensures
      var m := MaxIOAs(sequence, maxASDUSize, ioSize);
      m >= 1 && |ChunksOf(run, sequence, m)| <= |sizes|
  {
    var m := MaxIOAs(sequence, maxASDUSize, ioSize);
    MaxIOAsTight(sequence, maxASDUSize, ioSize, 0);
    forall i | 0 <= i < |sizes| ensures sizes[i] <= m { MaxIOAsTight(sequence, maxASDUSize, ioSize, sizes[i]); }
    TotalBound(sizes, m);
    if run != [] {
      ChunkCount(run, sequence, m);
      if |sizes| < |ChunksOf(run, sequence, m)| {
        MulMono(|sizes|, |ChunksOf(run, sequence, m)| - 1, m);
      }
    }
  }

  // ----- what arrives -----

  function Delivered(asdus: seq<Asdu>): seq<Point> {
    if asdus == [] then [] else asdus[0].objects + Delivered(asdus[1..])
  }

  /** The chunk has at most as many objects as the ASDU can count, and the addresses that are written fit. */
  predicate Sound(c: Chunk) { |c.points| <= MAX_ELEMENTS && AddressesFit(c.sequence, c.points) }

  ghost predicate AllSound(chunks: seq<Chunk>) {
    forall c :: c in chunks ==> Sound(c)
  }

  lemma ChunkFilled(ps: seq<Point>, c: Chunk, maxASDUSize: int, ioSize: int)
    requires Fits(maxASDUSize, ioSize) && WellChunked(ps, c, maxASDUSize, ioSize)
    ensures Holds(c.sequence, c.points, Filled(c.sequence, c.points, maxASDUSize, ioSize).objects)
  {
    hide EncodedSize, MaxIOAs, MaximalRun, Filled, Consecutive, Holds;
    var a: nat, r: nat, n: nat :| PartOfRun(ps, c, a, r, n, maxASDUSize, ioSize);
    MaxIOAsTight(c.sequence, maxASDUSize, ioSize, |c.points|);
    FilledTakes(c.sequence, c.points, maxASDUSize, ioSize);
  }

  /** The ASDUs hold all that was handed to them exactly when every chunk is sound. */
  lemma {:induction false} DeliveredIff(ps: seq<Point>, chunks: seq<Chunk>, maxASDUSize: int, ioSize: int)
    requires Fits(maxASDUSize, ioSize) && AllWellChunked(ps, chunks, maxASDUSize, ioSize)
    ensures |Delivered(Asdus(chunks, maxASDUSize, ioSize))| <= |Joined(chunks)|
    ensures Delivered(Asdus(chunks, maxASDUSize, ioSize)) == Joined(chunks) <==> AllSound(chunks)
    decreases |chunks|
  {
    if chunks != [] {
      hide WellChunked, Filled, AddressesFit, Encoded;
      var c, rest := chunks[0], chunks[1..];
      var asdus := Asdus(chunks, maxASDUSize, ioSize);
      assert asdus[1..] == Asdus(rest, maxASDUSize, ioSize);
      assert forall d :: d in chunks <==> d == c || d in rest;
      DeliveredIff(ps, rest, maxASDUSize, ioSize);
      ChunkFilled(ps, c, maxASDUSize, ioSize);
      HeldExactly(c.sequence, c.points, asdus[0].objects);
      FirstDelivered(asdus[0].objects, c.points, Delivered(asdus[1..]), Joined(rest));
      assert Delivered(asdus) == asdus[0].objects + Delivered(asdus[1..]);
      assert AllSound(chunks) <==> Sound(c) && AllSound(rest);
    }
  }

  /** A first part and a rest, each of which may be shorter. */
  lemma FirstDelivered(got: seq<Point>, points: seq<Point>, rest: seq<Point>, all: seq<Point>)
    requires |got| <= |points| && |rest| <= |all|
    ensures |got + rest| <= |points + all|
    ensures got + rest == points + all <==> got == points && rest == all
  {
    if got + rest == points + all {
      assert |got| == |points|;
      assert (got + rest)[..|got|] == got && (points + all)[..|got|] == points;
      SamePrefix(points, rest, all);
    }
  }

  lemma SamePrefix(a: seq<Point>, b: seq<Point>, c: seq<Point>)
    ensures a + b == a + c <==> b == c
  {
    assert (a + b)[|a|..] == b && (a + c)[|a|..] == c;
  }

  /** The addresses at the beginning, and after every `m` points, fit. */
  predicate EveryFits(run: seq<Point>, m: int)
    requires m >= 1
    decreases |run|
  {
    run == [] || (FitsIoa(run[0].ioa) && EveryFits(run[Min(m, |run|)..], m))
  }

  /** The addresses of a run that are written, as a sequence or one by one. */
  predicate RunFits(run: seq<Point>, sequence: bool, m: int)
    requires m >= 1
  {
    if sequence then EveryFits(run, m) else forall i :: 0 <= i < |run| ==> FitsIoa(run[i].ioa)
  }

  lemma {:induction false} ChunksOfSound(run: seq<Point>, sequence: bool, m: int)
    requires m >= 1
    ensures AllSound(ChunksOf(run, sequence, m)) <==> Min(m, |run|) <= MAX_ELEMENTS && RunFits(run, sequence, m)
    decreases |run|
  {
    if run != [] {
      var n := Min(m, |run|);
      ChunksOfSound(run[n..], sequence, m);
      var c, rest := Chunk(sequence, run[..n]), ChunksOf(run[n..], sequence, m);
      assert ChunksOf(run, sequence, m) == [c] + rest;
      assert forall d :: d in [c] + rest <==> d == c || d in rest;
      if !sequence { assert run == run[..n] + run[n..]; }
      assert c in ChunksOf(run, sequence, m);
    }
  }

  function LongestRun(ps: seq<Point>): nat
    decreases |ps|
  {
    if ps == [] then 0
    else
      var n, rest := RunLength(ps), LongestRun(ps[RunLength(ps)..]);
      if n > rest then n else rest
  }

  /** Every address that is written fits: those of points that are sent one by one, and the first one of each sequence. */
  predicate WrittenFit(ps: seq<Point>, maxASDUSize: int, ioSize: int)
    requires Fits(maxASDUSize, ioSize)
    decreases |ps|
  {
    ps == [] ||
      var n := RunLength(ps);
      MaxIOAsTight(n >= 3, maxASDUSize, ioSize, 0);
      RunFits(ps[..n], n >= 3, MaxIOAs(n >= 3, maxASDUSize, ioSize)) && WrittenFit(ps[n..], maxASDUSize, ioSize)
  }

  /** So it is when all addresses fit. */
  lemma {:induction false} AllFit(ps: seq<Point>, maxASDUSize: int, ioSize: int)
    requires Fits(maxASDUSize, ioSize) && forall i :: 0 <= i < |ps| ==> FitsIoa(ps[i].ioa)
    ensures WrittenFit(ps, maxASDUSize, ioSize)
    decreases |ps|
  {
    if ps != [] {
      hide MaxIOAs, RunLength, FitsIoa;
      var n := RunLength(ps);
      MaxIOAsTight(n >= 3, maxASDUSize, ioSize, 0);
      EveryFitsAll(ps[..n], MaxIOAs(n >= 3, maxASDUSize, ioSize));
      AllFit(ps[n..], maxASDUSize, ioSize);
    }
  }

  lemma {:induction false} EveryFitsAll(run: seq<Point>, m: int)
    requires m >= 1 && forall i :: 0 <= i < |run| ==> FitsIoa(run[i].ioa)
    ensures EveryFits(run, m)
    decreases |run|
  {
    if run != [] { EveryFitsAll(run[Min(m, |run|)..], m); }
  }

  lemma {:induction false} ChunksSound(ps: seq<Point>, maxASDUSize: int, ioSize: int)
    requires Fits(maxASDUSize, ioSize)
    ensures AllSound(Chunks(ps, maxASDUSize, ioSize))
      <==> (MaxIOAs(true, maxASDUSize, ioSize) <= MAX_ELEMENTS || LongestRun(ps) <= MAX_ELEMENTS)
           && WrittenFit(ps, maxASDUSize, ioSize)
    decreases |ps|
  {
    if ps != [] {
      hide MaxIOAs, ChunksOf, RunLength, Sound, RunFits;
      var n := RunLength(ps);
      var m := MaxIOAs(n >= 3, maxASDUSize, ioSize);
      MaxIOAsTight(n >= 3, maxASDUSize, ioSize, 0);
      ChunksOfSound(ps[..n], n >= 3, m);
      ChunksSound(ps[n..], maxASDUSize, ioSize);
      var a, b := ChunksOf(ps[..n], n >= 3, m), Chunks(ps[n..], maxASDUSize, ioSize);
      assert forall c :: c in a + b <==> c in a || c in b;
    }
  }

  /**
   * The objects of all ASDUs are the points, in order and each once, exactly when a sequence cannot be handed more than
   * 127 objects (either by the size of the ASDU, or because no run of addresses is that long) and every address that is
   * written fits into three bytes.
   */
  lemma AllPointsArrive(ps: seq<Point>, maxASDUSize: int, ioSize: int)
    requires Fits(maxASDUSize, ioSize)
    ensures Delivered(Asdus(Chunks(ps, maxASDUSize, ioSize), maxASDUSize, ioSize)) == ps
      <==> (MaxIOAs(true, maxASDUSize, ioSize) <= MAX_ELEMENTS || LongestRun(ps) <= MAX_ELEMENTS)
           && WrittenFit(ps, maxASDUSize, ioSize)
  {
    hide MaxIOAs, Delivered, Joined, AllSound, AllWellChunked, WrittenFit;
    var chunks := Chunks(ps, maxASDUSize, ioSize);
    assert ps[0..] == ps;
    ChunksAreRuns(ps, 0, maxASDUSize, ioSize);
    ChunksJoin(ps, maxASDUSize, ioSize);
    DeliveredIff(ps, chunks, maxASDUSize, ioSize);
    ChunksSound(ps, maxASDUSize, ioSize);
  }

  lemma ConsecutiveIsRun(ps: seq<Point>)
    requires ps != [] && Consecutive(ps)
    ensures RunLength(ps) == |ps| && LongestRun(ps) == |ps|
  {
    assert ps[|ps|..] == [];
  }

  /** With the default size of 249, one run of single points is answered completely exactly up to 127 points. */
  lemma SinglePointsArrive(ps: seq<Point>)
    requires ps != [] && Consecutive(ps) && forall i :: 0 <= i < |ps| ==> FitsIoa(ps[i].ioa)
    ensures MaxIOAs(true, 249, 4) == 240
    ensures Delivered(Asdus(Chunks(ps, 249, 4), 249, 4)) == ps <==> |ps| <= 127
  {
    ConsecutiveIsRun(ps);
    AllFit(ps, 249, 4);
    AllPointsArrive(ps, 249, 4);
    hide Delivered, Asdus, Chunks, WrittenFit, LongestRun, RunLength;
  }

  /** Three points with the addresses 0x1000000 to 0x1000002 are not answered completely either. */
  lemma LargeAddressesAreLost()
    ensures
      var ps := [Point(0x100_0000, 0), Point(0x100_0001, 0), Point(0x100_0002, 0)];
      LongestRun(ps) == 3 && Delivered(Asdus(Chunks(ps, 249, 4), 249, 4)) != ps
  {
    var ps := [Point(0x100_0000, 0), Point(0x100_0001, 0), Point(0x100_0002, 0)];
    ConsecutiveIsRun(ps);
    assert ps[..3] == ps;
    assert !EveryFits(ps, 240);
    AllPointsArrive(ps, 249, 4);
  }
}
