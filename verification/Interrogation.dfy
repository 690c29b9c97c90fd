/** Answering an interrogation (interrogation.c), and sending the same data periodically (periodic_sender.c). */
module Interrogation {
  import opened Packing

  /** The loop that finds how many points from `i` on have consecutive addresses. */
  method SequenceLength(ps: seq<Point>, i: nat) returns (seqLen: nat)
    requires i < |ps|
    ensures seqLen == RunLength(ps[i..])
  {
    seqLen := 1;
    while i + seqLen < |ps| && ps[i + seqLen].ioa == ps[i + seqLen - 1].ioa + 1
      invariant 1 <= seqLen <= |ps| - i
      invariant Consecutive(ps[i..][..seqLen])
    {
      ConsecutiveGrows(ps[i..], seqLen);
      seqLen := seqLen + 1;
    }
    LongestIsRun(ps[i..], seqLen);
  }

  lemma ConsecutiveGrows(ps: seq<Point>, n: nat)
    requires 1 <= n < |ps| && Consecutive(ps[..n]) && ps[n].ioa == ps[n - 1].ioa + 1
    ensures Consecutive(ps[..n + 1])
  {
    assert forall i :: 0 <= i < n ==> ps[..n + 1][i] == ps[..n][i];
  }

  lemma LongestIsRun(ps: seq<Point>, n: nat)
    requires 1 <= n <= |ps| && Consecutive(ps[..n])
    requires n < |ps| ==> ps[n].ioa != ps[n - 1].ioa + 1
    ensures RunLength(ps) == n
  {
    var r := RunLength(ps);
    assert forall i :: 0 <= i < n ==> ps[i] == ps[..n][i];
    assert forall i :: 0 <= i < r ==> ps[i] == ps[..r][i];
  }

  /** Builds one ASDU. */
  method FillAsdu(sequence: bool, chunk: seq<Point>, maxASDUSize: int, ioSize: int) returns (newAsdu: Asdu)
    ensures newAsdu == Filled(sequence, chunk, maxASDUSize, ioSize)
  {
    newAsdu := Asdu(sequence, []);
    for k := 0 to |chunk|
      invariant newAsdu == Filled(sequence, chunk[..k], maxASDUSize, ioSize)
    {
      assert chunk[..k + 1][..k] == chunk[..k];
      newAsdu := AddInformationObject(newAsdu, chunk[k], maxASDUSize, ioSize);
    }
    assert chunk[..|chunk|] == chunk;
  }

  /** Sends one run in chunks of at most `maxIOAs` points. */
  method SendRun(run: seq<Point>, sequence: bool, maxIOAs: int, maxASDUSize: int, ioSize: int) returns (sent: seq<Asdu>)
    requires maxIOAs >= 1
    ensures sent == Asdus(ChunksOf(run, sequence, maxIOAs), maxASDUSize, ioSize)
  {
    hide ChunksOf, Filled;
    sent := [];
    var j := 0;
    assert run[0..] == run;
    while j < |run|
      invariant 0 <= j
      invariant sent + Asdus(ChunksOf(run[Min(j, |run|)..], sequence, maxIOAs), maxASDUSize, ioSize)
        == Asdus(ChunksOf(run, sequence, maxIOAs), maxASDUSize, ioSize)
      decreases |run| - j
    {
      var chunkLen := if j + maxIOAs < |run| then maxIOAs else |run| - j;
      var newAsdu := FillAsdu(sequence, run[j..j + chunkLen], maxASDUSize, ioSize);
      AsdusStep(run, j, chunkLen, sequence, maxIOAs, maxASDUSize, ioSize);
      Regroup(sent, [newAsdu], Asdus(ChunksOf(run[Min(j + maxIOAs, |run|)..], sequence, maxIOAs), maxASDUSize, ioSize));
      sent := sent + [newAsdu];
      j := j + maxIOAs;
    }
    assert run[|run|..] == [];
    NoChunks(sequence, maxIOAs, maxASDUSize, ioSize);
  }

  lemma Regroup(a: seq<Asdu>, b: seq<Asdu>, c: seq<Asdu>)
    ensures a + (b + c) == (a + b) + c
  {
  }

  lemma NoChunks(sequence: bool, m: int, maxASDUSize: int, ioSize: int)
    requires m >= 1
    ensures Asdus(ChunksOf([], sequence, m), maxASDUSize, ioSize) == []
    ensures Fits(maxASDUSize, ioSize) ==> Asdus(Chunks([], maxASDUSize, ioSize), maxASDUSize, ioSize) == []
  {
  }

  lemma AsdusStep(run: seq<Point>, j: nat, n: nat, sequence: bool, m: int, maxASDUSize: int, ioSize: int)
    requires j < |run| && m >= 1 && n == Min(m, |run| - j)
    ensures Asdus(ChunksOf(run[j..], sequence, m), maxASDUSize, ioSize)
      == [Filled(sequence, run[j..j + n], maxASDUSize, ioSize)]
         + Asdus(ChunksOf(run[Min(j + m, |run|)..], sequence, m), maxASDUSize, ioSize)
  {
    assert run[j..][..n] == run[j..j + n] && run[j..][n..] == run[j + n..];
    assert j + n == Min(j + m, |run|);
    var rest := ChunksOf(run[j + n..], sequence, m);
    assert ChunksOf(run[j..], sequence, m) == [Chunk(sequence, run[j..j + n])] + rest;
  }

  /** The loop over the runs of a type; the same code stands in both files. */
  method SendPoints(ps: seq<Point>, maxASDUSize: int, ioSizeWithIOA: int) returns (sent: seq<Asdu>)
    requires Fits(maxASDUSize, ioSizeWithIOA)
    ensures sent == Asdus(Chunks(ps, maxASDUSize, ioSizeWithIOA), maxASDUSize, ioSizeWithIOA)
  {
    hide EncodedSize, Divide, Filled, Chunks, ChunksOf, RunLength;
    var ioSizeNoIOA := GetIOSizeNoIOA(ioSizeWithIOA);
    sent := [];
    var i := 0;
    assert ps[0..] == ps;
    while i < |ps|
      invariant i <= |ps|
      invariant sent + Asdus(Chunks(ps[i..], maxASDUSize, ioSizeWithIOA), maxASDUSize, ioSizeWithIOA)
        == Asdus(Chunks(ps, maxASDUSize, ioSizeWithIOA), maxASDUSize, ioSizeWithIOA)
    {
      var seqLen := SequenceLength(ps, i);
      var useSequence := seqLen >= 3;
      var maxIOAs;
      if useSequence {
        maxIOAs := CalcMaxIOAsSQ1(maxASDUSize, ioSizeWithIOA, ioSizeNoIOA);
      } else {
        maxIOAs := CalcMaxIOAsSQ0(maxASDUSize, ioSizeWithIOA);
      }
      MaxIOAsTight(useSequence, maxASDUSize, ioSizeWithIOA, 0);
      var some := SendRun(ps[i..i + seqLen], useSequence, maxIOAs, maxASDUSize, ioSizeWithIOA);
      ChunksStep(ps, i, seqLen, maxASDUSize, ioSizeWithIOA);
      Regroup(sent, some, Asdus(Chunks(ps[i + seqLen..], maxASDUSize, ioSizeWithIOA), maxASDUSize, ioSizeWithIOA));
      sent := sent + some;
      i := i + seqLen;
    }
    assert ps[|ps|..] == [];
    NoChunks(false, 1, maxASDUSize, ioSizeWithIOA);
  }

  lemma ChunksStep(ps: seq<Point>, i: nat, n: nat, maxASDUSize: int, ioSize: int)
    requires i < |ps| && Fits(maxASDUSize, ioSize) && n == RunLength(ps[i..])
    ensures MaxIOAs(n >= 3, maxASDUSize, ioSize) >= 1
    ensures Asdus(Chunks(ps[i..], maxASDUSize, ioSize), maxASDUSize, ioSize)
      == Asdus(ChunksOf(ps[i..i + n], n >= 3, MaxIOAs(n >= 3, maxASDUSize, ioSize)), maxASDUSize, ioSize)
         + Asdus(Chunks(ps[i + n..], maxASDUSize, ioSize), maxASDUSize, ioSize)
  {
    hide MaxIOAs, ChunksOf, Filled;
    MaxIOAsTight(n >= 3, maxASDUSize, ioSize, 0);
    assert ps[i..][..n] == ps[i..i + n] && ps[i..][n..] == ps[i + n..];
  }

  /** send_interrogation_for_type, on a type with its configured addresses and their values. */
  method SendInterrogationForType(ps: seq<Point>, maxASDUSize: int, ioSizeWithIOA: int) returns (sent: seq<Asdu>)
    requires Fits(maxASDUSize, ioSizeWithIOA)
    ensures sent == Asdus(Chunks(ps, maxASDUSize, ioSizeWithIOA), maxASDUSize, ioSizeWithIOA)
    ensures Delivered(sent) == ps <==>
      (MaxIOAs(true, maxASDUSize, ioSizeWithIOA) <= MAX_ELEMENTS || LongestRun(ps) <= MAX_ELEMENTS)
      && WrittenFit(ps, maxASDUSize, ioSizeWithIOA)
  {
    AllPointsArrive(ps, maxASDUSize, ioSizeWithIOA);
    if |ps| > 0 {
      sent := SendPoints(ps, maxASDUSize, ioSizeWithIOA);
    } else {
      sent := [];
    }
  }

  /** Times are unsigned 64 bit numbers. */
  const WORD: nat := 0x1_0000_0000_0000_0000

  class PeriodicConfig {
    var enabled: bool
    var periodMs: nat
    var lastSent: nat

    constructor ()
      ensures !enabled && periodMs == 5000 && lastSent == 0
    {
      enabled, periodMs, lastSent := false, 5000, 0;
    }

    /** It is time to send again. */
    predicate Due(now: nat)
      reads this
      ensures lastSent <= now < WORD ==> (Due(now) <==> enabled && lastSent + periodMs <= now)
      ensures now < lastSent < WORD ==> (Due(now) <==> enabled && lastSent + periodMs <= now + WORD)
    {
      enabled && (now - lastSent) % WORD >= periodMs
    }

    /** send_periodic_data_for_type: what an interrogation sends, when it is due. */
    method SendPeriodicDataForType(ps: seq<Point>, maxASDUSize: int, ioSizeWithIOA: int, now: nat)
      returns (sent: seq<Asdu>)
      requires Fits(maxASDUSize, ioSizeWithIOA)
      modifies this`lastSent
      ensures sent ==
        if old(Due(now)) then Asdus(Chunks(ps, maxASDUSize, ioSizeWithIOA), maxASDUSize, ioSizeWithIOA) else []
      ensures lastSent == if old(Due(now)) && ps != [] then now else old(lastSent)
    {
      if !enabled || |ps| == 0 { return []; }
      if (now - lastSent) % WORD < periodMs { return []; }
      sent := SendPoints(ps, maxASDUSize, ioSizeWithIOA);
      lastSent := now;
    }
  }
}
