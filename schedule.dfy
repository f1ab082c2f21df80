/** The configuration-write schedule of the main program (main/qcd.c): the
    sweep loop runs numConfs sweeps and, after the sweeps the schedule
    selects, writes a configuration to a file numbered by the counter nw. */
module Schedule {
  import opened CArith
  import opened Init

  /** The write test of the sweep loop as written: the `%` is computed
      first, then n > numThermConfs and writeConfsFreq > 0 are tested.
      None when the `%` is reached with writeConfsFreq == 0, a division by
      zero. */
  function WriteTestAsWritten(n: int, therm: int, freq: int): Option<bool>
  {
    if freq == 0 then None
    else Some(CRem(n - therm + 1, freq) == 0 && n > therm && freq > 0)
  }

  /** The write test with the sign of writeConfsFreq tested first: after
      sweep n a configuration is written when writes are enabled, the
      thermalisation is over and n - numThermConfs + 1 is a multiple of
      writeConfsFreq. */
  predicate WriteNow(n: int, therm: int, freq: int)
  {
    freq > 0 && n > therm && CRem(n - therm + 1, freq) == 0
  }

  /** Wherever the test as written is defined, it agrees with WriteNow. */
  lemma WriteTestAgrees(n: int, therm: int, freq: int)
    ensures WriteTestAsWritten(n, therm, freq).Some? ==> (WriteTestAsWritten(n, therm, freq).value <==> WriteNow(n, therm, freq))
  {
  }

  /** With writeConfsFreq == 0, meant as "never write", the test as written
      divides by zero on every sweep, from the first one, n = 0. */
  lemma WriteTestDividesByZero()
    ensures WriteTestAsWritten(0, 0, 0) == None && !WriteNow(0, 0, 0)
  {
  }

  /** The division by zero of the write test is latent in main/qcd.c:
      initProgram runs before the sweep loop and, as written, already divides
      by zero for every parameter set with writeConfsFreq == 0 that passes
      its first three tests; the others are refused there. */
  lemma WriteTestHiddenByInit(p: RunParams)
    requires p.writeConfsFreq == 0
    ensures RejectedAsWritten(p) == None || RejectedAsWritten(p) == Some(true)
    ensures RejectedAsWritten(p) == Some(true) <==> p.numConfs <= 0 || p.decorSteps < 0 || p.numThermConfs < 0
  {
  }

  /** The schedule in Euclidean terms, and nothing is written during the
      thermalisation. */
  lemma WriteCondition(n: int, therm: int, freq: int)
    ensures WriteNow(n, therm, freq) <==> freq > 0 && n > therm && (n - therm + 1) % freq == 0
    ensures n <= therm ==> !WriteNow(n, therm, freq)
  {
    if freq > 0 && n > therm {
      CDivNonNegative(n - therm + 1, freq);
    }
  }

  /** Writes are exactly writeConfsFreq sweeps apart: the next write after
      one at sweep a is at sweep a + writeConfsFreq, and none comes between. */
  lemma WritesSpaced(a: int, c: int, therm: int, freq: int)
    requires WriteNow(a, therm, freq)
    ensures WriteNow(a + freq, therm, freq)
    ensures a < c < a + freq ==> !WriteNow(c, therm, freq)
  {
    WriteCondition(a, therm, freq);
    WriteCondition(a + freq, therm, freq);
    WriteCondition(c, therm, freq);
    ModAddMultiple(a - therm + 1, 1, freq);
    if a < c < a + freq {
      ModAddMod(a - therm + 1, c - a, freq);
      assert (c - therm + 1) % freq == (c - a) % freq;
      DivModUnique(c - a, freq, 0, c - a);
    }
  }

  /** When initProgram accepted the parameters with writes enabled and the
      last sweep lies past the thermalisation, the last sweep writes. */
  lemma LastSweepWrites(p: RunParams)
    requires InitProgram(p) && p.writeConfsFreq > 0 && p.numConfs - 1 > p.numThermConfs
    ensures WriteNow(p.numConfs - 1, p.numThermConfs, p.writeConfsFreq)
  {
    WriteCondition(p.numConfs - 1, p.numThermConfs, p.writeConfsFreq);
  }

  /** The sweeps among 0 .. m-1 after which a configuration is written, in
      loop order. */
  function WriteSweeps(m: int, therm: int, freq: int): seq<int>
    decreases m
  {
    if m <= 0 then []
    else WriteSweeps(m - 1, therm, freq) + (if WriteNow(m - 1, therm, freq) then [m - 1] else [])
  }

  /** Exactly the selected sweeps below m are written, in increasing order. */
  lemma {:induction false} WriteSweepsExact(m: int, therm: int, freq: int)
    ensures forall n :: n in WriteSweeps(m, therm, freq) <==> 0 <= n < m && WriteNow(n, therm, freq)
    ensures forall i, j :: 0 <= i < j < |WriteSweeps(m, therm, freq)| ==>
              WriteSweeps(m, therm, freq)[i] < WriteSweeps(m, therm, freq)[j]
    decreases m
  {
    if m > 0 {
      WriteSweepsExact(m - 1, therm, freq);
      var prev := WriteSweeps(m - 1, therm, freq);
      var last := if WriteNow(m - 1, therm, freq) then [m - 1] else [];
      assert WriteSweeps(m, therm, freq) == prev + last;
      forall i | 0 <= i < |prev|
        ensures prev[i] < m - 1
      {
        assert prev[i] in prev;
      }
      assert forall i :: 0 <= i < |last| ==> last[i] == m - 1;
    }
  }

  /** Consecutive writes are writeConfsFreq sweeps apart. */
  lemma WriteSweepsSpaced(m: int, therm: int, freq: int, j: int)
    requires 0 <= j && j + 1 < |WriteSweeps(m, therm, freq)|
    ensures WriteSweeps(m, therm, freq)[j + 1] == WriteSweeps(m, therm, freq)[j] + freq
  {
    var ws := WriteSweeps(m, therm, freq);
    WriteSweepsExact(m, therm, freq);
    assert ws[j] in ws && ws[j + 1] in ws;
    var a := ws[j];
    WritesSpaced(a, ws[j + 1], therm, freq);
    if a + freq < ws[j + 1] {
      assert false;
    }
  }

  /** The sweep loop of main: numConfs update calls with sweep index n+1
      and, after each selected sweep n, nw++ and a write to the file
      numbered nw.  updates lists the sweep indices passed to the update,
      writes the pairs (sweep, file number) in loop order. */
  method SweepLoop(numConfs: int, therm: int, freq: int) returns (updates: seq<int>, writes: seq<(int, int)>, nw: int)
    ensures |updates| == if numConfs <= 0 then 0 else numConfs
    ensures forall k :: 0 <= k < |updates| ==> updates[k] == k + 1
    ensures nw == |writes| == |WriteSweeps(numConfs, therm, freq)|
    ensures forall j :: 0 <= j < |writes| ==> writes[j] == (WriteSweeps(numConfs, therm, freq)[j], j + 1)
  {
    updates, writes := [], [];
    var n := 0;
    nw := 0;
    while n < numConfs
      invariant 0 <= n && (numConfs <= 0 ==> n == 0) && (numConfs > 0 ==> n <= numConfs)
      invariant |updates| == n && forall k :: 0 <= k < n ==> updates[k] == k + 1
      invariant nw == |writes| == |WriteSweeps(n, therm, freq)|
      invariant forall j :: 0 <= j < |writes| ==> writes[j] == (WriteSweeps(n, therm, freq)[j], j + 1)
    {
      updates := updates + [n + 1];
      if WriteNow(n, therm, freq) {
        nw := nw + 1;
        writes := writes + [(n, nw)];
      }
      n := n + 1;
    }
  }
}
