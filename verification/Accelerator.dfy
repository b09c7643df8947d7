// ntt_kyber_hw.c: the memory-mapped transform unit and its driver.
module Accelerator {
  import opened MachineInts
  import opened ModQ
  import opened NttSpec
  import NttCode
  import opened Reduce
  import opened RingProduct
  import Poly

  // The unit as README.md:116-136 describes it. DATA_OUT keeps the last completed result.

  datatype Phase = Idle | Loading | Running | Done

  datatype State = State(phase: Phase, dataIn: seq<int>, core: seq<int>, left: nat, dataOut: seq<int>, completed: nat)

  predicate WellFormed(s: State) {
    |s.dataIn| == |s.core| == |s.dataOut| == 256
  }

  /** No transform is under way. */
  predicate Quiescent(s: State) {
    s.phase.Idle? || s.phase.Done?
  }

  /** One internal step: load the operands, compute for a while, publish the result. */
  function Step(work: nat, s: State): (t: State)
    requires WellFormed(s)
    ensures WellFormed(t)
  {
    match s.phase
    case Loading => s.(phase := Running, core := s.dataIn, left := work)
    case Running =>
      if s.left > 0 then s.(left := s.left - 1)
      else s.(phase := Done, dataOut := Ntt(s.core), completed := s.completed + 1)
    case _ => s
  }

  function Advance(work: nat, s: State, n: nat): (t: State)
    requires WellFormed(s)
    ensures WellFormed(t)
    decreases n
  {
    if n == 0 then s else Advance(work, Step(work, s), n - 1)
  }

  /** The state once the transform of `operands` is complete. */
  function Finished(s: State, operands: seq<int>): (t: State)
    requires WellFormed(s) && |operands| == 256
    ensures WellFormed(t) && Quiescent(t)
  {
    s.(phase := Done, core := operands, left := 0, dataOut := Ntt(operands), completed := s.completed + 1)
  }

  function PutWord(s: State, i: nat, v: int): (t: State)
    requires WellFormed(s) && i < 256
    ensures WellFormed(t)
  {
    s.(dataIn := s.dataIn[i := v])
  }

  /** A write to the control register: START=1 begins a transform when none is under way, START=0 acknowledges a
      finished one, and every other write has no effect. */
  function Control(s: State, start: bool): (t: State)
    requires WellFormed(s)
    ensures WellFormed(t)
  {
    if start && Quiescent(s) then s.(phase := Loading)
    else if !start && s.phase.Done? then s.(phase := Idle)
    else s
  }

  const CTRL_START := 1
  const CTRL_BUSY := 4
  const CTRL_DONE := 8

  /** The unit on the bus. Before access number n it makes pace(n) internal steps: every interleaving of
      the processor with the unit is some choice of `pace`. */
  class Device {
    const work: nat
    const pace: nat -> nat
    var state: State
    var clock: nat

    predicate Valid()
      reads this
    {
      WellFormed(state)
    }

    constructor (work: nat, pace: nat -> nat)
      ensures Valid() && state.phase.Idle? && state.completed == 0
      ensures this.work == work && this.pace == pace && clock == 0
    {
      this.work := work;
      this.pace := pace;
      var zeros := seq(256, _ => 0);
      state := State(Idle, zeros, zeros, 0, zeros, 0);
      clock := 0;
    }

    /** The state at the next access. */
    function Now(): (s: State)
      requires Valid()
      reads this
      ensures WellFormed(s)
    {
      Advance(work, state, pace(clock))
    }

    method WriteDataIn(i: nat, v: uint32)
      requires Valid() && i < 256
      modifies this
      ensures Valid() && state == PutWord(old(Now()), i, v) && clock == old(clock) + 1
    {
      state := PutWord(Now(), i, v);
      clock := clock + 1;
    }

    method WriteControl(v: uint32)
      requires Valid()
      modifies this
      ensures Valid() && clock == old(clock) + 1
      ensures var s, start := old(Now()), v % 2 == 1;
              && (start && Quiescent(s) ==> state == s.(phase := Loading))
              && (!start && s.phase.Done? ==> state == s.(phase := Idle))
              && ((if start then !Quiescent(s) else !s.phase.Done?) ==> state == s)
    {
      state := Control(Now(), v % 2 == CTRL_START);
      clock := clock + 1;
    }

    method ReadControl() returns (v: uint32)
      requires Valid()
      modifies this
      ensures Valid() && state == old(Now()) && clock == old(clock) + 1
      ensures v / 8 % 2 == 1 <==> state.phase.Done?
      ensures v / 4 % 2 == 1 <==> !Quiescent(state)
    {
      state := Now();
      clock := clock + 1;
      v := if state.phase.Done? then CTRL_DONE else if state.phase.Idle? then 0 else CTRL_BUSY;
    }

    method ReadDataOut(i: nat) returns (v: int)
      requires Valid() && i < 256
      modifies this
      ensures Valid() && state == old(Now()) && clock == old(clock) + 1
      ensures v == state.dataOut[i]
    {
      state := Now();
      clock := clock + 1;
      v := state.dataOut[i];
    }
  }

  // What the accesses of one call add up to.

  /** The internal steps before accesses c, ..., c + n - 1. */
  function Total(pace: nat -> nat, c: nat, n: nat): nat {
    if n == 0 then 0 else Total(pace, c, n - 1) + pace(c + n - 1)
  }

  /** The state after the first n words have been written. */
  function Loaded(work: nat, pace: nat -> nat, s: State, c: nat, words: seq<int>, n: nat): (t: State)
    requires WellFormed(s) && n <= |words| == 256
    ensures WellFormed(t)
  {
    if n == 0 then s
    else PutWord(Advance(work, Loaded(work, pace, s, c, words, n - 1), pace(c + n - 1)), n - 1, words[n - 1])
  }

  /** The state after all the words and the START. */
  function Started(work: nat, pace: nat -> nat, s: State, c: nat, words: seq<int>): (t: State)
    requires WellFormed(s) && |words| == 256
    ensures WellFormed(t)
  {
    Control(Advance(work, Loaded(work, pace, s, c, words, 256), pace(c + 256)), true)
  }

  /** The number of polls, n at most, until DONE is seen. */
  function Polls(work: nat, pace: nat -> nat, s: State, c: nat, n: nat): (k: nat)
    requires WellFormed(s)
    ensures k <= n && (n > 0 ==> k > 0)
    decreases n
  {
    if n == 0 then 0
    else
      var t := Advance(work, s, pace(c));
      if t.phase.Done? || n == 1 then 1 else 1 + Polls(work, pace, t, c + 1, n - 1)
  }

  lemma {:induction false} AdvanceAdd(work: nat, s: State, m: nat, n: nat)
    requires WellFormed(s)
    ensures Advance(work, Advance(work, s, m), n) == Advance(work, s, m + n)
    decreases m
  {
    hide Step;
    if m != 0 {
      AdvanceAdd(work, Step(work, s), m - 1, n);
    }
  }

  lemma {:induction false} QuiescentStays(work: nat, s: State, n: nat)
    requires WellFormed(s) && Quiescent(s)
    ensures Advance(work, s, n) == s
    decreases n
  {
    if n != 0 {
      QuiescentStays(work, s, n - 1);
    }
  }

  /** A running transform finishes with its own operands after left + 1 further steps and not before. */
  lemma {:induction false} RunningProgress(work: nat, s: State, n: nat)
    requires WellFormed(s) && s.phase.Running?
    ensures n <= s.left ==> Advance(work, s, n) == s.(left := s.left - n)
    ensures n > s.left ==> Advance(work, s, n) == Finished(s, s.core)
    decreases n
  {
    hide Ntt;
    if n != 0 {
      if s.left > 0 {
        RunningProgress(work, Step(work, s), n - 1);
      } else {
        QuiescentStays(work, Step(work, s), n - 1);
      }
    }
  }

  /** A transform that is loading needs one step more, and uses the operands present at that moment. */
  lemma LoadingProgress(work: nat, s: State, n: nat)
    requires WellFormed(s) && s.phase.Loading?
    ensures n > work + 1 <==> Advance(work, s, n).phase.Done?
    ensures n <= work + 1 ==> !Quiescent(Advance(work, s, n)) && Advance(work, s, n).dataOut == s.dataOut
    ensures n > work + 1 ==> Advance(work, s, n) == Finished(s, s.dataIn)
  {
    hide Ntt;
    if n == 0 {
      assert Advance(work, s, n) == s;
    } else {
      RunningProgress(work, Step(work, s), n - 1);
    }
  }

  /** What a write to the control register leads to. An accepted START completes after work + 2 steps, not earlier,
      with the transform of the operands present when it was sent; one that is sent too early changes nothing that
      the unit will ever do. A stop keeps the result, and does not stop a transform under way. */
  lemma ControlOutcome(work: nat, s: State, n: nat)
    requires WellFormed(s)
    ensures var t := Advance(work, Control(s, true), n);
            && (Quiescent(s) ==> (t.phase.Done? <==> n > work + 1) && !t.phase.Idle?
                                 && t.dataOut == (if n > work + 1 then Ntt(s.dataIn) else s.dataOut)
                                 && t.completed == s.completed + (if n > work + 1 then 1 else 0))
            && (!Quiescent(s) ==> t == Advance(work, s, n))
    ensures var t := Advance(work, Control(s, false), n);
            && (Quiescent(s) ==> t.phase.Idle? && t.dataOut == s.dataOut && t.completed == s.completed)
            && (!Quiescent(s) ==> t == Advance(work, s, n))
  {
    hide Ntt, Advance;
    if Quiescent(s) {
      LoadingProgress(work, Control(s, true), n);
      LoadingCompletes(work, Control(s, true), n);
      QuiescentStays(work, Control(s, false), n);
    }
  }

  lemma LoadingCompletes(work: nat, s: State, n: nat)
    requires WellFormed(s) && s.phase.Loading?
    ensures n <= work + 1 ==> Advance(work, s, n).completed == s.completed
  {
    if n > 0 {
      RunningProgress(work, Step(work, s), n - 1);
    }
  }

  /** Written to a unit at rest, the words arrive in DATA_IN, each at its place. */
  lemma {:induction false} LoadedAtRest(work: nat, pace: nat -> nat, s: State, c: nat, words: seq<int>, n: nat)
    requires WellFormed(s) && Quiescent(s) && n <= |words| == 256
    ensures Loaded(work, pace, s, c, words, n) == s.(dataIn := words[..n] + s.dataIn[n..])
  {
    if n == 0 {
      assert words[..0] + s.dataIn[0..] == s.dataIn;
    } else {
      LoadedAtRest(work, pace, s, c, words, n - 1);
      var t := Loaded(work, pace, s, c, words, n - 1);
      QuiescentStays(work, t, pace(c + n - 1));
      assert t.dataIn[n - 1 := words[n - 1]] == words[..n] + s.dataIn[n..];
    }
  }

  lemma StartedAtRest(work: nat, pace: nat -> nat, s: State, c: nat, words: seq<int>)
    requires WellFormed(s) && Quiescent(s) && |words| == 256
    ensures Started(work, pace, s, c, words) == s.(phase := Loading, dataIn := words)
  {
    hide Loaded;
    LoadedAtRest(work, pace, s, c, words, 256);
    assert words[..256] + s.dataIn[256..] == words;
    QuiescentStays(work, s.(dataIn := words), pace(c + 256));
  }

  lemma {:induction false} TotalFirst(pace: nat -> nat, c: nat, n: nat)
    requires n > 0
    ensures Total(pace, c, n) == pace(c) + Total(pace, c + 1, n - 1)
  {
    if n > 1 {
      TotalFirst(pace, c, n - 1);
    }
  }

  /** Polling ends with DONE exactly when the steps made during n polls finish the transform. */
  lemma {:induction false} PollsSeeDone(work: nat, pace: nat -> nat, s: State, c: nat, n: nat)
    requires WellFormed(s) && n > 0
    ensures var k := Polls(work, pace, s, c, n);
            Advance(work, s, Total(pace, c, k)).phase.Done? <==> Advance(work, s, Total(pace, c, n)).phase.Done?
    ensures var k := Polls(work, pace, s, c, n);
            k == n || Advance(work, s, Total(pace, c, k)).phase.Done?
    decreases n
  {
    hide Advance, Total;
    var t, k := Advance(work, s, pace(c)), Polls(work, pace, s, c, n);
    TotalFirst(pace, c, n);
    TotalFirst(pace, c, k);
    TotalNothing(pace, c + 1);
    AdvanceAdd(work, s, pace(c), Total(pace, c + 1, n - 1));
    AdvanceAdd(work, s, pace(c), Total(pace, c + 1, k - 1));
    if t.phase.Done? {
      QuiescentStays(work, t, Total(pace, c + 1, n - 1));
      QuiescentStays(work, t, Total(pace, c + 1, k - 1));
    } else if n > 1 {
      PollsSeeDone(work, pace, t, c + 1, n - 1);
    }
  }

  lemma TotalNothing(pace: nat -> nat, c: nat)
    ensures Total(pace, c, 0) == 0
  {
  }

  // The driver.

  const POLL_LIMIT: nat := 2_000_000
  const BURST_LEN := 16
  const NUM_BURSTS := 16

  /** The word sent for a coefficient: its residue when it lies in [-q, q). */
  function Word(v: int16): uint32 {
    ToUint32(if v < 0 then v + Q else v)
  }

  /** What a read of DATA_OUT[i] returns at the end of a call that starts at access c in state s. */
  function OutputWord(work: nat, pace: nat -> nat, s: State, c: nat, words: seq<int>, limit: nat, i: nat): int
    requires WellFormed(s) && |words| == 256 && i < 256
  {
    var t := Started(work, pace, s, c, words);
    var k := Polls(work, pace, t, c + 257, limit);
    Advance(work, t, Total(pace, c + 257, k + 2 + i)).dataOut[i]
  }

  /** The state left behind by such a call. */
  function Ended(work: nat, pace: nat -> nat, s: State, c: nat, words: seq<int>, limit: nat): (t: State)
    requires WellFormed(s) && |words| == 256
    ensures WellFormed(t)
  {
    var t := Started(work, pace, s, c, words);
    var k := Polls(work, pace, t, c + 257, limit);
    Advance(work, Control(Advance(work, t, Total(pace, c + 257, k + 1)), false), Total(pace, c + 258 + k, 256))
  }

  /** The internal steps made while the driver polls suffice for one transform. */
  predicate Prompt(work: nat, pace: nat -> nat, c: nat, limit: nat) {
    Total(pace, c + 257, limit) > work + 1
  }

  lemma {:induction false} TotalMonotone(pace: nat -> nat, c: nat, m: nat, n: nat)
    requires m <= n
    ensures Total(pace, c, m) <= Total(pace, c, n)
  {
    if m < n {
      TotalMonotone(pace, c, m, n - 1);
    }
  }

  lemma {:induction false} TotalSplit(pace: nat -> nat, c: nat, m: nat, n: nat)
    ensures Total(pace, c, m + n) == Total(pace, c, m) + Total(pace, c + m, n)
  {
    if n != 0 {
      TotalSplit(pace, c, m, n - 1);
    }
  }

  /** A call that starts with the unit at rest reads each word from its own transform if that is complete
      by then, and from the previous result if it is not. */
  lemma OutputOfCall(work: nat, pace: nat -> nat, s: State, c: nat, words: seq<int>, limit: nat, i: nat)
    requires WellFormed(s) && Quiescent(s) && |words| == 256 && i < 256
    ensures var k := Polls(work, pace, Started(work, pace, s, c, words), c + 257, limit);
            OutputWord(work, pace, s, c, words, limit, i)
            == if Total(pace, c + 257, k + 2 + i) > work + 1 then Ntt(words)[i] else s.dataOut[i]
  {
    hide Ntt, Total, Advance, Started, Polls;
    StartedAtRest(work, pace, s, c, words);
    var t := Started(work, pace, s, c, words);
    var k := Polls(work, pace, t, c + 257, limit);
    LoadingProgress(work, t, Total(pace, c + 257, k + 2 + i));
  }

  /** If the unit is prompt the call returns the transform of its own words, never an earlier result, has
      the unit complete one operation, and leaves it idle. */
  lemma PromptCall(work: nat, pace: nat -> nat, s: State, c: nat, words: seq<int>, limit: nat, i: nat)
    requires WellFormed(s) && Quiescent(s) && |words| == 256 && i < 256 && limit > 0
    requires Prompt(work, pace, c, limit)
    ensures OutputWord(work, pace, s, c, words, limit, i) == Ntt(words)[i]
    ensures var t := Ended(work, pace, s, c, words, limit);
            t.phase.Idle? && t.dataIn == words && t.dataOut == Ntt(words) && t.completed == s.completed + 1
  {
    hide Ntt, Total, Advance, Started, Polls;
    StartedAtRest(work, pace, s, c, words);
    var t := Started(work, pace, s, c, words);
    var k := Polls(work, pace, t, c + 257, limit);
    PollsSeeDone(work, pace, t, c + 257, limit);
    LoadingProgress(work, t, Total(pace, c + 257, limit));
    LoadingProgress(work, t, Total(pace, c + 257, k));
    TotalMonotone(pace, c + 257, k, k + 1);
    TotalMonotone(pace, c + 257, k, k + 2 + i);
    LoadingProgress(work, t, Total(pace, c + 257, k + 1));
    OutputOfCall(work, pace, s, c, words, limit, i);
    QuiescentStays(work, Control(Finished(t, words), false), Total(pace, c + 258 + k, 256));
  }

  /** A START sent while an earlier transform is still running is ignored, and the call returns that
      transform or what was published before it, whatever its own words. */
  lemma BusyCall(work: nat, pace: nat -> nat, s: State, c: nat, words: seq<int>, limit: nat, i: nat)
    requires WellFormed(s) && s.phase.Running? && Total(pace, c, 257) <= s.left && |words| == 256 && i < 256
    ensures var v := OutputWord(work, pace, s, c, words, limit, i);
            v == Ntt(s.core)[i] || v == s.dataOut[i]
  {
    hide Ntt, Total, Advance, Loaded;
    TotalStep(pace, c, 256);
    LoadedWhileRunning(work, pace, s, c, words, 256);
    var u := Loaded(work, pace, s, c, words, 256);
    RunningProgress(work, u, pace(c + 256));
    var t := Started(work, pace, s, c, words);
    var k := Polls(work, pace, t, c + 257, limit);
    RunningProgress(work, t, Total(pace, c + 257, k + 2 + i));
  }

  lemma TotalStep(pace: nat -> nat, c: nat, n: nat)
    ensures Total(pace, c, n + 1) == Total(pace, c, n) + pace(c + n)
  {
  }

  lemma {:induction false} LoadedWhileRunning(work: nat, pace: nat -> nat, s: State, c: nat, words: seq<int>, n: nat)
    requires WellFormed(s) && s.phase.Running? && n <= |words| == 256 && Total(pace, c, n) <= s.left
    ensures var t := Loaded(work, pace, s, c, words, n);
            t.phase.Running? && t.core == s.core && t.dataOut == s.dataOut && t.left == s.left - Total(pace, c, n)
  {
    if n != 0 {
      LoadedWhileRunning(work, pace, s, c, words, n - 1);
      RunningProgress(work, Loaded(work, pace, s, c, words, n - 1), pace(c + n - 1));
    }
  }

  /** ntt_kyber_hw.c:97-104, one burst of the write loop of pack_data_in_burst. */
  method WriteBurst(dev: Device, staging: array<uint32>, base: nat, ghost s: State, ghost c: nat)
    requires dev.Valid() && staging.Length == 256 && base + BURST_LEN <= 256 && WellFormed(s)
    requires dev.clock == c + base && dev.state == Loaded(dev.work, dev.pace, s, c, staging[..], base)
    modifies dev
    ensures dev.Valid() && dev.clock == c + base + BURST_LEN
    ensures dev.state == Loaded(dev.work, dev.pace, s, c, staging[..], base + BURST_LEN)
  {
    hide Advance, PutWord;
    var b := 0;
    while b < BURST_LEN
      invariant 0 <= b <= BURST_LEN && dev.Valid() && dev.clock == c + base + b
      invariant dev.state == Loaded(dev.work, dev.pace, s, c, staging[..], base + b)
    {
      dev.WriteDataIn(base + b, staging[base + b]);
      b := b + 1;
    }
  }

  /** ntt_kyber_hw.c:134-160: every DATA_IN word is written once, in order. */
  method PackDataIn(dev: Device, poly: array<int16>)
    requires dev.Valid() && poly.Length == 256
    modifies dev
    ensures dev.Valid() && dev.clock == old(dev.clock) + 256
    ensures dev.state == Loaded(dev.work, dev.pace, old(dev.state), old(dev.clock), Words(poly[..]), 256)
  {
    hide Loaded, Word;
    var staging := new uint32[256];
    var i := 0;
    while i < 256
      invariant 0 <= i <= 256 && dev.state == old(dev.state) && dev.clock == old(dev.clock)
      invariant forall j :: 0 <= j < i ==> staging[j] == Word(poly[j])
    {
      staging[i] := Word(poly[i]);
      i := i + 1;
    }
    assert staging[..] == Words(poly[..]);
    ghost var s, c := dev.state, dev.clock;
    NothingLoaded(dev.work, dev.pace, s, c, staging[..]);
    var burst := 0;
    while burst < NUM_BURSTS
      invariant 0 <= burst <= NUM_BURSTS && dev.Valid() && dev.clock == c + 16 * burst
      invariant dev.state == Loaded(dev.work, dev.pace, s, c, staging[..], 16 * burst)
      invariant staging[..] == Words(poly[..])
    {
      WriteBurst(dev, staging, burst * BURST_LEN, s, c);
      burst := burst + 1;
    }
  }

  lemma NothingLoaded(work: nat, pace: nat -> nat, s: State, c: nat, words: seq<int>)
    requires WellFormed(s) && |words| == 256
    ensures Loaded(work, pace, s, c, words, 0) == s
  {
  }

  function Words(a: seq<int16>): (w: seq<int>)
    ensures |w| == |a| && forall i :: 0 <= i < |a| ==> w[i] == Word(a[i])
  {
    seq(|a|, i requires 0 <= i < |a| => Word(a[i]))
  }

  /** The words are the canonical residues. */
  lemma WordsAreResidues(a: seq<int16>)
    requires forall i :: 0 <= i < |a| ==> -Q <= a[i] < Q
    ensures Words(a) == Canon(a)
  {
  }

  /** ntt_kyber_hw.c:225-228 */
  method PollDone(dev: Device)
    requires dev.Valid()
    modifies dev
    ensures dev.Valid()
    ensures var k := Polls(dev.work, dev.pace, old(dev.state), old(dev.clock), POLL_LIMIT);
            && dev.clock == old(dev.clock) + k
            && dev.state == Advance(dev.work, old(dev.state), Total(dev.pace, old(dev.clock), k))
    ensures dev.clock <= old(dev.clock) + 2_000_000
    ensures dev.clock == old(dev.clock) + 2_000_000 || dev.state.phase.Done?
  {
    hide Total, Advance, Polls;
    ghost var s, c := dev.state, dev.clock;
    TotalNothing(dev.pace, c);
    PollsStep(dev.work, dev.pace, s, c, POLL_LIMIT);
    var timeout := 0;
    var v := dev.ReadControl();
    TotalStep(dev.pace, c, 0);
    while v / CTRL_DONE % 2 != 1
      invariant dev.Valid() && 0 <= timeout < POLL_LIMIT && dev.clock == c + timeout + 1
      invariant dev.state == Advance(dev.work, s, Total(dev.pace, c, timeout + 1))
      invariant v / CTRL_DONE % 2 == 1 <==> dev.state.phase.Done?
      invariant Polls(dev.work, dev.pace, s, c, POLL_LIMIT)
             == if dev.state.phase.Done? || timeout + 1 == POLL_LIMIT then timeout + 1
                else timeout + 1 + Polls(dev.work, dev.pace, dev.state, dev.clock, POLL_LIMIT - timeout - 1)
      decreases POLL_LIMIT - timeout
    {
      timeout := timeout + 1;
      if timeout >= POLL_LIMIT {
        break;
      }
      TotalStep(dev.pace, c, timeout);
      AdvanceAdd(dev.work, s, Total(dev.pace, c, timeout), dev.pace(c + timeout));
      PollsStep(dev.work, dev.pace, dev.state, dev.clock, POLL_LIMIT - timeout);
      v := dev.ReadControl();
    }
  }

  lemma PollsStep(work: nat, pace: nat -> nat, s: State, c: nat, n: nat)
    requires WellFormed(s) && n > 0
    ensures var t := Advance(work, s, pace(c));
            Polls(work, pace, s, c, n)
            == if t.phase.Done? || n == 1 then 1 else 1 + Polls(work, pace, t, c + 1, n - 1)
  {
    hide Advance;
  }

  /** ntt_kyber_hw.c:168-189 */
  method UnpackDataOut(dev: Device, poly: array<int16>)
    requires dev.Valid() && poly.Length == 256
    modifies dev, poly
    ensures dev.Valid() && dev.clock == old(dev.clock) + 256
    ensures dev.state == Advance(dev.work, old(dev.state), Total(dev.pace, old(dev.clock), 256))
    ensures forall i :: 0 <= i < 256 ==>
              poly[i] == Coefficient(dev.work, dev.pace, old(dev.state), old(dev.clock), i)
  {
    hide Total, Advance, Coefficient;
    ghost var s, c := dev.state, dev.clock;
    TotalNothing(dev.pace, c);
    AdvanceNothing(dev.work, s);
    var burst := 0;
    while burst < NUM_BURSTS
      invariant 0 <= burst <= NUM_BURSTS && dev.Valid() && dev.clock == c + 16 * burst
      invariant dev.state == Advance(dev.work, s, Total(dev.pace, c, 16 * burst))
      invariant forall i :: 0 <= i < 16 * burst ==> poly[i] == Coefficient(dev.work, dev.pace, s, c, i)
    {
      ReadBurst(dev, poly, burst * BURST_LEN, s, c);
      burst := burst + 1;
    }
  }

  /** What the driver stores for DATA_OUT[i], read i accesses after access c in state s. */
  function Coefficient(work: nat, pace: nat -> nat, s: State, c: nat, i: nat): int16
    requires WellFormed(s) && i < 256
  {
    ToInt16(Advance(work, s, Total(pace, c, i + 1)).dataOut[i] % 0x1_0000)
  }

  lemma AdvanceNothing(work: nat, s: State)
    requires WellFormed(s)
    ensures Advance(work, s, 0) == s
  {
  }

  /** ntt_kyber_hw.c:177-183, one burst: sixteen words into a buffer, then into the polynomial. */
  method ReadBurst(dev: Device, poly: array<int16>, base: nat, ghost s: State, ghost c: nat)
    requires dev.Valid() && poly.Length == 256 && base + BURST_LEN <= 256 && WellFormed(s)
    requires dev.clock == c + base && dev.state == Advance(dev.work, s, Total(dev.pace, c, base))
    modifies dev, poly
    ensures dev.Valid() && dev.clock == c + base + BURST_LEN
    ensures dev.state == Advance(dev.work, s, Total(dev.pace, c, base + BURST_LEN))
    ensures forall i :: 0 <= i < base ==> poly[i] == old(poly[i])
    ensures forall i :: base <= i < base + BURST_LEN ==> poly[i] == Coefficient(dev.work, dev.pace, s, c, i)
  {
    hide Total, Advance, Coefficient;
    var buf := new int[BURST_LEN];
    var b := 0;
    while b < BURST_LEN
      invariant 0 <= b <= BURST_LEN && dev.Valid() && dev.clock == c + base + b
      invariant dev.state == Advance(dev.work, s, Total(dev.pace, c, base + b))
      invariant poly[..] == old(poly[..])
      invariant forall i :: 0 <= i < b ==> ToInt16(buf[i] % 0x1_0000) == Coefficient(dev.work, dev.pace, s, c, base + i)
    {
      TotalStep(dev.pace, c, base + b);
      AdvanceAdd(dev.work, s, Total(dev.pace, c, base + b), dev.pace(c + base + b));
      CoefficientRead(dev.work, dev.pace, s, c, base + b);
      buf[b] := dev.ReadDataOut(base + b);
      b := b + 1;
    }
    b := 0;
    while b < BURST_LEN
      invariant 0 <= b <= BURST_LEN
      invariant dev.Valid() && dev.clock == c + base + BURST_LEN
      invariant dev.state == Advance(dev.work, s, Total(dev.pace, c, base + BURST_LEN))
      invariant forall i :: 0 <= i < BURST_LEN ==>
                  ToInt16(buf[i] % 0x1_0000) == Coefficient(dev.work, dev.pace, s, c, base + i)
      invariant forall i :: 0 <= i < base ==> poly[i] == old(poly[i])
      invariant forall i :: base <= i < base + b ==> poly[i] == Coefficient(dev.work, dev.pace, s, c, i)
    {
      poly[base + b] := ToInt16(buf[b] % 0x1_0000);
      assert poly[base + b] == Coefficient(dev.work, dev.pace, s, c, base + b);
      b := b + 1;
    }
  }

  lemma CoefficientRead(work: nat, pace: nat -> nat, s: State, c: nat, i: nat)
    requires WellFormed(s) && i < 256
    ensures Coefficient(work, pace, s, c, i)
         == ToInt16(Advance(work, s, Total(pace, c, i + 1)).dataOut[i] % 0x1_0000)
  {
  }

  lemma ControlCases(s: State, start: bool)
    requires WellFormed(s)
    ensures start && Quiescent(s) ==> Control(s, start) == s.(phase := Loading)
    ensures !start && s.phase.Done? ==> Control(s, start) == s.(phase := Idle)
    ensures (if start then !Quiescent(s) else !s.phase.Done?) ==> Control(s, start) == s
  {
  }

  lemma StopKeepsOutput(work: nat, t: State, n: nat)
    requires WellFormed(t)
    ensures Advance(work, Control(t, false), n).dataOut == Advance(work, t, n).dataOut
  {
    if t.phase.Done? {
      QuiescentStays(work, t, n);
      QuiescentStays(work, Control(t, false), n);
    }
  }

  /** The word that UnpackDataOut stores, k + 1 accesses after the START. */
  lemma CoefficientIsOutput(work: nat, pace: nat -> nat, s: State, c: nat, words: seq<int>, limit: nat, i: nat)
    requires WellFormed(s) && |words| == 256 && i < 256
    ensures var t := Started(work, pace, s, c, words);
            var k := Polls(work, pace, t, c + 257, limit);
            Coefficient(work, pace, Control(Advance(work, t, Total(pace, c + 257, k + 1)), false), c + 258 + k, i)
            == ToInt16(OutputWord(work, pace, s, c, words, limit, i) % 0x1_0000)
  {
    hide Total, Advance, Started, Polls, Control;
    var t := Started(work, pace, s, c, words);
    var k := Polls(work, pace, t, c + 257, limit);
    StopKeepsOutput(work, Advance(work, t, Total(pace, c + 257, k + 1)), Total(pace, c + 258 + k, i + 1));
    AdvanceAdd(work, t, Total(pace, c + 257, k + 1), Total(pace, c + 258 + k, i + 1));
    TotalSplit(pace, c + 257, k + 1, i + 1);
  }

  /** ntt_kyber_hw.c:197-240, for any state of the unit and any pace. */
  method Drive(dev: Device, poly: array<int16>)
    requires dev.Valid() && poly.Length == 256
    modifies dev, poly
    ensures dev.Valid()
    ensures dev.state == Ended(dev.work, dev.pace, old(dev.state), old(dev.clock), Words(old(poly[..])), POLL_LIMIT)
    ensures dev.clock == ClockAfter(dev.work, dev.pace, old(dev.state), old(dev.clock), Words(old(poly[..])))
    ensures forall i :: 0 <= i < 256 ==>
              poly[i] == ToInt16(OutputWord(dev.work, dev.pace, old(dev.state), old(dev.clock),
                                            Words(old(poly[..])), POLL_LIMIT, i) % 0x1_0000)
  {
    hide Total, Advance, Loaded, Polls, OutputWord, Coefficient, Control;
    ghost var s, c, words := dev.state, dev.clock, Words(poly[..]);
    PackDataIn(dev, poly);
    ghost var loaded := dev.Now();
    dev.WriteControl(CTRL_START);
    ControlCases(loaded, true);
    ghost var t := Started(dev.work, dev.pace, s, c, words);
    assert dev.state == t;
    PollDone(dev);
    ghost var k := Polls(dev.work, dev.pace, t, c + 257, POLL_LIMIT);
    TotalStep(dev.pace, c + 257, k);
    AdvanceAdd(dev.work, t, Total(dev.pace, c + 257, k), dev.pace(c + 257 + k));
    ghost var polled := dev.Now();
    dev.WriteControl(0);
    ControlCases(polled, false);
    UnpackDataOut(dev, poly);
    forall i | 0 <= i < 256
      ensures poly[i] == ToInt16(OutputWord(dev.work, dev.pace, s, c, words, POLL_LIMIT, i) % 0x1_0000)
    {
      CoefficientIsOutput(dev.work, dev.pace, s, c, words, POLL_LIMIT, i);
    }
  }

  // Runs of calls.

  /** A call that starts at access c with the unit at rest sees DONE at its k-th poll, within the limit. */
  predicate DoneAtPoll(work: nat, pace: nat -> nat, c: nat, k: nat) {
    && 0 < k <= POLL_LIMIT && Total(pace, c + 257, k) > work + 1
    && (k == 1 || Total(pace, c + 257, k - 1) <= work + 1)
  }

  /** There is such a poll exactly when the steps made during the allowed polls suffice. */
  lemma PromptIsDone(work: nat, pace: nat -> nat, c: nat)
    ensures Prompt(work, pace, c, POLL_LIMIT) <==> exists k: nat :: DoneAtPoll(work, pace, c, k)
  {
    hide Total;
    if Prompt(work, pace, c, POLL_LIMIT) {
      var k := FirstPoll(work, pace, c + 257, POLL_LIMIT);
      assert DoneAtPoll(work, pace, c, k);
    }
    if k: nat :| DoneAtPoll(work, pace, c, k) {
      TotalMonotone(pace, c + 257, k, POLL_LIMIT);
    }
  }

  lemma {:induction false} FirstPoll(work: nat, pace: nat -> nat, c: nat, n: nat) returns (k: nat)
    requires Total(pace, c, n) > work + 1
    ensures 0 < k <= n && Total(pace, c, k) > work + 1 && (k == 1 || Total(pace, c, k - 1) <= work + 1)
  {
    TotalNothing(pace, c);
    hide Total;
    k := n;
    if n > 1 && Total(pace, c, n - 1) > work + 1 {
      k := FirstPoll(work, pace, c, n - 1);
    }
  }

  /** None of the next n calls hits the poll limit. Nothing is asked of the unit's pace elsewhere. */
  ghost predicate PromptCalls(work: nat, pace: nat -> nat, c: nat, n: nat)
    decreases n
  {
    n == 0 || exists k: nat :: DoneAtPoll(work, pace, c, k) && PromptCalls(work, pace, c + 514 + k, n - 1)
  }

  /** Polling stops at the first poll at which the transform is complete. */
  lemma {:induction false} PollsUntilDone(work: nat, pace: nat -> nat, s: State, c: nat, n: nat, k: nat)
    requires WellFormed(s) && 0 < k <= n && Advance(work, s, Total(pace, c, k)).phase.Done?
    requires k > 1 ==> !Advance(work, s, Total(pace, c, k - 1)).phase.Done?
    ensures Polls(work, pace, s, c, n) == k
    decreases n
  {
    hide Advance, Total;
    var t := Advance(work, s, pace(c));
    TotalFirst(pace, c, k);
    TotalNothing(pace, c + 1);
    if k > 1 {
      TotalFirst(pace, c, k - 1);
      AdvanceAdd(work, s, pace(c), Total(pace, c + 1, k - 1));
      AdvanceAdd(work, s, pace(c), Total(pace, c + 1, k - 2));
      if t.phase.Done? {
        QuiescentStays(work, t, Total(pace, c + 1, k - 2));
      }
      PollsUntilDone(work, pace, t, c + 1, n - 1, k - 1);
    }
  }

  /** The polls of a call that starts with the unit at rest. */
  lemma PollsOfCall(work: nat, pace: nat -> nat, s: State, c: nat, words: seq<int>, n: nat, k: nat)
    requires WellFormed(s) && Quiescent(s) && |words| == 256 && DoneAtPoll(work, pace, c, k) && k <= n
    ensures Polls(work, pace, Started(work, pace, s, c, words), c + 257, n) == k
  {
    hide Started, Polls, Total, Advance;
    var t := Started(work, pace, s, c, words);
    StartedAtRest(work, pace, s, c, words);
    LoadingProgress(work, t, Total(pace, c + 257, k));
    if k > 1 {
      LoadingProgress(work, t, Total(pace, c + 257, k - 1));
    }
    PollsUntilDone(work, pace, t, c + 257, n, k);
  }

  /** The access at which a call ends, in any state of the unit. */
  function ClockAfter(work: nat, pace: nat -> nat, s: State, c: nat, words: seq<int>): nat
    requires WellFormed(s) && |words| == 256
  {
    c + 514 + Polls(work, pace, Started(work, pace, s, c, words), c + 257, POLL_LIMIT)
  }

  /** The words that one call reads. */
  function Output(work: nat, pace: nat -> nat, s: State, c: nat, words: seq<int>): (w: seq<int>)
    requires WellFormed(s) && |words| == 256
    ensures |w| == 256 && forall i :: 0 <= i < 256 ==> w[i] == OutputWord(work, pace, s, c, words, POLL_LIMIT, i)
  {
    seq(256, i requires 0 <= i < 256 => OutputWord(work, pace, s, c, words, POLL_LIMIT, i))
  }

  /** What the calls on these inputs, one after the other, return. */
  function Outputs(work: nat, pace: nat -> nat, s: State, c: nat, inputs: seq<seq<int>>): (outputs: seq<seq<int>>)
    requires WellFormed(s) && forall j :: 0 <= j < |inputs| ==> |inputs[j]| == 256
    ensures |outputs| == |inputs|
    decreases |inputs|
  {
    if inputs == [] then []
    else
      [Output(work, pace, s, c, inputs[0])]
      + Outputs(work, pace, Ended(work, pace, s, c, inputs[0], POLL_LIMIT), ClockAfter(work, pace, s, c, inputs[0]), inputs[1..])
  }

  /** The state that they leave. */
  function StateAfter(work: nat, pace: nat -> nat, s: State, c: nat, inputs: seq<seq<int>>): (t: State)
    requires WellFormed(s) && forall j :: 0 <= j < |inputs| ==> |inputs[j]| == 256
    ensures WellFormed(t)
    decreases |inputs|
  {
    if inputs == [] then s
    else
      StateAfter(work, pace, Ended(work, pace, s, c, inputs[0], POLL_LIMIT), ClockAfter(work, pace, s, c, inputs[0]), inputs[1..])
  }

  /** In every run of calls on a unit at rest of which none hits the poll limit, each call returns the transform of
      its own input, the unit completes one operation per call, and it is at rest at the end. */
  lemma {:induction false} RunOfCalls(work: nat, pace: nat -> nat, s: State, c: nat, inputs: seq<seq<int>>)
    requires WellFormed(s) && Quiescent(s) && forall j :: 0 <= j < |inputs| ==> |inputs[j]| == 256
    requires PromptCalls(work, pace, c, |inputs|)
    ensures forall j :: 0 <= j < |inputs| ==> Outputs(work, pace, s, c, inputs)[j] == Ntt(inputs[j])
    ensures var t := StateAfter(work, pace, s, c, inputs);
            Quiescent(t) && t.completed == s.completed + |inputs| && (inputs != [] ==> t.phase.Idle?)
    decreases |inputs|
  {
    hide Ntt, Output, Ended, DoneAtPoll, OutputWord, Polls, ClockAfter;
    if inputs != [] {
      var k: nat :| DoneAtPoll(work, pace, c, k) && PromptCalls(work, pace, c + 514 + k, |inputs| - 1);
      OneCall(work, pace, s, c, inputs[0], k);
      RunOfCalls(work, pace, Ended(work, pace, s, c, inputs[0], POLL_LIMIT), c + 514 + k, inputs[1..]);
    }
  }

  lemma OneCall(work: nat, pace: nat -> nat, s: State, c: nat, words: seq<int>, k: nat)
    requires WellFormed(s) && Quiescent(s) && |words| == 256 && DoneAtPoll(work, pace, c, k)
    ensures Output(work, pace, s, c, words) == Ntt(words)
    ensures var t := Ended(work, pace, s, c, words, POLL_LIMIT); t.phase.Idle? && t.completed == s.completed + 1
    ensures ClockAfter(work, pace, s, c, words) == c + 514 + k
  {
    hide Ntt, Ended, Total, OutputWord, Polls;
    TotalMonotone(pace, c + 257, k, POLL_LIMIT);
    PollsOfCall(work, pace, s, c, words, POLL_LIMIT, k);
    NttLength(words);
    forall i | 0 <= i < 256
      ensures OutputWord(work, pace, s, c, words, POLL_LIMIT, i) == Ntt(words)[i]
    {
      PromptCall(work, pace, s, c, words, POLL_LIMIT, i);
    }
    PromptCall(work, pace, s, c, words, POLL_LIMIT, 0);
  }

  lemma NttLength(f: seq<int>)
    requires |f| == 256
    ensures |Ntt(f)| == 256
  {
  }

  /** The unit is at rest, and none of the next n calls hits the poll limit. */
  ghost predicate Ready(dev: Device, n: nat)
    reads dev
  {
    dev.Valid() && Quiescent(dev.state) && PromptCalls(dev.work, dev.pace, dev.clock, n)
  }

  /** A call to a ready unit replaces the coefficients by the canonical residues of their transform. `later` is the
      number of calls that are still to be prompt afterwards. */
  method DriveReady(dev: Device, poly: array<int16>, ghost later: nat)
    requires Ready(dev, later + 1) && poly.Length == 256
    requires forall i :: 0 <= i < 256 ==> -Q <= poly[i] < Q
    modifies dev, poly
    ensures poly[..] == Ntt(Canon(old(poly[..])))
    ensures Ready(dev, later) && dev.state.phase.Idle? && dev.state.completed == old(dev.state.completed) + 1
  {
    hide Ntt, DoneAtPoll, OutputWord, Ended, ClockAfter;
    ghost var s, c, a := dev.state, dev.clock, poly[..];
    ghost var k: nat :| DoneAtPoll(dev.work, dev.pace, c, k) && PromptCalls(dev.work, dev.pace, c + 514 + k, later);
    Drive(dev, poly);
    WordsAreResidues(a);
    OneCall(dev.work, dev.pace, s, c, Words(a), k);
    NttIsPoly(Canon(a));
    forall i | 0 <= i < 256
      ensures poly[i] == Ntt(Canon(a))[i]
    {
      assert Output(dev.work, dev.pace, s, c, Words(a))[i] == Ntt(Canon(a))[i];
    }
  }

  lemma ReducedIsCentred(r: seq<int>, f: seq<int>)
    requires Canon(r) == f && NttCode.Within(r, (Q - 1) / 2)
    ensures r == CentrePoly(f)
  {
    forall i | 0 <= i < |r|
      ensures r[i] == Centred(f[i])
    {
      assert f[i] == r[i] % Q;
      CentredBy(f[i], r[i]);
    }
  }

  /** poly.c:263-269: the transform on the unit, then Barrett reduction. */
  method PolyNtt(dev: Device, r: array<int16>, ghost later: nat)
    requires Ready(dev, later + 1) && r.Length == 256
    requires forall i :: 0 <= i < 256 ==> -Q <= r[i] < Q
    modifies dev, r
    ensures r[..] == CentrePoly(Ntt(Canon(old(r[..]))))
    ensures Ready(dev, later) && dev.state.completed == old(dev.state.completed) + 1
  {
    hide Ntt, PromptCalls;
    ghost var a := r[..];
    DriveReady(dev, r, later);
    NttIsPoly(Canon(a));
    assert Canon(r[..]) == Ntt(Canon(a));
    Poly.ReduceCoefficients(r);
    ReducedIsCentred(r[..], Ntt(Canon(a)));
  }

  /** poly_ntt_change.c:12-16, the version this replaced: the Montgomery transform of ntt.c, then Barrett
      reduction. Both leave the same array, coefficient for coefficient. */
  method PolyNttSoftware(r: array<int16>)
    requires r.Length == 256
    requires forall i :: 0 <= i < 256 ==> -Q <= r[i] < Q
    modifies r
    ensures r[..] == CentrePoly(Ntt(Canon(old(r[..]))))
  {
    hide Ntt;
    ghost var a := r[..];
    NttCode.GrowthFromQ();
    NttCode.NttInPlace(r, Q);
    Poly.ReduceCoefficients(r);
    ReducedIsCentred(r[..], Ntt(Canon(a)));
  }

  /** The reduction after the unit is no identity: it moves exactly the words above (q-1)/2, down by q. */
  lemma ReductionOfWord(v: int16)
    requires 0 <= v < Q
    ensures BarrettReduce(v) == v <==> v <= (Q - 1) / 2
    ensures v > (Q - 1) / 2 ==> BarrettReduce(v) == v - Q
  {
    CentredBy(v, BarrettReduce(v));
    hide BarrettReduce, Centred;
    if v <= (Q - 1) / 2 {
      CentredBy(v, v);
    } else {
      ModEq(v, v - Q, 1);
      CentredBy(v, v - Q);
    }
  }
}
