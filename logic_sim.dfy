/**
 * The logic-simulation kernel: a synchronous circuit of flip-flops and
 * two-input XOR gates.  A source index below the number of flip-flops names a
 * flip-flop; a larger one names XOR gate `src - flipFlops`.  Each clock cycle
 * every flip-flop loads the value of its source, computed from the state of the
 * previous cycle.
 */
module LogicSim {
  import opened Rng
  import opened Results

  /** A value of C++ type `int32_t`. */
  type i32 = x: int | -0x8000_0000 <= x < 0x8000_0000

  /** The persisted input: the sources of every XOR gate and every flip-flop, the cycle count and the initial state. */
  datatype LogicSimInput = LogicSimInput(
    xorGateInputs: seq<(i32, i32)>,
    flipFlopInputs: seq<i32>,
    clockCycles: u32,
    inputState: seq<bool>)

  /** Passing an `int32_t` source as `unsigned`: a negative value wraps to `2^32 + v`. */
  function ToUnsigned(v: i32): (u: u32)
    ensures v >= 0 ==> u == v
    ensures v < 0 ==> u >= 0x8000_0000 && u % Modulus == v % Modulus
  {
    if v < 0 then v + Modulus else v
  }

  // ---------------------------------------------------------------------------
  // Evaluating a source

  /** `src` names an XOR gate of the list, with `n` flip-flops before the gates. */
  predicate IsGate(gates: seq<(i32, i32)>, n: nat, src: nat)
  {
    n <= src < n + |gates|
  }

  /** If `src` names a gate, that gate's rank is below `r`. */
  predicate ReadsBelow(gates: seq<(i32, i32)>, n: nat, rank: seq<nat>, src: nat, r: nat)
    requires |rank| == |gates|
  {
    IsGate(gates, n, src) ==> rank[src - n] < r
  }

  /**
   * `rank` witnesses that the gates form no cycle: each gate reads flip-flops,
   * gates of lower rank, or indices outside the gate list.
   */
  predicate Ranked(gates: seq<(i32, i32)>, n: nat, rank: seq<nat>)
  {
    |rank| == |gates|
    && forall g :: 0 <= g < |gates| ==>
         ReadsBelow(gates, n, rank, ToUnsigned(gates[g].0), rank[g])
         && ReadsBelow(gates, n, rank, ToUnsigned(gates[g].1), rank[g])
  }

  /** The termination measure of `CalcSrc`: one more than the rank of a gate, zero otherwise. */
  function Height(gates: seq<(i32, i32)>, n: nat, rank: seq<nat>, src: nat): nat
    requires |rank| == |gates|
  {
    if IsGate(gates, n, src) then rank[src - n] + 1 else 0
  }

  /**
   * `calcSrc`: the value of source `src` in `state`.  A flip-flop yields its
   * bit; a gate yields the XOR of its two sources, first then second; a gate
   * index outside the list makes `at` throw, modelled as `None`.
   */
  function CalcSrc(gates: seq<(i32, i32)>, state: seq<bool>, ghost rank: seq<nat>, src: nat): (r: Option<bool>)
    requires Ranked(gates, |state|, rank)
    ensures src < |state| ==> r == Some(state[src])
    ensures |state| + |gates| <= src ==> r == None
    decreases Height(gates, |state|, rank, src)
  {
    if src < |state| then Some(state[src])
    else
      var x := src - |state|;
      if x >= |gates| then None
      else
        var a := CalcSrc(gates, state, rank, ToUnsigned(gates[x].0));
        if a.None? then None
        else
          var b := CalcSrc(gates, state, rank, ToUnsigned(gates[x].1));
          if b.None? then None else Some(a.value != b.value)
  }

  /**
   * The rank is only a certificate of acyclicity: any two ranks give every
   * source the same value.
   */
  lemma {:induction false} CalcSrcRankFree(gates: seq<(i32, i32)>, state: seq<bool>, r1: seq<nat>, r2: seq<nat>, src: nat)
    requires Ranked(gates, |state|, r1) && Ranked(gates, |state|, r2)
    ensures CalcSrc(gates, state, r1, src) == CalcSrc(gates, state, r2, src)
    decreases Height(gates, |state|, r1, src)
  {
    if |state| <= src < |state| + |gates| {
      var x := src - |state|;
      CalcSrcRankFree(gates, state, r1, r2, ToUnsigned(gates[x].0));
      CalcSrcRankFree(gates, state, r1, r2, ToUnsigned(gates[x].1));
    }
  }

  /** Bitwise XOR of two states of the same size. */
  function Xor(s1: seq<bool>, s2: seq<bool>): (s: seq<bool>)
    requires |s1| == |s2|
    ensures |s| == |s1|
  {
    seq(|s1|, i requires 0 <= i < |s1| => s1[i] != s2[i])
  }

  /**
   * XOR networks are linear over GF(2): whether a source throws does not
   * depend on the state, and its value on the XOR of two states is the XOR of
   * its values on each.
   */
  lemma {:induction false} CalcSrcLinear(gates: seq<(i32, i32)>, s1: seq<bool>, s2: seq<bool>, rank: seq<nat>, src: nat)
    requires |s1| == |s2| && Ranked(gates, |s1|, rank)
    ensures CalcSrc(gates, s1, rank, src).Some? <==> CalcSrc(gates, s2, rank, src).Some?
    ensures CalcSrc(gates, Xor(s1, s2), rank, src).Some? <==> CalcSrc(gates, s1, rank, src).Some?
    ensures CalcSrc(gates, s1, rank, src).Some? ==>
              CalcSrc(gates, Xor(s1, s2), rank, src).value
              == (CalcSrc(gates, s1, rank, src).value != CalcSrc(gates, s2, rank, src).value)
    decreases Height(gates, |s1|, rank, src)
  {
    if |s1| <= src < |s1| + |gates| {
      var x := src - |s1|;
      CalcSrcLinear(gates, s1, s2, rank, ToUnsigned(gates[x].0));
      CalcSrcLinear(gates, s1, s2, rank, ToUnsigned(gates[x].1));
    }
  }

  // ---------------------------------------------------------------------------
  // Clock cycles

  /** The flip-flop list and the state agree in size, as the input check guarantees. */
  predicate Circuit(input: LogicSimInput, state: seq<bool>, rank: seq<nat>)
  {
    |input.flipFlopInputs| == |state| && Ranked(input.xorGateInputs, |state|, rank)
  }

  /**
   * The value flip-flop `i` loads at the next clock edge: the bit of the
   * flip-flop its source names, or, when the source is negative and the
   * circuit has fewer than 2^31 sources, a throw.
   */
  function Load(input: LogicSimInput, state: seq<bool>, ghost rank: seq<nat>, i: nat): (r: Option<bool>)
    requires Circuit(input, state, rank) && i < |state|
    ensures 0 <= input.flipFlopInputs[i] < |state| ==> r == Some(state[input.flipFlopInputs[i]])
    ensures input.flipFlopInputs[i] < 0 && |state| + |input.xorGateInputs| <= 0x8000_0000 ==> r == None
  {
    CalcSrc(input.xorGateInputs, state, rank, ToUnsigned(input.flipFlopInputs[i]))
  }

  /** The state after one clock cycle, or `None` when some flip-flop's source throws. */
  function NextState(input: LogicSimInput, state: seq<bool>, ghost rank: seq<nat>): (r: Option<seq<bool>>)
    requires Circuit(input, state, rank)
    ensures r.Some? <==> forall i :: 0 <= i < |state| ==> Load(input, state, rank, i).Some?
    ensures r.Some? ==> |r.value| == |state|
                        && forall i :: 0 <= i < |state| ==> Load(input, state, rank, i) == Some(r.value[i])
  {
    if forall i :: 0 <= i < |state| ==> Load(input, state, rank, i).Some? then
      Some(seq(|state|, i requires 0 <= i < |state| => Load(input, state, rank, i).value))
    else
      None
  }

  /** `next`: fill a fresh state, flip-flop by flip-flop; the first source that throws ends the cycle. */
  method Next(input: LogicSimInput, state: seq<bool>, ghost rank: seq<nat>) returns (r: Option<seq<bool>>)
    requires Circuit(input, state, rank)
    ensures r == NextState(input, state, rank)
  {
    var res := new bool[|state|];
    for i := 0 to |state|
      invariant forall k :: 0 <= k < i ==> Load(input, state, rank, k) == Some(res[k])
    {
      var b := CalcSrc(input.xorGateInputs, state, rank, ToUnsigned(input.flipFlopInputs[i]));
      if b.None? {
        assert Load(input, state, rank, i).None?;
        return None;
      }
      res[i] := b.value;
    }
    assert forall k :: 0 <= k < |state| ==> Load(input, state, rank, k).Some?;
    assert res[..] == NextState(input, state, rank).value;
    return Some(res[..]);
  }

  /** One cycle of the XOR of two states is the XOR of one cycle of each; both throw or neither does. */
  lemma NextLinear(input: LogicSimInput, s1: seq<bool>, s2: seq<bool>, rank: seq<nat>)
    requires |s1| == |s2| && Circuit(input, s1, rank)
    ensures NextState(input, s1, rank).Some? <==> NextState(input, s2, rank).Some?
    ensures NextState(input, Xor(s1, s2), rank).Some? <==> NextState(input, s1, rank).Some?
    ensures NextState(input, s1, rank).Some? ==>
              NextState(input, Xor(s1, s2), rank).value
              == Xor(NextState(input, s1, rank).value, NextState(input, s2, rank).value)
  {
    var gates := input.xorGateInputs;
    forall i | 0 <= i < |s1|
      ensures Load(input, s1, rank, i).Some? <==> Load(input, s2, rank, i).Some?
      ensures Load(input, Xor(s1, s2), rank, i).Some? <==> Load(input, s1, rank, i).Some?
      ensures Load(input, s1, rank, i).Some? ==>
                Load(input, Xor(s1, s2), rank, i).value
                == (Load(input, s1, rank, i).value != Load(input, s2, rank, i).value)
    {
      CalcSrcLinear(gates, s1, s2, rank, ToUnsigned(input.flipFlopInputs[i]));
    }
  }

  /** The state after `k` clock cycles, or `None` when some cycle throws. */
  function Run(input: LogicSimInput, state: seq<bool>, ghost rank: seq<nat>, k: nat): (r: Option<seq<bool>>)
    requires Circuit(input, state, rank)
    ensures r.Some? ==> |r.value| == |state|
    decreases k
  {
    if k == 0 then Some(state)
    else
      match NextState(input, state, rank)
      case None => None
      case Some(t) => Run(input, t, rank, k - 1)
  }

  /** Running `a` cycles and then `b` more is running `a + b` cycles. */
  lemma {:induction false} RunAdd(input: LogicSimInput, state: seq<bool>, rank: seq<nat>, a: nat, b: nat)
    requires Circuit(input, state, rank)
    ensures Run(input, state, rank, a + b)
            == match Run(input, state, rank, a)
               case None => None
               case Some(t) => Run(input, t, rank, b)
    decreases a
  {
    if a > 0 {
      match NextState(input, state, rank)
      case None =>
      case Some(t) =>
        RunAdd(input, t, rank, a - 1, b);
        assert a + b - 1 == (a - 1) + b;
    }
  }

  /** Every number of cycles is linear too: the simulation of `s1 xor s2` is the XOR of the two simulations. */
  lemma {:induction false} RunLinear(input: LogicSimInput, s1: seq<bool>, s2: seq<bool>, rank: seq<nat>, k: nat)
    requires |s1| == |s2| && Circuit(input, s1, rank)
    ensures Run(input, s1, rank, k).Some? <==> Run(input, s2, rank, k).Some?
    ensures Run(input, Xor(s1, s2), rank, k).Some? <==> Run(input, s1, rank, k).Some?
    ensures Run(input, s1, rank, k).Some? ==>
              Run(input, Xor(s1, s2), rank, k).value
              == Xor(Run(input, s1, rank, k).value, Run(input, s2, rank, k).value)
    decreases k
  {
    if k > 0 {
      NextLinear(input, s1, s2, rank);
      var n1, n2 := NextState(input, s1, rank), NextState(input, s2, rank);
      if n1.Some? {
        RunLinear(input, n1.value, n2.value, rank, k - 1);
      }
    }
  }

  /**
   * `ReferenceExecute`: start from the input state and run `clockCycles`
   * cycles; a source that throws ends the run with `None`.
   */
  method ReferenceExecute(input: LogicSimInput, ghost rank: seq<nat>) returns (r: Option<seq<bool>>)
    requires Circuit(input, input.inputState, rank)
    ensures r == Run(input, input.inputState, rank, input.clockCycles)
    ensures input.clockCycles == 0 ==> r == Some(input.inputState)
    ensures r.Some? ==> |r.value| == |input.inputState|
  {
    var state := input.inputState;
    for i := 0 to input.clockCycles
      invariant |state| == |input.inputState|
      invariant Run(input, input.inputState, rank, input.clockCycles) == Run(input, state, rank, input.clockCycles - i)
    {
      var next := Next(input, state, rank);
      if next.None? {
        return None;
      }
      state := next.value;
    }
    return Some(state);
  }

  // ---------------------------------------------------------------------------
  // Input check and output comparison

  /** The check after reading a `LogicSimInput`: the initial state has one bit per flip-flop. */
  datatype InputError = StateSizeInconsistent

  function Validate(input: LogicSimInput): (r: Outcome<InputError>)
    ensures r == Pass <==> |input.inputState| == |input.flipFlopInputs|
  {
    if |input.inputState| != |input.flipFlopInputs| then Fail(StateSizeInconsistent) else Pass
  }

  /** An accepted input with an acyclic gate list runs: the state keeps its size through every cycle. */
  lemma ValidatedRuns(input: LogicSimInput, rank: seq<nat>, k: nat)
    requires Validate(input) == Pass && Ranked(input.xorGateInputs, |input.inputState|, rank)
    ensures Circuit(input, input.inputState, rank)
    ensures Run(input, input.inputState, rank, k).Some? ==> |Run(input, input.inputState, rank, k).value| == |input.flipFlopInputs|
  {
  }

  /**
   * The state comparison of `LogicSimOutput::Equals`: same length and the
   * same bit at every position, which is equality of states.
   */
  predicate Equals(a: seq<bool>, b: seq<bool>): (eq: bool)
    ensures eq <==> a == b
  {
    |a| == |b| && forall i :: 0 <= i < |a| ==> a[i] == b[i]
  }
}
