/** hardware/io_expander: chains of 74HC595 output and 74HC165 input registers of any length. */
module ShiftChains {
  import opened Bits

  // The bits of the cache in output order: output 8 * i + x is bit x of byte i.
  function Outputs(cache: seq<Byte>): (o: seq<bool>)
    ensures |o| == 8 * |cache|
  {
    seq(8 * |cache|, k requires 0 <= k < 8 * |cache| => BitOf(cache[k / 8], k % 8))
  }

  lemma OutputIs(cache: seq<Byte>, i: nat, x: nat)
    requires i < |cache| && x < 8
    ensures Outputs(cache)[8 * i + x] == BitOf(cache[i], x)
  {
    assert (8 * i + x) / 8 == i && (8 * i + x) % 8 == x;
  }

  // The registers of an output chain; stage 0 is next to the data pin.
  class OutputChain {
    var data: bool
    var clock: bool
    var store: bool
    var stages: seq<bool>
    var latched: seq<bool>
    ghost var latchings: nat

    method SetData(v: bool)
      modifies this`data
      ensures data == v
    {
      data := v;
    }

    // A rising edge of the clock shifts.
    method SetClock(v: bool)
      requires |stages| > 0
      modifies this`clock, this`stages
      ensures clock == v
      ensures stages == if v && !old(clock) then [data] + old(stages)[..|old(stages)| - 1] else old(stages)
    {
      if v && !clock {
        stages := [data] + stages[..|stages| - 1];
      }
      clock := v;
    }

    // A rising edge of the store pin puts the stages on the outputs.
    method SetStore(v: bool)
      modifies this`store, this`latched, this`latchings
      ensures store == v
      ensures latched == if v && !old(store) then stages else old(latched)
      ensures latchings == if v && !old(store) then old(latchings) + 1 else old(latchings)
    {
      if v && !store {
        latched := stages;
        latchings := latchings + 1;
      }
      store := v;
    }
  }

  class Hc595 {
    const cache: array<Byte>
    const chain: OutputChain

    ghost predicate Valid()
      reads this, chain
    {
      0 < cache.Length < 256 && |chain.stages| == 8 * cache.Length
    }

    /** hc595_init turns every output off. */
    constructor (registers: nat, chain: OutputChain)
      requires 0 < registers < 256 && |chain.stages| == 8 * registers
      modifies chain
      ensures Valid() && fresh(cache) && cache.Length == registers && this.chain == chain
      ensures |chain.latched| == 8 * registers && forall k :: 0 <= k < 8 * registers ==> !chain.latched[k]
    {
      cache := new Byte[registers](_ => 0);
      this.chain := chain;
      new;
      chain.SetStore(true);
      Update();
      forall k | 0 <= k < 8 * registers
        ensures !chain.latched[k]
      {
        NoBit(k % 8);
      }
    }

    // One clock: the bit goes in front, and the last one is lost.
    method ShiftBit(bit: bool)
      requires |chain.stages| > 0 && !chain.clock
      modifies chain`data, chain`clock, chain`stages
      ensures !chain.clock && chain.stages == [bit] + old(chain.stages)[..|old(chain.stages)| - 1]
    {
      chain.SetData(false);
      if bit {
        chain.SetData(true);
      }
      chain.SetClock(true);
      chain.SetClock(false);
    }

    // Eight clocks for one register, the most significant bit first.
    method ShiftOut(b: Byte, ghost before: seq<bool>, ghost done: seq<bool>)
      requires |chain.stages| == |before| >= |done| + 8 && !chain.clock
      requires chain.stages == done + before[..|before| - |done|]
      modifies chain`data, chain`clock, chain`stages
      ensures !chain.clock && chain.stages == ToBits(b) + done + before[..|before| - |done| - 8]
    {
      ghost var bits := ToBits(b);
      var x := 8;
      assert bits[8..] + done == done;
      while x > 0
        invariant 0 <= x <= 8 && !chain.clock
        invariant chain.stages == bits[x..] + done + before[..|before| - |done| - (8 - x)]
      {
        x := x - 1;
        ShiftedIn(bits, x, done, before);
        ShiftBit(BitOf(b, x));
      }
      assert bits[0..] == bits;
    }

    // One register of the cache, behind those already shifted out.
    method ShiftNext(i: nat, ghost bytes: seq<Byte>, ghost before: seq<bool>)
      requires i < |bytes| && bytes == cache[..] && |before| == 8 * |bytes| && !chain.clock
      requires chain.stages == Outputs(bytes[i + 1..]) + before[..8 * i + 8]
      modifies chain`data, chain`clock, chain`stages
      ensures !chain.clock && chain.stages == Outputs(bytes[i..]) + before[..8 * i]
    {
      ghost var done := Outputs(bytes[i + 1..]);
      OneMoreByte(bytes, i);
      ShiftOut(cache[i], before, done);
    }

    /** hc595_update: whatever the chain held, its outputs become the bits of the cache, in one
        step. */
    method Update()
      requires Valid()
      modifies chain
      ensures Valid() && chain.latched == Outputs(cache[..]) && chain.latchings == old(chain.latchings) + 1
    {
      chain.SetClock(false);
      chain.SetStore(false);
      ghost var before := chain.stages;
      var i := cache.Length;
      while i > 0
        invariant 0 <= i <= cache.Length && Valid() && !chain.clock && !chain.store && |before| == 8 * cache.Length
        invariant chain.latchings == old(chain.latchings)
        invariant chain.stages == Outputs(cache[i..]) + before[..8 * i]
      {
        i := i - 1;
        ShiftNext(i, cache[..], before);
      }
      chain.SetStore(true);
      chain.SetStore(false);
      assert cache[0..] == cache[..] && before[..0] == [];
      assert Outputs(cache[..]) + [] == Outputs(cache[..]);
    }

    /** hc595_write_port */
    method WritePort(port: nat, data: Byte)
      requires Valid() && port < cache.Length
      modifies cache, chain
      ensures Valid() && cache[..] == old(cache[..])[port := data] && chain.latched == Outputs(cache[..])
    {
      cache[port] := data;
      Update();
    }
  }

  lemma NoBit(x: nat)
    requires x < 8
    ensures !BitOf(0, x)
  {
  }

  lemma ShiftedIn(bits: seq<bool>, x: nat, done: seq<bool>, before: seq<bool>)
    requires |bits| == 8 && x < 8 && |done| + 8 <= |before|
    ensures var n := |before| - |done|;
      var was := bits[x + 1..] + done + before[..n - (7 - x)];
      |was| == |before| && [bits[x]] + was[..|was| - 1] == bits[x..] + done + before[..n - (8 - x)]
  {
    assert bits[x..] == [bits[x]] + bits[x + 1..];
  }

  lemma OneMoreByte(cache: seq<Byte>, i: nat)
    requires i < |cache|
    ensures Outputs(cache[i..]) == ToBits(cache[i]) + Outputs(cache[i + 1..])
  {
    var o, p := Outputs(cache[i..]), ToBits(cache[i]) + Outputs(cache[i + 1..]);
    forall k | 0 <= k < |o|
      ensures o[k] == p[k]
    {
      if k >= 8 {
        assert (k - 8) / 8 == k / 8 - 1 && (k - 8) % 8 == k % 8;
      }
    }
  }

  /** Writing one port changes the outputs of that register and no other. */
  lemma OthersKeepTheirOutputs(cache: seq<Byte>, port: nat, data: Byte, i: nat, x: nat)
    requires port < |cache| && i < |cache| && x < 8
    ensures Outputs(cache[port := data])[8 * i + x] == if i == port then BitOf(data, x) else Outputs(cache)[8 * i + x]
  {
    OutputIs(cache[port := data], i, x);
    OutputIs(cache, i, x);
  }

  // An input chain; stage 0 is on the data pin, and each register sends its input 7 first.
  class InputChain {
    var inputs: seq<Byte>
    var load: bool
    var clock: bool
    var stages: seq<bool>

    // The registers follow their inputs while the load pin is low.
    method SetLoad(v: bool)
      modifies this`load, this`stages
      ensures load == v && stages == if !v then Loaded(inputs) else old(stages)
    {
      load := v;
      if !v {
        stages := Loaded(inputs);
      }
    }

    // A rising edge of the clock shifts; low comes in behind the last register.
    method SetClock(v: bool)
      requires |stages| > 0
      modifies this`clock, this`stages
      ensures clock == v && stages == if v && !old(clock) && load then old(stages)[1..] + [false] else old(stages)
    {
      if v && !clock && load {
        stages := stages[1..] + [false];
      }
      clock := v;
    }
  }

  function Loaded(inputs: seq<Byte>): (s: seq<bool>)
    ensures |s| == 8 * |inputs|
  {
    seq(8 * |inputs|, k requires 0 <= k < 8 * |inputs| => BitOf(inputs[k / 8], 7 - k % 8))
  }

  lemma LoadedIs(inputs: seq<Byte>, r: nat, k: nat)
    requires r < |inputs| && k < 8
    ensures Loaded(inputs)[8 * r + k] == BitOf(inputs[r], 7 - k)
  {
    assert (8 * r + k) / 8 == r && (8 * r + k) % 8 == k;
  }

  // result <<= 1, and |= 1 for a bit that is set
  function PushBit(b: Byte, v: bool): Byte {
    if v then (b << 1) | 1 else b << 1
  }

  lemma PushedBit(b: Byte, v: bool, k: nat)
    requires k < 8
    ensures BitOf(PushBit(b, v), k) <==> if k == 0 then v else BitOf(b, k - 1)
  {
  }

  // The inputs that k more clocks bring to the data pin.
  ghost predicate Ahead(stages: seq<bool>, all: seq<bool>, n: nat) {
    n <= |all| == |stages| && stages[..|all| - n] == all[n..]
  }

  lemma AheadOneMore(stages: seq<bool>, all: seq<bool>, n: nat)
    requires Ahead(stages, all, n) && n < |all|
    ensures stages[0] == all[n] && Ahead(stages[1..] + [false], all, n + 1)
  {
    assert stages[..|all| - n][0] == all[n..][0];
    assert (stages[1..] + [false])[..|all| - n - 1] == stages[..|all| - n][1..] == all[n..][1..];
  }

  // Eight clocks; the bits come in most significant one first.
  method ShiftInByte(chain: InputChain, start: Byte, inverse: bool, ghost all: seq<bool>, ghost n: nat)
    returns (result: Byte)
    requires chain.load && !chain.clock && Ahead(chain.stages, all, n) && n + 8 <= |all|
    modifies chain`clock, chain`stages
    ensures !chain.clock && Ahead(chain.stages, all, n + 8)
    ensures forall j: nat :: j < 8 ==> BitOf(result, j) == (all[n + 7 - j] != inverse)
  {
    result := start;
    var i := 0;
    while i < 8
      invariant 0 <= i <= 8 && !chain.clock && Ahead(chain.stages, all, n + i)
      invariant forall j: nat :: j < i ==> BitOf(result, j) == (all[n + i - 1 - j] != inverse)
    {
      AheadOneMore(chain.stages, all, n + i);
      var was, bit := result, chain.stages[0] != inverse;
      result := PushBit(result, bit);
      forall j: nat | j < i + 1
        ensures BitOf(result, j) == (all[n + i - j] != inverse)
      {
        PushedBit(was, bit, j);
      }
      chain.SetClock(true);
      chain.SetClock(false);
      i := i + 1;
    }
  }

  // The loop of hc165_read_pin on a loaded chain.
  method ReadChain(chain: InputChain, port: nat, garbage: Byte, inverse: bool, ghost all: seq<bool>)
    returns (result: Byte)
    requires chain.load && !chain.clock && Ahead(chain.stages, all, 0) && 8 * port + 8 <= |all|
    modifies chain`clock, chain`stages
    ensures forall j: nat :: j < 8 ==> BitOf(result, j) == (all[8 * port + 7 - j] != inverse)
  {
    var left := port;
    result := ShiftInByte(chain, garbage, inverse, all, 0);
    ghost var n := 0;
    while left > 0
      invariant 0 <= left <= port && n == 8 * (port - left) && !chain.clock && Ahead(chain.stages, all, n + 8)
      invariant forall j: nat :: j < 8 ==> BitOf(result, j) == (all[n + 7 - j] != inverse)
    {
      left := left - 1;
      n := n + 8;
      result := ShiftInByte(chain, result, inverse, all, n);
    }
  }

  /** hc165_read_pin returns the inputs of the register asked for, whatever the accumulator and
      the chain held before. */
  method ReadPin(chain: InputChain, port: nat, garbage: Byte, inverse: bool) returns (result: Byte)
    requires port < |chain.inputs| && !chain.clock
    modifies chain`load, chain`clock, chain`stages
    ensures forall j: nat :: j < 8 ==> BitOf(result, j) == (BitOf(chain.inputs[port], j) != inverse)
  {
    ghost var all := Loaded(chain.inputs);
    chain.SetLoad(false);
    chain.SetLoad(true);
    assert all[0..] == all == chain.stages[..|all|];
    LoadedByte(chain.inputs, port);
    result := ReadChain(chain, port, garbage, inverse, all);
  }

  lemma LoadedByte(inputs: seq<Byte>, r: nat)
    requires r < |inputs|
    ensures forall j: nat :: j < 8 ==> Loaded(inputs)[8 * r + 7 - j] == BitOf(inputs[r], j)
  {
    forall j: nat | j < 8
      ensures Loaded(inputs)[8 * r + 7 - j] == BitOf(inputs[r], j)
    {
      LoadedIs(inputs, r, 7 - j);
      assert 8 * r + (7 - j) == 8 * r + 7 - j;
    }
  }
}
