/** The master's side of the 1-Wire bus: bit slots, addressing and the ROM search. */
module OneWire {
  import opened Bits
  import opened OneWireBus
  import opened OneWireOrder
  import opened OneWireRun

  // A uint8_t stored into an int8_t.
  function Int8(u: int): (v: int)
    ensures 0 <= u < 256 ==> -128 <= v < 128 && v % 256 == u
  {
    if u >= 128 then u - 256 else u
  }

  // Eight bytes hold a ROM code: its bit 8k+j is bit j of byte k.
  ghost predicate Packs(rom: seq<Byte>, code: Code) {
    |rom| == 8 && forall k, j :: 0 <= k < 8 && 0 <= j < 8 ==> BitOf(rom[k], j) == code[8 * k + j]
  }

  // The bytes determine the code and the code determines the bytes.
  lemma PacksIsOneToOne(rom: seq<Byte>, code: Code, rom': seq<Byte>, code': Code)
    requires Packs(rom, code) && Packs(rom', code')
    ensures rom == rom' <==> code == code'
  {
    if rom == rom' {
      forall i | 0 <= i < 64
        ensures code[i] == code'[i]
      {
        assert i == 8 * (i / 8) + i % 8;
        assert BitOf(rom[i / 8], i % 8) == BitOf(rom'[i / 8], i % 8);
      }
    }
    if code == code' {
      forall k | 0 <= k < 8
        ensures rom[k] == rom'[k]
      {
        FromToBits(rom[k]);
        FromToBits(rom'[k]);
        assert forall j :: 0 <= j < 8 ==> BitOf(rom[k], j) == code[8 * k + j] == BitOf(rom'[k], j);
        assert ToBits(rom[k]) == ToBits(rom'[k]);
      }
    }
  }

  lemma OneBitChanges(rom: seq<Byte>, code: Code, k: nat, bit: nat, b: Byte, v: bool)
    requires Packs(rom, code) && k < 8 && bit < 8
    requires forall j :: 0 <= j < 8 ==> BitOf(b, j) == if j == bit then v else BitOf(rom[k], j)
    ensures Packs(rom[k := b], code[8 * k + bit := v])
  {
  }

  // A ROM code as eight bytes, and the 64 bits they hold.
  class RomCode {
    const bytewise: array<Byte>
    ghost var code: Code

    ghost predicate Valid()
      reads this, bytewise
    {
      Packs(bytewise[..], code)
    }

    constructor ()
      ensures Valid() && fresh(bytewise) && code == Zero()
    {
      bytewise := new Byte[8](_ => 0);
      code := Zero();
    }

    method Clear()
      requires Valid()
      modifies this, bytewise
      ensures Valid() && code == Zero()
    {
      for i := 0 to 8
        invariant forall k :: 0 <= k < i ==> bytewise[k] == 0
      {
        bytewise[i] := 0;
      }
      code := Zero();
    }

    function Bit(i: nat): (bit: Byte)
      requires Valid() && i < 64
      reads this, bytewise
      ensures bit != 0 <==> code[i]
    {
      assert code[8 * (i / 8) + i % 8] == BitOf(bytewise[i / 8], i % 8);
      bytewise[i / 8] & BV(i % 8)
    }

    method SetAddressBit(idx: nat, val: Byte)
      requires Valid() && idx < 64
      modifies this, bytewise
      ensures Valid() && code == old(code)[idx := val != 0]
    {
      var byte, bit := idx / 8, idx % 8;
      ghost var was := bytewise[..];
      bytewise[byte] := WithBit(bytewise[byte], bit, val != 0);
      OneBitChanges(was, code, byte, bit, bytewise[byte], val != 0);
      assert bytewise[..] == was[byte := bytewise[byte]];
      code := code[idx := val != 0];
    }
  }

  lemma PrefixStep(p: seq<bool>, d: Code, b: bool)
    requires |p| < 64
    ensures p + [b] <= d <==> p <= d && d[|p|] == b
  {
    if p <= d && d[|p|] == b {
      assert d[..|p| + 1] == p + [b];
    }
  }

  lemma HoldsOneMore(p: seq<bool>, prev: Code, b: bool)
    requires |p| < 64
    ensures (p + prev[|p|..])[|p| := b] == p + [b] + prev[|p| + 1..]
  {
  }

  lemma OnlyItself(S: set<Code>, code: Code)
    requires forall d :: d in S ==> code <= d
    ensures S <= {code}
  {
    forall d | d in S
      ensures d == code
    {
      assert code <= d;
    }
  }

  lemma KeptFollow(S: set<Code>, p: seq<bool>, b: bool)
    requires |p| < 64 && forall d :: d in S ==> p <= d
    ensures forall d :: d in Kept(S, Search(|p|, 2), b) ==> p + [b] <= d
  {
    forall d | d in Kept(S, Search(|p|, 2), b)
      ensures p + [b] <= d
    {
      PrefixStep(p, d, b);
    }
  }

  // The devices after i bits of a command.
  function Giving(value: Byte, i: nat): Mode
    requires i <= 8
  {
    if i < 8 then Command(ToBits(value)[..i]) else AfterCommand(value)
  }

  lemma GivingOneMore(value: Byte, i: nat)
    requires i < 8
    ensures AfterWrite(Giving(value, i), value & BV(i) != 0) == Giving(value, i + 1)
  {
    assert ToBits(value)[..i + 1] == ToBits(value)[..i] + [BitOf(value, i)];
    if i == 7 {
      assert ToBits(value)[..8] == ToBits(value);
      FromToBits(value);
    }
  }

  function MatchAt(pos: nat): Mode {
    if pos < 64 then Match(pos) else Addressed
  }

  // When not both answers are one, some device gave the bit that is chosen.
  lemma SomeoneAnswered(S1: set<Code>, S2: set<Code>, i: nat, b: bool) returns (d: Code)
    requires i < 64 && S2 <= S1
    requires var ones, zeros := Line(S1, Search(i, 0)), Line(S2, Search(i, 1));
      !(ones && zeros) && (ones != zeros ==> b == ones)
    ensures d in S1 && d[i] == b
  {
    if b {
      d :| d in S2 && d[i];
    } else {
      d :| d in S1 && !d[i];
    }
  }

  // On a bus with the fixed devices D, the bits chosen so far are those of the walk.
  ghost predicate OnWalk(S: set<Code>, D: set<Code>, prev: Code, last: int, p: seq<bool>, discrepancy: nat) {
    && |p| <= 64
    && S == Matching(D, p) && S != {}
    && Walk(D, prev, last, p) == Walk(D, prev, last, [])
    && discrepancy == (if DiscrepancyBelow(D, p, |p|) < 0 then 255 else DiscrepancyBelow(D, p, |p|))
  }

  lemma {:induction false} DiscrepancyOfPrefix(D: set<Code>, p: seq<bool>, q: seq<bool>, n: nat)
    requires n <= |p| && p <= q
    ensures DiscrepancyBelow(D, p, n) == DiscrepancyBelow(D, q, n)
  {
    if n > 0 {
      assert p[..n - 1] == q[..n - 1];
      DiscrepancyOfPrefix(D, p, q, n - 1);
    }
  }

  // What the two answers tell, and what one more bit of the walk does.
  lemma AnswersShowBranches(D: set<Code>, p: seq<bool>)
    requires |p| < 64
    ensures Line(Matching(D, p), Search(|p|, 0)) == !Branch(D, p, false)
    ensures Line(Matching(D, p), Search(|p|, 1)) == !Branch(D, p, true)
  {
    forall d: Code | d in D
      ensures p + [false] <= d <==> p <= d && !d[|p|]
      ensures p + [true] <= d <==> p <= d && d[|p|]
    {
      PrefixStep(p, d, false);
      PrefixStep(p, d, true);
    }
    assert forall d :: d in Matching(D, p) <==> d in D && p <= d;
  }

  lemma WriteKeepsBranch(D: set<Code>, p: seq<bool>, b: bool)
    requires |p| < 64
    ensures Kept(Matching(D, p), Search(|p|, 2), b) == Matching(D, p + [b])
  {
    forall d: Code | d in D
      ensures p + [b] <= d <==> p <= d && d[|p|] == b
    {
      PrefixStep(p, d, b);
    }
  }

  lemma OnWalkStep(S: set<Code>, D: set<Code>, prev: Code, last: int, p: seq<bool>, disc: nat)
    requires |p| < 64 && OnWalk(S, D, prev, last, p, disc)
    ensures var b := Pick(D, prev, last, p);
      OnWalk(Kept(S, Search(|p|, 2), b), D, prev, last, p + [b],
             if !b && Branch(D, p, true) then |p| else disc)
  {
    var b := Pick(D, prev, last, p);
    var q := p + [b];
    PickStaysInside(D, prev, last, p);
    WriteKeepsBranch(D, p, b);
    assert q[..|p|] == p && q[|p|] == b;
    DiscrepancyOfPrefix(D, p, q, |p|);
    assert Walk(D, prev, last, p) == Walk(D, prev, last, q);
  }

  // A step whose answers say whether all bits are ones and all are zeros, and which chooses b.
  lemma SearchStep(S: set<Code>, D: set<Code>, prev: Code, last: int, p: seq<bool>, disc: nat,
                   ones: bool, zeros: bool, b: bool)
    requires |p| < 64 && OnWalk(S, D, prev, last, p, disc)
    requires ones == Line(S, Search(|p|, 0)) && zeros == Line(S, Search(|p|, 1))
    requires ones != zeros ==> b == ones
    requires !ones && !zeros ==> b == (|p| == last || (|p| < last && prev[|p|]))
    ensures !(ones && zeros)
    ensures OnWalk(Kept(S, Search(|p|, 2), b), D, prev, last, p + [b],
                   if !ones && !zeros && !b then |p| else disc)
  {
    AnswersShowBranches(D, p);
    PickStaysInside(D, prev, last, p);
    assert b == Pick(D, prev, last, p);
    OnWalkStep(S, D, prev, last, p, disc);
  }

  class Master {
    const bus: Bus
    const currentRom: RomCode
    var lastDiscrepancy: int

    ghost predicate Valid()
      reads this, currentRom, currentRom.bytewise
    {
      currentRom.Valid() && -1 <= lastDiscrepancy < 64
    }

    constructor (bus: Bus)
      ensures Valid() && this.bus == bus && lastDiscrepancy == -1
      ensures fresh(currentRom) && fresh(currentRom.bytewise)
    {
      this.bus := bus;
      currentRom := new RomCode();
      lastDiscrepancy := -1;
    }

    method OwWrite(value: Byte)
      modifies bus
      ensures bus.slot == old(bus.slot) + 1
      ensures bus.mode == AfterWrite(old(bus.mode), value != 0)
      ensures bus.selected
           == Kept(old(bus.selected) * bus.attached(old(bus.slot)), old(bus.mode), value != 0)
    {
      bus.Write(value > 0);
    }

    method OwRead() returns (data: Byte)
      modifies bus
      ensures bus.slot == old(bus.slot) + 1 && bus.mode == AfterRead(old(bus.mode))
      ensures bus.selected == old(bus.selected) * bus.attached(old(bus.slot))
      ensures data == if Line(bus.selected, old(bus.mode)) then 1 else 0
    {
      var level := bus.Read();
      data := if level then 1 else 0;
    }

    // After a reset the eight slots of a byte select a command, least significant bit first.
    method OwWriteByte(value: Byte)
      requires bus.mode == Command([])
      modifies bus
      ensures bus.slot == old(bus.slot) + 8 && bus.mode == AfterCommand(value)
      ensures forall d :: d in bus.selected <==>
        d in old(bus.selected) && bus.Stays(d, old(bus.slot), bus.slot)
    {
      for i := 0 to 8
        invariant bus.slot == old(bus.slot) + i
        invariant bus.mode == Giving(value, i)
        invariant forall d :: d in bus.selected <==>
          d in old(bus.selected) && bus.Stays(d, old(bus.slot), bus.slot)
      {
        GivingOneMore(value, i);
        OwWrite(value & BV(i));
      }
    }

    // The devices still selected after k ROM bits: those that agree with them and stayed.
    ghost predicate Narrowed(code: Code, k: nat, since: nat)
      requires k <= 64
      reads bus
    {
      forall d :: d in bus.selected <==> code[..k] <= d && bus.Stays(d, since, bus.slot)
    }

    method MatchBit(bit: Byte, ghost code: Code, ghost k: nat, ghost since: nat)
      requires k < 64 && code[k] == (bit != 0) && bus.mode == Match(k)
      requires since <= bus.slot && Narrowed(code, k, since)
      modifies bus
      ensures bus.slot == old(bus.slot) + 1 && bus.mode == MatchAt(k + 1)
      ensures Narrowed(code, k + 1, since)
    {
      OwWrite(bit);
      forall d: Code
        ensures d in bus.selected <==> code[..k + 1] <= d && bus.Stays(d, since, bus.slot)
      {
        PrefixStep(code[..k], d, code[k]);
        assert code[..k + 1] == code[..k] + [code[k]];
      }
    }

    method MatchByte(rom: RomCode, i: nat, ghost since: nat)
      requires rom.Valid() && i < 8 && since <= bus.slot
      requires bus.mode == MatchAt(8 * i) && Narrowed(rom.code, 8 * i, since)
      modifies bus
      ensures bus.slot == old(bus.slot) + 8 && bus.mode == MatchAt(8 * i + 8)
      ensures Narrowed(rom.code, 8 * i + 8, since)
    {
      for j := 0 to 8
        invariant bus.slot == old(bus.slot) + j && bus.mode == MatchAt(8 * i + j)
        invariant Narrowed(rom.code, 8 * i + j, since)
      {
        var bit := rom.bytewise[i] & BV(j);
        assert BitOf(rom.bytewise[i], j) == rom.code[8 * i + j];
        MatchBit(bit, rom.code, 8 * i + j, since);
      }
    }

    // Once all 64 bits are sent, only the device with that code can be left.
    lemma OnlyThisOne(S: set<Code>, code: Code, since: nat)
      requires S == bus.selected && Narrowed(code, 64, since)
      ensures S == if bus.Stays(code, since, bus.slot) then {code} else {}
    {
      assert code[..64] == code;
      forall d | d in S
        ensures d == code
      {
        assert code <= d;
      }
    }

    /** Addresses one device. After the 73 slots this takes, the device with that ROM code is
        selected, if it is there throughout, and no other. */
    method MatchRom(rom: RomCode) returns (ret: int)
      requires rom.Valid()
      modifies bus
      ensures ret == if bus.attached(old(bus.slot)) == {} then -1 else 1
      ensures ret == 1 ==> bus.mode == Addressed && bus.slot == old(bus.slot) + 73
      ensures ret == 1 ==> bus.selected == if bus.Stays(rom.code, old(bus.slot), bus.slot) then {rom.code} else {}
    {
      var present := bus.Reset();
      if !present {
        return -1;
      }
      OwWriteByte(MATCH_ROM);
      ghost var code := rom.code;
      ghost var since := old(bus.slot);
      for i := 0 to 8
        invariant bus.slot == since + 9 + 8 * i && bus.mode == MatchAt(8 * i)
        invariant Narrowed(code, 8 * i, since)
      {
        MatchByte(rom, i, since);
      }
      ret := 1;
      OnlyThisOne(bus.selected, code, since);
    }

    // Every selected device agrees with the bits chosen so far and stayed on the bus.
    ghost predicate Followed(p: seq<bool>, since: nat)
      reads bus
    {
      forall d :: d in bus.selected ==> p <= d && bus.Stays(d, since, bus.slot)
    }

    // currentRom holds the bits chosen so far, followed by those of the previous code.
    ghost predicate Holds(p: seq<bool>, prev: Code)
      reads currentRom
    {
      |p| <= 64 && currentRom.code == p + prev[|p|..]
    }

    // The choice made from two answers that are not both one.
    method ChooseBit(i: nat, bits: Byte, answer: Byte, discrepancy: nat, ghost p: seq<bool>, ghost prev: Code)
      returns (bit1: Byte, disc: nat)
      requires Valid() && i < 64 && bits < 3 && answer == bits & 1
      requires |p| == i && Holds(p, prev)
      modifies currentRom, currentRom.bytewise
      ensures Valid()
      ensures Holds(p + [bit1 != 0], prev)
      ensures bits != 0 ==> (bit1 != 0 <==> bits == 1)
      ensures bits == 0 ==> (bit1 != 0 <==> i == lastDiscrepancy || (i < lastDiscrepancy && prev[i]))
      ensures disc == if bits == 0 && bit1 == 0 then i else discrepancy
    {
      bit1, disc := answer, discrepancy;
      ghost var rom := currentRom.code;
      assert rom[i] == prev[i];
      if bits == 0 {
        if i == lastDiscrepancy {
          currentRom.SetAddressBit(i, 1);
          bit1 := 1;
        } else if i > lastDiscrepancy {
          currentRom.SetAddressBit(i, 0);
          disc := i;
        } else {
          var romBit := currentRom.Bit(i);
          if romBit == 0 {
            disc := i;
          }
          bit1 := romBit;
        }
      } else {
        currentRom.SetAddressBit(i, bit1);
      }
      HoldsOneMore(p, prev, bit1 != 0);
      assert rom[i := rom[i]] == rom;
    }

    // The two answers about bit i, from the devices still there at each of them.
    method ReadAnswers(i: nat) returns (bit1: Byte, bits: Byte)
      requires i < 64 && bus.mode == Search(i, 0)
      modifies bus
      ensures bus.slot == old(bus.slot) + 2 && bus.mode == Search(i, 2)
      ensures bus.selected == old(bus.selected) * bus.attached(old(bus.slot)) * bus.attached(old(bus.slot) + 1)
      ensures bit1 == if Line(old(bus.selected) * bus.attached(old(bus.slot)), Search(i, 0)) then 1 else 0
      ensures bits == (if Line(bus.selected, Search(i, 1)) then 2 else 0) | bit1
    {
      bit1 := OwRead();
      bits := OwRead();
      bits := (bits << 1) | bit1;
    }

    // The choice after two answers that are not both one, and the selection of that branch; S
    // are the devices that gave the first answer.
    method TakeBranch(i: nat, bit1: Byte, bits: Byte, discrepancy: nat,
                      ghost p: seq<bool>, ghost prev: Code, ghost since: nat, ghost S: set<Code>)
      returns (disc: nat, ghost b: bool, ghost shown: Code)
      requires Valid() && i < 64 && bus.mode == Search(i, 2) && |p| == i && Holds(p, prev) && Followed(p, since)
      requires bus.selected <= S && since < bus.slot
      requires forall d :: d in S ==> p <= d && bus.Stays(d, since, bus.slot - 1)
      requires bit1 == if Line(S, Search(i, 0)) then 1 else 0
      requires bits == (if Line(bus.selected, Search(i, 1)) then 2 else 0) | bit1
      requires bits != 3
      modifies bus, currentRom, currentRom.bytewise
      ensures Valid()
      ensures bus.slot == old(bus.slot) + 1 && bus.mode == if i < 63 then Search(i + 1, 0) else Addressed
      ensures bus.selected == Kept(old(bus.selected) * bus.attached(old(bus.slot)), Search(i, 2), b)
      ensures Holds(p + [b], prev) && Followed(p + [b], since)
      ensures p + [b] <= shown && bus.Stays(shown, since, bus.slot - 2)
      ensures bits != 0 ==> (b <==> bits == 1)
      ensures bits == 0 ==> (b <==> i == lastDiscrepancy || (i < lastDiscrepancy && prev[i]))
      ensures disc == if bits == 0 && !b then i else discrepancy
    {
      ghost var S2 := bus.selected;
      var bit;
      bit, disc := ChooseBit(i, bits, bit1, discrepancy, p, prev);
      b := bit != 0;
      shown := SomeoneAnswered(S, S2, i, b);
      PrefixStep(p, shown, b);
      KeptFollow(S2 * bus.attached(bus.slot), p, b);
      OwWrite(bit);
    }

    // One step of the search: two answers, a choice, and the selection of that branch. Not
    // found means that nobody answered. The device shown was attached up to the first answer.
    method SearchBit(i: nat, discrepancy: nat,
                     ghost p: seq<bool>, ghost D: set<Code>, ghost prev: Code, ghost since: nat)
      returns (found: bool, disc: nat, ghost b: bool, ghost shown: Code)
      requires Valid() && i < 64 && since <= bus.slot && bus.mode == Search(i, 0)
      requires |p| == i && Holds(p, prev)
      requires Followed(p, since)
      modifies bus, currentRom, currentRom.bytewise
      ensures Valid()
      ensures found ==> bus.slot == old(bus.slot) + 3 && bus.mode == if i < 63 then Search(i + 1, 0) else Addressed
      ensures found ==> disc in {discrepancy, i}
      ensures found ==> Holds(p + [b], prev) && Followed(p + [b], since)
      ensures found ==> p + [b] <= shown && bus.Stays(shown, since, bus.slot - 2)
      ensures bus.Steady(D, since, old(bus.slot) + 3)
        && OnWalk(old(bus.selected), D, prev, lastDiscrepancy, p, discrepancy)
        ==> found && OnWalk(bus.selected, D, prev, lastDiscrepancy, p + [b], disc)
    {
      ghost var S, s := bus.selected, bus.slot;
      disc, b, shown := discrepancy, false, prev;
      var bit1, bits := ReadAnswers(i);
      ghost var S1, S2 := S * bus.attached(s), bus.selected;
      found := bits != 3;
      if found {
        disc, b, shown := TakeBranch(i, bit1, bits, discrepancy, p, prev, since, S1);
      }
      if bus.Steady(D, since, s + 3) && OnWalk(S, D, prev, lastDiscrepancy, p, discrepancy) {
        assert S1 == S && S2 == S && S2 * bus.attached(s + 2) == S;
        SearchStep(S, D, prev, lastDiscrepancy, p, discrepancy, bit1 != 0, bits & 2 != 0, b);
      }
    }

    // The 64 steps of one pass.
    method Descend(ghost D: set<Code>, ghost prev: Code, ghost since: nat)
      returns (found: bool, discrepancy: nat, ghost code: Code)
      requires Valid() && bus.slot == since + 9 && bus.mode == Search(0, 0)
      requires currentRom.code == prev && Followed([], since)
      modifies bus, currentRom, currentRom.bytewise
      ensures Valid()
      ensures found ==> discrepancy == 255 || discrepancy < 64
      ensures found ==> currentRom.code == code
      ensures found ==> bus.slot == since + 201 && bus.mode == Addressed && Followed(code, since)
      ensures found ==> bus.Stays(code, since, since + 199)
      ensures bus.Steady(D, since, since + 201)
        && OnWalk(old(bus.selected), D, prev, lastDiscrepancy, [], 255)
        ==> found && OnWalk(bus.selected, D, prev, lastDiscrepancy, code, discrepancy)
    {
      discrepancy, code := 255, prev;
      ghost var p: seq<bool> := [];
      ghost var shown := prev;
      ghost var steady := bus.Steady(D, since, since + 201)
        && OnWalk(bus.selected, D, prev, lastDiscrepancy, [], 255);
      for i := 0 to 64
        invariant Valid() && bus.slot == since + 9 + 3 * i
        invariant bus.mode == if i < 64 then Search(i, 0) else Addressed
        invariant discrepancy == 255 || discrepancy < i
        invariant |p| == i && Holds(p, prev) && Followed(p, since)
        invariant i > 0 ==> p <= shown && bus.Stays(shown, since, bus.slot - 2)
        invariant steady ==> OnWalk(bus.selected, D, prev, lastDiscrepancy, p, discrepancy)
      {
        ghost var b;
        found, discrepancy, b, shown := SearchBit(i, discrepancy, p, D, prev, since);
        if !found {
          return;
        }
        p := p + [b];
      }
      found, code := true, p;
      assert currentRom.code == code && shown == code;
    }

    /** One search pass: 1 and the next ROM code in currentRom, 0 when there is none left or
        when the devices vanished meanwhile, -1 without a presence pulse. A code reported
        belongs to a device that was attached from the reset to the first answer about its
        last bit. On a bus that stays the same, the pass is the walk of the trie. */
    method SearchRom(first: bool) returns (ret: int)
      requires Valid()
      modifies this, bus, currentRom, currentRom.bytewise
      ensures Valid() && ret in {-1, 0, 1}
      ensures !first && old(lastDiscrepancy) < 0 ==>
        ret == 0 && unchanged(this) && unchanged(bus) && unchanged(currentRom) && unchanged(currentRom.bytewise)
      ensures first || old(lastDiscrepancy) >= 0 ==>
        (ret == -1 <==> bus.attached(old(bus.slot)) == {})
      ensures ret == -1 ==> lastDiscrepancy == (if first then -1 else old(lastDiscrepancy))
      ensures ret == 1 ==>
        && bus.slot == old(bus.slot) + 201 && bus.mode == Addressed
        && bus.selected <= {currentRom.code}
        && bus.Stays(currentRom.code, old(bus.slot), old(bus.slot) + 199)
      ensures
        var D, since := bus.attached(old(bus.slot)), old(bus.slot);
        var prev: Code := if first then Zero() else old(currentRom.code);
        var last := if first then -1 else old(lastDiscrepancy);
        bus.Steady(D, since, since + 201) && D != {} && (first || last >= 0) ==>
          && ret == 1
          && currentRom.code == Walk(D, prev, last, [])
          && lastDiscrepancy == LastDiscrepancy(D, currentRom.code)
          && bus.selected == {currentRom.code}
    {
      if first {
        lastDiscrepancy := -1;
        currentRom.Clear();
      } else {
        if lastDiscrepancy < 0 {
          return 0;
        }
      }
      ghost var prev := currentRom.code;
      ghost var since := bus.slot;
      ghost var D := bus.attached(since);
      var present := bus.Reset();
      if !present {
        return -1;
      }
      OwWriteByte(SEARCH_ROM);
      assert bus.Steady(D, since, since + 201) ==> bus.selected == Matching(D, []);
      var found, discrepancy;
      ghost var code;
      found, discrepancy, code := Descend(D, prev, since);
      if !found {
        return 0;
      }
      OnlyItself(bus.selected, code);
      lastDiscrepancy := Int8(discrepancy);
      ret := 1;
    }

    // The state between two passes over the fixed devices D.
    ghost predicate Reported(D: set<Code>, code: Code)
      reads this, currentRom
    {
      code in D && currentRom.code == code && lastDiscrepancy == LastDiscrepancy(D, code)
    }

    method SearchRomFirst(ghost D: set<Code>) returns (ret: int)
      requires Valid() && D != {} && bus.Steady(D, bus.slot, bus.slot + 201)
      modifies this, bus, currentRom, currentRom.bytewise
      ensures Valid() && ret == 1 && Reported(D, First(D)) && bus.slot == old(bus.slot) + 201
    {
      assert bus.attached(bus.slot) == D;
      ret := SearchRom(true);
    }

    method SearchRomNext(ghost D: set<Code>, ghost code: Code) returns (ret: int)
      requires Valid() && Reported(D, code) && bus.Steady(D, bus.slot, bus.slot + 201)
      modifies this, bus, currentRom, currentRom.bytewise
      ensures Valid()
      ensures LastDiscrepancy(D, code) < 0 ==> ret == 0
      ensures LastDiscrepancy(D, code) >= 0 ==>
        ret == 1 && Reported(D, Next(D, code)) && bus.slot == old(bus.slot) + 201
    {
      assert bus.attached(bus.slot) == D;
      ret := SearchRom(false);
      if LastDiscrepancy(D, code) >= 0 {
        NextPassFindsSuccessor(D, code);
      }
    }

    // The codes reported so far are the first ones of the run.
    static ghost predicate Listed(roms: seq<seq<Byte>>, all: seq<Code>) {
      |roms| <= |all| && forall k :: 0 <= k < |roms| ==> Packs(roms[k], all[k])
    }

    static lemma ListedNext(roms: seq<seq<Byte>>, all: seq<Code>, rom: seq<Byte>)
      requires Listed(roms, all) && |roms| < |all| && Packs(rom, all[|roms|])
      ensures Listed(roms + [rom], all)
    {
    }

    /** The loop of the list command, on a bus whose devices D do not change meanwhile. */
    method ListDevices(ghost D: set<Code>) returns (roms: seq<seq<Byte>>, ret: int)
      requires Valid() && D != {}
      requires bus.Steady(D, bus.slot, bus.slot + 201 * (|D| + 1))
      modifies this, bus, currentRom, currentRom.bytewise
      ensures ret == 0 && |roms| == |D|
      ensures var all := Passes(D, First(D));
        |all| == |roms| && forall k :: 0 <= k < |roms| ==> Packs(roms[k], all[k])
    {
      RunIsComplete(D);
      ghost var since, all := bus.slot, Passes(D, First(D));
      ghost var code: Code := First(D);
      roms := [];
      ret := SearchRomFirst(D);
      while ret == 1
        invariant Valid() && ret in {0, 1}
        invariant ret == 0 ==> |roms| == |all|
        invariant ret == 1 ==> bus.slot == since + 201 * (|roms| + 1) && |roms| < |all|
        invariant ret == 1 ==> Reported(D, code) && Passes(D, code) == all[|roms|..]
        invariant Listed(roms, all)
        decreases |all| - |roms|
      {
        PassesUnfold(D, code, all, |roms|);
        ListedNext(roms, all, currentRom.bytewise[..]);
        roms := roms + [currentRom.bytewise[..]];
        ret := SearchRomNext(D, code);
        code := if ret == 1 then Next(D, code) else code;
      }
    }
  }
}
