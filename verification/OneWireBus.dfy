/** The 1-Wire bus as its master sees it: a set of devices with 64-bit ROM codes that
    answer together, each able to pull the line low. */
module OneWireBus {
  import opened Bits

  const SEARCH_ROM: Byte := 0xF0
  const MATCH_ROM: Byte := 0x55

  type Code = c: seq<bool> | |c| == 64 witness seq(64, _ => false)

  // What the devices expect next. In `Search` the two answers and the selection of each
  // ROM bit take three slots; `answers` counts the answers already given.
  datatype Mode =
    | Idle
    | Command(bits: seq<bool>)
    | Search(pos: nat, answers: nat)
    | Match(pos: nat)
    | Addressed

  function AfterCommand(command: Byte): Mode {
    if command == SEARCH_ROM then Search(0, 0)
    else if command == MATCH_ROM then Match(0)
    else Idle
  }

  /** The commands by their codes. */
  lemma CommandCodes(command: Byte)
    ensures AfterCommand(command).Search? <==> command == 0xF0
    ensures AfterCommand(command).Match? <==> command == 0x55
  {
  }

  // The line during a read slot: high unless some selected device sends a zero.
  function Line(S: set<Code>, mode: Mode): (level: bool) {
    match mode
    case Search(pos, 0) => if pos < 64 then forall d :: d in S ==> d[pos] else true
    case Search(pos, 1) => if pos < 64 then forall d :: d in S ==> !d[pos] else true
    case _ => true
  }

  function AfterRead(mode: Mode): Mode {
    match mode
    case Search(pos, answers) => if answers < 2 then Search(pos, answers + 1) else Idle
    case _ => mode
  }

  function AfterWrite(mode: Mode, bit: bool): Mode {
    match mode
    case Command(bits) =>
      if |bits| == 7 then AfterCommand(FromBits(bits + [bit])) else Command(bits + [bit])
    case Search(pos, answers) =>
      if answers != 2 then Idle else if pos < 63 then Search(pos + 1, 0) else Addressed
    case Match(pos) => if pos < 63 then Match(pos + 1) else Addressed
    case _ => mode
  }

  // The devices that stay selected when the master writes a bit.
  function Kept(S: set<Code>, mode: Mode, bit: bool): (kept: set<Code>)
    ensures kept <= S
  {
    match mode
    case Search(pos, _) => set d | d in S && pos < 64 && d[pos] == bit
    case Match(pos) => set d | d in S && pos < 64 && d[pos] == bit
    case _ => S
  }

  class Bus {
    // attached(t) is the set of devices wired to the bus during time slot t. A device that
    // appears after a reset does not take part until the next reset.
    const attached: nat -> set<Code>
    var slot: nat
    var selected: set<Code>
    var mode: Mode

    constructor (attached: nat -> set<Code>)
      ensures this.attached == attached && slot == 0 && selected == {} && mode == Idle
    {
      this.attached := attached;
      slot, selected, mode := 0, {}, Idle;
    }

    // Device d is attached during every slot from t up to, but not including, slot u.
    ghost predicate Stays(d: Code, t: nat, u: nat) {
      forall v :: t <= v < u ==> d in attached(v)
    }

    // The attached devices are exactly D during those slots.
    ghost predicate Steady(D: set<Code>, t: nat, u: nat) {
      forall v :: t <= v < u ==> attached(v) == D
    }

    method Reset() returns (present: bool)
      modifies this
      ensures slot == old(slot) + 1 && mode == Command([])
      ensures selected == attached(old(slot))
      ensures present <==> selected != {}
    {
      selected, mode := attached(slot), Command([]);
      slot := slot + 1;
      present := selected != {};
    }

    method Read() returns (level: bool)
      modifies this
      ensures slot == old(slot) + 1 && mode == AfterRead(old(mode))
      ensures selected == old(selected) * attached(old(slot))
      ensures level == Line(selected, old(mode))
    {
      selected := selected * attached(slot);
      level := Line(selected, mode);
      slot, mode := slot + 1, AfterRead(mode);
    }

    method Write(bit: bool)
      modifies this
      ensures slot == old(slot) + 1 && mode == AfterWrite(old(mode), bit)
      ensures selected == Kept(old(selected) * attached(old(slot)), old(mode), bit)
    {
      selected := Kept(selected * attached(slot), mode, bit);
      slot, mode := slot + 1, AfterWrite(mode, bit);
    }
  }
}
