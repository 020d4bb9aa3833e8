/**
 Gas: the counter, the interpreter loop and the host-call loop. What an instruction or a host call does is a parameter.
 */
module Gas {
  import opened Bytes

  const U64_LIMIT: nat := 0x1_0000_0000_0000_0000
  const PAGE_SIZE: nat := 4096

  // ----- the counter -----

  class GasCounter {
    const initialGas: nat
    var gas: nat
    /** The sum of all charges. */
    ghost var charged: nat

    /** The gas is what the charges leave, and never less than zero. */
    ghost predicate Valid()
      reads this
    {
      initialGas < U64_LIMIT && gas == if charged <= initialGas then initialGas - charged else 0
    }

    constructor (gas: nat)
      requires gas < U64_LIMIT
      ensures Valid() && initialGas == gas && this.gas == gas && charged == 0
    {
      initialGas, this.gas := gas, gas;
      charged := 0;
    }

    /** `sub`: on an underflow everything is gone. */
    method Sub(g: nat) returns (underflow: bool)
      requires Valid()
      modifies this
      ensures Valid() && charged == old(charged) + g
      ensures underflow == (g > old(gas)) && gas == (if underflow then 0 else old(gas) - g)
    {
      charged := charged + g;
      var result := gas as int - g;
      if result >= 0 {
        gas := result;
        return false;
      }
      gas := 0;
      return true;
    }

    /** `set`: overwrites the gas. Only lowering it keeps the account; the difference counts as a charge. */
    method Set(g: nat)
      requires Valid() && g < U64_LIMIT
      modifies this
      ensures gas == g && (g <= old(gas) ==> Valid() && charged == old(charged) + (old(gas) - g))
    {
      if g <= gas {
        charged := charged + (gas - g);
      }
      gas := g;
    }

    /** `used`: what is missing of the initial gas, and all of it should there be more than at the start. */
    method Used() returns (g: nat)
      ensures g == if gas <= initialGas then initialGas - gas else initialGas
      ensures Valid() ==> g == if charged <= initialGas then charged else initialGas
    {
      var gasConsumed := initialGas as int - gas;
      if gasConsumed < 0 {
        return initialGas;
      }
      g := gasConsumed;
    }
  }

  // ----- the interpreter -----

  datatype Status = OK | HALT | PANIC | FAULT | HOST | OOG

  datatype Result = Halt | Panic | FaultAccess | Fault | Host(index: nat)

  /**
   An instruction leaves a new machine (registers and memory), the next program counter and perhaps a reason to stop.
   */
  datatype Effect<M> = Effect(machine: M, nextPc: nat, status: Option<Result>)

  /** The instruction table and the instruction semantics. */
  datatype Instructions<!M> = Instructions(
    gasMap: map<byte, nat>,
    isValid: byte -> bool,
    sbrkLength: (M, seq<byte>, nat) -> Option<nat>,
    dispatch: (M, seq<byte>, nat) -> Effect<M>)

  const TRAP: byte := 0

  /** Every entry of the table costs something; in the source every one is 1. */
  predicate PositiveGas(gasMap: map<byte, nat>) {
    TRAP in gasMap && forall i | i in gasMap :: gasMap[i] >= 1
  }

  function SbrkCost(length: nat): nat {
    (length + PAGE_SIZE - 1) / PAGE_SIZE * 16
  }

  /** The instruction at the program counter; outside the code it is a trap. */
  function InstructionAt(code: seq<byte>, pc: nat): byte {
    if pc < |code| then code[pc] else TRAP
  }

  function StepCost(gasMap: map<byte, nat>, instruction: byte): nat
    requires TRAP in gasMap
  {
    if instruction in gasMap then gasMap[instruction] else gasMap[TRAP]
  }

  function StatusOf(r: Result): Status {
    match r
    case Fault => FAULT
    case Halt => HALT
    case Panic => PANIC
    case FaultAccess => PANIC
    case Host(_) => HOST
  }

  /** The state of an interpreter; `charged` is the sum of all charges so far. */
  datatype Pvm<M> = Pvm(pc: nat, status: Status, machine: M, nextPc: nat, result: Option<Result>, gas: nat,
      charged: nat)

  datatype Program<!M> = Program(code: seq<byte>, instructions: Instructions<M>, useSbrkGas: bool)

  function Pay<M>(s: Pvm<M>, g: nat): Pvm<M>
    requires g <= s.gas
  {
    s.(gas := s.gas - g, charged := s.charged + g)
  }

  function OutOfGas<M>(s: Pvm<M>, g: nat): Pvm<M> {
    s.(gas := 0, charged := s.charged + g, status := OOG)
  }

  /** Coming back from a host call. */
  function Resumed<M>(s: Pvm<M>): Pvm<M> {
    if s.status == HOST then s.(status := OK, pc := s.nextPc, nextPc := 0, result := None) else s
  }

  function SbrkCharge<M>(p: Program<M>, s: Pvm<M>): nat {
    var length := p.instructions.sbrkLength(s.machine, p.code, s.pc);
    if p.useSbrkGas && length.Some? then SbrkCost(length.value) else 0
  }

  /** What an instruction does once it has been paid for. */
  function Dispatched<M>(p: Program<M>, s: Pvm<M>): Pvm<M> {
    var e := p.instructions.dispatch(s.machine, p.code, s.pc);
    var t := s.(machine := e.machine, nextPc := e.nextPc, result := if e.status.Some? then e.status else s.result);
    if t.result.Some? then t.(status := StatusOf(t.result.value)) else t.(pc := t.nextPc)
  }

  /** A valid instruction whose table price is paid: its memory growth is charged before it takes effect. */
  function Performed<M>(p: Program<M>, s: Pvm<M>): Pvm<M> {
    if SbrkCharge(p, s) > s.gas then OutOfGas(s, SbrkCharge(p, s))
    else Dispatched(p, Pay(s, SbrkCharge(p, s)))
  }

  function StepOf<M>(p: Program<M>, before: Pvm<M>): Pvm<M>
    requires PositiveGas(p.instructions.gasMap)
  {
    var s := Resumed(before);
    var instruction := InstructionAt(p.code, s.pc);
    var cost := StepCost(p.instructions.gasMap, instruction);
    if cost > s.gas then OutOfGas(s, cost)
    else if !p.instructions.isValid(instruction) then Pay(s, cost).(result := Some(Panic), status := StatusOf(Panic))
    else Performed(p, Pay(s, cost))
  }

  predicate Runnable<M>(s: Pvm<M>) {
    && (s.status == OK || s.status == HOST)
    && (s.status == OK ==> s.result.None?)
    && (s.status == HOST ==> s.result.Some? && s.result.value.Host?)
  }

  /** Every step that does not run out of gas costs some, and what it costs is what it takes. */
  lemma StepPays<M>(p: Program<M>, s: Pvm<M>)
    requires PositiveGas(p.instructions.gasMap) && Runnable(s)
    ensures var t := StepOf(p, s);
            && t.charged > s.charged
            && (t.status == OOG <==> t.charged - s.charged > s.gas)
            && t.gas == (if t.status == OOG then 0 else s.gas - (t.charged - s.charged))
            && (t.status == OK || t.status == HOST ==> Runnable(t))
            && (t.status == OOG ==> t.machine == s.machine)
  {
    hide SbrkCharge;
    var r := Resumed(s);
    assert StepCost(p.instructions.gasMap, InstructionAt(p.code, r.pc)) >= 1;
  }

  /** A whole run: steps until the status is no longer OK. It ends because the gas does. */
  function RunOf<M>(p: Program<M>, s: Pvm<M>): Pvm<M>
    requires PositiveGas(p.instructions.gasMap) && Runnable(s)
    decreases s.gas
  {
    StepPays(p, s);
    var t := StepOf(p, s);
    if t.status == OK then RunOf(p, t) else t
  }

  function StepsOf<M>(p: Program<M>, s: Pvm<M>): nat
    requires PositiveGas(p.instructions.gasMap) && Runnable(s)
    decreases s.gas
  {
    StepPays(p, s);
    var t := StepOf(p, s);
    if t.status == OK then 1 + StepsOf(p, t) else 1
  }

  /** A run takes at most one step more than there is gas, and takes exactly what it charges. */
  lemma {:induction false} RunPays<M>(p: Program<M>, s: Pvm<M>)
    requires PositiveGas(p.instructions.gasMap) && Runnable(s)
    ensures 1 <= StepsOf(p, s) <= s.gas + 1
    ensures var t := RunOf(p, s);
            && t.status != OK && t.charged > s.charged
            && (t.status == OOG <==> t.charged - s.charged > s.gas)
            && t.gas == (if t.status == OOG then 0 else s.gas - (t.charged - s.charged))
            && (t.status == HOST ==> Runnable(t))
    decreases s.gas
  {
    hide StepOf, PositiveGas;
    StepPays(p, s);
    var t := StepOf(p, s);
    if t.status == OK {
      RunPays(p, t);
    }
  }

  class Interpreter<M> {
    const program: Program<M>
    const gas: GasCounter
    var pc: nat
    var status: Status
    var machine: M
    var nextPc: nat
    var resultStatus: Option<Result>

    ghost predicate Valid()
      reads this, gas
    {
      gas.Valid() && PositiveGas(program.instructions.gasMap)
    }

    ghost function View(): Pvm<M>
      reads this, gas
    {
      Pvm(pc, status, machine, nextPc, resultStatus, gas.gas, gas.charged)
    }

    constructor (program: Program<M>, pc: nat, initialGas: nat, machine: M)
      requires PositiveGas(program.instructions.gasMap) && initialGas < U64_LIMIT
      ensures Valid() && fresh(gas) && gas.initialGas == initialGas && this.program == program
      ensures View() == Pvm(pc, OK, machine, 0, None, initialGas, 0)
    {
      this.program := program;
      gas := new GasCounter(initialGas);
      this.pc, status, this.machine, nextPc, resultStatus := pc, OK, machine, 0, None;
    }

    /** The second half of `nextStep`: charges for memory growth, then dispatches. */
    method Perform() returns (result: Status)
      requires Valid() && View().status == OK && View().result.None?
      modifies this, gas
      ensures Valid() && View() == Performed(program, old(View())) && result == status
    {
      hide SbrkCost, StatusOf, PositiveGas;
      if program.useSbrkGas {
        var length := program.instructions.sbrkLength(machine, program.code, pc);
        if length.Some? {
          var underflow := gas.Sub(SbrkCost(length.value));
          if underflow {
            status := OOG;
            return status;
          }
        }
      }
      var effect := program.instructions.dispatch(machine, program.code, pc);
      machine := effect.machine;
      nextPc := effect.nextPc;
      resultStatus := effect.status;
      if resultStatus.Some? {
        status := StatusOf(resultStatus.value);
        return status;
      }
      pc := nextPc;
      result := status;
    }

    /** `nextStep`: charges first, and stops without effect when the gas does not suffice. */
    method NextStep() returns (result: Status)
      requires Valid() && Runnable(View())
      modifies this, gas
      ensures Valid() && View() == StepOf(program, old(View())) && result == status
    {
      hide InstructionAt, StepCost, Performed;
      if status == HOST {
        status := OK;
        pc := nextPc;
        nextPc := 0;
        resultStatus := None;
      }
      assert View() == Resumed(old(View()));
      var currentInstruction := InstructionAt(program.code, pc);
      var underflow := gas.Sub(StepCost(program.instructions.gasMap, currentInstruction));
      if underflow {
        status := OOG;
        return status;
      }
      if !program.instructions.isValid(currentInstruction) {
        resultStatus := Some(Panic);
        status := StatusOf(Panic);
        return status;
      }
      result := Perform();
    }

    /** `runProgram`. */
    method RunProgram()
      requires Valid() && Runnable(View())
      modifies this, gas
      ensures Valid() && View() == RunOf(program, old(View()))
    {
      hide StepOf, PositiveGas;
      StepPays(program, View());
      var s := NextStep();
      while s == OK
        invariant Valid() && s == status && (s == OK ==> Runnable(View()))
        invariant RunOf(program, old(View())) == if s == OK then RunOf(program, View()) else View()
        decreases s == OK, gas.gas
      {
        StepPays(program, View());
        s := NextStep();
      }
    }
  }

  // ----- host calls -----

  datatype ReturnStatus = ReturnOk(memorySlice: seq<byte>) | ReturnOog | ReturnPanic

  datatype ReturnValue = ReturnValue(consumedGas: nat, status: ReturnStatus)

  datatype PvmExecution = ExecHalt | ExecPanic | ExecOog

  /** Host calls: their basic cost, and what executing them leaves: a machine, the gas and perhaps a reason to stop. */
  datatype HostCalls<!M> = HostCalls(
    basicGasCost: (nat, M) -> nat,
    execute: (nat, nat, M) -> (M, nat, Option<PvmExecution>),
    loadResult: M -> Option<seq<byte>>)

  ghost predicate NeverRaisesGas<M(!new)>(host: HostCalls<M>) {
    forall index, gas, m :: host.execute(index, gas, m).1 <= gas
  }

  function ReturnOf<M>(host: HostCalls<M>, status: Status, m: M): ReturnStatus {
    match status
    case OOG => ReturnOog
    case HALT => ReturnOk(var loaded := host.loadResult(m); if loaded.Some? then loaded.value else [])
    case _ => ReturnPanic
  }

  function UsedOf(initialGas: nat, gas: nat): nat {
    if gas <= initialGas then initialGas - gas else initialGas
  }

  /** The state after a host call that has been paid for, and why it wants to stop. */
  ghost function AfterHost<M(!new)>(host: HostCalls<M>, s: Pvm<M>): (Pvm<M>, Option<PvmExecution>)
    requires NeverRaisesGas(host) && s.result.Some? && s.result.value.Host?
  {
    var (m, g, why) := host.execute(s.result.value.index, s.gas, s.machine);
    (s.(machine := m, gas := g, charged := s.charged + (s.gas - g)), why)
  }

  function StatusFor(why: PvmExecution): Status {
    match why case ExecHalt => HALT case ExecPanic => PANIC case ExecOog => OOG
  }

  /** The resume loop: run, pay for the host call, execute it, go on. It ends because the gas does. */
  ghost function ExecuteOf<M(!new)>(p: Program<M>, host: HostCalls<M>, initialGas: nat,
      s: Pvm<M>): (r: (ReturnValue, Pvm<M>))
    requires PositiveGas(p.instructions.gasMap) && NeverRaisesGas(host) && Runnable(s)
    decreases s.gas
  {
    RunPays(p, s);
    var t := RunOf(p, s);
    if t.status != HOST then (ReturnValue(UsedOf(initialGas, t.gas), ReturnOf(host, t.status, t.machine)), t)
    else
      var cost := host.basicGasCost(t.result.value.index, t.machine);
      if cost > t.gas then
        (ReturnValue(UsedOf(initialGas, 0), ReturnOog), OutOfGas(t, cost).(status := HOST))
      else
        var (u, why) := AfterHost(host, Pay(t, cost));
        if why.Some? then (ReturnValue(UsedOf(initialGas, u.gas), ReturnOf(host, StatusFor(why.value), u.machine)), u)
        else ExecuteOf(p, host, initialGas, u)
  }

  ghost function HostCallsOf<M(!new)>(p: Program<M>, host: HostCalls<M>, s: Pvm<M>): nat
    requires PositiveGas(p.instructions.gasMap) && NeverRaisesGas(host) && Runnable(s)
    decreases s.gas
  {
    RunPays(p, s);
    var t := RunOf(p, s);
    if t.status != HOST then 0
    else
      var cost := host.basicGasCost(t.result.value.index, t.machine);
      if cost > t.gas then 0
      else
        var (u, why) := AfterHost(host, Pay(t, cost));
        if why.Some? then 1 else 1 + HostCallsOf(p, host, u)
  }

  /** The gas is what the charges leave of the initial gas. */
  predicate Account<M>(initialGas: nat, s: Pvm<M>) {
    s.gas == if s.charged <= initialGas then initialGas - s.charged else 0
  }

  /**
   The loop makes no more host calls than there is gas; the consumed gas is the sum of all charges, and all of it on an
   underflow.
   */
  lemma {:induction false} ExecutePays<M(!new)>(p: Program<M>, host: HostCalls<M>, initialGas: nat, s: Pvm<M>)
    requires PositiveGas(p.instructions.gasMap) && NeverRaisesGas(host) && Runnable(s)
    requires Account(initialGas, s) && s.charged <= initialGas
    ensures HostCallsOf(p, host, s) <= s.gas
    ensures var (r, t) := ExecuteOf(p, host, initialGas, s);
            && Account(initialGas, t) && t.charged >= s.charged
            && r.consumedGas == (if t.charged <= initialGas then t.charged else initialGas)
            && (t.charged > initialGas ==> r == ReturnValue(initialGas, ReturnOog))
    decreases s.gas
  {
    hide RunOf, PositiveGas;
    RunPays(p, s);
    var t := RunOf(p, s);
    if t.status == HOST {
      var cost := host.basicGasCost(t.result.value.index, t.machine);
      if cost <= t.gas {
        var (u, why) := AfterHost(host, Pay(t, cost));
        if why.None? {
          ExecutePays(p, host, initialGas, u);
        }
      }
    }
  }

  method GetReturnValue<M>(status: Status, pvm: Interpreter<M>, host: HostCalls<M>) returns (r: ReturnValue)
    ensures r == ReturnValue(UsedOf(pvm.gas.initialGas, pvm.gas.gas), ReturnOf(host, status, pvm.machine))
  {
    var consumedGas := pvm.gas.Used();
    if status == OOG {
      return ReturnValue(consumedGas, ReturnOog);
    }
    if status == HALT {
      var loaded := host.loadResult(pvm.machine);
      return ReturnValue(consumedGas, ReturnOk(if loaded.Some? then loaded.value else []));
    }
    return ReturnValue(consumedGas, ReturnPanic);
  }

  /** One turn of the resume loop, given the state `t` in which the run stopped. */
  lemma ExecuteTurn<M(!new)>(p: Program<M>, host: HostCalls<M>, initialGas: nat, s: Pvm<M>, t: Pvm<M>)
    requires PositiveGas(p.instructions.gasMap) && NeverRaisesGas(host) && Runnable(s) && t == RunOf(p, s)
    ensures t.gas <= s.gas && (t.status == OOG || t.gas < s.gas) && t.status != OK
    ensures t.status == HOST ==> Runnable(t)
    ensures t.status != HOST ==>
              ExecuteOf(p, host, initialGas, s) ==
                  (ReturnValue(UsedOf(initialGas, t.gas), ReturnOf(host, t.status, t.machine)), t)
    ensures t.status == HOST ==>
              var cost := host.basicGasCost(t.result.value.index, t.machine);
              if cost > t.gas then
                ExecuteOf(p, host, initialGas, s) ==
                    (ReturnValue(UsedOf(initialGas, 0), ReturnOog), OutOfGas(t, cost).(status := HOST))
              else
                var (u, why) := AfterHost(host, Pay(t, cost));
                && u.gas <= t.gas - cost && Runnable(u) && u.status == HOST
                && ExecuteOf(p, host, initialGas, s) ==
                   if why.Some?
                   then (ReturnValue(UsedOf(initialGas, u.gas), ReturnOf(host, StatusFor(why.value), u.machine)), u)
                   else ExecuteOf(p, host, initialGas, u)
  {
    hide RunOf, PositiveGas, ReturnOf, UsedOf, StatusFor;
    RunPays(p, s);
  }

  /** `execute`. */
  method Execute<M(!new)>(pvm: Interpreter<M>, host: HostCalls<M>) returns (r: ReturnValue)
    requires pvm.Valid() && Runnable(pvm.View()) && NeverRaisesGas(host)
    modifies pvm, pvm.gas
    ensures pvm.Valid() && (r, pvm.View()) == ExecuteOf(pvm.program, host, pvm.gas.initialGas, old(pvm.View()))
  {
    hide RunOf, PositiveGas, ExecuteOf, NeverRaisesGas, HostCallsOf;
    while true
      invariant pvm.Valid() && Runnable(pvm.View())
      invariant ExecuteOf(pvm.program, host, pvm.gas.initialGas, pvm.View())
             == ExecuteOf(pvm.program, host, pvm.gas.initialGas, old(pvm.View()))
      decreases pvm.gas.gas
    {
      ghost var before := pvm.View();
      pvm.RunProgram();
      ExecuteTurn(pvm.program, host, pvm.gas.initialGas, before, pvm.View());
      var status := pvm.status;
      if status != HOST {
        r := GetReturnValue(status, pvm, host);
        return;
      }
      var hostCallIndex := pvm.resultStatus.value.index;
      var basicGasCost := host.basicGasCost(hostCallIndex, pvm.machine);
      var underflow := pvm.gas.Sub(basicGasCost);
      if underflow {
        r := GetReturnValue(OOG, pvm, host);
        return;
      }
      var (machine, gasAfter, result) := host.execute(hostCallIndex, pvm.gas.gas, pvm.machine);
      pvm.gas.Set(gasAfter);
      pvm.machine := machine;
      if result == Some(ExecHalt) {
        r := GetReturnValue(HALT, pvm, host);
        return;
      }
      if result == Some(ExecPanic) {
        r := GetReturnValue(PANIC, pvm, host);
        return;
      }
      if result == Some(ExecOog) {
        r := GetReturnValue(OOG, pvm, host);
        return;
      }
    }
  }

  /** `runProgram` of the executor: a fresh instance, run to its end. */
  method RunWithHostCalls<M(!new)>(program: Program<M>, host: HostCalls<M>, initialPc: nat, initialGas: nat,
      machine: M) returns (r: ReturnValue)
    requires PositiveGas(program.instructions.gasMap) && initialGas < U64_LIMIT && NeverRaisesGas(host)
    ensures r == ExecuteOf(program, host, initialGas, Pvm(initialPc, OK, machine, 0, None, initialGas, 0)).0
    ensures r.consumedGas <= initialGas
  {
    hide PositiveGas, NeverRaisesGas, ExecuteOf, HostCallsOf;
    var pvm := new Interpreter(program, initialPc, initialGas, machine);
    ExecutePays(program, host, initialGas, pvm.View());
    r := Execute(pvm, host);
  }
}
