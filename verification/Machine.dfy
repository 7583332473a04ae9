/**
 The register machine: what a task is, what one command does, and the reverse
 edges the distance search walks along.

 The register names, the value range and the largest amount are a parameter of
 the model (`World`); the source fixes them to "ABCD", 0 to 9 and 9.
 */
module Machine {
  import opened Wrappers
  import opened Sequences

  type State = seq<int>

  const OPERATIONS: seq<string> := ["add", "sub", "copy", "swap"]

  datatype World = World(registers: string, lo: int, hi: int, maxAmount: nat) {
    ghost predicate Valid() {
      && lo <= hi
      && NoDuplicates(registers)
    }
  }

  /** The amount of `add` and `sub`, or the second register of `copy` and `swap`. */
  datatype Argument = Amount(n: int) | Register(name: char)

  datatype Command = Command(op: string, register: char, argument: Argument)

  datatype Task = Task(world: World, start: State, goal: State, operations: seq<string>, limit: nat)

  /** Why a command may not run. A word where an amount belongs is the one case
      in which the source fails outright instead of refusing the command. */
  datatype Illegal =
    | NotAllowed(op: string)
    | UnknownRegister
    | OutOfRange(value: int)
    | NotAnAmount

  predicate IsArithmetic(op: string) {
    op == "add" || op == "sub"
  }

  predicate IsTransfer(op: string) {
    op == "copy" || op == "swap"
  }

  predicate InRange(w: World, value: int) {
    w.lo <= value <= w.hi
  }

  predicate IsState(w: World, size: nat, s: State) {
    |s| == size && forall i :: 0 <= i < size ==> InRange(w, s[i])
  }

  /** What `Task.__post_init__` demands, apart from the operation order. */
  ghost predicate ValidTask(task: Task) {
    && task.world.Valid()
    && 2 <= |task.start| <= |task.world.registers|
    && IsState(task.world, |task.start|, task.start)
    && IsState(task.world, |task.start|, task.goal)
    && (forall op :: op in task.operations ==> op in OPERATIONS)
  }

  function Registers(task: Task): string
    requires |task.start| <= |task.world.registers|
  {
    task.world.registers[..|task.start|]
  }

  /** The first position of a name, as `str.find` reports it. */
  function Find(names: string, name: char): Option<nat>
  {
    if names == "" then None
    else if names[0] == name then Some(0)
    else match Find(names[1..], name)
      case None => None
      case Some(i) => Some(i + 1)
  }

  lemma {:induction false} FindIsFirst(names: string, name: char)
    ensures Find(names, name).None? <==> name !in names
    ensures Find(names, name).Some? ==>
              var i := Find(names, name).value;
              i < |names| && names[i] == name && name !in names[..i]
  {
    if names != "" && names[0] != name {
      FindIsFirst(names[1..], name);
      if Find(names, name).Some? {
        var i := Find(names, name).value;
        assert names[..i] == [names[0]] + names[1..][..i - 1];
      }
    }
  }

  lemma FindName(names: string, i: nat)
    requires i < |names| && NoDuplicates(names)
    ensures Find(names, names[i]) == Some(i)
  {
    FindIsFirst(names, names[i]);
  }

  /** `add` or `sub` of `n` on register `index`, before any range check. */
  function Shifted(op: string, s: State, index: nat, n: int): State
    requires index < |s|
  {
    s[index := s[index] + (if op == "add" then n else -n)]
  }

  /** `copy` or `swap` of two registers. */
  function Transferred(op: string, s: State, index: nat, other: nat): State
    requires index < |s| && other < |s|
  {
    if op == "copy" then s[other := s[index]] else s[index := s[other]][other := s[index]]
  }

  lemma SwapIsSymmetric(s: State, index: nat, other: nat)
    requires index < |s| && other < |s|
    ensures Transferred("swap", s, index, other) == Transferred("swap", s, other, index)
    ensures Transferred("swap", Transferred("swap", s, index, other), index, other) == s
  {
  }

  function Step(task: Task, s: State, c: Command): (r: Result<State, Illegal>)
    requires |task.start| <= |task.world.registers|
    requires |s| == |task.start|
    ensures r.Ok? ==> |r.value| == |s|
  {
    if c.op !in task.operations then Err(NotAllowed(c.op))
    else match Find(Registers(task), c.register)
      case None => Err(UnknownRegister)
      case Some(index) =>
        FindIsFirst(Registers(task), c.register);
        if IsArithmetic(c.op) then
          if !c.argument.Amount? then Err(NotAnAmount)
          else
            var t := Shifted(c.op, s, index, c.argument.n);
            if !InRange(task.world, t[index]) then Err(OutOfRange(t[index])) else Ok(t)
        else if !c.argument.Register? then Err(UnknownRegister)
        else match Find(Registers(task), c.argument.name)
          case None => Err(UnknownRegister)
          case Some(other) =>
            FindIsFirst(Registers(task), c.argument.name);
            Ok(Transferred(c.op, s, index, other))
  }

  // ----- what each command does

  lemma NamedRegister(task: Task, i: nat)
    requires ValidTask(task) && i < |task.world.registers|
    ensures Find(Registers(task), task.world.registers[i]) == if i < |task.start| then Some(i) else None
  {
    var names := Registers(task);
    FindIsFirst(names, task.world.registers[i]);
    if i < |task.start| {
      FindName(names, i);
    }
  }

  /** `add` and `sub` change the register they name, by its position among the names, and
      no other, as long as its value stays in range. */
  lemma ArithmeticActsOnItsRegister(task: Task, s: State, i: nat, n: int)
    requires ValidTask(task) && |s| == |task.start| && i < |s|
    ensures var (name, w) := (task.world.registers[i], task.world);
            && ("add" in task.operations ==>
                  Step(task, s, Command("add", name, Amount(n))) ==
                  if w.lo <= s[i] + n <= w.hi then Ok(s[i := s[i] + n]) else Err(OutOfRange(s[i] + n)))
            && ("sub" in task.operations ==>
                  Step(task, s, Command("sub", name, Amount(n))) ==
                  if w.lo <= s[i] - n <= w.hi then Ok(s[i := s[i] - n]) else Err(OutOfRange(s[i] - n)))
  {
    NamedRegister(task, i);
  }

  /** `copy` writes the first register into the second, `swap` exchanges the two. */
  lemma TransferActsOnItsRegisters(task: Task, s: State, i: nat, j: nat)
    requires ValidTask(task) && |s| == |task.start| && i < |s| && j < |s|
    ensures var (first, second) := (task.world.registers[i], task.world.registers[j]);
            && ("copy" in task.operations ==>
                  Step(task, s, Command("copy", first, Register(second))) == Ok(s[j := s[i]]))
            && ("swap" in task.operations ==>
                  Step(task, s, Command("swap", first, Register(second))) == Ok(s[i := s[j]][j := s[i]]))
  {
    NamedRegister(task, i);
    NamedRegister(task, j);
  }

  /** A command is refused if the task does not allow it, or if it names a register that the
      task does not have, which are those from its number of registers on. A number names no
      register, and a name is no amount. */
  lemma ForeignCommandsAreRefused(task: Task, s: State, c: Command)
    requires ValidTask(task) && |s| == |task.start|
    ensures c.op !in task.operations ==> Step(task, s, c) == Err(NotAllowed(c.op))
    ensures c.op in task.operations && c.register !in task.world.registers[..|s|] ==>
              Step(task, s, c) == Err(UnknownRegister)
    ensures (&& c.op in task.operations && IsTransfer(c.op) && c.argument.Register?
             && c.argument.name !in task.world.registers[..|s|]) ==> Step(task, s, c) == Err(UnknownRegister)
    ensures c.op in task.operations && IsTransfer(c.op) && c.argument.Amount? ==>
              Step(task, s, c) == Err(UnknownRegister)
    ensures (&& c.op in task.operations && IsArithmetic(c.op) && c.argument.Register?
             && c.register in task.world.registers[..|s|]) ==> Step(task, s, c) == Err(NotAnAmount)
  {
    FindIsFirst(task.world.registers[..|s|], c.register);
    if c.argument.Register? {
      FindIsFirst(task.world.registers[..|s|], c.argument.name);
    }
  }

  /** The commands the grammar can write: an amount from 1 to the largest one, or
      two different registers. */
  predicate Grammatical(w: World, c: Command) {
    || (IsArithmetic(c.op) && c.argument.Amount? && 1 <= c.argument.n <= w.maxAmount)
    || (IsTransfer(c.op) && c.argument.Register? && c.argument.name != c.register)
  }

  /** `c` is a command of the language that the task permits in `s`, and it leads to `t`. */
  predicate Legal(task: Task, s: State, c: Command, t: State)
    requires |task.start| <= |task.world.registers|
    requires |s| == |task.start|
  {
    Grammatical(task.world, c) && Step(task, s, c) == Ok(t)
  }

  /** Some legal command turns the state `s` into `t`. */
  ghost predicate Turns(task: Task, s: State, t: State)
    requires |task.start| <= |task.world.registers|
  {
    IsState(task.world, |task.start|, s) && exists c :: Legal(task, s, c, t)
  }

  // ----- the commands of a task, in the order the generator yields them

  function CommandsOf(task: Task, op: string, register: char): seq<Command>
    requires |task.start| <= |task.world.registers|
  {
    if IsArithmetic(op)
    then seq(task.world.maxAmount, k requires 0 <= k => Command(op, register, Amount(k + 1)))
    else TransfersOf(op, register, Registers(task))
  }

  /** Both orders of a swap do the same, so the second name has to be the larger one. */
  function TransfersOf(op: string, register: char, others: string): seq<Command> {
    if others == "" then []
    else
      var rest := TransfersOf(op, register, others[1..]);
      if others[0] != register && (op == "copy" || others[0] > register)
      then [Command(op, register, Register(others[0]))] + rest
      else rest
  }

  function CommandsOfOperation(task: Task, op: string): seq<Command>
    requires |task.start| <= |task.world.registers|
  {
    Flatten(seq(|task.start|, i requires 0 <= i < |task.start| => CommandsOf(task, op, Registers(task)[i])))
  }

  function Commands(task: Task): seq<Command>
    requires |task.start| <= |task.world.registers|
  {
    Flatten(seq(|task.operations|, i requires 0 <= i < |task.operations| =>
                                   CommandsOfOperation(task, task.operations[i])))
  }

  /** Exactly the commands `Commands` lists. */
  predicate Listed(task: Task, c: Command)
    requires |task.start| <= |task.world.registers|
  {
    && c.op in task.operations
    && c.register in Registers(task)
    && if IsArithmetic(c.op) then c.argument.Amount? && 1 <= c.argument.n <= task.world.maxAmount
       else && c.argument.Register? && c.argument.name in Registers(task)
            && c.argument.name != c.register
            && (c.op == "copy" || c.argument.name > c.register)
  }

  lemma {:induction false} TransfersOfMembers(op: string, register: char, others: string, c: Command)
    ensures c in TransfersOf(op, register, others) <==>
            && c.op == op && c.register == register && c.argument.Register?
            && c.argument.name in others && c.argument.name != register
            && (op == "copy" || c.argument.name > register)
  {
    if others != "" {
      TransfersOfMembers(op, register, others[1..], c);
    }
  }

  lemma CommandsOfMembers(task: Task, op: string, register: char, c: Command)
    requires |task.start| <= |task.world.registers|
    requires op in task.operations && register in Registers(task)
    ensures c in CommandsOf(task, op, register) <==> Listed(task, c) && c.op == op && c.register == register
  {
    if IsArithmetic(op) {
      if Listed(task, c) && c.op == op && c.register == register {
        assert CommandsOf(task, op, register)[c.argument.n - 1] == c;
      }
    } else {
      TransfersOfMembers(op, register, Registers(task), c);
    }
  }

  lemma CommandsOfOperationMembers(task: Task, op: string, c: Command)
    requires |task.start| <= |task.world.registers| && op in task.operations
    ensures c in CommandsOfOperation(task, op) <==> Listed(task, c) && c.op == op
  {
    var names := Registers(task);
    var parts := seq(|task.start|, i requires 0 <= i < |task.start| => CommandsOf(task, op, names[i]));
    FlattenMembers(parts, c);
    forall i | 0 <= i < |parts|
      ensures c in parts[i] <==> Listed(task, c) && c.op == op && c.register == names[i]
    {
      CommandsOfMembers(task, op, names[i], c);
    }
    if Listed(task, c) && c.op == op {
      var i :| 0 <= i < |names| && names[i] == c.register;
      assert c in parts[i];
    }
  }

  lemma CommandsMembers(task: Task, c: Command)
    requires |task.start| <= |task.world.registers|
    ensures c in Commands(task) <==> Listed(task, c)
  {
    var parts := seq(|task.operations|, i requires 0 <= i < |task.operations| =>
                                        CommandsOfOperation(task, task.operations[i]));
    FlattenMembers(parts, c);
    forall i | 0 <= i < |parts|
      ensures c in parts[i] <==> Listed(task, c) && c.op == task.operations[i]
    {
      CommandsOfOperationMembers(task, task.operations[i], c);
    }
    if Listed(task, c) {
      var i :| 0 <= i < |task.operations| && task.operations[i] == c.op;
      assert c in parts[i];
    }
  }

  // ----- the order of the commands

  predicate Ascends<T>(before: (T, T) -> bool, xs: seq<T>) {
    forall i, j :: 0 <= i < j < |xs| ==> before(xs[i], xs[j])
  }

  lemma {:induction false} FlattenAscends<T>(before: (T, T) -> bool, xss: seq<seq<T>>)
    requires forall k :: 0 <= k < |xss| ==> Ascends(before, xss[k])
    requires forall k, l, i, j ::
               0 <= k < l < |xss| && 0 <= i < |xss[k]| && 0 <= j < |xss[l]| ==> before(xss[k][i], xss[l][j])
    ensures Ascends(before, Flatten(xss))
  {
    if xss != [] {
      var first, rest := xss[0], Flatten(xss[1..]);
      FlattenAscends(before, xss[1..]);
      forall i, j | 0 <= i < |first| && 0 <= j < |rest| ensures before(first[i], rest[j]) {
        FlattenMembers(xss[1..], rest[j]);
        var l :| 0 <= l < |xss[1..]| && rest[j] in xss[1..][l];
        var m :| 0 <= m < |xss[1..][l]| && xss[1..][l][m] == rest[j];
        assert xss[1..][l] == xss[l + 1] && before(xss[0][i], xss[l + 1][m]);
      }
    }
  }

  /** `op` stands before `other` in the list of allowed operations. */
  ghost predicate ComesBefore<T>(all: seq<T>, x: T, y: T) {
    exists i, j :: 0 <= i < j < |all| && all[i] == x && all[j] == y
  }

  /** By operation, then by register, then by amount or second register. */
  ghost predicate GoesBefore(task: Task, c: Command, d: Command) {
    || ComesBefore(task.operations, c.op, d.op)
    || (c.op == d.op && ComesBefore(task.world.registers, c.register, d.register))
    || (c.op == d.op && c.register == d.register && ArgumentGoesBefore(task, c.argument, d.argument))
  }

  ghost predicate ArgumentGoesBefore(task: Task, a: Argument, b: Argument) {
    if a.Amount? then b.Amount? && a.n < b.n
    else b.Register? && ComesBefore(task.world.registers, a.name, b.name)
  }

  lemma {:induction false} TransfersAscend(task: Task, op: string, register: char, from: nat)
    requires |task.start| <= |task.world.registers| && from <= |task.start|
    ensures Ascends((c, d) => GoesBefore(task, c, d), TransfersOf(op, register, Registers(task)[from..]))
    decreases |task.start| - from
  {
    var names := Registers(task);
    if from < |names| {
      TransfersAscend(task, op, register, from + 1);
      assert names[from..][1..] == names[from + 1..];
      var rest := TransfersOf(op, register, names[from + 1..]);
      forall j | 0 <= j < |rest| ensures GoesBefore(task, Command(op, register, Register(names[from])), rest[j]) {
        TransfersOfMembers(op, register, names[from + 1..], rest[j]);
        var k :| 0 <= k < |names[from + 1..]| && names[from + 1..][k] == rest[j].argument.name;
        assert task.world.registers[from] == names[from] && task.world.registers[from + 1 + k] == rest[j].argument.name;
      }
    }
  }

  lemma CommandsOfAscend(task: Task, op: string, register: char)
    requires |task.start| <= |task.world.registers|
    ensures Ascends((c, d) => GoesBefore(task, c, d), CommandsOf(task, op, register))
    ensures forall c :: c in CommandsOf(task, op, register) ==> c.op == op && c.register == register
  {
    TransfersAscend(task, op, register, 0);
    assert Registers(task)[0..] == Registers(task);
    if !IsArithmetic(op) {
      forall c | c in CommandsOf(task, op, register) ensures c.op == op && c.register == register {
        TransfersOfMembers(op, register, Registers(task), c);
      }
    }
  }

  lemma OperationAscends(task: Task, op: string)
    requires |task.start| <= |task.world.registers|
    ensures Ascends((c, d) => GoesBefore(task, c, d), CommandsOfOperation(task, op))
    ensures forall c :: c in CommandsOfOperation(task, op) ==> c.op == op
  {
    var names := Registers(task);
    var parts := seq(|task.start|, i requires 0 <= i < |task.start| => CommandsOf(task, op, names[i]));
    forall i | 0 <= i < |parts|
      ensures Ascends((c, d) => GoesBefore(task, c, d), parts[i])
      ensures forall c: Command :: c in parts[i] ==> c.op == op && c.register == names[i]
    {
      CommandsOfAscend(task, op, names[i]);
    }
    hide CommandsOf;
    forall k, l, i, j | 0 <= k < l < |parts| && 0 <= i < |parts[k]| && 0 <= j < |parts[l]|
      ensures GoesBefore(task, parts[k][i], parts[l][j])
    {
      assert parts[k][i] in parts[k] && parts[l][j] in parts[l];
      assert task.world.registers[k] == names[k] && task.world.registers[l] == names[l];
    }
    FlattenAscends((c, d) => GoesBefore(task, c, d), parts);
    forall c | c in Flatten(parts) ensures c.op == op {
      FlattenMembers(parts, c);
    }
  }

  /** The generator yields its commands by operation as allowed, then by register, then by
      amount or second register. */
  lemma CommandsAscend(task: Task)
    requires |task.start| <= |task.world.registers|
    ensures Ascends((c, d) => GoesBefore(task, c, d), Commands(task))
  {
    var parts := seq(|task.operations|, i requires 0 <= i < |task.operations| =>
                                        CommandsOfOperation(task, task.operations[i]));
    forall i | 0 <= i < |parts|
      ensures Ascends((c, d) => GoesBefore(task, c, d), parts[i])
      ensures forall c: Command :: c in parts[i] ==> c.op == task.operations[i]
    {
      OperationAscends(task, task.operations[i]);
    }
    hide CommandsOfOperation;
    forall k, l, i, j | 0 <= k < l < |parts| && 0 <= i < |parts[k]| && 0 <= j < |parts[l]|
      ensures GoesBefore(task, parts[k][i], parts[l][j])
    {
      assert parts[k][i] in parts[k] && parts[l][j] in parts[l];
    }
    FlattenAscends((c, d) => GoesBefore(task, c, d), parts);
  }

  /** The legal commands from `s` and where each one leads. */
  function Moves(task: Task, s: State): seq<(Command, State)>
    requires |task.start| <= |task.world.registers| && |s| == |task.start|
  {
    MovesOf(task, s, Commands(task))
  }

  function MovesOf(task: Task, s: State, cs: seq<Command>): seq<(Command, State)>
    requires |task.start| <= |task.world.registers| && |s| == |task.start|
  {
    if cs == [] then []
    else match Step(task, s, cs[0])
      case Ok(t) => [(cs[0], t)] + MovesOf(task, s, cs[1..])
      case Err(_) => MovesOf(task, s, cs[1..])
  }

  lemma {:induction false} MovesOfMembers(task: Task, s: State, cs: seq<Command>, c: Command, t: State)
    requires |task.start| <= |task.world.registers| && |s| == |task.start|
    ensures (c, t) in MovesOf(task, s, cs) <==> c in cs && Step(task, s, c) == Ok(t)
  {
    if cs != [] {
      MovesOfMembers(task, s, cs[1..], c, t);
    }
  }

  lemma {:induction false} MovesOfAscend(task: Task, s: State, cs: seq<Command>)
    requires |task.start| <= |task.world.registers| && |s| == |task.start|
    requires Ascends((c, d) => GoesBefore(task, c, d), cs)
    ensures forall i, j :: 0 <= i < j < |MovesOf(task, s, cs)| ==>
              GoesBefore(task, MovesOf(task, s, cs)[i].0, MovesOf(task, s, cs)[j].0)
  {
    if cs != [] {
      MovesOfAscend(task, s, cs[1..]);
      hide Step, GoesBefore;
      var rest := MovesOf(task, s, cs[1..]);
      forall j | 0 <= j < |rest| ensures GoesBefore(task, cs[0], rest[j].0) {
        MovesOfMembers(task, s, cs[1..], rest[j].0, rest[j].1);
        assert rest[j] == (rest[j].0, rest[j].1);
        var k :| 0 <= k < |cs[1..]| && cs[1..][k] == rest[j].0;
        assert cs[k + 1] == rest[j].0;
      }
    }
  }

  /** Moves come in the order of their commands. */
  lemma MovesAscend(task: Task, s: State)
    requires |task.start| <= |task.world.registers| && |s| == |task.start|
    ensures forall i, j :: 0 <= i < j < |Moves(task, s)| ==> GoesBefore(task, Moves(task, s)[i].0, Moves(task, s)[j].0)
  {
    CommandsAscend(task);
    MovesOfAscend(task, s, Commands(task));
  }

  /** What a command of the language does, a listed one does. */
  lemma ListedTwin(task: Task, s: State, c: Command, t: State) returns (listed: Command)
    requires ValidTask(task) && |s| == |task.start| && Legal(task, s, c, t)
    ensures Listed(task, listed) && Step(task, s, listed) == Ok(t)
  {
    listed := if c.op == "swap" && c.argument.name < c.register
              then Command("swap", c.argument.name, Register(c.register)) else c;
    FindIsFirst(Registers(task), c.register);
    if c.argument.Register? {
      FindIsFirst(Registers(task), c.argument.name);
      SwapIsSymmetric(s, Find(Registers(task), c.register).value, Find(Registers(task), c.argument.name).value);
    }
  }

  lemma ListedIsGrammatical(task: Task, c: Command)
    requires ValidTask(task) && Listed(task, c)
    ensures Grammatical(task.world, c)
  {
  }

  /** Leaving one order of each swap out loses no edge: whatever a command of the
      language can do from a state, a listed move does too. */
  lemma MovesAreComplete(task: Task, s: State, t: State)
    requires ValidTask(task) && |s| == |task.start|
    ensures (exists c :: Legal(task, s, c, t)) ==> exists c :: (c, t) in Moves(task, s)
    ensures forall c :: (c, t) in Moves(task, s) ==> Listed(task, c) && Legal(task, s, c, t)
  {
    forall c
      ensures (c, t) in Moves(task, s) <==> Listed(task, c) && Step(task, s, c) == Ok(t)
      ensures Listed(task, c) ==> Grammatical(task.world, c)
    {
      MovesOfMembers(task, s, Commands(task), c, t);
      CommandsMembers(task, c);
      hide Listed, Step, Grammatical;
      if Listed(task, c) {
        ListedIsGrammatical(task, c);
      }
    }
    hide Listed, Step, Moves, Grammatical;
    if c :| Legal(task, s, c, t) {
      var listed := ListedTwin(task, s, c, t);
      assert (listed, t) in Moves(task, s);
    }
  }

  // ----- the reverse edges

  /** The states one command of kind `op` on register `index` turns into `t`. */
  function PredecessorsAt(w: World, op: string, t: State, index: nat): seq<State>
    requires index < |t|
  {
    if IsArithmetic(op) then
      var sign := if op == "add" then 1 else -1;
      ArithmeticBefore(w, t, index, sign, w.maxAmount)
    else
      Flatten(seq(|t|, other requires 0 <= other < |t| => TransferBefore(w, op, t, index, other)))
  }

  /** Amounts 1 to `upTo`, each undone when what it started from is in range. */
  function ArithmeticBefore(w: World, t: State, index: nat, sign: int, upTo: nat): seq<State>
    requires index < |t|
  {
    if upTo == 0 then []
    else
      var before := t[index] - sign * upTo;
      ArithmeticBefore(w, t, index, sign, upTo - 1)
      + (if InRange(w, before) then [t[index := before]] else [])
  }

  function TransferBefore(w: World, op: string, t: State, index: nat, other: nat): seq<State>
    requires index < |t| && other < |t|
  {
    if other == index then []
    else if op == "swap" then [t[index := t[other]][other := t[index]]]
    else if t[other] == t[index] then
      // every value the copy may have overwritten
      seq(if w.lo <= w.hi then w.hi - w.lo + 1 else 0, k requires 0 <= k => t[other := w.lo + k])
    else []
  }

  function Predecessors(task: Task, t: State): seq<State>
  {
    Flatten(seq(|task.operations|, o requires 0 <= o < |task.operations| =>
      Flatten(seq(|t|, index requires 0 <= index < |t| =>
        PredecessorsAt(task.world, task.operations[o], t, index)))))
  }

  lemma {:induction false} ArithmeticBeforeMembers(w: World, t: State, index: nat, sign: int, upTo: nat, s: State)
    requires index < |t|
    ensures s in ArithmeticBefore(w, t, index, sign, upTo) <==>
            exists n :: 1 <= n <= upTo && InRange(w, t[index] - sign * n) && s == t[index := t[index] - sign * n]
  {
    if upTo > 0 {
      ArithmeticBeforeMembers(w, t, index, sign, upTo - 1, s);
    }
  }

  lemma TransferBeforeMembers(w: World, op: string, t: State, index: nat, other: nat, s: State)
    requires IsTransfer(op) && w.lo <= w.hi && index < |t| && other < |t| && IsState(w, |t|, t)
    ensures s in TransferBefore(w, op, t, index, other) <==>
            && other != index && IsState(w, |t|, s)
            && t == Transferred(op, s, index, other)
  {
    if other != index && op == "copy" && t[other] == t[index] {
      var all := TransferBefore(w, op, t, index, other);
      if IsState(w, |t|, s) && t == s[other := s[index]] {
        assert all[s[other] - w.lo] == t[other := s[other]] == s;
      }
      if s in all {
        var k :| 0 <= k < |all| && all[k] == s;
        assert s[other := s[index]] == t;
      }
    } else if other != index && op == "swap" {
      SwapIsSymmetric(t, index, other);
      if |s| == |t| {
        SwapIsSymmetric(s, index, other);
      }
    }
  }

  /** What a command of kind `op` on position `index` does, positions instead of names. */
  ghost predicate MovesAt(w: World, op: string, index: nat, s: State, t: State)
    requires index < |t|
  {
    && IsState(w, |t|, s)
    && if IsArithmetic(op)
       then exists n: nat :: 1 <= n <= w.maxAmount && t == Shifted(op, s, index, n)
       else exists other: nat :: other < |t| && other != index && t == Transferred(op, s, index, other)
  }

  lemma ArithmeticPredecessors(w: World, op: string, t: State, index: nat, s: State)
    requires w.lo <= w.hi && IsState(w, |t|, t) && index < |t| && IsArithmetic(op)
    ensures s in PredecessorsAt(w, op, t, index) <==> MovesAt(w, op, index, s, t)
  {
    var sign := if op == "add" then 1 else -1;
    ArithmeticBeforeMembers(w, t, index, sign, w.maxAmount, s);
    hide ArithmeticBefore;
    if n :| 1 <= n <= w.maxAmount && InRange(w, t[index] - sign * n) && s == t[index := t[index] - sign * n] {
      assert t == Shifted(op, s, index, n);
    }
    if MovesAt(w, op, index, s, t) {
      var n: nat :| 1 <= n <= w.maxAmount && t == Shifted(op, s, index, n);
      assert s[index] == t[index] - sign * n;
      assert s == t[index := t[index] - sign * n];
    }
  }

  lemma TransferPredecessors(w: World, op: string, t: State, index: nat, s: State)
    requires w.lo <= w.hi && IsState(w, |t|, t) && index < |t| && IsTransfer(op)
    ensures s in PredecessorsAt(w, op, t, index) <==> MovesAt(w, op, index, s, t)
  {
    hide TransferBefore, Transferred, Flatten;
    var parts := seq(|t|, other requires 0 <= other < |t| => TransferBefore(w, op, t, index, other));
    FlattenMembers(parts, s);
    forall other: nat | other < |t|
      ensures s in parts[other] <==>
              other != index && IsState(w, |t|, s) && t == Transferred(op, s, index, other)
    {
      TransferBeforeMembers(w, op, t, index, other, s);
    }
  }

  lemma PredecessorsAtMembers(w: World, op: string, t: State, index: nat, s: State)
    requires w.lo <= w.hi && IsState(w, |t|, t) && index < |t| && op in OPERATIONS
    ensures s in PredecessorsAt(w, op, t, index) <==> MovesAt(w, op, index, s, t)
  {
    hide PredecessorsAt, MovesAt;
    if IsArithmetic(op) {
      ArithmeticPredecessors(w, op, t, index, s);
    } else {
      TransferPredecessors(w, op, t, index, s);
    }
  }

  lemma PredecessorsMembers(task: Task, t: State, s: State)
    requires task.world.lo <= task.world.hi && IsState(task.world, |t|, t)
    requires forall op :: op in task.operations ==> op in OPERATIONS
    ensures s in Predecessors(task, t) <==>
            exists op, index: nat :: op in task.operations && index < |t| && MovesAt(task.world, op, index, s, t)
  {
    hide PredecessorsAt, MovesAt, Flatten;
    var w := task.world;
    var inner := seq(|task.operations|, o requires 0 <= o < |task.operations| =>
      seq(|t|, index requires 0 <= index < |t| => PredecessorsAt(w, task.operations[o], t, index)));
    var outer := seq(|task.operations|, o requires 0 <= o < |task.operations| =>
      Flatten(seq(|t|, index requires 0 <= index < |t| => PredecessorsAt(w, task.operations[o], t, index))));
    FlattenMembers(outer, s);
    forall o | 0 <= o < |outer|
      ensures s in outer[o] <==> exists index: nat :: index < |t| && MovesAt(w, task.operations[o], index, s, t)
    {
      assert outer[o] == Flatten(inner[o]);
      FlattenMembers(inner[o], s);
      forall index: nat | index < |t|
        ensures s in inner[o][index] <==> MovesAt(w, task.operations[o], index, s, t)
      {
        PredecessorsAtMembers(w, task.operations[o], t, index, s);
      }
    }
    if op, index: nat :| op in task.operations && index < |t| && MovesAt(w, op, index, s, t) {
      var o :| 0 <= o < |task.operations| && task.operations[o] == op;
      assert s in outer[o];
    }
    assert outer == seq(|task.operations|, o requires 0 <= o < |task.operations| =>
      Flatten(seq(|t|, index requires 0 <= index < |t| => PredecessorsAt(task.world, task.operations[o], t, index))));
  }

  /** One legal command, with its registers as positions. */
  lemma LegalIsMove(task: Task, s: State, c: Command, t: State)
    requires ValidTask(task) && IsState(task.world, |task.start|, s) && Legal(task, s, c, t)
    ensures IsState(task.world, |task.start|, t)
    ensures exists index: nat :: index < |t| && c.op in task.operations && MovesAt(task.world, c.op, index, s, t)
  {
    FindIsFirst(Registers(task), c.register);
    var index := Find(Registers(task), c.register).value;
    if IsArithmetic(c.op) {
      assert t == Shifted(c.op, s, index, c.argument.n);
    } else {
      FindIsFirst(Registers(task), c.argument.name);
      var other := Find(Registers(task), c.argument.name).value;
      assert t == Transferred(c.op, s, index, other);
    }
    assert MovesAt(task.world, c.op, index, s, t);
  }

  lemma MoveIsLegal(task: Task, op: string, index: nat, s: State, t: State) returns (c: Command)
    requires ValidTask(task) && op in task.operations && index < |t| == |task.start|
    requires IsState(task.world, |t|, t) && MovesAt(task.world, op, index, s, t)
    ensures Legal(task, s, c, t)
  {
    var names := Registers(task);
    FindName(names, index);
    if IsArithmetic(op) {
      var n: nat :| 1 <= n <= task.world.maxAmount && t == Shifted(op, s, index, n);
      c := Command(op, names[index], Amount(n));
      assert InRange(task.world, t[index]);
    } else {
      var other: nat :| other < |t| && other != index && t == Transferred(op, s, index, other);
      FindName(names, other);
      c := Command(op, names[index], Register(names[other]));
    }
  }

  /** The hand-written reverse edges are the reverse of `step`, for any number of
      registers and any value range: nothing missing, nothing extra. */
  lemma PredecessorsAreExact(task: Task, s: State, t: State)
    requires ValidTask(task) && IsState(task.world, |task.start|, t)
    ensures s in Predecessors(task, t) <==> Turns(task, s, t)
  {
    PredecessorsMembers(task, t, s);
    if s in Predecessors(task, t) {
      var op, index: nat :| op in task.operations && index < |t| && MovesAt(task.world, op, index, s, t);
      var c := MoveIsLegal(task, op, index, s, t);
    }
    if IsState(task.world, |task.start|, s) && exists c :: Legal(task, s, c, t) {
      var c :| Legal(task, s, c, t);
      LegalIsMove(task, s, c, t);
    }
  }
}
