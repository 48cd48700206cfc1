/**
 * The command registry of the C++ shell (include/command_registry.hpp,
 * src/command_registry.cpp, include/icommand.hpp): it owns every command
 * object ever registered and maps each name to the one registered last.
 * A pointer into the owned objects is modelled by its position among them.
 */
module CommandRegistry {
  import opened Wrappers

  const COMMAND_SUCCESS: int := 0
  const COMMAND_ERROR: int := 1
  const COMMAND_EXIT_REQUESTED: int := -99
  const COMMAND_NOT_FOUND: int := -1

  /** What a call of `execute` does: return a code, or throw. */
  datatype Outcome = Returned(code: int) | Threw

  /** An `ICommand`: its name, its description, and what `execute` does with an argument vector. */
  datatype Command = Command(name: string, description: string, execute: seq<string> -> Outcome)

  /** The registry's two fields: the owned objects and the name-to-object map. */
  datatype Table = Table(objects: seq<Command>, index: map<string, nat>)

  /** Every map entry points to an owned object registered under that name. */
  predicate WellIndexed(t: Table)
  {
    forall n | n in t.index :: t.index[n] < |t.objects| && t.objects[t.index[n]].name == n
  }

  /** `registerCommand`: append the object and point its name at it. */
  function Register(t: Table, c: Command): (r: Table)
    ensures |r.objects| == |t.objects| + 1 && r.objects[..|t.objects|] == t.objects && r.objects[|t.objects|] == c
    ensures r.index.Keys == t.index.Keys + {c.name} && r.index[c.name] == |t.objects|
    ensures forall n | n in t.index && n != c.name :: r.index[n] == t.index[n]
  {
    Table(t.objects + [c], t.index[c.name := |t.objects|])
  }

  /** `findCommand`: the object the name maps to, or null. */
  function Find(t: Table, name: string): (r: Option<nat>)
    requires WellIndexed(t)
    ensures r.Some? <==> name in t.index
    ensures r.Some? ==> r.value < |t.objects| && t.objects[r.value].name == name
  {
    if name in t.index then Some(t.index[name]) else None
  }

  /** The code `executeCommand` turns an outcome into: a thrown exception becomes COMMAND_ERROR. */
  function Code(o: Outcome): int
  {
    match o
    case Returned(c) => c
    case Threw => COMMAND_ERROR
  }

  /** `executeCommand`: dispatch on the first argument, passing the whole vector. */
  function Execute(t: Table, args: seq<string>): (r: int)
    requires WellIndexed(t)
    ensures args == [] ==> r == COMMAND_SUCCESS
    ensures args != [] && args[0] !in t.index ==> r == COMMAND_NOT_FOUND
    ensures args != [] && args[0] in t.index ==>
      exists k | 0 <= k < |t.objects| :: t.objects[k].name == args[0] && r == Code(t.objects[k].execute(args))
  {
    if args == [] then COMMAND_SUCCESS
    else match Find(t, args[0])
      case None => COMMAND_NOT_FOUND
      case Some(k) => Code(t.objects[k].execute(args))
  }

  class CommandRegistry {
    var commandObjects: seq<Command>
    var commandMap: map<string, nat>

    constructor()
      ensures commandObjects == [] && commandMap == map[]
    {
      commandObjects := [];
      commandMap := map[];
    }

    function Value(): Table
      reads this
    {
      Table(commandObjects, commandMap)
    }

    ghost predicate Valid()
      reads this
    {
      WellIndexed(Value())
    }

    method RegisterCommand(c: Command)
      requires Valid()
      modifies this
      ensures Valid()
      ensures Value() == Register(old(Value()), c)
    {
      RegisterKeepsIndex(Value(), c);
      commandMap := commandMap[c.name := |commandObjects|];
      commandObjects := commandObjects + [c];
    }

    /**
     * `CommandRegistry::findCommand`, the entry point on the registry object:
     * it answers as `Find` does on the registry's value, whose properties are
     * proved about `Find`.
     */
    function FindCommand(name: string): (r: Option<nat>)
      reads this
      requires Valid()
      ensures r == Find(Value(), name)
    {
      Find(Value(), name)
    }

    /**
     * `CommandRegistry::executeCommand`, the entry point on the registry
     * object: it answers as `Execute` does on the registry's value, whose
     * properties are proved about `Execute`.
     */
    function ExecuteCommand(args: seq<string>): (r: int)
      reads this
      requires Valid()
      ensures r == Execute(Value(), args)
    {
      Execute(Value(), args)
    }

    function GetCommands(): (r: map<string, nat>)
      reads this
      ensures r == commandMap
    {
      commandMap
    }
  }

  /** Registration keeps every map entry pointing at an owned object of that name. */
  lemma RegisterKeepsIndex(t: Table, c: Command)
    requires WellIndexed(t)
    ensures WellIndexed(Register(t, c))
  {
    var r := Register(t, c);
    forall n | n in r.index
      ensures r.index[n] < |r.objects| && r.objects[r.index[n]].name == n
    {
      if n != c.name {
        assert r.objects[r.index[n]] == t.objects[t.index[n]];
      }
    }
  }

  /**
   * After registering `c`, its name finds the new object, the last one
   * owned; every other name finds what it found before; one object is added
   * and none is dropped.
   */
  lemma RegisterThenFind(t: Table, c: Command, other: string)
    requires WellIndexed(t) && other != c.name
    ensures WellIndexed(Register(t, c))
    ensures Find(Register(t, c), c.name) == Some(|t.objects|)
    ensures Find(Register(t, c), other) == Find(t, other)
    ensures |Register(t, c).objects| == |t.objects| + 1 && Register(t, c).objects[..|t.objects|] == t.objects
  {
    RegisterKeepsIndex(t, c);
    assert Register(t, c).objects[..|t.objects|] == t.objects;
  }

  /**
   * Registering two commands of the same name: the name finds the second,
   * while the first stays owned at its position.
   */
  lemma LastRegistrationWins(t: Table, c1: Command, c2: Command)
    requires WellIndexed(t) && c1.name == c2.name
    ensures var t2 := Register(Register(t, c1), c2);
      WellIndexed(t2) && Find(t2, c2.name) == Some(|t.objects| + 1) && t2.objects[|t.objects|] == c1
  {
    RegisterKeepsIndex(t, c1);
    RegisterKeepsIndex(Register(t, c1), c2);
  }

  /**
   * `executeCommand` returns COMMAND_SUCCESS on no arguments, COMMAND_NOT_FOUND
   * exactly when the first argument names no command, and otherwise the
   * named command's code on the whole vector, COMMAND_ERROR if it throws.
   */
  lemma ExecuteCases(t: Table, args: seq<string>)
    requires WellIndexed(t)
    ensures args == [] ==> Execute(t, args) == COMMAND_SUCCESS
    ensures args != [] && args[0] !in t.index ==> Execute(t, args) == COMMAND_NOT_FOUND
    ensures args != [] && args[0] in t.index ==>
      exists k | 0 <= k < |t.objects| :: t.objects[k].name == args[0] &&
        Execute(t, args) == match t.objects[k].execute(args) case Returned(c) => c case Threw => COMMAND_ERROR
  {
    if args != [] && args[0] in t.index {
      var k := Find(t, args[0]).value;
      assert t.objects[k].name == args[0];
    }
  }

  /** Once `c` is registered, running its name dispatches to `c` with the full argument vector. */
  lemma RegisterThenExecute(t: Table, c: Command, rest: seq<string>)
    requires WellIndexed(t)
    ensures WellIndexed(Register(t, c))
    ensures Execute(Register(t, c), [c.name] + rest) == Code(c.execute([c.name] + rest))
  {
    RegisterKeepsIndex(t, c);
    var t2 := Register(t, c);
    assert Find(t2, c.name) == Some(|t.objects|);
    assert t2.objects[|t.objects|] == c;
  }
}
