/**
 * The command line front end of src/input.rs: `InputSource::build` reads the
 * process arguments from an iterator, and `process_command` dispatches on the
 * command word. The argument iterator is a class whose state is the list of
 * arguments not yet consumed.
 */
module Input {
  import opened Wrappers

  /** An iterator over the process arguments: `rest` are the ones not yet returned. */
  class ArgIter {
    var rest: seq<string>

    constructor (args: seq<string>)
      ensures rest == args
    {
      rest := args;
    }

    /** `Iterator::next`: the first remaining argument, consumed; None once they are exhausted. */
    method Next() returns (r: Option<string>)
      modifies this
      ensures old(rest) == [] ==> r == None && rest == []
      ensures old(rest) != [] ==> r == Some(old(rest)[0]) && rest == old(rest)[1..]
    {
      if rest == [] {
        r := None;
      } else {
        r := Some(rest[0]);
        rest := rest[1..];
      }
    }

    /** `Iterator::collect`: every remaining argument, in order, leaving none. */
    method Collect() returns (all: seq<string>)
      modifies this
      ensures all == old(rest) && rest == []
    {
      all := [];
      while true
        invariant old(rest) == all + rest
        decreases |rest|
      {
        var next := Next();
        if next.None? {
          return;
        }
        all := all + [next.value];
      }
    }
  }

  /** What the program was asked to do: the command word and the arguments after it. */
  datatype InputSource = InputSource(command: string, args: seq<string>)

  const NoCommandProvided: string := "no command provided"

  /**
   * The arguments as `build` reads them: the first (the program name) is
   * skipped, the second is the command, and the rest are its arguments.
   * Without a second argument there is no command.
   */
  function Parse(args: seq<string>): (r: Result<InputSource, string>)
    ensures r.Ok? <==> |args| >= 2
    ensures r.Err? ==> r.error == NoCommandProvided
  {
    if |args| < 2 then Err(NoCommandProvided) else Ok(InputSource(args[1], args[2..]))
  }

  /** Any program name, followed by a command and its arguments, parses back to them. */
  lemma ParseCommandLine(program: string, command: string, args: seq<string>)
    ensures Parse([program, command] + args) == Ok(InputSource(command, args))
  {
    assert ([program, command] + args)[2..] == args;
  }

  /** A successful parse loses only the program name. */
  lemma ParseKeepsArguments(args: seq<string>)
    requires Parse(args).Ok?
    ensures [args[0], Parse(args).value.command] + Parse(args).value.args == args
  {
    assert args == args[..2] + args[2..];
  }

  /**
   * `InputSource::build` as the source writes it: two calls of `next`, then
   * `collect`. The iterator is used up on both paths.
   */
  method Build(it: ArgIter) returns (r: Result<InputSource, string>)
    modifies it
    ensures r == Parse(old(it.rest))
    ensures it.rest == []
  {
    var program := it.Next();
    var command := it.Next();
    if command.None? {
      return Err(NoCommandProvided);
    }
    var args := it.Collect();
    r := Ok(InputSource(command.value, args));
  }

  /** The actions of `process_command`. */
  datatype Command = LoginCommand | AbsenceCommand | GradeCommand | CommandNotFound

  /** The match on the command word: three exact words, anything else is not found. */
  function Dispatch(command: string): (c: Command)
    ensures c == LoginCommand <==> command == "login"
    ensures c == AbsenceCommand <==> command == "absence"
    ensures c == GradeCommand <==> command == "grade"
    ensures c == CommandNotFound <==> command != "login" && command != "absence" && command != "grade"
  {
    match command
    case "login" => LoginCommand
    case "absence" => AbsenceCommand
    case "grade" => GradeCommand
    case _ => CommandNotFound
  }

  /** The command word decides the action: a parsed line with a known word never falls through. */
  lemma DispatchParsed(program: string, command: string, args: seq<string>)
    requires command in ["login", "absence", "grade"]
    ensures Parse([program, command] + args).Ok?
    ensures Dispatch(Parse([program, command] + args).value.command) != CommandNotFound
  {
    ParseCommandLine(program, command, args);
  }
}
