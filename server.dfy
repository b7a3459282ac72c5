/** The request dispatcher: an ordered list of commands, the tag database
    they share, and a counter of the requests executed so far. */
module Servers {
  import opened Prelude
  import opened TagFiles
  import opened TagDatabases
  import opened Commands

  /** The commands `start_with_config_file` registers, in order; `find` is
      not among them. */
  function StandardCommands(): seq<Command> {
    [Echo, FindOtherFile, LoadTagsFile, DescribeTag]
  }

  /** The command that handles a request: the first registered one whose
      prefix the request starts with. */
  function Handler(commands: seq<Command>, request: string): Option<nat> {
    FirstWhere(commands, (c: Command) => CanExecute(c, request))
  }

  /** With the standard commands, the order of registration does not
      matter: whichever accepts the request is the one that handles it. */
  lemma StandardDispatch(c: Command, request: string)
    requires c in StandardCommands() && CanExecute(c, request)
    ensures Handler(StandardCommands(), request).Some?
    ensures StandardCommands()[Handler(StandardCommands(), request).value] == c
  {
    var cs := StandardCommands();
    var i :| 0 <= i < |cs| && cs[i] == c;
    forall j | 0 <= j < i ensures !CanExecute(cs[j], request) {
      if CanExecute(cs[j], request) {
        PrefixesExclusive(cs[j], c, request);
      }
    }
    FirstWhereIs(cs, (c: Command) => CanExecute(c, request), i);
  }

  /** A `find` request reaches no standard command. */
  lemma FindTagsUnregistered(request: string)
    requires CanExecute(FindTags, request)
    ensures Handler(StandardCommands(), request).None?
  {
    var cs := StandardCommands();
    forall j | 0 <= j < |cs| ensures !CanExecute(cs[j], request) {
      if CanExecute(cs[j], request) {
        PrefixesExclusive(cs[j], FindTags, request);
      }
    }
  }

  class Server {
    var commands: seq<Command>
    var database: TagDatabase
    var commandIndex: nat

    /** Every tag in the database is a valid record of its line. */
    ghost predicate Valid()
      reads this, database
    {
      AllValid(database.AllTags())
    }

    /** `Server::new`: no commands, an empty database, no request yet. */
    constructor ()
      ensures commands == [] && fresh(database) && database.tagFiles == [] && commandIndex == 0
      ensures Valid()
    {
      commands := [];
      database := new TagDatabase();
      commandIndex := 0;
    }

    /** `add_command`: appends, leaving earlier commands in place. */
    method AddCommand(c: Command)
      modifies this
      ensures commands == old(commands) + [c]
      ensures database == old(database) && commandIndex == old(commandIndex)
    {
      commands := commands + [c];
    }

    /** `execute`: counts the request, then runs the first command that
        accepts it and replies with its answer; with none, the reply is
        "Unrecognized command" and the database is left alone. */
    method Execute(request: string, files: map<string, seq<LineRead>>, options: seq<string> -> Getopts)
        returns (r: Result<string>)
      requires Valid()
      modifies this, database
      ensures commandIndex == old(commandIndex) + 1
      ensures commands == old(commands) && database == old(database)
      ensures Handler(commands, request).None? ==>
        r == Ok("Unrecognized command") && database.tagFiles == old(database.tagFiles)
      ensures Handler(commands, request).Some? ==>
        Outcome(r, database.tagFiles) == Run(commands[Handler(commands, request).value], request, old(database.tagFiles), files, options)
      ensures Valid()
    {
      commandIndex := commandIndex + 1;
      var handled := false;
      var result: Result<string> := Ok("");
      ghost var chosen := 0;
      for k := 0 to |commands|
        invariant !handled
        invariant forall j :: 0 <= j < k ==> !CanExecute(commands[j], request)
        invariant database.tagFiles == old(database.tagFiles)
      {
        if CanExecute(commands[k], request) {
          result := Commands.Execute(commands[k], request, files, options, database);
          handled := true;
          chosen := k;
          break;
        }
      }
      if handled {
        FirstWhereIs(commands, (c: Command) => CanExecute(c, request), chosen);
        RunKeepsValid(commands[chosen], request, old(database.tagFiles), files, options);
      } else {
        result := Ok("Unrecognized command");
      }
      r := result;
    }
  }

  /** The server as `start_with_config_file` sets it up, before it runs the
      configured requests and listens. */
  method StandardServer() returns (s: Server)
    ensures fresh(s) && fresh(s.database)
    ensures s.commands == StandardCommands() && s.commandIndex == 0 && s.database.tagFiles == []
    ensures s.Valid()
  {
    s := new Server();
    s.AddCommand(Echo);
    s.AddCommand(FindOtherFile);
    s.AddCommand(LoadTagsFile);
    s.AddCommand(DescribeTag);
  }
}
