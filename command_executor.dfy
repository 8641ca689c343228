/** `CommandExecutor`: routes each command to the log it owns
    (src/executor/command_executor.rs). */
module Executor {
  import opened Types
  import opened Options
  import opened KeyValues
  import opened Logs
  import opened Commands

  /** What `execute` demands of a Put or an Update: a value (`unwrap`), a
      record `KeyValue::new` accepts, and (see README) lengths that fit the
      u16 headers. A Get demands nothing. */
  predicate Executable(command: Command) {
    command.commandType != CommandType.Get ==>
      && command.value.Some?
      && KeyValue(command.key, command.value.value).Valid()
      && KeyValue(command.key, command.value.value).LengthsFitU16()
  }

  class CommandExecutor {
    const log: Log

    ghost predicate Valid()
      reads this, log, log.index, log.segments
    {
      log.Valid()
    }

    /** `CommandExecutor::new`: takes ownership of the log. */
    constructor (log: Log)
      requires log.Valid()
      ensures Valid() && this.log == log
    {
      this.log := log;
    }

    /** `execute`: a Get answers with the log's `try_get` and changes
        nothing; a Put or an Update appends the record through the log's
        `try_append` and answers with its result, tagged with the command's
        kind. */
    method Execute(command: Command) returns (response: CommandResponse)
      requires Valid()
      requires Executable(command)
      modifies log, log.index, log.segments
      ensures Valid()
      ensures command.commandType == CommandType.Get ==>
                && response == CommandResponse.Get(log.TryGet(command.key))
                && unchanged(log, log.index)
                && forall i :: 0 <= i < |log.segments| ==> unchanged(log.segments[i])
      ensures command.commandType == CommandType.Put ==>
                response.Put? && log.AppendSpec(KeyValue(command.key, command.value.value), response.stored)
      ensures command.commandType == CommandType.Update ==>
                response.Update? && log.AppendSpec(KeyValue(command.key, command.value.value), response.stored)
      ensures (response.Put? || response.Update?) && response.stored ==>
                log.TryGet(command.key) == Some(Ok(KeyValue(command.key, command.value.value)))
      ensures forall key :: key != command.key ==> log.TryGet(key) == old(log.TryGet(key))
    {
      match command.commandType
      case Get =>
        response := CommandResponse.Get(log.TryGet(command.key));
      case Put =>
        var stored := log.TryAppend(NewKeyValue(command.key, command.value.value));
        response := CommandResponse.Put(stored);
      case Update =>
        var stored := log.TryAppend(NewKeyValue(command.key, command.value.value));
        response := CommandResponse.Update(stored);
    }
  }

  /** command_executor.rs:35-46: a Put of "raft" -> "consensus" on a 64-byte
      log is stored. */
  method PutStoredScenario() returns (response: CommandResponse)
    ensures response.IsPutResponse() && response.PutResponse()
  {
    RaftConsensusRoundTrip();
    var log := new Log(NewLogOptions(64, 64));
    var executor := new CommandExecutor(log);
    response := executor.Execute(PutCommand(Ascii("raft"), Ascii("consensus")));
  }

  /** command_executor.rs:48-59: on a 16-byte log the same Put is refused, and
      the response is still a Put response. */
  method PutRefusedScenario() returns (response: CommandResponse)
    ensures response.IsPutResponse() && !response.PutResponse()
  {
    RaftConsensusRoundTrip();
    var log := new Log(NewLogOptions(16, 16));
    var executor := new CommandExecutor(log);
    response := executor.Execute(PutCommand(Ascii("raft"), Ascii("consensus")));
  }

  /** command_executor.rs:61-72: an Update of "raft" -> "consensus" on a 64-byte
      log is stored. */
  method UpdateStoredScenario() returns (response: CommandResponse)
    ensures response.IsUpdateResponse() && response.UpdateResponse()
  {
    RaftConsensusRoundTrip();
    var log := new Log(NewLogOptions(64, 64));
    var executor := new CommandExecutor(log);
    response := executor.Execute(UpdateCommand(Ascii("raft"), Ascii("consensus")));
  }

  /** command_executor.rs:74-85: on a 16-byte log the same Update is refused, and
      the response is still an Update response. */
  method UpdateRefusedScenario() returns (response: CommandResponse)
    ensures response.IsUpdateResponse() && !response.UpdateResponse()
  {
    RaftConsensusRoundTrip();
    var log := new Log(NewLogOptions(16, 16));
    var executor := new CommandExecutor(log);
    response := executor.Execute(UpdateCommand(Ascii("raft"), Ascii("consensus")));
  }

  /** command_executor.rs:87-102: after a successful Put, a Get of the key
      finds a record whose `value()` is "consensus". */
  method GetFoundScenario() returns (stored: CommandResponse, found: CommandResponse)
    ensures stored.IsPutResponse() && stored.PutResponse()
    ensures found.IsGetResponse() && found.GetResponse().Some? && found.GetResponse().value.Ok?
    ensures found.GetResponse().Some? && found.GetResponse().value.Ok? &&
            found.GetResponse().value.value.Value() == Ascii("consensus")
  {
    RaftConsensusRoundTrip();
    var executorLog := new Log(NewLogOptions(64, 64));
    var executor := new CommandExecutor(executorLog);
    stored := executor.Execute(PutCommand(Ascii("raft"), Ascii("consensus")));
    found := executor.Execute(GetCommand(Ascii("raft")));
  }

  /** command_executor.rs:104-115: on an empty log a Get finds nothing. */
  method GetMissingScenario() returns (missing: CommandResponse)
    ensures missing.IsGetResponse() && missing.GetResponse() == None
  {
    var emptyLog := new Log(NewLogOptions(64, 64));
    var empty := new CommandExecutor(emptyLog);
    missing := empty.Execute(GetCommand(Ascii("raft")));
  }
}
