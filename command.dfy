/** Commands and their responses (src/executor/command.rs). */
module Commands {
  import opened Types
  import opened KeyValues

  /** `CommandType`: a closed set of three kinds. */
  datatype CommandType = Get | Put | Update

  /** `Command`: a key, an optional value and the kind. */
  datatype Command = Command(key: seq<byte>, value: Option<seq<byte>>, commandType: CommandType)

  /** `Command::get`: a Get carries no value. */
  function GetCommand(key: seq<byte>): (c: Command)
    ensures c.commandType == CommandType.Get && c.key == key && c.value == None
  {
    Command(key, None, CommandType.Get)
  }

  /** `Command::put`. */
  function PutCommand(key: seq<byte>, value: seq<byte>): (c: Command)
    ensures c.commandType == CommandType.Put && c.key == key && c.value == Some(value)
  {
    Command(key, Some(value), CommandType.Put)
  }

  /** `Command::update`: the same as a Put but for the kind. */
  function UpdateCommand(key: seq<byte>, value: seq<byte>): (c: Command)
    ensures c.commandType == CommandType.Update && c.key == key && c.value == Some(value)
  {
    Command(key, Some(value), CommandType.Update)
  }

  /** `CommandResponse`: whether a Put or an Update was stored, or what a Get
      found (nothing, or a record that may have failed to decode). */
  datatype CommandResponse =
    | Put(stored: bool)
    | Update(stored: bool)
    | Get(found: Option<Result<KeyValue, DecodeError>>)
  {
    /** `is_put_response`. */
    predicate IsPutResponse() {
      Put?
    }

    /** `put_response`: the flag of a Put, and `false` for any other kind. */
    function PutResponse(): (r: bool)
      ensures r ==> IsPutResponse()
      ensures IsPutResponse() ==> r == stored
    {
      if Put? then stored else false
    }

    /** `is_update_response`. */
    predicate IsUpdateResponse() {
      Update?
    }

    /** `update_response`: the flag of an Update, and `false` otherwise. */
    function UpdateResponse(): (r: bool)
      ensures r ==> IsUpdateResponse()
      ensures IsUpdateResponse() ==> r == stored
    {
      if Update? then stored else false
    }

    /** `is_get_response`. */
    predicate IsGetResponse() {
      Get?
    }

    /** `get_response`: what a Get found, and `None` for any other kind. */
    function GetResponse(): (r: Option<Result<KeyValue, DecodeError>>)
      ensures IsGetResponse() ==> r == found
      ensures !IsGetResponse() ==> r == None
    {
      if Get? then found else None
    }
  }

  /** Every response is of exactly one kind. */
  lemma ExactlyOneKind(response: CommandResponse)
    ensures response.IsPutResponse() || response.IsUpdateResponse() || response.IsGetResponse()
    ensures !(response.IsPutResponse() && response.IsUpdateResponse())
    ensures !(response.IsPutResponse() && response.IsGetResponse())
    ensures !(response.IsUpdateResponse() && response.IsGetResponse())
  {
  }
}
