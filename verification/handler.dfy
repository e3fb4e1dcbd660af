/**
 * Handler.processRequest: the table name is resolved from the request's
 * topic, then the request is routed to exactly one store operation. A delete
 * request clears or drops the table; any other request derives the row key
 * from the request's key and reads one cell. The value the store operation
 * returns is the handler's result, unchanged.
 */
module Handler {
  import opened Wrappers
  import opened Bytes
  import Utf8
  import Crc32
  import K = KeyGenerationUtil
  import T = TableNameUtil
  import H = HbaseManager

  /** The Lambda's input. */
  datatype Request = Request(
    topic: string,
    key: string,
    timestamp: int,
    deleteRequest: bool,
    deleteEntireTableWhenInDeleteMode: bool)

  /**
   * The deployment's settings: the column family and column to read, whether
   * each topic has a table of its own, and the shared table otherwise.
   */
  datatype Config = Config(family: string, column: string, useTablePerTopic: bool, dataTable: string)

  /** The one store operation a request is routed to, with the arguments it is given. */
  datatype StoreRequest =
    | DeleteMessagesFromTopic(dataFamily: seq<byte>, dataQualifier: seq<byte>, tableName: string, deleteEntireTable: bool)
    | GetDataFromHbase(tableName: string, formattedKey: seq<byte>, family: seq<byte>, column: seq<byte>, timestamp: int)

  /** Why a request fails: its key cannot be derived, or the store raised. */
  datatype Failure = KeyFailure(keyError: K.KeyError) | StoreFailure(storeError: H.StoreError)

  /** The routing decision of processRequest. */
  function Route(input: Request, config: Config): (r: Result<StoreRequest, K.KeyError>)
    ensures r.Ok? ==> r.value.tableName == T.GetQualifiedTableName(input.topic, config.useTablePerTopic, config.dataTable)
    ensures r.Ok? ==> (r.value.DeleteMessagesFromTopic? <==> input.deleteRequest)
    ensures r.Err? <==> !input.deleteRequest && K.GenerateKey(Utf8.Encode(input.key)).Err?
    ensures r.Err? ==> r.error == K.GenerateKey(Utf8.Encode(input.key)).error
    ensures r.Ok? && r.value.DeleteMessagesFromTopic? ==>
      r.value.dataFamily == Utf8.Encode(config.family) && r.value.dataQualifier == Utf8.Encode(config.column)
      && r.value.deleteEntireTable == input.deleteEntireTableWhenInDeleteMode
    ensures r.Ok? && r.value.GetDataFromHbase? ==>
      r.value.formattedKey == K.GenerateKey(Utf8.Encode(input.key)).value
      && r.value.family == Utf8.Encode(config.family) && r.value.column == Utf8.Encode(config.column)
      && r.value.timestamp == input.timestamp
  {
    var tableName := T.GetQualifiedTableName(input.topic, config.useTablePerTopic, config.dataTable);
    if input.deleteRequest then
      Ok(DeleteMessagesFromTopic(Utf8.Encode(config.family), Utf8.Encode(config.column), tableName,
                                 input.deleteEntireTableWhenInDeleteMode))
    else
      match K.GenerateKey(Utf8.Encode(input.key))
      case Err(e) => Err(e)
      case Ok(formattedKey) =>
        Ok(GetDataFromHbase(tableName, formattedKey, Utf8.Encode(config.family), Utf8.Encode(config.column), input.timestamp))
  }

  /** What the store operation gives back: the handler returns it as it is. */
  function Respond(route: StoreRequest, tables: map<string, H.Table>): Result<Option<seq<byte>>, Failure>
  {
    match route
    case DeleteMessagesFromTopic(dataFamily, dataQualifier, tableName, deleteEntireTable) =>
      (match H.DeleteOutcome(tables, tableName, dataQualifier)
       case Ok(q) => Ok(Some(q))
       case Err(e) => Err(StoreFailure(e)))
    case GetDataFromHbase(tableName, formattedKey, family, column, timestamp) =>
      (match H.GetOutcome(tables, tableName, formattedKey, family, column, timestamp)
       case Ok(v) => Ok(v)
       case Err(e) => Err(StoreFailure(e)))
  }

  /** The tables once the store operation is done: only a delete changes them. */
  function NextTables(route: StoreRequest, tables: map<string, H.Table>): map<string, H.Table>
  {
    match route
    case DeleteMessagesFromTopic(_, _, tableName, deleteEntireTable) => H.DeleteState(tables, tableName, deleteEntireTable)
    case GetDataFromHbase(_, _, _, _, _) => tables
  }

  /** The calls the store operation makes. */
  function Calls(route: StoreRequest, tables: map<string, H.Table>): seq<H.StoreCall>
  {
    match route
    case DeleteMessagesFromTopic(_, _, tableName, deleteEntireTable) => H.DeleteCalls(tables, tableName, deleteEntireTable)
    case GetDataFromHbase(tableName, formattedKey, family, column, timestamp) =>
      H.GetCalls(tables, tableName, formattedKey, family, column, timestamp)
  }

  /**
   * processRequest against a manager: no store call at all when the key
   * cannot be derived, otherwise exactly the routed operation, whose result
   * is returned.
   */
  method ProcessRequest(input: Request, config: Config, hbaseManager: H.HbaseManager)
    returns (r: Result<Option<seq<byte>>, Failure>)
    requires hbaseManager.Valid()
    modifies hbaseManager
    ensures hbaseManager.Valid()
    ensures Route(input, config).Err? ==>
      r == Err(KeyFailure(Route(input, config).error))
      && hbaseManager.tables == old(hbaseManager.tables) && hbaseManager.trace == old(hbaseManager.trace)
      && hbaseManager.connectionOpen == old(hbaseManager.connectionOpen)
    ensures Route(input, config).Ok? ==>
      r == Respond(Route(input, config).value, old(hbaseManager.tables))
      && hbaseManager.tables == NextTables(Route(input, config).value, old(hbaseManager.tables))
      && hbaseManager.trace == old(hbaseManager.trace) + Calls(Route(input, config).value, old(hbaseManager.tables))
      && !hbaseManager.connectionOpen
  {
    var route := Route(input, config);
    if route.Err? {
      return Err(KeyFailure(route.error));
    }
    match route.value
    case DeleteMessagesFromTopic(dataFamily, dataQualifier, tableName, deleteEntireTable) =>
      var outcome := hbaseManager.DeleteMessagesFromTopic(dataFamily, dataQualifier, tableName, deleteEntireTable);
      r := if outcome.Ok? then Ok(Some(outcome.value)) else Err(StoreFailure(outcome.error));
    case GetDataFromHbase(tableName, formattedKey, family, column, timestamp) =>
      var outcome := hbaseManager.GetDataFromHbase(tableName, formattedKey, family, column, timestamp);
      r := if outcome.Ok? then Ok(outcome.value) else Err(StoreFailure(outcome.error));
  }

  /** A delete request derives no key: whatever its key, even one that is not JSON, it is routed the same. */
  lemma DeleteIgnoresKey(input: Request, config: Config, otherKey: string)
    requires input.deleteRequest
    ensures Route(input.(key := otherKey), config) == Route(input, config)
    ensures Route(input, config).Ok?
  {
  }

  /** A read request never deletes, whatever its delete mode says. */
  lemma ReadIgnoresDeleteMode(input: Request, config: Config, entire: bool)
    requires !input.deleteRequest
    ensures Route(input.(deleteEntireTableWhenInDeleteMode := entire), config) == Route(input, config)
    ensures Route(input, config).Ok? ==> Route(input, config).value.GetDataFromHbase?
  {
  }

  /** Both routes use one table name, resolved from the topic alone. */
  lemma TableNameFromTopicOnly(a: Request, b: Request, config: Config)
    requires a.topic == b.topic
    requires Route(a, config).Ok? && Route(b, config).Ok?
    ensures Route(a, config).value.tableName == Route(b, config).value.tableName
  {
  }

  /**
   * The row key a read request looks up carries the checksum of its own text
   * in its first four bytes, so its printable form exists.
   */
  lemma ReadKeyIsChecked(input: Request, config: Config)
    requires Route(input, config).Ok? && Route(input, config).value.GetDataFromHbase?
    ensures var k := Route(input, config).value.formattedKey;
      |k| >= 4 && FromBigEndian(k[..4]) == Crc32.Checksum(k[4..])
      && |K.PrintableKey(k)| == |k| + 12
  {
  }

  /** A read request whose key is an id, a GUID say, looks up the row of the object {"id": key}. */
  lemma IdKeyLookup(input: Request, config: Config)
    requires !input.deleteRequest && K.IsIdLike(input.key)
    ensures Route(input, config).Ok?
    ensures Route(input, config).value.formattedKey[4..] == Utf8.Encode("{\"id\":\"" + input.key + "\"}")
  {
    Utf8.DecodeEncode(input.key);
    K.IdBodyCanonicalForm(Utf8.Encode(input.key));
  }

  /** A delete request on a missing or enabled table answers with the configured column, as bytes. */
  lemma DeleteAnswersQualifier(input: Request, config: Config, tables: map<string, H.Table>)
    requires input.deleteRequest
    requires var t := Route(input, config).value.tableName; t !in tables || tables[t].enabled
    ensures Respond(Route(input, config).value, tables) == Ok(Some(Utf8.Encode(config.column)))
  {
  }

  /**
   * Once a delete request on a topic has succeeded, in either mode, a read
   * request on the same topic finds nothing. Its one possible failure is a
   * truncated table that never had the configured family.
   */
  lemma NothingReadAfterDeleteRequest(delete: Request, read: Request, config: Config, tables: map<string, H.Table>)
    requires delete.deleteRequest && !read.deleteRequest && delete.topic == read.topic
    requires Respond(Route(delete, config).value, tables).Ok?
    requires Route(read, config).Ok?
    ensures var r := Respond(Route(read, config).value, NextTables(Route(delete, config).value, tables));
      r == Ok(None)
      || r == Err(StoreFailure(H.NoSuchColumnFamily(Route(read, config).value.tableName, Utf8.Encode(config.family))))
  {
    var d := Route(delete, config).value;
    var g := Route(read, config).value;
    H.NothingReadAfterDelete(tables, d.tableName, d.deleteEntireTable, d.dataQualifier,
                             g.formattedKey, g.family, g.column, g.timestamp);
  }
}
