/**
 * The values the world engine returns to its callers and the errors it reports
 * (src/data_model.rs), together with the error-to-JSON serialiser.
 */
module DataModel {

  import opened Wrappers
  import opened Primitives

  type Guid = string

  /**
   * The errors of the engine. `Dead`, `Wall`, `DiffRoom` and `Other` are the
   * variants declared in src/data_model.rs; `EntityNotFound` and `Disappeared`
   * are the two further variants that src/world.rs constructs.
   */
  datatype WorldError =
    | Dead
    | Wall
    | DiffRoom
    | Other(msg: string)
    | EntityNotFound(guid: Guid)
    | Disappeared

  /** The variants that src/data_model.rs declares, and so serialises. */
  predicate Declared(e: WorldError)
  {
    e.Dead? || e.Wall? || e.DiffRoom? || e.Other?
  }

  datatype Direction = N | E | S | W

  /** The view of a room: its description, its exits and its occupants. */
  datatype Room = Room(description: string, paths: seq<Direction>, entities: seq<Guid>)

  datatype EntityType = Monster | Player

  /** The view of an inspected entity. */
  datatype Entity = Entity(description: string, kind: EntityType, life: U32, totalLife: U32)

  datatype Fighter = Fighter(guid: Guid, dp: U32, hp: U32)

  datatype Fight = Fight(attacker: Fighter, defender: Fighter)

  /** What a newly connected player receives. */
  datatype Status = Status(guid: Guid, totalLife: U32, room: Room)

  /** The machine-readable tag of an error, if its JSON object has a "type" key. */
  function TypeTag(e: WorldError): Option<string>
    requires Declared(e)
  {
    match e
    case Dead => Some("MORT")
    case Wall => Some("MUR")
    case DiffRoom => Some("DIFFSALLE")
    case Other(_) => None
  }

  /** The human-readable message of an error. */
  function Message(e: WorldError): string
    requires Declared(e)
  {
    match e
    case Dead => "You are dead"
    case Wall => "You bumped into a wall"
    case DiffRoom => "Room mismatch"
    case Other(msg) => msg
  }

  const TypePrefix: string := "{ \"type\": \""
  const MessagePrefix: string := "{ \"message\": \""

  /**
   * The one-line JSON object with an optional "type" key and a "message" key,
   * written with the spacing the server uses. Values are inserted verbatim,
   * without escaping.
   */
  function JsonObject(tag: Option<string>, message: string): string
  {
    match tag
    case Some(t) => TypePrefix + t + "\", \"message\": \"" + message + "\" }"
    case None => MessagePrefix + message + "\" }"
  }

  /** `WorldError::to_json_string`: the body of the 409 response for an error. */
  function ToJsonString(e: WorldError): (json: string)
    requires Declared(e)
    ensures json == JsonObject(TypeTag(e), Message(e))
  {
    match e
    case Dead => JsonObject(Some("MORT"), "You are dead")
    case Wall => JsonObject(Some("MUR"), "You bumped into a wall")
    case DiffRoom => JsonObject(Some("DIFFSALLE"), "Room mismatch")
    case Other(msg) => JsonObject(None, msg)
  }

  /** The fixed text of the `Dead` error, character for character. */
  lemma DeadJson()
    ensures ToJsonString(Dead) == "{ \"type\": \"" + "MORT" + "\", \"message\": \"" + "You are dead" + "\" }"
  {
  }

  /** The characters of `s` before its first double quote. */
  function UpToQuote(s: string): string
  {
    if s == [] || s[0] == '"' then [] else [s[0]] + UpToQuote(s[1..])
  }

  /** Reads back the value of the "type" key of a serialised error, if it starts with one. */
  function ReadTypeTag(json: string): Option<string>
  {
    if |json| >= |TypePrefix| && json[..|TypePrefix|] == TypePrefix
    then Some(UpToQuote(json[|TypePrefix|..]))
    else None
  }

  lemma {:induction false} UpToQuoteOfQuoted(t: string, rest: string)
    requires '"' !in t
    ensures UpToQuote(t + "\"" + rest) == t
  {
    if t != [] {
      assert (t + "\"" + rest)[1..] == t[1..] + "\"" + rest;
      UpToQuoteOfQuoted(t[1..], rest);
    }
  }

  /** A tag without quotes is read back from the object it was written into. */
  lemma ReadTaggedObject(t: string, message: string)
    requires '"' !in t
    ensures ReadTypeTag(JsonObject(Some(t), message)) == Some(t)
  {
    var rest := ", \"message\": \"" + message + "\" }";
    var s := JsonObject(Some(t), message);
    assert s == TypePrefix + (t + "\"" + rest);
    assert s[..|TypePrefix|] == TypePrefix;
    assert s[|TypePrefix|..] == t + "\"" + rest;
    UpToQuoteOfQuoted(t, rest);
  }

  /** An object written without a tag has no "type" key to read back. */
  lemma ReadUntaggedObject(message: string)
    ensures ReadTypeTag(JsonObject(None, message)) == None
  {
    var s := JsonObject(None, message);
    assert s[3] == MessagePrefix[3] == 'm';
    assert TypePrefix[3] == 't';
  }

  /**
   * The "type" key of a serialised error is read back as the error's tag, and
   * an `Other` error has no "type" key at all.
   */
  lemma TypeTagRoundTrip(e: WorldError)
    requires Declared(e)
    ensures ReadTypeTag(ToJsonString(e)) == TypeTag(e)
  {
    match e
    case Other(msg) => ReadUntaggedObject(msg);
    case Dead => ReadTaggedObject("MORT", Message(e));
    case Wall => ReadTaggedObject("MUR", Message(e));
    case DiffRoom => ReadTaggedObject("DIFFSALLE", Message(e));
  }

  /** The three fixed errors serialise to objects with pairwise distinct tags. */
  lemma FixedErrorsDistinguishable(e1: WorldError, e2: WorldError)
    requires e1 in {Dead, Wall, DiffRoom} && e2 in {Dead, Wall, DiffRoom}
    requires e1 != e2
    ensures ReadTypeTag(ToJsonString(e1)) != ReadTypeTag(ToJsonString(e2))
    ensures ReadTypeTag(ToJsonString(e1)).Some?
  {
    TypeTagRoundTrip(e1);
    TypeTagRoundTrip(e2);
  }

  /** An `Other` message is embedded verbatim between fixed delimiters, with no escaping. */
  lemma OtherEmbedsMessage(msg: string)
    ensures var s := ToJsonString(Other(msg));
      |s| == |MessagePrefix| + |msg| + 3 &&
      s[..|MessagePrefix|] == MessagePrefix &&
      s[|MessagePrefix|..|MessagePrefix| + |msg|] == msg &&
      s[|MessagePrefix| + |msg|..] == "\" }"
  {
  }
}
