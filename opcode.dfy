/** The protocol's opcodes and the command message: its fields, its JSON text and its bytes. */
module OpCode {
  import opened Wrappers
  import Json
  import Utf8

  datatype OpCodes =
    // connection
    | DeviceList | Attach | AppVersion | Name | Close
    // special
    | Info | Boot | Menu | Reset | Binary | Stream | Fence
    // memory
    | GetAddress | PutAddress | PutIPS
    // file system
    | GetFile | PutFile | List | Remove | Rename | MakeDir

  /** The enum member's name, as ToString("g") gives it. */
  function OpName(op: OpCodes): (name: string)
    ensures OpCodeNamed(name) == Some(op)
  {
    match op
    case DeviceList => "DeviceList"
    case Attach => "Attach"
    case AppVersion => "AppVersion"
    case Name => "Name"
    case Close => "Close"
    case Info => "Info"
    case Boot => "Boot"
    case Menu => "Menu"
    case Reset => "Reset"
    case Binary => "Binary"
    case Stream => "Stream"
    case Fence => "Fence"
    case GetAddress => "GetAddress"
    case PutAddress => "PutAddress"
    case PutIPS => "PutIPS"
    case GetFile => "GetFile"
    case PutFile => "PutFile"
    case List => "List"
    case Remove => "Remove"
    case Rename => "Rename"
    case MakeDir => "MakeDir"
  }

  /** The opcode a name denotes, if any: the peer's reading of the Opcode field. */
  function OpCodeNamed(name: string): Option<OpCodes> {
    if name == "DeviceList" then Some(DeviceList)
    else if name == "Attach" then Some(Attach)
    else if name == "AppVersion" then Some(AppVersion)
    else if name == "Name" then Some(Name)
    else if name == "Close" then Some(Close)
    else if name == "Info" then Some(Info)
    else if name == "Boot" then Some(Boot)
    else if name == "Menu" then Some(Menu)
    else if name == "Reset" then Some(Reset)
    else if name == "Binary" then Some(Binary)
    else if name == "Stream" then Some(Stream)
    else if name == "Fence" then Some(Fence)
    else if name == "GetAddress" then Some(GetAddress)
    else if name == "PutAddress" then Some(PutAddress)
    else if name == "PutIPS" then Some(PutIPS)
    else if name == "GetFile" then Some(GetFile)
    else if name == "PutFile" then Some(PutFile)
    else if name == "List" then Some(List)
    else if name == "Remove" then Some(Remove)
    else if name == "Rename" then Some(Rename)
    else if name == "MakeDir" then Some(MakeDir)
    else None
  }

  const Space: string := "SNES"

  /** A command as the client holds it; None stands for a null list. */
  datatype Command = Command(opcode: string, space: string, flags: Option<seq<string>>, operands: Option<seq<string>>)

  function NewCommand(op: OpCodes, flags: Option<seq<string>>, operands: Option<seq<string>>): (c: Command)
    ensures c.space == "SNES"
    ensures OpCodeNamed(c.opcode) == Some(op)
    ensures c.flags == flags && c.operands == operands
  {
    Command(OpName(op), Space, flags, operands)
  }

  /** The text that introduces an optional field: `,"key":`. */
  function FieldKey(key: string): string {
    ",\"" + key + "\":"
  }

  /** `,"key":[...]`, or nothing when the list is null (NullValueHandling.Ignore). */
  function OptionalField(key: string, value: Option<seq<string>>): string {
    match value
    case None => ""
    case Some(xs) => FieldKey(key) + Json.EmitList(xs)
  }

  /** The properties in declaration order: Opcode, Space, Flags, Operands. */
  function ToJson(c: Command): (r: string)
    ensures StartsWith(r, "{\"Opcode\":\"") && r[|r| - 1] == '}'
  {
    "{\"Opcode\":" + Json.Quote(c.opcode) + ",\"Space\":" + Json.Quote(c.space)
      + OptionalField("Flags", c.flags) + OptionalField("Operands", c.operands) + "}"
  }

  function ToBytes(c: Command): (r: seq<Utf8.byte>)
    ensures |ToJson(c)| <= |r| <= 4 * |ToJson(c)|
    ensures r[0] == 0x7B
  {
    Utf8.Encode(ToJson(c))
  }

  predicate AsciiCommand(c: Command) {
    && Utf8.IsAscii(c.opcode) && Utf8.IsAscii(c.space)
    && (c.flags.Some? ==> Json.AllAscii(c.flags.value))
    && (c.operands.Some? ==> Json.AllAscii(c.operands.value))
  }

  lemma OptionalFieldAscii(key: string, value: Option<seq<string>>)
    requires Utf8.IsAscii(key)
    requires value.Some? ==> Json.AllAscii(value.value)
    ensures Utf8.IsAscii(OptionalField(key, value))
  {
    if value.Some? {
      Json.EmitListAscii(value.value);
      Utf8.AsciiConcat(",\"", key);
      Utf8.AsciiConcat(",\"" + key, "\":");
      Utf8.AsciiConcat(FieldKey(key), Json.EmitList(value.value));
    }
  }

  lemma ToJsonAscii(c: Command)
    requires AsciiCommand(c)
    ensures Utf8.IsAscii(ToJson(c))
  {
    var q1 := Json.Quote(c.opcode);
    var q2 := Json.Quote(c.space);
    var f := OptionalField("Flags", c.flags);
    var o := OptionalField("Operands", c.operands);
    Json.QuoteAscii(c.opcode);
    Json.QuoteAscii(c.space);
    OptionalFieldAscii("Flags", c.flags);
    OptionalFieldAscii("Operands", c.operands);
    var a1 := "{\"Opcode\":" + q1;
    Utf8.AsciiConcat("{\"Opcode\":", q1);
    var a2 := a1 + ",\"Space\":";
    Utf8.AsciiConcat(a1, ",\"Space\":");
    var a3 := a2 + q2;
    Utf8.AsciiConcat(a2, q2);
    var a4 := a3 + f;
    Utf8.AsciiConcat(a3, f);
    var a5 := a4 + o;
    Utf8.AsciiConcat(a4, o);
    Utf8.AsciiConcat(a5, "}");
    assert ToJson(c) == a5 + "}";
  }

  /** For a command of ASCII strings ToBytes yields exactly one byte per character of ToJson. */
  lemma AsciiBytes(c: Command)
    requires AsciiCommand(c)
    ensures |ToBytes(c)| == |ToJson(c)|
  {
    ToJsonAscii(c);
    Utf8.AsciiLength(ToJson(c));
  }

  // ---- the peer's reading of a command ----

  predicate StartsWith(t: string, p: string) {
    |p| <= |t| && t[..|p|] == p
  }

  function ParseOptionalField(key: string, t: string): Option<(Option<seq<string>>, string)> {
    var p := FieldKey(key);
    if StartsWith(t, p) then
      match Json.ParseList(t[|p|..])
      case None => None
      case Some((xs, rest)) => Some((Some(xs), rest))
    else Some((None, t))
  }

  function FromJson(t: string): Option<Command> {
    var p1 := "{\"Opcode\":";
    var p2 := ",\"Space\":";
    if !StartsWith(t, p1) then None
    else match Json.ParseString(t[|p1|..])
      case None => None
      case Some((opcode, r1)) =>
        if !StartsWith(r1, p2) then None
        else match Json.ParseString(r1[|p2|..])
          case None => None
          case Some((space, r2)) =>
            match ParseOptionalField("Flags", r2)
            case None => None
            case Some((flags, r3)) =>
              match ParseOptionalField("Operands", r3)
              case None => None
              case Some((operands, r4)) =>
                if r4 == "}" then Some(Command(opcode, space, flags, operands)) else None
  }

  function FromBytes(b: seq<Utf8.byte>): Option<Command> {
    match Utf8.Decode(b)
    case None => None
    case Some(t) => FromJson(t)
  }

  // ---- round trips ----

  lemma StripPrefix(p: string, x: string)
    ensures StartsWith(p + x, p) && (p + x)[|p|..] == x
  {
    assert (p + x)[..|p|] == p;
  }

  lemma ParseOptionalEmitted(key: string, value: Option<seq<string>>, rest: string)
    requires value.None? ==> !StartsWith(rest, FieldKey(key))
    ensures ParseOptionalField(key, OptionalField(key, value) + rest) == Some((value, rest))
  {
    if value.None? {
      assert OptionalField(key, value) + rest == rest;
    } else {
      var p := FieldKey(key);
      assert OptionalField(key, value) + rest == p + (Json.EmitList(value.value) + rest);
      StripPrefix(p, Json.EmitList(value.value) + rest);
      Json.ParseEmitted(value.value, rest);
    }
  }

  lemma OperandsTail(operands: Option<seq<string>>)
    ensures !StartsWith(OptionalField("Operands", operands) + "}", FieldKey("Flags"))
    ensures !StartsWith("}", FieldKey("Operands"))
  {
    var t := OptionalField("Operands", operands) + "}";
    var k := FieldKey("Flags");
    assert |k| == 9 && k[2] == 'F';
    assert |FieldKey("Operands")| == 12;
    if operands.Some? {
      var o := FieldKey("Operands");
      assert t == o + (Json.EmitList(operands.value) + "}");
      assert t[2] == o[2] == 'O';
    } else {
      assert t == "}";
    }
  }

  /** Every field comes back from the text: opcode and space, and each list present exactly
      when it was non-null, with its elements in order. */
  lemma FromToJson(c: Command)
    ensures FromJson(ToJson(c)) == Some(c)
  {
    var r3 := OptionalField("Operands", c.operands) + "}";
    var r2 := OptionalField("Flags", c.flags) + r3;
    var r1 := ",\"Space\":" + (Json.Quote(c.space) + r2);
    ToJsonShape(c, r1, r2, r3);
    StripField("{\"Opcode\":", c.opcode, r1);
    StripField(",\"Space\":", c.space, r2);
    OperandsTail(c.operands);
    ParseOptionalEmitted("Flags", c.flags, r3);
    ParseOptionalEmitted("Operands", c.operands, "}");
    FromJsonOf(ToJson(c), c, r1, r2, r3);
  }

  lemma ToJsonShape(c: Command, r1: string, r2: string, r3: string)
    requires r3 == OptionalField("Operands", c.operands) + "}"
    requires r2 == OptionalField("Flags", c.flags) + r3
    requires r1 == ",\"Space\":" + (Json.Quote(c.space) + r2)
    ensures ToJson(c) == "{\"Opcode\":" + (Json.Quote(c.opcode) + r1)
  {
    Concat7("{\"Opcode\":", Json.Quote(c.opcode), ",\"Space\":", Json.Quote(c.space),
      OptionalField("Flags", c.flags), OptionalField("Operands", c.operands), "}");
  }

  /** A key followed by a quoted value reads back as the value and what follows it. */
  lemma StripField(p: string, x: string, rest: string)
    ensures StartsWith(p + (Json.Quote(x) + rest), p)
    ensures Json.ParseString((p + (Json.Quote(x) + rest))[|p|..]) == Some((x, rest))
  {
    StripPrefix(p, Json.Quote(x) + rest);
    Json.ParseQuoted(x, rest);
  }

  /** FromJson's four reading steps, each given as a fact about its own piece of text. */
  lemma FromJsonOf(t: string, c: Command, r1: string, r2: string, r3: string)
    requires t == "{\"Opcode\":" + (Json.Quote(c.opcode) + r1)
    requires StartsWith(t, "{\"Opcode\":")
    requires Json.ParseString(t[|"{\"Opcode\":"|..]) == Some((c.opcode, r1))
    requires r1 == ",\"Space\":" + (Json.Quote(c.space) + r2)
    requires StartsWith(r1, ",\"Space\":")
    requires Json.ParseString(r1[|",\"Space\":"|..]) == Some((c.space, r2))
    requires ParseOptionalField("Flags", r2) == Some((c.flags, r3))
    requires ParseOptionalField("Operands", r3) == Some((c.operands, "}"))
    ensures FromJson(t) == Some(c)
  {
  }

  lemma Concat7(a: string, b: string, c: string, d: string, e: string, f: string, g: string)
    ensures a + b + c + d + e + f + g == a + (b + (c + (d + (e + f + g))))
  {
  }

  /** The bytes sent on the socket decode to the command that was built. */
  lemma FromToBytes(c: Command)
    ensures FromBytes(ToBytes(c)) == Some(c)
  {
    Utf8.DecodeEncode(ToJson(c));
    FromToJson(c);
  }
}
