/** The database schema on wire values: permanent field numbers, which attributes
    execute where, extensions, and the decoder of one node. */
module Schema {
  import opened Base
  import opened Numbers
  import opened Cbor
  import opened Database

  // ----- Permanent numbers -----

  const ATTRIBUTES: seq<string> :=
    ["name", "id", "type", "refresh", "pattern", "init", "address", "delay", "value", "file", "add", "remove",
        "dbversion",
     "date", "caps", "include"]

  const KINDS: seq<string> := ["options", "group", "subgroup", "control", "value", "monitor", "caps", "include",
      "controls"]

  const INERT: nat := 255

  function IndexOf(table: seq<string>, name: string): (r: Option<nat>)
    ensures r.Some? ==> r.value < |table| && table[r.value] == name
    ensures r.None? ==> name !in table
  {
    if table == [] then None
    else if table[0] == name then Some(0)
    else
      match IndexOf(table[1..], name)
      case None => None
      case Some(i) => Some(i + 1)
  }

  function KindName(id: nat): Option<string> { if id < |KINDS| then Some(KINDS[id]) else None }

  function KindId(name: string): Option<nat> { IndexOf(KINDS, name) }

  function AttributeId(name: string): Option<nat> { IndexOf(ATTRIBUTES, name) }

  predicate IsNumeric(id: nat) { id == 6 || id == 7 || id == 8 || id == 12 }

  predicate InBounds(id: nat, n: int) {
    if id == 6 then 0 <= n <= 255
    else if id == 7 then -0x8000_0000 <= n <= 0x7FFF_FFFF
    else if id == 8 then 0 <= n <= 65535
    else n == 3
  }

  /** The attributes with an effect on an element, given its parent and its file. */
  function ExecutableAttributes(tag: string, parent: string, inOptions: bool): set<nat> {
    if inOptions then
      if tag == "options" && parent == "" then {12, 13}
      else if tag == "group" && parent == "options" then {0}
      else if tag == "subgroup" && parent == "group" then {0, 4}
      else if tag == "control" && parent == "subgroup" then {0, 1, 2, 3}
      else if tag == "value" && parent == "control" then {0, 1}
      else {}
    else
      if tag == "monitor" && parent == "" then {0, 5, 14, 15}
      else if tag == "control" && parent == "controls" then {1, 6, 7}
      else if tag == "value" && parent == "control" then {1, 8}
      else if tag == "caps" && parent == "monitor" then {10, 11}
      else if tag == "include" && parent == "monitor" then {9}
      else {}
  }

  predicate ExecutablePath(tag: string, parent: string, inOptions: bool, ancestor: bool) {
    ancestor && (ExecutableAttributes(tag, parent, inOptions) != {}
                 || (tag == "controls" && parent == "monitor" && !inOptions))
  }

  // ----- Fields -----

  predicate IsUint(v: Value) { v.Int? && v.n >= 0 }

  predicate Fields(v: Value) { v.Map? && forall e | e in v.entries :: IsUint(e.key) }

  /** The first entry with an integer key. */
  function Optional(v: Value, key: nat): (r: Option<Value>)
    ensures r.Some? ==> v.Map? && Items(r.value) < Items(v)
  { if v.Map? then Lookup(v.entries, key) else None }

  function Lookup(es: seq<Entry>, key: nat): (r: Option<Value>)
    ensures r.Some? ==> Items(r.value) <= ItemsEntries(es)
  {
    if es == [] then None
    else if es[0].key.Int? && es[0].key.n == key then Some(es[0].value)
    else Lookup(es[1..], key)
  }

  // ----- Extensions -----

  const SOURCE_METADATA: string := "https" + "://ddccontrol" + ".sourceforge.net" + "/cbor/ext/" + "source-metadata/1"

  predicate IsLetter(c: char) { 'a' <= c <= 'z' || 'A' <= c <= 'Z' }

  predicate IsSchemeChar(c: char) { IsLetter(c) || '0' <= c <= '9' || c == '+' || c == '.' || c == '-' }

  predicate IsWhite(c: char) {
    || '\t' <= c <= '\r' || c == ' ' || c == '\U{85}' || c == '\U{A0}' || c == '\U{1680}'
        || '\U{2000}' <= c <= '\U{200A}'
    || c == '\U{2028}' || c == '\U{2029}' || c == '\U{202F}' || c == '\U{205F}' || c == '\U{3000}'
  }

  predicate Blank(s: string) { forall c | c in s :: IsWhite(c) }

  predicate IsControlChar(c: char) { c < ' ' || '\U{7F}' <= c <= '\U{9F}' }

  /** What precedes the first colon; empty without one. */
  function Scheme(id: string): string { if ':' in id then UpToColon(id) else "" }

  function UpToColon(id: string): string {
    if id == "" || id[0] == ':' then "" else [id[0]] + UpToColon(id[1..])
  }

  predicate ValidIdentity(id: string) {
    var scheme := Scheme(id);
    && scheme != "" && IsLetter(scheme[0])
    && (forall c | c in scheme :: IsSchemeChar(c))
    && forall c | c in id :: !IsWhite(c) && !IsControlChar(c)
  }

  predicate TextOnly(es: seq<Entry>) { forall e | e in es :: e.key.Text? && e.value.Text? }

  predicate TextOrAbsent(v: Option<Value>) { v.Some? ==> v.value.Text? }

  predicate MetadataShape(payload: Value) {
    && Fields(payload)
    && Optional(payload, 0).Some? && Optional(payload, 0).value.Map? && TextOnly(Optional(payload, 0).value.entries)
    && TextOrAbsent(Optional(payload, 1)) && TextOrAbsent(Optional(payload, 2)) && TextOrAbsent(Optional(payload, 3))
  }

  datatype Extension = Extension(id: string, required: bool)

  function ReadExtension(v: Value): Option<Extension> {
    if !Fields(v) then None
    else
      match (Optional(v, 0), Optional(v, 1), Optional(v, 2))
      case (Some(Text(id)), Some(Bool(needs)), Some(payload)) =>
        if !ValidIdentity(id) || (id == SOURCE_METADATA && (needs || !MetadataShape(payload))) then None
        else Some(Extension(id, needs))
      case (_, _, _) => None
  }

  function ReadExtensions(vs: seq<Value>, seen: set<string>): Option<bool> {
    if vs == [] then Some(false)
    else
      match ReadExtension(vs[0])
      case None => None
      case Some(x) =>
        if x.id in seen then None
        else
          match ReadExtensions(vs[1..], seen + {x.id})
          case None => None
          case Some(rest) => Some(x.required || rest)
  }

  /** `required_extensions`: None for a malformed list. */
  function RequiredExtensions(v: Value, key: nat): Option<bool> {
    match Optional(v, key)
    case None => Some(false)
    case Some(Array(vs)) => ReadExtensions(vs, {})
    case Some(_) => None
  }

  // ----- Nodes -----

  datatype AttrRead = BadAttr | Ignored | Kept(name: string, text: string)

  function DecodeAttr(e: Entry, allowed: set<nat>): AttrRead {
    if !IsUint(e.key) then BadAttr
    else
      var id: nat := e.key.n;
      if id >= |ATTRIBUTES| then if e.value.Int? || e.value.Text? then Ignored else BadAttr
      else if id !in allowed then BadAttr
      else if IsNumeric(id) then
        if e.value.Int? && InBounds(id, e.value.n) then AttrRead.Kept(ATTRIBUTES[id], ToDecimal(e.value.n)) else BadAttr
      else if e.value.Text? && '\0' !in e.value.text then AttrRead.Kept(ATTRIBUTES[id], e.value.text)
      else BadAttr
  }

  function DecodeAttrs(es: seq<Entry>, allowed: set<nat>): Option<map<string, string>>
    decreases |es|
  {
    if es == [] then Some(map[])
    else
      match DecodeAttrs(es[..|es| - 1], allowed)
      case None => None
      case Some(attrs) =>
        match DecodeAttr(es[|es| - 1], allowed)
        case BadAttr => None
        case Ignored => Some(attrs)
        case Kept(name, text) => Some(attrs[name := text])
  }

  function FindMetadata(vs: seq<Value>): Option<Value> {
    if vs == [] then None
    else if Optional(vs[0], 0) == Some(Text(SOURCE_METADATA)) then Some(vs[0])
    else FindMetadata(vs[1..])
  }

  /** The tag an inert node remembers; it must not name an executable kind. */
  function InertTag(v: Value): Option<string> {
    match Optional(v, 3)
    case Some(Array(vs)) =>
      (match FindMetadata(vs)
       case None => None
       case Some(x) =>
         match Optional(x, 2)
         case None => None
         case Some(payload) =>
           match Optional(payload, 1)
           case Some(Text(tag)) => if KindId(tag).Some? then None else Some(tag)
           case _ => None)
    case _ => None
  }

  function TagOf(v: Value, kind: nat): Option<string> {
    if kind == INERT then InertTag(v)
    else if KindName(kind).Some? then KindName(kind)
    else Some("unknown")
  }

  predicate UnknownKind(kind: nat) { KindName(kind).None? && kind != INERT }

  /** `node`: None for a malformed node. */
  function DecodeNode(v: Value, parent: string, inOptions: bool): Option<Node>
    decreases Items(v), 0, 0
  {
    if !Fields(v) then None
    else
      match (Optional(v, 0), Optional(v, 1), Optional(v, 2))
      case (Some(Int(kind)), Some(attributes), Some(Array(values))) =>
        if kind < 0 || !Fields(attributes) then None
        else
          (match (TagOf(v, kind), RequiredExtensions(v, 3))
           case (Some(tag), Some(required)) =>
             (match (DecodeAttrs(attributes.entries, ExecutableAttributes(tag, parent, inOptions)),
                     DecodeNodes(values, tag, inOptions))
              case (Some(attrs), Some(children)) => Some(Node(tag, attrs, children, 0, required || UnknownKind(kind)))
              case (_, _) => None)
           case (_, _) => None)
      case (_, _, _) => None
  }

  function DecodeNodes(vs: seq<Value>, parent: string, inOptions: bool): Option<seq<Node>>
    decreases ItemsAll(vs), 1, |vs|
  {
    if vs == [] then Some([])
    else
      match (DecodeNode(vs[0], parent, inOptions), DecodeNodes(vs[1..], parent, inOptions))
      case (Some(n), Some(rest)) => Some([n] + rest)
      case (_, _) => None
  }
}
