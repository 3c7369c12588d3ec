/** The JSON grammar of RFC 8259 sections 2 to 7 as concrete syntax trees. */
module Grammar {
  import opened Bytes
  import opened Json
  import opened Literals
  import opened Parser
  import NG = NumberGrammar

  /** A value with the white space, literals and number tokens it was written with. */
  datatype Cst =
    | CNull
    | CTrue
    | CFalse
    | CNumber(parts: NG.Parts)
    | CString(units: seq<Unit>)
    | CArray(gap: Bytes, items: seq<Item>)
    | CObject(gap: Bytes, entries: seq<Entry>)

  datatype Item = Item(before: Bytes, value: Cst, after: Bytes)

  datatype Entry =
    Entry(before: Bytes, name: seq<Unit>, beforeColon: Bytes, afterColon: Bytes, value: Cst, after: Bytes)

  // ---------------------------------------------------------------- text

  const NULL_WORD: Bytes := ['n' as int, 'u' as int, 'l' as int, 'l' as int]
  const TRUE_WORD: Bytes := ['t' as int, 'r' as int, 'u' as int, 'e' as int]
  const FALSE_WORD: Bytes := ['f' as int, 'a' as int, 'l' as int, 's' as int, 'e' as int]

  /** The six structural characters of section 2, and the characters of strings and numbers. */
  lemma Characters()
    ensures OPEN_BRACKET == '[' as int && CLOSE_BRACKET == ']' as int && COMMA == ',' as int
    ensures OPEN_BRACE == '{' as int && CLOSE_BRACE == '}' as int && COLON == ':' as int
    ensures QUOTE == '"' as int && BACKSLASH == '\\' as int && SLASH == '/' as int && DOT == '.' as int
    ensures MINUS == '-' as int && SPACE == ' ' as int && NEWLINE == '\n' as int
  {
  }

  function Text(c: Cst): Bytes
    decreases c, 1
  {
    match c
    case CNull => NULL_WORD
    case CTrue => TRUE_WORD
    case CFalse => FALSE_WORD
    case CNumber(p) => NG.PartsText(p)
    case CString(us) => LiteralText(us)
    case CArray(gap, items) => [OPEN_BRACKET] + (if items == [] then gap + [CLOSE_BRACKET] else ItemsText(items))
    case CObject(gap, es) => [OPEN_BRACE] + (if es == [] then gap + [CLOSE_BRACE] else EntriesText(es))
  }

  /** The items with their commas, up to and including the closing bracket. */
  function ItemsText(items: seq<Item>): Bytes
    requires items != []
    decreases items, 0
  {
    items[0].before + (Text(items[0].value) + (items[0].after +
      (if |items| == 1 then [CLOSE_BRACKET] else [COMMA] + ItemsText(items[1..]))))
  }

  function EntriesText(es: seq<Entry>): Bytes
    requires es != []
    decreases es, 0
  {
    es[0].before + (LiteralText(es[0].name) + (es[0].beforeColon + ([COLON] + (es[0].afterColon +
      (Text(es[0].value) + (es[0].after +
        (if |es| == 1 then [CLOSE_BRACE] else [COMMA] + EntriesText(es[1..]))))))))
  }

  // ---------------------------------------------------------------- meaning

  function Meaning(c: Cst): Json
    decreases c, 1
  {
    match c
    case CNull => Null
    case CTrue => Bool(true)
    case CFalse => Bool(false)
    case CNumber(p) => Number(if NG.PartsOk(p) then NG.PartsDouble(p) else 0.0)
    case CString(us) => Str(if UnitsOk(us) then LiteralValue(us) else [])
    case CArray(_, items) => Array(ItemValues(items))
    case CObject(_, es) => Object(EntryMembers(es))
  }

  function ItemValues(items: seq<Item>): seq<Json>
    decreases items, 0
  {
    if items == [] then [] else [Meaning(items[0].value)] + ItemValues(items[1..])
  }

  function EntryName(e: Entry): Bytes {
    if UnitsOk(e.name) then LiteralValue(e.name) else []
  }

  function EntryMembers(es: seq<Entry>): (ms: seq<Member>)
    ensures |ms| == |es|
    decreases es, 0
  {
    if es == [] then [] else [Member(EntryName(es[0]), Meaning(es[0].value))] + EntryMembers(es[1..])
  }

  // ---------------------------------------------------------------- well-formedness

  /** White space: that of RFC 8259 section 2, and the vertical tab and the form feed. */
  const WHITE: set<byte> := {9, 10, 11, 12, 13, 32}

  predicate Spaces(w: Bytes) {
    forall k | 0 <= k < |w| :: w[k] in WHITE
  }

  /** How many containers may stand around a value. */
  const DEPTH: nat := 2048

  /**
   * What the code asks of a tree with `nesting` containers around it: white space as above,
   * literals of the grammar, number tokens it takes and in range, distinct names after decoding, and the nesting limit.
   */
  predicate Wf(c: Cst, nesting: nat)
    decreases c, 1
  {
    nesting <= DEPTH &&
    match c
    case CNumber(p) => NG.TokenOk(p)
    case CString(us) => UnitsOk(us)
    case CArray(gap, items) => Spaces(gap) && (items != [] ==> gap == []) && ItemsWf(items, nesting + 1)
    case CObject(gap, es) =>
      Spaces(gap) && (es != [] ==> gap == []) && EntriesWf(es, nesting + 1) && DistinctNames(EntryMembers(es))
    case _ => true
  }

  predicate ItemsWf(items: seq<Item>, nesting: nat)
    decreases items, 0
  {
    items == [] ||
    (Spaces(items[0].before) && Spaces(items[0].after) && Wf(items[0].value, nesting) && ItemsWf(items[1..], nesting))
  }

  predicate EntriesWf(es: seq<Entry>, nesting: nat)
    decreases es, 0
  {
    es == [] ||
    (Spaces(es[0].before) && UnitsOk(es[0].name) && Spaces(es[0].beforeColon) && Spaces(es[0].afterColon)
     && Wf(es[0].value, nesting) && Spaces(es[0].after) && EntriesWf(es[1..], nesting))
  }
}
