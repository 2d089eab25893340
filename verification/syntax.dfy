/** The already-lexed and already-parsed HCL input every rule works on: source
    positions, lexer tokens, the expression tree of the native syntax, and
    bodies made of attributes and nested blocks. */
module Syntax {
  import opened Wrappers

  /** A position: 1-based line and column, 0-based byte offset. */
  datatype Pos = Pos(line: nat, column: nat, byte: nat)

  datatype Range = Range(filename: string, start: Pos, end: Pos)

  /** Lexer token kinds the rules tell apart; every other kind is `Other`. */
  datatype TokenKind = Comment | Newline | Eof | OpenHeredoc | Other

  datatype Token = Token(kind: TokenKind, text: string, rng: Range)

  /** The value of a literal or of a constant expression. */
  datatype Value = Number(n: real) | Str(s: string) | Bool(b: bool) | OtherValue

  /** Native-syntax expressions, one constructor per node kind the rules
      distinguish. `ObjectKey` is the wrapper the parser puts around every
      object key; relative traversals, anonymous symbols and template joins
      are `OtherExpr`. `root` is the name a scope traversal starts with. */
  datatype Expr =
    | Literal(val: Value, rng: Range)
    | Template(parts: seq<Expr>, rng: Range)
    | TemplateWrap(wrapped: Expr, rng: Range)
    | Traversal(root: string, rng: Range)
    | Call(name: string, args: seq<Expr>, rng: Range)
    | Tuple(elems: seq<Expr>, rng: Range)
    | Object(items: seq<ObjectItem>, rng: Range)
    | ObjectKey(wrapped: Expr, rng: Range)
    | Conditional(cond: Expr, yes: Expr, no: Expr, rng: Range)
    | For(source: Expr, keyResult: Option<Expr>, valResult: Expr, filter: Option<Expr>, rng: Range)
    | Splat(splatted: Expr, each: Expr, rng: Range)
    | Parens(inner: Expr, rng: Range)
    | Unary(operand: Expr, rng: Range)
    | Binary(lhs: Expr, rhs: Expr, rng: Range)
    | Indexed(collection: Expr, index: Expr, rng: Range)
    | OtherExpr(rng: Range)

  datatype ObjectItem = ObjectItem(key: Expr, value: Expr)

  /** An attribute `name = expr`. `value` is what evaluating `expr` without
      variables or functions yields, `None` when that evaluation fails. */
  datatype Attribute = Attribute(name: string, expr: Expr, value: Option<Value>, rng: Range)

  /** A block: keyword, labels with their ranges, body, the keyword's range,
      the opening brace's range and the whole block's range. */
  datatype Block = Block(
    kind: string,
    labels: seq<string>,
    labelRanges: seq<Range>,
    body: Body,
    typeRange: Range,
    openBrace: Range,
    rng: Range)

  /** Attributes come in the parser's map order (not source order), blocks
      in source order. */
  datatype Body = Body(attributes: seq<Attribute>, blocks: seq<Block>)

  /** One configuration file: its name, its bytes (one element per byte),
      the parsed body (`None` when it is not native syntax), and the lexer's
      token stream (`None` when lexing reports an error). */
  datatype SourceFile = SourceFile(
    name: string,
    bytes: string,
    body: Option<Body>,
    tokens: Option<seq<Token>>)

  /** Attribute names are unique in a body, as in the parser's map. */
  predicate UniqueNames(attrs: seq<Attribute>) {
    forall i, j :: 0 <= i < j < |attrs| ==> attrs[i].name != attrs[j].name
  }

  /** The attribute called `name`, as a map lookup. */
  function Lookup(attrs: seq<Attribute>, name: string): (r: Option<Attribute>)
    ensures r.Some? ==> r.value in attrs && r.value.name == name
    ensures r.None? ==> forall a :: a in attrs ==> a.name != name
  {
    if |attrs| == 0 then None
    else if attrs[0].name == name then Some(attrs[0])
    else Lookup(attrs[1..], name)
  }

  /** The bytes a range covers, when it lies inside the file. */
  function Slice(bytes: string, rng: Range): (r: Option<string>)
    ensures r.Some? <==> rng.start.byte <= rng.end.byte <= |bytes|
    ensures r.Some? ==> r.value == bytes[rng.start.byte..rng.end.byte]
  {
    if rng.start.byte <= rng.end.byte <= |bytes| then Some(bytes[rng.start.byte..rng.end.byte])
    else None
  }
}
