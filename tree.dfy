/**
  The parse tree the formatter works on, stored as an arena: a node is an
  index into a `seq<Node>`, its children are indices of later nodes, and its
  parent is an earlier index or -1 when it has none. Grammar kinds stand for
  the ANTLR context classes, tokens for ANTLR's `CommonToken`.
 */
module Tree {

  /** One constructor per parse-tree class the formatter distinguishes.
      `Unlisted` is any other rule context (the dispatch does not name it). */
  datatype Kind =
    | Terminal | Document | Header | Include | Namespace | Definition | Typedef
    | BaseType | RealBaseType | ConstRule | ConstValue | Integer | ContainerType
    | SetType | ListType | CppType | ConstMap | ConstMapEntry | ListSeparator
    | FieldId | FieldReq | FieldType | MapType | ConstList | EnumRule | Struct
    | Union | Exception | EnumField | Field | Function | Oneway | FunctionType
    | ThrowsList | TypeAnnotations | TypeAnnotation | AnnotationValue | Service
    | Senum | Unlisted

  /** The simple class name Java reflection reports for a node of kind `k`. */
  function KindName(k: Kind): string {
    match k
    case Terminal => "TerminalNodeImpl"
    case Document => "DocumentContext"
    case Header => "HeaderContext"
    case Include => "Include_Context"
    case Namespace => "Namespace_Context"
    case Definition => "DefinitionContext"
    case Typedef => "Typedef_Context"
    case BaseType => "Base_typeContext"
    case RealBaseType => "Real_base_typeContext"
    case ConstRule => "Const_ruleContext"
    case ConstValue => "Const_valueContext"
    case Integer => "IntegerContext"
    case ContainerType => "Container_typeContext"
    case SetType => "Set_typeContext"
    case ListType => "List_typeContext"
    case CppType => "Cpp_typeContext"
    case ConstMap => "Const_mapContext"
    case ConstMapEntry => "Const_map_entryContext"
    case ListSeparator => "List_separatorContext"
    case FieldId => "Field_idContext"
    case FieldReq => "Field_reqContext"
    case FieldType => "Field_typeContext"
    case MapType => "Map_typeContext"
    case ConstList => "Const_listContext"
    case EnumRule => "Enum_ruleContext"
    case Struct => "Struct_Context"
    case Union => "Union_Context"
    case Exception => "Exception_Context"
    case EnumField => "Enum_fieldContext"
    case Field => "FieldContext"
    case Function => "Function_Context"
    case Oneway => "OnewayContext"
    case FunctionType => "Function_typeContext"
    case ThrowsList => "Throws_listContext"
    case TypeAnnotations => "Type_annotationsContext"
    case TypeAnnotation => "Type_annotationContext"
    case AnnotationValue => "Annotation_valueContext"
    case Service => "ServiceContext"
    case Senum => "SenumContext"
    case Unlisted => "ParserRuleContext"
  }

  /** The lexer's token types the formatter looks at. */
  datatype TokenType = Eof | MlComment | SlComment | Comma | RequiredKw | OtherType

  /** Hidden tokens are whitespace; comments travel on their own channel. */
  datatype Channel = DefaultChannel | CommentChannel | HiddenChannel

  datatype Token = Token(ttype: TokenType, text: string, line: int, channel: Channel, index: int)

  /** `token` is meaningful for terminals only; rule nodes carry `NoToken`. */
  datatype Node = Node(kind: Kind, parent: int, children: seq<nat>, token: Token)

  const NoToken := Token(OtherType, "", 0, DefaultChannel, -1)

  const FakeNodeLineNo := -1
  const FakeTokenIndex := -1

  /** A token created by the patch pass rather than read from the source. */
  function CreateFakeToken(ttype: TokenType, text: string): (t: Token)
    ensures t.line == FakeNodeLineNo && t.index == FakeTokenIndex
    ensures t.ttype == ttype && t.text == text
  {
    Token(ttype, text, FakeNodeLineNo, DefaultChannel, FakeTokenIndex)
  }

  /** `Util.createFakeNode`: a terminal holding a fake token. */
  function CreateFakeNode(ttype: TokenType, text: string, parent: int): (n: Node)
    ensures IsFakeNode(n) && n.kind == Terminal && n.children == []
    ensures n.token.text == text && n.token.index == FakeTokenIndex
  {
    Node(Terminal, parent, [], CreateFakeToken(ttype, text))
  }

  predicate IsFakeNode(n: Node) {
    n.token.line == FakeNodeLineNo
  }

  /** Shape of one node: its children are later nodes that point back to it,
      none twice; terminals are leaves; a header or definition wraps at least
      one node; a list separator holds its `,` or `;` terminal first. */
  predicate NodeOk(ns: seq<Node>, i: nat)
    requires i < |ns|
  {
    var nd := ns[i];
    (nd.parent == -1 || 0 <= nd.parent < i)
    && (forall j | 0 <= j < |nd.children| :: i < nd.children[j] < |ns| && ns[nd.children[j]].parent == i)
    && (forall j, k | 0 <= j < k < |nd.children| :: nd.children[j] != nd.children[k])
    && (nd.kind == Terminal ==> nd.children == [])
    && ((nd.kind == Header || nd.kind == Definition) ==> |nd.children| >= 1)
    && (nd.kind == ListSeparator ==> |nd.children| >= 1 && ns[nd.children[0]].kind == Terminal)
  }

  predicate WellFormed(ns: seq<Node>) {
    forall i | 0 <= i < |ns| :: NodeOk(ns, i)
  }

  function Children(ns: seq<Node>, n: nat): (cs: seq<nat>)
    requires WellFormed(ns) && n < |ns|
    ensures forall j | 0 <= j < |cs| :: n < cs[j] < |ns|
  {
    assert NodeOk(ns, n);
    ns[n].children
  }

  /** `isToken(node, text)`: a terminal whose token text is `text`. */
  predicate IsToken(ns: seq<Node>, n: int, text: string) {
    0 <= n < |ns| && ns[n].kind == Terminal && ns[n].token.text == text
  }

  predicate IsEOF(ns: seq<Node>, n: int) {
    0 <= n < |ns| && ns[n].kind == Terminal && ns[n].token.ttype == Eof
  }

  /** `notSameClass`: the two nodes belong to different parse-tree classes. */
  predicate NotSameClass(ns: seq<Node>, a: nat, b: nat)
    requires a < |ns| && b < |ns|
  {
    ns[a].kind != ns[b].kind
  }

  /** Kinds always separated from their block neighbour by a blank line. */
  predicate IsNeedNewLineNode(k: Kind) {
    k == EnumField || k == Struct || k == Union || k == Exception || k == Service
  }

  predicate IsFieldOrEnumField(k: Kind) {
    k == Field || k == EnumField
  }

  predicate IsFunctionOrThrowsListNode(k: Kind) {
    k == Function || k == ThrowsList
  }

  /** The parent of `n` exists and is of kind `k`. */
  predicate ParentIs(ns: seq<Node>, n: nat, k: Kind)
    requires n < |ns|
  {
    0 <= ns[n].parent < |ns| && ns[ns[n].parent].kind == k
  }

  /** `getFieldChildName`: the role of a field's child for alignment. */
  function GetFieldChildName(ns: seq<Node>, n: nat): (name: string)
    requires n < |ns|
    ensures name == "=" <==> IsToken(ns, n, "=")
    ensures name != "=" ==> name == KindName(ns[n].kind)
  {
    if IsToken(ns, n, "=") then "=" else KindName(ns[n].kind)
  }
}
