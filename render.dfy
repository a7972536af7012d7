/**
  The tree walk of the layout engine: the dispatch from a node's kind to
  its handler, the inline and block join strategies, and the subblock
  strategy with the alignment hooks around it. Every function here is the
  specification of the method of the same name in `Formatter`.
 */
module Render {
  import opened Tree
  import opened Options
  import opened JavaString
  import opened Errors
  import opened Layout
  import Util

  /** The tight functions of the inline strategies: when one holds for child
      `i`, no join is written before it. */
  datatype Tight = NoTight | MapTight | ListSeparatorTight | TupleTight

  /** What a kind's handler does. */
  datatype Handler =
    | TerminalH                          // the token itself
    | BlockH                             // the children as a block (the document)
    | UnwrapH                            // the first child only (header, definition)
    | InlineH(join: string, tight: Tight) // the children joined on one line
    | EmptyH                             // a handler with an empty body
    | NoHandler                          // a kind the dispatch does not name

  /** The handler of each kind. As written, the include rule has the empty
      join like the other inline rules; with `spacedInclude` it joins by
      one space instead. */
  function HandlerOf(k: Kind, spacedInclude: bool): Handler {
    match k
    case Terminal => TerminalH
    case Document => BlockH
    case Header | Definition => UnwrapH
    case Include => InlineH(if spacedInclude then " " else "", NoTight)
    case Namespace | Typedef | BaseType | RealBaseType | ConstRule | ConstValue | Integer
       | ContainerType | SetType | ListType | CppType | ConstMap | ConstMapEntry
       | ListSeparator | FieldId | FieldReq | FieldType => InlineH("", NoTight)
    case MapType => InlineH(" ", MapTight)
    case ConstList | EnumRule | Struct | Union | Exception | EnumField | Field | Function
       | Oneway | FunctionType | ThrowsList | TypeAnnotations | TypeAnnotation
       | AnnotationValue | Service | Senum => EmptyH
    case Unlisted => NoHandler
  }

  /** Whether the tight function holds for child `i > 0` of `n`. The child's
      parent is `n` in a well-formed arena, so the sibling before it is
      child `i - 1` of `n`. */
  predicate IsTight(ns: seq<Node>, tight: Tight, n: nat, i: nat)
    requires WellFormed(ns) && n < |ns| && 0 < i < |Children(ns, n)|
  {
    var cs := Children(ns, n);
    match tight
    case NoTight => false
    case MapTight => !IsToken(ns, cs[i - 1], ",")
    case ListSeparatorTight => ns[cs[i]].kind == ListSeparator
    case TupleTight =>
      IsToken(ns, cs[i], "(") || IsToken(ns, cs[i], ")") || IsToken(ns, cs[i - 1], "(")
      || ns[cs[i]].kind == ListSeparator
  }

  /** Whether `genInlineContext` writes the join before child `i`. */
  predicate JoinBefore(ns: seq<Node>, n: nat, join: string, tight: Tight, i: nat)
    requires WellFormed(ns) && n < |ns| && i < |Children(ns, n)|
  {
    i > 0 && join != "" && !IsTight(ns, tight, n, i)
  }

  /** A header or definition in a block stands for its first child. */
  function Unwrap(ns: seq<Node>, x: nat): (y: nat)
    requires WellFormed(ns) && x < |ns|
    ensures x <= y < |ns|
    ensures y == x <==> ns[x].kind != Header && ns[x].kind != Definition
  {
    assert NodeOk(ns, x);
    if ns[x].kind == Header || ns[x].kind == Definition then Children(ns, x)[0] else x
  }

  /** The blank lines wanted between two block neighbours: two when the
      classes differ or the node is one that always stands apart, one
      otherwise. */
  function BlockGap(ns: seq<Node>, last: nat, node: nat): (lines: nat)
    requires last < |ns| && node < |ns|
    ensures lines == 1 || lines == 2
    ensures lines == 2 <==> NotSameClass(ns, last, node) || IsNeedNewLineNode(ns[node].kind)
  {
    if NotSameClass(ns, last, node) || IsNeedNewLineNode(ns[node].kind) then 2 else 1
  }

  predicate Above(ns: seq<Node>, p: nat, nodes: seq<nat>) {
    p < |ns| && forall j | 0 <= j < |nodes| :: p < nodes[j] < |ns|
  }

  lemma AboveParts(ns: seq<Node>, p: nat, items: seq<nat>, left: seq<nat>, right: seq<nat>)
    requires Above(ns, p, items) && left + right == items
    ensures Above(ns, p, left) && Above(ns, p, right)
  {
    assert forall j | 0 <= j < |left| :: left[j] == items[j];
    assert forall j | 0 <= j < |right| :: right[j] == items[|left| + j];
  }

  /** `processNode`: with the hooks active, the alignment padding first;
      then the node's handler. */
  function ProcessNode(env: Env, st: State, n: nat): (r: State)
    requires ValidEnv(env) && ValidState(env, st) && n < |env.ns|
    ensures ValidState(env, r) && Extends(st, r)
    ensures !env.thrift ==> r.lastTokenIndex == st.lastTokenIndex
    decreases |env.ns| - n, 3, 0
  {
    var st1 := if env.thrift then AddAlignPadding(env, st, n) else st;
    Dispatch(env, st1, n)
  }

  /** `_processNode`: the handler chosen by the node's kind. */
  function Dispatch(env: Env, st: State, n: nat): (r: State)
    requires ValidEnv(env) && ValidState(env, st) && n < |env.ns|
    ensures ValidState(env, r) && Extends(st, r)
    ensures !env.thrift ==> r.lastTokenIndex == st.lastTokenIndex
    decreases |env.ns| - n, 2, 0
  {
    var cs := Children(env.ns, n);
    assert NodeOk(env.ns, n);
    match HandlerOf(env.ns[n].kind, env.spacedInclude)
    case TerminalH => TerminalNode(env, st, n)
    case BlockH => BlockNodes(env, st, n, cs, "", |cs|)
    case UnwrapH => ProcessNode(env, st, cs[0])
    case InlineH(join, tight) => Inline(env, st, n, join, tight, |cs|)
    case EmptyH => st
    case NoHandler => st
  }

  /** `genInlineContext(join, tight)` over the first `k` children of `n`:
      each child, with the join before it where `JoinBefore` holds. */
  function Inline(env: Env, st: State, n: nat, join: string, tight: Tight, k: nat): (r: State)
    requires ValidEnv(env) && ValidState(env, st) && n < |env.ns|
    requires k <= |Children(env.ns, n)|
    ensures ValidState(env, r) && Extends(st, r)
    ensures !env.thrift ==> r.lastTokenIndex == st.lastTokenIndex
    decreases |env.ns| - n, 1, k
  {
    if k == 0 then st
    else
      var prev := Inline(env, st, n, join, tight, k - 1);
      var st1 := if JoinBefore(env.ns, n, join, tight, k - 1) then Append(prev, join) else prev;
      ProcessNode(env, st1, Children(env.ns, n)[k - 1])
  }

  /** `processBlockNodes(nodes, indent)` over the first `k` nodes, all
      below `p`: each node unwrapped, the gap to its predecessor requested,
      the indent set, the node written, and with the hooks active the tail
      comment after it. */
  function BlockNodes(env: Env, st: State, p: nat, nodes: seq<nat>, indent: string, k: nat): (r: State)
    requires ValidEnv(env) && ValidState(env, st) && Above(env.ns, p, nodes)
    requires k <= |nodes|
    ensures ValidState(env, r) && Extends(st, r)
    ensures !env.thrift ==> r.lastTokenIndex == st.lastTokenIndex
    decreases |env.ns| - p, 1, k
  {
    if k == 0 then st
    else BlockStep(env, BlockNodes(env, st, p, nodes, indent, k - 1), p, nodes, indent, k - 1)
  }

  /** One iteration of `processBlockNodes`, for node `i`. */
  function BlockStep(env: Env, st: State, p: nat, nodes: seq<nat>, indent: string, i: nat): (r: State)
    requires ValidEnv(env) && ValidState(env, st) && Above(env.ns, p, nodes)
    requires i < |nodes|
    ensures ValidState(env, r) && Extends(st, r)
    ensures !env.thrift ==> r.lastTokenIndex == st.lastTokenIndex
    decreases |env.ns| - p, 0, 0
  {
    var node := Unwrap(env.ns, nodes[i]);
    var st1 := if i > 0 then Newline(st, BlockGap(env.ns, Unwrap(env.ns, nodes[i - 1]), node)) else st;
    var st2 := ProcessNode(env, st1.(indent := indent), node);
    if env.thrift then TailComment(env, st2) else st2
  }

  /** `processInlineNodes(nodes, join)` over the first `k` nodes: the join
      always goes between consecutive nodes. */
  function InlineNodes(env: Env, st: State, p: nat, nodes: seq<nat>, join: string, k: nat): (r: State)
    requires ValidEnv(env) && ValidState(env, st) && Above(env.ns, p, nodes)
    requires k <= |nodes|
    ensures ValidState(env, r) && Extends(st, r)
    ensures !env.thrift ==> r.lastTokenIndex == st.lastTokenIndex
    decreases |env.ns| - p, 1, k
  {
    if k == 0 then st
    else
      var prev := InlineNodes(env, st, p, nodes, join, k - 1);
      ProcessNode(env, if k - 1 > 0 then Append(prev, join) else prev, nodes[k - 1])
  }

  /** `formatNode`: the node rendered from an empty output, no pending
      newline and no indent. */
  function FormatNode(env: Env, st: State, n: nat): (r: string)
    requires ValidEnv(env) && ValidState(env, st) && n < |env.ns|
  {
    ProcessNode(env, st.(out := "", counter := 0, indent := ""), n).out
  }

  // ---------------------------------------------------------------------
  // Subblocks and the alignment hooks around them
  // ---------------------------------------------------------------------

  /** The settings a fresh layout engine starts with. */
  function PureDefaultOption(): (o: Option)
    ensures Normalised(o) && o == Option(4, true, true, true, false, false)
  {
    NewOption(4, true, true, true, false, false)
  }

  /** A fresh layout engine over the same arena: default settings, no
      hooks. */
  function PureEnv(env: Env): (e: Env)
    requires ValidEnv(env)
    ensures ValidEnv(e) && !e.thrift && e.ns == env.ns && e.tokens == env.tokens
    ensures e.spacedInclude == env.spacedInclude
  {
    Env(env.ns, env.tokens, PureDefaultOption(), false, env.spacedInclude)
  }

  /** The width of a node as a fresh layout engine renders it
      (`new PureThriftFormatter().formatNode(node).length()`). */
  function Width(env: Env, n: nat): nat
    requires ValidEnv(env) && n < |env.ns|
  {
    |FormatNode(PureEnv(env), Fresh, n)|
  }

  /** The roles and widths of the children of one body entry. */
  function RowOf(env: Env, f: nat): (row: Util.Row)
    requires ValidEnv(env) && f < |env.ns|
    ensures |row.roles| == |Children(env.ns, f)|
  {
    var cs := Children(env.ns, f);
    Util.Row(IsFieldOrEnumField(env.ns[f].kind),
             seq(|cs|, j requires 0 <= j < |cs| => Util.Role(GetFieldChildName(env.ns, cs[j]), Width(env, cs[j]))))
  }

  function RowsOf(env: Env, subblocks: seq<nat>): (rows: seq<Util.Row>)
    requires ValidEnv(env) && forall j | 0 <= j < |subblocks| :: subblocks[j] < |env.ns|
    ensures |rows| == |subblocks|
  {
    seq(|subblocks|, j requires 0 <= j < |subblocks| => RowOf(env, subblocks[j]))
  }

  /** The halves of each entry as `splitFieldByAssign` renders them. A half
      is a new field or enum field context, and those handlers are empty,
      so both halves have width 0 (see `RenderProps.FieldHalvesHaveNoWidth`);
      a field with neither `=` nor a separator makes the split raise. */
  function HalvesOf(env: Env, subblocks: seq<nat>): (hs: seq<Util.Halves>)
    requires ValidEnv(env) && forall j | 0 <= j < |subblocks| :: subblocks[j] < |env.ns|
    ensures |hs| == |subblocks|
  {
    seq(|subblocks|, j requires 0 <= j < |subblocks| =>
      var f := subblocks[j];
      if !IsFieldOrEnumField(env.ns[f].kind) then Util.NoSplit
      else if Util.AssignSplitAsWritten(env.ns, Children(env.ns, f)).Err? then Util.SplitFails
      else Util.Halves(0, 0))
  }

  function Widths(env: Env, subblocks: seq<nat>): (ws: seq<nat>)
    requires ValidEnv(env) && forall j | 0 <= j < |subblocks| :: subblocks[j] < |env.ns|
    ensures |ws| == |subblocks|
  {
    seq(|subblocks|, j requires 0 <= j < |subblocks| => Width(env, subblocks[j]))
  }

  /** The alignment half of `beforeSubblocks`: field alignment takes
      priority over assign alignment, and every positive column is shifted
      by the indent. Both alignments can raise an exception. */
  function Align(env: Env, st: State, subblocks: seq<nat>): (r: Result<State>)
    requires ValidEnv(env) && forall j | 0 <= j < |subblocks| :: subblocks[j] < |env.ns|
    ensures r.Ok? ==> r.value == st.(commentPadding := r.value.commentPadding,
                                     assignPadding := r.value.assignPadding,
                                     paddingMap := r.value.paddingMap)
  {
    if env.option.alignByField then
      match Util.FieldPadding(RowsOf(env, subblocks))
      case Err(e) => Err(e)
      case Ok(cols) =>
        Ok(st.(paddingMap := map name | name in cols.paddingMap :: AddIndentPadding(env.option, cols.paddingMap[name]),
               commentPadding := AddIndentPadding(env.option, cols.comment)))
    else if env.option.alignByAssign then
      match Util.AssignPadding(HalvesOf(env, subblocks))
      case Err(e) => Err(e)
      case Ok(cols) =>
        Ok(st.(assignPadding := AddIndentPadding(env.option, cols.assign),
               commentPadding := AddIndentPadding(env.option, cols.comment)))
    else Ok(st)
  }

  /** The comment half of `beforeSubblocks`: with comments kept, a comment
      column still 0 falls back to one past the widest entry, shifted by
      the indent; any other column is kept. */
  function CommentFallback(env: Env, st: State, subblocks: seq<nat>): (r: State)
    requires ValidEnv(env) && forall j | 0 <= j < |subblocks| :: subblocks[j] < |env.ns|
    ensures r == st.(commentPadding := r.commentPadding)
    ensures !env.option.keepComment || st.commentPadding != 0 ==> r == st
  {
    if env.option.keepComment && st.commentPadding == 0 then
      st.(commentPadding := AddIndentPadding(env.option, Util.SubBlocksCommentPadding(Widths(env, subblocks))))
    else st
  }

  /** `beforeSubblocks`: with the hooks active, the alignment, then the
      comment fallback. */
  function BeforeSubblocks(env: Env, st: State, subblocks: seq<nat>): (r: Result<State>)
    requires ValidEnv(env) && forall j | 0 <= j < |subblocks| :: subblocks[j] < |env.ns|
    ensures r.Ok? ==> r.value == st.(commentPadding := r.value.commentPadding,
                                     assignPadding := r.value.assignPadding,
                                     paddingMap := r.value.paddingMap)
    ensures !env.thrift ==> r == Ok(st)
  {
    if !env.thrift then Ok(st)
    else
      match Align(env, st, subblocks)
      case Err(e) => Err(e)
      case Ok(st1) => Ok(CommentFallback(env, st1, subblocks))
  }

  /** `afterSubblocks`: the alignment fields are cleared. */
  function AfterSubblocks(env: Env, st: State): (r: State)
    ensures env.thrift ==> r.commentPadding == 0 && r.assignPadding == 0 && r.paddingMap == map[]
    ensures !env.thrift ==> r == st
    ensures r.out == st.out && r.counter == st.counter && r.indent == st.indent
    ensures r.lastTokenIndex == st.lastTokenIndex
  {
    if env.thrift then st.(assignPadding := 0, paddingMap := map[], commentPadding := 0) else st
  }

  /** `genSubblocksContext(start, kind)`: the first `start` children on one
      line, a newline, the leading run of `kind` as a block indented by
      the indent setting between the two hooks, a newline, and the rest on
      one line. */
  function Subblocks(env: Env, st: State, n: nat, start: nat, kind: Kind): (r: Result<State>)
    requires ValidEnv(env) && ValidState(env, st) && n < |env.ns|
    requires start <= |Children(env.ns, n)|
  {
    var cs := Children(env.ns, n);
    var st1 := Newline(InlineNodes(env, st, n, cs[..start], " ", start), 1);
    var split := Util.RepeatSplit(env.ns, cs[start..], kind);
    AboveParts(env.ns, n, cs[start..], split.left, split.right);
    match BeforeSubblocks(env, st1, split.left)
    case Err(e) => Err(e)
    case Ok(st2) =>
      if env.option.indent < 0 then Err(IllegalArgument)
      else Ok(AfterAlign(env, st2, n, split.left, split.right))
  }

  /** The rest of `genSubblocksContext` once the columns are set: the run
      as an indented block, the columns cleared, a newline, and the rest
      on one line. */
  function AfterAlign(env: Env, st: State, n: nat, run: seq<nat>, rest: seq<nat>): (r: State)
    requires ValidEnv(env) && ValidState(env, st) && Above(env.ns, n, run) && Above(env.ns, n, rest)
    requires env.option.indent >= 0
    ensures ValidState(env, r)
  {
    var st1 := BlockNodes(env, st, n, run, Repeat(' ', env.option.indent), |run|);
    var st2 := Newline(AfterSubblocks(env, st1), 1);
    InlineNodes(env, st2, n, rest, " ", |rest|)
  }
}
