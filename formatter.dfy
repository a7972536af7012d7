/**
  The formatter object: the fields of `PureThriftFormatter` (the output,
  the pending-newline counter, the one-shot indent) and of
  `ThriftFormatter` (the parse tree it patches, the token stream, the last
  written token, the alignment columns). `thrift` says whether the
  overrides of `ThriftFormatter` are active; a fresh layout engine has
  them off. Every method updates the fields in place and is proved to
  leave them as the function of the same name in `Layout`, `Render` or
  `Patch` says.
 */
module Formatter {
  import opened Tree
  import opened Options
  import opened JavaString
  import opened Errors
  import Layout
  import Render
  import Util
  import Patch

  class Formatter {
    var tree: seq<Node>
    const tokens: seq<Token>
    const root: nat
    const thrift: bool
    var option: Option

    var out: string
    var newlineCounter: nat
    var currentIndent: string

    var lastTokenIndex: int
    var fieldCommentPadding: int
    var fieldAlignByAssignPadding: int
    var fieldAlignByFieldPaddingMap: map<string, int>

    /** What rendering reads but does not change. */
    function Env(): Layout.Env
      reads this`tree, this`option
    {
      Layout.Env(tree, tokens, option, thrift, false)
    }

    /** The fields rendering changes. */
    function State(): Layout.State
      reads this`out, this`newlineCounter, this`currentIndent, this`lastTokenIndex
      reads this`fieldCommentPadding, this`fieldAlignByAssignPadding, this`fieldAlignByFieldPaddingMap
    {
      Layout.State(out, newlineCounter, currentIndent, lastTokenIndex,
                   fieldCommentPadding, fieldAlignByAssignPadding, fieldAlignByFieldPaddingMap)
    }

    /** The environment is valid and the last written token is -1 or a
        token of the stream (`Layout.ValidState`). */
    predicate Valid()
      reads this`tree, this`option, this`lastTokenIndex
    {
      Layout.ValidEnv(Env()) && -1 <= lastTokenIndex < |tokens| && root < |tree|
    }

    /** `new PureThriftFormatter()`: the layout engine alone, with its
        default settings. */
    constructor Pure(ns: seq<Node>, toks: seq<Token>)
      requires Layout.ValidEnv(Layout.Env(ns, toks, Render.PureDefaultOption(), false, false)) && |ns| > 0
      ensures Valid() && !thrift && tree == ns && tokens == toks && root == 0
      ensures Env() == Render.PureEnv(Env()) && State() == Layout.Fresh
    {
      tree := ns;
      tokens := toks;
      root := 0;
      thrift := false;
      option := Render.PureDefaultOption();
      out := "";
      newlineCounter := 0;
      currentIndent := "";
      lastTokenIndex := -1;
      fieldCommentPadding := 0;
      fieldAlignByAssignPadding := 0;
      fieldAlignByFieldPaddingMap := map[];
    }

    /** `new ThriftFormatter(data)`: the parse result's document and token
        stream, with the comment and alignment hooks active. */
    constructor (ns: seq<Node>, toks: seq<Token>, document: nat)
      requires Layout.ValidEnv(Layout.Env(ns, toks, Render.PureDefaultOption(), true, false)) && document < |ns|
      ensures Valid() && thrift && tree == ns && tokens == toks && root == document
      ensures option == Render.PureDefaultOption() && State() == Layout.Fresh
    {
      tree := ns;
      tokens := toks;
      root := document;
      thrift := true;
      option := Render.PureDefaultOption();
      out := "";
      newlineCounter := 0;
      currentIndent := "";
      lastTokenIndex := -1;
      fieldCommentPadding := 0;
      fieldAlignByAssignPadding := 0;
      fieldAlignByFieldPaddingMap := map[];
    }

    /** `option(opt)`: replace the settings. */
    method SetOption(o: Option)
      requires Valid()
      modifies this`option
      ensures Valid() && option == o
    {
      option := o;
    }

    // -------------------------------------------------------------------
    // The layout engine
    // -------------------------------------------------------------------

    method Push(text: string)
      modifies this`out
      ensures out == old(out) + text
    {
      out := out + text;
    }

    /** `append`. */
    method Append(text: string)
      modifies this`out, this`newlineCounter
      ensures State() == Layout.Append(old(State()), text)
    {
      if newlineCounter > 0 {
        Push(Repeat('\n', newlineCounter));
      }
      newlineCounter := 0;
      Push(text);
    }

    /** `appendCurrentLine`. */
    method AppendCurrentLine(text: string)
      modifies this`out
      ensures State() == Layout.AppendCurrentLine(old(State()), text)
    {
      Push(text);
    }

    /** `newline(repeat)`; `newline()` is `Newline(1)`. */
    method Newline(repeat: int)
      modifies this`newlineCounter
      ensures State() == Layout.Newline(old(State()), repeat)
    {
      var diff := repeat - newlineCounter;
      if diff > 0 {
        newlineCounter := newlineCounter + diff;
      }
    }

    /** `setCurrentIndent`. */
    method SetCurrentIndent(indent: string)
      modifies this`currentIndent
      ensures State() == old(State()).(indent := indent)
    {
      currentIndent := indent;
    }

    /** `pushCurrentIndent`. */
    method PushCurrentIndent()
      modifies this`out, this`newlineCounter
      ensures State() == Layout.PushCurrentIndent(old(State()))
    {
      if |currentIndent| > 0 {
        Append(currentIndent);
      }
    }

    /** `getCurrentLine`. */
    method GetCurrentLine() returns (line: string)
      ensures line == Layout.CurrentLine(State())
    {
      if newlineCounter > 0 {
        return "";
      }
      var parts := Split(out, '\n');
      line := if parts == [] then "" else parts[|parts| - 1];
    }

    /** `padding(padding, " ")`. */
    method Padding(target: int)
      modifies this`out
      ensures State() == Layout.Padding(old(State()), target)
    {
      if target > 0 {
        var line := GetCurrentLine();
        var pad := target - |line|;
        if pad > 0 {
          AppendCurrentLine(Repeat(' ', pad));
        }
      }
    }

    // -------------------------------------------------------------------
    // Comments
    // -------------------------------------------------------------------

    /** The comment tokens from position `start` on that are still on
        `line`, as the loop of `addTailComment` collects them. */
    method ScanTailComments(start: nat, line: int) returns (comments: seq<Token>)
      requires Layout.IndexedTokens(tokens)
      ensures comments == Layout.TailScan(tokens, start, line)
    {
      comments := [];
      var i := start;
      while i < |tokens|
        invariant start <= i
        invariant comments + Layout.TailScan(tokens, i, line) == Layout.TailScan(tokens, start, line)
        decreases |tokens| - i
      {
        var token := tokens[i];
        if token.line != line {
          break;
        }
        ghost var rest := Layout.TailScan(tokens, i + 1, line);
        if token.channel == CommentChannel {
          assert Layout.TailScan(tokens, i, line) == [token] + rest;
          assert (comments + [token]) + rest == comments + ([token] + rest);
          comments := comments + [token];
        } else {
          assert Layout.TailScan(tokens, i, line) == rest;
        }
        i := i + 1;
      }
    }

    /** `addTailComment`. */
    method AddTailComment()
      requires Valid()
      modifies this`out, this`newlineCounter, this`lastTokenIndex
      ensures Valid() && State() == Layout.TailComment(Env(), old(State()))
    {
      if !option.keepComment || lastTokenIndex == -1 {
        return;
      }
      ghost var env := Env();
      ghost var st0 := State();
      var lastToken := tokens[lastTokenIndex];
      var comments := ScanTailComments(lastTokenIndex + 1, lastToken.line);
      assert comments == Layout.TailScan(env.tokens, st0.lastTokenIndex + 1, lastToken.line);
      if |comments| > 0 {
        var comment := comments[0];
        assert comment.index < |tokens|;
        WriteTailComment(comment);
        assert State() == Layout.WriteTailComment(st0, comment);
        assert Env() == env;
      }
    }

    /** The write at the end of `addTailComment`. */
    method WriteTailComment(comment: Token)
      modifies this`out, this`newlineCounter, this`lastTokenIndex
      ensures State() == Layout.WriteTailComment(old(State()), comment)
    {
      if fieldCommentPadding > 0 {
        Padding(fieldCommentPadding);
      } else {
        AppendCurrentLine(" ");
      }
      AppendCurrentLine(Trim(comment.text));
      Append("");
      lastTokenIndex := comment.index;
    }

    /** The comment tokens from position `start` on whose index is below
        `bound`, as the first loop of `addInlineComments` collects them. */
    method ScanInlineComments(start: nat, bound: int) returns (comments: seq<Token>)
      requires Layout.IndexedTokens(tokens)
      ensures comments == Layout.InlineScan(tokens, start, bound)
    {
      comments := [];
      var i := start;
      while i < |tokens|
        invariant start <= i
        invariant comments + Layout.InlineScan(tokens, i, bound) == Layout.InlineScan(tokens, start, bound)
        decreases |tokens| - i
      {
        var token := tokens[i];
        ghost var rest := Layout.InlineScan(tokens, i + 1, bound);
        if token.channel == CommentChannel && token.index < bound {
          assert Layout.InlineScan(tokens, i, bound) == [token] + rest;
          assert (comments + [token]) + rest == comments + ([token] + rest);
          comments := comments + [token];
        } else {
          assert Layout.InlineScan(tokens, i, bound) == rest;
        }
        i := i + 1;
      }
    }

    /** One comment written before terminal `n`. */
    method WriteComment(n: nat, token: Token)
      requires n < |tree|
      modifies this`out, this`newlineCounter
      ensures State() == Layout.EmitComment(tree, old(State()), n, token)
    {
      if token.index > 0 && token.ttype == MlComment {
        Newline(2);
      }
      PushCurrentIndent();
      Append(Trim(token.text));
      var lineDiff := tree[n].token.line - Layout.CommentLastLine(token);
      var isTight := token.ttype == SlComment || IsEOF(tree, n) || (0 < lineDiff && lineDiff <= 1);
      if isTight {
        Newline(1);
      } else {
        Newline(2);
      }
    }

    /** `addInlineComments`. */
    method AddInlineComments(n: nat)
      requires Valid() && n < |tree| && tree[n].kind == Terminal
      modifies this`out, this`newlineCounter, this`lastTokenIndex
      ensures State() == Layout.InlineComments(Env(), old(State()), n)
    {
      if !option.keepComment || IsFakeNode(tree[n]) {
        return;
      }
      ghost var env := Env();
      ghost var st0 := State();
      var tokenIndex := tree[n].token.index;
      var comments := ScanInlineComments(lastTokenIndex + 1, tokenIndex);
      WriteComments(n, comments);
      ghost var st1 := State();
      assert st1 == Layout.EmitComments(env.ns, st0, n, comments, |comments|);
      lastTokenIndex := tokenIndex;
      assert State() == st1.(lastTokenIndex := tokenIndex);
      assert Env() == env;
    }

    /** The loop of `addInlineComments` that writes the collected comments
        in order. */
    method WriteComments(n: nat, comments: seq<Token>)
      requires n < |tree|
      modifies this`out, this`newlineCounter
      ensures State() == Layout.EmitComments(tree, old(State()), n, comments, |comments|)
    {
      for k := 0 to |comments|
        invariant State() == Layout.EmitComments(tree, old(State()), n, comments, k)
      {
        WriteComment(n, comments[k]);
      }
    }

    /** `TerminalNode`, with the override of `ThriftFormatter` when the
        hooks are active. */
    method TerminalNode(n: nat)
      requires Valid() && n < |tree| && tree[n].kind == Terminal
      modifies this`out, this`newlineCounter, this`currentIndent, this`lastTokenIndex
      ensures State() == Layout.TerminalNode(Env(), old(State()), n)
    {
      if thrift {
        if newlineCounter > 0 {
          AddTailComment();
        }
        AddInlineComments(n);
      }
      if IsEOF(tree, n) {
        return;
      }
      PushCurrentIndent();
      SetCurrentIndent("");
      Append(tree[n].token.text);
    }

    /** `addAlignPadding`. */
    method AddAlignPadding(n: nat)
      requires Valid() && n < |tree|
      modifies this`out
      ensures State() == Layout.AddAlignPadding(Env(), old(State()), n)
    {
      assert NodeOk(tree, n);
      var p := tree[n].parent;
      if p == -1 || !IsFieldOrEnumField(tree[p].kind) {
        return;
      }
      if option.alignByField && fieldAlignByFieldPaddingMap != map[] {
        var name := GetFieldChildName(tree, n);
        if name in fieldAlignByFieldPaddingMap && fieldAlignByFieldPaddingMap[name] > 0 {
          Padding(fieldAlignByFieldPaddingMap[name]);
        }
        return;
      }
      if option.alignByAssign && IsToken(tree, n, "=") {
        Padding(fieldAlignByAssignPadding);
        return;
      }
    }

    // -------------------------------------------------------------------
    // The tree walk
    // -------------------------------------------------------------------

    /** `processNode`: the alignment padding when the hooks are active,
        then the handler of the node's kind. */
    method ProcessNode(n: nat)
      requires Valid() && n < |tree|
      modifies this`out, this`newlineCounter, this`currentIndent, this`lastTokenIndex
      ensures Valid() && State() == Render.ProcessNode(Env(), old(State()), n)
      decreases |tree| - n, 3
    {
      if thrift {
        AddAlignPadding(n);
      }
      Dispatch(n);
    }

    /** `_processNode`. */
    method Dispatch(n: nat)
      requires Valid() && n < |tree|
      modifies this`out, this`newlineCounter, this`currentIndent, this`lastTokenIndex
      ensures Valid() && State() == Render.Dispatch(Env(), old(State()), n)
      decreases |tree| - n, 2
    {
      var cs := Children(tree, n);
      assert NodeOk(tree, n);
      match Render.HandlerOf(tree[n].kind, false)
      case TerminalH => TerminalNode(n);
      case BlockH =>
        ProcessBlockNodes(n, cs, "");
      case UnwrapH => ProcessNode(cs[0]);
      case InlineH(join, tight) => InlineContext(n, join, tight);
      case EmptyH =>
      case NoHandler =>
    }

    /** The strategy `genInlineContext(join, tight)` applied to `n`. */
    method InlineContext(n: nat, join: string, tight: Render.Tight)
      requires Valid() && n < |tree|
      modifies this`out, this`newlineCounter, this`currentIndent, this`lastTokenIndex
      ensures Valid() && State() == Render.Inline(Env(), old(State()), n, join, tight, |Children(tree, n)|)
      decreases |tree| - n, 1
    {
      ghost var env := Env();
      ghost var st0 := State();
      var cs := Children(tree, n);
      for i := 0 to |cs|
        invariant Valid() && Env() == env
        invariant State() == Render.Inline(env, st0, n, join, tight, i)
      {
        InlineChild(n, join, tight, i);
      }
    }

    /** One iteration of `genInlineContext`: the join when it applies,
        then child `i`. */
    method InlineChild(n: nat, join: string, tight: Render.Tight, i: nat)
      requires Valid() && n < |tree| && i < |Children(tree, n)|
      modifies this`out, this`newlineCounter, this`currentIndent, this`lastTokenIndex
      ensures Valid() && Env() == old(Env())
      ensures State() == Render.ProcessNode(Env(), if Render.JoinBefore(tree, n, join, tight, i) then Layout.Append(old(State()), join) else old(State()), Children(tree, n)[i])
      decreases |tree| - n, 0
    {
      if i > 0 && join != "" {
        if !Render.IsTight(tree, tight, n, i) {
          Append(join);
        }
      }
      ProcessNode(Children(tree, n)[i]);
    }

    /** `processBlockNodes(nodes, indent)`. */
    method ProcessBlockNodes(p: nat, nodes: seq<nat>, indent: string)
      requires Valid() && Render.Above(tree, p, nodes)
      modifies this`out, this`newlineCounter, this`currentIndent, this`lastTokenIndex
      ensures Valid() && State() == Render.BlockNodes(Env(), old(State()), p, nodes, indent, |nodes|)
      decreases |tree| - p, 1
    {
      var lastNode: nat := 0;
      for index := 0 to |nodes|
        invariant Valid()
        invariant State() == Render.BlockNodes(Env(), old(State()), p, nodes, indent, index)
        invariant index > 0 ==> lastNode == Render.Unwrap(tree, nodes[index - 1])
      {
        lastNode := BlockNode(p, nodes, indent, index, lastNode);
      }
    }

    /** The body of the loop of `processBlockNodes` for node `index`; it
        returns the node, unwrapped, as the next `lastNode`. */
    method BlockNode(p: nat, nodes: seq<nat>, indent: string, index: nat, lastNode: nat) returns (node: nat)
      requires Valid() && Render.Above(tree, p, nodes) && index < |nodes|
      requires index > 0 ==> lastNode == Render.Unwrap(tree, nodes[index - 1])
      modifies this`out, this`newlineCounter, this`currentIndent, this`lastTokenIndex
      ensures Valid() && node == Render.Unwrap(tree, nodes[index])
      ensures State() == Render.BlockStep(Env(), old(State()), p, nodes, indent, index)
      decreases |tree| - p, 0
    {
      node := GapBefore(nodes, index, lastNode);
      SetCurrentIndent(indent);
      ProcessNode(node);
      if thrift {
        AddTailComment();
      }
    }

    /** The start of that loop body: the node unwrapped, and after the first
        node the gap to the one before it requested. */
    method GapBefore(nodes: seq<nat>, index: nat, lastNode: nat) returns (node: nat)
      requires WellFormed(tree) && index < |nodes| && forall j | 0 <= j < |nodes| :: nodes[j] < |tree|
      requires index > 0 ==> lastNode == Render.Unwrap(tree, nodes[index - 1])
      modifies this`newlineCounter
      ensures node == Render.Unwrap(tree, nodes[index])
      ensures index > 0 ==> State() == Layout.Newline(old(State()), Render.BlockGap(tree, lastNode, node))
      ensures index == 0 ==> State() == old(State())
    {
      node := nodes[index];
      assert NodeOk(tree, node);
      if tree[node].kind == Header || tree[node].kind == Definition {
        node := Children(tree, node)[0];
      }
      if index > 0 {
        if NotSameClass(tree, lastNode, node) || IsNeedNewLineNode(tree[node].kind) {
          Newline(2);
        } else {
          Newline(1);
        }
      }
    }

    /** `processInlineNodes(nodes, join)`. */
    method ProcessInlineNodes(p: nat, nodes: seq<nat>, join: string)
      requires Valid() && Render.Above(tree, p, nodes)
      modifies this`out, this`newlineCounter, this`currentIndent, this`lastTokenIndex
      ensures Valid() && State() == Render.InlineNodes(Env(), old(State()), p, nodes, join, |nodes|)
      decreases |tree| - p, 1
    {
      for index := 0 to |nodes|
        invariant Valid() && State() == Render.InlineNodes(Env(), old(State()), p, nodes, join, index)
      {
        if index > 0 {
          Append(join);
        }
        ProcessNode(nodes[index]);
      }
    }

    /** `formatNode`: render `n` from an empty output and return it. */
    method FormatNode(n: nat) returns (s: string)
      requires Valid() && n < |tree|
      modifies this`out, this`newlineCounter, this`currentIndent, this`lastTokenIndex
      ensures Valid() && s == Render.FormatNode(Env(), old(State()), n) && s == out
      ensures State() == Render.ProcessNode(Env(), old(State()).(out := "", counter := 0, indent := ""), n)
    {
      out := "";
      newlineCounter := 0;
      currentIndent := "";
      ProcessNode(n);
      s := out;
    }

    // -------------------------------------------------------------------
    // Subblocks and the alignment hooks
    // -------------------------------------------------------------------

    /** `new PureThriftFormatter().formatNode(c).length()`. */
    method Measure(c: nat) returns (w: nat)
      requires Valid() && c < |tree|
      ensures w == Render.Width(Env(), c)
    {
      var f := new Formatter.Pure(tree, tokens);
      var s := f.FormatNode(c);
      w := |s|;
    }

    /** The roles and widths of the children of entry `f`. */
    method MeasureRow(f: nat) returns (row: Util.Row)
      requires Valid() && f < |tree|
      ensures row == Render.RowOf(Env(), f)
    {
      var cs := Children(tree, f);
      var roles: seq<Util.Role> := [];
      for j := 0 to |cs|
        invariant |roles| == j
        invariant forall k | 0 <= k < j :: roles[k] == Util.Role(GetFieldChildName(tree, cs[k]), Render.Width(Env(), cs[k]))
      {
        var w := Measure(cs[j]);
        roles := roles + [Util.Role(GetFieldChildName(tree, cs[j]), w)];
      }
      row := Util.Row(IsFieldOrEnumField(tree[f].kind), roles);
      assert row.roles == Render.RowOf(Env(), f).roles;
    }

    method MeasureRows(subblocks: seq<nat>) returns (rows: seq<Util.Row>)
      requires Valid() && forall j | 0 <= j < |subblocks| :: subblocks[j] < |tree|
      ensures rows == Render.RowsOf(Env(), subblocks)
    {
      rows := [];
      for j := 0 to |subblocks|
        invariant |rows| == j
        invariant forall k | 0 <= k < j :: rows[k] == Render.RowOf(Env(), subblocks[k])
      {
        var row := MeasureRow(subblocks[j]);
        rows := rows + [row];
      }
    }

    method MeasureWidths(subblocks: seq<nat>) returns (ws: seq<nat>)
      requires Valid() && forall j | 0 <= j < |subblocks| :: subblocks[j] < |tree|
      ensures ws == Render.Widths(Env(), subblocks)
    {
      ws := [];
      for j := 0 to |subblocks|
        invariant |ws| == j
        invariant forall k | 0 <= k < j :: ws[k] == Render.Width(Env(), subblocks[k])
      {
        var w := Measure(subblocks[j]);
        ws := ws + [w];
      }
    }

    /** `beforeSubblocks`; `ok` is false when the column computation
        raises. */
    method BeforeSubblocks(subblocks: seq<nat>) returns (ok: bool)
      requires Valid() && forall j | 0 <= j < |subblocks| :: subblocks[j] < |tree|
      modifies this`fieldCommentPadding, this`fieldAlignByAssignPadding, this`fieldAlignByFieldPaddingMap
      ensures Valid()
      ensures ok == Render.BeforeSubblocks(Env(), old(State()), subblocks).Ok?
      ensures ok ==> State() == Render.BeforeSubblocks(Env(), old(State()), subblocks).value
    {
      if !thrift {
        return true;
      }
      ok := Align(subblocks);
      if !ok {
        return;
      }
      CommentFallback(subblocks);
    }

    /** The alignment half of `beforeSubblocks`. */
    method Align(subblocks: seq<nat>) returns (ok: bool)
      requires Valid() && forall j | 0 <= j < |subblocks| :: subblocks[j] < |tree|
      modifies this`fieldCommentPadding, this`fieldAlignByAssignPadding, this`fieldAlignByFieldPaddingMap
      ensures ok == Render.Align(Env(), old(State()), subblocks).Ok?
      ensures ok ==> State() == Render.Align(Env(), old(State()), subblocks).value
    {
      ok := true;
      if option.alignByField {
        var rows := MeasureRows(subblocks);
        var result := Util.CalcFieldAlignByFieldPaddingMap(rows);
        if result.Err? {
          return false;
        }
        var cols := result.value;
        fieldAlignByFieldPaddingMap := map name | name in cols.paddingMap :: Layout.AddIndentPadding(option, cols.paddingMap[name]);
        fieldCommentPadding := Layout.AddIndentPadding(option, cols.comment);
      } else if option.alignByAssign {
        var result := Util.CalcFieldAlignByAssignPadding(Render.HalvesOf(Env(), subblocks));
        if result.Err? {
          return false;
        }
        var cols := result.value;
        fieldAlignByAssignPadding := Layout.AddIndentPadding(option, cols.assign);
        fieldCommentPadding := Layout.AddIndentPadding(option, cols.comment);
      }
    }

    /** The comment half of `beforeSubblocks`. */
    method CommentFallback(subblocks: seq<nat>)
      requires Valid() && forall j | 0 <= j < |subblocks| :: subblocks[j] < |tree|
      modifies this`fieldCommentPadding
      ensures State() == Render.CommentFallback(Env(), old(State()), subblocks)
    {
      if option.keepComment && fieldCommentPadding == 0 {
        var ws := MeasureWidths(subblocks);
        var commentPadding := Util.CalcSubBlocksCommentPadding(ws);
        fieldCommentPadding := Layout.AddIndentPadding(option, commentPadding);
      }
    }

    /** `afterSubblocks`. */
    method AfterSubblocks()
      modifies this`fieldCommentPadding, this`fieldAlignByAssignPadding, this`fieldAlignByFieldPaddingMap
      ensures State() == Render.AfterSubblocks(Env(), old(State()))
    {
      if thrift {
        fieldAlignByAssignPadding := 0;
        fieldAlignByFieldPaddingMap := map[];
        fieldCommentPadding := 0;
      }
    }

    /** The strategy `genSubblocksContext(start, kind)` applied to `n`;
        `ok` is false when `beforeSubblocks` raises. */
    method SubblocksContext(n: nat, start: nat, kind: Kind) returns (ok: bool)
      requires Valid() && n < |tree| && start <= |Children(tree, n)|
      modifies this`out, this`newlineCounter, this`currentIndent, this`lastTokenIndex
      modifies this`fieldCommentPadding, this`fieldAlignByAssignPadding, this`fieldAlignByFieldPaddingMap
      ensures Valid()
      ensures ok == Render.Subblocks(Env(), old(State()), n, start, kind).Ok?
      ensures ok ==> State() == Render.Subblocks(Env(), old(State()), n, start, kind).value
    {
      ghost var env := Env();
      ghost var st0 := State();
      var children := Children(tree, n);
      SubblocksHead(n, start);
      ghost var st1 := State();
      var subblocks, leftNodes := Util.SplitRepeatNodes(tree, children[start..], kind);
      Render.AboveParts(tree, n, children[start..], subblocks, leftNodes);
      ok := BeforeSubblocks(subblocks);
      if !ok {
        return;
      }
      if option.indent < 0 {
        ok := false;
        return;
      }
      ghost var st2 := State();
      AfterAlign(n, subblocks, leftNodes);
      assert Env() == env;
    }

    /** The first `start` children on one line, then a newline. */
    method SubblocksHead(n: nat, start: nat)
      requires Valid() && n < |tree| && start <= |Children(tree, n)|
      modifies this`out, this`newlineCounter, this`currentIndent, this`lastTokenIndex
      ensures Valid() && Env() == old(Env())
      ensures State() == Layout.Newline(Render.InlineNodes(Env(), old(State()), n, Children(tree, n)[..start], " ", start), 1)
    {
      var children := Children(tree, n);
      Render.AboveParts(tree, n, children, children[..start], children[start..]);
      ProcessInlineNodes(n, children[..start], " ");
      Newline(1);
    }

    /** The rest of `genSubblocksContext` once the columns are set. */
    method AfterAlign(n: nat, run: seq<nat>, rest: seq<nat>)
      requires Valid() && n < |tree| && Render.Above(tree, n, run) && Render.Above(tree, n, rest)
      requires option.indent >= 0
      modifies this`out, this`newlineCounter, this`currentIndent, this`lastTokenIndex
      modifies this`fieldCommentPadding, this`fieldAlignByAssignPadding, this`fieldAlignByFieldPaddingMap
      ensures Valid() && State() == Render.AfterAlign(Env(), old(State()), n, run, rest)
    {
      ProcessBlockNodes(n, run, Repeat(' ', option.indent));
      AfterSubblocks();
      Newline(1);
      ProcessInlineNodes(n, rest, " ");
    }

    // -------------------------------------------------------------------
    // The patch pass
    // -------------------------------------------------------------------

    /** `patchFieldRequired`. */
    method PatchFieldRequired(x: nat)
      requires WellFormed(tree) && x < |tree|
      modifies this`tree
      ensures tree == Patch.PatchFieldRequired(old(tree), x)
    {
      assert NodeOk(tree, x);
      if tree[x].kind != Field {
        return;
      }
      var p := tree[x].parent;
      if p == -1 || IsFunctionOrThrowsListNode(tree[p].kind) {
        return;
      }
      assert Patch.NeedsRequired(tree, x);
      var cs := Children(tree, x);
      var i := ScanRequired(cs);
      if i < |cs| && tree[cs[i]].kind == FieldReq {
        assert Patch.HasRequired(tree, x);
        return;
      }
      assert !Patch.HasRequired(tree, x);
      var req := |tree|;
      var fakeReq := Node(FieldReq, x, [req + 1], NoToken);
      var fakeNode := CreateFakeNode(RequiredKw, "required", req);
      Patch.InsertRequiredAt(tree, x, i);
      tree := Patch.Splice(tree, x, i, fakeReq, fakeNode);
    }

    /** The loop of `patchFieldRequired` over the children: it stops at the
        first qualifier or type. */
    method ScanRequired(cs: seq<nat>) returns (i: nat)
      requires forall j | 0 <= j < |cs| :: cs[j] < |tree|
      ensures i == Patch.RequiredScan(tree, cs)
    {
      i := 0;
      while i < |cs|
        invariant i <= |cs| && forall j | 0 <= j < i :: !Patch.IsReqOrType(tree, cs[j])
      {
        var child := cs[i];
        if tree[child].kind == FieldReq || tree[child].kind == FieldType {
          break;
        }
        i := i + 1;
      }
    }

    /** `patchFieldListSeparator`. */
    method PatchFieldListSeparator(x: nat)
      requires WellFormed(tree) && x < |tree|
      modifies this`tree
      ensures tree == Patch.PatchFieldListSeparator(old(tree), x)
    {
      var kind := tree[x].kind;
      if !(kind == EnumField || kind == Field || kind == Function) {
        return;
      }
      ghost var ns := tree;
      var cs := Children(tree, x);
      if |cs| > 0 && tree[cs[|cs| - 1]].kind == ListSeparator {
        assert Patch.EndsWithSeparator(ns, x);
        var child := cs[|cs| - 1];
        assert NodeOk(tree, child);
        var comma := tree[child].children[0];
        assert comma == Patch.SeparatorTerminal(ns, x);
        tree := Patch.SetText(tree, comma, ",");
      } else {
        assert !Patch.EndsWithSeparator(ns, x);
        tree := Patch.AppendSeparator(tree, x);
      }
    }

    /** `patchRemoveLastListSeparator`, with its sibling test as written. */
    method PatchRemoveLastListSeparator(x: nat)
      requires WellFormed(tree) && x < |tree|
      modifies this`tree
      ensures tree == Patch.PatchRemoveLastAsWritten(old(tree), x)
    {
      assert NodeOk(tree, x);
      var p := tree[x].parent;
      var isInlineField := tree[x].kind == Field && p != -1 && IsFunctionOrThrowsListNode(tree[p].kind);
      var isInlineNode := tree[x].kind == TypeAnnotation;
      if !(isInlineField || isInlineNode) {
        return;
      }
      if p == -1 {
        return;
      }
      var last := IsLastSibling(x);
      if last {
        var cs := Children(tree, x);
        if |cs| > 0 && tree[cs[|cs| - 1]].kind == ListSeparator {
          tree := Patch.DropLastChild(tree, x);
        }
      }
    }

    /** The sibling scan of `patchRemoveLastListSeparator`, as written: it
        stops at `x` when `x` is the final child or the next sibling is of
        the same class. */
    method IsLastSibling(x: nat) returns (last: bool)
      requires WellFormed(tree) && x < |tree| && tree[x].parent != -1
      ensures last == Patch.IsLastAsWritten(tree, x)
    {
      assert NodeOk(tree, x);
      var brothers := Children(tree, tree[x].parent);
      last := false;
      var i := 0;
      while i < |brothers|
        invariant i <= |brothers| && !last
        invariant forall j | 0 <= j < i :: !(brothers[j] == x && (j == |brothers| - 1 || !NotSameClass(tree, x, brothers[j + 1])))
      {
        if brothers[i] == x {
          if i == |brothers| - 1 || !NotSameClass(tree, x, brothers[i + 1]) {
            last := true;
            assert Patch.IsLastAsWritten(tree, x) by {
              assert 0 <= i < |brothers| && brothers[i] == x;
            }
            return;
          }
        }
        i := i + 1;
      }
      assert brothers == Children(tree, tree[x].parent);
      assert forall j | 0 <= j < |brothers| :: !(brothers[j] == x && (j == |brothers| - 1 || !NotSameClass(tree, x, brothers[j + 1])));
    }

    /** The callback `walkNode` is given. */
    method Visit(step: Patch.Step, x: nat)
      requires Valid() && x < |tree|
      modifies this`tree
      ensures Valid() && tree == Patch.Apply(step, old(tree), x)
    {
      ghost var env := Env();
      match step {
        case RequiredStep => PatchFieldRequired(x);
        case SeparatorStep => PatchFieldListSeparator(x);
        case RemoveStep => PatchRemoveLastListSeparator(x);
      }
      assert tree == Patch.Apply(step, env.ns, x);
      StepKeepsValidEnv(env, tree, x);
    }

    /** `walkNode(document, callback)`: a breadth-first walk from the
        document that visits a node, then queues its children as the
        visit left them. `order` is the sequence of visits. */
    method WalkNode(step: Patch.Step) returns (ghost order: seq<nat>)
      requires Valid()
      modifies this`tree
      ensures Valid() && tree == Patch.ApplySteps(step, old(tree), order)
      ensures Patch.WalkSeen(tree, root, order, order)
      ensures forall i, j | 0 <= i < |order| && 0 <= j < |tree[order[i]].children| :: tree[order[i]].children[j] in order
    {
      var queue: seq<nat> := [root];
      order := [];
      ghost var seen: seq<nat> := [root];
      while queue != []
        invariant Valid() && tree == Patch.ApplySteps(step, old(tree), order)
        invariant seen == order + queue && Patch.WalkSeen(tree, root, order, seen)
        decreases |Patch.UnvisitedInsert(tree, order)|, |Patch.Unvisited(tree, order)|
      {
        ghost var queued := queue;
        var node := queue[0];
        queue := queue[1..];
        Patch.QueueShift(seen, order, queued, []);
        ghost var before := tree;
        Visit(step, node);
        Patch.WalkAdvance(step, old(tree), before, tree, root, order, seen);
        var children := tree[node].children;
        Patch.QueueShift(seen, order, queued, children);
        order := order + [node];
        queue := queue + children;
        seen := seen + children;
      }
      Patch.WalkCloses(tree, root, order);
    }

    /** `patch`: the required walk when `patchRequired` is set, then the
        separator walk and the removal walk when `patchSeparator` is set. */
    method PatchDocument()
      requires Valid()
      modifies this`tree
      ensures Valid()
      ensures !option.patchRequired && !option.patchSeparator ==> tree == old(tree)
    {
      if option.patchRequired {
        var _ := WalkNode(Patch.RequiredStep);
      }
      if option.patchSeparator {
        var _ := WalkNode(Patch.SeparatorStep);
        var _ := WalkNode(Patch.RemoveStep);
      }
    }

    /** `format`: patch the document, then render it from an empty output. */
    method Format() returns (s: string)
      requires Valid()
      modifies this`tree, this`out, this`newlineCounter, this`currentIndent, this`lastTokenIndex
      ensures Valid() && s == Render.FormatNode(Env(), old(State()), root)
      ensures !old(option.patchRequired) && !old(option.patchSeparator) ==> tree == old(tree)
    {
      PatchDocument();
      s := FormatNode(root);
    }
  }

  /** A patch visit keeps the token of every terminal read from the source,
      and only adds fake terminals. */
  lemma StepKeepsValidEnv(env: Layout.Env, r: seq<Node>, x: nat)
    requires Layout.ValidEnv(env) && x < |env.ns| && WellFormed(r) && Patch.StepFrame(env.ns, r, x)
    ensures Layout.ValidEnv(env.(ns := r))
  {
  }
}
