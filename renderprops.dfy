/**
  Properties of the layout engine and of the rendering walk: how pending
  newlines combine, what padding reaches, which comments the scans pick
  up, what the join strategies write, and the include rule.
 */
module RenderProps {
  import opened Tree
  import opened Options
  import opened JavaString
  import opened Layout
  import opened Render
  import Util
  import opened Errors

  // ---------------------------------------------------------------------
  // The layout engine
  // ---------------------------------------------------------------------

  /** Requests for pending newlines combine to the largest of them, in
      either order. */
  lemma NewlinesCoalesce(st: State, a: int, b: int)
    ensures Newline(Newline(st, a), b) == Newline(st, if a > b then a else b)
    ensures Newline(Newline(st, a), b) == Newline(Newline(st, b), a)
  {
  }

  /** Once flushed, pending newlines are gone: a second append writes no
      newline before its text. */
  lemma AppendFlushesOnce(st: State, a: string, b: string)
    ensures Append(Append(st, a), b).out == st.out + Repeat('\n', st.counter) + a + b
  {
  }

  /** With no newline pending and the line not ended by a newline, padding
      brings the current line to exactly the target column. */
  lemma PaddingReachesColumn(st: State, target: int)
    requires st.counter == 0 && (st.out == "" || st.out[|st.out| - 1] != '\n')
    requires target > |CurrentLine(st)|
    ensures |CurrentLine(Padding(st, target))| == target
  {
    var pad := Repeat(' ', target - |CurrentLine(st)|);
    assert '\n' !in pad;
    LastPartExtend(st.out, pad);
  }

  /** Padding never goes back: when the line is already at or past the
      target, nothing is written. */
  lemma PaddingPastColumn(st: State, target: int)
    requires target <= |CurrentLine(st)|
    ensures Padding(st, target) == st
  {
  }

  // ---------------------------------------------------------------------
  // The comment scans
  // ---------------------------------------------------------------------

  /** The first comment the tail scan finds is the first comment-channel
      token after position `i`, and every token before it from `i` on is on
      the same line; an empty scan means no comment before the line ends. */
  lemma {:induction false} TailScanFirst(tokens: seq<Token>, i: nat, line: int)
    requires IndexedTokens(tokens)
    ensures var r := TailScan(tokens, i, line);
            r != [] ==>
              (tokens[r[0].index].line == line
               && forall j | i <= j < r[0].index :: tokens[j].line == line && tokens[j].channel != CommentChannel)
    ensures TailScan(tokens, i, line) == [] ==>
              forall j | i <= j < |tokens| && tokens[j].channel == CommentChannel ::
                exists m | i <= m <= j :: tokens[m].line != line
    decreases |tokens| - i
  {
    if i < |tokens| && tokens[i].line == line && tokens[i].channel != CommentChannel {
      TailScanFirst(tokens, i + 1, line);
      var r := TailScan(tokens, i + 1, line);
      if r == [] {
        forall j | i <= j < |tokens| && tokens[j].channel == CommentChannel
          ensures exists m | i <= m <= j :: tokens[m].line != line
        {
          var m :| i + 1 <= m <= j && tokens[m].line != line;
        }
      }
    } else if i < |tokens| && tokens[i].line != line {
      forall j | i <= j < |tokens| && tokens[j].channel == CommentChannel
        ensures exists m | i <= m <= j :: tokens[m].line != line
      {
        assert tokens[i].line != line;
      }
    }
  }

  predicate IncreasingIndices(r: seq<Token>) {
    forall a, b | 0 <= a < b < |r| :: r[a].index < r[b].index
  }

  /** The inline scan keeps stream order. */
  lemma {:induction false} InlineScanOrdered(tokens: seq<Token>, i: nat, bound: int)
    requires IndexedTokens(tokens)
    ensures IncreasingIndices(InlineScan(tokens, i, bound))
    decreases |tokens| - i
  {
    if i < |tokens| {
      InlineScanOrdered(tokens, i + 1, bound);
      var rest := InlineScan(tokens, i + 1, bound);
      if tokens[i].channel == CommentChannel && tokens[i].index < bound {
        var r := [tokens[i]] + rest;
        assert InlineScan(tokens, i, bound) == r;
        assert tokens[i].index == i;
        forall a, b | 0 <= a < b < |r| ensures r[a].index < r[b].index {
          assert r[b] == rest[b - 1];
          assert i + 1 <= rest[b - 1].index;
          if a > 0 {
            assert r[a] == rest[a - 1];
          }
        }
      }
    }
  }

  /** The inline scan misses no comment-channel token from position `i` on
      whose index is below `bound`. */
  lemma {:induction false} InlineScanComplete(tokens: seq<Token>, i: nat, bound: int, j: nat)
    requires IndexedTokens(tokens)
    requires i <= j < |tokens| && j < bound && tokens[j].channel == CommentChannel
    ensures tokens[j] in InlineScan(tokens, i, bound)
    decreases j - i
  {
    if i < j {
      InlineScanComplete(tokens, i + 1, bound, j);
    }
  }

  // ---------------------------------------------------------------------
  // Rendering without the hooks depends only on the node
  // ---------------------------------------------------------------------

  /** Two states with the same pending newlines and indent. */
  predicate SameCursor(a: State, b: State) {
    a.counter == b.counter && a.indent == b.indent
  }

  /** The text a rendering step added to the output. */
  function Added(st: State, r: State): string
    requires st.out <= r.out
  {
    r.out[|st.out|..]
  }

  lemma AddedTrans(a: State, b: State, c: State)
    requires a.out <= b.out <= c.out
    ensures Added(a, c) == Added(a, b) + Added(b, c)
  {
  }

  lemma AppendPure(p1: State, p2: State, j: bool, join: string)
    requires SameCursor(p1, p2)
    ensures var t1 := if j then Append(p1, join) else p1;
            var t2 := if j then Append(p2, join) else p2;
            p1.out <= t1.out && p2.out <= t2.out && SameCursor(t1, t2) && Added(p1, t1) == Added(p2, t2)
  {
  }

  /** Three steps that add the same text add the same text together. */
  lemma StepsPure(s1: State, p1: State, t1: State, r1: State, s2: State, p2: State, t2: State, r2: State)
    requires s1.out <= p1.out <= t1.out <= r1.out && s2.out <= p2.out <= t2.out <= r2.out
    requires Added(s1, p1) == Added(s2, p2) && Added(p1, t1) == Added(p2, t2) && Added(t1, r1) == Added(t2, r2)
    ensures Added(s1, r1) == Added(s2, r2)
  {
    AddedTrans(s1, p1, t1);
    AddedTrans(s2, p2, t2);
    AddedTrans(s1, t1, r1);
    AddedTrans(s2, t2, r2);
  }

  /** Without the hooks, what a node writes and the cursor it leaves depend
      only on the pending newlines and the indent it starts from. */
  lemma {:induction false} ProcessNodePure(env: Env, s1: State, s2: State, n: nat)
    requires ValidEnv(env) && !env.thrift && n < |env.ns|
    requires ValidState(env, s1) && ValidState(env, s2) && SameCursor(s1, s2)
    ensures SameCursor(ProcessNode(env, s1, n), ProcessNode(env, s2, n))
    ensures Added(s1, ProcessNode(env, s1, n)) == Added(s2, ProcessNode(env, s2, n))
    decreases |env.ns| - n, 3, 0
  {
    DispatchPure(env, s1, s2, n);
  }

  /** Without the hooks, a terminal adds the same text from any two
      states with the same pending newlines and indent. */
  lemma TerminalPure(env: Env, s1: State, s2: State, n: nat)
    requires ValidEnv(env) && !env.thrift && n < |env.ns| && env.ns[n].kind == Terminal
    requires ValidState(env, s1) && ValidState(env, s2) && SameCursor(s1, s2)
    ensures SameCursor(TerminalNode(env, s1, n), TerminalNode(env, s2, n))
    ensures Added(s1, TerminalNode(env, s1, n)) == Added(s2, TerminalNode(env, s2, n))
  {
    if !IsEOF(env.ns, n) {
      var text := Repeat('\n', s1.counter) + s1.indent + env.ns[n].token.text;
      ConcatAssoc(s1.out, Repeat('\n', s1.counter), s1.indent);
      ConcatAssoc(s1.out, Repeat('\n', s1.counter) + s1.indent, env.ns[n].token.text);
      ConcatAssoc(s2.out, Repeat('\n', s2.counter), s2.indent);
      ConcatAssoc(s2.out, Repeat('\n', s2.counter) + s2.indent, env.ns[n].token.text);
      assert TerminalNode(env, s1, n).out == s1.out + text;
      assert TerminalNode(env, s2, n).out == s2.out + text;
    }
  }

  lemma {:induction false} DispatchPure(env: Env, s1: State, s2: State, n: nat)
    requires ValidEnv(env) && !env.thrift && n < |env.ns|
    requires ValidState(env, s1) && ValidState(env, s2) && SameCursor(s1, s2)
    ensures SameCursor(Dispatch(env, s1, n), Dispatch(env, s2, n))
    ensures Added(s1, Dispatch(env, s1, n)) == Added(s2, Dispatch(env, s2, n))
    decreases |env.ns| - n, 2, 0
  {
    var cs := Children(env.ns, n);
    assert NodeOk(env.ns, n);
    match HandlerOf(env.ns[n].kind, env.spacedInclude)
    case TerminalH =>
      assert Dispatch(env, s1, n) == TerminalNode(env, s1, n);
      assert Dispatch(env, s2, n) == TerminalNode(env, s2, n);
      TerminalPure(env, s1, s2, n);
    case BlockH => BlockNodesPure(env, s1, s2, n, cs, "", |cs|);
    case UnwrapH => ProcessNodePure(env, s1, s2, cs[0]);
    case InlineH(join, tight) => InlinePure(env, s1, s2, n, join, tight, |cs|);
    case EmptyH =>
    case NoHandler =>
  }

  lemma {:induction false} InlinePure(env: Env, s1: State, s2: State, n: nat, join: string, tight: Tight, k: nat)
    requires ValidEnv(env) && !env.thrift && n < |env.ns| && k <= |Children(env.ns, n)|
    requires ValidState(env, s1) && ValidState(env, s2) && SameCursor(s1, s2)
    ensures SameCursor(Inline(env, s1, n, join, tight, k), Inline(env, s2, n, join, tight, k))
    ensures Added(s1, Inline(env, s1, n, join, tight, k)) == Added(s2, Inline(env, s2, n, join, tight, k))
    decreases |env.ns| - n, 1, k
  {
    if k > 0 {
      InlinePure(env, s1, s2, n, join, tight, k - 1);
      var p1 := Inline(env, s1, n, join, tight, k - 1);
      var p2 := Inline(env, s2, n, join, tight, k - 1);
      var j := JoinBefore(env.ns, n, join, tight, k - 1);
      var t1 := if j then Append(p1, join) else p1;
      var t2 := if j then Append(p2, join) else p2;
      AppendPure(p1, p2, j, join);
      var c := Children(env.ns, n)[k - 1];
      var r1 := ProcessNode(env, t1, c);
      var r2 := ProcessNode(env, t2, c);
      assert Inline(env, s1, n, join, tight, k) == r1;
      assert Inline(env, s2, n, join, tight, k) == r2;
      ProcessNodePure(env, t1, t2, c);
      StepsPure(s1, p1, t1, r1, s2, p2, t2, r2);
    }
  }

  lemma {:induction false} BlockNodesPure(env: Env, s1: State, s2: State, p: nat, nodes: seq<nat>, indent: string, k: nat)
    requires ValidEnv(env) && !env.thrift && Above(env.ns, p, nodes) && k <= |nodes|
    requires ValidState(env, s1) && ValidState(env, s2) && SameCursor(s1, s2)
    ensures SameCursor(BlockNodes(env, s1, p, nodes, indent, k), BlockNodes(env, s2, p, nodes, indent, k))
    ensures Added(s1, BlockNodes(env, s1, p, nodes, indent, k)) == Added(s2, BlockNodes(env, s2, p, nodes, indent, k))
    decreases |env.ns| - p, 1, k
  {
    if k > 0 {
      BlockNodesPure(env, s1, s2, p, nodes, indent, k - 1);
      var p1 := BlockNodes(env, s1, p, nodes, indent, k - 1);
      var p2 := BlockNodes(env, s2, p, nodes, indent, k - 1);
      var node := Unwrap(env.ns, nodes[k - 1]);
      var t1 := (if k - 1 > 0 then Newline(p1, BlockGap(env.ns, Unwrap(env.ns, nodes[k - 2]), node)) else p1).(indent := indent);
      var t2 := (if k - 1 > 0 then Newline(p2, BlockGap(env.ns, Unwrap(env.ns, nodes[k - 2]), node)) else p2).(indent := indent);
      ProcessNodePure(env, t1, t2, node);
      AddedTrans(s1, t1, ProcessNode(env, t1, node));
      AddedTrans(s2, t2, ProcessNode(env, t2, node));
    }
  }

  /** `formatNode` on its own: without the hooks, the text of a node does
      not depend on what the formatter wrote or held before. */
  lemma FormatNodeDependsOnlyOnNode(env: Env, s1: State, s2: State, n: nat)
    requires ValidEnv(env) && !env.thrift && n < |env.ns|
    requires ValidState(env, s1) && ValidState(env, s2)
    ensures FormatNode(env, s1, n) == FormatNode(env, s2, n)
  {
    var t1 := s1.(out := "", counter := 0, indent := "");
    var t2 := s2.(out := "", counter := 0, indent := "");
    ProcessNodePure(env, t1, t2, n);
  }

  // ---------------------------------------------------------------------
  // The inline join rule
  // ---------------------------------------------------------------------

  /** Children that are terminals read from the source, other than the end
      of file. */
  predicate PlainTerminals(ns: seq<Node>, n: nat)
    requires WellFormed(ns) && n < |ns|
  {
    forall j | 0 <= j < |Children(ns, n)| ::
      ns[Children(ns, n)[j]].kind == Terminal && !IsEOF(ns, Children(ns, n)[j])
  }

  /** The texts of the first `k` children, with the join written where
      `JoinBefore` holds. */
  function JoinedTexts(ns: seq<Node>, n: nat, join: string, tight: Tight, k: nat): string
    requires WellFormed(ns) && n < |ns| && k <= |Children(ns, n)|
  {
    if k == 0 then ""
    else
      JoinedTexts(ns, n, join, tight, k - 1)
      + (if JoinBefore(ns, n, join, tight, k - 1) then join else "")
      + ns[Children(ns, n)[k - 1]].token.text
  }

  /** Over terminal children, starting on a fresh line with no indent, the
      inline strategy writes exactly the joined texts. */
  lemma {:induction false} InlineOfTerminals(env: Env, st: State, n: nat, join: string, tight: Tight, k: nat)
    requires ValidEnv(env) && !env.thrift && ValidState(env, st) && n < |env.ns|
    requires k <= |Children(env.ns, n)| && PlainTerminals(env.ns, n)
    requires st.counter == 0 && st.indent == ""
    ensures InlineWrote(env, st, n, join, tight, k)
  {
    if k > 0 {
      InlineOfTerminals(env, st, n, join, tight, k - 1);
      InlineTerminalStep(env, st, n, join, tight, k);
    }
  }

  /** The inline strategy over the first `k` children wrote their joined
      texts and left no newline pending and no indent. */
  predicate InlineWrote(env: Env, st: State, n: nat, join: string, tight: Tight, k: nat)
    requires ValidEnv(env) && ValidState(env, st) && n < |env.ns| && k <= |Children(env.ns, n)|
  {
    var r := Inline(env, st, n, join, tight, k);
    r.out == st.out + JoinedTexts(env.ns, n, join, tight, k) && r.counter == 0 && r.indent == ""
  }

  lemma InlineTerminalStep(env: Env, st: State, n: nat, join: string, tight: Tight, k: nat)
    requires ValidEnv(env) && !env.thrift && ValidState(env, st) && n < |env.ns|
    requires 0 < k <= |Children(env.ns, n)| && PlainTerminals(env.ns, n)
    requires st.counter == 0 && st.indent == ""
    requires InlineWrote(env, st, n, join, tight, k - 1)
    ensures InlineWrote(env, st, n, join, tight, k)
  {
    var ns := env.ns;
    var prev := Inline(env, st, n, join, tight, k - 1);
    var jb := JoinBefore(ns, n, join, tight, k - 1);
    var J := JoinedTexts(ns, n, join, tight, k - 1);
    var sep := if jb then join else "";
    var t := if jb then Append(prev, join) else prev;
    AppendOnFreshLine(prev, join);
    var c := Children(ns, n)[k - 1];
    var text := ns[c].token.text;
    assert ns[c].kind == Terminal && !IsEOF(ns, c);
    TerminalWritesText(env, t, c);
    assert Inline(env, st, n, join, tight, k) == ProcessNode(env, t, c);
    assert JoinedTexts(ns, n, join, tight, k) == J + sep + text;
    ConcatAssoc(st.out, J, sep);
    ConcatAssoc(st.out, J + sep, text);
  }

  /** Without the hooks, on a fresh line with no indent, a terminal writes
      its text and nothing else. */
  lemma TerminalWritesText(env: Env, t: State, c: nat)
    requires ValidEnv(env) && !env.thrift && ValidState(env, t) && c < |env.ns|
    requires env.ns[c].kind == Terminal && !IsEOF(env.ns, c)
    requires t.counter == 0 && t.indent == ""
    ensures ProcessNode(env, t, c).out == t.out + env.ns[c].token.text
    ensures ProcessNode(env, t, c).counter == 0 && ProcessNode(env, t, c).indent == ""
  {
    assert ProcessNode(env, t, c) == TerminalNode(env, t, c);
    assert Repeat('\n', 0) == "";
  }

  /** A map type writes a space before a child only after a `,` sibling. */
  lemma MapTypeSpacing(ns: seq<Node>, n: nat, i: nat)
    requires WellFormed(ns) && n < |ns| && i < |Children(ns, n)|
    requires ns[n].kind == MapType
    ensures HandlerOf(ns[n].kind, false) == InlineH(" ", MapTight)
    ensures JoinBefore(ns, n, " ", MapTight, i) <==> i > 0 && IsToken(ns, Children(ns, n)[i - 1], ",")
  {
  }

  /** The list-separator strategy writes no space before a separator. */
  lemma ListSeparatorSpacing(ns: seq<Node>, n: nat, i: nat)
    requires WellFormed(ns) && n < |ns| && i < |Children(ns, n)|
    ensures JoinBefore(ns, n, " ", ListSeparatorTight, i) <==>
              i > 0 && ns[Children(ns, n)[i]].kind != ListSeparator
  {
  }

  /** The tuple strategy writes no space before `(`, `)` or a separator, nor
      after `(`. */
  lemma TupleSpacing(ns: seq<Node>, n: nat, i: nat)
    requires WellFormed(ns) && n < |ns| && i < |Children(ns, n)|
    ensures var cs := Children(ns, n);
            JoinBefore(ns, n, " ", TupleTight, i) <==>
              i > 0 && !IsToken(ns, cs[i], "(") && !IsToken(ns, cs[i], ")")
              && !IsToken(ns, cs[i - 1], "(") && ns[cs[i]].kind != ListSeparator
  {
  }

  /** Kinds whose handler is empty or missing write nothing of their own:
      only the alignment padding before them, when the hooks are active. */
  lemma SilentKindsWriteNothing(env: Env, st: State, n: nat)
    requires ValidEnv(env) && ValidState(env, st) && n < |env.ns|
    requires HandlerOf(env.ns[n].kind, env.spacedInclude) == EmptyH || HandlerOf(env.ns[n].kind, env.spacedInclude) == NoHandler
    ensures ProcessNode(env, st, n) == if env.thrift then AddAlignPadding(env, st, n) else st
  {
  }

  /** In particular the halves of a split field, which are field or enum
      field nodes, have width 0. */
  lemma FieldHalvesHaveNoWidth(env: Env, n: nat)
    requires ValidEnv(env) && n < |env.ns| && IsFieldOrEnumField(env.ns[n].kind)
    ensures Width(env, n) == 0
  {
    SilentKindsWriteNothing(PureEnv(env), Fresh, n);
  }

  // ---------------------------------------------------------------------
  // The include rule
  // ---------------------------------------------------------------------

  /** The parse tree of an include line such as `include        "shared.thrift"`,
      with `kw` the keyword's text and `path` the quoted path: the document,
      a header holding the include, its two terminals, and the end of file. */
  function IncludeDocument(kw: string, path: string): (ns: seq<Node>)
    ensures WellFormed(ns) && |ns| == 6
  {
    var ns := [
      Node(Document, -1, [1, 5], NoToken),
      Node(Header, 0, [2], NoToken),
      Node(Include, 1, [3, 4], NoToken),
      Node(Terminal, 2, [], Token(OtherType, kw, 1, DefaultChannel, 0)),
      Node(Terminal, 2, [], Token(OtherType, path, 1, DefaultChannel, 2)),
      Node(Terminal, 0, [], Token(Eof, "<EOF>", 1, DefaultChannel, 3))];
    forall k | 0 <= k < |ns| ensures NodeOk(ns, k) {
      IncludeDocumentNodeOk(ns, k);
    }
    ns
  }

  lemma IncludeDocumentNodeOk(ns: seq<Node>, k: nat)
    requires |ns| == 6 && k < 6
    requires ns[0] == Node(Document, -1, [1, 5], NoToken)
    requires ns[1] == Node(Header, 0, [2], NoToken) && ns[2] == Node(Include, 1, [3, 4], NoToken)
    requires forall j | 3 <= j < 6 :: ns[j].kind == Terminal && ns[j].children == []
    requires ns[3].parent == 2 && ns[4].parent == 2 && ns[5].parent == 0
    ensures NodeOk(ns, k)
  {
  }

  /** The token stream of the same line: the spaces are a hidden token. */
  function IncludeTokens(kw: string, path: string): seq<Token> {
    [Token(OtherType, kw, 1, DefaultChannel, 0),
     Token(OtherType, "        ", 1, HiddenChannel, 1),
     Token(OtherType, path, 1, DefaultChannel, 2),
     Token(Eof, "<EOF>", 1, DefaultChannel, 3)]
  }

  /** The layout engine alone, with its own default settings, and the
      include rule as written (`spaced` false) or with the space its unit
      test expects (`spaced` true). */
  function IncludeEnv(kw: string, path: string, spaced: bool): (env: Env)
    ensures ValidEnv(env) && !env.thrift && env.spacedInclude == spaced
  {
    var env := Env(IncludeDocument(kw, path), IncludeTokens(kw, path), NewOption(4, true, true, true, false, false), false, spaced);
    assert IndexedTokens(env.tokens);
    env
  }

  /** The shape of the include document that the lemmas below use. */
  lemma IncludeFacts(kw: string, path: string, spaced: bool)
    ensures var ns := IncludeEnv(kw, path, spaced).ns;
            Children(ns, 0) == [1, 5] && Children(ns, 1) == [2] && Children(ns, 2) == [3, 4]
            && PlainTerminals(ns, 2) && IsEOF(ns, 5) && ns[5].kind == Terminal
            && ns[1].kind == Header && ns[2].kind == Include
            && ns[3].token.text == kw && ns[4].token.text == path
  {
    var ns := IncludeEnv(kw, path, spaced).ns;
    assert ns == IncludeDocument(kw, path);
    assert Children(ns, 2) == [3, 4];
  }

  /** The joined texts of two children. */
  lemma JoinedTextsOfTwo(ns: seq<Node>, n: nat, join: string, tight: Tight)
    requires WellFormed(ns) && n < |ns| && |Children(ns, n)| == 2
    ensures JoinedTexts(ns, n, join, tight, 2)
            == ns[Children(ns, n)[0]].token.text
               + (if JoinBefore(ns, n, join, tight, 1) then join else "")
               + ns[Children(ns, n)[1]].token.text
  {
    assert !JoinBefore(ns, n, join, tight, 0);
    assert JoinedTexts(ns, n, join, tight, 1) == "" + "" + ns[Children(ns, n)[0]].token.text;
  }

  /** The join of the include rule: empty as written, one space as its unit
      test expects. */
  function IncludeJoin(spaced: bool): string {
    if spaced then " " else ""
  }

  /** The include node writes the keyword, the rule's join and the path:
      as written the keyword is glued to the path. */
  lemma IncludeRenders(kw: string, path: string, spaced: bool)
    ensures HandlerOf(Include, spaced) == InlineH(IncludeJoin(spaced), NoTight)
    ensures ProcessNode(IncludeEnv(kw, path, spaced), Fresh, 2).out == kw + IncludeJoin(spaced) + path
  {
    var env := IncludeEnv(kw, path, spaced);
    IncludeInlineText(kw, path, spaced);
    assert ProcessNode(env, Fresh, 2) == Inline(env, Fresh, 2, IncludeJoin(spaced), NoTight, 2);
  }

  /** The two children of the include node, joined by the rule's join. */
  lemma IncludeInlineText(kw: string, path: string, spaced: bool)
    ensures Inline(IncludeEnv(kw, path, spaced), Fresh, 2, IncludeJoin(spaced), NoTight, 2).out == kw + IncludeJoin(spaced) + path
  {
    var env := IncludeEnv(kw, path, spaced);
    var join := IncludeJoin(spaced);
    IncludeFacts(kw, path, spaced);
    assert JoinBefore(env.ns, 2, join, NoTight, 1) == (join != "");
    JoinedTextsOfTwo(env.ns, 2, join, NoTight);
    InlineOfTerminals(env, Fresh, 2, join, NoTight, 2);
    assert "" + (kw + (if join != "" then join else "") + path) == kw + join + path;
  }

  /** The whole document renders as the include line alone: the end of
      file only leaves two newlines pending. */
  lemma IncludeFormats(kw: string, path: string, spaced: bool)
    ensures FormatNode(IncludeEnv(kw, path, spaced), Fresh, 0) == kw + IncludeJoin(spaced) + path
  {
    var env := IncludeEnv(kw, path, spaced);
    var ns := env.ns;
    IncludeRenders(kw, path, spaced);
    IncludeFacts(kw, path, spaced);
    assert Unwrap(ns, 1) == 2 && Unwrap(ns, 5) == 5;
    var nodes := [1, 5];
    var first := BlockNodes(env, Fresh, 0, nodes, "", 1);
    assert BlockNodes(env, Fresh, 0, nodes, "", 0) == Fresh;
    assert Unwrap(ns, nodes[0]) == 2;
    assert Fresh.(indent := "") == Fresh;
    assert first == BlockStep(env, Fresh, 0, nodes, "", 0);
    assert first == ProcessNode(env, Fresh.(indent := ""), 2);
    assert first == ProcessNode(env, Fresh, 2);
    var gap := Newline(first, BlockGap(ns, 2, 5)).(indent := "");
    assert ProcessNode(env, gap, 5) == gap;
    assert BlockStep(env, first, 0, nodes, "", 1) == gap;
    assert BlockNodes(env, Fresh, 0, [1, 5], "", 2) == gap;
    assert ProcessNode(env, Fresh, 0) == BlockNodes(env, Fresh, 0, [1, 5], "", 2);
  }

  /** The two renderings of one include document, named by their texts. */
  lemma IncludeInstance(kw: string, path: string, spaced: string, glued: string)
    requires spaced == kw + " " + path && glued == kw + path
    ensures FormatNode(IncludeEnv(kw, path, false), Fresh, 0) == glued
    ensures FormatNode(IncludeEnv(kw, path, true), Fresh, 0) == spaced
  {
    IncludeFormats(kw, path, false);
    IncludeFormats(kw, path, true);
    assert kw + "" + path == kw + path;
  }

  lemma IncludeTexts()
    ensures "include" + " " + "\"shared.thrift\"" == "include \"shared.thrift\""
    ensures "include" + "\"shared.thrift\"" == "include\"shared.thrift\""
  {
  }

  /** The layout engine's unit test, `include        "shared.thrift"`, as
      written: the document formats as `include"shared.thrift"`, not as the
      `include "shared.thrift"` the test expects. */
  lemma SharedThriftIncludeAsWritten()
    ensures FormatNode(IncludeEnv("include", "\"shared.thrift\"", false), Fresh, 0) == "include\"shared.thrift\""
  {
    IncludeTexts();
    IncludeInstance("include", "\"shared.thrift\"", "include \"shared.thrift\"", "include\"shared.thrift\"");
  }

  /** The same test with the include rule joining by one space: the
      document formats as `include "shared.thrift"`, as the test expects. */
  lemma SharedThriftInclude()
    ensures FormatNode(IncludeEnv("include", "\"shared.thrift\"", true), Fresh, 0) == "include \"shared.thrift\""
  {
    IncludeTexts();
    IncludeInstance("include", "\"shared.thrift\"", "include \"shared.thrift\"", "include\"shared.thrift\"");
  }

  // ---------------------------------------------------------------------
  // The block and inline strategies over terminals
  // ---------------------------------------------------------------------

  /** Nodes that are terminals other than the end of file. */
  predicate PlainNodes(ns: seq<Node>, nodes: seq<nat>) {
    forall j | 0 <= j < |nodes| :: nodes[j] < |ns| && ns[nodes[j]].kind == Terminal && !IsEOF(ns, nodes[j])
  }

  /** On a line with no newline pending, appending is plain
      concatenation. */
  lemma AppendOnFreshLine(st: State, text: string)
    requires st.counter == 0
    ensures Append(st, text) == st.(out := st.out + text)
  {
    assert Repeat('\n', 0) == "";
  }

  /** Without the hooks, a terminal flushes the pending newlines, writes
      the indent once and its text, and clears the indent. */
  lemma TerminalWritesLine(env: Env, s: State, c: nat)
    requires ValidEnv(env) && !env.thrift && ValidState(env, s) && c < |env.ns|
    requires env.ns[c].kind == Terminal && !IsEOF(env.ns, c)
    ensures ProcessNode(env, s, c) == s.(out := s.out + Repeat('\n', s.counter) + s.indent + env.ns[c].token.text,
                                         counter := 0, indent := "")
  {
    assert ProcessNode(env, s, c) == TerminalNode(env, s, c);
  }

  /** A block of terminals as text: each one after the blank lines of the
      gap to its predecessor, with the indent before it. */
  function BlockText(ns: seq<Node>, indent: string, nodes: seq<nat>, k: nat): string
    requires k <= |nodes| && forall j | 0 <= j < |nodes| :: nodes[j] < |ns|
  {
    if k == 0 then ""
    else
      BlockText(ns, indent, nodes, k - 1)
      + (if k > 1 then Repeat('\n', BlockGap(ns, nodes[k - 2], nodes[k - 1])) else "")
      + indent + ns[nodes[k - 1]].token.text
  }

  /** The first `k` nodes of a block of terminals were written after the
      pending newlines, as `BlockText` lays them out. */
  predicate BlockWrote(env: Env, st: State, p: nat, nodes: seq<nat>, indent: string, k: nat)
    requires ValidEnv(env) && ValidState(env, st) && Above(env.ns, p, nodes)
    requires PlainNodes(env.ns, nodes) && k <= |nodes|
  {
    var r := BlockNodes(env, st, p, nodes, indent, k);
    r.out == st.out + Repeat('\n', st.counter) + BlockText(env.ns, indent, nodes, k)
    && r.counter == 0 && r.indent == ""
  }

  /** The first terminal of the block: the indent, the text. */
  lemma BlockFirstTerminal(env: Env, st: State, p: nat, nodes: seq<nat>, indent: string)
    requires ValidEnv(env) && !env.thrift && ValidState(env, st) && Above(env.ns, p, nodes)
    requires PlainNodes(env.ns, nodes) && 0 < |nodes|
    ensures BlockWrote(env, st, p, nodes, indent, 1)
  {
    var node := nodes[0];
    var s1 := st.(indent := indent);
    var T := env.ns[node].token.text;
    BlockFirstStep(env, st, p, nodes, indent);
    TerminalWritesLine(env, s1, node);
    assert BlockText(env.ns, indent, nodes, 1) == indent + T by {
      assert BlockText(env.ns, indent, nodes, 1) == "" + "" + indent + T;
    }
    ConcatAssoc(st.out + Repeat('\n', st.counter), indent, T);
  }

  /** The first iteration of the block writes its node with the indent. */
  lemma BlockFirstStep(env: Env, st: State, p: nat, nodes: seq<nat>, indent: string)
    requires ValidEnv(env) && !env.thrift && ValidState(env, st) && Above(env.ns, p, nodes)
    requires PlainNodes(env.ns, nodes) && 0 < |nodes|
    ensures BlockNodes(env, st, p, nodes, indent, 1) == ProcessNode(env, st.(indent := indent), nodes[0])
  {
    assert Unwrap(env.ns, nodes[0]) == nodes[0];
    assert BlockNodes(env, st, p, nodes, indent, 1) == BlockStep(env, st, p, nodes, indent, 0);
  }

  /** One more terminal of the block: the gap, the indent, the text. */
  lemma BlockTerminalStep(env: Env, st: State, p: nat, nodes: seq<nat>, indent: string, k: nat)
    requires ValidEnv(env) && !env.thrift && ValidState(env, st) && Above(env.ns, p, nodes)
    requires PlainNodes(env.ns, nodes) && 1 < k <= |nodes|
    requires BlockWrote(env, st, p, nodes, indent, k - 1)
    ensures BlockWrote(env, st, p, nodes, indent, k)
  {
    var ns := env.ns;
    var node := nodes[k - 1];
    var prev := BlockNodes(env, st, p, nodes, indent, k - 1);
    assert Unwrap(ns, node) == node;
    assert Unwrap(ns, nodes[k - 2]) == nodes[k - 2];
    var gap := BlockGap(ns, nodes[k - 2], node);
    var st1 := Newline(prev, gap).(indent := indent);
    TerminalWritesLine(env, st1, node);
    assert BlockNodes(env, st, p, nodes, indent, k) == ProcessNode(env, st1, node);
    var P := st.out + Repeat('\n', st.counter);
    var B := BlockText(ns, indent, nodes, k - 1);
    var R := Repeat('\n', gap);
    var T := ns[node].token.text;
    assert BlockText(ns, indent, nodes, k) == B + R + indent + T;
    ConcatAssoc(P, B, R);
    ConcatAssoc(P, B + R, indent);
    ConcatAssoc(P, B + R + indent, T);
  }

  /** Without the hooks, the block strategy over terminals writes the
      pending newlines, then every node with the indent before it and, from
      the second on, the gap `BlockGap` asks for between it and its
      predecessor. */
  lemma {:induction false} BlockOfTerminals(env: Env, st: State, p: nat, nodes: seq<nat>, indent: string, k: nat)
    requires ValidEnv(env) && !env.thrift && ValidState(env, st) && Above(env.ns, p, nodes)
    requires PlainNodes(env.ns, nodes) && 0 < k <= |nodes|
    ensures var r := BlockNodes(env, st, p, nodes, indent, k);
            r.out == st.out + Repeat('\n', st.counter) + BlockText(env.ns, indent, nodes, k)
            && r.counter == 0 && r.indent == ""
  {
    if k == 1 {
      BlockFirstTerminal(env, st, p, nodes, indent);
    } else {
      BlockOfTerminals(env, st, p, nodes, indent, k - 1);
      BlockTerminalStep(env, st, p, nodes, indent, k);
    }
  }

  /** Terminals joined on one line, the join between each two. */
  function InlineText(ns: seq<Node>, nodes: seq<nat>, join: string, k: nat): string
    requires k <= |nodes| && forall j | 0 <= j < |nodes| :: nodes[j] < |ns|
  {
    if k == 0 then ""
    else InlineText(ns, nodes, join, k - 1) + (if k > 1 then join else "") + ns[nodes[k - 1]].token.text
  }

  /** The first `k` nodes were written on one line after the pending
      newlines and the indent, as `InlineText` lays them out. */
  predicate InlineNodesWrote(env: Env, st: State, p: nat, nodes: seq<nat>, join: string, k: nat)
    requires ValidEnv(env) && ValidState(env, st) && Above(env.ns, p, nodes)
    requires PlainNodes(env.ns, nodes) && k <= |nodes|
  {
    var r := InlineNodes(env, st, p, nodes, join, k);
    r.out == st.out + Repeat('\n', st.counter) + st.indent + InlineText(env.ns, nodes, join, k)
    && r.counter == 0 && r.indent == ""
  }

  /** One more terminal on the line: the join, then the text. */
  lemma InlineNodesStep(env: Env, st: State, p: nat, nodes: seq<nat>, join: string, k: nat)
    requires ValidEnv(env) && !env.thrift && ValidState(env, st) && Above(env.ns, p, nodes)
    requires PlainNodes(env.ns, nodes) && 1 < k <= |nodes|
    requires InlineNodesWrote(env, st, p, nodes, join, k - 1)
    ensures InlineNodesWrote(env, st, p, nodes, join, k)
  {
    var ns := env.ns;
    var node := nodes[k - 1];
    var prev := InlineNodes(env, st, p, nodes, join, k - 1);
    var st1 := Append(prev, join);
    AppendOnFreshLine(prev, join);
    TerminalWritesLine(env, st1, node);
    assert InlineNodes(env, st, p, nodes, join, k) == ProcessNode(env, st1, node);
    var P := st.out + Repeat('\n', st.counter) + st.indent;
    var I := InlineText(ns, nodes, join, k - 1);
    var T := ns[node].token.text;
    assert InlineText(ns, nodes, join, k) == I + join + T;
    ConcatAssoc(P, I, join);
    ConcatAssoc(P, I + join, T);
  }

  /** Without the hooks, the inline strategy over terminals writes the
      pending newlines and the indent once, then the texts with the join
      between each two. */
  lemma {:induction false} InlineNodesOfTerminals(env: Env, st: State, p: nat, nodes: seq<nat>, join: string, k: nat)
    requires ValidEnv(env) && !env.thrift && ValidState(env, st) && Above(env.ns, p, nodes)
    requires PlainNodes(env.ns, nodes) && 0 < k <= |nodes|
    ensures var r := InlineNodes(env, st, p, nodes, join, k);
            r.out == st.out + Repeat('\n', st.counter) + st.indent + InlineText(env.ns, nodes, join, k)
            && r.counter == 0 && r.indent == ""
  {
    if k == 1 {
      TerminalWritesLine(env, st, nodes[0]);
      assert InlineNodes(env, st, p, nodes, join, 1) == ProcessNode(env, st, nodes[0]);
    } else {
      InlineNodesOfTerminals(env, st, p, nodes, join, k - 1);
      InlineNodesStep(env, st, p, nodes, join, k);
    }
  }

  // ---------------------------------------------------------------------
  // `beforeSubblocks`
  // ---------------------------------------------------------------------

  /** The split of entry `j` raises exactly for a field or enum field with
      neither `=` nor a separator among its children. */
  lemma HalvesOfFails(env: Env, subblocks: seq<nat>, j: nat)
    requires ValidEnv(env) && (forall i | 0 <= i < |subblocks| :: subblocks[i] < |env.ns|) && j < |subblocks|
    ensures var f := subblocks[j];
            var cs := Children(env.ns, f);
            HalvesOf(env, subblocks)[j].SplitFails? <==>
              IsFieldOrEnumField(env.ns[f].kind) && forall i | 0 <= i < |cs| :: !Util.IsAssignOrSeparator(env.ns, cs[i])
  {
    Util.AssignSplitAsWrittenFails(env.ns, Children(env.ns, subblocks[j]));
  }

  /** Field alignment takes priority: it alone decides whether the hook
      raises and it leaves the assign column alone. Assign alignment raises
      exactly when a leading field of the body fails to split, and leaves
      the field columns alone. Every positive column is shifted by the
      indent; with neither mode nothing changes. */
  lemma AlignCases(env: Env, st: State, subblocks: seq<nat>)
    requires ValidEnv(env) && forall j | 0 <= j < |subblocks| :: subblocks[j] < |env.ns|
    ensures env.option.alignByField ==>
              var f := Util.FieldPadding(RowsOf(env, subblocks));
              var r := Align(env, st, subblocks);
              (r.Err? <==> f.Err?)
              && (r.Ok? ==>
                    r.value.assignPadding == st.assignPadding
                    && (forall name :: name in r.value.paddingMap <==> name in f.value.paddingMap)
                    && (forall name | name in f.value.paddingMap && f.value.paddingMap[name] > 0 ::
                          r.value.paddingMap[name] == f.value.paddingMap[name] + env.option.indent)
                    && (f.value.comment > 0 ==> r.value.commentPadding == f.value.comment + env.option.indent))
    ensures !env.option.alignByField && env.option.alignByAssign ==>
              var a := Util.AssignPadding(HalvesOf(env, subblocks));
              var r := Align(env, st, subblocks);
              (r.Err? <==> Util.FailsBeforeStop(HalvesOf(env, subblocks)))
              && (r.Ok? ==>
                    r.value.paddingMap == st.paddingMap
                    && (a.value.assign > 0 ==> r.value.assignPadding == a.value.assign + env.option.indent)
                    && (a.value.comment > 0 ==> r.value.commentPadding == a.value.comment + env.option.indent))
    ensures !env.option.alignByField && !env.option.alignByAssign ==> Align(env, st, subblocks) == Ok(st)
  {
    Util.AssignPaddingColumns(HalvesOf(env, subblocks));
  }

  /** The fallback only fills a comment column that is still 0, and only
      with comments kept: then it is one past the widest entry, shifted by
      the indent, or 0 when no entry renders. */
  lemma CommentFallbackColumn(env: Env, st: State, subblocks: seq<nat>)
    requires ValidEnv(env) && forall j | 0 <= j < |subblocks| :: subblocks[j] < |env.ns|
    requires env.option.keepComment && st.commentPadding == 0
    ensures var ws := Widths(env, subblocks);
            var r := CommentFallback(env, st, subblocks);
            ((forall j | 0 <= j < |ws| :: ws[j] == 0) ==> r == st)
            && ((exists j | 0 <= j < |ws| :: ws[j] > 0) ==>
                  (forall j | 0 <= j < |ws| :: ws[j] + 1 + env.option.indent <= r.commentPadding)
                  && (exists j | 0 <= j < |ws| :: ws[j] + 1 + env.option.indent == r.commentPadding))
  {
    var ws := Widths(env, subblocks);
    Util.SubBlocksCommentPaddingColumn(ws);
  }
}
