/**
  Properties of the hooks `ThriftFormatter` adds to the layout engine: where
  the alignment padding goes, what the comments before a terminal and the
  tail comment after a line write, in which order and at which column.
 */
module HookProps {
  import opened Tree
  import opened JavaString
  import opened Layout
  import RenderProps

  // ---------------------------------------------------------------------
  // Alignment padding (`addAlignPadding`)
  // ---------------------------------------------------------------------

  /** `n` is a child of a field or an enum field. */
  predicate InFieldEntry(ns: seq<Node>, n: nat)
    requires WellFormed(ns) && n < |ns|
  {
    assert NodeOk(ns, n);
    ns[n].parent != -1 && IsFieldOrEnumField(ns[ns[n].parent].kind)
  }

  /** Only the children of a field or enum field are padded. In field mode
      (once the column map is filled) a child goes to the column of its
      role, when the role has one; otherwise, in assign mode, `=` goes to
      the assign column and every other child is left where it is. */
  lemma AddAlignPaddingCases(env: Env, st: State, n: nat)
    requires WellFormed(env.ns) && n < |env.ns|
    ensures !InFieldEntry(env.ns, n) ==> AddAlignPadding(env, st, n) == st
    ensures InFieldEntry(env.ns, n) && env.option.alignByField && st.paddingMap != map[] ==>
              var name := GetFieldChildName(env.ns, n);
              AddAlignPadding(env, st, n) == if name in st.paddingMap then Padding(st, st.paddingMap[name]) else st
    ensures InFieldEntry(env.ns, n) && !(env.option.alignByField && st.paddingMap != map[]) ==>
              AddAlignPadding(env, st, n) ==
                if env.option.alignByAssign && IsToken(env.ns, n, "=") then Padding(st, st.assignPadding) else st
  {
    assert NodeOk(env.ns, n);
  }

  /** In assign mode, with the line short of the assign column and no
      newline pending, the `=` of a field starts exactly at that column. */
  lemma AssignLandsOnColumn(env: Env, st: State, n: nat)
    requires WellFormed(env.ns) && n < |env.ns| && InFieldEntry(env.ns, n)
    requires !(env.option.alignByField && st.paddingMap != map[]) && env.option.alignByAssign
    requires IsToken(env.ns, n, "=")
    requires st.counter == 0 && (st.out == "" || st.out[|st.out| - 1] != '\n')
    requires st.assignPadding > |CurrentLine(st)|
    ensures |CurrentLine(AddAlignPadding(env, st, n))| == st.assignPadding
  {
    AddAlignPaddingCases(env, st, n);
    RenderProps.PaddingReachesColumn(st, st.assignPadding);
  }

  // ---------------------------------------------------------------------
  // Comments before a terminal (`addInlineComments`)
  // ---------------------------------------------------------------------

  /** The newlines pending before a comment is written: raised to a blank
      line before a block comment that does not open the file. */
  function LinesBeforeComment(counter: nat, comment: Token): nat {
    if comment.index > 0 && comment.ttype == MlComment && counter < 2 then 2 else counter
  }

  /** What one comment writes: the pending newlines (a blank line at least
      before a block comment that does not open the file), the indent, the
      trimmed text. */
  function CommentHead(counter: nat, indent: string, comment: Token): string {
    Repeat('\n', LinesBeforeComment(counter, comment)) + indent + Trim(comment.text)
  }

  /** One comment writes its head; afterwards only the lines after the
      comment are pending. */
  lemma EmitCommentText(ns: seq<Node>, st: State, n: nat, comment: Token)
    requires n < |ns|
    ensures var r := EmitComment(ns, st, n, comment);
            r.out == st.out + CommentHead(st.counter, st.indent, comment)
            && r == st.(out := r.out, counter := LinesAfterComment(ns, n, comment))
  {
    var c := LinesBeforeComment(st.counter, comment);
    var text := Trim(comment.text);
    var st1 := if comment.index > 0 && comment.ttype == MlComment then Newline(st, 2) else st;
    assert st1 == st.(counter := c);
    var pushed := PushCurrentIndent(st1);
    assert pushed.out + Repeat('\n', pushed.counter) == st.out + Repeat('\n', c) + st.indent by {
      assert Repeat('\n', 0) == "";
    }
    var st2 := Append(pushed, text);
    assert st2.out == st.out + Repeat('\n', c) + st.indent + text;
    assert st2 == st.(out := st2.out, counter := 0);
  }

  /** The text of a run of comments written one after the other, from the
      first: each with the newlines its predecessor left pending. */
  function CommentsText(ns: seq<Node>, n: nat, counter: nat, indent: string, cs: seq<Token>): string
    requires n < |ns|
    decreases |cs|
  {
    if cs == [] then ""
    else
      CommentHead(counter, indent, cs[0]) + CommentsText(ns, n, LinesAfterComment(ns, n, cs[0]), indent, cs[1..])
  }

  /** Writing `k` comments is writing the first and then the next `k - 1`. */
  lemma {:induction false} EmitCommentsFirst(ns: seq<Node>, st: State, n: nat, cs: seq<Token>, k: nat)
    requires n < |ns| && 0 < k <= |cs|
    ensures EmitComments(ns, st, n, cs, k) == EmitComments(ns, EmitComment(ns, st, n, cs[0]), n, cs[1..], k - 1)
  {
    if k > 1 {
      EmitCommentsFirst(ns, st, n, cs, k - 1);
      assert cs[1..][k - 2] == cs[k - 1];
    }
  }

  /** Every comment of the run is written, in order, as `CommentsText` lays
      them out, and the lines after the last comment are pending (nothing
      else changes, by `EmitComments`'s own contract). */
  lemma {:induction false} EmitCommentsText(ns: seq<Node>, st: State, n: nat, cs: seq<Token>)
    requires n < |ns|
    ensures var r := EmitComments(ns, st, n, cs, |cs|);
            r.out == st.out + CommentsText(ns, n, st.counter, st.indent, cs)
            && r.counter == if cs == [] then st.counter else LinesAfterComment(ns, n, cs[|cs| - 1])
    decreases |cs|
  {
    if cs != [] {
      var st1 := EmitComment(ns, st, n, cs[0]);
      var head := CommentHead(st.counter, st.indent, cs[0]);
      EmitCommentText(ns, st, n, cs[0]);
      assert st1.out == st.out + head && st1.indent == st.indent;
      EmitCommentsFirst(ns, st, n, cs, |cs|);
      EmitCommentsText(ns, st1, n, cs[1..]);
      var tail := CommentsText(ns, n, st1.counter, st.indent, cs[1..]);
      assert CommentsText(ns, n, st.counter, st.indent, cs) == head + tail;
      var r := EmitComments(ns, st, n, cs, |cs|);
      assert r.out == st1.out + tail;
      ConcatAssoc(st.out, head, tail);
      if |cs| > 1 {
        assert cs[1..][|cs[1..]| - 1] == cs[|cs| - 1];
      }
    }
  }

  /** With comments kept, before a terminal read from the source: every
      comment-channel token after the last written one and before the
      terminal is written, in stream order, as `CommentsText` lays them
      out; the terminal then becomes the last written token. */
  lemma InlineCommentsText(env: Env, st: State, n: nat)
    requires ValidEnv(env) && ValidState(env, st) && n < |env.ns| && env.ns[n].kind == Terminal
    requires env.option.keepComment && !IsFakeNode(env.ns[n])
    ensures var cs := InlineScan(env.tokens, st.lastTokenIndex + 1, env.ns[n].token.index);
            var r := InlineComments(env, st, n);
            r.out == st.out + CommentsText(env.ns, n, st.counter, st.indent, cs)
            && r.lastTokenIndex == env.ns[n].token.index && r.indent == st.indent
  {
    var cs := InlineScan(env.tokens, st.lastTokenIndex + 1, env.ns[n].token.index);
    EmitCommentsText(env.ns, st, n, cs);
  }

  // ---------------------------------------------------------------------
  // The tail comment (`addTailComment`)
  // ---------------------------------------------------------------------

  /** What goes before a tail comment: spaces up to the comment column when
      one is set, a single space otherwise. */
  function TailPad(st: State): string {
    if st.commentPadding > 0 then
      Repeat(' ', if st.commentPadding > |CurrentLine(st)| then st.commentPadding - |CurrentLine(st)| else 0)
    else " "
  }

  /** The tail comment write: the pad, the trimmed comment, then the
      pending newlines; nothing stays pending and the comment is the last
      written token. */
  lemma WriteTailCommentText(st: State, comment: Token)
    ensures var r := WriteTailComment(st, comment);
            r.out == st.out + TailPad(st) + Trim(comment.text) + Repeat('\n', st.counter)
            && r == st.(out := r.out, counter := 0, lastTokenIndex := comment.index)
  {
  }

  /** With comments kept and a token written, the first comment on the
      last written token's line after it is written as `WriteTailComment`
      lays it out; when that line holds no further comment nothing
      changes. */
  lemma TailCommentText(env: Env, st: State)
    requires IndexedTokens(env.tokens) && ValidState(env, st)
    requires env.option.keepComment && st.lastTokenIndex != -1
    ensures var cs := TailScan(env.tokens, st.lastTokenIndex + 1, env.tokens[st.lastTokenIndex].line);
            var r := TailComment(env, st);
            (cs == [] ==> r == st)
            && (cs != [] ==>
                  r.out == st.out + TailPad(st) + Trim(cs[0].text) + Repeat('\n', st.counter)
                  && r == st.(out := r.out, counter := 0, lastTokenIndex := cs[0].index))
  {
    var cs := TailScan(env.tokens, st.lastTokenIndex + 1, env.tokens[st.lastTokenIndex].line);
    if cs != [] {
      WriteTailCommentText(st, cs[0]);
    }
  }

  /** On a line short of the comment column with no newline pending, the
      tail comment starts exactly at that column. */
  lemma TailCommentAtColumn(st: State)
    requires st.counter == 0 && (st.out == "" || st.out[|st.out| - 1] != '\n')
    requires st.commentPadding > |CurrentLine(st)|
    ensures |CurrentLine(st.(out := st.out + TailPad(st)))| == st.commentPadding
  {
    RenderProps.PaddingReachesColumn(st, st.commentPadding);
  }
}
