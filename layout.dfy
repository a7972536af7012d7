/**
  The output state of the formatter and the operations that write to it:
  the pending-newline counter, the one-shot indent, padding to a column,
  and the reattachment of comments from the token stream. Each operation
  is a function from the state before to the state after; the class in
  `Formatter` performs the same updates in place.
 */
module Layout {
  import opened Tree
  import opened Options
  import opened JavaString

  /** What the formatter reads but does not change while rendering: the
      arena, the token stream, the settings, and whether the comment and
      alignment hooks of `ThriftFormatter` are active. `spacedInclude`
      selects the include rule: false is the program as written (an empty
      join), true the one space its unit test expects. */
  datatype Env = Env(ns: seq<Node>, tokens: seq<Token>, option: Option, thrift: bool, spacedInclude: bool)

  /** The mutable fields: `out`, `newlineCounter` and `currentIndent` of
      the layout engine, then `lastTokenIndex` and the three alignment
      fields of `ThriftFormatter`. */
  datatype State = State(
    out: string,
    counter: nat,
    indent: string,
    lastTokenIndex: int,
    commentPadding: int,
    assignPadding: int,
    paddingMap: map<string, int>)

  /** The state of a fresh formatter once `formatNode` has reset it. */
  const Fresh := State("", 0, "", -1, 0, 0, map[])

  /** A token's index is its position in the stream. */
  predicate IndexedTokens(tokens: seq<Token>) {
    forall i | 0 <= i < |tokens| :: tokens[i].index == i
  }

  /** A well-formed arena and a token for every terminal that was read
      from the source. The engine's option class takes any settings. */
  predicate ValidEnv(env: Env) {
    WellFormed(env.ns) && IndexedTokens(env.tokens)
    && forall n | 0 <= n < |env.ns| && env.ns[n].kind == Terminal && !IsFakeNode(env.ns[n]) ::
         0 <= env.ns[n].token.index < |env.tokens|
  }

  /** `lastTokenIndex` is -1 or names a token. */
  predicate ValidState(env: Env, st: State) {
    -1 <= st.lastTokenIndex < |env.tokens|
  }

  /** Rendering only ever adds text at the end, and leaves the alignment
      fields alone. */
  predicate Extends(st: State, r: State) {
    st.out <= r.out
    && r.commentPadding == st.commentPadding && r.assignPadding == st.assignPadding
    && r.paddingMap == st.paddingMap
  }

  // ---------------------------------------------------------------------
  // The layout engine
  // ---------------------------------------------------------------------

  /** `append`: the pending newlines, then the text; nothing is pending
      afterwards. */
  function Append(st: State, text: string): (r: State)
    ensures r.out == st.out + Repeat('\n', st.counter) + text
    ensures r.counter == 0 && r == st.(out := r.out, counter := 0)
  {
    st.(out := st.out + Repeat('\n', st.counter) + text, counter := 0)
  }

  /** `appendCurrentLine`: the text, with the pending newlines left
      pending. */
  function AppendCurrentLine(st: State, text: string): (r: State)
    ensures r.out == st.out + text && r == st.(out := r.out)
  {
    st.(out := st.out + text)
  }

  /** `newline(repeat)`: raise the pending count to `repeat`. */
  function Newline(st: State, repeat: int): (r: State)
    ensures r.counter == if repeat > st.counter then repeat else st.counter
    ensures r == st.(counter := r.counter)
  {
    var diff := repeat - st.counter;
    if diff > 0 then st.(counter := st.counter + diff) else st
  }

  /** `pushCurrentIndent`: the indent, if any, as appended text. */
  function PushCurrentIndent(st: State): (r: State)
    ensures |st.indent| > 0 ==> r == Append(st, st.indent)
    ensures |st.indent| == 0 ==> r == st
  {
    if |st.indent| > 0 then Append(st, st.indent) else st
  }

  /** `getCurrentLine`: "" while a newline is pending, otherwise the last
      part of the output split at newlines. */
  function CurrentLine(st: State): string {
    if st.counter > 0 then "" else LastPart(st.out, '\n')
  }

  /** `padding(target)`: spaces up to column `target` of the current line,
      never a negative number of them. */
  function Padding(st: State, target: int): (r: State)
    ensures r.out == st.out + Repeat(' ', if target > 0 && target > |CurrentLine(st)| then target - |CurrentLine(st)| else 0)
    ensures r == st.(out := r.out)
  {
    if target > 0 then
      var pad := target - |CurrentLine(st)|;
      if pad > 0 then AppendCurrentLine(st, Repeat(' ', pad)) else st
    else st
  }

  /** `calcAddIndentPadding`: the indent is added to positive columns only. */
  function AddIndentPadding(option: Option, padding: int): (r: int)
    ensures padding > 0 ==> r == padding + option.indent
    ensures padding <= 0 ==> r == padding
  {
    if padding > 0 then padding + option.indent else padding
  }

  // ---------------------------------------------------------------------
  // Alignment padding (`addAlignPadding`)
  // ---------------------------------------------------------------------

  /** Before a child of a field or enum field: in field mode, pad to the
      column of its role; in assign mode, pad before `=` only. */
  function AddAlignPadding(env: Env, st: State, n: nat): (r: State)
    requires WellFormed(env.ns) && n < |env.ns|
    ensures r == st.(out := r.out) && st.out <= r.out
  {
    var ns := env.ns;
    assert NodeOk(ns, n);
    var p := ns[n].parent;
    if p == -1 || !IsFieldOrEnumField(ns[p].kind) then st
    else if env.option.alignByField && st.paddingMap != map[] then
      var name := GetFieldChildName(ns, n);
      if name in st.paddingMap && st.paddingMap[name] > 0 then Padding(st, st.paddingMap[name]) else st
    else if env.option.alignByAssign && IsToken(ns, n, "=") then Padding(st, st.assignPadding)
    else st
  }

  // ---------------------------------------------------------------------
  // Tail comments (`addTailComment`)
  // ---------------------------------------------------------------------

  /** The comment-channel tokens from position `i` on, up to the first
      token on another line than `line`. */
  function TailScan(tokens: seq<Token>, i: nat, line: int): (r: seq<Token>)
    requires IndexedTokens(tokens)
    ensures forall k | 0 <= k < |r| ::
              i <= r[k].index < |tokens| && tokens[r[k].index] == r[k] && r[k].channel == CommentChannel
    decreases |tokens| - i
  {
    if i >= |tokens| || tokens[i].line != line then []
    else if tokens[i].channel != CommentChannel then TailScan(tokens, i + 1, line)
    else [tokens[i]] + TailScan(tokens, i + 1, line)
  }

  /** `addTailComment`: after the last written token, the first comment on
      its line is written trimmed, at the comment column (or after one
      space), the pending newlines are flushed and the comment becomes the
      last written token. */
  function TailComment(env: Env, st: State): (r: State)
    requires IndexedTokens(env.tokens) && ValidState(env, st)
    ensures ValidState(env, r) && Extends(st, r)
    ensures !env.option.keepComment || st.lastTokenIndex == -1 ==> r == st
  {
    if !env.option.keepComment || st.lastTokenIndex == -1 then st
    else
      var last := env.tokens[st.lastTokenIndex];
      var comments := TailScan(env.tokens, st.lastTokenIndex + 1, last.line);
      if comments == [] then st else WriteTailComment(st, comments[0])
  }

  /** The tail comment itself: at the comment column or after one space,
      trimmed, then the pending newlines; it becomes the last written
      token. */
  function WriteTailComment(st: State, comment: Token): (r: State)
    ensures Extends(st, r) && r.lastTokenIndex == comment.index
  {
    var st1 := if st.commentPadding > 0 then Padding(st, st.commentPadding) else AppendCurrentLine(st, " ");
    var st2 := Append(AppendCurrentLine(st1, Trim(comment.text)), "");
    st2.(lastTokenIndex := comment.index)
  }

  // ---------------------------------------------------------------------
  // Comments before a token (`addInlineComments`)
  // ---------------------------------------------------------------------

  /** The comment-channel tokens from position `i` on whose index is below
      `bound`. */
  function InlineScan(tokens: seq<Token>, i: nat, bound: int): (r: seq<Token>)
    requires IndexedTokens(tokens)
    ensures forall k | 0 <= k < |r| ::
              i <= r[k].index < |tokens| && r[k].index < bound && tokens[r[k].index] == r[k]
              && r[k].channel == CommentChannel
    decreases |tokens| - i
  {
    if i >= |tokens| then []
    else if tokens[i].channel != CommentChannel || tokens[i].index >= bound then InlineScan(tokens, i + 1, bound)
    else [tokens[i]] + InlineScan(tokens, i + 1, bound)
  }

  /** The line a comment ends on: its first line plus the lines its text
      splits into, less one. */
  function CommentLastLine(comment: Token): int {
    comment.line + |Split(comment.text, '\n')| - 1
  }

  /** The blank lines wanted after a comment written before terminal `n`:
      one after a single-line comment, before the end of file, or when the
      comment ends on the line just above the terminal; two otherwise. */
  function LinesAfterComment(ns: seq<Node>, n: nat, comment: Token): (lines: nat)
    requires n < |ns|
    ensures lines == 1 || lines == 2
    ensures lines == 1 <==> comment.ttype == SlComment || IsEOF(ns, n)
                            || ns[n].token.line == CommentLastLine(comment) + 1
  {
    var lineDiff := ns[n].token.line - CommentLastLine(comment);
    var isTight := comment.ttype == SlComment || IsEOF(ns, n) || (0 < lineDiff && lineDiff <= 1);
    if isTight then 1 else 2
  }

  /** One comment written before terminal `n`: a blank line first for a
      block comment that does not open the file, the indent, the trimmed
      text, then the lines after it. */
  function EmitComment(ns: seq<Node>, st: State, n: nat, comment: Token): (r: State)
    requires n < |ns|
    ensures r.lastTokenIndex == st.lastTokenIndex && Extends(st, r)
    ensures r == st.(out := r.out, counter := r.counter)
    ensures r.counter == LinesAfterComment(ns, n, comment)
  {
    var st1 := if comment.index > 0 && comment.ttype == MlComment then Newline(st, 2) else st;
    var st2 := Append(PushCurrentIndent(st1), Trim(comment.text));
    Newline(st2, LinesAfterComment(ns, n, comment))
  }

  /** The first `k` comments written in order. */
  function EmitComments(ns: seq<Node>, st: State, n: nat, comments: seq<Token>, k: nat): (r: State)
    requires n < |ns| && k <= |comments|
    ensures r.lastTokenIndex == st.lastTokenIndex && Extends(st, r)
    ensures r == st.(out := r.out, counter := r.counter)
  {
    if k == 0 then st else EmitComment(ns, EmitComments(ns, st, n, comments, k - 1), n, comments[k - 1])
  }

  /** `addInlineComments`: before a terminal read from the source, every
      comment between the last written token and it, in stream order; the
      terminal then becomes the last written token. */
  function InlineComments(env: Env, st: State, n: nat): (r: State)
    requires ValidEnv(env) && ValidState(env, st) && n < |env.ns|
    requires env.ns[n].kind == Terminal
    ensures ValidState(env, r) && Extends(st, r)
    ensures !env.option.keepComment || IsFakeNode(env.ns[n]) ==> r == st
    ensures env.option.keepComment && !IsFakeNode(env.ns[n]) ==> r.lastTokenIndex == env.ns[n].token.index
  {
    if !env.option.keepComment || IsFakeNode(env.ns[n]) then st
    else
      var tokenIndex := env.ns[n].token.index;
      var comments := InlineScan(env.tokens, st.lastTokenIndex + 1, tokenIndex);
      EmitComments(env.ns, st, n, comments, |comments|).(lastTokenIndex := tokenIndex)
  }

  /** A terminal: with the hooks active, the tail comment of the previous
      line when a newline is pending and the comments before it; then,
      unless it is the end of file, the indent once and its text. */
  function TerminalNode(env: Env, st: State, n: nat): (r: State)
    requires ValidEnv(env) && ValidState(env, st) && n < |env.ns|
    requires env.ns[n].kind == Terminal
    ensures ValidState(env, r) && Extends(st, r)
    ensures !env.thrift && IsEOF(env.ns, n) ==> r == st
    ensures !env.thrift && !IsEOF(env.ns, n) ==>
              r == st.(out := st.out + Repeat('\n', st.counter) + st.indent + env.ns[n].token.text,
                       counter := 0, indent := "")
  {
    var st1 := if env.thrift then
                 InlineComments(env, if st.counter > 0 then TailComment(env, st) else st, n)
               else st;
    if IsEOF(env.ns, n) then st1
    else Append(PushCurrentIndent(st1).(indent := ""), env.ns[n].token.text)
  }
}
