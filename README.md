# thrift-fmt-java: a Dafny model of the formatter core

thrift-fmt-java formats Apache Thrift IDL files. It parses a file with an
ANTLR grammar and then does two things:

- It patches the parse tree: it inserts `required` into fields and ends
  every field, enum field and function with a `,`. A third pass is meant
  to drop the separator after the last argument of a function and the
  last type annotation. As written, it strips the separator from an
  inline field or annotation that is the final child of its parent or is
  followed by a sibling of the same class (see "## Findings").
- It walks the patched tree and writes each node through a small layout
  engine. The engine has an output buffer, a pending-newline counter and
  a one-shot indent.

`ThriftFormatter` extends the layout engine (`PureThriftFormatter`) with
hooks:

- it reattaches comments from the token stream;
- it aligns the fields of a struct or enum at their `=` or at per-role
  columns;
- it pads trailing comments to a common column.

This project models that core in Dafny:

- **`tree.dfy`**: the parse tree as an arena, a `seq<Node>` whose children
  are later indices. It also holds the tree predicates of `Util` and
  `FormatterUtil`.
- **`options.dfy`**: the `Option` settings and their normalising
  constructor.
- **`javastring.dfy`**: Java's `String.repeat`, `trim` and `split` (with
  its trailing-empty rule), and facts about the last line of the output.
- **`layout.dfy`**: the output state, and every layout and comment
  operation as a function from the state before to the state after.
- **`render.dfy`**: the dispatch from node kind to handler, the
  inline/block/subblock strategies and the alignment hooks. These are
  mutually recursive specification functions.
- **`renderprops.dfy`**: properties of the layout engine and of the
  rendering.
- **`util.dfy`, `formatterutil.dfy`**: splitting a field at `=`, splitting
  a body into its run of fields, and the three alignment calculations.
  Each is a method with its loop, proved against a function. The array
  variants of `FormatterUtil` are included.
- **`patch.dfy`**: each patch visit as a function on the arena, and the
  breadth-first walk's invariant.
- **`formatter.dfy`**: one class `Formatter` holding the mutable fields of
  both Java classes. Its methods update those fields in place, and each is
  proved equal to the specification function of the same name. `thrift`
  says whether the `ThriftFormatter` hooks are active. The `Pure`
  constructor builds the fresh hook-less engine that measures widths.

## Model

| member | source | states |
|---|---|---|
| Options.NewOption | lib/src/main/java/thriftlabs/thriftfmt/Option.java:19-33 | the result is normalised; a positive indent is kept and any other becomes 4; assign alignment is kept and field alignment survives only without it; the other flags pass through |
| Options.DefaultOption | lib/src/main/java/thriftlabs/thriftfmt/Option.java:15-17 | the no-argument option is the six-argument one with indent 4, patching and comments on, assign alignment on |
| Options.DefaultOptionValues | lib/src/main/java/thriftlabs/thriftfmt/Option.java:15-33 | the default option has indent 4, both patches, comments and assign alignment on, and field alignment off |
| Options.NewOptionKeepsNormalised | lib/src/main/java/thriftlabs/thriftfmt/Option.java:19-33 | constructing from a normalised option's fields gives that option back |
| Options.NewOptionIdempotent | lib/src/main/java/thriftlabs/thriftfmt/Option.java:19-33 | constructing twice equals constructing once |
| Tree.CreateFakeToken | lib/src/main/java/thriftlabs/thriftfmt/Util.java:37-43 | a created token has the given type and text, line -1 and token index -1 |
| Tree.CreateFakeNode | lib/src/main/java/thriftlabs/thriftfmt/Util.java:37-43 | a created node is a childless terminal that `isFakeNode` recognises, with the given text |
| Tree.Children | lib/src/main/java/thriftlabs/thriftfmt/Util.java:138-146 | every child of a node lies after it in the arena |
| Tree.GetFieldChildName | lib/src/main/java/thriftlabs/thriftfmt/Util.java:355-360 | the role is "=" exactly for an `=` token, and otherwise the simple class name of the child |
| JavaString.Repeat | lib/src/main/java/thriftlabs/thriftfmt/PureThriftFormatter.java:203-209 | `n` copies of one character |
| JavaString.TrimLeft | lib/src/main/java/thriftlabs/thriftfmt/ThriftFormatter.java:282 | a suffix of the input that starts with a kept character; only trimmed characters were removed |
| JavaString.TrimRight | lib/src/main/java/thriftlabs/thriftfmt/ThriftFormatter.java:282 | a prefix of the input that ends with a kept character; only trimmed characters were removed |
| JavaString.Trim | lib/src/main/java/thriftlabs/thriftfmt/ThriftFormatter.java:282 | a contiguous part of the input whose first and last characters are not trimmed |
| JavaString.Segments | lib/src/main/java/thriftlabs/thriftfmt/ThriftFormatter.java:241 | at least one segment, and exactly one when the separator does not occur |
| JavaString.DropTrailingEmpty | lib/src/main/java/thriftlabs/thriftfmt/ThriftFormatter.java:241 | the longest prefix that does not end in an empty part; only empty parts were removed |
| JavaString.SplitEmptyOnlyForSeparators | lib/src/main/java/thriftlabs/thriftfmt/ThriftFormatter.java:241-242 | `split` returns no parts exactly for a non-empty string made only of separators, the case where `parts[parts.length - 1]` throws |
| JavaString.LastPartOfLine | lib/src/main/java/thriftlabs/thriftfmt/ThriftFormatter.java:236-244 | text without a newline written at the start of a line is the current line |
| JavaString.LastPartIgnoresTrailingNewline | lib/src/main/java/thriftlabs/thriftfmt/ThriftFormatter.java:241-242 | a trailing newline does not start a new current line |
| JavaString.LastPartExtend | lib/src/main/java/thriftlabs/thriftfmt/ThriftFormatter.java:236-244 | text without a newline, written after a line that does not end in one, extends the current line |
| JavaString.SegmentsOfAppend | lib/src/main/java/thriftlabs/thriftfmt/ThriftFormatter.java:241 | appending text without a separator extends the last segment only |
| JavaString.Split | lib/src/main/java/thriftlabs/thriftfmt/ThriftFormatter.java:241 | `split("\n")`: the segments with the trailing empty ones dropped |
| JavaString.LastPart | lib/src/main/java/thriftlabs/thriftfmt/ThriftFormatter.java:241-243 | the last part of that split, or "" when there is none |
| Layout.Append | lib/src/main/java/thriftlabs/thriftfmt/PureThriftFormatter.java:203-209 | the pending newlines are written, then the text; no newline is pending afterwards; nothing else changes |
| Layout.AppendCurrentLine | lib/src/main/java/thriftlabs/thriftfmt/PureThriftFormatter.java:211-214 | the text is written and the pending newlines stay pending |
| Layout.Newline | lib/src/main/java/thriftlabs/thriftfmt/PureThriftFormatter.java:216-225 | the pending count becomes the larger of itself and the request |
| Layout.PushCurrentIndent | lib/src/main/java/thriftlabs/thriftfmt/PureThriftFormatter.java:231-235 | a non-empty indent is appended; an empty one changes nothing |
| Layout.CurrentLine | lib/src/main/java/thriftlabs/thriftfmt/ThriftFormatter.java:236-244 | "" while a newline is pending, otherwise the last part of the output split at newlines |
| Layout.Padding | lib/src/main/java/thriftlabs/thriftfmt/ThriftFormatter.java:223-234 | spaces up to the target column of the current line, never a negative number of them, and only for a positive target |
| Layout.AddIndentPadding | lib/src/main/java/thriftlabs/thriftfmt/ThriftFormatter.java:159-164 | a positive column is shifted by the indent; any other is unchanged |
| Layout.AddAlignPadding | lib/src/main/java/thriftlabs/thriftfmt/ThriftFormatter.java:203-221 | only the output changes and it only grows; `HookProps.AddAlignPaddingCases` gives the cases |
| Layout.TailScan | lib/src/main/java/thriftlabs/thriftfmt/ThriftFormatter.java:254-267 | every token collected is a comment-channel token of the stream at or after the start |
| Layout.TailComment | lib/src/main/java/thriftlabs/thriftfmt/ThriftFormatter.java:246-286 | with comments off or no token written yet nothing changes; otherwise only the output, the pending count and the last-token index change, and the output only grows; `HookProps.TailCommentText` gives the text |
| Layout.WriteTailComment | lib/src/main/java/thriftlabs/thriftfmt/ThriftFormatter.java:275-284 | the output only grows and the comment becomes the last written token; `HookProps.WriteTailCommentText` gives the text |
| Layout.InlineScan | lib/src/main/java/thriftlabs/thriftfmt/ThriftFormatter.java:297-309 | every token collected is a comment-channel token of the stream, at or after the start and before the bound |
| Layout.CommentLastLine | lib/src/main/java/thriftlabs/thriftfmt/ThriftFormatter.java:325 | the line a comment ends on: its first line plus its lines less one |
| Layout.LinesAfterComment | lib/src/main/java/thriftlabs/thriftfmt/ThriftFormatter.java:325-335 | one newline exactly after a single-line comment, before the end of file, or when the terminal is on the line just after the comment ends; two otherwise |
| Layout.EmitComment | lib/src/main/java/thriftlabs/thriftfmt/ThriftFormatter.java:311-336 | only the output and the pending count change; the output grows and the lines after the comment are pending; `HookProps.EmitCommentText` gives the text written |
| Layout.EmitComments | lib/src/main/java/thriftlabs/thriftfmt/ThriftFormatter.java:311-336 | only the output and the pending count change and the last-token index is kept; `HookProps.EmitCommentsText` gives the text |
| Layout.InlineComments | lib/src/main/java/thriftlabs/thriftfmt/ThriftFormatter.java:288-339 | with comments off or a fake terminal nothing changes; otherwise the output only grows and the terminal's token becomes the last written token; `HookProps.InlineCommentsText` gives the text |
| Layout.TerminalNode | lib/src/main/java/thriftlabs/thriftfmt/PureThriftFormatter.java:376-384 | without the hooks, end of file writes nothing; any other terminal writes the pending newlines, the indent once and its text, and clears the indent |
| HookProps.AddAlignPaddingCases | lib/src/main/java/thriftlabs/thriftfmt/ThriftFormatter.java:203-221 | only children of a field or enum field are padded; in field mode with a column map, a child goes to its role's column when the role has one; otherwise in assign mode `=` goes to the assign column and every other child is left alone |
| HookProps.AssignLandsOnColumn | lib/src/main/java/thriftlabs/thriftfmt/ThriftFormatter.java:216-219 | in assign mode, on a line short of the assign column, the `=` starts exactly at that column |
| HookProps.CommentHead | lib/src/main/java/thriftlabs/thriftfmt/ThriftFormatter.java:312-323 | what one comment writes: the pending newlines, raised to two before a block comment that does not open the file, the indent, the trimmed text |
| HookProps.EmitCommentText | lib/src/main/java/thriftlabs/thriftfmt/ThriftFormatter.java:311-336 | one comment writes its head, and afterwards exactly the lines after the comment are pending; nothing else changes |
| HookProps.EmitCommentsText | lib/src/main/java/thriftlabs/thriftfmt/ThriftFormatter.java:311-336 | every collected comment is written in order, each with the newlines the previous one left pending, and the lines after the last are pending |
| HookProps.InlineCommentsText | lib/src/main/java/thriftlabs/thriftfmt/ThriftFormatter.java:288-339 | with comments kept, before a source terminal every comment token after the last written token and before the terminal is written in stream order; the terminal becomes the last written token and the indent is kept |
| HookProps.TailPad | lib/src/main/java/thriftlabs/thriftfmt/ThriftFormatter.java:276-280 | spaces up to the comment column when one is set, one space otherwise |
| HookProps.WriteTailCommentText | lib/src/main/java/thriftlabs/thriftfmt/ThriftFormatter.java:275-284 | the tail comment writes the pad, the trimmed text and the pending newlines; nothing stays pending and it becomes the last written token |
| HookProps.TailCommentText | lib/src/main/java/thriftlabs/thriftfmt/ThriftFormatter.java:246-286 | with comments kept and a token written: when the last token's line holds no further comment nothing changes; otherwise the first comment on it is written trimmed after the pad and the pending newlines follow |
| HookProps.TailCommentAtColumn | lib/src/main/java/thriftlabs/thriftfmt/ThriftFormatter.java:276-277 | on a line short of the comment column, the tail comment starts exactly at that column |
| Render.Unwrap | lib/src/main/java/thriftlabs/thriftfmt/PureThriftFormatter.java:259-261 | a header or definition stands for a later node (its first child); every other node stands for itself |
| Render.BlockGap | lib/src/main/java/thriftlabs/thriftfmt/PureThriftFormatter.java:263-269 | two newlines exactly when the neighbours differ in kind or the node is an enum field, struct, union, exception or service; one otherwise |
| Render.AboveParts | lib/src/main/java/thriftlabs/thriftfmt/Util.java:173-176 | both parts of a split body still lie below the node |
| Render.ProcessNode | lib/src/main/java/thriftlabs/thriftfmt/PureThriftFormatter.java:287-291 | rendering a node only adds output and keeps the alignment fields; without the hooks it keeps the last-token index |
| Render.Dispatch | lib/src/main/java/thriftlabs/thriftfmt/PureThriftFormatter.java:293-374 | the handler chosen by the node's kind only adds output and keeps the alignment fields; the include rule joins as written (no space) unless `spacedInclude` is set |
| Render.HandlerOf | lib/src/main/java/thriftlabs/thriftfmt/PureThriftFormatter.java:293-530 | the handler of each kind: terminal, block for the document, unwrap for header and definition, the inline joins of each rule (the include rule joined by ""), empty for the body kinds (field, enum field, struct, union, exception, enum, service, function and the rest), none for kinds the dispatch does not name; no kind uses the subblock strategy, which is modelled on its own as `Render.Subblocks` |
| Render.Inline | lib/src/main/java/thriftlabs/thriftfmt/Util.java:148-163 | the same, for the inline strategy over a prefix of the children |
| Render.BlockNodes | lib/src/main/java/thriftlabs/thriftfmt/PureThriftFormatter.java:255-275 | the block strategy only adds output and keeps the alignment fields; `RenderProps.BlockOfTerminals` gives the text, gaps and indents it writes |
| Render.InlineNodes | lib/src/main/java/thriftlabs/thriftfmt/PureThriftFormatter.java:277-285 | the nodes are written on one line, only adding output; `RenderProps.InlineNodesOfTerminals` gives the text and joins it writes |
| Render.BlockStep | lib/src/main/java/thriftlabs/thriftfmt/PureThriftFormatter.java:258-273 | one block iteration: the node unwrapped, the gap to its predecessor requested, the indent set, the node written, and the tail comment with the hooks |
| Render.FormatNode | lib/src/main/java/thriftlabs/thriftfmt/PureThriftFormatter.java:191-197 | the node rendered from an empty output with nothing pending and no indent |
| Render.PureDefaultOption | lib/src/main/java/thriftlabs/thriftfmt/PureThriftFormatter.java:35 | the engine's default option: indent 4, both patches and comments on, no alignment, and it is normalised |
| Render.PureEnv | lib/src/main/java/thriftlabs/thriftfmt/Util.java:128-129 | the measuring engine sees the same tree and tokens, with no hooks |
| Render.Width | lib/src/main/java/thriftlabs/thriftfmt/Util.java:128-129 | the length of the node as a fresh engine without hooks renders it |
| Render.RowOf | lib/src/main/java/thriftlabs/thriftfmt/Util.java:282-290 | one role and width per child of a body entry |
| Render.RowsOf | lib/src/main/java/thriftlabs/thriftfmt/Util.java:282-290 | one row per body entry |
| Render.HalvesOf | lib/src/main/java/thriftlabs/thriftfmt/Util.java:123-133 | one entry per body node: no split for a node that is neither a field nor an enum field, a failure for one whose split raises, and two empty halves otherwise; `RenderProps.HalvesOfFails` states when it fails |
| Render.Widths | lib/src/main/java/thriftlabs/thriftfmt/Util.java:364-367 | one width per body entry |
| Render.Align | lib/src/main/java/thriftlabs/thriftfmt/ThriftFormatter.java:166-181 | field alignment takes priority over assign alignment, every positive column is shifted by the indent, and either computation can raise; on success only the alignment fields change |
| Render.CommentFallback | lib/src/main/java/thriftlabs/thriftfmt/ThriftFormatter.java:183-186 | with comments kept a comment column still 0 becomes one past the widest entry, shifted by the indent; otherwise nothing changes |
| Render.BeforeSubblocks | lib/src/main/java/thriftlabs/thriftfmt/ThriftFormatter.java:166-187 | without the hooks nothing changes; on success only the three alignment fields change; `RenderProps.AlignCases` and `RenderProps.CommentFallbackColumn` state the priority, the indent shift, the failure and the fallback |
| Render.AfterSubblocks | lib/src/main/java/thriftlabs/thriftfmt/ThriftFormatter.java:189-193 | with the hooks, the three alignment fields are cleared; the output and cursor are kept |
| Render.Subblocks | lib/src/main/java/thriftlabs/thriftfmt/Util.java:165-186 | the head on one line, a newline, the leading run of the body kind as an indented block between the two hooks, a newline, then the rest on one line; it fails when the alignment hook raises, and with `IllegalArgumentException` when the indent is negative (`String.repeat`) |
| Render.AfterAlign | lib/src/main/java/thriftlabs/thriftfmt/Util.java:179-183 | the run as a block indented by the indent setting, the columns cleared, a newline, and the rest on one line |
| RenderProps.NewlinesCoalesce | lib/src/main/java/thriftlabs/thriftfmt/PureThriftFormatter.java:216-225 | two newline requests leave the larger pending, in either order |
| RenderProps.AppendFlushesOnce | lib/src/main/java/thriftlabs/thriftfmt/PureThriftFormatter.java:203-209 | pending newlines are written once, before the first of two appends |
| RenderProps.PaddingReachesColumn | lib/src/main/java/thriftlabs/thriftfmt/ThriftFormatter.java:223-244 | padding a line shorter than the target makes the current line exactly the target long |
| RenderProps.PaddingPastColumn | lib/src/main/java/thriftlabs/thriftfmt/ThriftFormatter.java:223-234 | a line already at or past the target is left as it is |
| RenderProps.TailScanFirst | lib/src/main/java/thriftlabs/thriftfmt/ThriftFormatter.java:254-270 | the comment taken is the first comment-channel token on the last token's line, and nothing is taken when the line has no comment |
| RenderProps.InlineScanOrdered | lib/src/main/java/thriftlabs/thriftfmt/ThriftFormatter.java:297-311 | comments before a terminal are written in stream order |
| RenderProps.InlineScanComplete | lib/src/main/java/thriftlabs/thriftfmt/ThriftFormatter.java:297-309 | every comment between the last written token and the terminal is collected |
| RenderProps.AddedTrans | lib/src/main/java/thriftlabs/thriftfmt/PureThriftFormatter.java:199-201 | the text added over two steps is the text of the first step followed by that of the second |
| RenderProps.ProcessNodePure | lib/src/main/java/thriftlabs/thriftfmt/PureThriftFormatter.java:287-291 | without the hooks, the text a node adds depends only on the pending count and indent before it, not on the output so far |
| RenderProps.DispatchPure | lib/src/main/java/thriftlabs/thriftfmt/PureThriftFormatter.java:293-374 | the same for the handler |
| RenderProps.InlinePure | lib/src/main/java/thriftlabs/thriftfmt/Util.java:148-163 | the same for the inline strategy |
| RenderProps.BlockNodesPure | lib/src/main/java/thriftlabs/thriftfmt/PureThriftFormatter.java:255-275 | the same for the block strategy |
| RenderProps.FormatNodeDependsOnlyOnNode | lib/src/main/java/thriftlabs/thriftfmt/PureThriftFormatter.java:191-197 | `formatNode` on a fresh engine gives the same string whatever state it is called in, so a measured width is a property of the node |
| RenderProps.InlineOfTerminals | lib/src/main/java/thriftlabs/thriftfmt/Util.java:148-163 | a node whose children are plain terminals is written as their texts, with the join exactly where the tight function does not hold |
| RenderProps.InlineTerminalStep | lib/src/main/java/thriftlabs/thriftfmt/Util.java:152-159 | one more terminal child adds the join (when due) and its text |
| RenderProps.TerminalWritesText | lib/src/main/java/thriftlabs/thriftfmt/PureThriftFormatter.java:376-384 | with nothing pending and no indent, a terminal writes exactly its text |
| RenderProps.MapTypeSpacing | lib/src/main/java/thriftlabs/thriftfmt/PureThriftFormatter.java:470-482 | in a map type a space goes before a child exactly when the previous child is `,` |
| RenderProps.ListSeparatorSpacing | lib/src/main/java/thriftlabs/thriftfmt/Util.java:192-194 | a space goes before every later child except a list separator |
| RenderProps.TupleSpacing | lib/src/main/java/thriftlabs/thriftfmt/Util.java:200-205 | no space around parentheses or before a separator, one space elsewhere |
| RenderProps.SilentKindsWriteNothing | lib/src/main/java/thriftlabs/thriftfmt/PureThriftFormatter.java:484-530 | an empty or missing handler writes nothing beyond the alignment padding |
| RenderProps.FieldHalvesHaveNoWidth | lib/src/main/java/thriftlabs/thriftfmt/Util.java:128-129 | a split half, a field or enum field node, renders to the empty string on a fresh engine |
| RenderProps.BlockOfTerminals | lib/src/main/java/thriftlabs/thriftfmt/PureThriftFormatter.java:255-275 | without the hooks, a block of terminals writes the pending newlines, then each node with the indent before it and, from the second on, the gap `BlockGap` asks for |
| RenderProps.InlineNodesOfTerminals | lib/src/main/java/thriftlabs/thriftfmt/PureThriftFormatter.java:277-285 | without the hooks, a list of terminals is written after the pending newlines and the indent, with the join between each two |
| RenderProps.HalvesOfFails | lib/src/main/java/thriftlabs/thriftfmt/Util.java:100-113 | the split of a body entry raises exactly for a field or enum field with neither `=` nor a separator among its children |
| RenderProps.AlignCases | lib/src/main/java/thriftlabs/thriftfmt/ThriftFormatter.java:166-181 | field mode alone decides whether alignment raises and keeps the assign column; assign mode raises exactly when a leading field does not split and keeps the field columns; positive columns are shifted by the indent; with neither mode nothing changes |
| RenderProps.CommentFallbackColumn | lib/src/main/java/thriftlabs/thriftfmt/ThriftFormatter.java:183-186 | with comments kept and the comment column still 0, it stays 0 when nothing renders, and is otherwise one past the widest entry plus the indent |
| RenderProps.IncludeDocument | lib/src/test/java/thriftlabs/thriftfmt/PureThriftFormatterTest.java:12 | the parse tree of `include "shared.thrift"` is well formed |
| RenderProps.IncludeEnv | lib/src/test/java/thriftlabs/thriftfmt/PureThriftFormatterTest.java:12-14 | the test's tree and tokens are a valid engine input without hooks, with either include join |
| RenderProps.SharedThriftIncludeAsWritten | lib/src/main/java/thriftlabs/thriftfmt/PureThriftFormatter.java:398-400 | as written, the engine formats the unit test's `include        "shared.thrift"` as `include"shared.thrift"` |
| RenderProps.SharedThriftInclude | lib/src/test/java/thriftlabs/thriftfmt/PureThriftFormatterTest.java:10-17 | with the include rule joining by a space, the test's document formats as `include "shared.thrift"`, as the test expects |
| RenderProps.IncludeInstance | lib/src/main/java/thriftlabs/thriftfmt/PureThriftFormatter.java:398-400 | the two renderings of one include document: glued as written, spaced when corrected |
| RenderProps.IncludeRenders | lib/src/main/java/thriftlabs/thriftfmt/PureThriftFormatter.java:398-400 | the include node writes the keyword, the rule's join (empty as written, a space when corrected) and the path |
| RenderProps.IncludeFormats | lib/src/test/java/thriftlabs/thriftfmt/PureThriftFormatterTest.java:10-17 | the whole include document formats as the keyword, the rule's join and the path, nothing more |
| Util.AssignScan | lib/src/main/java/thriftlabs/thriftfmt/Util.java:97-106 | the scan stops at the first `=` or separator, or at the end |
| Util.AssignSplitAsWritten | lib/src/main/java/thriftlabs/thriftfmt/Util.java:91-116 | the split as written: the children before the first `=` or separator and the rest, or `IndexOutOfBoundsException` when neither occurs |
| Util.AssignSplitAsWrittenFails | lib/src/main/java/thriftlabs/thriftfmt/Util.java:108-114 | the code as written fails exactly for a field with neither `=` nor a separator |
| Util.AssignSplit | lib/src/main/java/thriftlabs/thriftfmt/Util.java:91-116 | the two halves concatenate to the children; the left half has no `=` or separator; the right half is empty or starts with one |
| Util.AssignSplitAgrees | lib/src/main/java/thriftlabs/thriftfmt/Util.java:91-116 | wherever the code as written succeeds, it gives the corrected split |
| Util.SplitFieldChildrenByAssign | lib/src/main/java/thriftlabs/thriftfmt/Util.java:91-116 | the loop computes the split as written, error included |
| Util.RepeatSplit | lib/src/main/java/thriftlabs/thriftfmt/Util.java:212-225 | the two parts concatenate to the input; the run is all of the kind; the rest is empty or starts with another kind |
| Util.RepeatSplitUnique | lib/src/main/java/thriftlabs/thriftfmt/Util.java:212-225 | any split with those three properties is this one |
| Util.SplitRepeatNodes | lib/src/main/java/thriftlabs/thriftfmt/Util.java:212-225 | the loop returns the maximal leading run and the rest |
| Util.LeadingSplits | lib/src/main/java/thriftlabs/thriftfmt/Util.java:123-127 | the entries before the first one that cannot be split |
| Util.MaxSizes | lib/src/main/java/thriftlabs/thriftfmt/Util.java:119-135 | both maxima bound every measured half and are attained, or are 0 |
| Util.GetSplitFieldsLeftRightSize | lib/src/main/java/thriftlabs/thriftfmt/Util.java:119-135 | the loop stops at the first node that does not split and raises `IndexOutOfBoundsException` at a field whose split raises; otherwise it returns the maxima over the leading fields |
| Util.SplitSizesFails | lib/src/main/java/thriftlabs/thriftfmt/Util.java:119-135 | the measurement raises exactly when a field fails to split before the walk reaches a node that is not a field, and then with `IndexOutOfBoundsException` |
| Util.AssignPaddingColumns | lib/src/main/java/thriftlabs/thriftfmt/Util.java:325-348 | both columns are 0 exactly for an empty body or one not starting with a field; otherwise `=` goes one past the widest left half, and the comment column leaves room for every right half, plus a space after halves wider than a separator |
| Util.AssignPadding | lib/src/main/java/thriftlabs/thriftfmt/Util.java:325-348 | the assign and comment columns from the measured halves, or the exception; `Util.AssignPaddingColumns` states them |
| Util.CalcFieldAlignByAssignPadding | lib/src/main/java/thriftlabs/thriftfmt/Util.java:325-348 | the method computes the assign and comment columns, or the exception the split raises |
| Util.MaxWidth | lib/src/main/java/thriftlabs/thriftfmt/Util.java:363-367 | the maximum bounds every width and is attained, or is 0 |
| Util.SubBlocksCommentPaddingColumn | lib/src/main/java/thriftlabs/thriftfmt/Util.java:362-373 | the comment column is 0 exactly when nothing renders; otherwise it is one past the widest entry |
| Util.CalcSubBlocksCommentPadding | lib/src/main/java/thriftlabs/thriftfmt/Util.java:362-373 | the loop computes that column |
| Util.SubBlocksCommentPadding | lib/src/main/java/thriftlabs/thriftfmt/Util.java:362-373 | 0 when nothing renders, otherwise one past the widest entry; `Util.SubBlocksCommentPaddingColumn` states it |
| Util.LevelsKeys | lib/src/main/java/thriftlabs/thriftfmt/Util.java:262-274 | every levelled name is the role of some child, at a level of at least 0 |
| Util.Levels | lib/src/main/java/thriftlabs/thriftfmt/Util.java:262-274 | the role levels: for each adjacent pair of a field's children the later role is raised to one past the earlier; `Util.LevelsKeys` states what it records |
| Util.LengthsKeys | lib/src/main/java/thriftlabs/thriftfmt/Util.java:281-290 | every measured child's level has a length of at least its width, and every measured level belongs to a role |
| Util.RoleLevelsRecorded | lib/src/main/java/thriftlabs/thriftfmt/Util.java:262-290 | every role's level has a measured length |
| Util.NameLevels | lib/src/main/java/thriftlabs/thriftfmt/Util.java:262-274 | the nested loops compute the role levels |
| Util.MaxLevel | lib/src/main/java/thriftlabs/thriftfmt/Util.java:277 | the largest level, which some role has |
| Util.LevelLengths | lib/src/main/java/thriftlabs/thriftfmt/Util.java:281-290 | the widest rendering per level, or the `NullPointerException` when a child's role has no level |
| Util.LevelPaddings | lib/src/main/java/thriftlabs/thriftfmt/Util.java:292-306 | each level's column is the level plus the widths of all lower levels, one less at the separator's level; the separator's missing level raises `NullPointerException` |
| Util.RolePaddings | lib/src/main/java/thriftlabs/thriftfmt/Util.java:308-312 | every role gets the column of its level |
| Util.ColumnsFrom | lib/src/main/java/thriftlabs/thriftfmt/Util.java:292-322 | the role columns and the comment column, or the exception when the separator has no role |
| Util.FieldPadding | lib/src/main/java/thriftlabs/thriftfmt/Util.java:256-323 | field alignment: empty for an empty body or one not starting with a field, empty when the levels are not contiguous, otherwise the role and comment columns, or the exceptions `Collections.max` and the unboxing raise |
| Util.CalcFieldAlignByFieldPaddingMap | lib/src/main/java/thriftlabs/thriftfmt/Util.java:256-323 | the method returns the same columns or exception as the specification, including the early empty results |
| Util.PrefixWidthMonotone | lib/src/main/java/thriftlabs/thriftfmt/Util.java:301-303 | the summed widths of lower levels grow with the level |
| Util.FieldColumnsOrdered | lib/src/main/java/thriftlabs/thriftfmt/Util.java:292-312 | a role at a lower level gets a column at least one less than a role at a higher level, so columns keep the roles' order |
| Util.FieldColumnsShared | lib/src/main/java/thriftlabs/thriftfmt/Util.java:308-312 | every role has a column, and roles at one level share it |
| FormatterUtil.GetSubArray | lib/src/main/java/thriftlabs/thriftfmt/FormatterUtil.java:215-219 | a new array holding the elements from the start index on |
| FormatterUtil.SplitRepeatNodes | lib/src/main/java/thriftlabs/thriftfmt/FormatterUtil.java:198-209 | two new arrays holding the same run and rest as the list version |
| FormatterUtil.HalvesOf | lib/src/main/java/thriftlabs/thriftfmt/Util.java:57-89 | the halves the `Util` copy measures for the same entries: no split for a node that is neither a field nor an enum field, a failure for a field that does not split, its two widths otherwise |
| FormatterUtil.CastSizesAgree | lib/src/main/java/thriftlabs/thriftfmt/FormatterUtil.java:102-120 | this copy raises exactly when some entry is not a plain field that splits, with `ClassCastException` when the first such entry is not a field and `IndexOutOfBoundsException` when it does not split; otherwise it gives the maxima `Util` gives |
| FormatterUtil.CastSizesRaises | lib/src/main/java/thriftlabs/thriftfmt/FormatterUtil.java:102-120 | this copy fails exactly when some entry is not measurable, and with the exception of the first such entry |
| FormatterUtil.CastSizesMatch | lib/src/main/java/thriftlabs/thriftfmt/FormatterUtil.java:102-120 | where it succeeds, it gives the maxima over the same halves `Util` measures |
| FormatterUtil.LeadingSplitsAtLeast | lib/src/main/java/thriftlabs/thriftfmt/Util.java:123-127 | a splittable prefix is covered by the leading splits |
| FormatterUtil.GetSplitFieldsLeftRightSize | lib/src/main/java/thriftlabs/thriftfmt/FormatterUtil.java:102-120 | the loop computes the cast-and-measure result, either exception included |
| FormatterUtil.CastSizesErrSticks | lib/src/main/java/thriftlabs/thriftfmt/FormatterUtil.java:106-108 | once the cast has failed, later entries do not change the result |
| Patch.RequiredScan | lib/src/main/java/thriftlabs/thriftfmt/ThriftFormatter.java:64-74 | the index of the first requiredness or type child, or the end |
| Patch.PatchFieldRequired | lib/src/main/java/thriftlabs/thriftfmt/ThriftFormatter.java:52-90 | `Patch.PatchFieldRequiredSpec` states it: the tree stays well formed and only the field's children change; a field outside a function or throws list without a qualifier before its type gets exactly one new qualifier node, holding a fake `required` terminal, inserted at the type's index (at the end when it has no type), all other children kept in order; any other node is left alone |
| Patch.PatchFieldRequiredSpec | lib/src/main/java/thriftlabs/thriftfmt/ThriftFormatter.java:52-90 | the tree stays well formed and only the field's children change; a field that needs a qualifier has one afterwards; a field without one gets exactly one qualifier node with a fake `required` terminal at the type index, the other children kept in order; any other node is left alone |
| Patch.InsertRequired | lib/src/main/java/thriftlabs/thriftfmt/ThriftFormatter.java:77-89 | `Patch.InsertRequiredShape` states it: the tree stays well formed, two nodes are added, and the qualifier is spliced in where the scan stopped, the other children kept in order |
| Patch.InsertRequiredShape | lib/src/main/java/thriftlabs/thriftfmt/ThriftFormatter.java:76-89 | the tree stays well formed and grows by two nodes, only the field changes, the qualifier is spliced in at the scan index with the other children kept in order, the scan then stops at it, and it holds one fake `required` terminal |
| Patch.PatchFieldListSeparator | lib/src/main/java/thriftlabs/thriftfmt/ThriftFormatter.java:92-121 | an enum field, field or function ends in a `,` separator afterwards: an existing separator's token is rewritten, or a new separator is appended; other nodes are unchanged |
| Patch.PatchFieldListSeparatorSpec | lib/src/main/java/thriftlabs/thriftfmt/ThriftFormatter.java:92-121 | the tree stays well formed and only the node changes; an enum field, field or function ends in a `,` afterwards; an existing separator keeps the child count, otherwise exactly one separator is appended after the old children; other nodes are left alone |
| Patch.DropLastChild | lib/src/main/java/thriftlabs/thriftfmt/ThriftFormatter.java:153-156 | the node without its last child; `Patch.DropLastChildSpec` states that the tree stays well formed and nothing else changes |
| Patch.DropLastChildSpec | lib/src/main/java/thriftlabs/thriftfmt/ThriftFormatter.java:153-156 | the tree stays well formed, only the node changes, and its children lose exactly the last one |
| Patch.PatchRemoveLastListSeparator | lib/src/main/java/thriftlabs/thriftfmt/ThriftFormatter.java:123-157 | the intended removal (`Patch.PatchRemoveLastListSeparatorSpec`): an inline node that ends in a separator and has no sibling of its class directly after it loses that separator; nothing else changes |
| Patch.IsLastAsWritten | lib/src/main/java/thriftlabs/thriftfmt/ThriftFormatter.java:137-149 | the brothers test as written: the node is the final child or its next sibling is of the same class |
| Patch.PatchRemoveLastAsWritten | lib/src/main/java/thriftlabs/thriftfmt/ThriftFormatter.java:123-157 | the removal as written: an inline node that counts as last by that test and ends in a separator loses it |
| Patch.PatchRemoveLastAsWrittenSpec | lib/src/main/java/thriftlabs/thriftfmt/ThriftFormatter.java:123-157 | the tree stays well formed and only the node changes; the node loses exactly its last child when it is an inline field or annotation, counts as last as written and ends in a separator; otherwise nothing changes |
| Patch.PatchRemoveLastListSeparatorSpec | lib/src/main/java/thriftlabs/thriftfmt/ThriftFormatter.java:123-157 | the same for the intended test: the node loses its separator when no sibling of its class follows it directly |
| Patch.SiblingTestsDisagree | lib/src/main/java/thriftlabs/thriftfmt/ThriftFormatter.java:144 | the two tests agree on the final child and disagree on every other: as written a node counts as last before a sibling of its class, as intended before one of another class |
| Patch.Apply | lib/src/main/java/thriftlabs/thriftfmt/ThriftFormatter.java:43-49 | one patch step keeps the tree well formed and changes only the visited node; the removal step uses the sibling test as written |
| Patch.ApplySteps | lib/src/main/java/thriftlabs/thriftfmt/Util.java:232-249 | steps in visit order keep the tree well formed and never shrink it |
| Patch.VisitShrinks | lib/src/main/java/thriftlabs/thriftfmt/Util.java:236-248 | each visit lowers the count of nodes still to visit |
| Patch.WalkAdvance | lib/src/main/java/thriftlabs/thriftfmt/Util.java:236-248 | after one visit the queue invariant holds for the new tree with the node's children enqueued |
| Patch.WalkStep | lib/src/main/java/thriftlabs/thriftfmt/Util.java:236-248 | the seen nodes stay distinct, below the tree's end and reached from the root through visited parents |
| Patch.WalkCloses | lib/src/main/java/thriftlabs/thriftfmt/Util.java:236-248 | when the queue is empty, every child of a visited node has been visited |
| Patch.PatchFieldRequiredIdempotent | lib/src/main/java/thriftlabs/thriftfmt/ThriftFormatter.java:52-90 | patching a field twice equals patching it once |
| Patch.PatchFieldListSeparatorIdempotent | lib/src/main/java/thriftlabs/thriftfmt/ThriftFormatter.java:92-121 | adding separators twice equals adding them once |
| Patch.TwoArguments | lib/src/main/java/thriftlabs/thriftfmt/ThriftFormatter.java:123-157 | a function with two argument fields, each ending in a separator, is a well-formed tree |
| Patch.RemoveLastAsWrittenDropsFirst | lib/src/main/java/thriftlabs/thriftfmt/ThriftFormatter.java:144 | as written, the separator of the first argument is dropped and the last one is kept |
| Patch.RemoveLastDropsLast | lib/src/main/java/thriftlabs/thriftfmt/ThriftFormatter.java:123-157 | the corrected patch drops the last argument's separator and keeps the first |
| Patch.RemoveLastLeavesNoTrailingSeparator | lib/src/main/java/thriftlabs/thriftfmt/ThriftFormatter.java:123-157 | after the patch the last argument no longer ends in a separator |
| Formatter.Formatter.Pure | lib/src/main/java/thriftlabs/thriftfmt/PureThriftFormatter.java:35-38 | a fresh engine without hooks and with the default option |
| Formatter.Formatter.constructor | lib/src/main/java/thriftlabs/thriftfmt/ThriftFormatter.java:31-35 | a formatter over the parsed document with the hooks on, empty alignment fields and last-token index -1 |
| Formatter.Formatter.SetOption | lib/src/main/java/thriftlabs/thriftfmt/PureThriftFormatter.java:40-42 | the option is replaced |
| Formatter.Formatter.Push | lib/src/main/java/thriftlabs/thriftfmt/PureThriftFormatter.java:199-201 | the text is added to the output |
| Formatter.Formatter.Append | lib/src/main/java/thriftlabs/thriftfmt/PureThriftFormatter.java:203-209 | the fields change as `Layout.Append` says |
| Formatter.Formatter.AppendCurrentLine | lib/src/main/java/thriftlabs/thriftfmt/PureThriftFormatter.java:211-214 | as `Layout.AppendCurrentLine` says |
| Formatter.Formatter.Newline | lib/src/main/java/thriftlabs/thriftfmt/PureThriftFormatter.java:216-225 | as `Layout.Newline` says |
| Formatter.Formatter.SetCurrentIndent | lib/src/main/java/thriftlabs/thriftfmt/PureThriftFormatter.java:227-229 | only the indent changes |
| Formatter.Formatter.PushCurrentIndent | lib/src/main/java/thriftlabs/thriftfmt/PureThriftFormatter.java:231-235 | as `Layout.PushCurrentIndent` says |
| Formatter.Formatter.GetCurrentLine | lib/src/main/java/thriftlabs/thriftfmt/ThriftFormatter.java:236-244 | "" while a newline is pending, otherwise the last line of the output |
| Formatter.Formatter.Padding | lib/src/main/java/thriftlabs/thriftfmt/ThriftFormatter.java:223-234 | as `Layout.Padding` says |
| Formatter.Formatter.AddTailComment | lib/src/main/java/thriftlabs/thriftfmt/ThriftFormatter.java:246-286 | the scan loop with its `break` and `continue` does what `Layout.TailComment` says |
| Formatter.Formatter.ScanTailComments | lib/src/main/java/thriftlabs/thriftfmt/ThriftFormatter.java:256-267 | the loop with `break` and `continue` collects exactly `Layout.TailScan` |
| Formatter.Formatter.WriteTailComment | lib/src/main/java/thriftlabs/thriftfmt/ThriftFormatter.java:275-284 | the fields change as `Layout.WriteTailComment` says |
| Formatter.Formatter.ScanInlineComments | lib/src/main/java/thriftlabs/thriftfmt/ThriftFormatter.java:297-309 | the loop collects exactly `Layout.InlineScan` |
| Formatter.Formatter.WriteComment | lib/src/main/java/thriftlabs/thriftfmt/ThriftFormatter.java:311-336 | one comment is written as `Layout.EmitComment` says |
| Formatter.Formatter.WriteComments | lib/src/main/java/thriftlabs/thriftfmt/ThriftFormatter.java:311-336 | the loop writes the collected comments as `Layout.EmitComments` says |
| Formatter.Formatter.AddInlineComments | lib/src/main/java/thriftlabs/thriftfmt/ThriftFormatter.java:288-339 | as `Layout.InlineComments` says |
| Formatter.Formatter.TerminalNode | lib/src/main/java/thriftlabs/thriftfmt/ThriftFormatter.java:341-349 | as `Layout.TerminalNode` says |
| Formatter.Formatter.AddAlignPadding | lib/src/main/java/thriftlabs/thriftfmt/ThriftFormatter.java:203-221 | as `Layout.AddAlignPadding` says |
| Formatter.Formatter.ProcessNode | lib/src/main/java/thriftlabs/thriftfmt/PureThriftFormatter.java:287-291 | the fields change as `Render.ProcessNode` says |
| Formatter.Formatter.Dispatch | lib/src/main/java/thriftlabs/thriftfmt/PureThriftFormatter.java:293-374 | as `Render.Dispatch` says, with the include rule as written |
| Formatter.Formatter.InlineContext | lib/src/main/java/thriftlabs/thriftfmt/Util.java:148-163 | the loop over the children does what `Render.Inline` says |
| Formatter.Formatter.InlineChild | lib/src/main/java/thriftlabs/thriftfmt/Util.java:153-159 | one iteration: the join when `JoinBefore` holds, then the child |
| Formatter.Formatter.ProcessBlockNodes | lib/src/main/java/thriftlabs/thriftfmt/PureThriftFormatter.java:255-275 | the loop does what `Render.BlockNodes` says |
| Formatter.Formatter.BlockNode | lib/src/main/java/thriftlabs/thriftfmt/PureThriftFormatter.java:258-273 | one iteration as `Render.BlockStep` says, returning the unwrapped node as the next `lastNode` |
| Formatter.Formatter.GapBefore | lib/src/main/java/thriftlabs/thriftfmt/PureThriftFormatter.java:259-269 | the node unwrapped, and after the first the gap `Render.BlockGap` asks for requested |
| Formatter.Formatter.ProcessInlineNodes | lib/src/main/java/thriftlabs/thriftfmt/PureThriftFormatter.java:277-285 | the loop does what `Render.InlineNodes` says |
| Formatter.Formatter.FormatNode | lib/src/main/java/thriftlabs/thriftfmt/PureThriftFormatter.java:191-197 | the output is reset, the node is written, and the output is returned |
| Formatter.Formatter.Measure | lib/src/main/java/thriftlabs/thriftfmt/Util.java:128-129 | a fresh engine measures the node's width, leaving this formatter untouched |
| Formatter.Formatter.MeasureRow | lib/src/main/java/thriftlabs/thriftfmt/Util.java:282-290 | the roles and widths of an entry's children |
| Formatter.Formatter.MeasureRows | lib/src/main/java/thriftlabs/thriftfmt/Util.java:282-290 | a row per body entry |
| Formatter.Formatter.MeasureWidths | lib/src/main/java/thriftlabs/thriftfmt/Util.java:364-367 | a width per body entry |
| Formatter.Formatter.BeforeSubblocks | lib/src/main/java/thriftlabs/thriftfmt/ThriftFormatter.java:166-187 | the alignment fields are set as `Render.BeforeSubblocks` says; `ok` is false exactly when that computation raises |
| Formatter.Formatter.Align | lib/src/main/java/thriftlabs/thriftfmt/ThriftFormatter.java:166-181 | the alignment fields set as `Render.Align` says; `ok` is false exactly when it raises |
| Formatter.Formatter.CommentFallback | lib/src/main/java/thriftlabs/thriftfmt/ThriftFormatter.java:183-186 | the comment column set as `Render.CommentFallback` says |
| Formatter.Formatter.AfterSubblocks | lib/src/main/java/thriftlabs/thriftfmt/ThriftFormatter.java:189-193 | as `Render.AfterSubblocks` says |
| Formatter.Formatter.SubblocksContext | lib/src/main/java/thriftlabs/thriftfmt/Util.java:165-186 | as `Render.Subblocks` says; `ok` is false exactly when that computation raises (the alignment hook, or a negative indent) |
| Formatter.Formatter.SubblocksHead | lib/src/main/java/thriftlabs/thriftfmt/Util.java:169-171 | the head children on one line, then a newline |
| Formatter.Formatter.AfterAlign | lib/src/main/java/thriftlabs/thriftfmt/Util.java:179-183 | the fields change as `Render.AfterAlign` says |
| Formatter.Formatter.PatchFieldRequired | lib/src/main/java/thriftlabs/thriftfmt/ThriftFormatter.java:52-90 | the tree becomes `Patch.PatchFieldRequired` of the old tree |
| Formatter.Formatter.ScanRequired | lib/src/main/java/thriftlabs/thriftfmt/ThriftFormatter.java:64-74 | the loop stops at the index `Patch.RequiredScan` gives |
| Formatter.Formatter.PatchFieldListSeparator | lib/src/main/java/thriftlabs/thriftfmt/ThriftFormatter.java:92-121 | the tree becomes `Patch.PatchFieldListSeparator` of the old tree |
| Formatter.Formatter.PatchRemoveLastListSeparator | lib/src/main/java/thriftlabs/thriftfmt/ThriftFormatter.java:123-157 | the brothers loop makes the tree `Patch.PatchRemoveLastAsWritten` of the old tree, the sibling test as written |
| Formatter.Formatter.IsLastSibling | lib/src/main/java/thriftlabs/thriftfmt/ThriftFormatter.java:137-149 | the brothers loop returns exactly `Patch.IsLastAsWritten` |
| Formatter.Formatter.Visit | lib/src/main/java/thriftlabs/thriftfmt/ThriftFormatter.java:43-49 | the tree becomes `Patch.Apply` of the old tree for the chosen step, and the formatter stays valid |
| Formatter.Formatter.WalkNode | lib/src/main/java/thriftlabs/thriftfmt/Util.java:232-249 | the queue walk applies the step in visit order; every node is visited once, each is the root or a child of a visited node, and no child of a visited node is left unvisited |
| Formatter.Formatter.PatchDocument | lib/src/main/java/thriftlabs/thriftfmt/ThriftFormatter.java:42-50 | the walks keep the formatter valid; with both patch flags off the tree is unchanged |
| Formatter.Formatter.Format | lib/src/main/java/thriftlabs/thriftfmt/ThriftFormatter.java:37-40 | the result is the patched document rendered from an empty output, with the include rule and the removal as written; with both patch flags off the tree is unchanged |
| Formatter.StepKeepsValidEnv | lib/src/main/java/thriftlabs/thriftfmt/ThriftFormatter.java:43-49 | a patch step keeps the tokens of every source terminal in range |

## Left out

- The ANTLR lexer and parser (`Thrift.parse`), the command line and the
  file handling are not part of this model. The tree and token stream
  are inputs.
- The Java classes do not all compile together. `ThriftFormatter` calls
  `FormatterUtil.walkNode`, `calcFieldAlignBy*` and
  `calcSubBlocksCommentPadding`, which exist only in `Util`. The model
  uses the `Util` versions, and models the differing `FormatterUtil`
  helpers on their own.
- Dispatch by reflection (`instanceof` on context classes) becomes a
  `Kind` per class. Classes the dispatch does not name fall through and
  do nothing, as the Java does.
- Hook overriding is a flag (`thrift`) rather than inheritance. The
  private `TerminalNode` of the engine is treated as overridden by
  `ThriftFormatter.TerminalNode`.
- A token whose text is `null` is not modelled. Tokens always have text,
  so the early `return`s at ThriftFormatter.java:271-273 and 315-317 never
  happen.
- Formatter.Formatter.WalkNode: a `null` node in the queue, which ends the
  Java loop, cannot occur in an arena.
- Formatter.Formatter.GetCurrentLine: Java throws on an output made only
  of newlines, because the split array is empty. The model returns "" in
  that case, and `JavaString.SplitEmptyOnlyForSeparators` pins the case
  down.
- Layout.CurrentLine: the same divergence; it returns "" for an output
  made only of newlines, where `parts[parts.length - 1]` throws.
- JavaString.LastPart: the same divergence; it returns "" when the split
  is empty, where Java's indexing throws.
- Render.Subblocks requires `start` to be at most the number of
  children. Java's `subList` would throw otherwise.
- The contexts `listSeparatorInline`, `tupleTightInline` and
  `fieldSubblocks` are defined but no handler uses them, and the model
  defines the same strategies. Their spacing rules are proved
  (`ListSeparatorSpacing`, `TupleSpacing`).
- Render.HalvesOf takes the width of each half of a split field as 0.
  The half is a new field context, whose handler writes nothing
  (`RenderProps.FieldHalvesHaveNoWidth`).
- Formatter.Formatter.PatchDocument states validity and the no-patch
  case, not the final tree. The tree after each walk is stated by
  `WalkNode` in terms of the visit order.
- Render.ProcessNode, Render.Dispatch, Render.Inline: their own contracts
  state only growth and framing. What they write is stated for terminals
  (`RenderProps.TerminalWritesText`), for inline nodes over terminals
  (`RenderProps.InlineOfTerminals`) and for the include document
  (`RenderProps.IncludeFormats`), not for every kind.
- Render.BlockNodes, Render.InlineNodes: the text, gaps, indents and joins they write
  are stated only without the hooks and over terminals
  (`RenderProps.BlockOfTerminals`, `RenderProps.InlineNodesOfTerminals`).
  With the hooks, the tail comment after each block node is stated only
  through `Render.BlockStep` and `HookProps.TailCommentText`.
- Tree.NotSameClass: compares `Kind`s. Parse-tree classes that the dispatch
  does not name share one kind, so two such nodes of different classes
  count as the same class here.
- Formatter.Formatter.Format: the final tree after the patch walks is
  not stated in closed form (see `PatchDocument`).
- The `forEach` that shifts the field columns by the indent is a map
  comprehension.
- Integers are unbounded: widths and columns never approach 2^31.

## Findings

| source | as written | input that shows it | evidently intended | confidence | as-written member | corrected member |
|---|---|---|---|---|---|---|
| lib/src/main/java/thriftlabs/thriftfmt/PureThriftFormatter.java:398-400 | the include rule joins its children with the empty string | `include        "shared.thrift"` formats as `include"shared.thrift"`; the unit test at lib/src/test/java/thriftlabs/thriftfmt/PureThriftFormatterTest.java:10-17 expects `include "shared.thrift"` | join the include's children with one space | not executed | RenderProps.SharedThriftIncludeAsWritten | RenderProps.SharedThriftInclude |
| lib/src/main/java/thriftlabs/thriftfmt/ThriftFormatter.java:144 | the brothers loop marks a node as last when its next sibling has the same class (`!notSameClass`) | a function `f(1: i32 a, 2: i32 b)` with separators patched in: the separator after `a` is removed and the one after `b` kept | a node is last when it has no next sibling or the next one is of another class | not executed | Patch.RemoveLastAsWrittenDropsFirst | Patch.PatchRemoveLastListSeparatorSpec |
| lib/src/main/java/thriftlabs/thriftfmt/Util.java:108-114 | when no `=` or separator is found, `i` is moved one past the end before `subList(0, i)` | a field `1: i32 a` with separators not patched in: `subList` throws `IndexOutOfBoundsException` | keep every child on the left and nothing on the right | not executed | Util.AssignSplitAsWrittenFails | Util.AssignSplit |

The formatter itself (`Formatter.Formatter.Format`) follows the code as
written in all three cases. The corrected include join is the
`spacedInclude` setting of the layout environment. The corrected removal
is `Patch.PatchRemoveLastListSeparator`, and the corrected split is
`Util.AssignSplit`. Each is proved to have the intended property, and
`Patch.SiblingTestsDisagree` shows where the two sibling tests part.
