/**
  The helpers of `Util`: splitting a field's children at its `=`, splitting
  a body into its leading run of one kind, and the arithmetic of the three
  alignment calculations. Widths of rendered nodes come in as data: the
  caller measures them with a fresh formatter, as `Util` does.
 */
module Util {
  import opened Tree
  import opened Errors

  predicate InRange(ns: seq<Node>, cs: seq<nat>) {
    forall j | 0 <= j < |cs| :: cs[j] < |ns|
  }

  /** The children that end the left half of a field: `=` or a separator. */
  predicate IsAssignOrSeparator(ns: seq<Node>, c: nat)
    requires c < |ns|
  {
    IsToken(ns, c, "=") || ns[c].kind == ListSeparator
  }

  /** Where the scan of `splitFieldChildrenByAssign` stops: the first `=` or
      separator, or the end. */
  function AssignScan(ns: seq<Node>, cs: seq<nat>): (i: nat)
    requires InRange(ns, cs)
    ensures i <= |cs|
    ensures forall j | 0 <= j < i :: !IsAssignOrSeparator(ns, cs[j])
    ensures i < |cs| ==> IsAssignOrSeparator(ns, cs[i])
    decreases |cs|
  {
    if cs == [] || IsAssignOrSeparator(ns, cs[0]) then 0
    else 1 + AssignScan(ns, cs[1..])
  }

  datatype Split = Split(left: seq<nat>, right: seq<nat>)

  /** `splitFieldChildrenByAssign` as written: when the scan finds nothing
      the cut is moved one past the end, which `subList` rejects. */
  function AssignSplitAsWritten(ns: seq<Node>, cs: seq<nat>): Result<Split>
    requires InRange(ns, cs)
  {
    var i := AssignScan(ns, cs);
    var cut := if i == |cs| then i + 1 else i;
    if cut <= |cs| then Ok(Split(cs[..cut], cs[cut..])) else Err(IndexOutOfBounds)
  }

  /** The written split fails exactly for a field with neither `=` nor a
      separator, such as `1: i32 a` when separators are not patched in. */
  lemma AssignSplitAsWrittenFails(ns: seq<Node>, cs: seq<nat>)
    requires InRange(ns, cs)
    ensures AssignSplitAsWritten(ns, cs).Err? <==>
            forall j | 0 <= j < |cs| :: !IsAssignOrSeparator(ns, cs[j])
  {
  }

  /** `splitFieldChildrenByAssign` as intended: the children before the first
      `=` or separator, and the rest (all children on the left when there is
      neither). */
  function AssignSplit(ns: seq<Node>, cs: seq<nat>): (r: Split)
    requires InRange(ns, cs)
    ensures r.left + r.right == cs
    ensures InRange(ns, r.left) && InRange(ns, r.right)
    ensures forall j | 0 <= j < |r.left| :: !IsAssignOrSeparator(ns, r.left[j])
    ensures r.right == [] || IsAssignOrSeparator(ns, r.right[0])
  {
    var i := AssignScan(ns, cs);
    assert cs[..i] + cs[i..] == cs;
    Split(cs[..i], cs[i..])
  }

  /** Wherever the written code succeeds it agrees with the intended split. */
  lemma AssignSplitAgrees(ns: seq<Node>, cs: seq<nat>)
    requires InRange(ns, cs)
    requires AssignSplitAsWritten(ns, cs).Ok?
    ensures AssignSplitAsWritten(ns, cs).value == AssignSplit(ns, cs)
  {
  }

  /** The loop of `splitFieldChildrenByAssign`, as written. */
  method SplitFieldChildrenByAssign(ns: seq<Node>, cs: seq<nat>) returns (r: Result<Split>)
    requires InRange(ns, cs)
    ensures r == AssignSplitAsWritten(ns, cs)
  {
    var i := 0;
    var curLeft := true;
    while i < |cs|
      invariant 0 <= i <= |cs|
      invariant forall j | 0 <= j < i :: !IsAssignOrSeparator(ns, cs[j])
    {
      if IsAssignOrSeparator(ns, cs[i]) {
        curLeft := false;
        break;
      }
      i := i + 1;
    }
    if curLeft {
      i := i + 1;
    }
    if i <= |cs| {
      r := Ok(Split(cs[..i], cs[i..]));
    } else {
      r := Err(IndexOutOfBounds);
    }
  }

  /** `splitRepeatNodes`: the maximal leading run of kind `k`, and the rest. */
  function RepeatSplit(ns: seq<Node>, items: seq<nat>, k: Kind): (r: Split)
    requires InRange(ns, items)
    ensures r.left + r.right == items
    ensures InRange(ns, r.left) && InRange(ns, r.right)
    ensures forall j | 0 <= j < |r.left| :: ns[r.left[j]].kind == k
    ensures r.right == [] || ns[r.right[0]].kind != k
    decreases |items|
  {
    if items == [] || ns[items[0]].kind != k then Split([], items)
    else
      var rest := RepeatSplit(ns, items[1..], k);
      assert items == [items[0]] + items[1..];
      Split([items[0]] + rest.left, rest.right)
  }

  /** The run and the rest are determined by the three properties above. */
  lemma {:induction false} RepeatSplitUnique(ns: seq<Node>, items: seq<nat>, k: Kind, s: Split)
    requires InRange(ns, items)
    requires s.left + s.right == items
    requires InRange(ns, s.left) && InRange(ns, s.right)
    requires forall j | 0 <= j < |s.left| :: ns[s.left[j]].kind == k
    requires s.right == [] || ns[s.right[0]].kind != k
    ensures s == RepeatSplit(ns, items, k)
    decreases |items|
  {
    if s.left != [] {
      assert items[0] == s.left[0];
      assert s.left[1..] + s.right == items[1..];
      RepeatSplitUnique(ns, items[1..], k, Split(s.left[1..], s.right));
      assert s.left == [s.left[0]] + s.left[1..];
    } else if items != [] {
      assert ns[items[0]].kind != k;
    }
  }

  /** The loop of `splitRepeatNodes`. */
  method SplitRepeatNodes(ns: seq<Node>, items: seq<nat>, k: Kind) returns (run: seq<nat>, rest: seq<nat>)
    requires InRange(ns, items)
    ensures Split(run, rest) == RepeatSplit(ns, items, k)
  {
    run, rest := [], [];
    var index := 0;
    while index < |items|
      invariant 0 <= index <= |items|
      invariant run == items[..index]
      invariant forall j | 0 <= j < index :: ns[items[j]].kind == k
    {
      if ns[items[index]].kind != k {
        rest := items[index..];
        assert items[..index] + items[index..] == items;
        RepeatSplitUnique(ns, items, k, Split(run, rest));
        return;
      }
      run := run + [items[index]];
      index := index + 1;
    }
    assert items[..index] == items;
    RepeatSplitUnique(ns, items, k, Split(run, rest));
  }

  /** Rendered widths of the two halves of a field; `NoSplit` where
      `splitFieldByAssign` returns null (the node is neither a field nor an
      enum field), and `SplitFails` where it raises (a field with neither
      `=` nor a separator, see `AssignSplitAsWritten`). */
  datatype Halves = NoSplit | SplitFails | Halves(left: nat, right: nat)

  /** The number of leading entries that did split. */
  function LeadingSplits(hs: seq<Halves>): (n: nat)
    ensures n <= |hs|
    ensures forall j | 0 <= j < n :: hs[j].Halves?
    ensures n < |hs| ==> !hs[n].Halves?
    decreases |hs|
  {
    if hs == [] || !hs[0].Halves? then 0 else 1 + LeadingSplits(hs[1..])
  }

  datatype Sizes = Sizes(leftMax: nat, rightMax: nat)

  /** The maxima over the first `k` halves. */
  function MaxSizes(hs: seq<Halves>, k: nat): (r: Sizes)
    requires k <= |hs| && forall j | 0 <= j < k :: hs[j].Halves?
    ensures forall j | 0 <= j < k :: hs[j].left <= r.leftMax && hs[j].right <= r.rightMax
    ensures r.leftMax == 0 || exists j | 0 <= j < k :: hs[j].left == r.leftMax
    ensures r.rightMax == 0 || exists j | 0 <= j < k :: hs[j].right == r.rightMax
  {
    if k == 0 then Sizes(0, 0)
    else
      var prev := MaxSizes(hs, k - 1);
      var h := hs[k - 1];
      Sizes(if h.left > prev.leftMax then h.left else prev.leftMax,
            if h.right > prev.rightMax then h.right else prev.rightMax)
  }

  /** `getSplitFieldsLeftRightSize`: the maxima over the leading entries
      that split; the walk stops at the first node that is not a field, and
      raises at a field whose split raises. */
  function SplitSizes(hs: seq<Halves>): Result<Sizes> {
    var n := LeadingSplits(hs);
    if n < |hs| && hs[n].SplitFails? then Err(IndexOutOfBounds) else Ok(MaxSizes(hs, n))
  }

  /** Some field fails to split before the walk reaches a node that is not
      a field. */
  predicate FailsBeforeStop(hs: seq<Halves>) {
    exists j | 0 <= j < |hs| :: hs[j].SplitFails? && forall i | 0 <= i < j :: hs[i].Halves?
  }

  /** The measurement raises exactly when a field fails to split before the
      walk stops, and then with `IndexOutOfBoundsException`. */
  lemma SplitSizesFails(hs: seq<Halves>)
    ensures SplitSizes(hs).Err? <==> FailsBeforeStop(hs)
    ensures SplitSizes(hs).Err? ==> SplitSizes(hs).error == IndexOutOfBounds
  {
    var n := LeadingSplits(hs);
    if FailsBeforeStop(hs) {
      var j :| 0 <= j < |hs| && hs[j].SplitFails? && forall i | 0 <= i < j :: hs[i].Halves?;
    }
  }

  /** The loop of `getSplitFieldsLeftRightSize`: it stops at the first node
      that does not split. */
  method GetSplitFieldsLeftRightSize(hs: seq<Halves>) returns (r: Result<Sizes>)
    ensures r == SplitSizes(hs)
  {
    var leftMaxSize: nat, rightMaxSize: nat := 0, 0;
    var i := 0;
    while i < |hs|
      invariant 0 <= i <= LeadingSplits(hs)
      invariant Sizes(leftMaxSize, rightMaxSize) == MaxSizes(hs, i)
    {
      if hs[i].NoSplit? {
        break;
      }
      if hs[i].SplitFails? {
        return Err(IndexOutOfBounds);
      }
      leftMaxSize := if hs[i].left > leftMaxSize then hs[i].left else leftMaxSize;
      rightMaxSize := if hs[i].right > rightMaxSize then hs[i].right else rightMaxSize;
      i := i + 1;
    }
    r := Ok(Sizes(leftMaxSize, rightMaxSize));
  }

  /** Columns for assign alignment: where `=` goes, and where a trailing
      comment goes. */
  datatype AssignColumns = AssignColumns(assign: int, comment: int)

  /** `calcFieldAlignByAssignPadding`. */
  function AssignPadding(hs: seq<Halves>): Result<AssignColumns> {
    if hs == [] || hs[0].NoSplit? then Ok(AssignColumns(0, 0))
    else
      match SplitSizes(hs)
      case Err(e) => Err(e)
      case Ok(sizes) =>
        var assign := sizes.leftMax + 1;
        var comment := assign + sizes.rightMax + 1;
        Ok(AssignColumns(assign, if sizes.rightMax <= 1 then comment - 1 else comment))
  }

  /** Assign alignment raises exactly when a leading field fails to split;
      it is rejected (both columns 0) exactly for an empty body or one that
      does not start with a field; otherwise `=` goes one column past the
      widest left half of the leading fields, and the comment column leaves
      room for the widest right half, plus a space when that half is more
      than a lone separator. */
  lemma AssignPaddingColumns(hs: seq<Halves>)
    ensures AssignPadding(hs).Err? <==> FailsBeforeStop(hs)
    ensures AssignPadding(hs) == Ok(AssignColumns(0, 0)) <==> hs == [] || hs[0].NoSplit?
    ensures var c := AssignPadding(hs);
            c.Ok? && hs != [] && !hs[0].NoSplit? ==>
              (forall j | 0 <= j < LeadingSplits(hs) :: hs[j].left < c.value.assign)
              && (exists j | 0 <= j < LeadingSplits(hs) :: hs[j].left == c.value.assign - 1)
              && (forall j | 0 <= j < LeadingSplits(hs) :: c.value.assign + hs[j].right <= c.value.comment)
              && (forall j | 0 <= j < LeadingSplits(hs) :: hs[j].right > 1 ==> c.value.assign + hs[j].right < c.value.comment)
  {
    SplitSizesFails(hs);
    if hs != [] && hs[0].NoSplit? {
      assert !FailsBeforeStop(hs) by {
        forall j | 0 <= j < |hs| && hs[j].SplitFails?
          ensures !(forall i | 0 <= i < j :: hs[i].Halves?)
        {
          assert j > 0 && !hs[0].Halves?;
        }
      }
    }
    if hs != [] && !hs[0].NoSplit? && SplitSizes(hs).Ok? {
      var n := LeadingSplits(hs);
      assert n > 0;
      var sizes := MaxSizes(hs, n);
      if sizes.leftMax == 0 {
        assert hs[0].left == 0;
      }
    }
  }

  /** `calcFieldAlignByAssignPadding`, as a method over the measured halves. */
  method CalcFieldAlignByAssignPadding(hs: seq<Halves>) returns (r: Result<AssignColumns>)
    ensures r == AssignPadding(hs)
  {
    if hs == [] || hs[0].NoSplit? {
      return Ok(AssignColumns(0, 0));
    }
    var sizes := GetSplitFieldsLeftRightSize(hs);
    if sizes.Err? {
      return Err(sizes.error);
    }
    var assignPadding := sizes.value.leftMax + 1;
    var commentPadding := assignPadding + sizes.value.rightMax + 1;
    if sizes.value.rightMax <= 1 {
      commentPadding := commentPadding - 1;
    }
    r := Ok(AssignColumns(assignPadding, commentPadding));
  }

  /** The widest of the first `k` widths (0 for none). */
  function MaxWidth(ws: seq<nat>, k: nat): (m: nat)
    requires k <= |ws|
    ensures forall j | 0 <= j < k :: ws[j] <= m
    ensures m == 0 || exists j | 0 <= j < k :: ws[j] == m
  {
    if k == 0 then 0
    else
      var prev := MaxWidth(ws, k - 1);
      if ws[k - 1] > prev then ws[k - 1] else prev
  }

  /** `calcSubBlocksCommentPadding` over the rendered widths of the body. */
  function SubBlocksCommentPadding(ws: seq<nat>): nat {
    var m := MaxWidth(ws, |ws|);
    if m > 0 then m + 1 else 0
  }

  /** The comment column is 0 when nothing in the body renders, and
      otherwise one past the widest rendering. */
  lemma SubBlocksCommentPaddingColumn(ws: seq<nat>)
    ensures SubBlocksCommentPadding(ws) == 0 <==> forall j | 0 <= j < |ws| :: ws[j] == 0
    ensures SubBlocksCommentPadding(ws) > 0 ==>
              (forall j | 0 <= j < |ws| :: ws[j] < SubBlocksCommentPadding(ws))
              && (exists j | 0 <= j < |ws| :: ws[j] + 1 == SubBlocksCommentPadding(ws))
  {
    var m := MaxWidth(ws, |ws|);
    if m == 0 {
      assert forall j | 0 <= j < |ws| :: ws[j] == 0;
    }
  }

  /** The loop of `calcSubBlocksCommentPadding`. */
  method CalcSubBlocksCommentPadding(ws: seq<nat>) returns (padding: nat)
    ensures padding == SubBlocksCommentPadding(ws)
  {
    padding := 0;
    var i := 0;
    while i < |ws|
      invariant 0 <= i <= |ws|
      invariant padding == MaxWidth(ws, i)
    {
      padding := if ws[i] > padding then ws[i] else padding;
      i := i + 1;
    }
    if padding > 0 {
      padding := padding + 1;
    }
  }

  // ---------------------------------------------------------------------
  // Field-level alignment (`calcFieldAlignByFieldPaddingMap`)
  // ---------------------------------------------------------------------

  /** One child of a body entry: its role (`getFieldChildName`) and the
      width of its rendering. */
  datatype Role = Role(name: string, width: nat)

  /** One entry of the body: whether it is a field or an enum field, and the
      roles of its children in order. */
  datatype Row = Row(isField: bool, roles: seq<Role>)

  /** The role of a list separator, the one column that hugs its left
      neighbour. */
  const SeparatorRole := KindName(ListSeparator)

  function Max(a: int, b: int): int {
    if a >= b then a else b
  }

  /** One adjacent pair `a`, `b`: both roles get level 0 if unseen, then
      `b` is raised to at least one more than `a`. */
  function LevelStep(m: map<string, int>, a: string, b: string): map<string, int> {
    var m1 := if a in m then m else m[a := 0];
    var m2 := if b in m1 then m1 else m1[b := 0];
    m2[b := Max(m2[b], m2[a] + 1)]
  }

  function PairCount(roles: seq<Role>): nat {
    if |roles| == 0 then 0 else |roles| - 1
  }

  /** The levels after the first `i` adjacent pairs of one entry. */
  function RowLevels(m: map<string, int>, roles: seq<Role>, i: nat): map<string, int>
    requires i <= PairCount(roles)
  {
    if i == 0 then m
    else LevelStep(RowLevels(m, roles, i - 1), roles[i - 1].name, roles[i].name)
  }

  /** The levels after the first `f` entries. */
  function Levels(rows: seq<Row>, f: nat): map<string, int>
    requires f <= |rows|
  {
    if f == 0 then map[]
    else
      var roles := rows[f - 1].roles;
      RowLevels(Levels(rows, f - 1), roles, PairCount(roles))
  }

  /** `Collections.max(levels) == levels.size() - 1`: the accepted shape. */
  predicate Contiguous(m: map<string, int>) {
    (forall r | r in m :: m[r] <= |m| - 1) && (exists r | r in m :: m[r] == |m| - 1)
  }

  /** Every role of every entry has a level (otherwise unboxing fails). */
  predicate AllRolesLevelled(rows: seq<Row>, levels: map<string, int>) {
    forall f, j | 0 <= f < |rows| && 0 <= j < |rows[f].roles| :: rows[f].roles[j].name in levels
  }

  function Get(ll: map<int, nat>, level: int): nat {
    if level in ll then ll[level] else 0
  }

  /** The widest rendering per level after the first `i` children of one
      entry (roles without a level are skipped; see `AllRolesLevelled`). */
  function RowLengths(ll: map<int, nat>, levels: map<string, int>, roles: seq<Role>, i: nat): map<int, nat>
    requires i <= |roles|
  {
    if i == 0 then ll
    else
      var prev := RowLengths(ll, levels, roles, i - 1);
      var role := roles[i - 1];
      if role.name in levels then
        var level := levels[role.name];
        prev[level := if Get(prev, level) >= role.width then Get(prev, level) else role.width]
      else prev
  }

  function Lengths(rows: seq<Row>, levels: map<string, int>, f: nat): map<int, nat>
    requires f <= |rows|
  {
    if f == 0 then map[]
    else
      var roles := rows[f - 1].roles;
      RowLengths(Lengths(rows, levels, f - 1), levels, roles, |roles|)
  }

  /** The total width of the levels below `level`. */
  function PrefixWidth(ll: map<int, nat>, level: int): nat
    decreases if level <= 0 then 0 else level
  {
    if level <= 0 then 0 else PrefixWidth(ll, level - 1) + Get(ll, level - 1)
  }

  /** The column of a level: one space per lower level plus their widths,
      less one at the separator's level. */
  function LevelPad(ll: map<int, nat>, level: int, sepLevel: int): int {
    level - (if level == sepLevel then 1 else 0) + PrefixWidth(ll, level)
  }

  datatype FieldColumns = FieldColumns(paddingMap: map<string, int>, comment: int)

  /** `calcFieldAlignByFieldPaddingMap`: a column per role and a comment
      column, no columns when the body is rejected, or the exception Java
      raises. */
  function FieldPadding(rows: seq<Row>): Result<FieldColumns> {
    if rows == [] || !rows[0].isField then Ok(FieldColumns(map[], 0))
    else
      var levels := Levels(rows, |rows|);
      if levels == map[] then Err(NoSuchElement)
      else if !Contiguous(levels) then Ok(FieldColumns(map[], 0))
      else if !AllRolesLevelled(rows, levels) then Err(NullPointer)
      else
        var ll := Lengths(rows, levels, |rows|);
        RoleLevelsRecorded(rows, levels);
        if SeparatorRole !in levels then Err(NullPointer)
        else Ok(Columns(levels, ll))
  }

  /** The columns once every level is measured: each role at its level's
      column, the comment after all levels, one less because the separator
      has a role. */
  function Columns(levels: map<string, int>, ll: map<int, nat>): FieldColumns
    requires SeparatorRole in levels
    requires forall r | r in levels :: levels[r] in ll
  {
    var sepLevel := levels[SeparatorRole];
    var pads := map level | level in ll :: LevelPad(ll, level, sepLevel);
    FieldColumns(map r | r in levels :: pads[levels[r]], |ll| + PrefixWidth(ll, |levels|) - 1)
  }

  /** `r` is the role of some child of the first `f` entries. */
  predicate RoleOf(rows: seq<Row>, f: nat, r: string)
    requires f <= |rows|
  {
    exists g, j | 0 <= g < f && 0 <= j < |rows[g].roles| :: rows[g].roles[j].name == r
  }

  lemma {:induction false} RowLevelsKeys(m: map<string, int>, roles: seq<Role>, i: nat)
    requires i <= PairCount(roles)
    requires forall r | r in m :: m[r] >= 0
    ensures forall r | r in RowLevels(m, roles, i) :: RowLevels(m, roles, i)[r] >= 0
    ensures forall r | r in RowLevels(m, roles, i) ::
              r in m || exists j | 0 <= j < |roles| :: roles[j].name == r
  {
    if i > 0 {
      RowLevelsKeys(m, roles, i - 1);
    }
  }

  /** Levels are never negative, and only roles that occur get one. */
  lemma {:induction false} LevelsKeys(rows: seq<Row>, f: nat)
    requires f <= |rows|
    ensures forall r | r in Levels(rows, f) :: Levels(rows, f)[r] >= 0 && RoleOf(rows, f, r)
  {
    if f > 0 {
      LevelsKeys(rows, f - 1);
      var roles := rows[f - 1].roles;
      RowLevelsKeys(Levels(rows, f - 1), roles, PairCount(roles));
      forall r | r in Levels(rows, f) ensures RoleOf(rows, f, r) {
        if r in Levels(rows, f - 1) {
          var g, j :| 0 <= g < f - 1 && 0 <= j < |rows[g].roles| && rows[g].roles[j].name == r;
          assert 0 <= g < f;
        } else {
          var j :| 0 <= j < |roles| && roles[j].name == r;
          assert rows[f - 1].roles[j].name == r;
        }
      }
    }
  }

  lemma {:induction false} RowLengthsKeys(ll: map<int, nat>, levels: map<string, int>, roles: seq<Role>, i: nat)
    requires i <= |roles|
    ensures ll.Keys <= RowLengths(ll, levels, roles, i).Keys
    ensures forall j | 0 <= j < i && roles[j].name in levels ::
              levels[roles[j].name] in RowLengths(ll, levels, roles, i)
    ensures forall level | level in RowLengths(ll, levels, roles, i) ::
              level in ll || exists r | r in levels :: levels[r] == level
  {
    if i > 0 {
      RowLengthsKeys(ll, levels, roles, i - 1);
    }
  }

  /** Each child's level gets a width, and only levels of roles do. */
  lemma {:induction false} LengthsKeys(rows: seq<Row>, levels: map<string, int>, f: nat)
    requires f <= |rows|
    ensures forall g, j | 0 <= g < f && 0 <= j < |rows[g].roles| && rows[g].roles[j].name in levels ::
              levels[rows[g].roles[j].name] in Lengths(rows, levels, f)
    ensures forall level | level in Lengths(rows, levels, f) :: exists r | r in levels :: levels[r] == level
  {
    if f > 0 {
      LengthsKeys(rows, levels, f - 1);
      var roles := rows[f - 1].roles;
      RowLengthsKeys(Lengths(rows, levels, f - 1), levels, roles, |roles|);
    }
  }

  /** Every role's level has a width (the lookup of its column succeeds). */
  lemma RoleLevelsRecorded(rows: seq<Row>, levels: map<string, int>)
    requires levels == Levels(rows, |rows|)
    ensures forall r | r in levels :: levels[r] in Lengths(rows, levels, |rows|)
  {
    LevelsKeys(rows, |rows|);
    LengthsKeys(rows, levels, |rows|);
    forall r | r in levels ensures levels[r] in Lengths(rows, levels, |rows|) {
      var g, j :| 0 <= g < |rows| && 0 <= j < |rows[g].roles| && rows[g].roles[j].name == r;
    }
  }

  /** The first loop of `calcFieldAlignByFieldPaddingMap`: levels over the
      adjacent pairs of children of every entry. */
  method NameLevels(rows: seq<Row>) returns (levels: map<string, int>)
    ensures levels == Levels(rows, |rows|)
  {
    levels := map[];
    for f := 0 to |rows|
      invariant levels == Levels(rows, f)
    {
      var roles := rows[f].roles;
      var i := 0;
      while i + 1 < |roles|
        invariant i <= PairCount(roles)
        invariant levels == RowLevels(Levels(rows, f), roles, i)
      {
        var a := roles[i].name;
        var b := roles[i + 1].name;
        if a !in levels {
          levels := levels[a := 0];
        }
        if b !in levels {
          levels := levels[b := 0];
        }
        levels := levels[b := Max(levels[b], levels[a] + 1)];
        i := i + 1;
      }
    }
  }

  /** `Collections.max` over the levels of a non-empty map. */
  method MaxLevel(levels: map<string, int>) returns (mx: int)
    requires levels != map[]
    ensures forall r | r in levels :: levels[r] <= mx
    ensures exists r | r in levels :: levels[r] == mx
  {
    var r0 :| r0 in levels;
    mx := levels[r0];
    var rest := levels.Keys - {r0};
    while rest != {}
      invariant rest <= levels.Keys
      invariant r0 in levels && levels[r0] <= mx
      invariant exists r | r in levels :: levels[r] == mx
      invariant forall r | r in levels && r !in rest :: levels[r] <= mx
      decreases |rest|
    {
      var r :| r in rest;
      if levels[r] > mx {
        mx := levels[r];
      }
      rest := rest - {r};
    }
  }

  /** The second loop: the widest rendering per level, or the exception
      raised when a child's role has no level. */
  method LevelLengths(rows: seq<Row>, levels: map<string, int>) returns (r: Result<map<int, nat>>)
    ensures AllRolesLevelled(rows, levels) ==> r == Ok(Lengths(rows, levels, |rows|))
    ensures !AllRolesLevelled(rows, levels) ==> r == Err(NullPointer)
  {
    var ll: map<int, nat> := map[];
    for f := 0 to |rows|
      invariant ll == Lengths(rows, levels, f)
      invariant forall g, j | 0 <= g < f && 0 <= j < |rows[g].roles| :: rows[g].roles[j].name in levels
    {
      var roles := rows[f].roles;
      for i := 0 to |roles|
        invariant ll == RowLengths(Lengths(rows, levels, f), levels, roles, i)
        invariant forall j | 0 <= j < i :: roles[j].name in levels
      {
        var name := roles[i].name;
        if name !in levels {
          return Err(NullPointer);
        }
        var level := levels[name];
        var old_ := if level in ll then ll[level] else 0;
        ll := ll[level := if old_ >= roles[i].width then old_ else roles[i].width];
      }
    }
    r := Ok(ll);
  }

  /** The third loop, visiting the levels in ascending order: the column of
      every level, or the exception raised when no separator has a level. */
  method LevelPaddings(ll: map<int, nat>, levels: map<string, int>, top: nat) returns (r: Result<map<int, int>>)
    requires forall level | level in ll :: 0 <= level < top
    ensures SeparatorRole !in levels ==> r == if ll == map[] then Ok(map[]) else Err(NullPointer)
    ensures SeparatorRole in levels ==>
              r == Ok(map level | level in ll :: LevelPad(ll, level, levels[SeparatorRole]))
  {
    var pads: map<int, int> := map[];
    for level := 0 to top
      invariant SeparatorRole !in levels ==> pads == map[] && forall l | l in ll :: l >= level
      invariant SeparatorRole in levels ==>
                  pads == map l | l in ll && l < level :: LevelPad(ll, l, levels[SeparatorRole])
    {
      if level in ll {
        if SeparatorRole !in levels {
          return Err(NullPointer);
        }
        var padding := level;
        if level == levels[SeparatorRole] {
          padding := padding - 1;
        }
        for i := 0 to level
          invariant padding == level - (if level == levels[SeparatorRole] then 1 else 0) + PrefixWidth(ll, i)
        {
          padding := padding + Get(ll, i);
        }
        pads := pads[level := padding];
      }
    }
    if SeparatorRole in levels {
      assert pads == map l | l in ll :: LevelPad(ll, l, levels[SeparatorRole]);
    } else {
      assert forall l | l in ll :: l >= top;
      assert ll.Keys == {};
    }
    r := Ok(pads);
  }

  /** The fourth loop: every role gets the column of its level. */
  method RolePaddings(levels: map<string, int>, pads: map<int, int>) returns (paddingMap: map<string, int>)
    requires forall r | r in levels :: levels[r] in pads
    ensures paddingMap == map r | r in levels :: pads[levels[r]]
  {
    paddingMap := map[];
    var rest := levels.Keys;
    while rest != {}
      invariant rest <= levels.Keys
      invariant paddingMap == map r | r in levels && r !in rest :: pads[levels[r]]
      decreases |rest|
    {
      var name :| name in rest;
      paddingMap := paddingMap[name := pads[levels[name]]];
      rest := rest - {name};
    }
  }

  /** The last two loops, once the levels are measured. */
  method ColumnsFrom(levels: map<string, int>, ll: map<int, nat>) returns (r: Result<FieldColumns>)
    requires forall r | r in levels :: levels[r] in ll
    requires forall level | level in ll :: 0 <= level < |levels|
    requires ll != map[]
    ensures SeparatorRole !in levels ==> r == Err(NullPointer)
    ensures SeparatorRole in levels ==> r == Ok(Columns(levels, ll))
  {
    var pads := LevelPaddings(ll, levels, |levels|);
    if pads.Err? {
      return Err(pads.error);
    }
    var paddingMap := RolePaddings(levels, pads.value);
    var comment := |ll|;
    for level := 0 to |levels|
      invariant comment == |ll| + PrefixWidth(ll, level)
    {
      if level in ll {
        comment := comment + ll[level];
      }
    }
    if SeparatorRole in paddingMap {
      comment := comment - 1;
    }
    r := Ok(FieldColumns(paddingMap, comment));
  }

  /** `calcFieldAlignByFieldPaddingMap` over the roles and widths of the
      body's entries. */
  method CalcFieldAlignByFieldPaddingMap(rows: seq<Row>) returns (r: Result<FieldColumns>)
    ensures r == FieldPadding(rows)
  {
    if rows == [] || !rows[0].isField {
      return Ok(FieldColumns(map[], 0));
    }
    var levels := NameLevels(rows);
    if levels == map[] {
      return Err(NoSuchElement);
    }
    var mx := MaxLevel(levels);
    if mx != |levels| - 1 {
      return Ok(FieldColumns(map[], 0));
    }
    assert Contiguous(levels);
    var lengths := LevelLengths(rows, levels);
    if lengths.Err? {
      return Err(lengths.error);
    }
    var ll := lengths.value;
    LevelsKeys(rows, |rows|);
    LengthsKeys(rows, levels, |rows|);
    RoleLevelsRecorded(rows, levels);
    assert ll != map[] by {
      var r0 :| r0 in levels;
    }
    r := ColumnsFrom(levels, ll);
  }

  lemma {:induction false} PrefixWidthMonotone(ll: map<int, nat>, a: int, b: int)
    requires a <= b
    ensures PrefixWidth(ll, a) <= PrefixWidth(ll, b)
    decreases b - a
  {
    if a < b {
      PrefixWidthMonotone(ll, a, b - 1);
    }
  }

  /** Columns do not overlap: a role on a higher level starts after the
      widest rendering of a lower level plus one space, except that the
      separator's level hugs its left neighbour. */
  lemma FieldColumnsOrdered(levels: map<string, int>, ll: map<int, nat>, a: string, b: string)
    requires SeparatorRole in levels
    requires forall r | r in levels :: levels[r] in ll && levels[r] >= 0
    requires a in levels && b in levels && levels[a] < levels[b]
    ensures var pm := Columns(levels, ll).paddingMap;
            pm[b] >= pm[a] + ll[levels[a]] + (if levels[b] == levels[SeparatorRole] then 0 else 1)
  {
    var la, lb := levels[a], levels[b];
    var sep := levels[SeparatorRole];
    var pm := Columns(levels, ll).paddingMap;
    assert pm[a] == LevelPad(ll, la, sep) && pm[b] == LevelPad(ll, lb, sep);
    PrefixWidthMonotone(ll, la + 1, lb);
    assert PrefixWidth(ll, la + 1) == PrefixWidth(ll, la) + Get(ll, la);
  }

  /** Every role the columns place was levelled, and every levelled role
      gets a column; roles on one level share it. */
  lemma FieldColumnsShared(levels: map<string, int>, ll: map<int, nat>, a: string, b: string)
    requires SeparatorRole in levels
    requires forall r | r in levels :: levels[r] in ll
    requires a in levels && b in levels && levels[a] == levels[b]
    ensures Columns(levels, ll).paddingMap.Keys == levels.Keys
    ensures Columns(levels, ll).paddingMap[a] == Columns(levels, ll).paddingMap[b]
  {
    var pm := Columns(levels, ll).paddingMap;
    assert forall r | r in levels :: r in pm;
  }
}
