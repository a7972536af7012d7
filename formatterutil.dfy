/**
  The array-based copy of the helpers (`FormatterUtil`), where it differs
  from `Util`: results are fresh arrays, and the width measurement casts
  every entry to a field context instead of stopping at the first entry
  that is not a field.
 */
module FormatterUtil {
  import opened Tree
  import opened Errors
  import Util

  /** `getSubArray`: a fresh array holding `nodes[start..]`. */
  method GetSubArray(nodes: array<nat>, start: nat) returns (sub: array<nat>)
    requires start <= nodes.Length
    ensures fresh(sub)
    ensures sub[..] == nodes[start..]
  {
    sub := new nat[nodes.Length - start];
    var k := 0;
    while k < sub.Length
      invariant 0 <= k <= sub.Length
      invariant forall j | 0 <= j < k :: sub[j] == nodes[start + j]
      modifies sub
    {
      sub[k] := nodes[start + k];
      k := k + 1;
    }
  }

  /** The array `splitRepeatNodes`: the same leading run of kind `k` and
      rest as `Util.RepeatSplit`, in two fresh arrays. */
  method SplitRepeatNodes(ns: seq<Node>, nodes: array<nat>, k: Kind) returns (run: array<nat>, rest: array<nat>)
    requires Util.InRange(ns, nodes[..])
    ensures fresh(run) && fresh(rest)
    ensures Util.Split(run[..], rest[..]) == Util.RepeatSplit(ns, nodes[..], k)
  {
    var children: seq<nat> := [];
    var index := 0;
    while index < nodes.Length
      invariant 0 <= index <= nodes.Length
      invariant children == nodes[..index]
      invariant forall j | 0 <= j < index :: ns[nodes[j]].kind == k
    {
      if ns[nodes[index]].kind != k {
        run := new nat[|children|](j requires 0 <= j < |children| => children[j]);
        rest := GetSubArray(nodes, index);
        assert nodes[..index] + nodes[index..] == nodes[..];
        Util.RepeatSplitUnique(ns, nodes[..], k, Util.Split(run[..], rest[..]));
        return;
      }
      children := children + [nodes[index]];
      index := index + 1;
    }
    run := new nat[|children|](j requires 0 <= j < |children| => children[j]);
    rest := new nat[0];
    assert nodes[..index] == nodes[..];
    Util.RepeatSplitUnique(ns, nodes[..], k, Util.Split(run[..], rest[..]));
  }

  /** One body entry with the rendered widths of its two halves; `splits`
      is false when `splitFieldChildrenByAssign` raises on its children (no
      `=` and no separator). */
  datatype Measured = Measured(kind: Kind, splits: bool, left: nat, right: nat)

  /** An entry this copy measures without raising. */
  predicate Measurable(m: Measured) {
    m.kind == Field && m.splits
  }

  /** What the first entry this copy cannot measure raises: the cast comes
      first, then the split. */
  function Raised(m: Measured): JavaError {
    if m.kind != Field then ClassCast else IndexOutOfBounds
  }

  /** This copy of `getSplitFieldsLeftRightSize`: every entry is cast to a
      field context, so the first entry that is not a plain field (an enum
      field included) raises `ClassCastException`; a field that does not
      split raises `IndexOutOfBoundsException`. */
  function CastSizes(ms: seq<Measured>, k: nat): Result<Util.Sizes>
    requires k <= |ms|
  {
    if k == 0 then Ok(Util.Sizes(0, 0))
    else
      var prev := CastSizes(ms, k - 1);
      if prev.Err? then prev
      else if !Measurable(ms[k - 1]) then Err(Raised(ms[k - 1]))
      else
        var m := ms[k - 1];
        Ok(Util.Sizes(if m.left > prev.value.leftMax then m.left else prev.value.leftMax,
                      if m.right > prev.value.rightMax then m.right else prev.value.rightMax))
  }

  /** The halves `Util` measures for the same entries: it stops at the first
      entry that is neither a field nor an enum field. */
  function HalvesOf(ms: seq<Measured>): (hs: seq<Util.Halves>)
    ensures |hs| == |ms|
    ensures forall j | 0 <= j < |ms| ::
              hs[j] == if !IsFieldOrEnumField(ms[j].kind) then Util.NoSplit
                       else if !ms[j].splits then Util.SplitFails
                       else Util.Halves(ms[j].left, ms[j].right)
  {
    seq(|ms|, j requires 0 <= j < |ms| =>
      if !IsFieldOrEnumField(ms[j].kind) then Util.NoSplit
      else if !ms[j].splits then Util.SplitFails
      else Util.Halves(ms[j].left, ms[j].right))
  }

  /** The first `k` entries up to `j` are all measurable, and `j` is not. */
  predicate FirstUnmeasurable(ms: seq<Measured>, j: nat, k: nat)
    requires k <= |ms|
  {
    j < k && !Measurable(ms[j]) && forall i | 0 <= i < j :: Measurable(ms[i])
  }

  /** This copy raises exactly when some entry is not a plain field that
      splits, with the exception of the first such entry; otherwise it gives
      the maxima `Util` computes over the same entries. */
  lemma CastSizesAgree(ms: seq<Measured>, k: nat)
    requires k <= |ms|
    ensures CastSizes(ms, k).Err? <==> exists j | 0 <= j < k :: !Measurable(ms[j])
    ensures CastSizes(ms, k).Err? ==>
              exists j: nat :: FirstUnmeasurable(ms, j, k) && CastSizes(ms, k).error == Raised(ms[j])
    ensures CastSizes(ms, k).Ok? ==>
              Util.LeadingSplits(HalvesOf(ms)) >= k
              && CastSizes(ms, k).value == Util.MaxSizes(HalvesOf(ms), k)
  {
    CastSizesRaises(ms, k);
    if CastSizes(ms, k).Ok? {
      var hs := HalvesOf(ms);
      assert MeasuredAs(ms, hs, k);
      CastSizesMatch(ms, hs, k);
      LeadingSplitsAtLeast(hs, k);
    }
  }

  /** When and what this copy raises. */
  lemma {:induction false} CastSizesRaises(ms: seq<Measured>, k: nat)
    requires k <= |ms|
    ensures CastSizes(ms, k).Err? <==> exists j | 0 <= j < k :: !Measurable(ms[j])
    ensures CastSizes(ms, k).Err? ==>
              exists j: nat :: FirstUnmeasurable(ms, j, k) && CastSizes(ms, k).error == Raised(ms[j])
  {
    if k > 0 {
      CastSizesRaises(ms, k - 1);
      var prev := CastSizes(ms, k - 1);
      if prev.Err? {
        var j: nat :| FirstUnmeasurable(ms, j, k - 1) && prev.error == Raised(ms[j]);
        assert FirstUnmeasurable(ms, j, k);
      } else if !Measurable(ms[k - 1]) {
        assert FirstUnmeasurable(ms, k - 1, k) by {
          forall i | 0 <= i < k - 1
            ensures Measurable(ms[i])
          {
            assert !(0 <= i < k - 1 && !Measurable(ms[i]));
          }
        }
      }
    }
  }

  /** The first `k` entries measure, and `hs` holds their halves. */
  predicate MeasuredAs(ms: seq<Measured>, hs: seq<Util.Halves>, k: nat)
    requires k <= |ms| == |hs|
  {
    forall j | 0 <= j < k :: Measurable(ms[j]) && hs[j] == Util.Halves(ms[j].left, ms[j].right)
  }

  /** Over entries that all measure, both copies give the same maxima. */
  lemma {:induction false} CastSizesMatch(ms: seq<Measured>, hs: seq<Util.Halves>, k: nat)
    requires k <= |ms| == |hs|
    requires MeasuredAs(ms, hs, k)
    ensures forall j | 0 <= j < k :: hs[j].Halves?
    ensures CastSizes(ms, k) == Ok(Util.MaxSizes(hs, k))
  {
    if k > 0 {
      CastSizesMatch(ms, hs, k - 1);
      CastSizesStep(ms, hs, k);
    }
  }

  /** One more measurable entry raises both maxima the same way. */
  lemma CastSizesStep(ms: seq<Measured>, hs: seq<Util.Halves>, k: nat)
    requires 0 < k <= |ms| == |hs|
    requires MeasuredAs(ms, hs, k)
    requires CastSizes(ms, k - 1) == Ok(Util.MaxSizes(hs, k - 1))
    ensures CastSizes(ms, k) == Ok(Util.MaxSizes(hs, k))
  {
    var prev := Util.MaxSizes(hs, k - 1);
    var m := ms[k - 1];
    assert CastSizes(ms, k) == Ok(Util.Sizes(if m.left > prev.leftMax then m.left else prev.leftMax,
                                             if m.right > prev.rightMax then m.right else prev.rightMax));
  }

  lemma LeadingSplitsAtLeast(hs: seq<Util.Halves>, k: nat)
    requires k <= |hs| && forall j | 0 <= j < k :: hs[j].Halves?
    ensures Util.LeadingSplits(hs) >= k
  {
    var n := Util.LeadingSplits(hs);
  }

  /** The loop of this copy of `getSplitFieldsLeftRightSize`. */
  method GetSplitFieldsLeftRightSize(ms: seq<Measured>) returns (r: Result<Util.Sizes>)
    ensures r == CastSizes(ms, |ms|)
  {
    var leftMaxSize: nat, rightMaxSize: nat := 0, 0;
    for i := 0 to |ms|
      invariant CastSizes(ms, i) == Ok(Util.Sizes(leftMaxSize, rightMaxSize))
    {
      if ms[i].kind != Field {
        r := Err(ClassCast);
        CastSizesErrSticks(ms, i + 1, |ms|);
        return;
      }
      if !ms[i].splits {
        r := Err(IndexOutOfBounds);
        CastSizesErrSticks(ms, i + 1, |ms|);
        return;
      }
      leftMaxSize := if ms[i].left > leftMaxSize then ms[i].left else leftMaxSize;
      rightMaxSize := if ms[i].right > rightMaxSize then ms[i].right else rightMaxSize;
    }
    r := Ok(Util.Sizes(leftMaxSize, rightMaxSize));
  }

  /** Once the cast has failed, later entries do not change the outcome. */
  lemma {:induction false} CastSizesErrSticks(ms: seq<Measured>, k: nat, m: nat)
    requires k <= m <= |ms|
    requires CastSizes(ms, k).Err?
    ensures CastSizes(ms, m) == CastSizes(ms, k)
    decreases m - k
  {
    if k < m {
      CastSizesErrSticks(ms, k, m - 1);
    }
  }
}
