/**
 * The drop-off funnel (app.py compute_funnel).
 *
 * The "Drop-off Stage Split" sheet lists funnel stages with a count each.
 * When every stage name, lower-cased, is one of the configured stage names,
 * lower-cased, the stages are put in the configured order; otherwise they
 * keep sheet order and a warning is returned. Every stage gets its count as
 * a percentage of a base count, and every adjacent pair of stages a drop
 * row: the users lost and that loss as a percentage of the earlier stage.
 */
module Funnel {
  import opened Wrappers

  /** The configured canonical stage order. */
  const FunnelStageOrder: seq<string> := ["Enrolled", "Started", "In Progress", "Completed"]

  const MismatchWarning: string := "Funnel stages don't fully match configured order; using sheet order."

  /** A row of the sheet: its Stage cell and its All Count cell (None when not numeric). */
  datatype SplitRow = SplitRow(stage: string, count: Option<int>)

  /** The sheet; hasStage / hasCount say whether the Stage and All Count columns exist. */
  datatype SplitTable = SplitTable(hasStage: bool, hasCount: bool, rows: seq<SplitRow>)

  datatype Stage = Stage(name: string, count: int)

  /** A funnel row: stage, count and count as a percentage of the base count. */
  datatype FunnelRow = FunnelRow(name: string, count: int, pctOfBase: real)

  /** A drop row between two adjacent stages. */
  datatype DropRow = DropRow(fromStage: string, toStage: string, dropAbs: int, dropPct: real)

  /** The sheet is loaded, not empty, and has both columns. */
  predicate SplitUsable(split: Option<SplitTable>) {
    split.Some? && |split.value.rows| > 0 && split.value.hasStage && split.value.hasCount
  }

  /** The stages with their counts read as numbers, non-numeric counts as 0. */
  function Coerce(rows: seq<SplitRow>): (stages: seq<Stage>)
    ensures |stages| == |rows|
    ensures forall i :: 0 <= i < |rows| ==> stages[i] == Stage(rows[i].stage, rows[i].count.GetOr(0))
  {
    seq(|rows|, i requires 0 <= i < |rows| => Stage(rows[i].stage, rows[i].count.GetOr(0)))
  }

  // ---------------------------------------------------------------------------
  // Canonical order
  // ---------------------------------------------------------------------------

  /** Lower-cases the ASCII letters of a name. */
  function Lower(s: string): string {
    seq(|s|, i requires 0 <= i < |s| => if 'A' <= s[i] <= 'Z' then (s[i] as int + 32) as char else s[i])
  }

  /**
   * {name.lower(): i for i, name in enumerate(order[..n])}: a name whose
   * lower-cased form repeats maps to its last position.
   */
  function StageMapPrefix(order: seq<string>, n: nat): map<string, nat>
    requires n <= |order|
  {
    if n == 0 then map[]
    else StageMapPrefix(order, n - 1)[Lower(order[n - 1]) := n - 1]
  }

  /**
   * The map holds the lower-cased form of every configured name, and maps
   * it to the last position with that lower-cased form.
   */
  lemma {:induction false} StageMapPrefixSpec(order: seq<string>, n: nat)
    requires n <= |order|
    ensures forall i :: 0 <= i < n ==> Lower(order[i]) in StageMapPrefix(order, n)
    ensures forall k :: k in StageMapPrefix(order, n) ==>
      && StageMapPrefix(order, n)[k] < n
      && Lower(order[StageMapPrefix(order, n)[k]]) == k
      && forall j :: StageMapPrefix(order, n)[k] < j < n ==> Lower(order[j]) != k
  {
    if n > 0 {
      StageMapPrefixSpec(order, n - 1);
      var prev, key := StageMapPrefix(order, n - 1), Lower(order[n - 1]);
      var cur := prev[key := n - 1];
      assert cur == StageMapPrefix(order, n);
      forall k | k in cur
        ensures cur[k] < n && Lower(order[cur[k]]) == k && forall j :: cur[k] < j < n ==> Lower(order[j]) != k
      {
        if k != key {
          assert cur[k] == prev[k];
        }
      }
    }
  }

  function StageMap(order: seq<string>): map<string, nat> {
    StageMapPrefix(order, |order|)
  }

  /** The configured position of a stage (0 for a name that is not configured). */
  function Rank(m: map<string, nat>, name: string): nat {
    if Lower(name) in m then m[Lower(name)] else 0
  }

  /**
   * A stage name is known exactly when it equals some configured name up to
   * case, and its rank is then the last configured position it matches.
   */
  lemma KnownIffConfigured(order: seq<string>, name: string)
    ensures Lower(name) in StageMap(order) <==> exists i :: 0 <= i < |order| && Lower(order[i]) == Lower(name)
    ensures Lower(name) in StageMap(order) ==>
      var r := Rank(StageMap(order), name);
      && r < |order| && Lower(order[r]) == Lower(name)
      && forall j :: r < j < |order| ==> Lower(order[j]) != Lower(name)
  {
    StageMapPrefixSpec(order, |order|);
  }

  predicate AllKnown(stages: seq<Stage>, m: map<string, nat>) {
    forall i :: 0 <= i < |stages| ==> Lower(stages[i].name) in m
  }

  predicate RankSorted(stages: seq<Stage>, m: map<string, nat>) {
    forall i, j :: 0 <= i < j < |stages| ==> Rank(m, stages[i].name) <= Rank(m, stages[j].name)
  }

  /** ord is the _ord column of the rows: every row's configured position. */
  ghost predicate Tagged(rows: seq<Stage>, ord: seq<nat>, m: map<string, nat>) {
    |rows| == |ord| && forall k :: 0 <= k < |rows| ==> ord[k] == Rank(m, rows[k].name)
  }

  predicate SortedOrd(ord: seq<nat>, n: nat)
    requires n <= |ord|
  {
    forall k, l :: 0 <= k < l < n ==> ord[k] <= ord[l]
  }

  lemma TaggedSwap(rows: seq<Stage>, ord: seq<nat>, m: map<string, nat>, j: nat)
    requires Tagged(rows, ord, m) && 0 < j < |rows|
    ensures Tagged(rows[j - 1 := rows[j]][j := rows[j - 1]], ord[j - 1 := ord[j]][j := ord[j - 1]], m)
  {
  }

  /** Swaps rows j-1 and j together with their _ord entries. */
  method SwapRows(a: array<Stage>, ord: array<nat>, j: nat)
    requires 0 < j < a.Length == ord.Length
    modifies a, ord
    ensures a[..] == old(a[..])[j - 1 := old(a[j])][j := old(a[j - 1])]
    ensures ord[..] == old(ord[..])[j - 1 := old(ord[j])][j := old(ord[j - 1])]
    ensures multiset(a[..]) == old(multiset(a[..]))
  {
    a[j - 1], a[j] := a[j], a[j - 1];
    ord[j - 1], ord[j] := ord[j], ord[j - 1];
  }

  /**
   * Insertion of entry j of ord..[i]: apart from position j the prefix up to
   * i is sorted, and the entry at j is no larger than any after it.
   */
  predicate Inserting(ord: seq<nat>, i: nat, j: nat)
    requires j <= i < |ord|
  {
    && (forall k, l :: 0 <= k < l <= i && k != j && l != j ==> ord[k] <= ord[l])
    && (forall l :: j < l <= i ==> ord[j] <= ord[l])
  }

  lemma InsertingStep(ord: seq<nat>, i: nat, j: nat)
    requires 0 < j <= i < |ord| && Inserting(ord, i, j) && ord[j - 1] > ord[j]
    ensures Inserting(ord[j - 1 := ord[j]][j := ord[j - 1]], i, j - 1)
  {
  }

  lemma InsertingDone(ord: seq<nat>, i: nat, j: nat)
    requires j <= i < |ord| && Inserting(ord, i, j) && (j == 0 || ord[j - 1] <= ord[j])
    ensures SortedOrd(ord, i + 1)
  {
  }

  /** Moves row i left past every earlier row with a larger _ord; the rows after i stay where they are. */
  method InsertRow(a: array<Stage>, ord: array<nat>, i: nat, ghost m: map<string, nat>)
    requires i < a.Length == ord.Length
    requires Tagged(a[..], ord[..], m) && SortedOrd(ord[..], i)
    modifies a, ord
    ensures Tagged(a[..], ord[..], m) && SortedOrd(ord[..], i + 1)
    ensures multiset(a[..]) == old(multiset(a[..]))
    ensures a[i + 1..] == old(a[i + 1..]) && ord[i + 1..] == old(ord[i + 1..])
  {
    var j := i;
    while j > 0 && ord[j - 1] > ord[j]
      invariant 0 <= j <= i
      invariant Tagged(a[..], ord[..], m) && Inserting(ord[..], i, j)
      invariant multiset(a[..]) == old(multiset(a[..]))
      invariant a[i + 1..] == old(a[i + 1..]) && ord[i + 1..] == old(ord[i + 1..])
    {
      TaggedSwap(a[..], ord[..], m, j);
      InsertingStep(ord[..], i, j);
      SwapRows(a, ord, j);
      j := j - 1;
    }
    InsertingDone(ord[..], i, j);
  }

  /**
   * sort_values("_ord", inplace=True): an insertion sort of the rows by
   * their _ord column, which is carried along in the parallel array `ord`.
   */
  method SortByOrd(a: array<Stage>, ord: array<nat>, ghost m: map<string, nat>)
    requires a.Length == ord.Length && Tagged(a[..], ord[..], m)
    modifies a, ord
    ensures Tagged(a[..], ord[..], m) && SortedOrd(ord[..], ord.Length)
    ensures multiset(a[..]) == old(multiset(a[..]))
  {
    var i := 0;
    while i < a.Length
      invariant 0 <= i <= a.Length
      invariant Tagged(a[..], ord[..], m) && SortedOrd(ord[..], i)
      invariant multiset(a[..]) == old(multiset(a[..]))
    {
      InsertRow(a, ord, i, m);
      i := i + 1;
    }
  }

  /** A tagged, _ord-sorted frame is sorted by configured position. */
  lemma TaggedSortedIsRankSorted(rows: seq<Stage>, ord: seq<nat>, m: map<string, nat>)
    requires Tagged(rows, ord, m) && SortedOrd(ord, |ord|)
    ensures RankSorted(rows, m)
  {
  }

  // ---------------------------------------------------------------------------
  // Base count and percentages
  // ---------------------------------------------------------------------------

  function Counts(stages: seq<Stage>): (cs: seq<int>)
    ensures |cs| == |stages| && forall i :: 0 <= i < |stages| ==> cs[i] == stages[i].count
  {
    seq(|stages|, i requires 0 <= i < |stages| => stages[i].count)
  }

  /** The largest count. */
  function MaxOf(cs: seq<int>): (mx: int)
    requires |cs| > 0
    ensures mx in cs
    ensures forall i :: 0 <= i < |cs| ==> cs[i] <= mx
  {
    if |cs| == 1 then cs[0]
    else
      var rest := MaxOf(cs[1..]);
      if cs[0] >= rest then cs[0] else rest
  }

  /**
   * The first count, or the largest when the first is not positive; it is
   * positive exactly when some count is.
   */
  function BaseCount(cs: seq<int>): (base: int)
    requires |cs| > 0
    ensures cs[0] > 0 ==> base == cs[0]
    ensures cs[0] <= 0 ==> base in cs && forall i :: 0 <= i < |cs| ==> cs[i] <= base
    ensures base > 0 <==> exists i :: 0 <= i < |cs| && cs[i] > 0
  {
    if cs[0] > 0 then cs[0] else MaxOf(cs)
  }

  /** p is count as a percentage of base when base is positive, and 0 otherwise. */
  predicate IsPercentOf(p: real, count: int, base: int) {
    && (base > 0 ==> p * base as real == count as real * 100.0)
    && (base <= 0 ==> p == 0.0)
  }

  /** count as a percentage of base, with a guard against a zero base. */
  function PctOfBase(count: int, base: int): (p: real)
    ensures IsPercentOf(p, count, base)
    ensures base > 0 && count == base ==> p == 100.0
  {
    if base > 0 then
      var q := count as real / base as real;
      assert q * base as real == count as real;
      assert count == base ==> q == 1.0;
      assert q * 100.0 * base as real == (q * base as real) * 100.0;
      q * 100.0
    else 0.0
  }

  /**
   * The funnel rows: the stages unchanged, each with a percentage p of the
   * base count b, p * b == count * 100 when b is positive and p == 0
   * otherwise; the first stage is 100% whenever its count is positive.
   */
  function Labelled(stages: seq<Stage>): (rows: seq<FunnelRow>)
    requires |stages| > 0
    ensures StagesOf(rows) == stages
    ensures forall i :: 0 <= i < |rows| ==>
      IsPercentOf(rows[i].pctOfBase, stages[i].count, BaseCount(Counts(stages)))
    ensures stages[0].count > 0 ==> rows[0].pctOfBase == 100.0
  {
    var base := BaseCount(Counts(stages));
    var rows := seq(|stages|, i requires 0 <= i < |stages| =>
      FunnelRow(stages[i].name, stages[i].count, PctOfBase(stages[i].count, base)));
    assert stages[0].count > 0 ==> base == stages[0].count;
    rows
  }

  function StagesOf(rows: seq<FunnelRow>): seq<Stage> {
    seq(|rows|, i requires 0 <= i < |rows| => Stage(rows[i].name, rows[i].count))
  }

  // ---------------------------------------------------------------------------
  // Drop rows
  // ---------------------------------------------------------------------------

  /**
   * The drop from stage i-1 to stage i: the users lost (negative, not
   * clamped, when the count grows) and that loss as a percentage p of the
   * earlier count c, p * c == loss * 100 when c is positive and p == 0
   * otherwise.
   */
  function DropAt(stages: seq<Stage>, i: nat): (d: DropRow)
    requires 1 <= i < |stages|
    ensures d.fromStage == stages[i - 1].name && d.toStage == stages[i].name
    ensures d.dropAbs + stages[i].count == stages[i - 1].count
    ensures d.dropAbs < 0 <==> stages[i].count > stages[i - 1].count
    ensures IsPercentOf(d.dropPct, d.dropAbs, stages[i - 1].count)
  {
    var prev := stages[i - 1].count;
    var curr := stages[i].count;
    var dropAbs := prev - curr;
    DropRow(stages[i - 1].name, stages[i].name, dropAbs, PctOfBase(dropAbs, prev))
  }

  /** One drop row per adjacent pair; None for fewer than two stages. */
  function DropTable(stages: seq<Stage>): Option<seq<DropRow>> {
    if |stages| < 2 then None
    else Some(seq(|stages| - 1, k requires 0 <= k < |stages| - 1 => DropAt(stages, k + 1)))
  }

  /** The users lost over a list of drop rows. */
  function TotalDrop(ds: seq<DropRow>): int {
    if |ds| == 0 then 0 else TotalDrop(ds[..|ds| - 1]) + ds[|ds| - 1].dropAbs
  }

  lemma {:induction false} TotalDropPrefix(stages: seq<Stage>, n: nat)
    requires |stages| >= 2 && n <= |stages| - 1
    ensures TotalDrop(DropTable(stages).value[..n]) == stages[0].count - stages[n].count
  {
    if n > 0 {
      var ds := DropTable(stages).value;
      TotalDropPrefix(stages, n - 1);
      assert ds[..n][..n - 1] == ds[..n - 1];
    }
  }

  /** The drops add up: together they lose exactly first count - last count users. */
  lemma DropsTelescope(stages: seq<Stage>)
    requires |stages| >= 2
    ensures DropTable(stages).Some? && |DropTable(stages).value| == |stages| - 1
    ensures TotalDrop(DropTable(stages).value) == stages[0].count - stages[|stages| - 1].count
  {
    var ds := DropTable(stages).value;
    TotalDropPrefix(stages, |ds|);
    assert ds[..|ds|] == ds;
  }

  /**
   * In a funnel whose counts never grow and never go negative, every drop
   * is a loss of 0..100 percent, and every stage is 0..100 percent of the
   * first.
   */
  lemma MonotoneFunnel(stages: seq<Stage>)
    requires |stages| > 0
    requires forall i :: 0 <= i < |stages| ==> stages[i].count >= 0
    requires forall i :: 1 <= i < |stages| ==> stages[i].count <= stages[i - 1].count
    ensures forall i :: 1 <= i < |stages| ==>
      DropAt(stages, i).dropAbs >= 0 && 0.0 <= DropAt(stages, i).dropPct <= 100.0
    ensures forall i :: 0 <= i < |stages| ==> 0.0 <= Labelled(stages)[i].pctOfBase <= 100.0
  {
    forall i | 1 <= i < |stages|
      ensures DropAt(stages, i).dropAbs >= 0 && 0.0 <= DropAt(stages, i).dropPct <= 100.0
    {
      var prev, curr := stages[i - 1].count, stages[i].count;
      if prev > 0 {
        PercentOfAtMost(prev - curr, prev);
      }
    }
    NonIncreasingBelowFirst(stages);
    var rows := Labelled(stages);
    var base := BaseCount(Counts(stages));
    forall i | 0 <= i < |stages| ensures 0.0 <= rows[i].pctOfBase <= 100.0 {
      if base > 0 {
        assert stages[0].count == base by {
          if stages[0].count <= 0 { assert Counts(stages)[0] == stages[0].count; }
        }
        PercentOfAtMost(stages[i].count, base);
      }
    }
  }

  lemma {:induction false} NonIncreasingBelowFirst(stages: seq<Stage>)
    requires forall i :: 1 <= i < |stages| ==> stages[i].count <= stages[i - 1].count
    ensures forall i :: 0 <= i < |stages| ==> stages[i].count <= stages[0].count
  {
    if |stages| > 1 {
      var init := stages[..|stages| - 1];
      NonIncreasingBelowFirst(init);
      assert stages[|stages| - 1].count <= init[|init| - 1].count;
    }
  }

  lemma PercentOfAtMost(part: int, whole: int)
    requires 0 <= part <= whole && whole > 0
    ensures 0.0 <= part as real / whole as real * 100.0 <= 100.0
  {
    assert part as real / whole as real <= 1.0;
  }

  /** The worked example: 1000 enrolled, 600 started, 200 completed. */
  function Example(): seq<Stage> {
    [Stage("Enrolled", 1000), Stage("Started", 600), Stage("Completed", 200)]
  }

  /** Its stage names are all configured and already in configured order. */
  lemma ExampleOrder()
    ensures AllKnown(Example(), StageMap(FunnelStageOrder))
    ensures RankSorted(Example(), StageMap(FunnelStageOrder))
  {
    var m := StageMap(FunnelStageOrder);
    LowerConfigured();
    StageMapPrefixSpec(FunnelStageOrder, 4);
    assert Rank(m, "Enrolled") == 0;
    assert Rank(m, "Started") == 1;
    assert Rank(m, "Completed") == 3;
  }

  lemma LowerConfigured()
    ensures Lower("Enrolled") == "enrolled" && Lower("Started") == "started"
    ensures Lower("In Progress") == "in progress" && Lower("Completed") == "completed"
  {
  }

  /** Percentages 100, 60, 20 of the base 1000. */
  lemma ExamplePercentages()
    ensures |Labelled(Example())| == 3
    ensures Labelled(Example())[0].pctOfBase == 100.0
    ensures Labelled(Example())[1].pctOfBase == 60.0
    ensures Labelled(Example())[2].pctOfBase == 20.0
  {
    assert BaseCount(Counts(Example())) == 1000;
  }

  /** Drops of 400 users (40%) and 400 users (66.66..%). */
  lemma ExampleDrops()
    ensures DropTable(Example()) == Some([DropRow("Enrolled", "Started", 400, 40.0),
                                          DropRow("Started", "Completed", 400, 400.0 / 6.0)])
  {
    var e := Example();
    assert DropAt(e, 1) == DropRow("Enrolled", "Started", 400, 40.0) by {
      assert PctOfBase(400, 1000) == 40.0;
    }
    assert DropAt(e, 2) == DropRow("Started", "Completed", 400, 400.0 / 6.0) by {
      assert PctOfBase(400, 600) == 400.0 / 6.0;
    }
    assert DropTable(e).value == [DropAt(e, 1), DropAt(e, 2)];
  }

  /** All counts zero: every percentage is 0 and nothing is divided by zero. */
  lemma ZeroBaseExample(names: seq<string>)
    requires |names| > 0
    ensures var stages := seq(|names|, i requires 0 <= i < |names| => Stage(names[i], 0));
      forall i :: 0 <= i < |names| ==> Labelled(stages)[i].pctOfBase == 0.0
  {
    var stages := seq(|names|, i requires 0 <= i < |names| => Stage(names[i], 0));
    assert forall i :: 0 <= i < |stages| ==> Counts(stages)[i] == 0;
  }

  // ---------------------------------------------------------------------------
  // compute_funnel
  // ---------------------------------------------------------------------------

  /**
   * compute_funnel: (None, None, None) for a missing, empty or malformed
   * sheet. Otherwise the funnel holds the sheet's stages, reordered by
   * configured position when every name is configured (no warning) and in
   * sheet order otherwise (with the warning), each with its percentage of
   * the base count of that ordering; and one drop row per adjacent pair of
   * that ordering.
   */
  method ComputeFunnel(split: Option<SplitTable>, stageOrder: seq<string>)
    returns (funnel: Option<seq<FunnelRow>>, warning: Option<string>, drops: Option<seq<DropRow>>)
    ensures !SplitUsable(split) ==> funnel == None && warning == None && drops == None
    ensures SplitUsable(split) ==>
      var input := Coerce(split.value.rows);
      var m := StageMap(stageOrder);
      && funnel.Some?
      && var ordered := StagesOf(funnel.value);
      && |ordered| == |input|
      && multiset(ordered) == multiset(input)
      && (AllKnown(input, m) ==> warning == None && RankSorted(ordered, m))
      && (!AllKnown(input, m) ==> warning == Some(MismatchWarning) && ordered == input)
      && funnel.value == Labelled(ordered)
      && drops == DropTable(ordered)
  {
    if !SplitUsable(split) {
      return None, None, None;
    }
    var input := Coerce(split.value.rows);
    var a := new Stage[|input|](i requires 0 <= i < |input| => input[i]);
    assert a[..] == input;
    var m := StageMap(stageOrder);

    warning := None;
    if AllKnown(input, m) {
      var ord := new nat[a.Length](i requires 0 <= i < a.Length reads a => Rank(m, a[i].name));
      SortByOrd(a, ord, m);
      TaggedSortedIsRankSorted(a[..], ord[..], m);
    } else {
      warning := Some(MismatchWarning);
    }
    var ordered := a[..];
    var rows := AddPercentages(ordered);
    funnel := Some(rows);
    drops := DropDiagnostic(ordered);
  }

  /** The pct_of_base column: every count against the base count of the ordering. */
  method AddPercentages(ordered: seq<Stage>) returns (rows: seq<FunnelRow>)
    requires |ordered| > 0
    ensures rows == Labelled(ordered)
    ensures StagesOf(rows) == ordered
  {
    var base := ordered[0].count;
    if base <= 0 {
      base := MaxOf(Counts(ordered));
    }
    rows := seq(|ordered|, i requires 0 <= i < |ordered| =>
      FunnelRow(ordered[i].name, ordered[i].count, PctOfBase(ordered[i].count, base)));
  }

  /** The stage-to-stage drop diagnostic: one row per adjacent pair, None when there is none. */
  method DropDiagnostic(ordered: seq<Stage>) returns (drops: Option<seq<DropRow>>)
    ensures drops == DropTable(ordered)
  {
    var ds: seq<DropRow> := [];
    var i := 1;
    while i < |ordered|
      invariant 1 <= i && (i == 1 || i <= |ordered|)
      invariant |ds| == i - 1
      invariant forall k :: 0 <= k < |ds| ==> ds[k] == DropAt(ordered, k + 1)
    {
      var prevVal := ordered[i - 1].count;
      var currVal := ordered[i].count;
      var dropAbs := prevVal - currVal;
      var dropPct := if prevVal > 0 then dropAbs as real / prevVal as real * 100.0 else 0.0;
      ds := ds + [DropRow(ordered[i - 1].name, ordered[i].name, dropAbs, dropPct)];
      i := i + 1;
    }
    drops := if |ds| > 0 then Some(ds) else None;
    assert |ordered| >= 2 ==> ds == DropTable(ordered).value;
  }
}
