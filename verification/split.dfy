/**
 * Patient-level three-way split (features/split.py): two group-aware binary
 * splits, train against the rest, then validation against test inside the rest.
 * The randomised group chooser of scikit-learn's GroupShuffleSplit is a
 * parameter, and so are the errors it raises when there are too few groups;
 * everything around it is modelled.
 */
module Split {
  import opened Wrappers
  import opened Frames

  /** Absolute tolerance on the sum of the three fractions. */
  const Tolerance: real := 0.000001

  /** `SplitConfig`, a frozen dataclass with the source's defaults. */
  datatype SplitConfig = SplitConfig(
    trainSize: real := 0.7,
    validSize: real := 0.15,
    testSize: real := 0.15,
    randomState: int := 42)

  datatype SplitError =
    | FractionsDoNotSumToOne(total: real)
    | MissingGroupColumn(groupCol: string)
    | MissingTargetColumn(targetCol: string)
    | ZeroTemporaryFraction

  datatype Splits = Splits(train: Frame, valid: Frame, test: Frame)

  function Abs(x: real): real
  {
    if x < 0.0 then -x else x
  }

  /** What `SplitConfig.__post_init__` accepts. */
  predicate ValidConfig(c: SplitConfig)
  {
    Abs(c.trainSize + c.validSize + c.testSize - 1.0) <= Tolerance
  }

  /** Constructing a `SplitConfig`: fails exactly when the fractions miss 1 by more than the tolerance. */
  function MakeSplitConfig(trainSize: real, validSize: real, testSize: real, randomState: int): (r: Result<SplitConfig, SplitError>)
    ensures r.Success? <==> -Tolerance <= trainSize + validSize + testSize - 1.0 <= Tolerance
    ensures r.Success? ==> ValidConfig(r.value)
    ensures r.Success? ==> r.value == SplitConfig(trainSize, validSize, testSize, randomState)
    ensures r.Failure? ==> r.error == FractionsDoNotSumToOne(trainSize + validSize + testSize)
  {
    var total := trainSize + validSize + testSize;
    if Abs(total - 1.0) > Tolerance then Failure(FractionsDoNotSumToOne(total))
    else Success(SplitConfig(trainSize, validSize, testSize, randomState))
  }

  /** The defaults, the fractions the tests use, and the boundary of the tolerance. */
  lemma ConfigExamples()
    ensures MakeSplitConfig(0.7, 0.15, 0.15, 42) == Success(SplitConfig())
    ensures MakeSplitConfig(0.7, 0.3, 0.3, 42).Failure?
    ensures MakeSplitConfig(0.7, 0.15, 0.1500001, 42).Success?
    ensures MakeSplitConfig(0.7, 0.15, 0.149998, 42).Failure?
    ensures MakeSplitConfig(0.7, 0.15, 0.150001, 0).Success?
    ensures MakeSplitConfig(0.7, 0.15, 0.149999, 0).Success?
  {
  }

  /**
   * The randomised part of `GroupShuffleSplit(n_splits=1, train_size, random_state).split(X, y, groups)`:
   * given the group column, the label column, the first side's fraction and the seed, the set of
   * group identifiers that go to the first side. It is a function, so it is deterministic in its
   * arguments; nothing else is known about it.
   */
  type GroupChooser = (seq<Cell>, seq<Cell>, real, int) -> set<Cell>

  predicate Ascending(p: seq<nat>)
  {
    forall k, l :: 0 <= k < l < |p| ==> p[k] < p[l]
  }

  /** Two index lists that split `0 .. n-1`: both ascending, in range, and each index in exactly one. */
  predicate IndexPartition(a: seq<nat>, b: seq<nat>, n: nat)
  {
    && Ascending(a) && Ascending(b)
    && (forall k :: 0 <= k < |a| ==> a[k] < n)
    && (forall k :: 0 <= k < |b| ==> b[k] < n)
    && (forall i :: 0 <= i < n ==> (i in a <==> i !in b))
  }

  /** No group has a row at a position of `a` and another at a position of `b`. */
  predicate GroupsApart(f: Frame, groupCol: string, a: seq<nat>, b: seq<nat>)
  {
    forall i, j :: i in a && j in b && i < |f.rows| && j < |f.rows| ==>
      Get(f.columns, f.rows[i], groupCol) != Get(f.columns, f.rows[j], groupCol)
  }

  /** Ascending positions of the rows whose group is (side) or is not (!side) in `chosen`. */
  function Positions(columns: seq<string>, rows: seq<Row>, groupCol: string, chosen: set<Cell>, side: bool): (p: seq<nat>)
    ensures forall k :: 0 <= k < |p| ==> p[k] < |rows|
    decreases |rows|
  {
    if rows == [] then []
    else
      var n := |rows| - 1;
      var here := if (Get(columns, rows[n], groupCol) in chosen) == side then [n] else [];
      Positions(columns, rows[..n], groupCol, chosen, side) + here
  }

  /** `Positions` lists, in ascending order, exactly the rows whose group membership is `side`. */
  lemma {:induction false} PositionsSpec(columns: seq<string>, rows: seq<Row>, groupCol: string, chosen: set<Cell>, side: bool)
    ensures var p := Positions(columns, rows, groupCol, chosen, side);
            && Ascending(p)
            && forall i :: 0 <= i < |rows| ==> (i in p <==> ((Get(columns, rows[i], groupCol) in chosen) == side))
    decreases |rows|
  {
    if rows != [] {
      var n := |rows| - 1;
      var prev := rows[..n];
      PositionsSpec(columns, prev, groupCol, chosen, side);
      var p := Positions(columns, prev, groupCol, chosen, side);
      var here := if (Get(columns, rows[n], groupCol) in chosen) == side then [n] else [];
      assert Positions(columns, rows, groupCol, chosen, side) == p + here;
      assert n !in p;
      assert Ascending(p + here) by {
        forall k, l | 0 <= k < l < |p + here| ensures (p + here)[k] < (p + here)[l] {
          if l < |p| {
            assert (p + here)[k] == p[k] && (p + here)[l] == p[l];
          }
        }
      }
      forall i | 0 <= i < |rows|
        ensures i in p + here <==> ((Get(columns, rows[i], groupCol) in chosen) == side)
      {
        if i < n {
          assert prev[i] == rows[i];
        }
      }
    }
  }

  /** `df.iloc[idx]`: the rows at the given positions, in that order, with the same columns. */
  function ILoc(f: Frame, idx: seq<nat>): (g: Frame)
    requires forall k :: 0 <= k < |idx| ==> idx[k] < |f.rows|
  {
    Frame(f.columns, seq(|idx|, k requires 0 <= k < |idx| => f.rows[idx[k]]))
  }

  /**
   * One grouped shuffle split: the index lists of the two sides. They partition the rows,
   * and every group falls wholly on one side.
   */
  function GroupShuffleSplit(choose: GroupChooser, f: Frame, groupCol: string, targetCol: string,
                             trainSize: real, randomState: int): (r: (seq<nat>, seq<nat>))
    ensures IndexPartition(r.0, r.1, |f.rows|)
    ensures GroupsApart(f, groupCol, r.0, r.1)
  {
    var chosen := choose(Column(f, groupCol), Column(f, targetCol), trainSize, randomState);
    PositionsSpec(f.columns, f.rows, groupCol, chosen, true);
    PositionsSpec(f.columns, f.rows, groupCol, chosen, false);
    (Positions(f.columns, f.rows, groupCol, chosen, true),
     Positions(f.columns, f.rows, groupCol, chosen, false))
  }

  /** The second stage's first-side fraction: the validation share of validation plus test. */
  function ValidFractionOfTemp(cfg: SplitConfig): real
    requires cfg.validSize + cfg.testSize != 0.0
  {
    cfg.validSize / (cfg.validSize + cfg.testSize)
  }

  /** `group_split`: train vs temp, then validation vs test inside temp, with one seed for both. */
  function GroupSplit(choose: GroupChooser, df: Frame, groupCol: string, targetCol: string,
                      cfg: SplitConfig): Result<Splits, SplitError>
  {
    if groupCol !in df.columns then Failure(MissingGroupColumn(groupCol))
    else if targetCol !in df.columns then Failure(MissingTargetColumn(targetCol))
    else
      var stage1 := GroupShuffleSplit(choose, df, groupCol, targetCol, cfg.trainSize, cfg.randomState);
      var train := ILoc(df, stage1.0);
      var temp := ILoc(df, stage1.1);
      if cfg.validSize + cfg.testSize == 0.0 then Failure(ZeroTemporaryFraction)
      else
        var validFracOfTemp := ValidFractionOfTemp(cfg);
        var stage2 := GroupShuffleSplit(choose, temp, groupCol, targetCol, validFracOfTemp, cfg.randomState);
        Success(Splits(train, ILoc(temp, stage2.0), ILoc(temp, stage2.1)))
  }

  // ---------------------------------------------------------------------------
  // Reference definition: filtering rows by group membership
  // ---------------------------------------------------------------------------

  /** The rows whose group is (side) or is not (!side) in `chosen`, in their original order. */
  function KeepGroups(columns: seq<string>, rows: seq<Row>, groupCol: string, chosen: set<Cell>, side: bool): seq<Row>
    decreases |rows|
  {
    if rows == [] then []
    else
      var n := |rows| - 1;
      KeepGroups(columns, rows[..n], groupCol, chosen, side)
        + (if (Get(columns, rows[n], groupCol) in chosen) == side then [rows[n]] else [])
  }

  /** Selecting the positions of `Positions` is filtering by group. */
  lemma {:induction false} ILocPositions(f: Frame, groupCol: string, chosen: set<Cell>, side: bool)
    ensures ILoc(f, Positions(f.columns, f.rows, groupCol, chosen, side)).rows
            == KeepGroups(f.columns, f.rows, groupCol, chosen, side)
    decreases |f.rows|
  {
    if f.rows != [] {
      var n := |f.rows| - 1;
      var g := Frame(f.columns, f.rows[..n]);
      var p := Positions(f.columns, g.rows, groupCol, chosen, side);
      ILocPositions(g, groupCol, chosen, side);
      var here := if (Get(f.columns, f.rows[n], groupCol) in chosen) == side then [n] else [];
      assert Positions(f.columns, f.rows, groupCol, chosen, side) == p + here;
      ILocAppend(f, p, here);
      ILocPrefix(f, p, n);
      assert ILoc(f, here).rows == (if here == [] then [] else [f.rows[n]]);
    }
  }

  /** Selecting the positions of `p + q` is selecting those of `p`, then those of `q`. */
  lemma ILocAppend(f: Frame, p: seq<nat>, q: seq<nat>)
    requires forall k :: 0 <= k < |p| ==> p[k] < |f.rows|
    requires forall k :: 0 <= k < |q| ==> q[k] < |f.rows|
    ensures ILoc(f, p + q).rows == ILoc(f, p).rows + ILoc(f, q).rows
  {
    var pq := p + q;
    forall k | 0 <= k < |pq| ensures ILoc(f, pq).rows[k] == (ILoc(f, p).rows + ILoc(f, q).rows)[k] {
      if k >= |p| {
        assert pq[k] == q[k - |p|];
      }
    }
  }

  /** Positions below `n` select the same rows from the first `n` rows. */
  lemma ILocPrefix(f: Frame, p: seq<nat>, n: nat)
    requires n <= |f.rows| && forall k :: 0 <= k < |p| ==> p[k] < n
    ensures ILoc(f, p).rows == ILoc(Frame(f.columns, f.rows[..n]), p).rows
  {
  }

  /** The two sides of a group filter together hold every row exactly once. */
  lemma {:induction false} KeepGroupsPartition(columns: seq<string>, rows: seq<Row>, groupCol: string, chosen: set<Cell>)
    ensures multiset(KeepGroups(columns, rows, groupCol, chosen, true))
            + multiset(KeepGroups(columns, rows, groupCol, chosen, false)) == multiset(rows)
    decreases |rows|
  {
    if rows != [] {
      var n := |rows| - 1;
      var prev := rows[..n];
      KeepGroupsPartition(columns, prev, groupCol, chosen);
      var t := KeepGroups(columns, prev, groupCol, chosen, true);
      var e := KeepGroups(columns, prev, groupCol, chosen, false);
      assert rows == prev + [rows[n]];
      assert multiset(rows) == multiset(prev) + multiset{rows[n]};
      if Get(columns, rows[n], groupCol) in chosen {
        assert KeepGroups(columns, rows, groupCol, chosen, true) == t + [rows[n]];
        assert KeepGroups(columns, rows, groupCol, chosen, false) == e;
      } else {
        assert KeepGroups(columns, rows, groupCol, chosen, true) == t;
        assert KeepGroups(columns, rows, groupCol, chosen, false) == e + [rows[n]];
      }
    }
  }

  /** The two sides of one grouped shuffle split, as group filters over the rows. */
  lemma ShuffleSplitSides(choose: GroupChooser, f: Frame, groupCol: string, targetCol: string,
                          trainSize: real, randomState: int)
    ensures var chosen := choose(Column(f, groupCol), Column(f, targetCol), trainSize, randomState);
            var r := GroupShuffleSplit(choose, f, groupCol, targetCol, trainSize, randomState);
            && ILoc(f, r.0) == Frame(f.columns, KeepGroups(f.columns, f.rows, groupCol, chosen, true))
            && ILoc(f, r.1) == Frame(f.columns, KeepGroups(f.columns, f.rows, groupCol, chosen, false))
  {
    var chosen := choose(Column(f, groupCol), Column(f, targetCol), trainSize, randomState);
    ILocPositions(f, groupCol, chosen, true);
    ILocPositions(f, groupCol, chosen, false);
  }

  /** Every row kept by a group filter is a row of the input. */
  lemma {:induction false} KeepGroupsSubset(columns: seq<string>, rows: seq<Row>, groupCol: string, chosen: set<Cell>, side: bool)
    ensures forall r :: r in KeepGroups(columns, rows, groupCol, chosen, side) ==>
              r in rows && (Get(columns, r, groupCol) in chosen) == side
    decreases |rows|
  {
    if rows != [] {
      var n := |rows| - 1;
      KeepGroupsSubset(columns, rows[..n], groupCol, chosen, side);
    }
  }

  // ---------------------------------------------------------------------------
  // Properties of group_split
  // ---------------------------------------------------------------------------

  /** A missing group column is reported first, then a missing target column, then a zero temp fraction. */
  lemma GroupSplitErrors(choose: GroupChooser, df: Frame, groupCol: string, targetCol: string, cfg: SplitConfig)
    ensures groupCol !in df.columns ==> GroupSplit(choose, df, groupCol, targetCol, cfg) == Failure(MissingGroupColumn(groupCol))
    ensures groupCol in df.columns && targetCol !in df.columns ==>
              GroupSplit(choose, df, groupCol, targetCol, cfg) == Failure(MissingTargetColumn(targetCol))
    ensures GroupSplit(choose, df, groupCol, targetCol, cfg).Failure? <==>
              groupCol !in df.columns || targetCol !in df.columns || cfg.validSize + cfg.testSize == 0.0
  {
  }

  /** The set of group identifiers of a frame (missing ones included). */
  function GroupIds(f: Frame, groupCol: string): set<Cell>
  {
    set i | 0 <= i < |f.rows| :: Get(f.columns, f.rows[i], groupCol)
  }

  /**
   * The two stages: train is the rows whose group the first call chose; validation and test split
   * the remaining rows by a second call with fraction valid/(valid+test) and the same seed.
   */
  lemma GroupSplitStages(choose: GroupChooser, df: Frame, groupCol: string, targetCol: string, cfg: SplitConfig)
    requires GroupSplit(choose, df, groupCol, targetCol, cfg).Success?
    ensures var s := GroupSplit(choose, df, groupCol, targetCol, cfg).value;
            var c1 := choose(Column(df, groupCol), Column(df, targetCol), cfg.trainSize, cfg.randomState);
            var temp := Frame(df.columns, KeepGroups(df.columns, df.rows, groupCol, c1, false));
            var c2 := choose(Column(temp, groupCol), Column(temp, targetCol),
                             ValidFractionOfTemp(cfg), cfg.randomState);
            && s.train == Frame(df.columns, KeepGroups(df.columns, df.rows, groupCol, c1, true))
            && s.valid == Frame(df.columns, KeepGroups(df.columns, temp.rows, groupCol, c2, true))
            && s.test == Frame(df.columns, KeepGroups(df.columns, temp.rows, groupCol, c2, false))
  {
    var c1 := choose(Column(df, groupCol), Column(df, targetCol), cfg.trainSize, cfg.randomState);
    var split1 := GroupShuffleSplit(choose, df, groupCol, targetCol, cfg.trainSize, cfg.randomState);
    var temp := Frame(df.columns, KeepGroups(df.columns, df.rows, groupCol, c1, false));
    assert ILoc(df, split1.0) == Frame(df.columns, KeepGroups(df.columns, df.rows, groupCol, c1, true))
        && ILoc(df, split1.1) == temp by {
      ShuffleSplitSides(choose, df, groupCol, targetCol, cfg.trainSize, cfg.randomState);
    }
    var frac := ValidFractionOfTemp(cfg);
    var c2 := choose(Column(temp, groupCol), Column(temp, targetCol), frac, cfg.randomState);
    var split2 := GroupShuffleSplit(choose, temp, groupCol, targetCol, frac, cfg.randomState);
    assert ILoc(temp, split2.0) == Frame(df.columns, KeepGroups(df.columns, temp.rows, groupCol, c2, true))
        && ILoc(temp, split2.1) == Frame(df.columns, KeepGroups(df.columns, temp.rows, groupCol, c2, false)) by {
      ShuffleSplitSides(choose, temp, groupCol, targetCol, frac, cfg.randomState);
    }
  }

  /** Row completeness: train, validation and test together hold every input row exactly once. */
  lemma GroupSplitRowComplete(choose: GroupChooser, df: Frame, groupCol: string, targetCol: string, cfg: SplitConfig)
    requires GroupSplit(choose, df, groupCol, targetCol, cfg).Success?
    ensures var s := GroupSplit(choose, df, groupCol, targetCol, cfg).value;
            && s.train.columns == df.columns && s.valid.columns == df.columns && s.test.columns == df.columns
            && multiset(s.train.rows) + multiset(s.valid.rows) + multiset(s.test.rows) == multiset(df.rows)
  {
    GroupSplitStages(choose, df, groupCol, targetCol, cfg);
    var c1 := choose(Column(df, groupCol), Column(df, targetCol), cfg.trainSize, cfg.randomState);
    var temp := Frame(df.columns, KeepGroups(df.columns, df.rows, groupCol, c1, false));
    var c2 := choose(Column(temp, groupCol), Column(temp, targetCol),
                     ValidFractionOfTemp(cfg), cfg.randomState);
    KeepGroupsPartition(df.columns, df.rows, groupCol, c1);
    KeepGroupsPartition(df.columns, temp.rows, groupCol, c2);
  }

  /** Group exclusivity: no group identifier appears in two of train, validation and test. */
  lemma GroupSplitGroupDisjoint(choose: GroupChooser, df: Frame, groupCol: string, targetCol: string, cfg: SplitConfig)
    requires GroupSplit(choose, df, groupCol, targetCol, cfg).Success?
    ensures var s := GroupSplit(choose, df, groupCol, targetCol, cfg).value;
            && GroupIds(s.train, groupCol) !! GroupIds(s.valid, groupCol)
            && GroupIds(s.train, groupCol) !! GroupIds(s.test, groupCol)
            && GroupIds(s.valid, groupCol) !! GroupIds(s.test, groupCol)
  {
    var s := GroupSplit(choose, df, groupCol, targetCol, cfg).value;
    GroupSplitStages(choose, df, groupCol, targetCol, cfg);
    var c1 := choose(Column(df, groupCol), Column(df, targetCol), cfg.trainSize, cfg.randomState);
    var temp := Frame(df.columns, KeepGroups(df.columns, df.rows, groupCol, c1, false));
    var c2 := choose(Column(temp, groupCol), Column(temp, targetCol),
                     ValidFractionOfTemp(cfg), cfg.randomState);
    KeepGroupsSubset(df.columns, df.rows, groupCol, c1, true);
    KeepGroupsSubset(df.columns, df.rows, groupCol, c1, false);
    KeepGroupsSubset(df.columns, temp.rows, groupCol, c2, true);
    KeepGroupsSubset(df.columns, temp.rows, groupCol, c2, false);
    forall x | x in GroupIds(s.train, groupCol) ensures x in c1 {
      var i :| 0 <= i < |s.train.rows| && x == Get(df.columns, s.train.rows[i], groupCol);
      assert s.train.rows[i] in s.train.rows;
    }
    forall x | x in GroupIds(s.valid, groupCol) ensures x !in c1 && x in c2 {
      var i :| 0 <= i < |s.valid.rows| && x == Get(df.columns, s.valid.rows[i], groupCol);
      assert s.valid.rows[i] in s.valid.rows;
    }
    forall x | x in GroupIds(s.test, groupCol) ensures x !in c1 && x !in c2 {
      var i :| 0 <= i < |s.test.rows| && x == Get(df.columns, s.test.rows[i], groupCol);
      assert s.test.rows[i] in s.test.rows;
    }
  }

  /**
   * Determinism: the split depends on the chooser only through its answers for the configured
   * seed, so two runs with the same frame and configuration give the same three partitions.
   */
  lemma GroupSplitSeedDetermined(choose1: GroupChooser, choose2: GroupChooser, df: Frame,
                                 groupCol: string, targetCol: string, cfg: SplitConfig)
    requires forall g, y, frac :: choose1(g, y, frac, cfg.randomState) == choose2(g, y, frac, cfg.randomState)
    ensures GroupSplit(choose1, df, groupCol, targetCol, cfg) == GroupSplit(choose2, df, groupCol, targetCol, cfg)
  {
  }

  /** With non-negative validation and test fractions, stage 2 keeps a fraction in [0, 1] of temp. */
  lemma StageTwoFraction(cfg: SplitConfig)
    requires cfg.validSize >= 0.0 && cfg.testSize >= 0.0 && cfg.validSize + cfg.testSize > 0.0
    ensures var frac := ValidFractionOfTemp(cfg);
            0.0 <= frac <= 1.0 && frac * (cfg.validSize + cfg.testSize) == cfg.validSize
  {
  }
}
