/**
 * The `/blood-group-stats` aggregation: keep the available donors, group them
 * by blood group and count, keep only the group name and the count, and sort
 * by the name.
 */
module StatsRoute {
  import opened Strings
  import opened Queries
  import opened Sorting
  import opened UserModel
  import opened BloodStats

  /** An output row: the `$project` stage keeps exactly these two fields. */
  datatype GroupRow = GroupRow(bloodGroup: string, count: nat)

  /**
   * `$match` and `$group`: the groups with at least one available donor.
   * `$group` emits them in no fixed order; they are taken here in enum order,
   * and the final sort makes the result independent of that choice.
   */
  function PresentGroups(users: seq<User>): (r: seq<BloodGroup>)
    ensures forall g :: g in r <==> GroupCount(users, g) > 0
    ensures Distinct(r)
  {
    BloodGroupsListed();
    FilterOfEnumeration(BloodGroups, (g: BloodGroup) => GroupCount(users, g) > 0);
    Filter(BloodGroups, (g: BloodGroup) => GroupCount(users, g) > 0)
  }

  /** `$project: { bloodGroup: "$_id", count: 1, _id: 0 }`. */
  function Project(users: seq<User>, gs: seq<BloodGroup>): (r: seq<GroupRow>)
    ensures |r| == |gs| && forall i :: 0 <= i < |gs| ==> r[i] == GroupRow(BloodGroupName(gs[i]), GroupCount(users, gs[i]))
  {
    seq(|gs|, i requires 0 <= i < |gs| => GroupRow(BloodGroupName(gs[i]), GroupCount(users, gs[i])))
  }

  function RowGroup(r: GroupRow): string {
    r.bloodGroup
  }

  /** Each present group is projected once, so no two projected rows share a name. */
  lemma ProjectedNamesDistinct(users: seq<User>)
    ensures DistinctKeys(Project(users, PresentGroups(users)), RowGroup)
  {
    var gs := PresentGroups(users);
    forall i, j | 0 <= i < j < |gs|
      ensures RowGroup(Project(users, gs)[i]) != RowGroup(Project(users, gs)[j])
    {
      BloodGroupEnum(gs[i], gs[j]);
    }
  }

  /**
   * The whole pipeline, ending with `$sort: { bloodGroup: 1 }`: the projected
   * rows, each once, strictly ascending by name.
   */
  function BloodGroupStats(users: seq<User>): (r: seq<GroupRow>)
    ensures forall row :: row in r <==> row in Project(users, PresentGroups(users))
    ensures StrictlySortedBy(r, RowGroup)
  {
    var p := Project(users, PresentGroups(users));
    SortByPermutes(p, RowGroup);
    ProjectedNamesDistinct(users);
    SortByStrict(p, RowGroup);
    assert forall row :: row in SortBy(p, RowGroup) <==> row in multiset(p);
    SortBy(p, RowGroup)
  }

  /** The row a group with available donors gets. */
  function RowOf(users: seq<User>, g: BloodGroup): GroupRow {
    GroupRow(BloodGroupName(g), GroupCount(users, g))
  }

  /** A projected row is the row of one of the groups, and each group gets its row. */
  lemma ProjectedRows(users: seq<User>, gs: seq<BloodGroup>, row: GroupRow)
    ensures row in Project(users, gs) <==> exists g :: g in gs && row == RowOf(users, g)
  {
    var p := Project(users, gs);
    if row in p {
      var i :| 0 <= i < |p| && p[i] == row;
      assert gs[i] in gs && row == RowOf(users, gs[i]);
    }
    if exists g :: g in gs && row == RowOf(users, g) {
      var g :| g in gs && row == RowOf(users, g);
      var i :| 0 <= i < |gs| && gs[i] == g;
      assert p[i] == row;
    }
  }

  /**
   * One row per group that has an available donor, carrying that group's
   * exact count (so never 0), and no other rows; no name repeats, and the rows
   * ascend strictly by name.
   */
  lemma AggregateRows(users: seq<User>)
    ensures forall row :: row in BloodGroupStats(users) <==> exists g :: GroupCount(users, g) > 0 && row == RowOf(users, g)
    ensures forall row :: row in BloodGroupStats(users) ==> row.count >= 1
    ensures StrictlySortedBy(BloodGroupStats(users), RowGroup)
  {
    var gs := PresentGroups(users);
    forall row
      ensures row in BloodGroupStats(users) <==> exists g :: GroupCount(users, g) > 0 && row == RowOf(users, g)
    {
      ProjectedRows(users, gs, row);
    }
  }

  /** The aggregation and the fixed table agree: its rows are the table's rows with a non-zero count. */
  lemma AggregateAgreesWithTable(users: seq<User>)
    ensures forall i :: 0 <= i < 8 && GetBloodGroupStatistics(users)[i].donors > 0 ==>
              GroupRow(GetBloodGroupStatistics(users)[i].group, GetBloodGroupStatistics(users)[i].donors) in BloodGroupStats(users)
    ensures forall row :: row in BloodGroupStats(users) ==>
              exists i :: 0 <= i < 8 && GetBloodGroupStatistics(users)[i] == StatRow(row.bloodGroup, row.count)
  {
    AggregateRows(users);
    var t := GetBloodGroupStatistics(users);
    forall i | 0 <= i < 8 && t[i].donors > 0
      ensures GroupRow(t[i].group, t[i].donors) in BloodGroupStats(users)
    {
      assert GroupRow(t[i].group, t[i].donors) == RowOf(users, BloodGroups[i]);
    }
    forall row | row in BloodGroupStats(users)
      ensures exists i :: 0 <= i < 8 && t[i] == StatRow(row.bloodGroup, row.count)
    {
      var g :| GroupCount(users, g) > 0 && row == RowOf(users, g);
      TableRowCounts(users, g);
    }
  }

  /** The group names in the order the sort puts them. */
  const NameOrder: seq<string> := ["A+", "A-", "AB+", "AB-", "B+", "B-", "O+", "O-"]

  /** Consecutive steps of a strict chain give every later step. */
  lemma {:induction false} OrderChain(keys: seq<string>, i: nat, j: nat)
    requires i < j < |keys|
    requires forall k :: 0 <= k < |keys| - 1 ==> LexLess(keys[k], keys[k + 1])
    ensures LexLess(keys[i], keys[j])
    decreases j - i
  {
    if j > i + 1 {
      OrderChain(keys, i + 1, j);
      LexLessTransitive(keys[i], keys[i + 1], keys[j]);
    }
  }

  /** The names ascend strictly in that order. */
  lemma NameOrderAscends()
    ensures forall i, j :: 0 <= i < j < |NameOrder| ==> LexLess(NameOrder[i], NameOrder[j])
  {
    assert LexLess("A+", "A-") && LexLess("A-", "AB+") && LexLess("AB+", "AB-") && LexLess("AB-", "B+");
    assert LexLess("B+", "B-") && LexLess("B-", "O+") && LexLess("O+", "O-");
    forall i, j | 0 <= i < j < |NameOrder|
      ensures LexLess(NameOrder[i], NameOrder[j])
    {
      OrderChain(NameOrder, i, j);
    }
  }

  /** The rows of all eight groups, listed in name order. */
  function FullRows(users: seq<User>): seq<GroupRow> {
    [RowOf(users, APos), RowOf(users, ANeg), RowOf(users, ABPos), RowOf(users, ABNeg),
     RowOf(users, BPos), RowOf(users, BNeg), RowOf(users, OPos), RowOf(users, ONeg)]
  }

  lemma FullRowsAscend(users: seq<User>)
    ensures forall i :: 0 <= i < 8 ==> RowGroup(FullRows(users)[i]) == NameOrder[i]
    ensures StrictlySortedBy(FullRows(users), RowGroup)
  {
    var f := FullRows(users);
    assert forall i :: 0 <= i < 8 ==> RowGroup(f[i]) == NameOrder[i];
    NameOrderAscends();
    forall i, j | 0 <= i < j < |f|
      ensures LexLess(RowGroup(f[i]), RowGroup(f[j]))
    {
      assert RowGroup(f[i]) == NameOrder[i] && RowGroup(f[j]) == NameOrder[j];
    }
  }

  lemma FullRowsHoldEveryGroup(users: seq<User>, g: BloodGroup, row: GroupRow)
    ensures RowOf(users, g) in FullRows(users)
    ensures row in FullRows(users) ==> exists h :: row == RowOf(users, h)
  {
    if row in FullRows(users) {
      var k :| 0 <= k < 8 && FullRows(users)[k] == row;
      assert row == RowOf(users, [APos, ANeg, ABPos, ABNeg, BPos, BNeg, OPos, ONeg][k]);
    }
    var f := FullRows(users);
    match g
    case APos => assert f[0] == RowOf(users, g);
    case ANeg => assert f[1] == RowOf(users, g);
    case ABPos => assert f[2] == RowOf(users, g);
    case ABNeg => assert f[3] == RowOf(users, g);
    case BPos => assert f[4] == RowOf(users, g);
    case BNeg => assert f[5] == RowOf(users, g);
    case OPos => assert f[6] == RowOf(users, g);
    case ONeg => assert f[7] == RowOf(users, g);
  }

  /** With every group present, the rows come in the order A+, A-, AB+, AB-, B+, B-, O+, O-. */
  lemma FullTableOrder(users: seq<User>)
    requires forall g :: GroupCount(users, g) > 0
    ensures |BloodGroupStats(users)| == 8
    ensures forall i :: 0 <= i < 8 ==> BloodGroupStats(users)[i].bloodGroup == NameOrder[i]
  {
    AggregateRows(users);
    FullRowsAscend(users);
    var f := FullRows(users);
    forall row
      ensures row in BloodGroupStats(users) <==> row in f
    {
      FullRowsHoldEveryGroup(users, APos, row);
      if row in BloodGroupStats(users) {
        var g :| GroupCount(users, g) > 0 && row == RowOf(users, g);
        FullRowsHoldEveryGroup(users, g, row);
      }
    }
    StrictlySortedUnique(BloodGroupStats(users), f, RowGroup);
  }
}
