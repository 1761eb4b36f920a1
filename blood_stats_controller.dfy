/** The fixed table of available donors per blood group. */
module BloodStats {
  import opened Queries
  import opened UserModel

  /** `countDocuments({ bloodGroup: g, availability: true })`. */
  function GroupCount(users: seq<User>, g: BloodGroup): nat {
    CountWhere(users, (u: User) => u.availability && u.bloodGroup == g)
  }

  /** `countDocuments({ availability: true })`. */
  function AvailableCount(users: seq<User>): nat {
    CountWhere(users, (u: User) => u.availability)
  }

  /** One row of the table: a group's name and its number of available donors. */
  datatype StatRow = StatRow(group: string, donors: nat)

  /** `getBloodGroupStatistics`: one row per enum value, in enum order, zero counts included. */
  function GetBloodGroupStatistics(users: seq<User>): (r: seq<StatRow>)
    ensures |r| == |BloodGroups| == 8
    ensures forall i :: 0 <= i < 8 ==> r[i].group == BloodGroupName(BloodGroups[i])
  {
    seq(|BloodGroups|, i requires 0 <= i < |BloodGroups| =>
      StatRow(BloodGroupName(BloodGroups[i]), GroupCount(users, BloodGroups[i])))
  }

  /** Each row counts exactly the available donors of its group, whoever else is stored. */
  lemma TableRowCounts(users: seq<User>, g: BloodGroup)
    ensures exists i :: 0 <= i < 8 && GetBloodGroupStatistics(users)[i] == StatRow(BloodGroupName(g), GroupCount(users, g))
  {
    BloodGroupsListed();
    assert g in BloodGroups;
    var i :| 0 <= i < 8 && BloodGroups[i] == g;
    assert GetBloodGroupStatistics(users)[i] == StatRow(BloodGroupName(g), GroupCount(users, g));
  }

  function SumDonors(rows: seq<StatRow>): nat {
    if rows == [] then 0 else rows[0].donors + SumDonors(rows[1..])
  }

  /** Every available donor falls in exactly one group. */
  lemma {:induction false} GroupCountsAddUp(users: seq<User>)
    ensures GroupCount(users, APos) + GroupCount(users, ANeg) + GroupCount(users, BPos) + GroupCount(users, BNeg)
          + GroupCount(users, OPos) + GroupCount(users, ONeg) + GroupCount(users, ABPos) + GroupCount(users, ABNeg)
         == AvailableCount(users)
    decreases |users|
  {
    if users != [] {
      GroupCountsAddUp(users[1..]);
    }
  }

  /** Unavailable users count nowhere: the rows add up to the number of available users. */
  lemma TableSumIsAvailableCount(users: seq<User>)
    ensures SumDonors(GetBloodGroupStatistics(users)) == AvailableCount(users)
  {
    var r := GetBloodGroupStatistics(users);
    GroupCountsAddUp(users);
    forall k | 0 <= k < 8
      ensures SumDonors(r[k..]) == r[k].donors + SumDonors(r[k + 1..])
    {
      assert r[k..][1..] == r[k + 1..];
    }
    assert r[0..] == r && r[8..] == [];
    assert r[0].donors == GroupCount(users, APos) && r[1].donors == GroupCount(users, ANeg);
    assert r[2].donors == GroupCount(users, BPos) && r[3].donors == GroupCount(users, BNeg);
    assert r[4].donors == GroupCount(users, OPos) && r[5].donors == GroupCount(users, ONeg);
    assert r[6].donors == GroupCount(users, ABPos) && r[7].donors == GroupCount(users, ABNeg);
  }
}
