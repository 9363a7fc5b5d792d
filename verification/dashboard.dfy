/**
 * The counting behind DashboardServiceImpl: the user statistics (admins,
 * ordinary users, enabled, disabled, active and new this month) and the
 * KPI figures (user count, storage totals read from a statistics map, and
 * today's transfer volume as the last bucket of the daily upload and
 * download series).
 *
 * The user list, the statistics map, the daily series and the instant one
 * month ago are parameters; times are plain integers.
 */
module Dashboard {
  import opened Wrappers

  /** The fields of a listed user the dashboard reads; each may be null. */
  datatype UserInfo = UserInfo(role: Option<string>, status: Option<int>,
                               lastLoginTime: Option<int>, createTime: Option<int>)

  /** The properties the user statistics count. */
  datatype Criterion = Admin | Enabled | Active | NewSince(cutoff: int)

  predicate Holds(c: Criterion, u: UserInfo) {
    match c
    case Admin => u.role == Some("ADMIN")
    case Enabled => u.status == Some(1)
    case Active => u.lastLoginTime.Some?
    case NewSince(cutoff) => u.createTime.Some? && u.createTime.value > cutoff
  }

  /** How many users of the list satisfy the criterion, counted from the front. */
  function Count(users: seq<UserInfo>, c: Criterion): (n: nat)
    ensures n <= |users|
  {
    if users == [] then 0
    else Count(users[..|users| - 1], c) + (if Holds(c, users[|users| - 1]) then 1 else 0)
  }

  /** How many users of the list do not satisfy the criterion. */
  function CountNot(users: seq<UserInfo>, c: Criterion): (n: nat)
    ensures n <= |users|
  {
    if users == [] then 0
    else CountNot(users[..|users| - 1], c) + (if Holds(c, users[|users| - 1]) then 0 else 1)
  }

  /** Every user is counted exactly once, either as satisfying the criterion or as not. */
  lemma {:induction false} CountPartitions(users: seq<UserInfo>, c: Criterion)
    ensures Count(users, c) + CountNot(users, c) == |users|
    decreases |users|
  {
    if users != [] {
      CountPartitions(users[..|users| - 1], c);
    }
  }

  /** The count is zero exactly when no user satisfies the criterion. */
  lemma {:induction false} CountZero(users: seq<UserInfo>, c: Criterion)
    ensures Count(users, c) == 0 <==> forall k :: 0 <= k < |users| ==> !Holds(c, users[k])
    decreases |users|
  {
    if users != [] {
      var init := users[..|users| - 1];
      CountZero(init, c);
      assert forall k :: 0 <= k < |init| ==> init[k] == users[k];
    }
  }

  datatype UserStats = UserStats(adminCount: nat, userCount: nat, enabledUsers: nat, disabledUsers: nat,
                                 totalUsers: nat, activeUsers: nat, monthlyNewUsers: nat)

  /**
   * getUserStats: one pass over the user list.  A user is an admin exactly
   * when the role is "ADMIN" (anything else, null included, is an ordinary
   * user), enabled exactly when the status is 1 (a null status is
   * disabled), active when a last login time is recorded, and new when
   * created after the instant one month ago.
   */
  method GetUserStats(users: seq<UserInfo>, oneMonthAgo: int) returns (r: UserStats)
    ensures r.totalUsers == |users|
    ensures r.adminCount + r.userCount == r.totalUsers
    ensures r.enabledUsers + r.disabledUsers == r.totalUsers
    ensures r.adminCount == Count(users, Admin) && r.userCount == CountNot(users, Admin)
    ensures r.enabledUsers == Count(users, Enabled) && r.disabledUsers == CountNot(users, Enabled)
    ensures r.activeUsers == Count(users, Active)
    ensures r.monthlyNewUsers == Count(users, NewSince(oneMonthAgo))
  {
    var adminCount, userCount, enabledUsers, disabledUsers, activeUsers, monthlyNewUsers := 0, 0, 0, 0, 0, 0;
    var i := 0;
    while i < |users|
      invariant 0 <= i <= |users|
      invariant adminCount == Count(users[..i], Admin) && userCount == CountNot(users[..i], Admin)
      invariant enabledUsers == Count(users[..i], Enabled) && disabledUsers == CountNot(users[..i], Enabled)
      invariant activeUsers == Count(users[..i], Active)
      invariant monthlyNewUsers == Count(users[..i], NewSince(oneMonthAgo))
      invariant adminCount + userCount == i && enabledUsers + disabledUsers == i
    {
      var u := users[i];
      assert users[..i + 1][..i] == users[..i];
      if u.role == Some("ADMIN") {
        adminCount := adminCount + 1;
      } else {
        userCount := userCount + 1;
      }
      if u.status.Some? && u.status.value == 1 {
        enabledUsers := enabledUsers + 1;
      } else {
        disabledUsers := disabledUsers + 1;
      }
      if u.lastLoginTime.Some? {
        activeUsers := activeUsers + 1;
      }
      if u.createTime.Some? && u.createTime.value > oneMonthAgo {
        monthlyNewUsers := monthlyNewUsers + 1;
      }
      i := i + 1;
    }
    assert users[..i] == users;
    r := UserStats(adminCount, userCount, enabledUsers, disabledUsers, |users|, activeUsers, monthlyNewUsers);
  }

  /* ------------------------------------------------------------------ KPIs */

  /** A figure of the storage statistics map, 0 when the key is absent. */
  function StatOrZero(stats: map<string, int>, key: string): (v: int)
    ensures key in stats ==> v == stats[key]
    ensures key !in stats ==> v == 0
  {
    if key in stats then stats[key] else 0
  }

  /** The newest bucket of a daily series, 0 for a null or empty series. */
  function LastOrZero(values: Option<seq<int>>): (v: int)
    ensures values.None? || values.value == [] ==> v == 0
    ensures values.Some? && values.value != [] ==> v == values.value[|values.value| - 1]
  {
    if values.None? || values.value == [] then 0 else values.value[|values.value| - 1]
  }

  /** todayTransfer: the newest upload bucket plus the newest download bucket. */
  function TodayTransfer(uploadValues: Option<seq<int>>, downloadValues: Option<seq<int>>): (t: int)
    ensures (uploadValues.None? || uploadValues.value == []) && (downloadValues.None? || downloadValues.value == [])
      ==> t == 0
  {
    LastOrZero(uploadValues) + LastOrZero(downloadValues)
  }

  /**
   * Only today's buckets count: earlier days of either series never change
   * the figure, and recording x more bytes today raises it by exactly x.
   */
  lemma TodayTransferReadsOnlyToday(up1: seq<int>, up2: seq<int>, down1: seq<int>, down2: seq<int>, u: int, d: int, x: int)
    ensures TodayTransfer(Some(up1 + [u]), Some(down1 + [d])) == TodayTransfer(Some(up2 + [u]), Some(down2 + [d]))
    ensures TodayTransfer(Some(up1 + [u + x]), Some(down1 + [d])) == TodayTransfer(Some(up1 + [u]), Some(down1 + [d])) + x
    ensures TodayTransfer(Some(up1 + [u]), Some(down1 + [d + x])) == TodayTransfer(Some(up1 + [u]), Some(down1 + [d])) + x
    ensures TodayTransfer(Some(up1 + [u]), None) == u && TodayTransfer(None, Some(down1 + [d])) == d
  {
  }

  datatype KpiData = KpiData(totalUsers: nat, totalStorage: int, totalFiles: int, todayTransfer: int)

  /** getKpiData: the user count, "totalSize" and "fileCount" of the statistics, and today's transfer. */
  function GetKpiData(users: seq<UserInfo>, stats: map<string, int>,
                      uploadValues: Option<seq<int>>, downloadValues: Option<seq<int>>): (k: KpiData)
    ensures k.totalUsers == |users|
    ensures k.totalStorage == StatOrZero(stats, "totalSize") && k.totalFiles == StatOrZero(stats, "fileCount")
  {
    KpiData(|users|, StatOrZero(stats, "totalSize"), StatOrZero(stats, "fileCount"),
            TodayTransfer(uploadValues, downloadValues))
  }

  /** The KPI user count and the user statistics' total agree, and the roles and statuses partition it. */
  method DashboardTotalsAgree(users: seq<UserInfo>, stats: map<string, int>, oneMonthAgo: int)
    returns (k: KpiData, s: UserStats)
    ensures k.totalUsers == s.totalUsers
    ensures s.adminCount + s.userCount == k.totalUsers
    ensures s.activeUsers <= k.totalUsers && s.monthlyNewUsers <= k.totalUsers
  {
    k := GetKpiData(users, stats, None, None);
    s := GetUserStats(users, oneMonthAgo);
  }
}
