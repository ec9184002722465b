/** The cohort analysis page: filter the daily usage rows to a date range,
    aggregate them per user, split the users into those who never used the
    assistant and those who did, and rank the latter by their active days.
    Each dataframe expression is a function over a sequence of rows. */
module Analysis {
  import opened Timestamps

  /** One CSV row once its `Date` column is reduced to the calendar day. */
  datatype UsageRow = UsageRow(date: CivilDate, email: string, isActive: bool, subscriptionIncludedReqs: int)

  // ---------------------------------------------------------------------
  // Boolean-mask selection

  /** `df[mask]`: the elements that satisfy keep, in their original order. */
  function Where<T>(xs: seq<T>, keep: T -> bool): seq<T> {
    if xs == [] then []
    else Where(xs[..|xs| - 1], keep) + (if keep(xs[|xs| - 1]) then [xs[|xs| - 1]] else [])
  }

  /** A selection keeps every copy of a satisfying element and nothing else. */
  lemma {:induction false} WhereCounts<T>(xs: seq<T>, keep: T -> bool)
    ensures forall x :: multiset(Where(xs, keep))[x] == if keep(x) then multiset(xs)[x] else 0
  {
    if xs != [] {
      var p := xs[..|xs| - 1];
      WhereCounts(p, keep);
      assert xs == p + [xs[|xs| - 1]];
    }
  }

  lemma WhereMembers<T>(xs: seq<T>, keep: T -> bool, x: T)
    ensures x in Where(xs, keep) <==> x in xs && keep(x)
  {
    WhereCounts(xs, keep);
    assert x in Where(xs, keep) <==> multiset(Where(xs, keep))[x] > 0;
  }

  /** Two selections with disjoint masks together hold at most every row, and
      exactly every row when each row satisfies one of them. */
  lemma {:induction false} WhereDisjointSizes<T>(xs: seq<T>, p: T -> bool, q: T -> bool)
    requires forall x :: !(p(x) && q(x))
    ensures |Where(xs, p)| + |Where(xs, q)| <= |xs|
    ensures |Where(xs, p)| + |Where(xs, q)| == |xs| <==> forall i :: 0 <= i < |xs| ==> p(xs[i]) || q(xs[i])
  {
    if xs != [] {
      var pre := xs[..|xs| - 1];
      WhereDisjointSizes(pre, p, q);
      if |Where(pre, p)| + |Where(pre, q)| < |pre| {
        var i :| 0 <= i < |pre| && !(p(pre[i]) || q(pre[i]));
        assert xs[i] == pre[i];
      }
      if forall i :: 0 <= i < |xs| ==> p(xs[i]) || q(xs[i]) {
        assert forall i :: 0 <= i < |pre| ==> pre[i] == xs[i];
      }
    }
  }

  // ---------------------------------------------------------------------
  // String order

  /** Python's `<` on str: code point by code point, a proper prefix first. */
  predicate StrLt(a: string, b: string)
    decreases |a|
  {
    if a == [] then b != []
    else if b == [] then false
    else a[0] < b[0] || (a[0] == b[0] && StrLt(a[1..], b[1..]))
  }

  lemma {:induction false} StrLtIrreflexive(a: string)
    ensures !StrLt(a, a)
  {
    if a != [] {
      StrLtIrreflexive(a[1..]);
    }
  }

  lemma {:induction false} StrLtTransitive(a: string, b: string, c: string)
    requires StrLt(a, b) && StrLt(b, c)
    ensures StrLt(a, c)
    decreases |a|
  {
    if a != [] && a[0] == b[0] && b[0] == c[0] {
      StrLtTransitive(a[1..], b[1..], c[1..]);
    }
  }

  lemma {:induction false} StrLtTotal(a: string, b: string)
    ensures a == b || StrLt(a, b) || StrLt(b, a)
    decreases |a|
  {
    if a != [] && b != [] && a[0] == b[0] {
      StrLtTotal(a[1..], b[1..]);
      if a[1..] == b[1..] {
        assert a == [a[0]] + a[1..] && b == [b[0]] + b[1..];
      }
    }
  }

  /** Keys strictly increase along xs, so no key repeats. */
  predicate AscendingBy<T>(xs: seq<T>, key: T -> string) {
    forall i, j :: 0 <= i < j < |xs| ==> StrLt(key(xs[i]), key(xs[j]))
  }

  function KeySet<T>(xs: seq<T>, key: T -> string): set<string> {
    set i | 0 <= i < |xs| :: key(xs[i])
  }

  lemma {:induction false} WhereAscending<T>(xs: seq<T>, keep: T -> bool, key: T -> string)
    requires AscendingBy(xs, key)
    ensures AscendingBy(Where(xs, keep), key)
  {
    if xs != [] {
      var p := xs[..|xs| - 1];
      WhereAscending(p, keep, key);
      var w := Where(p, keep);
      forall i | 0 <= i < |w|
        ensures StrLt(key(w[i]), key(xs[|xs| - 1]))
      {
        WhereMembers(p, keep, w[i]);
        var k :| 0 <= k < |p| && p[k] == w[i];
        assert xs[k] == w[i];
      }
    }
  }

  /** The keys of a sequence are the keys of its prefix and its last key. */
  lemma KeySetSnoc<T>(xs: seq<T>, key: T -> string)
    requires xs != []
    ensures KeySet(xs, key) == KeySet(xs[..|xs| - 1], key) + {key(xs[|xs| - 1])}
  {
    var p := xs[..|xs| - 1];
    forall k | k in KeySet(xs, key)
      ensures k in KeySet(p, key) + {key(xs[|xs| - 1])}
    {
      var m :| 0 <= m < |xs| && key(xs[m]) == k;
      if m < |p| {
        assert key(p[m]) == k;
      }
    }
    forall k | k in KeySet(p, key)
      ensures k in KeySet(xs, key)
    {
      var m :| 0 <= m < |p| && key(p[m]) == k;
      assert key(xs[m]) == k;
    }
  }

  /** Distinct keys: as many keys as rows. */
  lemma {:induction false} AscendingKeyCount<T>(xs: seq<T>, key: T -> string)
    requires AscendingBy(xs, key)
    ensures |KeySet(xs, key)| == |xs|
  {
    if xs != [] {
      var p := xs[..|xs| - 1];
      var n := |xs| - 1;
      assert AscendingBy(p, key);
      AscendingKeyCount(p, key);
      KeySetSnoc(xs, key);
      if key(xs[n]) in KeySet(p, key) {
        var m :| 0 <= m < |p| && key(p[m]) == key(xs[n]);
        assert StrLt(key(xs[m]), key(xs[n]));
        StrLtIrreflexive(key(xs[n]));
      }
    }
  }

  // ---------------------------------------------------------------------
  // Date filter

  /** `start_date <= Date <= end_date`. */
  predicate InRange(r: UsageRow, start: CivilDate, end: CivilDate) {
    DateLe(start, r.date) && DateLe(r.date, end)
  }

  /** `filtered_df`: the rows dated within the range, both ends included. */
  function FilterByDate(rows: seq<UsageRow>, start: CivilDate, end: CivilDate): seq<UsageRow> {
    Where(rows, r => InRange(r, start, end))
  }

  lemma FilterByDateCounts(rows: seq<UsageRow>, start: CivilDate, end: CivilDate)
    ensures forall r :: multiset(FilterByDate(rows, start, end))[r]
                        == if InRange(r, start, end) then multiset(rows)[r] else 0
  {
    WhereCounts(rows, r => InRange(r, start, end));
  }

  // ---------------------------------------------------------------------
  // Grouping by email

  predicate HasUser(rows: seq<UsageRow>, e: string) {
    exists i :: 0 <= i < |rows| && rows[i].email == e
  }

  predicate Ascending(xs: seq<string>) {
    forall i, j :: 0 <= i < j < |xs| ==> StrLt(xs[i], xs[j])
  }

  /** Adds x to an ascending key list unless it is there already. */
  function Insert(xs: seq<string>, x: string): seq<string> {
    if xs == [] then [x]
    else if x == xs[0] then xs
    else if StrLt(x, xs[0]) then [x] + xs
    else [xs[0]] + Insert(xs[1..], x)
  }

  lemma {:induction false} InsertAscending(xs: seq<string>, x: string)
    requires Ascending(xs)
    ensures Ascending(Insert(xs, x))
    ensures forall y :: y in Insert(xs, x) <==> y in xs || y == x
  {
    if xs == [] {
    } else if x == xs[0] {
    } else if StrLt(x, xs[0]) {
      var r := [x] + xs;
      forall i, j | 0 <= i < j < |r|
        ensures StrLt(r[i], r[j])
      {
        if i == 0 && j > 1 {
          StrLtTransitive(x, xs[0], xs[j - 1]);
        }
      }
    } else {
      StrLtTotal(x, xs[0]);
      var t := xs[1..];
      InsertAscending(t, x);
      var ins := Insert(t, x);
      var r := [xs[0]] + ins;
      forall i, j | 0 <= i < j < |r|
        ensures StrLt(r[i], r[j])
      {
        if i == 0 {
          assert r[j] == ins[j - 1];
          assert ins[j - 1] in ins;
          if r[j] != x {
            var k :| 0 <= k < |t| && t[k] == r[j];
            assert xs[k + 1] == r[j];
          }
        } else {
          assert r[i] == ins[i - 1] && r[j] == ins[j - 1];
        }
      }
      assert r == Insert(xs, x);
    }
  }

  /** The sorted group keys of `groupby('Email')`. */
  function GroupKeys(rows: seq<UsageRow>): seq<string> {
    if rows == [] then []
    else Insert(GroupKeys(rows[..|rows| - 1]), rows[|rows| - 1].email)
  }

  /** The keys are the emails that occur, each once, in ascending order. */
  lemma {:induction false} GroupKeysSpec(rows: seq<UsageRow>)
    ensures Ascending(GroupKeys(rows))
    ensures forall e :: e in GroupKeys(rows) <==> HasUser(rows, e)
  {
    if rows != [] {
      var p := rows[..|rows| - 1];
      GroupKeysSpec(p);
      InsertAscending(GroupKeys(p), rows[|rows| - 1].email);
      forall e | HasUser(rows, e) && e != rows[|rows| - 1].email
        ensures HasUser(p, e)
      {
        var i :| 0 <= i < |rows| && rows[i].email == e;
        assert p[i] == rows[i];
      }
      forall e | HasUser(p, e)
        ensures HasUser(rows, e)
      {
        var i :| 0 <= i < |p| && p[i].email == e;
        assert rows[i] == p[i];
      }
    }
  }

  /** `'Is Active': 'any'` over the user's rows. */
  predicate AnyActive(rows: seq<UsageRow>, e: string) {
    rows != [] && (AnyActive(rows[..|rows| - 1], e) || (rows[|rows| - 1].email == e && rows[|rows| - 1].isActive))
  }

  lemma {:induction false} AnyActiveIff(rows: seq<UsageRow>, e: string)
    ensures AnyActive(rows, e) <==> ActiveOn(rows, e)
  {
    if rows != [] {
      var p := rows[..|rows| - 1];
      AnyActiveIff(p, e);
      if exists i :: 0 <= i < |rows| && rows[i].email == e && rows[i].isActive {
        var i :| 0 <= i < |rows| && rows[i].email == e && rows[i].isActive;
        if i < |p| {
          assert p[i] == rows[i];
        }
      }
      if AnyActive(p, e) {
        var i :| 0 <= i < |p| && p[i].email == e && p[i].isActive;
        assert rows[i] == p[i];
      }
    }
  }

  /** `'Subscription Included Reqs': 'sum'` over the user's rows. */
  function SumReqs(rows: seq<UsageRow>, e: string): int {
    if rows == [] then 0
    else SumReqs(rows[..|rows| - 1], e)
         + (if rows[|rows| - 1].email == e then rows[|rows| - 1].subscriptionIncludedReqs else 0)
  }

  predicate NonNegativeCounts(rows: seq<UsageRow>) {
    forall i :: 0 <= i < |rows| ==> rows[i].subscriptionIncludedReqs >= 0
  }

  /** With no negative count, a user's sum is never negative, and it is zero
      exactly when every one of the user's rows has no request. */
  lemma {:induction false} SumReqsZero(rows: seq<UsageRow>, e: string)
    requires NonNegativeCounts(rows)
    ensures SumReqs(rows, e) >= 0
    ensures SumReqs(rows, e) == 0
            <==> forall i :: 0 <= i < |rows| && rows[i].email == e ==> rows[i].subscriptionIncludedReqs == 0
  {
    if rows != [] {
      var p := rows[..|rows| - 1];
      assert forall i :: 0 <= i < |p| ==> p[i] == rows[i];
      SumReqsZero(p, e);
    }
  }

  /** A user's sum is negative only when one of the user's rows is. */
  lemma {:induction false} NegativeSumHasCause(rows: seq<UsageRow>, e: string)
    requires SumReqs(rows, e) < 0
    ensures exists i :: 0 <= i < |rows| && rows[i].email == e && rows[i].subscriptionIncludedReqs < 0
  {
    var p := rows[..|rows| - 1];
    var last := rows[|rows| - 1];
    if last.email == e && last.subscriptionIncludedReqs < 0 {
      assert rows[|rows| - 1] == last;
    } else {
      NegativeSumHasCause(p, e);
      var i :| 0 <= i < |p| && p[i].email == e && p[i].subscriptionIncludedReqs < 0;
      assert rows[i] == p[i];
    }
  }

  /** A row of `unique_users`. */
  datatype UserTotals = UserTotals(email: string, isActive: bool, subscriptionIncludedReqs: int)

  function UserEmail(u: UserTotals): string {
    u.email
  }

  /** `groupby('Email').agg(...).reset_index()`. */
  function UniqueUsers(rows: seq<UsageRow>): seq<UserTotals> {
    var keys := GroupKeys(rows);
    seq(|keys|, i requires 0 <= i < |keys| => UserTotals(keys[i], AnyActive(rows, keys[i]), SumReqs(rows, keys[i])))
  }

  /** One row per user that occurs, in ascending email order, carrying the
      user's any-active flag and request sum. */
  lemma UniqueUsersSpec(rows: seq<UsageRow>)
    ensures AscendingBy(UniqueUsers(rows), UserEmail)
    ensures forall e :: e in KeySet(UniqueUsers(rows), UserEmail) <==> HasUser(rows, e)
    ensures forall u :: u in UniqueUsers(rows) ==>
      && u.isActive == ActiveOn(rows, u.email)
      && u.subscriptionIncludedReqs == SumReqs(rows, u.email)
  {
    var keys := GroupKeys(rows);
    var us := UniqueUsers(rows);
    GroupKeysSpec(rows);
    forall e | HasUser(rows, e)
      ensures e in KeySet(us, UserEmail)
    {
      var i :| 0 <= i < |keys| && keys[i] == e;
      assert UserEmail(us[i]) == e;
    }
    forall u | u in us
      ensures u.isActive == ActiveOn(rows, u.email)
    {
      AnyActiveIff(rows, u.email);
    }
  }

  // ---------------------------------------------------------------------
  // The two cohorts

  predicate IsNeverUsed(u: UserTotals) {
    u.subscriptionIncludedReqs == 0
  }

  predicate IsUsed(u: UserTotals) {
    u.subscriptionIncludedReqs > 0
  }

  /** `never_used`: the users whose request sum is 0. */
  function NeverUsed(us: seq<UserTotals>): seq<UserTotals> {
    Where(us, IsNeverUsed)
  }

  /** `used_service`: the users whose request sum is positive. */
  function UsedService(us: seq<UserTotals>): seq<UserTotals> {
    Where(us, IsUsed)
  }

  /** The cohorts are the users with sum 0 and with sum above 0, so no user
      is in both. */
  lemma CohortMembers(us: seq<UserTotals>, u: UserTotals)
    ensures u in NeverUsed(us) <==> u in us && u.subscriptionIncludedReqs == 0
    ensures u in UsedService(us) <==> u in us && u.subscriptionIncludedReqs > 0
    ensures !(u in NeverUsed(us) && u in UsedService(us))
  {
    WhereMembers(us, IsNeverUsed, u);
    WhereMembers(us, IsUsed, u);
  }

  /** The count check `used + never == total` holds exactly when no user's
      request sum is negative. */
  lemma CohortSizes(us: seq<UserTotals>)
    ensures |NeverUsed(us)| + |UsedService(us)| <= |us|
    ensures |NeverUsed(us)| + |UsedService(us)| == |us|
            <==> forall i :: 0 <= i < |us| ==> us[i].subscriptionIncludedReqs >= 0
  {
    WhereDisjointSizes(us, IsNeverUsed, IsUsed);
  }

  /** The never-used table, `never_used[['Email', ...]].sort_values('Email')`:
      the users come out of the grouping in ascending email order already,
      so the sort leaves the selection as it is. */
  function NeverUsedTable(rows: seq<UsageRow>): seq<UserTotals> {
    NeverUsed(UniqueUsers(rows))
  }

  lemma NeverUsedTableSorted(rows: seq<UsageRow>)
    ensures AscendingBy(NeverUsedTable(rows), UserEmail)
    ensures forall u :: u in NeverUsedTable(rows) <==> u in UniqueUsers(rows) && u.subscriptionIncludedReqs == 0
  {
    UniqueUsersSpec(rows);
    WhereAscending(UniqueUsers(rows), IsNeverUsed, UserEmail);
    forall u {
      CohortMembers(UniqueUsers(rows), u);
    }
  }

  // ---------------------------------------------------------------------
  // Active days

  predicate IsActiveRow(r: UsageRow) {
    r.isActive
  }

  /** `filtered_df[filtered_df['Is Active'] == True]`. */
  function OnlyActive(rows: seq<UsageRow>): seq<UsageRow> {
    Where(rows, IsActiveRow)
  }

  /** The user has an active row. */
  predicate ActiveOn(rows: seq<UsageRow>, e: string) {
    exists i :: 0 <= i < |rows| && rows[i].email == e && rows[i].isActive
  }

  /** The distinct days on which the user has an active row. */
  function ActiveDates(rows: seq<UsageRow>, e: string): set<CivilDate> {
    set i | 0 <= i < |rows| && rows[i].email == e && rows[i].isActive :: rows[i].date
  }

  lemma ActiveDatesNonEmpty(rows: seq<UsageRow>, e: string)
    requires ActiveOn(rows, e)
    ensures |ActiveDates(rows, e)| >= 1
  {
    var i :| 0 <= i < |rows| && rows[i].email == e && rows[i].isActive;
    assert rows[i].date in ActiveDates(rows, e);
  }

  /** A row of the active-days table. */
  datatype ActiveDaysRow = ActiveDaysRow(email: string, activeDays: nat, subscriptionIncludedReqs: int)

  function RowEmail(a: ActiveDaysRow): string {
    a.email
  }

  /** `groupby('Email')['Date'].nunique()` over the active rows, merged on
      the left with each user's request sum. */
  function ActiveDaysByUser(rows: seq<UsageRow>): seq<ActiveDaysRow> {
    var keys := GroupKeys(OnlyActive(rows));
    seq(|keys|, i requires 0 <= i < |keys| =>
      ActiveDaysRow(keys[i], |ActiveDates(rows, keys[i])|, SumReqs(rows, keys[i])))
  }

  /** `active_days['Email'].isin(used_service['Email'])`. */
  function KeepUsed(table: seq<ActiveDaysRow>, used: set<string>): seq<ActiveDaysRow> {
    Where(table, (r: ActiveDaysRow) => r.email in used)
  }

  lemma KeepUsedSpec(table: seq<ActiveDaysRow>, used: set<string>)
    ensures forall a :: a in KeepUsed(table, used) <==> a in table && a.email in used
    ensures AscendingBy(table, RowEmail) ==> AscendingBy(KeepUsed(table, used), RowEmail)
  {
    forall a
      ensures a in KeepUsed(table, used) <==> a in table && a.email in used
    {
      WhereMembers(table, (r: ActiveDaysRow) => r.email in used, a);
    }
    if AscendingBy(table, RowEmail) {
      WhereAscending(table, (r: ActiveDaysRow) => r.email in used, RowEmail);
    }
  }

  /** The groups of the active rows are the users with an active row. */
  lemma ActiveKeys(rows: seq<UsageRow>)
    ensures Ascending(GroupKeys(OnlyActive(rows)))
    ensures forall e :: e in GroupKeys(OnlyActive(rows)) <==> ActiveOn(rows, e)
  {
    var act := OnlyActive(rows);
    GroupKeysSpec(act);
    forall e
      ensures HasUser(act, e) <==> ActiveOn(rows, e)
    {
      if HasUser(act, e) {
        var k :| 0 <= k < |act| && act[k].email == e;
        WhereMembers(rows, IsActiveRow, act[k]);
        var i :| 0 <= i < |rows| && rows[i] == act[k];
      }
      if ActiveOn(rows, e) {
        var i :| 0 <= i < |rows| && rows[i].email == e && rows[i].isActive;
        WhereMembers(rows, IsActiveRow, rows[i]);
        var k :| 0 <= k < |act| && act[k] == rows[i];
      }
    }
  }

  /** `used_service['Email']` holds the users with a positive sum. */
  lemma UsedEmails(rows: seq<UsageRow>)
    ensures forall e :: e in KeySet(UsedService(UniqueUsers(rows)), UserEmail)
                        <==> HasUser(rows, e) && SumReqs(rows, e) > 0
  {
    var us := UniqueUsers(rows);
    var used := UsedService(us);
    UniqueUsersSpec(rows);
    forall e
      ensures e in KeySet(used, UserEmail) <==> HasUser(rows, e) && SumReqs(rows, e) > 0
    {
      if e in KeySet(used, UserEmail) {
        var i :| 0 <= i < |used| && UserEmail(used[i]) == e;
        CohortMembers(us, used[i]);
        var k :| 0 <= k < |us| && us[k] == used[i];
        assert UserEmail(us[k]) == e;
      }
      if HasUser(rows, e) && SumReqs(rows, e) > 0 {
        var k :| 0 <= k < |us| && UserEmail(us[k]) == e;
        CohortMembers(us, us[k]);
        var i :| 0 <= i < |used| && used[i] == us[k];
        assert UserEmail(used[i]) == e;
      }
    }
  }

  lemma UsedServiceAscending(rows: seq<UsageRow>)
    ensures AscendingBy(UsedService(UniqueUsers(rows)), UserEmail)
  {
    UniqueUsersSpec(rows);
    WhereAscending(UniqueUsers(rows), IsUsed, UserEmail);
  }

  /** The active-days table before its sort. */
  function UsedActiveDays(rows: seq<UsageRow>): seq<ActiveDaysRow> {
    KeepUsed(ActiveDaysByUser(rows), KeySet(UsedService(UniqueUsers(rows)), UserEmail))
  }

  /** Before the sort: one row per used user with an active row, in
      ascending email order, holding that user's number of distinct active
      days and request sum. */
  lemma UsedActiveDaysMembers(rows: seq<UsageRow>)
    ensures AscendingBy(UsedActiveDays(rows), RowEmail)
    ensures forall a :: a in UsedActiveDays(rows) <==>
      && ActiveOn(rows, a.email) && SumReqs(rows, a.email) > 0
      && a == ActiveDaysRow(a.email, |ActiveDates(rows, a.email)|, SumReqs(rows, a.email))
  {
    var keys := GroupKeys(OnlyActive(rows));
    var table := ActiveDaysByUser(rows);
    var used := KeySet(UsedService(UniqueUsers(rows)), UserEmail);
    ActiveKeys(rows);
    UsedEmails(rows);
    assert AscendingBy(table, RowEmail);
    KeepUsedSpec(table, used);
    forall a
      ensures a in table <==> ActiveOn(rows, a.email)
                               && a == ActiveDaysRow(a.email, |ActiveDates(rows, a.email)|, SumReqs(rows, a.email))
    {
      if ActiveOn(rows, a.email) && a == ActiveDaysRow(a.email, |ActiveDates(rows, a.email)|, SumReqs(rows, a.email)) {
        var k :| 0 <= k < |keys| && keys[k] == a.email;
        assert table[k] == a;
      }
    }
    forall e | ActiveOn(rows, e)
      ensures HasUser(rows, e)
    {
      var i :| 0 <= i < |rows| && rows[i].email == e && rows[i].isActive;
    }
  }

  lemma SubsetCard(a: set<string>, b: set<string>)
    requires a <= b
    ensures |a| <= |b|
  {
    assert b == a + (b - a);
  }

  /** Every row of the table is a distinct used user, so the table is no
      longer than the used cohort. */
  lemma UsedActiveDaysSize(rows: seq<UsageRow>)
    ensures |UsedActiveDays(rows)| <= |UsedService(UniqueUsers(rows))|
  {
    var pre := UsedActiveDays(rows);
    var used := UsedService(UniqueUsers(rows));
    UsedActiveDaysMembers(rows);
    UsedEmails(rows);
    UsedServiceAscending(rows);
    AscendingKeyCount(pre, RowEmail);
    AscendingKeyCount(used, UserEmail);
    forall e | e in KeySet(pre, RowEmail)
      ensures e in KeySet(used, UserEmail)
    {
      var i :| 0 <= i < |pre| && RowEmail(pre[i]) == e;
      assert pre[i] in pre;
      var j :| 0 <= j < |rows| && rows[j].email == e && rows[j].isActive;
      assert HasUser(rows, e);
    }
    SubsetCard(KeySet(pre, RowEmail), KeySet(used, UserEmail));
  }

  /** Rank order of the right-hand table: more active days first, then more
      requests, then (the order groupby left ties in, which the stable
      multi-key sort keeps) ascending email. */
  predicate Before(a: ActiveDaysRow, b: ActiveDaysRow) {
    || a.activeDays > b.activeDays
    || (a.activeDays == b.activeDays && a.subscriptionIncludedReqs > b.subscriptionIncludedReqs)
    || (a.activeDays == b.activeDays && a.subscriptionIncludedReqs == b.subscriptionIncludedReqs
        && StrLt(a.email, b.email))
  }

  lemma BeforeAsymmetric(a: ActiveDaysRow, b: ActiveDaysRow)
    requires Before(a, b)
    ensures !Before(b, a)
  {
    if StrLt(a.email, b.email) && StrLt(b.email, a.email) {
      StrLtTransitive(a.email, b.email, a.email);
      StrLtIrreflexive(a.email);
    }
  }

  lemma BeforeTransitive(a: ActiveDaysRow, b: ActiveDaysRow, c: ActiveDaysRow)
    requires Before(a, b) && Before(b, c)
    ensures Before(a, c)
  {
    if StrLt(a.email, b.email) && StrLt(b.email, c.email) {
      StrLtTransitive(a.email, b.email, c.email);
    }
  }

  /** No row is ranked before the one in front of it. */
  predicate RankSorted(xs: seq<ActiveDaysRow>) {
    forall i :: 0 < i < |xs| ==> !Before(xs[i], xs[i - 1])
  }

  function InsertByRank(xs: seq<ActiveDaysRow>, x: ActiveDaysRow): seq<ActiveDaysRow> {
    if xs == [] then [x]
    else if Before(xs[0], x) then [xs[0]] + InsertByRank(xs[1..], x)
    else [x] + xs
  }

  /** `sort_values(['Active Days', 'Subscription Included Reqs'], ascending=[False, False])`. */
  function SortByRank(xs: seq<ActiveDaysRow>): seq<ActiveDaysRow> {
    if xs == [] then []
    else InsertByRank(SortByRank(xs[..|xs| - 1]), xs[|xs| - 1])
  }

  lemma {:induction false} InsertByRankSorted(xs: seq<ActiveDaysRow>, x: ActiveDaysRow)
    requires RankSorted(xs)
    ensures RankSorted(InsertByRank(xs, x))
    ensures multiset(InsertByRank(xs, x)) == multiset(xs) + multiset{x}
    ensures InsertByRank(xs, x)[0] == x || (xs != [] && InsertByRank(xs, x)[0] == xs[0])
  {
    if xs != [] && Before(xs[0], x) {
      var t := xs[1..];
      InsertByRankSorted(t, x);
      BeforeAsymmetric(xs[0], x);
      var ins := InsertByRank(t, x);
      var r := [xs[0]] + ins;
      assert xs == [xs[0]] + t;
      forall i | 0 < i < |r|
        ensures !Before(r[i], r[i - 1])
      {
        if i > 1 {
          assert r[i] == ins[i - 1] && r[i - 1] == ins[i - 2];
        }
      }
    }
  }

  /** The sort orders the table by rank and keeps exactly its rows. */
  lemma {:induction false} SortByRankSpec(xs: seq<ActiveDaysRow>)
    ensures RankSorted(SortByRank(xs))
    ensures multiset(SortByRank(xs)) == multiset(xs)
  {
    if xs != [] {
      var p := xs[..|xs| - 1];
      SortByRankSpec(p);
      InsertByRankSorted(SortByRank(p), xs[|xs| - 1]);
      assert xs == p + [xs[|xs| - 1]];
    }
  }

  predicate DistinctEmails(xs: seq<ActiveDaysRow>) {
    forall i, j :: 0 <= i < j < |xs| ==> xs[i].email != xs[j].email
  }

  lemma {:induction false} AtMostOnce(xs: seq<ActiveDaysRow>, x: ActiveDaysRow)
    requires DistinctEmails(xs)
    ensures multiset(xs)[x] <= 1
  {
    if xs != [] {
      var p := xs[..|xs| - 1];
      AtMostOnce(p, x);
      assert xs == p + [xs[|xs| - 1]];
    }
  }

  lemma TwoCopies(t: seq<ActiveDaysRow>, i: int, j: int)
    requires 0 <= i < j < |t| && t[i] == t[j]
    ensures multiset(t)[t[i]] >= 2
  {
    assert t == t[..i] + [t[i]] + t[i + 1..j] + [t[j]] + t[j + 1..];
  }

  /** A reordering of rows with distinct emails has distinct emails. */
  lemma PermutationDistinct(t: seq<ActiveDaysRow>, pre: seq<ActiveDaysRow>)
    requires multiset(t) == multiset(pre) && DistinctEmails(pre)
    ensures DistinctEmails(t)
  {
    forall i, j | 0 <= i < j < |t|
      ensures t[i].email != t[j].email
    {
      if t[i].email == t[j].email {
        assert t[i] in multiset(pre) && t[j] in multiset(pre);
        var k :| 0 <= k < |pre| && pre[k] == t[i];
        var l :| 0 <= l < |pre| && pre[l] == t[j];
        assert k == l;
        TwoCopies(t, i, j);
        AtMostOnce(pre, t[i]);
      }
    }
  }

  /** With distinct emails the rank order is strict down the whole table. */
  lemma {:induction false} RankSortedStrict(xs: seq<ActiveDaysRow>)
    requires RankSorted(xs) && DistinctEmails(xs)
    ensures forall i, j :: 0 <= i < j < |xs| ==> Before(xs[i], xs[j])
  {
    if |xs| > 1 {
      var p := xs[..|xs| - 1];
      RankSortedStrict(p);
      var n := |xs| - 1;
      StrLtTotal(xs[n - 1].email, xs[n].email);
      assert Before(xs[n - 1], xs[n]);
      forall i | 0 <= i < n - 1
        ensures Before(xs[i], xs[n])
      {
        assert Before(p[i], p[n - 1]);
        BeforeTransitive(xs[i], xs[n - 1], xs[n]);
      }
    }
  }

  /** The right-hand table. */
  function ActiveDaysTable(rows: seq<UsageRow>): seq<ActiveDaysRow> {
    SortByRank(UsedActiveDays(rows))
  }

  /** The ranked table: exactly the used users with an active row, each with
      at least one active day, strictly ordered by rank, and no longer than
      the used cohort. */
  lemma ActiveDaysTableSpec(rows: seq<UsageRow>)
    ensures forall a :: a in ActiveDaysTable(rows) <==>
      && ActiveOn(rows, a.email) && SumReqs(rows, a.email) > 0
      && a == ActiveDaysRow(a.email, |ActiveDates(rows, a.email)|, SumReqs(rows, a.email))
    ensures forall a :: a in ActiveDaysTable(rows) ==> a.activeDays >= 1
    ensures forall i, j :: 0 <= i < j < |ActiveDaysTable(rows)| ==>
      Before(ActiveDaysTable(rows)[i], ActiveDaysTable(rows)[j])
    ensures |ActiveDaysTable(rows)| <= |UsedService(UniqueUsers(rows))|
  {
    var pre := UsedActiveDays(rows);
    var t := ActiveDaysTable(rows);
    SortByRankSpec(pre);
    UsedActiveDaysMembers(rows);
    UsedActiveDaysSize(rows);
    assert |t| == |multiset(t)| == |multiset(pre)| == |pre|;
    forall a
      ensures a in t <==> a in pre
    {
      assert a in t <==> a in multiset(t);
    }
    forall a | a in t
      ensures a.activeDays >= 1
    {
      ActiveDatesNonEmpty(rows, a.email);
    }
    forall i, j | 0 <= i < j < |pre|
      ensures pre[i].email != pre[j].email
    {
      StrLtIrreflexive(pre[i].email);
    }
    PermutationDistinct(t, pre);
    RankSortedStrict(t);
  }

  // ---------------------------------------------------------------------
  // The page

  /** The figures the page shows, and whether its count check fires. */
  datatype Report = Report(
    neverUsed: seq<UserTotals>,
    activeDays: seq<ActiveDaysRow>,
    totalUsers: nat,
    usersWhoUsed: nat,
    usersWhoNeverUsed: nat,
    countError: bool)

  function Analyze(rows: seq<UsageRow>, start: CivilDate, end: CivilDate): Report {
    var filtered := FilterByDate(rows, start, end);
    var us := UniqueUsers(filtered);
    var total := |us|;
    var used := |UsedService(us)|;
    var never := |NeverUsed(us)|;
    Report(NeverUsedTable(filtered), ActiveDaysTable(filtered), total, used, never, used + never != total)
  }

  /** The count check fires exactly when some user's request sum over the
      range is negative; so with no negative count in the data it never does. */
  lemma CountCheck(rows: seq<UsageRow>, start: CivilDate, end: CivilDate)
    ensures var filtered := FilterByDate(rows, start, end);
      Analyze(rows, start, end).countError
      <==> exists u :: u in UniqueUsers(filtered) && u.subscriptionIncludedReqs < 0
    ensures NonNegativeCounts(rows) ==> !Analyze(rows, start, end).countError
  {
    var filtered := FilterByDate(rows, start, end);
    var us := UniqueUsers(filtered);
    CohortSizes(us);
    if exists u :: u in us && u.subscriptionIncludedReqs < 0 {
      var u :| u in us && u.subscriptionIncludedReqs < 0;
      UniqueUsersSpec(filtered);
      NegativeSumHasCause(filtered, u.email);
      var i :| 0 <= i < |filtered| && filtered[i].email == u.email && filtered[i].subscriptionIncludedReqs < 0;
      FilterByDateCounts(rows, start, end);
      assert filtered[i] in multiset(filtered);
      assert filtered[i] in rows;
    }
    if !(forall i :: 0 <= i < |us| ==> us[i].subscriptionIncludedReqs >= 0) {
      var i :| 0 <= i < |us| && us[i].subscriptionIncludedReqs < 0;
      assert us[i] in us;
    }
  }

  lemma WhereSingleton<T>(x: T, keep: T -> bool)
    ensures Where([x], keep) == if keep(x) then [x] else []
  {
    assert [x][..0] == [];
  }

  /** The aggregates of a one-row table. */
  lemma SingleRow(r: UsageRow)
    ensures GroupKeys([r]) == [r.email]
    ensures UniqueUsers([r]) == [UserTotals(r.email, r.isActive, r.subscriptionIncludedReqs)]
  {
    assert [r][..0] == [];
    assert AnyActive([r], r.email) == r.isActive;
    assert SumReqs([r], r.email) == r.subscriptionIncludedReqs;
  }

  /** A used user without an active row leaves the active-days table,
      before its sort, shorter than the used cohort. */
  lemma UsedActiveDaysShorter(rows: seq<UsageRow>, e: string)
    requires HasUser(rows, e) && SumReqs(rows, e) > 0 && !ActiveOn(rows, e)
    ensures |UsedActiveDays(rows)| < |UsedService(UniqueUsers(rows))|
  {
    var pre := UsedActiveDays(rows);
    var used := UsedService(UniqueUsers(rows));
    UsedEmails(rows);
    UsedActiveDaysMembers(rows);
    UsedServiceAscending(rows);
    AscendingKeyCount(pre, RowEmail);
    AscendingKeyCount(used, UserEmail);
    forall x | x in KeySet(pre, RowEmail)
      ensures x in KeySet(used, UserEmail) - {e}
    {
      var i :| 0 <= i < |pre| && RowEmail(pre[i]) == x;
      assert pre[i] in pre;
      var j :| 0 <= j < |rows| && rows[j].email == x && rows[j].isActive;
      assert HasUser(rows, x);
    }
    SubsetCard(KeySet(pre, RowEmail), KeySet(used, UserEmail) - {e});
  }

  /** A user with requests in the range but no active row there is counted
      as used, yet has no row in the active-days table; so that table is
      then strictly shorter than the used count. */
  lemma UsedButNeverActive(rows: seq<UsageRow>, start: CivilDate, end: CivilDate, e: string)
    requires HasUser(FilterByDate(rows, start, end), e)
    requires SumReqs(FilterByDate(rows, start, end), e) > 0
    requires !ActiveOn(FilterByDate(rows, start, end), e)
    ensures e in KeySet(UsedService(UniqueUsers(FilterByDate(rows, start, end))), UserEmail)
    ensures forall a :: a in Analyze(rows, start, end).activeDays ==> a.email != e
    ensures |Analyze(rows, start, end).activeDays| < Analyze(rows, start, end).usersWhoUsed
  {
    var f := FilterByDate(rows, start, end);
    var pre := UsedActiveDays(f);
    var t := ActiveDaysTable(f);
    UsedEmails(f);
    ActiveDaysTableSpec(f);
    UsedActiveDaysShorter(f, e);
    SortByRankSpec(pre);
    assert |t| == |multiset(t)| == |multiset(pre)| == |pre|;
  }

  /** An example: a range holding one row, with a negative count, makes the
      page's count check fire. */
  lemma NegativeCountTripsCheck()
    ensures var d := CivilDate(2025, 5, 1);
      Analyze([UsageRow(d, "a@x", true, -1)], d, d).countError
  {
    var d := CivilDate(2025, 5, 1);
    var row := UsageRow(d, "a@x", true, -1);
    WhereSingleton(row, r => InRange(r, d, d));
    SingleRow(row);
    var u := UserTotals("a@x", true, -1);
    WhereSingleton(u, IsUsed);
    WhereSingleton(u, IsNeverUsed);
  }
}
