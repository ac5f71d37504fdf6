/**
 * The users repository over an abstract table: `rows` in storage order, with
 * ids handed out by a serial counter.  The queries are functions of the rows;
 * the writes are methods of `UsersRepository`.
 */
module Repository {
  import opened Wrappers
  import opened Entities

  // ---------------------------------------------------------------------------
  // Lookup and filtering
  // ---------------------------------------------------------------------------

  /** `findById`: the row with this id, or nothing when there is none. */
  function FindById(rows: seq<User>, id: int): (r: Option<User>)
    ensures r.Some? ==> r.value in rows && r.value.id == id
    ensures r.None? <==> !HasId(rows, id)
  {
    if |rows| == 0 then None
    else if rows[0].id == id then Some(rows[0])
    else FindById(rows[1..], id)
  }

  /** With unique ids, the row `findById` returns for an id is the one row holding it. */
  lemma {:induction false} FindByIdUnique(rows: seq<User>, u: User)
    requires UniqueIds(rows) && u in rows
    ensures FindById(rows, u.id) == Some(u)
  {
    if rows[0] != u {
      assert rows == [rows[0]] + rows[1..];
      UniqueIdsCons(rows[0], rows[1..]);
      assert u in rows[1..];
      FindByIdUnique(rows[1..], u);
    }
  }

  /** The rows `keep` accepts, in storage order, each as often as it is stored. */
  function Filter(rows: seq<User>, keep: User -> bool): (r: seq<User>)
    ensures forall u :: u in r <==> u in rows && keep(u)
    ensures forall u :: multiset(r)[u] == if keep(u) then multiset(rows)[u] else 0
  {
    if |rows| == 0 then []
    else
      assert rows == [rows[0]] + rows[1..];
      (if keep(rows[0]) then [rows[0]] else []) + Filter(rows[1..], keep)
  }

  /** Filtering keeps the table's uniqueness constraints. */
  lemma {:induction false} FilterKeepsUnique(rows: seq<User>, keep: User -> bool)
    requires UniqueIds(rows) && UniqueEmails(rows)
    ensures UniqueIds(Filter(rows, keep)) && UniqueEmails(Filter(rows, keep))
  {
    if |rows| > 0 {
      assert rows == [rows[0]] + rows[1..];
      UniqueIdsCons(rows[0], rows[1..]);
      UniqueEmailsCons(rows[0], rows[1..]);
      FilterKeepsUnique(rows[1..], keep);
      var rest := Filter(rows[1..], keep);
      if keep(rows[0]) {
        assert Filter(rows, keep) == [rows[0]] + rest;
        UniqueIdsCons(rows[0], rest);
        UniqueEmailsCons(rows[0], rest);
      } else {
        assert Filter(rows, keep) == rest;
      }
    }
  }

  /** A filter that keeps every row gives the rows back. */
  lemma {:induction false} FilterAll(rows: seq<User>, keep: User -> bool)
    requires forall u | u in rows :: keep(u)
    ensures Filter(rows, keep) == rows
  {
    if |rows| > 0 {
      FilterAll(rows[1..], keep);
      assert rows == [rows[0]] + rows[1..];
    }
  }

  /** The table after `delete(id)`: every row but those with that id. */
  function Without(rows: seq<User>, id: int): (r: seq<User>)
    ensures forall u :: u in r <==> u in rows && u.id != id
  {
    Filter(rows, (u: User) => u.id != id)
  }

  /** After deleting `id` the id is gone and every other id finds what it found before. */
  lemma {:induction false} WithoutEffect(rows: seq<User>, id: int, k: int)
    ensures FindById(Without(rows, id), id) == None
    ensures k != id ==> FindById(Without(rows, id), k) == FindById(rows, k)
  {
    if |rows| > 0 && k != id {
      WithoutEffect(rows[1..], id, k);
      if rows[0].id != id {
        assert Without(rows, id) == [rows[0]] + Without(rows[1..], id);
      } else {
        assert Without(rows, id) == Without(rows[1..], id);
      }
    }
  }

  /** The table with the row whose id is `u.id` replaced by `u`, in place. */
  function Replace(rows: seq<User>, u: User): (r: seq<User>)
    ensures |r| == |rows|
    ensures forall i | 0 <= i < |rows| :: r[i] == if rows[i].id == u.id then u else rows[i]
  {
    if |rows| == 0 then []
    else [if rows[0].id == u.id then u else rows[0]] + Replace(rows[1..], u)
  }

  /** After a replace the replaced id finds the new row and every other id finds what it found before. */
  lemma {:induction false} ReplaceEffect(rows: seq<User>, u: User, k: int)
    ensures HasId(rows, u.id) ==> FindById(Replace(rows, u), u.id) == Some(u)
    ensures k != u.id ==> FindById(Replace(rows, u), k) == FindById(rows, k)
  {
    if |rows| > 0 {
      ReplaceEffect(rows[1..], u, k);
      assert Replace(rows, u)[1..] == Replace(rows[1..], u);
      if rows[0].id != u.id && HasId(rows, u.id) {
        var v :| v in rows && v.id == u.id;
        assert v in rows[1..];
      }
    }
  }

  /** With unique ids, replacing a row by itself leaves the table as it was. */
  lemma ReplaceWithStored(rows: seq<User>, u: User)
    requires UniqueIds(rows) && u in rows
    ensures Replace(rows, u) == rows
  {
    var j :| 0 <= j < |rows| && rows[j] == u;
    forall i | 0 <= i < |rows| ensures Replace(rows, u)[i] == rows[i] {
      if rows[i].id == u.id {
        assert i == j;
      }
    }
  }

  /** Some other row than the one with id `id` already holds `email`. */
  predicate EmailHeldByOther(rows: seq<User>, id: int, email: string)
  {
    exists v | v in rows :: v.email == email && v.id != id
  }

  /** Replacing a row keeps the ids unique. */
  lemma ReplaceKeepsIds(rows: seq<User>, u: User)
    requires UniqueIds(rows)
    ensures UniqueIds(Replace(rows, u))
  {
    var r := Replace(rows, u);
    forall i, j | 0 <= i < j < |r| ensures r[i].id != r[j].id {
      assert r[i].id == rows[i].id && r[j].id == rows[j].id;
    }
  }

  /** Replacing a row keeps the emails unique when its new email belongs to no other row. */
  lemma ReplaceKeepsEmails(rows: seq<User>, u: User)
    requires UniqueIds(rows) && UniqueEmails(rows)
    requires !EmailHeldByOther(rows, u.id, u.email)
    ensures UniqueEmails(Replace(rows, u))
  {
    var r := Replace(rows, u);
    forall i, j | 0 <= i < j < |r| ensures r[i].email != r[j].email {
      var a, b := rows[i], rows[j];
      assert a.id != b.id;
      if a.id == u.id {
        assert r[i] == u && r[j] == b && b in rows;
      } else if b.id == u.id {
        assert r[i] == a && r[j] == u && a in rows;
      } else {
        assert r[i] == a && r[j] == b;
      }
    }
  }

  /** Replacing a row keeps the constraints when its new email belongs to no other row. */
  lemma ReplaceKeepsUnique(rows: seq<User>, u: User)
    requires UniqueIds(rows) && UniqueEmails(rows)
    requires !EmailHeldByOther(rows, u.id, u.email)
    ensures UniqueIds(Replace(rows, u)) && UniqueEmails(Replace(rows, u))
    ensures forall v | v in Replace(rows, u) :: v == u || v in rows
  {
    ReplaceKeepsIds(rows, u);
    ReplaceKeepsEmails(rows, u);
    var r := Replace(rows, u);
    forall v | v in r ensures v == u || v in rows {
      var i :| 0 <= i < |r| && r[i] == v;
    }
  }

  /** With unique emails, a stored row's own email is held by no other row. */
  lemma OwnEmailNotHeldByOther(rows: seq<User>, v: User)
    requires UniqueEmails(rows) && v in rows
    ensures !EmailHeldByOther(rows, v.id, v.email)
  {
    var i :| 0 <= i < |rows| && rows[i] == v;
    forall w | w in rows && w.email == v.email ensures w.id == v.id {
      var j :| 0 <= j < |rows| && rows[j] == w;
      assert i == j;
    }
  }

  // ---------------------------------------------------------------------------
  // Ordering by creation time
  // ---------------------------------------------------------------------------

  /** `ORDER BY created_at DESC`. */
  ghost predicate SortedByCreatedDesc(s: seq<User>)
  {
    forall i, j | 0 <= i < j < |s| :: s[i].createdAt >= s[j].createdAt
  }

  /** A row created no earlier than the head of a sorted list can head it. */
  lemma SortedCons(x: User, s: seq<User>)
    requires SortedByCreatedDesc(s)
    requires |s| == 0 || x.createdAt >= s[0].createdAt
    ensures SortedByCreatedDesc([x] + s)
  {
    var r := [x] + s;
    forall i, j | 0 <= i < j < |r| ensures r[i].createdAt >= r[j].createdAt {
      assert r[j] == s[j - 1];
      if i > 0 {
        assert r[i] == s[i - 1];
      } else if j > 1 {
        assert s[0].createdAt >= s[j - 1].createdAt;
      }
    }
  }

  /** Inserts `u` into a list sorted newest first, before the first row created no later than it. */
  function InsertByCreatedDesc(u: User, s: seq<User>): (r: seq<User>)
    requires SortedByCreatedDesc(s)
    ensures SortedByCreatedDesc(r)
    ensures multiset(r) == multiset(s) + multiset{u}
    ensures |r| > 0 && (r[0] == u || (|s| > 0 && r[0] == s[0]))
  {
    if |s| == 0 || u.createdAt >= s[0].createdAt then
      SortedCons(u, s);
      [u] + s
    else
      assert s == [s[0]] + s[1..];
      assert SortedByCreatedDesc(s[1..]);
      var rest := InsertByCreatedDesc(u, s[1..]);
      assert |s| > 1 ==> s[0].createdAt >= s[1].createdAt;
      SortedCons(s[0], rest);
      [s[0]] + rest
  }

  /** The rows sorted by `created_at`, newest first: a permutation of the input. */
  function SortByCreatedDesc(s: seq<User>): (r: seq<User>)
    ensures SortedByCreatedDesc(r)
    ensures multiset(r) == multiset(s)
  {
    if |s| == 0 then []
    else
      assert s == [s[0]] + s[1..];
      InsertByCreatedDesc(s[0], SortByCreatedDesc(s[1..]))
  }

  // ---------------------------------------------------------------------------
  // Queries
  // ---------------------------------------------------------------------------

  /** `findUsersByDateRange`: the rows created in [start, end] (bounds included), newest first. */
  function FindUsersByDateRange(rows: seq<User>, start: int, end: int): (r: seq<User>)
    ensures SortedByCreatedDesc(r)
    ensures forall u :: multiset(r)[u] == if start <= u.createdAt <= end then multiset(rows)[u] else 0
    ensures forall u :: u in r <==> u in rows && start <= u.createdAt <= end
  {
    var r := SortByCreatedDesc(Filter(rows, (u: User) => start <= u.createdAt <= end));
    assert forall u :: u in r <==> u in multiset(r);
    r
  }

  /** A range whose start lies after its end matches nothing. */
  lemma DateRangeReversedIsEmpty(rows: seq<User>, start: int, end: int)
    requires start > end
    ensures FindUsersByDateRange(rows, start, end) == []
  {
  }

  /** `p` occurs in `s` as a contiguous run of characters. */
  ghost predicate Occurs(p: string, s: string)
  {
    exists i :: OccursAt(p, s, i)
  }

  /** `p` occurs in `s` starting at index `i`. */
  ghost predicate OccursAt(p: string, s: string, i: int)
  {
    0 <= i && i + |p| <= |s| && s[i..i + |p|] == p
  }

  /** LIKE's special characters: the two wildcards and the default escape. */
  predicate IsLikeSpecial(c: char)
  {
    c == '%' || c == '_' || c == '\\'
  }

  /** A pattern holding none of LIKE's special characters. */
  predicate PlainPattern(p: string)
  {
    forall i | 0 <= i < |p| :: !IsLikeSpecial(p[i])
  }

  /**
   * PostgreSQL's `s LIKE p` with its default escape `\`: `%` matches any run
   * of characters, `_` any one character, `\` makes the character after it
   * literal, and every other character matches itself.  A pattern ending in a
   * lone `\`, which PostgreSQL rejects, matches nothing here.
   */
  function Like(s: string, p: string): bool
    decreases |p|, |s|
  {
    if |p| == 0 then |s| == 0
    else if p[0] == '%' then Like(s, p[1..]) || (|s| > 0 && Like(s[1..], p))
    else if p[0] == '\\' then |p| > 1 && |s| > 0 && s[0] == p[1] && Like(s[1..], p[2..])
    else if p[0] == '_' then |s| > 0 && Like(s[1..], p[1..])
    else |s| > 0 && s[0] == p[0] && Like(s[1..], p[1..])
  }

  /** The pattern `findUsersByEmailPattern` hands to LIKE: the user's pattern between two `%`. */
  function LikePattern(p: string): (r: string)
    ensures |r| == |p| + 2 && r[0] == '%' && r[|r| - 1] == '%'
    ensures r[1..|r| - 1] == p
  {
    "%" + p + "%"
  }

  /** A lone `%` matches every string. */
  lemma {:induction false} LikePercentAll(s: string)
    ensures Like(s, "%")
  {
    if |s| > 0 {
      LikePercentAll(s[1..]);
    }
  }

  /** A leading `%` matches exactly when the rest of the pattern matches some suffix. */
  lemma {:induction false} LikeLeadingPercent(s: string, q: string)
    ensures Like(s, "%" + q) <==> exists i | 0 <= i <= |s| :: Like(s[i..], q)
  {
    var p := "%" + q;
    assert p[1..] == q;
    assert s[0..] == s;
    if |s| > 0 {
      LikeLeadingPercent(s[1..], q);
      forall i | 1 <= i <= |s| ensures s[1..][i - 1..] == s[i..] {
      }
      if Like(s[1..], p) {
        var i :| 0 <= i <= |s[1..]| && Like(s[1..][i..], q);
        assert s[1..][i..] == s[i + 1..];
      }
      if !Like(s, q) && exists i | 0 <= i <= |s| :: Like(s[i..], q) {
        var i :| 0 <= i <= |s| && Like(s[i..], q);
        assert i > 0 && Like(s[1..][i - 1..], q);
      }
    }
  }

  /** A plain pattern followed by `%` matches exactly the strings it is a prefix of. */
  lemma {:induction false} LikePlainPrefix(s: string, p: string)
    requires PlainPattern(p)
    ensures Like(s, p + "%") <==> p <= s
  {
    if |p| == 0 {
      assert p + "%" == "%";
      LikePercentAll(s);
    } else {
      var q := p + "%";
      assert q[0] == p[0] && !IsLikeSpecial(p[0]);
      assert q[1..] == p[1..] + "%";
      if |s| > 0 {
        LikePlainPrefix(s[1..], p[1..]);
        assert p <= s <==> s[0] == p[0] && p[1..] <= s[1..];
      }
    }
  }

  /** For a pattern without special characters, `LIKE '%p%'` is exactly "`p` occurs in `s`". */
  lemma LikePlainIffOccurs(s: string, p: string)
    requires PlainPattern(p)
    ensures Like(s, LikePattern(p)) <==> Occurs(p, s)
  {
    assert LikePattern(p) == "%" + (p + "%");
    LikeLeadingPercent(s, p + "%");
    forall i | 0 <= i <= |s| ensures Like(s[i..], p + "%") <==> OccursAt(p, s, i) {
      LikePlainPrefix(s[i..], p);
      if i + |p| <= |s| {
        assert s[i..][..|p|] == s[i..i + |p|];
      }
    }
  }

  /** The empty pattern matches every email. */
  lemma EmptyPatternMatchesAll(s: string)
    ensures Like(s, LikePattern(""))
  {
    assert LikePattern("") == "%" + "%";
    assert ("%" + "%")[1..] == "%";
    LikePercentAll(s);
  }

  /** The pattern `_` matches exactly the non-empty emails. */
  lemma UnderscoreMatchesNonEmpty(s: string)
    ensures Like(s, LikePattern("_")) <==> |s| > 0
  {
    assert LikePattern("_") == "%" + "_%";
    LikeLeadingPercent(s, "_%");
    assert ("_%")[1..] == "%";
    forall i | 0 <= i <= |s| ensures Like(s[i..], "_%") <==> i < |s| {
      if i < |s| {
        LikePercentAll(s[i..][1..]);
      }
    }
    if |s| > 0 {
      assert Like(s[0..], "_%");
    }
  }

  /**
   * `findUsersByEmailPattern`: the rows whose email matches `LIKE '%p%'`,
   * each as often as it is stored.
   */
  function FindUsersByEmailPattern(rows: seq<User>, p: string): (r: seq<User>)
    ensures forall u :: multiset(r)[u] == if Like(u.email, LikePattern(p)) then multiset(rows)[u] else 0
    ensures forall u :: u in r <==> u in rows && Like(u.email, LikePattern(p))
  {
    Filter(rows, (u: User) => Like(u.email, LikePattern(p)))
  }

  /** With a pattern free of special characters, the search returns exactly the rows whose email contains it. */
  lemma PlainSearchIsSubstring(rows: seq<User>, p: string)
    requires PlainPattern(p)
    ensures forall u :: u in FindUsersByEmailPattern(rows, p) <==> u in rows && Occurs(p, u.email)
    ensures forall u :: multiset(FindUsersByEmailPattern(rows, p))[u] == if Occurs(p, u.email) then multiset(rows)[u] else 0
  {
    forall u: User ensures Like(u.email, LikePattern(p)) <==> Occurs(p, u.email) {
      LikePlainIffOccurs(u.email, p);
    }
  }

  /** `findUsersWithDetails`: the active rows, newest first. */
  function FindUsersWithDetails(rows: seq<User>): (r: seq<User>)
    ensures SortedByCreatedDesc(r)
    ensures forall u :: multiset(r)[u] == if u.status == Active then multiset(rows)[u] else 0
    ensures forall u :: u in r <==> u in rows && u.status == Active
  {
    var r := SortByCreatedDesc(Filter(rows, (u: User) => u.status == Active));
    assert forall u :: u in r <==> u in multiset(r);
    r
  }

  // ---------------------------------------------------------------------------
  // Counting by month
  // ---------------------------------------------------------------------------

  /** One row of `getUsersCountByMonth`: a month index and how many users were created in it. */
  datatype MonthCount = MonthCount(month: int, count: Positive)

  type Positive = n: nat | n > 0 witness 1

  ghost predicate StrictlyDescending(cs: seq<MonthCount>)
  {
    forall i, j | 0 <= i < j < |cs| :: cs[i].month > cs[j].month
  }

  /** The count a result reports for month `m`, 0 when it has no row for it. */
  function CountFor(cs: seq<MonthCount>, m: int): nat
  {
    if |cs| == 0 then 0
    else if cs[0].month == m then cs[0].count
    else CountFor(cs[1..], m)
  }

  /** The sum of all counts. */
  function Total(cs: seq<MonthCount>): nat
  {
    if |cs| == 0 then 0 else cs[0].count + Total(cs[1..])
  }

  /** How many rows were created in month `m`. */
  function UsersInMonth(rows: seq<User>, monthOf: int -> int, m: int): nat
  {
    if |rows| == 0 then 0
    else (if monthOf(rows[0].createdAt) == m then 1 else 0) + UsersInMonth(rows[1..], monthOf, m)
  }

  /** A result without a row for `m` reports 0 for it. */
  lemma {:induction false} CountForAbsent(cs: seq<MonthCount>, m: int)
    requires forall i | 0 <= i < |cs| :: cs[i].month != m
    ensures CountFor(cs, m) == 0
  {
    if |cs| > 0 {
      CountForAbsent(cs[1..], m);
    }
  }

  /** In a strictly descending result, the count reported for a row's month is that row's count. */
  lemma {:induction false} CountForRow(cs: seq<MonthCount>, i: int)
    requires StrictlyDescending(cs) && 0 <= i < |cs|
    ensures CountFor(cs, cs[i].month) == cs[i].count
  {
    if i > 0 {
      CountForRow(cs[1..], i - 1);
    }
  }

  /** A row for a month later than the head of a strictly descending list can head it. */
  lemma DescendingCons(x: MonthCount, cs: seq<MonthCount>)
    requires StrictlyDescending(cs)
    requires |cs| == 0 || x.month > cs[0].month
    ensures StrictlyDescending([x] + cs)
  {
    var r := [x] + cs;
    forall i, j | 0 <= i < j < |r| ensures r[i].month > r[j].month {
      assert r[j] == cs[j - 1];
      if i > 0 {
        assert r[i] == cs[i - 1];
      } else if j > 1 {
        assert cs[0].month > cs[j - 1].month;
      }
    }
  }

  /**
   * Counts one more user created in month `m`; the result stays strictly
   * descending and its latest month is the later of `m` and the old latest.
   */
  function AddToMonth(cs: seq<MonthCount>, m: int): (r: seq<MonthCount>)
    requires StrictlyDescending(cs)
    ensures StrictlyDescending(r)
    ensures |r| > 0
    ensures r[0].month == if |cs| > 0 && cs[0].month > m then cs[0].month else m
  {
    if |cs| == 0 then
      [MonthCount(m, 1)]
    else if m > cs[0].month then
      DescendingCons(MonthCount(m, 1), cs);
      [MonthCount(m, 1)] + cs
    else if m == cs[0].month then
      assert StrictlyDescending(cs[1..]);
      DescendingCons(MonthCount(m, cs[0].count + 1), cs[1..]);
      [MonthCount(m, cs[0].count + 1)] + cs[1..]
    else
      assert StrictlyDescending(cs[1..]);
      var rest := AddToMonth(cs[1..], m);
      assert |cs| > 1 ==> cs[0].month > cs[1].month;
      DescendingCons(cs[0], rest);
      [cs[0]] + rest
  }

  /** Adding a user in month `m` raises the count of `m` by one and leaves every other month's count alone. */
  lemma {:induction false} AddToMonthCounts(cs: seq<MonthCount>, m: int)
    requires StrictlyDescending(cs)
    ensures forall k :: CountFor(AddToMonth(cs, m), k) == CountFor(cs, k) + (if k == m then 1 else 0)
    ensures Total(AddToMonth(cs, m)) == Total(cs) + 1
  {
    if |cs| > 0 {
      if m > cs[0].month {
        forall i | 0 <= i < |cs| ensures cs[i].month != m {
          assert i == 0 || cs[0].month > cs[i].month;
        }
        CountForAbsent(cs, m);
      } else if m < cs[0].month {
        AddToMonthCounts(cs[1..], m);
      }
    }
  }

  /**
   * `getUsersCountByMonth`: one row per month in which some user was created,
   * months strictly descending, each count the number of users created in that
   * month.  `monthOf` is the truncation of a timestamp to its month.
   */
  function GetUsersCountByMonth(rows: seq<User>, monthOf: int -> int): (r: seq<MonthCount>)
    ensures StrictlyDescending(r)
    ensures forall k :: CountFor(r, k) == UsersInMonth(rows, monthOf, k)
    ensures Total(r) == |rows|
  {
    if |rows| == 0 then []
    else
      var rest := GetUsersCountByMonth(rows[1..], monthOf);
      AddToMonthCounts(rest, monthOf(rows[0].createdAt));
      AddToMonth(rest, monthOf(rows[0].createdAt))
  }

  /** Some user was created in month `m` exactly when the month count for `m` is positive. */
  lemma {:induction false} UsersInMonthPositive(rows: seq<User>, monthOf: int -> int, m: int)
    ensures UsersInMonth(rows, monthOf, m) > 0 <==> exists u | u in rows :: monthOf(u.createdAt) == m
  {
    if |rows| > 0 {
      UsersInMonthPositive(rows[1..], monthOf, m);
      assert rows == [rows[0]] + rows[1..];
    }
  }

  /**
   * The rows of `getUsersCountByMonth` are exactly the months that have users,
   * each with the number of users created in it.
   */
  lemma MonthRowsExact(rows: seq<User>, monthOf: int -> int, m: int)
    ensures (exists x | x in GetUsersCountByMonth(rows, monthOf) :: x.month == m)
        <==> (exists u | u in rows :: monthOf(u.createdAt) == m)
    ensures forall x | x in GetUsersCountByMonth(rows, monthOf) :: x.count == UsersInMonth(rows, monthOf, x.month)
  {
    var r := GetUsersCountByMonth(rows, monthOf);
    UsersInMonthPositive(rows, monthOf, m);
    forall x | x in r ensures x.count == UsersInMonth(rows, monthOf, x.month) {
      var i :| 0 <= i < |r| && r[i] == x;
      CountForRow(r, i);
    }
    if !exists x | x in r :: x.month == m {
      CountForAbsent(r, m);
    }
  }

  // ---------------------------------------------------------------------------
  // Writes
  // ---------------------------------------------------------------------------

  /** How storage reports a violated unique constraint on `email`. */
  datatype StoreError = DuplicateEmail(email: string)

  /** A row to insert; a missing status is filled in by the column default. */
  datatype NewUser = NewUser(email: string, name: string, password: string, status: Option<UserStatus>)

  /**
   * What `create` is handed: a new row without an id, or the fields of an
   * existing row (its id, the merged fields, and a password only when one
   * was supplied).
   */
  datatype Draft =
    | Insert(user: NewUser)
    | Overwrite(id: int, email: string, name: string, password: Option<string>, status: UserStatus)

  /**
   * The row storage makes of a new user: the given id and fields, the column
   * default `pending` when no status is given, and both timestamps `now`.
   */
  function Inserted(n: NewUser, id: int, now: int): (r: User)
    ensures r.id == id && r.email == n.email && r.name == n.name && r.password == n.password
    ensures n.status.Some? ==> r.status == n.status.value
    ensures n.status.None? ==> r.status == Pending
    ensures r.createdAt == now && r.updatedAt == now
  {
    var status := match n.status case Some(s) => s case None => DefaultStatus;
    User(id, n.email, n.name, n.password, status, now, now)
  }

  /** Two rows agree on every column a save compares: all but the id and the two timestamps. */
  predicate SameColumns(a: User, b: User)
  {
    a.email == b.email && a.name == b.name && a.password == b.password && a.status == b.status
  }

  /**
   * The row `stored` after saving an overwrite onto it at time `now`: the
   * draft's fields, and the stored password unless the draft carries one.
   * A save that changes no column issues no UPDATE, so the update time moves
   * to `now` only when some column changes.
   */
  function Overwritten(stored: User, d: Draft, now: int): (r: User)
    requires d.Overwrite?
    ensures r.id == stored.id && r.createdAt == stored.createdAt
    ensures r.email == d.email && r.name == d.name && r.status == d.status
    ensures d.password.Some? ==> r.password == d.password.value
    ensures d.password.None? ==> r.password == stored.password
    ensures SameColumns(r, stored) <==> r == stored
    ensures !SameColumns(r, stored) ==> r.updatedAt == now
  {
    var password := match d.password case Some(p) => p case None => stored.password;
    var merged := stored.(email := d.email, name := d.name, password := password, status := d.status);
    if merged == stored then stored else merged.(updatedAt := now)
  }

  /** The rows a batch insert adds: entry `i` gets id `firstId + i`. */
  function InsertedBatch(ns: seq<NewUser>, firstId: int, now: int): (r: seq<User>)
    ensures |r| == |ns|
    ensures forall i | 0 <= i < |ns| :: r[i] == Inserted(ns[i], firstId + i, now)
  {
    seq(|ns|, i requires 0 <= i < |ns| => Inserted(ns[i], firstId + i, now))
  }

  /** Entry `i` of a batch clashes on email with a stored row or with an earlier entry. */
  predicate Clashes(rows: seq<User>, ns: seq<NewUser>, i: int)
    requires 0 <= i < |ns|
  {
    EmailTaken(rows, ns[i].email) || exists j | 0 <= j < i :: ns[j].email == ns[i].email
  }

  lemma EmailTakenAppend(a: seq<User>, b: seq<User>, email: string)
    ensures EmailTaken(a + b, email) <==> EmailTaken(a, email) || EmailTaken(b, email)
  {
    if EmailTaken(a + b, email) {
      var v :| v in a + b && v.email == email;
    }
    if EmailTaken(a, email) {
      var v :| v in a && v.email == email;
      assert v in a + b;
    }
    if EmailTaken(b, email) {
      var v :| v in b && v.email == email;
      assert v in a + b;
    }
  }

  /** No entry before index `n` clashes. */
  ghost predicate ClashFree(rows: seq<User>, ns: seq<NewUser>, n: int)
    requires 0 <= n <= |ns|
  {
    forall k | 0 <= k < n :: !Clashes(rows, ns, k)
  }

  /** The rows inserted for the first `i` entries of a batch hold exactly those entries' emails. */
  lemma BatchEmailTaken(rows: seq<User>, ns: seq<NewUser>, batch: seq<User>, i: int, firstId: int, now: int)
    requires 0 <= i < |ns| && |batch| == i
    requires forall k | 0 <= k < i :: batch[k] == Inserted(ns[k], firstId + k, now)
    ensures EmailTaken(rows + batch, ns[i].email) <==> Clashes(rows, ns, i)
  {
    var e := ns[i].email;
    EmailTakenAppend(rows, batch, e);
    if EmailTaken(batch, e) {
      var v :| v in batch && v.email == e;
      var k :| 0 <= k < i && batch[k] == v;
      assert ns[k].email == e;
    }
    forall j | 0 <= j < i && ns[j].email == e ensures EmailTaken(batch, e) {
      assert batch[j] in batch;
    }
  }

  class UsersRepository {
    /** The `users` table in storage order. */
    var rows: seq<User>
    /** The next value of the id sequence. */
    var nextId: int

    /** Ids come from the sequence and are unique; emails are unique. */
    ghost predicate Valid()
      reads this
    {
      && 1 <= nextId
      && (forall u | u in rows :: 1 <= u.id < nextId)
      && UniqueIds(rows)
      && UniqueEmails(rows)
    }

    constructor ()
      ensures Valid() && rows == [] && nextId == 1
    {
      rows := [];
      nextId := 1;
    }

    /**
     * `create`: saves a draft.  A new row gets the next id and is appended;
     * an overwrite replaces the row with its id in place.  A duplicate email
     * is refused and leaves the table as it was.
     */
    method Create(d: Draft, now: int) returns (r: Result<User, StoreError>)
      requires Valid()
      requires d.Overwrite? ==> HasId(rows, d.id)
      modifies this
      ensures Valid()
      ensures d.Insert? ==>
        if EmailTaken(old(rows), d.user.email) then
          r == Err(DuplicateEmail(d.user.email)) && rows == old(rows) && nextId == old(nextId)
        else
          r == Ok(Inserted(d.user, old(nextId), now))
          && rows == old(rows) + [r.value] && nextId == old(nextId) + 1
      ensures d.Overwrite? ==> nextId == old(nextId)
      ensures d.Overwrite? ==>
        if EmailHeldByOther(old(rows), d.id, d.email) then
          r == Err(DuplicateEmail(d.email)) && rows == old(rows)
        else
          r == Ok(Overwritten(FindById(old(rows), d.id).value, d, now))
          && rows == Replace(old(rows), r.value)
    {
      match d
      case Insert(n) =>
        if EmailTaken(rows, n.email) {
          r := Err(DuplicateEmail(n.email));
        } else {
          var u := Inserted(n, nextId, now);
          UniqueIdsAppend(rows, [u]);
          UniqueEmailsAppend(rows, [u]);
          rows := rows + [u];
          nextId := nextId + 1;
          r := Ok(u);
        }
      case Overwrite(id, email, _, _, _) =>
        if EmailHeldByOther(rows, id, email) {
          r := Err(DuplicateEmail(email));
        } else {
          var u := Overwritten(FindById(rows, id).value, d, now);
          ReplaceKeepsUnique(rows, u);
          rows := Replace(rows, u);
          r := Ok(u);
        }
    }

    /** `remove`: deletes the row with this id; an unknown id deletes nothing. */
    method Remove(id: int)
      requires Valid()
      modifies this
      ensures Valid()
      ensures rows == Without(old(rows), id) && nextId == old(nextId)
      ensures !HasId(old(rows), id) ==> rows == old(rows)
    {
      FilterKeepsUnique(rows, (u: User) => u.id != id);
      if !HasId(rows, id) {
        FilterAll(rows, (u: User) => u.id != id);
      }
      rows := Without(rows, id);
    }

    /**
     * `updateUserStatus`: sets the status of the row with this id (refreshing
     * its `updated_at`), then reads that row back; nothing when there is none.
     */
    method UpdateUserStatus(id: int, status: UserStatus, now: int) returns (r: Option<User>)
      requires Valid()
      modifies this
      ensures Valid() && nextId == old(nextId)
      ensures r == FindById(rows, id)
      ensures r.Some? <==> HasId(old(rows), id)
      ensures !HasId(old(rows), id) ==> rows == old(rows)
      ensures HasId(old(rows), id) ==>
        var before := FindById(old(rows), id).value;
        r == Some(before.(status := status, updatedAt := now)) && rows == Replace(old(rows), r.value)
    {
      var found := FindById(rows, id);
      if found.Some? {
        var u := found.value.(status := status, updatedAt := now);
        OwnEmailNotHeldByOther(rows, found.value);
        ReplaceKeepsUnique(rows, u);
        ReplaceEffect(rows, u, id);
        rows := Replace(rows, u);
      }
      r := FindById(rows, id);
    }

    /**
     * `bulkCreate`: inserts the batch in one transaction.  Either every entry
     * is stored, in input order with consecutive ids, or, when the first entry
     * that clashes on email is reached, nothing is stored at all.
     */
    method BulkCreate(ns: seq<NewUser>, now: int) returns (r: Result<seq<User>, StoreError>)
      requires Valid()
      modifies this
      ensures Valid()
      ensures r.Err? <==> !ClashFree(old(rows), ns, |ns|)
      ensures r.Err? ==>
        && rows == old(rows) && nextId == old(nextId)
        && exists i | 0 <= i < |ns| ::
             ClashFree(old(rows), ns, i) && Clashes(old(rows), ns, i) && r.error == DuplicateEmail(ns[i].email)
      ensures r.Ok? ==>
        && r.value == InsertedBatch(ns, old(nextId), now)
        && rows == old(rows) + r.value
        && nextId == old(nextId) + |ns|
    {
      var batch: seq<User> := [];
      var i := 0;
      while i < |ns|
        invariant 0 <= i <= |ns|
        invariant rows == old(rows) && nextId == old(nextId)
        invariant |batch| == i
        invariant forall k | 0 <= k < i :: batch[k] == Inserted(ns[k], nextId + k, now)
        invariant ClashFree(rows, ns, i)
        invariant UniqueEmails(rows + batch)
      {
        BatchEmailTaken(rows, ns, batch, i, nextId, now);
        if EmailTaken(rows + batch, ns[i].email) {
          r := Err(DuplicateEmail(ns[i].email));
          return;
        }
        var u := Inserted(ns[i], nextId + i, now);
        UniqueEmailsAppend(rows + batch, [u]);
        assert rows + (batch + [u]) == (rows + batch) + [u];
        batch := batch + [u];
        i := i + 1;
      }
      assert batch == InsertedBatch(ns, nextId, now);
      UniqueIdsAppend(rows, batch);
      rows := rows + batch;
      nextId := nextId + |ns|;
      r := Ok(batch);
    }
  }
}
