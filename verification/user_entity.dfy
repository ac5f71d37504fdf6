/**
 * The `users` entity: the three-valued status enum and the stored record,
 * with the column default and the uniqueness constraints of the table.
 */
module Entities {
  import opened Wrappers

  /** The lifecycle status of a user. */
  datatype UserStatus = Active | Inactive | Pending

  /** The column default of `status`. */
  const DefaultStatus: UserStatus := Pending

  /** The string value each enum member has on the wire and in the database. */
  function StatusName(s: UserStatus): (r: string)
    ensures r == "active" || r == "inactive" || r == "pending"
    ensures (r == "active" <==> s == Active) && (r == "inactive" <==> s == Inactive) && (r == "pending" <==> s == Pending)
  {
    match s
    case Active => "active"
    case Inactive => "inactive"
    case Pending => "pending"
  }

  /**
   * Reads a string as a status: it succeeds exactly on the three enum values,
   * and what it returns is the member whose value was read.
   */
  function ParseStatus(x: string): (r: Option<UserStatus>)
    ensures r.Some? <==> x == "active" || x == "inactive" || x == "pending"
    ensures r.Some? ==> StatusName(r.value) == x
  {
    if x == "active" then Some(Active)
    else if x == "inactive" then Some(Inactive)
    else if x == "pending" then Some(Pending)
    else None
  }

  /** Every status reads back as itself from its string value. */
  lemma ParseStatusName(s: UserStatus)
    ensures ParseStatus(StatusName(s)) == Some(s)
    ensures forall t: UserStatus :: StatusName(t) == StatusName(s) ==> t == s
  {
  }

  /** A stored row; timestamps are integers. */
  datatype User = User(
    id: int,
    email: string,
    name: string,
    password: string,
    status: UserStatus,
    createdAt: int,
    updatedAt: int)

  /** The primary key: no two rows share an id. */
  ghost predicate UniqueIds(rows: seq<User>)
  {
    forall i, j | 0 <= i < j < |rows| :: rows[i].id != rows[j].id
  }

  /** The unique constraint on `email`: no two rows share an email. */
  ghost predicate UniqueEmails(rows: seq<User>)
  {
    forall i, j | 0 <= i < j < |rows| :: rows[i].email != rows[j].email
  }

  /** Some row already holds `email`. */
  predicate EmailTaken(rows: seq<User>, email: string)
  {
    exists u | u in rows :: u.email == email
  }

  /** Some row has id `id`. */
  predicate HasId(rows: seq<User>, id: int)
  {
    exists u | u in rows :: u.id == id
  }

  /** Prepending a row keeps ids unique exactly when its id is new. */
  lemma {:induction false} UniqueIdsCons(u: User, rows: seq<User>)
    ensures UniqueIds([u] + rows) <==> UniqueIds(rows) && !HasId(rows, u.id)
  {
    var s := [u] + rows;
    if UniqueIds(s) {
      forall i, j | 0 <= i < j < |rows| ensures rows[i].id != rows[j].id {
        assert s[i + 1] == rows[i] && s[j + 1] == rows[j];
      }
      forall v | v in rows ensures v.id != u.id {
        var k :| 0 <= k < |rows| && rows[k] == v;
        assert s[0] == u && s[k + 1] == v;
      }
    }
    if UniqueIds(rows) && !HasId(rows, u.id) {
      forall i, j | 0 <= i < j < |s| ensures s[i].id != s[j].id {
        if i == 0 {
          assert s[j] == rows[j - 1] && s[j] in rows;
        } else {
          assert s[i] == rows[i - 1] && s[j] == rows[j - 1];
        }
      }
    }
  }

  /** Prepending a row keeps emails unique exactly when its email is new. */
  lemma {:induction false} UniqueEmailsCons(u: User, rows: seq<User>)
    ensures UniqueEmails([u] + rows) <==> UniqueEmails(rows) && !EmailTaken(rows, u.email)
  {
    var s := [u] + rows;
    if UniqueEmails(s) {
      forall i, j | 0 <= i < j < |rows| ensures rows[i].email != rows[j].email {
        assert s[i + 1] == rows[i] && s[j + 1] == rows[j];
      }
      forall v | v in rows ensures v.email != u.email {
        var k :| 0 <= k < |rows| && rows[k] == v;
        assert s[0] == u && s[k + 1] == v;
      }
    }
    if UniqueEmails(rows) && !EmailTaken(rows, u.email) {
      forall i, j | 0 <= i < j < |s| ensures s[i].email != s[j].email {
        if i == 0 {
          assert s[j] == rows[j - 1] && s[j] in rows;
        } else {
          assert s[i] == rows[i - 1] && s[j] == rows[j - 1];
        }
      }
    }
  }

  /** Two tables with unique ids and no id in common concatenate to a table with unique ids. */
  lemma UniqueIdsAppend(a: seq<User>, b: seq<User>)
    requires UniqueIds(a) && UniqueIds(b)
    requires forall u, v | u in a && v in b :: u.id != v.id
    ensures UniqueIds(a + b)
  {
    var s := a + b;
    forall i, j | 0 <= i < j < |s| ensures s[i].id != s[j].id {
      if j < |a| {
        assert s[i] == a[i] && s[j] == a[j];
      } else if i < |a| {
        assert s[i] == a[i] && s[j] == b[j - |a|];
      } else {
        assert s[i] == b[i - |a|] && s[j] == b[j - |a|];
      }
    }
  }

  /** Two tables with unique emails and no email in common concatenate to a table with unique emails. */
  lemma UniqueEmailsAppend(a: seq<User>, b: seq<User>)
    requires UniqueEmails(a) && UniqueEmails(b)
    requires forall u, v | u in a && v in b :: u.email != v.email
    ensures UniqueEmails(a + b)
  {
    var s := a + b;
    forall i, j | 0 <= i < j < |s| ensures s[i].email != s[j].email {
      if j < |a| {
        assert s[i] == a[i] && s[j] == a[j];
      } else if i < |a| {
        assert s[i] == a[i] && s[j] == b[j - |a|];
      } else {
        assert s[i] == b[i - |a|] && s[j] == b[j - |a|];
      }
    }
  }
}
