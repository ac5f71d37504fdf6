/**
 * The users service: the status lifecycle, the response shape that leaves
 * out the password, and each use case as a read, a check and a write on the
 * repository it is given.
 */
module Service {
  import opened Wrappers
  import opened Entities
  import CreateDto
  import UpdateDto
  import opened Repository
  import opened FieldRules

  // ---------------------------------------------------------------------------
  // Errors and responses
  // ---------------------------------------------------------------------------

  /** What the service throws: 404, 400 for a refused transition, and a unique-email conflict. */
  datatype ServiceError =
    | NotFound(id: int)
    | InvalidTransition(current: UserStatus, requested: UserStatus, validTargets: seq<UserStatus>)
    | Conflict(email: string)

  /** The user as the service returns it. */
  datatype UserResponse = UserResponse(
    id: int,
    email: string,
    name: string,
    status: UserStatus,
    createdAt: int,
    updatedAt: int)

  /** The row a response describes, once its password is given back. */
  function RowOf(resp: UserResponse, password: string): User
  {
    User(resp.id, resp.email, resp.name, password, resp.status, resp.createdAt, resp.updatedAt)
  }

  /**
   * `transformToResponse`: copies every field of a row but the password, so
   * the response and the row's password rebuild the row.
   */
  function ToResponse(u: User): (r: UserResponse)
    ensures RowOf(r, u.password) == u
  {
    UserResponse(u.id, u.email, u.name, u.status, u.createdAt, u.updatedAt)
  }

  /** A response rebuilt into a row with any password gives back the same response. */
  lemma ResponseRoundTrip(resp: UserResponse, password: string)
    ensures ToResponse(RowOf(resp, password)) == resp
  {
  }

  /** Two rows give the same response exactly when they differ in nothing but the password. */
  lemma ResponseForgetsOnlyPassword(u: User, v: User)
    ensures ToResponse(u) == ToResponse(v) <==> u.(password := v.password) == v
  {
  }

  /** `users.map(transformToResponse)`: one response per row, in the rows' order. */
  function ToResponses(us: seq<User>): (r: seq<UserResponse>)
    ensures |r| == |us|
    ensures forall i | 0 <= i < |us| :: r[i] == ToResponse(us[i])
    ensures forall u | u in us :: ToResponse(u) in r
  {
    if |us| == 0 then []
    else
      var rest := ToResponses(us[1..]);
      assert forall u | u in us[1..] :: ToResponse(u) in rest;
      [ToResponse(us[0])] + rest
  }

  /**
   * `r` lists the rows `keep` accepts and nothing else: each accepted row has
   * its response in `r`, each entry of `r` is an accepted row's response, and
   * there are as many entries as accepted rows.
   */
  ghost predicate ListsExactly(r: seq<UserResponse>, rows: seq<User>, keep: User -> bool)
  {
    && |r| == |Filter(rows, keep)|
    && (forall u | u in rows && keep(u) :: ToResponse(u) in r)
    && (forall i | 0 <= i < |r| :: exists u | u in rows && keep(u) :: r[i] == ToResponse(u))
  }

  /** Two lists holding each row as often as the rows `keep` accepts have the same length. */
  lemma {:induction false} SameCountAsFilter(q: seq<User>, rows: seq<User>, keep: User -> bool)
    requires forall u :: multiset(q)[u] == if keep(u) then multiset(rows)[u] else 0
    ensures |q| == |Filter(rows, keep)|
  {
    var f := Filter(rows, keep);
    assert multiset(q) == multiset(f) by {
      forall u ensures multiset(q)[u] == multiset(f)[u] {
      }
    }
    assert |multiset(q)| == |q| && |multiset(f)| == |f|;
  }

  /** The responses of a query whose rows are exactly the accepted ones, each once per stored copy. */
  lemma ResponsesListExactly(q: seq<User>, rows: seq<User>, keep: User -> bool)
    requires forall u :: multiset(q)[u] == if keep(u) then multiset(rows)[u] else 0
    ensures ListsExactly(ToResponses(q), rows, keep)
  {
    var r := ToResponses(q);
    SameCountAsFilter(q, rows, keep);
    forall u | u in rows && keep(u) ensures ToResponse(u) in r {
      assert multiset(q)[u] == multiset(rows)[u];
      assert u in q;
    }
    forall i | 0 <= i < |r| ensures exists u | u in rows && keep(u) :: r[i] == ToResponse(u) {
      var u := q[i];
      assert multiset(q)[u] > 0;
      assert keep(u) && multiset(rows)[u] > 0;
    }
  }

  // ---------------------------------------------------------------------------
  // The status lifecycle
  // ---------------------------------------------------------------------------

  /**
   * The transition table: each status may move to every status other than
   * itself and pending, and each target is listed once.
   */
  function ValidTargets(current: UserStatus): (r: seq<UserStatus>)
    ensures forall t :: t in r <==> t != current && t != Pending
    ensures forall i, j | 0 <= i < j < |r| :: r[i] != r[j]
  {
    match current
    case Pending =>
      assert forall t: UserStatus :: t in [Active, Inactive] <==> t.Active? || t.Inactive?;
      [Active, Inactive]
    case Active =>
      assert forall t: UserStatus :: t in [Inactive] <==> t.Inactive?;
      [Inactive]
    case Inactive =>
      assert forall t: UserStatus :: t in [Active] <==> t.Active?;
      [Active]
  }

  /**
   * `validateStatusTransition`: accepts exactly the four listed moves and
   * refuses every other pair, naming the current status and its targets.
   */
  function ValidateStatusTransition(current: UserStatus, requested: UserStatus): (r: Outcome<ServiceError>)
    ensures r.Pass? <==>
      (current, requested) in {(Pending, Active), (Pending, Inactive), (Active, Inactive), (Inactive, Active)}
    ensures r.Fail? ==> r.error == InvalidTransition(current, requested, ValidTargets(current))
  {
    if requested in ValidTargets(current) then Pass
    else Fail(InvalidTransition(current, requested, ValidTargets(current)))
  }

  /** No status may move to itself. */
  lemma SameStatusIsRefused(s: UserStatus)
    ensures ValidateStatusTransition(s, s).Fail?
  {
  }

  /** No status may move back to pending. */
  lemma PendingIsNeverReentered(s: UserStatus)
    ensures ValidateStatusTransition(s, Pending).Fail?
  {
  }

  /** Every step of `path` is an accepted transition. */
  ghost predicate AcceptedPath(path: seq<UserStatus>)
  {
    forall i | 0 < i < |path| :: ValidateStatusTransition(path[i - 1], path[i]).Pass?
  }

  /**
   * Along accepted transitions a user leaves pending at most once and never
   * returns: after the first step it alternates between active and inactive.
   */
  lemma {:induction false} AcceptedPathAlternates(path: seq<UserStatus>)
    requires AcceptedPath(path) && |path| > 1
    ensures forall i | 1 <= i < |path| :: path[i] != Pending
    ensures forall i | 1 <= i < |path| - 1 :: path[i + 1] == (if path[i] == Active then Inactive else Active)
  {
    forall i | 1 <= i < |path| ensures path[i] != Pending {
      PendingIsNeverReentered(path[i - 1]);
    }
  }

  // ---------------------------------------------------------------------------
  // Request bodies as the service hands them to the repository
  // ---------------------------------------------------------------------------

  /** A create body as a new row; an absent status stays absent. */
  function ToNewUser(dto: CreateDto.CreateUserDto): NewUser
    requires StatusTyped(dto.status)
  {
    NewUser(dto.email, dto.name, dto.password, ReadStatus(dto.status))
  }

  /**
   * `u` is the row stored for `dto` under `id` at time `now`: the body's
   * fields, status pending when none is given, created and updated at `now`.
   */
  ghost predicate StoredAs(dto: CreateDto.CreateUserDto, u: User, id: int, now: int)
  {
    && u.id == id
    && u.email == dto.email && u.name == dto.name && u.password == dto.password
    && (dto.status.None? ==> u.status == Pending)
    && (dto.status.Some? ==> StatusName(u.status) == dto.status.value)
    && u.createdAt == now && u.updatedAt == now
  }

  /** Body `i` of a batch uses an email that is stored already or that an earlier body uses. */
  predicate BodyClashes(rows: seq<User>, dtos: seq<CreateDto.CreateUserDto>, i: int)
    requires 0 <= i < |dtos|
  {
    EmailTaken(rows, dtos[i].email) || exists j | 0 <= j < i :: dtos[j].email == dtos[i].email
  }

  /** Handing the bodies over as new rows keeps their clashes, and the batch stores each body. */
  lemma BodiesAsNewUsers(rows: seq<User>, dtos: seq<CreateDto.CreateUserDto>, ns: seq<NewUser>, firstId: int, now: int)
    requires |ns| == |dtos|
    requires forall i | 0 <= i < |dtos| :: StatusTyped(dtos[i].status) && ns[i] == ToNewUser(dtos[i])
    ensures ClashFree(rows, ns, |ns|) <==> forall i | 0 <= i < |dtos| :: !BodyClashes(rows, dtos, i)
    ensures forall i | 0 <= i < |dtos| :: StoredAs(dtos[i], InsertedBatch(ns, firstId, now)[i], firstId + i, now)
  {
    forall i | 0 <= i < |dtos| ensures Clashes(rows, ns, i) <==> BodyClashes(rows, dtos, i) {
      assert forall j | 0 <= j < i :: ns[j].email == dtos[j].email;
    }
  }

  /** `update` checks a transition only for a supplied status that differs from the stored one, and that check fails. */
  predicate TransitionRefused(current: UserStatus, dto: UpdateDto.UpdateUserDto)
    requires StatusTyped(dto.status)
  {
    match ReadStatus(dto.status)
    case None => false
    case Some(s) => s != current && ValidateStatusTransition(current, s).Fail?
  }

  /** The email an update leaves on the row: the supplied one, else the stored one. */
  function MergedEmail(cur: User, dto: UpdateDto.UpdateUserDto): string
  {
    dto.email.GetOr(cur.email)
  }

  /**
   * `v` is `cur` after an update at time `now`: each supplied field has the
   * supplied value, each other field its old value; the id and creation time
   * stay.  The update time is `now` when some column changed; when none did,
   * the row is `cur` itself, old update time included.
   */
  ghost predicate MergedOver(cur: User, dto: UpdateDto.UpdateUserDto, now: int, v: User)
    requires StatusTyped(dto.status)
  {
    && v.id == cur.id
    && (dto.email.Some? ==> v.email == dto.email.value) && (dto.email.None? ==> v.email == cur.email)
    && (dto.name.Some? ==> v.name == dto.name.value) && (dto.name.None? ==> v.name == cur.name)
    && (dto.password.Some? ==> v.password == dto.password.value) && (dto.password.None? ==> v.password == cur.password)
    && (dto.status.Some? ==> StatusName(v.status) == dto.status.value) && (dto.status.None? ==> v.status == cur.status)
    && v.createdAt == cur.createdAt
    && (SameColumns(v, cur) ==> v == cur)
    && (!SameColumns(v, cur) ==> v.updatedAt == now)
  }

  // ---------------------------------------------------------------------------
  // The service
  // ---------------------------------------------------------------------------

  class UsersService {
    const repo: UsersRepository

    constructor (repo: UsersRepository)
      ensures this.repo == repo
    {
      this.repo := repo;
    }

    /** `findAll`: every row's response, in storage order. */
    function FindAll(): (r: seq<UserResponse>)
      reads repo
      ensures |r| == |repo.rows|
      ensures forall i | 0 <= i < |r| :: r[i] == ToResponse(repo.rows[i])
    {
      ToResponses(repo.rows)
    }

    /** `findOne`: the response of the row with this id, or NotFound. */
    function FindOne(id: int): (r: Result<UserResponse, ServiceError>)
      reads repo
      ensures r.Err? <==> !HasId(repo.rows, id)
      ensures r.Err? ==> r.error == NotFound(id)
      ensures r.Ok? ==> exists u | u in repo.rows :: u.id == id && r.value == ToResponse(u)
    {
      match FindById(repo.rows, id)
      case None => Err(NotFound(id))
      case Some(u) => Ok(ToResponse(u))
    }

    /**
     * `create`: stores the body with status pending when none is given, and
     * returns the new row's response, which `findOne` then finds.  A taken
     * email is a conflict and stores nothing.  A body that passed validation
     * meets the status precondition (`CreateDto.ValidIsTyped`).
     */
    method Create(dto: CreateDto.CreateUserDto, now: int) returns (r: Result<UserResponse, ServiceError>)
      requires repo.Valid() && StatusTyped(dto.status)
      modifies repo
      ensures repo.Valid()
      ensures r.Err? <==> EmailTaken(old(repo.rows), dto.email)
      ensures r.Err? ==> r.error == Conflict(dto.email) && repo.rows == old(repo.rows) && repo.nextId == old(repo.nextId)
      ensures r.Ok? ==> |repo.rows| == |old(repo.rows)| + 1 && repo.rows[..|old(repo.rows)|] == old(repo.rows)
      ensures r.Ok? ==> repo.nextId == old(repo.nextId) + 1
      ensures r.Ok? ==>
        var u := repo.rows[|old(repo.rows)|];
        && StoredAs(dto, u, old(repo.nextId), now)
        && r.value == ToResponse(u)
        && FindOne(u.id) == r
    {
      var status := ReadStatus(dto.status).GetOr(Pending);
      var saved := repo.Create(Insert(NewUser(dto.email, dto.name, dto.password, Some(status))), now);
      match saved
      case Err(DuplicateEmail(e)) =>
        r := Err(Conflict(e));
      case Ok(u) =>
        assert repo.rows[|old(repo.rows)|] == u;
        FindByIdUnique(repo.rows, u);
        r := Ok(ToResponse(u));
    }

    /**
     * `update`: NotFound for an unknown id; a supplied status that differs
     * from the stored one must be an accepted transition; then the supplied
     * fields are merged over the row in place, unless the resulting email
     * belongs to another row.
     */
    method Update(id: int, dto: UpdateDto.UpdateUserDto, now: int) returns (r: Result<UserResponse, ServiceError>)
      requires repo.Valid() && StatusTyped(dto.status)
      modifies repo
      ensures repo.Valid() && repo.nextId == old(repo.nextId)
      ensures r.Err? ==> repo.rows == old(repo.rows)
      ensures !HasId(old(repo.rows), id) ==> r == Err(NotFound(id))
      ensures HasId(old(repo.rows), id) ==>
        var cur := FindById(old(repo.rows), id).value;
        if TransitionRefused(cur.status, dto) then
          r == Err(InvalidTransition(cur.status, ReadStatus(dto.status).value, ValidTargets(cur.status)))
        else if EmailHeldByOther(old(repo.rows), id, MergedEmail(cur, dto)) then
          r == Err(Conflict(MergedEmail(cur, dto)))
        else
          r.Ok?
      ensures HasId(old(repo.rows), id) && (dto.status.None? || ReadStatus(dto.status).value == FindById(old(repo.rows), id).value.status)
        ==> !(r.Err? && r.error.InvalidTransition?)
      ensures r.Ok? ==> HasId(repo.rows, id) && HasId(old(repo.rows), id)
      ensures r.Ok? ==>
        var v := FindById(repo.rows, id).value;
        && MergedOver(FindById(old(repo.rows), id).value, dto, now, v)
        && repo.rows == Replace(old(repo.rows), v)
        && r.value == ToResponse(v)
        && (SameColumns(v, FindById(old(repo.rows), id).value) ==> repo.rows == old(repo.rows))
      ensures dto == UpdateDto.Empty && HasId(old(repo.rows), id) ==>
        r == Ok(ToResponse(FindById(old(repo.rows), id).value)) && repo.rows == old(repo.rows)
    {
      var existing := FindOne(id);
      if existing.Err? {
        r := Err(existing.error);
        return;
      }
      var e := existing.value;
      var requested := ReadStatus(dto.status);
      if requested.Some? && requested.value != e.status {
        var check := ValidateStatusTransition(e.status, requested.value);
        if check.Fail? {
          r := Err(check.error);
          return;
        }
      }
      ghost var cur := FindById(repo.rows, id).value;
      OwnEmailNotHeldByOther(repo.rows, cur);
      var d := Overwrite(id, dto.email.GetOr(e.email), dto.name.GetOr(e.name), dto.password, requested.GetOr(e.status));
      var saved := repo.Create(d, now);
      match saved
      case Err(DuplicateEmail(email)) =>
        r := Err(Conflict(email));
      case Ok(u) =>
        ReplaceEffect(old(repo.rows), u, id);
        if SameColumns(u, cur) {
          ReplaceWithStored(old(repo.rows), cur);
        }
        r := Ok(ToResponse(u));
    }

    /** `remove`: NotFound for an unknown id; otherwise deletes that row and no other. */
    method Remove(id: int) returns (r: Outcome<ServiceError>)
      requires repo.Valid()
      modifies repo
      ensures repo.Valid() && repo.nextId == old(repo.nextId)
      ensures r.Fail? <==> !HasId(old(repo.rows), id)
      ensures r.Fail? ==> r.error == NotFound(id) && repo.rows == old(repo.rows)
      ensures r.Pass? ==> repo.rows == Without(old(repo.rows), id)
      ensures FindOne(id) == Err(NotFound(id))
      ensures forall k | k != id :: FindOne(k) == old(FindOne(k))
    {
      var user := FindById(repo.rows, id);
      if user.None? {
        r := Fail(NotFound(id));
        return;
      }
      repo.Remove(id);
      forall k ensures FindById(repo.rows, k) == if k == id then None else FindById(old(repo.rows), k) {
        WithoutEffect(old(repo.rows), id, k);
      }
      r := Pass;
    }

    /**
     * `updateStatus`: NotFound for an unknown id; otherwise the move is always
     * checked against the table, so resubmitting the current status is refused.
     * An accepted move changes only the status and update time of that row.
     */
    method UpdateStatus(id: int, status: UserStatus, now: int) returns (r: Result<UserResponse, ServiceError>)
      requires repo.Valid()
      modifies repo
      ensures repo.Valid() && repo.nextId == old(repo.nextId)
      ensures r.Err? ==> repo.rows == old(repo.rows)
      ensures !HasId(old(repo.rows), id) ==> r == Err(NotFound(id))
      ensures HasId(old(repo.rows), id) ==>
        var cur := FindById(old(repo.rows), id).value;
        match ValidateStatusTransition(cur.status, status)
        case Fail(e) => r == Err(e)
        case Pass =>
          var v := cur.(status := status, updatedAt := now);
          repo.rows == Replace(old(repo.rows), v) && r == Ok(ToResponse(v))
      ensures HasId(old(repo.rows), id) && FindById(old(repo.rows), id).value.status == status
        ==> r.Err? && r.error.InvalidTransition?
      ensures r.Ok? ==> r.value.status == status && status != Pending
    {
      var user := FindById(repo.rows, id);
      if user.None? {
        r := Err(NotFound(id));
        return;
      }
      var check := ValidateStatusTransition(user.value.status, status);
      if check.Fail? {
        r := Err(check.error);
        return;
      }
      var updated := repo.UpdateUserStatus(id, status, now);
      r := Ok(ToResponse(updated.value));
    }

    /** `findActiveUsers` (and `findUsersWithDetails`): the active users' responses, newest first. */
    function FindActiveUsers(): (r: seq<UserResponse>)
      reads repo
      ensures forall i | 0 <= i < |r| :: r[i].status == Active
      ensures forall i, j | 0 <= i < j < |r| :: r[i].createdAt >= r[j].createdAt
      ensures ListsExactly(r, repo.rows, (u: User) => u.status == Active)
    {
      var q := FindUsersWithDetails(repo.rows);
      ResponsesListExactly(q, repo.rows, (u: User) => u.status == Active);
      ToResponses(q)
    }

    /** `findUsersByDateRange`: the responses of users created in [start, end], newest first. */
    function FindUsersByDateRange(start: int, end: int): (r: seq<UserResponse>)
      reads repo
      ensures forall i | 0 <= i < |r| :: start <= r[i].createdAt <= end
      ensures forall i, j | 0 <= i < j < |r| :: r[i].createdAt >= r[j].createdAt
      ensures ListsExactly(r, repo.rows, (u: User) => start <= u.createdAt <= end)
      ensures start > end ==> r == []
    {
      var q := Repository.FindUsersByDateRange(repo.rows, start, end);
      ResponsesListExactly(q, repo.rows, (u: User) => start <= u.createdAt <= end);
      ToResponses(q)
    }

    /**
     * `findUsersByEmailPattern`: the responses of users whose email matches
     * `LIKE '%pattern%'`; for a pattern without `%`, `_` or `\`, exactly the
     * users whose email contains it.
     */
    function FindUsersByEmailPattern(pattern: string): (r: seq<UserResponse>)
      reads repo
      ensures forall i | 0 <= i < |r| :: Like(r[i].email, LikePattern(pattern))
      ensures ListsExactly(r, repo.rows, (u: User) => Like(u.email, LikePattern(pattern)))
      ensures PlainPattern(pattern) ==> forall i | 0 <= i < |r| :: Occurs(pattern, r[i].email)
      ensures PlainPattern(pattern) ==> ListsExactly(r, repo.rows, (u: User) => Occurs(pattern, u.email))
    {
      var q := Repository.FindUsersByEmailPattern(repo.rows, pattern);
      ResponsesListExactly(q, repo.rows, (u: User) => Like(u.email, LikePattern(pattern)));
      if PlainPattern(pattern) then
        PlainSearchIsSubstring(repo.rows, pattern);
        ResponsesListExactly(q, repo.rows, (u: User) => Occurs(pattern, u.email));
        ToResponses(q)
      else
        ToResponses(q)
    }

    /** `getUsersCountByMonth`: the repository's month rows, unchanged. */
    function GetUsersCountByMonth(monthOf: int -> int): (r: seq<MonthCount>)
      reads repo
      ensures StrictlyDescending(r)
      ensures Total(r) == |repo.rows|
      ensures forall k :: CountFor(r, k) == UsersInMonth(repo.rows, monthOf, k)
    {
      Repository.GetUsersCountByMonth(repo.rows, monthOf)
    }

    /**
     * `bulkCreate`: stores every body in input order, each with status pending
     * when none is given, and returns their responses in that order; when an
     * email clashes with a stored row or an earlier body, nothing is stored.
     */
    method BulkCreate(dtos: seq<CreateDto.CreateUserDto>, now: int) returns (r: Result<seq<UserResponse>, ServiceError>)
      requires repo.Valid()
      requires forall i | 0 <= i < |dtos| :: StatusTyped(dtos[i].status)
      modifies repo
      ensures repo.Valid()
      ensures r.Err? <==> exists i | 0 <= i < |dtos| :: BodyClashes(old(repo.rows), dtos, i)
      ensures r.Err? ==> r.error.Conflict? && repo.rows == old(repo.rows) && repo.nextId == old(repo.nextId)
      ensures r.Ok? ==>
        && |r.value| == |dtos|
        && |repo.rows| == |old(repo.rows)| + |dtos|
        && repo.rows[..|old(repo.rows)|] == old(repo.rows)
        && repo.nextId == old(repo.nextId) + |dtos|
      ensures r.Ok? ==> forall i | 0 <= i < |dtos| ::
        && StoredAs(dtos[i], repo.rows[|old(repo.rows)| + i], old(repo.nextId) + i, now)
        && r.value[i] == ToResponse(repo.rows[|old(repo.rows)| + i])
    {
      var ns := seq(|dtos|, i requires 0 <= i < |dtos| => ToNewUser(dtos[i]));
      BodiesAsNewUsers(repo.rows, dtos, ns, repo.nextId, now);
      var saved := repo.BulkCreate(ns, now);
      match saved
      case Err(DuplicateEmail(e)) =>
        r := Err(Conflict(e));
      case Ok(us) =>
        r := Ok(ToResponses(us));
    }
  }
}
