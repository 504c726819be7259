/**
 * User accounts (service/user_service.go): creation and update keep emails and phone numbers
 * unique among live users; deletion checks that the user exists.
 */
module Users {
  import opened Common
  import opened Models
  import opened BaseRepository
  import opened UserRepository

  datatype CreateUserRequest = CreateUserRequest(name: string, email: string, phone: string)

  /** The optional fields of an update: an empty string leaves the field as it is. */
  datatype UpdateUserRequest = UpdateUserRequest(name: string, email: string, phone: string)

  /** The user an update writes: every supplied field replaced, the password kept. */
  function Updated(x: User, req: UpdateUserRequest): User {
    User(
      if req.name != "" then req.name else x.fullname,
      if req.email != "" then req.email else x.email,
      x.password,
      if req.phone != "" then req.phone else x.phone)
  }

  /** The update asks for an email other than the user's own, so the email must be checked. */
  predicate ChangesEmail(x: User, req: UpdateUserRequest) {
    req.email != "" && req.email != x.email
  }

  predicate ChangesPhone(x: User, req: UpdateUserRequest) {
    req.phone != "" && req.phone != x.phone
  }

  class UserService {
    const repo: Repository<User>

    constructor (repo: Repository<User>)
      ensures this.repo == repo
    {
      this.repo := repo;
    }

    /**
     * CreateUser: an email held by a live user is refused first, then a phone number held by a
     * live user; otherwise the user is inserted with the requested name, email and phone.
     * The returned user carries no password; the stored row carries the placeholder.
     */
    method CreateUser(req: CreateUserRequest, id: Id, now: Time) returns (r: Result<Row<User>>)
      requires repo.Valid() && id !in Ids(repo.rows)
      modifies repo
      ensures repo.Valid()
      ensures r.Err? ==> repo.rows == old(repo.rows)
      ensures r == Err(EmailTaken) <==> FindByEmail(old(repo.rows), req.email).Some?
      ensures r == Err(PhoneTaken) <==> FindByEmail(old(repo.rows), req.email).None? && FindByPhone(old(repo.rows), req.phone).Some?
      ensures r.Ok? <==> FindByEmail(old(repo.rows), req.email).None? && FindByPhone(old(repo.rows), req.phone).None?
      ensures r.Ok? ==>
        && r.value == Row(id, now, now, None, User(req.name, req.email, "", req.phone))
        && repo.rows == old(repo.rows) + [Inserted(r.value)]
        && FindById(repo.rows, id) == Ok(Inserted(r.value))
      ensures ContactsUnique(old(repo.rows)) ==> ContactsUnique(repo.rows)
    {
      if FindByEmail(repo.rows, req.email).Some? {
        return Err(EmailTaken);
      }
      if FindByPhone(repo.rows, req.phone).Some? {
        return Err(PhoneTaken);
      }
      var user := Row(id, now, now, None, User(req.name, req.email, "", req.phone));
      UserRepository.Create(repo, user);
      r := Ok(user);
    }

    /**
     * UpdateUser: a missing or deleted user is "not found"; a new email held by a live user is
     * refused, then a new phone number held by a live user; a field left empty, or an email or
     * phone equal to the user's own, is not checked. Only a successful update writes.
     */
    method UpdateUser(id: Id, req: UpdateUserRequest, now: Time) returns (r: Result<Row<User>>)
      requires repo.Valid()
      modifies repo
      ensures repo.Valid()
      ensures r.Err? ==> repo.rows == old(repo.rows)
      ensures FindById(old(repo.rows), id).Err? ==> r == Err(NotFound)
      ensures FindById(old(repo.rows), id).Ok? ==>
        var x := FindById(old(repo.rows), id).value;
        var emailTaken := ChangesEmail(x.data, req) && FindByEmail(old(repo.rows), req.email).Some?;
        var phoneTaken := ChangesPhone(x.data, req) && FindByPhone(old(repo.rows), req.phone).Some?;
        && (r == Err(EmailTaken) <==> emailTaken)
        && (r == Err(PhoneTaken) <==> !emailTaken && phoneTaken)
        && (r.Ok? <==> !emailTaken && !phoneTaken)
      ensures r.Ok? ==>
        var x := FindById(old(repo.rows), id).value;
        && FindById(old(repo.rows), id).Ok?
        && r.value == x.(updatedAt := now, data := Updated(x.data, req))
        && repo.rows == UpdateLive(old(repo.rows), id, now, SetColumns(r.value.data))
        && FindById(repo.rows, id) == Ok(r.value)
        && forall i :: 0 <= i < |old(repo.rows)| && old(repo.rows)[i].id != id ==> repo.rows[i] == old(repo.rows)[i]
      ensures ContactsUnique(old(repo.rows)) ==> ContactsUnique(repo.rows)
    {
      var found := FindById(repo.rows, id);
      if found.Err? {
        return Err(found.error);
      }
      var user := found.value;

      if req.email != "" && req.email != user.data.email {
        if FindByEmail(repo.rows, req.email).Some? {
          return Err(EmailTaken);
        }
        user := user.(data := user.data.(email := req.email));
      }
      if req.phone != "" && req.phone != user.data.phone {
        if FindByPhone(repo.rows, req.phone).Some? {
          return Err(PhoneTaken);
        }
        user := user.(data := user.data.(phone := req.phone));
      }
      if req.name != "" {
        user := user.(data := user.data.(fullname := req.name));
      }
      user := user.(updatedAt := now);

      ghost var before := repo.rows;
      UpdateLiveFound(before, id, now, SetColumns(user.data));
      UserRepository.Update(repo, user);
      r := Ok(user);
      if ContactsUnique(before) {
        UpdateKeepsContactsUnique(before, found.value, req, now);
      }
    }

    /**
     * DeleteUser as written: a missing or deleted user is "not found"; otherwise the user is
     * written back with a deletion time, which the update statement does not store, so the
     * table is unchanged and the user stays visible.
     */
    method DeleteUser(id: Id) returns (r: Outcome)
      requires repo.Valid()
      modifies repo
      ensures repo.Valid()
      ensures r == Fail(NotFound) <==> FindById(old(repo.rows), id).Err?
      ensures r == Pass <==> FindById(old(repo.rows), id).Ok?
      ensures repo.rows == old(repo.rows)
      ensures FindById(repo.rows, id) == FindById(old(repo.rows), id)
    {
      var found := FindById(repo.rows, id);
      if found.Err? {
        return Fail(found.error);
      }
      var user := found.value;
      UpdateFetchedIsNoop(repo.rows, user, Some(ZeroTime));
      user := user.(deletedAt := Some(ZeroTime));
      UserRepository.Update(repo, user);
      r := Pass;
    }

    /** DeleteUser as intended: the same check, then the soft delete every other table uses, which hides the user. */
    method DeleteUserSoft(id: Id, now: Time) returns (r: Outcome)
      requires repo.Valid()
      modifies repo
      ensures repo.Valid()
      ensures r == Fail(NotFound) <==> FindById(old(repo.rows), id).Err?
      ensures r == Pass <==> FindById(old(repo.rows), id).Ok?
      ensures r.Fail? ==> repo.rows == old(repo.rows)
      ensures r == Pass ==> repo.rows == SoftDeleted(old(repo.rows), id, now)
      ensures FindById(repo.rows, id) == Err(NotFound)
    {
      var found := FindById(repo.rows, id);
      if found.Err? {
        return Fail(found.error);
      }
      repo.Delete(id, now);
      r := Pass;
    }
  }

  /** The position of a row in the table. */
  function IndexOf(rows: seq<Row<User>>, x: Row<User>): (i: nat)
    requires x in rows
    ensures i < |rows| && rows[i] == x
  {
    if rows[0] == x then 0 else 1 + IndexOf(rows[1..], x)
  }

  /**
   * An update of a live user keeps emails and phone numbers unique among live users when every
   * new email and phone number it writes is held by no live user.
   */
  lemma UpdateKeepsContactsUnique(rows: seq<Row<User>>, x: Row<User>, req: UpdateUserRequest, now: Time)
    requires UniqueIds(rows) && FindById(rows, x.id) == Ok(x)
    requires ChangesEmail(x.data, req) ==> FindByEmail(rows, req.email).None?
    requires ChangesPhone(x.data, req) ==> FindByPhone(rows, req.phone).None?
    requires ContactsUnique(rows)
    ensures ContactsUnique(UpdateLive(rows, x.id, now, SetColumns(Updated(x.data, req))))
  {
    var r := UpdateLive(rows, x.id, now, SetColumns(Updated(x.data, req)));
    var k := IndexOf(rows, x);
    forall i, j | 0 <= i < j < |r| && Live(r[i]) && Live(r[j])
      ensures r[i].data.email != r[j].data.email && r[i].data.phone != r[j].data.phone
    {
      if rows[i].id == x.id && Live(rows[i]) {
        assert i == k;
      } else if rows[j].id == x.id && Live(rows[j]) {
        assert j == k;
      }
    }
  }
}
