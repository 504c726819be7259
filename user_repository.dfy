/**
 * The user table's own statements (repository/user_repository.go): lookup of a live user by
 * email or by phone, the insert with a placeholder password, and the column-listed update.
 */
module UserRepository {
  import opened Common
  import opened Models
  import opened BaseRepository

  /** The password the insert stores in place of the struct's. */
  const StoredPassword: string := "-"

  /** FindByEmail: a live user with the email, or none when the query returns no row. */
  function FindByEmail(rows: seq<Row<User>>, email: string): (r: Option<Row<User>>)
    ensures r.Some? <==> exists i :: 0 <= i < |rows| && Live(rows[i]) && rows[i].data.email == email
    ensures r.Some? ==> r.value in rows && Live(r.value) && r.value.data.email == email
  {
    var matches := Select(rows, (u: Row<User>) => Live(u) && u.data.email == email);
    if matches == [] then None else Some(matches[0])
  }

  /** FindByPhone: a live user with the phone number, or none. */
  function FindByPhone(rows: seq<Row<User>>, phone: string): (r: Option<Row<User>>)
    ensures r.Some? <==> exists i :: 0 <= i < |rows| && Live(rows[i]) && rows[i].data.phone == phone
    ensures r.Some? ==> r.value in rows && Live(r.value) && r.value.data.phone == phone
  {
    var matches := Select(rows, (u: Row<User>) => Live(u) && u.data.phone == phone);
    if matches == [] then None else Some(matches[0])
  }

  /** No two live users share an email, and no two share a phone number. */
  ghost predicate ContactsUnique(rows: seq<Row<User>>) {
    forall i, j :: 0 <= i < j < |rows| && Live(rows[i]) && Live(rows[j]) ==>
      rows[i].data.email != rows[j].data.email && rows[i].data.phone != rows[j].data.phone
  }

  /** The row the insert writes: the user's id, times, name, email and phone, the placeholder password, live. */
  function Inserted(user: Row<User>): Row<User> {
    Row(user.id, user.createdAt, user.updatedAt, None, user.data.(password := StoredPassword))
  }

  /** Create: inserts the user as a new live row with the placeholder password. */
  method Create(repo: Repository<User>, user: Row<User>)
    requires repo.Valid() && user.id !in Ids(repo.rows)
    modifies repo
    ensures repo.Valid()
    ensures repo.rows == old(repo.rows) + [Inserted(user)]
    ensures FindById(repo.rows, user.id) == Ok(Inserted(user))
  {
    AppendFresh(repo.rows, Inserted(user));
    repo.rows := repo.rows + [Inserted(user)];
    FindByIdAt(repo.rows, |repo.rows| - 1);
  }

  /** The SET list of Update: name, email, phone and password (updated_at is stamped by UpdateLive). */
  function SetColumns(u: User): User -> User {
    (t: User) => t.(fullname := u.fullname, email := u.email, phone := u.phone, password := u.password)
  }

  /** Update: rewrites the listed columns of the matching live row; `deleted_at` is not among them. */
  method Update(repo: Repository<User>, user: Row<User>)
    requires repo.Valid()
    modifies repo
    ensures repo.Valid()
    ensures repo.rows == UpdateLive(old(repo.rows), user.id, user.updatedAt, SetColumns(user.data))
  {
    if FindById(repo.rows, user.id).Err? {
      UpdateLiveMissing(repo.rows, user.id, user.updatedAt, SetColumns(user.data));
    } else {
      UpdateLiveFound(repo.rows, user.id, user.updatedAt, SetColumns(user.data));
    }
    repo.rows := UpdateLive(repo.rows, user.id, user.updatedAt, SetColumns(user.data));
  }

  /**
   * Writing back a fetched user, whatever its deletion time says, changes no row: every listed
   * column gets the value it had, and `deleted_at` is never written.
   */
  lemma UpdateFetchedIsNoop(rows: seq<Row<User>>, x: Row<User>, deletedAt: Option<Time>)
    requires UniqueIds(rows)
    requires FindById(rows, x.id) == Ok(x)
    ensures var user := x.(deletedAt := deletedAt);
      UpdateLive(rows, user.id, user.updatedAt, SetColumns(user.data)) == rows
  {
    var r := UpdateLive(rows, x.id, x.updatedAt, SetColumns(x.data));
    var k :| 0 <= k < |rows| && rows[k] == x;
    forall i | 0 <= i < |rows| ensures r[i] == rows[i] {
      if rows[i].id == x.id && Live(rows[i]) {
        assert i == k;
      }
    }
  }
}
