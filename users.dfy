/** The user table of the admin console: rows loaded from the server, an
    inline edit mode per row, and the add-user form. Every handler is one
    atomic transition of the component state `{users, newUser, showAddForm,
    loading}`; server replies and the answer to the delete confirmation are
    inputs. */
module Users {
  import opened Api
  import Rows

  /** The two roles the table offers: 'admin' and 'user'. */
  datatype Role = AdminRole | UserRole

  /** A user record as the server returns it. */
  datatype User = User(id: string, username: string, email: string, role: Role)

  /** A table row: the server record spread out, plus the client-only edit flag. */
  datatype EditableUser = EditableUser(id: string, username: string, email: string, role: Role, isEditing: bool)

  /** The body of the registration reply; the new user sits under `.user`. */
  datatype Registered = Registered(user: User)

  /** The add-user form. */
  datatype Draft = Draft(username: string, email: string, password: string, role: Role)

  /** The requests the table sends. */
  datatype Request =
    | UpdateUser(id: string, username: string, email: string, role: Role)  // PUT /users/{id}
    | DeleteUser(id: string)                                              // DELETE /users/{id}
    | Register(draft: Draft)                                              // POST /auth/register

  /** The draft the form starts from and returns to after a successful add. */
  const EmptyDraft := Draft("", "", "", UserRole)

  /** The `minLength` the password input declares. */
  const MinPasswordLength := 6

  /** A server record as a fresh row: `{ ...user, isEditing: false }`. */
  function Row(u: User): (row: EditableUser)
    ensures Record(row) == u && !row.isEditing
  {
    EditableUser(u.id, u.username, u.email, u.role, false)
  }

  /** A row without its edit flag. */
  function Record(row: EditableUser): User
  {
    User(row.id, row.username, row.email, row.role)
  }

  /** The key both `handleEdit` and `handleDelete` compare against. */
  function IdOf(row: EditableUser): string
  {
    row.id
  }

  /** No two rows share an id (the server's promise, never checked by the client). */
  predicate UniqueIds(rows: seq<EditableUser>)
  {
    Rows.UniqueKeys(rows, IdOf)
  }

  /** The number of rows in edit mode. */
  function EditingCount(rows: seq<EditableUser>): nat
  {
    if rows == [] then 0 else (if rows[0].isEditing then 1 else 0) + EditingCount(rows[1..])
  }

  /** The table's intended invariant: at most one row is in edit mode. */
  predicate AtMostOneEditing(rows: seq<EditableUser>)
  {
    EditingCount(rows) <= 1
  }

  // ---------------------------------------------------------------------------
  // The list transformations behind the handlers
  // ---------------------------------------------------------------------------

  /** The rows a successful fetch installs: the reply in its own order, no row editing. */
  function Load(us: seq<User>): (rows: seq<EditableUser>)
    ensures |rows| == |us|
    ensures forall i :: 0 <= i < |us| ==> Record(rows[i]) == us[i] && !rows[i].isEditing
  {
    if us == [] then [] else [Row(us[0])] + Load(us[1..])
  }

  /** `handleEdit`: the rows with the given id enter edit mode, all others leave it. */
  function BeginEdit(rows: seq<EditableUser>, id: string): (r: seq<EditableUser>)
    ensures |r| == |rows|
    ensures forall i :: 0 <= i < |rows| ==>
              Record(r[i]) == Record(rows[i]) && (r[i].isEditing <==> rows[i].id == id)
  {
    if rows == [] then []
    else [rows[0].(isEditing := rows[0].id == id)] + BeginEdit(rows[1..], id)
  }

  /** `handleCancelEdit`: every row leaves edit mode; whatever was typed stays. */
  function CancelEdit(rows: seq<EditableUser>): (r: seq<EditableUser>)
    ensures |r| == |rows|
    ensures forall i :: 0 <= i < |rows| ==> Record(r[i]) == Record(rows[i]) && !r[i].isEditing
  {
    if rows == [] then [] else [rows[0].(isEditing := false)] + CancelEdit(rows[1..])
  }

  /** A successful `handleUpdate`: every row with the saved id becomes the server's
      record, out of edit mode; every other row stays as it was. */
  function ReplaceSaved(rows: seq<EditableUser>, id: string, saved: User): (r: seq<EditableUser>)
    ensures |r| == |rows|
    ensures forall i :: 0 <= i < |rows| && rows[i].id == id ==> r[i] == Row(saved)
    ensures forall i :: 0 <= i < |rows| && rows[i].id != id ==> r[i] == rows[i]
  {
    if rows == [] then []
    else [if rows[0].id == id then Row(saved) else rows[0]] + ReplaceSaved(rows[1..], id, saved)
  }

  /** One keystroke or selection in an editing row's inputs. */
  datatype FieldEdit = SetUsername(username: string) | SetEmail(email: string) | SetRole(role: Role)

  /** A row with one field overwritten: `{ ...u, username: value }` and its two siblings. */
  function Apply(row: EditableUser, e: FieldEdit): (r: EditableUser)
    ensures r.id == row.id && r.isEditing == row.isEditing
    ensures r.username == (if e.SetUsername? then e.username else row.username)
    ensures r.email == (if e.SetEmail? then e.email else row.email)
    ensures r.role == (if e.SetRole? then e.role else row.role)
  {
    match e
    case SetUsername(v) => row.(username := v)
    case SetEmail(v) => row.(email := v)
    case SetRole(v) => row.(role := v)
  }

  /** The inline `onChange` handlers: the edit reaches the rows with the given id and no other. */
  function EditRow(rows: seq<EditableUser>, id: string, e: FieldEdit): (r: seq<EditableUser>)
    ensures |r| == |rows|
    ensures forall i :: 0 <= i < |rows| && rows[i].id == id ==> r[i] == Apply(rows[i], e)
    ensures forall i :: 0 <= i < |rows| && rows[i].id != id ==> r[i] == rows[i]
  {
    if rows == [] then []
    else [if rows[0].id == id then Apply(rows[0], e) else rows[0]] + EditRow(rows[1..], id, e)
  }

  /** A successful `handleDelete`: `users.filter(user => user.id !== userId)`. */
  function RemoveUser(rows: seq<EditableUser>, id: string): (r: seq<EditableUser>)
    ensures forall i :: 0 <= i < |r| ==> r[i].id != id
  {
    Rows.Without(rows, IdOf, id)
  }

  /** One change to the add-user form. */
  datatype DraftEdit =
    | TypeUsername(username: string)
    | TypeEmail(email: string)
    | TypePassword(password: string)
    | PickRole(role: Role)

  /** The draft after one form change: `setNewUser({ ...newUser, field: value })`. */
  function ApplyDraft(d: Draft, e: DraftEdit): (r: Draft)
    ensures r.username == (if e.TypeUsername? then e.username else d.username)
    ensures r.email == (if e.TypeEmail? then e.email else d.email)
    ensures r.password == (if e.TypePassword? then e.password else d.password)
    ensures r.role == (if e.PickRole? then e.role else d.role)
  {
    match e
    case TypeUsername(v) => d.(username := v)
    case TypeEmail(v) => d.(email := v)
    case TypePassword(v) => d.(password := v)
    case PickRole(v) => d.(role := v)
  }

  /** The browser's own form validation: username, email and password are
      `required`, and the password has a `minLength` of six characters. A
      password shorter than six characters is refused whatever else is filled
      in, the untouched form's empty one included. */
  predicate FormAccepts(d: Draft): (ok: bool)
    ensures |d.password| < MinPasswordLength ==> !ok
  {
    d.username != "" && d.email != "" && |d.password| >= MinPasswordLength
  }

  // ---------------------------------------------------------------------------
  // Edit mode: at most one row, when ids are unique
  // ---------------------------------------------------------------------------

  /** Beginning an edit flags as many rows as carry the id. */
  lemma {:induction false} BeginEditCount(rows: seq<EditableUser>, id: string)
    ensures EditingCount(BeginEdit(rows, id)) == Rows.KeyCount(rows, IdOf, id)
  {
    if rows != [] {
      BeginEditCount(rows[1..], id);
    }
  }

  /** With unique ids, beginning an edit leaves at most one row editing, and
      exactly one when a row has that id. */
  lemma BeginEditSingle(rows: seq<EditableUser>, id: string)
    requires UniqueIds(rows)
    ensures AtMostOneEditing(BeginEdit(rows, id))
    ensures (exists i :: 0 <= i < |rows| && rows[i].id == id) ==> EditingCount(BeginEdit(rows, id)) == 1
  {
    BeginEditCount(rows, id);
    Rows.UniqueKeyCount(rows, IdOf, id);
  }

  /** Without unique ids the single-edit rule fails: two rows sharing an id
      both enter edit mode. */
  lemma BeginEditSharedId()
    ensures var rows := [EditableUser("1", "ann", "a@x.com", UserRole, false),
                         EditableUser("1", "bob", "b@x.com", AdminRole, false)];
            EditingCount(BeginEdit(rows, "1")) == 2
  {
    var rows := [EditableUser("1", "ann", "a@x.com", UserRole, false),
                 EditableUser("1", "bob", "b@x.com", AdminRole, false)];
    BeginEditCount(rows, "1");
    assert rows[1..][1..] == [];
  }

  /** The counted form of the invariant says the same as the pairwise one. */
  lemma {:induction false} AtMostOneEditingPairwise(rows: seq<EditableUser>)
    ensures AtMostOneEditing(rows) <==>
            forall i, j :: 0 <= i < j < |rows| ==> !(rows[i].isEditing && rows[j].isEditing)
  {
    if rows != [] {
      var rest := rows[1..];
      AtMostOneEditingPairwise(rest);
      NoneEditing(rest);
      if AtMostOneEditing(rows) {
        forall i, j | 0 <= i < j < |rows| ensures !(rows[i].isEditing && rows[j].isEditing) {
          if i > 0 {
            assert rows[i] == rest[i - 1] && rows[j] == rest[j - 1];
          } else {
            assert rows[j] == rest[j - 1];
          }
        }
      }
      if forall i, j :: 0 <= i < j < |rows| ==> !(rows[i].isEditing && rows[j].isEditing) {
        forall i, j | 0 <= i < j < |rest| ensures !(rest[i].isEditing && rest[j].isEditing) {
          assert rest[i] == rows[i + 1] && rest[j] == rows[j + 1];
        }
        if rows[0].isEditing {
          forall j | 0 <= j < |rest| ensures !rest[j].isEditing {
            assert rest[j] == rows[j + 1];
          }
        }
      }
    }
  }

  /** No row is editing exactly when the count is zero. */
  lemma {:induction false} NoneEditing(rows: seq<EditableUser>)
    ensures EditingCount(rows) == 0 <==> forall i :: 0 <= i < |rows| ==> !rows[i].isEditing
  {
    if rows != [] {
      NoneEditing(rows[1..]);
      assert forall i :: 1 <= i < |rows| ==> rows[i] == rows[1..][i - 1];
    }
  }

  /** Editing rows in a concatenation are those of each part. */
  lemma {:induction false} EditingCountAppend(a: seq<EditableUser>, b: seq<EditableUser>)
    ensures EditingCount(a + b) == EditingCount(a) + EditingCount(b)
  {
    if a == [] {
      assert a + b == b;
    } else {
      assert (a + b)[1..] == a[1..] + b;
      EditingCountAppend(a[1..], b);
    }
  }

  /** Saving never flags a row. */
  lemma {:induction false} ReplaceSavedCount(rows: seq<EditableUser>, id: string, saved: User)
    ensures EditingCount(ReplaceSaved(rows, id, saved)) <= EditingCount(rows)
    ensures EditingCount(ReplaceSaved(rows, id, saved)) == EditingCount(rows) - EditedWithId(rows, id)
  {
    if rows != [] {
      ReplaceSavedCount(rows[1..], id, saved);
    }
  }

  /** The number of rows that are editing and carry the id. */
  function EditedWithId(rows: seq<EditableUser>, id: string): nat
  {
    if rows == [] then 0
    else (if rows[0].isEditing && rows[0].id == id then 1 else 0) + EditedWithId(rows[1..], id)
  }

  /** Saving the row that is being edited leaves no row in edit mode, when at
      most one was editing before. */
  lemma SaveExitsEditMode(rows: seq<EditableUser>, k: nat, saved: User)
    requires AtMostOneEditing(rows)
    requires k < |rows| && rows[k].isEditing
    ensures EditingCount(ReplaceSaved(rows, rows[k].id, saved)) == 0
  {
    EditedWithIdAt(rows, k);
    ReplaceSavedCount(rows, rows[k].id, saved);
  }

  /** An editing row carrying the id is counted. */
  lemma {:induction false} EditedWithIdAt(rows: seq<EditableUser>, k: nat)
    requires k < |rows| && rows[k].isEditing
    ensures EditedWithId(rows, rows[k].id) >= 1
  {
    if k > 0 {
      assert rows[1..][k - 1] == rows[k];
      EditedWithIdAt(rows[1..], k - 1);
    }
  }

  /** Inline edits never touch a flag. */
  lemma {:induction false} EditRowCount(rows: seq<EditableUser>, id: string, e: FieldEdit)
    ensures |EditRow(rows, id, e)| == |rows|
    ensures forall i :: 0 <= i < |rows| ==> EditRow(rows, id, e)[i].isEditing == rows[i].isEditing
    ensures EditingCount(EditRow(rows, id, e)) == EditingCount(rows)
  {
    if rows != [] {
      EditRowCount(rows[1..], id, e);
    }
  }

  /** Deleting never flags a row. */
  lemma {:induction false} RemoveUserCount(rows: seq<EditableUser>, id: string)
    ensures EditingCount(RemoveUser(rows, id)) <= EditingCount(rows)
  {
    if rows != [] {
      RemoveUserCount(rows[1..], id);
    }
  }

  // ---------------------------------------------------------------------------
  // How the transformations relate
  // ---------------------------------------------------------------------------

  /** Cancelling twice is cancelling once. */
  lemma CancelEditIdempotent(rows: seq<EditableUser>)
    ensures CancelEdit(CancelEdit(rows)) == CancelEdit(rows)
  {
  }

  /** Beginning an edit and cancelling it gives back the rows with no flag set:
      which row was chosen leaves no trace. */
  lemma CancelAfterBeginEdit(rows: seq<EditableUser>, id: string)
    ensures CancelEdit(BeginEdit(rows, id)) == CancelEdit(rows)
  {
  }

  /** Cancel does not undo typing: cancelling after an inline edit gives what
      the edit would give on the cancelled rows. */
  lemma CancelKeepsTypedText(rows: seq<EditableUser>, id: string, e: FieldEdit)
    ensures CancelEdit(EditRow(rows, id, e)) == EditRow(CancelEdit(rows), id, e)
  {
  }

  /** Adding a user gives the rows that loading the longer list would give. */
  lemma LoadAppend(us: seq<User>, u: User)
    ensures Load(us + [u]) == Load(us) + [Row(u)]
  {
  }

  /** After a delete no row carries the id; the rest keep their order
      (filtering distributes over concatenation), and with unique ids a
      present id costs exactly one row. */
  lemma RemoveUserSpec(rows: seq<EditableUser>, id: string, a: seq<EditableUser>, b: seq<EditableUser>)
    ensures forall i :: 0 <= i < |RemoveUser(rows, id)| ==> RemoveUser(rows, id)[i].id != id
    ensures (forall i :: 0 <= i < |rows| ==> rows[i].id != id) ==> RemoveUser(rows, id) == rows
    ensures RemoveUser(a + b, id) == RemoveUser(a, id) + RemoveUser(b, id)
    ensures UniqueIds(rows) && (exists i :: 0 <= i < |rows| && rows[i].id == id) ==>
              |RemoveUser(rows, id)| == |rows| - 1
  {
    Rows.WithoutAppend(a, b, IdOf, id);
    if forall i :: 0 <= i < |rows| ==> rows[i].id != id {
      Rows.WithoutAbsent(rows, IdOf, id);
    }
    if UniqueIds(rows) && exists i :: 0 <= i < |rows| && rows[i].id == id {
      Rows.WithoutUniquePresent(rows, IdOf, id);
    }
  }

  // ---------------------------------------------------------------------------
  // The component
  // ---------------------------------------------------------------------------

  /** The state of the user table component and its handlers. */
  class UserTable {
    var users: seq<EditableUser>
    var loading: bool
    var showAddForm: bool
    var newUser: Draft

    /** The `useState` initial values. */
    constructor ()
      ensures users == [] && !loading && !showAddForm && newUser == EmptyDraft
    {
      users := [];
      loading := false;
      showAddForm := false;
      newUser := EmptyDraft;
    }

    /** `fetchUsers`: install the reply with every flag cleared, or empty the
        list on failure (no toast either way); `loading` ends false. */
    method FetchUsers(response: Response<seq<User>>)
      modifies this
      ensures users == (if response.Ok? then Load(response.data) else [])
      ensures AtMostOneEditing(users)
      ensures !loading
      ensures showAddForm == old(showAddForm) && newUser == old(newUser)
    {
      loading := true;
      if response.Ok? {
        users := Load(response.data);
      } else {
        users := [];
      }
      loading := false;
      NoneEditing(users);
    }

    /** `handleEdit`. */
    method HandleEdit(id: string)
      modifies this
      ensures users == BeginEdit(old(users), id)
      ensures UniqueIds(old(users)) ==> AtMostOneEditing(users)
      ensures loading == old(loading) && showAddForm == old(showAddForm) && newUser == old(newUser)
    {
      if UniqueIds(users) {
        BeginEditSingle(users, id);
      }
      users := BeginEdit(users, id);
    }

    /** `handleCancelEdit`. */
    method HandleCancelEdit()
      modifies this
      ensures users == CancelEdit(old(users))
      ensures EditingCount(users) == 0
      ensures loading == old(loading) && showAddForm == old(showAddForm) && newUser == old(newUser)
    {
      users := CancelEdit(users);
      NoneEditing(users);
    }

    /** The inline `onChange` handlers of an editing row. */
    method HandleFieldChange(id: string, e: FieldEdit)
      modifies this
      ensures users == EditRow(old(users), id, e)
      ensures EditingCount(users) == EditingCount(old(users))
      ensures loading == old(loading) && showAddForm == old(showAddForm) && newUser == old(newUser)
    {
      EditRowCount(users, id, e);
      users := EditRow(users, id, e);
    }

    /** `handleUpdate(user)`: send the row's username, email and role; on success
        replace the rows with that id by the server's record and toast success;
        on failure toast the error and change nothing. */
    method HandleUpdate(user: EditableUser, response: Response<User>) returns (req: Request, toast: Toast)
      modifies this
      ensures req == UpdateUser(user.id, user.username, user.email, user.role)
      ensures users == (if response.Ok? then ReplaceSaved(old(users), user.id, response.data) else old(users))
      ensures toast == (if response.Ok? then SuccessToast("user_updated") else ErrorToast("user_update_failed"))
      ensures AtMostOneEditing(old(users)) ==> AtMostOneEditing(users)
      ensures loading == old(loading) && showAddForm == old(showAddForm) && newUser == old(newUser)
    {
      req := UpdateUser(user.id, user.username, user.email, user.role);
      match response
      case Ok(saved) =>
        ReplaceSavedCount(users, user.id, saved);
        users := ReplaceSaved(users, user.id, saved);
        toast := SuccessToast("user_updated");
      case Err =>
        toast := ErrorToast("user_update_failed");
    }

    /** `handleDelete(userId)`: a declined confirmation sends nothing and changes
        nothing; otherwise the delete is sent, and on success the rows with that
        id are filtered out. */
    method HandleDelete(id: string, confirmed: bool, response: Response<()>) returns (req: Option<Request>, toast: Toast)
      modifies this
      ensures !confirmed ==> req == None && toast == NoToast && users == old(users)
      ensures confirmed ==> req == Some(DeleteUser(id))
      ensures confirmed ==> users == (if response.Ok? then RemoveUser(old(users), id) else old(users))
      ensures confirmed ==> toast == (if response.Ok? then SuccessToast("user_deleted") else ErrorToast("user_delete_failed"))
      ensures AtMostOneEditing(old(users)) ==> AtMostOneEditing(users)
      ensures loading == old(loading) && showAddForm == old(showAddForm) && newUser == old(newUser)
    {
      if !confirmed {
        return None, NoToast;
      }
      req := Some(DeleteUser(id));
      match response
      case Ok(_) =>
        RemoveUserCount(users, id);
        users := RemoveUser(users, id);
        toast := SuccessToast("user_deleted");
      case Err =>
        toast := ErrorToast("user_delete_failed");
    }

    /** `handleAddUser`: register the draft; on success append the new user as a
        fresh row, close the form and reset the draft; on failure keep
        everything, the typed draft included. */
    method HandleAddUser(response: Response<Registered>) returns (req: Request, toast: Toast)
      modifies this
      ensures req == Register(old(newUser))
      ensures response.Ok? ==> users == old(users) + [Row(response.data.user)]
      ensures response.Ok? ==> !showAddForm && newUser == EmptyDraft
      ensures response.Ok? ==> toast == SuccessToast("user_added")
      ensures response.Err? ==> users == old(users) && showAddForm == old(showAddForm) && newUser == old(newUser)
      ensures response.Err? ==> toast == ErrorToast("user_add_failed")
      ensures AtMostOneEditing(old(users)) ==> AtMostOneEditing(users)
      ensures loading == old(loading)
    {
      req := Register(newUser);
      match response
      case Ok(reply) =>
        EditingCountAppend(users, [Row(reply.user)]);
        assert [Row(reply.user)][1..] == [];
        users := users + [Row(reply.user)];
        showAddForm := false;
        newUser := EmptyDraft;
        toast := SuccessToast("user_added");
      case Err =>
        toast := ErrorToast("user_add_failed");
    }

    /** Pressing the form's submit button: the browser refuses a draft that
        fails its validation before `handleAddUser` runs. */
    method SubmitAddForm(response: Response<Registered>) returns (req: Option<Request>, toast: Toast)
      modifies this
      ensures !FormAccepts(old(newUser)) ==> req == None && toast == NoToast
      ensures !FormAccepts(old(newUser)) ==>
                users == old(users) && showAddForm == old(showAddForm) && newUser == old(newUser)
      ensures FormAccepts(old(newUser)) ==> req == Some(Register(old(newUser)))
      ensures FormAccepts(old(newUser)) && response.Ok? ==>
                users == old(users) + [Row(response.data.user)] && !showAddForm && newUser == EmptyDraft
      ensures FormAccepts(old(newUser)) && response.Err? ==>
                users == old(users) && showAddForm == old(showAddForm) && newUser == old(newUser)
      ensures FormAccepts(old(newUser)) ==>
                toast == (if response.Ok? then SuccessToast("user_added") else ErrorToast("user_add_failed"))
      ensures AtMostOneEditing(old(users)) ==> AtMostOneEditing(users)
      ensures loading == old(loading)
    {
      if !FormAccepts(newUser) {
        return None, NoToast;
      }
      var r;
      r, toast := HandleAddUser(response);
      req := Some(r);
    }

    /** The add-user button: show the form, keeping whatever draft is there. */
    method OpenAddForm()
      modifies this
      ensures showAddForm
      ensures users == old(users) && loading == old(loading) && newUser == old(newUser)
    {
      showAddForm := true;
    }

    /** The form's cancel button: hide the form; the draft is kept as typed. */
    method CloseAddForm()
      modifies this
      ensures !showAddForm
      ensures users == old(users) && loading == old(loading) && newUser == old(newUser)
    {
      showAddForm := false;
    }

    /** One of the form inputs' `onChange` handlers. */
    method EditDraft(e: DraftEdit)
      modifies this
      ensures newUser == ApplyDraft(old(newUser), e)
      ensures users == old(users) && loading == old(loading) && showAddForm == old(showAddForm)
    {
      newUser := ApplyDraft(newUser, e);
    }
  }
}
