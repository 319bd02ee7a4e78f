/**
 * The user list screen: the local roster, the search term, the sort toggle and the edit
 * session (selected user, three draft fields, modal visibility), with the handlers that
 * change them. Each handler that calls the store takes the store's outcome as a parameter.
 */
module UserListScreen {
  import opened Wrappers
  import opened JsText
  import opened Roster
  import opened Gateway
  import opened QueryView

  /** The alerts `handleUpdate` and `fetchUsers` raise. */
  datatype Alert = FieldsRequired | UserUpdated | UpdateFailed | FetchFailed

  /** The `updateDoc` call `handleUpdate` makes: the document id and the three fields written. */
  datatype UpdateRequest = UpdateRequest(id: string, name: string, email: string, phone: string)

  /** What the list of users fetched from the store looks like, or that the fetch failed. */
  datatype Fetched = Fetched(users: seq<User>) | NotFetched

  /** The other direction. */
  function Flip(order: Order): (r: Order)
    ensures r != order
  {
    if order == Asc then Desc else Asc
  }

  /** The sort state after `handleSort(key)`. */
  function NextSort(sortKey: Option<Field>, sortOrder: Order, key: Field): (r: (Option<Field>, Order))
    ensures r.0 == Some(key)
    ensures sortKey == Some(key) ==> r.1 != sortOrder
    ensures sortKey != Some(key) ==> r.1 == Asc
  {
    if sortKey == Some(key) then (sortKey, Flip(sortOrder)) else (Some(key), Asc)
  }

  /** Pressing the active key's button twice gives back the order it started with. */
  lemma ToggleTwiceRestores(sortOrder: Order, key: Field)
    ensures var (k1, o1) := NextSort(Some(key), sortOrder, key);
            NextSort(k1, o1, key) == (Some(key), sortOrder)
  {
  }

  /** A button pressed for a new key, or from no key at all, always starts ascending. */
  lemma NewKeyStartsAscending(sortKey: Option<Field>, sortOrder: Order, key: Field)
    requires sortKey != Some(key)
    ensures NextSort(sortKey, sortOrder, key) == (Some(key), Asc)
  {
  }

  /** Any sort toggle changes the order of the list but not which records it shows. */
  lemma ToggleKeepsRecords(users: seq<User>, term: string, sortKey: Option<Field>, sortOrder: Order, key: Field)
    ensures var (k, o) := NextSort(sortKey, sortOrder, key);
            multiset(Project(users, term, k, o)) == multiset(Project(users, term, sortKey, sortOrder))
  {
    var (k, o) := NextSort(sortKey, sortOrder, key);
    ProjectSpec(users, term, k, o);
    ProjectSpec(users, term, sortKey, sortOrder);
  }

  /** The part of the screen's state `handleUpdate` reads and writes. */
  datatype EditSession = EditSession(
    users: seq<User>, editingUser: Option<User>,
    name: string, email: string, phone: string, modalVisible: bool)

  /** The modal is only ever open with a selected user. */
  predicate SessionValid(s: EditSession) {
    s.modalVisible ==> s.editingUser.Some?
  }

  predicate DraftsBlank(s: EditSession) {
    IsBlank(s.name) || IsBlank(s.email) || IsBlank(s.phone)
  }

  /** What `handleUpdate` leaves behind: the new session, the alert shown, the write sent. */
  datatype Updated = Updated(session: EditSession, alert: Alert, request: Option<UpdateRequest>)

  /**
   * `handleUpdate`: refuse blank drafts; with no selected user the id lookup throws and the
   * catch alerts; otherwise send the drafts to the store and, only if it succeeds, apply
   * them to the roster and close the session.
   */
  function Update(s: EditSession, outcome: Outcome): (r: Updated)
    ensures r.alert == UserUpdated <==> r.request.Some? && outcome.Success?
    ensures r.alert != UserUpdated ==> r.session == s
  {
    if DraftsBlank(s) then Updated(s, FieldsRequired, None)
    else if s.editingUser.None? then Updated(s, UpdateFailed, None)
    else
      var id := s.editingUser.value.id;
      var request := Some(UpdateRequest(id, s.name, s.email, s.phone));
      if outcome.Failure? then Updated(s, UpdateFailed, request)
      else
        var session := EditSession(UpdateById(s.users, id, s.name, s.email, s.phone), None, "", "", "", false);
        Updated(session, UserUpdated, request)
  }

  class UserList {
    var users: seq<User>
    var searchTerm: string
    var editingUser: Option<User>
    var name: string
    var email: string
    var phone: string
    var modalVisible: bool
    var sortKey: Option<Field>
    var sortOrder: Order

    /** The edit modal is only ever open with a selected user. */
    ghost predicate Valid()
      reads this
    {
      SessionValid(Session())
    }

    /** The initial state of every `useState` hook. */
    constructor ()
      ensures Valid()
      ensures users == [] && searchTerm == "" && editingUser == None
      ensures name == "" && email == "" && phone == "" && !modalVisible
      ensures sortKey == None && sortOrder == Asc
    {
      users := [];
      searchTerm := "";
      editingUser := None;
      name, email, phone := "", "", "";
      modalVisible := false;
      sortKey, sortOrder := None, Asc;
    }

    /** `filteredUsers`: what the list shows. */
    function Displayed(): seq<User>
      reads this
    {
      Project(users, searchTerm, sortKey, sortOrder)
    }

    /** `fetchUsers`: replace the roster with the fetched one, or keep it and alert. */
    method FetchUsers(result: Fetched) returns (alert: Option<Alert>)
      requires Valid()
      modifies this`users
      ensures Valid()
      ensures result.Fetched? ==> users == result.users && alert == None
      ensures result.NotFetched? ==> users == old(users) && alert == Some(FetchFailed)
    {
      if result.Fetched? {
        users := result.users;
        alert := None;
      } else {
        alert := Some(FetchFailed);
      }
    }

    /** `handleSort(key)`: flip the direction on the active key, else switch key and go ascending. */
    method HandleSort(key: Field)
      requires Valid()
      modifies this`sortKey, this`sortOrder
      ensures Valid()
      ensures (sortKey, sortOrder) == NextSort(old(sortKey), old(sortOrder), key)
    {
      if sortKey == Some(key) {
        sortOrder := if sortOrder == Asc then Desc else Asc;
      } else {
        sortKey := Some(key);
        sortOrder := Asc;
      }
    }

    /** `handleEdit(user)`: select the user, copy its fields into the drafts, open the modal. */
    method HandleEdit(user: User)
      requires Valid()
      modifies this`editingUser, this`name, this`email, this`phone, this`modalVisible
      ensures Valid()
      ensures editingUser == Some(user) && modalVisible
      ensures name == user.name && email == user.email && phone == user.phone
    {
      editingUser := Some(user);
      name := user.name;
      email := user.email;
      phone := user.phone;
      modalVisible := true;
    }

    /** The modal's Cancel button and its dismissal: only hide the modal. */
    method CloseModal()
      requires Valid()
      modifies this`modalVisible
      ensures Valid()
      ensures !modalVisible
    {
      modalVisible := false;
    }

    /** The edit session and roster, as `handleUpdate` reads and writes them. */
    function Session(): EditSession
      reads this
    {
      EditSession(users, editingUser, name, email, phone, modalVisible)
    }

    /** `handleUpdate`, proved to follow `Update`. */
    method HandleUpdate(outcome: Outcome) returns (alert: Alert, request: Option<UpdateRequest>)
      requires Valid()
      modifies this`users, this`editingUser, this`name, this`email, this`phone, this`modalVisible
      ensures Valid()
      ensures Updated(Session(), alert, request) == Update(old(Session()), outcome)
    {
      ghost var before := Session();
      UpdateKeepsSessionValid(before, outcome);
      assert before == EditSession(users, editingUser, name, email, phone, modalVisible);
      if IsBlank(name) || IsBlank(email) || IsBlank(phone) {
        alert, request := FieldsRequired, None;
        assert Update(before, outcome) == Updated(before, alert, request);
      } else if editingUser.None? {
        alert, request := UpdateFailed, None;
        assert Update(before, outcome) == Updated(before, alert, request);
      } else {
        var id := editingUser.value.id;
        request := Some(UpdateRequest(id, name, email, phone));
        if outcome.Failure? {
          alert := UpdateFailed;
          assert Update(before, outcome) == Updated(before, alert, request);
        } else {
          users := UpdateById(users, id, name, email, phone);
          modalVisible := false;
          editingUser := None;
          name, email, phone := "", "", "";
          alert := UserUpdated;
          assert Update(before, outcome) == Updated(Session(), alert, request);
        }
      }
    }

    /**
     * The confirmed branch of `handleDelete(id)`: delete the document, then drop the id from
     * the roster. A failed delete rejects before the roster is touched and raises no alert.
     */
    method ConfirmDelete(id: string, outcome: Outcome)
      requires Valid()
      modifies this`users
      ensures Valid()
      ensures users == if outcome.Success? then RemoveId(old(users), id) else old(users)
    {
      if outcome.Success? {
        users := RemoveId(users, id);
      }
    }
  }

  /** Blank drafts (empty or only white space) are refused and nothing changes. */
  lemma UpdateRefusesBlank(s: EditSession, outcome: Outcome)
    requires DraftsBlank(s)
    ensures Update(s, outcome) == Updated(s, FieldsRequired, None)
  {
  }

  /** A draft emptied in the modal is blank, so the update is refused. */
  lemma EmptiedDraftIsRefused(s: EditSession, outcome: Outcome)
    requires s.name == "" || s.email == "" || s.phone == ""
    ensures Update(s, outcome) == Updated(s, FieldsRequired, None)
  {
    assert IsBlank("") by {
      assert TrimStart("") == "";
    }
  }

  /** When the store refuses the write, the roster and the open session stay as they were. */
  lemma UpdateFailureChangesNothing(s: EditSession)
    ensures Update(s, Failure).session == s
    ensures Update(s, Failure).alert != UserUpdated
    ensures !DraftsBlank(s) ==> Update(s, Failure).alert == UpdateFailed
  {
  }

  /**
   * A successful update keeps the roster's length, order and ids, gives every record with the
   * selected id the drafts and leaves the others alone, then closes and clears the session.
   */
  lemma UpdateSuccess(s: EditSession)
    requires !DraftsBlank(s) && s.editingUser.Some?
    ensures var r := Update(s, Success);
      var id := s.editingUser.value.id;
      && r.alert == UserUpdated
      && r.request == Some(UpdateRequest(id, s.name, s.email, s.phone))
      && |r.session.users| == |s.users|
      && Ids(r.session.users) == Ids(s.users)
      && (forall i :: 0 <= i < |s.users| && s.users[i].id == id ==>
            r.session.users[i] == WithFields(s.users[i], s.name, s.email, s.phone))
      && (forall i :: 0 <= i < |s.users| && s.users[i].id != id ==> r.session.users[i] == s.users[i])
      && r.session.editingUser.None? && !r.session.modalVisible
      && r.session.name == "" && r.session.email == "" && r.session.phone == ""
  {
    var id := s.editingUser.value.id;
    UpdateKeepsIds(s.users, id, s.name, s.email, s.phone);
  }

  /** Every update keeps the modal closed unless a user is selected. */
  lemma UpdateKeepsSessionValid(s: EditSession, outcome: Outcome)
    requires SessionValid(s)
    ensures SessionValid(Update(s, outcome).session)
  {
  }

  /**
   * Saving a record's own fields, with ids unique, gives back the roster unchanged: the
   * update only ever rewrites the selected record.
   */
  lemma SavingUnchangedDraftsKeepsRoster(users: seq<User>, u: User)
    requires UniqueIds(users) && u in users
    ensures UpdateById(users, u.id, u.name, u.email, u.phone) == users
  {
    var r := UpdateById(users, u.id, u.name, u.email, u.phone);
    var k :| 0 <= k < |users| && users[k] == u;
    forall i | 0 <= i < |users| ensures r[i] == users[i] {
      if users[i].id == u.id {
        assert i == k;
      }
    }
  }
}
