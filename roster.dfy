/**
 * The user records the screens hold and the two list transformations applied to the local
 * roster after the store confirms a change: the in-place field update of `handleUpdate` and
 * the removal by id of `handleDelete`.
 */
module Roster {
  import opened Seqs

  /** Opaque clock value stored with a record when it is created. */
  type Timestamp = nat

  /** A user document as read back from the store, with the id the store assigned. */
  datatype User = User(id: string, name: string, email: string, phone: string, timestamp: Timestamp)

  /** The three editable fields, which are also the three sort keys. */
  datatype Field = Name | Email | Phone

  function FieldOf(u: User, f: Field): string {
    match f
    case Name => u.name
    case Email => u.email
    case Phone => u.phone
  }

  /** A record with the three editable fields replaced and everything else kept (`{ ...u, name, email, phone }`). */
  function WithFields(u: User, name: string, email: string, phone: string): User {
    u.(name := name, email := email, phone := phone)
  }

  /**
   * `users.map(u => u.id === id ? { ...u, name, email, phone } : u)`: every record with the id
   * gets the new fields; the roster keeps its length and order and every other record.
   */
  function UpdateById(users: seq<User>, id: string, name: string, email: string, phone: string): (r: seq<User>)
    ensures |r| == |users|
    ensures forall i :: 0 <= i < |r| ==> r[i].id == users[i].id && r[i].timestamp == users[i].timestamp
    ensures forall i :: 0 <= i < |r| && users[i].id == id ==>
      r[i].name == name && r[i].email == email && r[i].phone == phone
    ensures forall i :: 0 <= i < |r| && users[i].id != id ==> r[i] == users[i]
  {
    seq(|users|, i requires 0 <= i < |users| =>
      if users[i].id == id then WithFields(users[i], name, email, phone) else users[i])
  }

  /** Updating an id the roster does not hold changes nothing. */
  lemma UpdateAbsentId(users: seq<User>, id: string, name: string, email: string, phone: string)
    requires forall u :: u in users ==> u.id != id
    ensures UpdateById(users, id, name, email, phone) == users
  {
    var r := UpdateById(users, id, name, email, phone);
    forall i | 0 <= i < |users| ensures r[i] == users[i] {
      assert users[i] in users;
    }
  }

  predicate HasOtherId(id: string, u: User) {
    u.id != id
  }

  /** `users.filter(u => u.id !== id)`. */
  function RemoveId(users: seq<User>, id: string): (r: seq<User>)
    ensures |r| <= |users|
    ensures forall u :: u in r <==> u in users && u.id != id
  {
    Keep(users, u => HasOtherId(id, u))
  }

  /**
   * After a removal no record with the id is left, every other record is kept with all its
   * occurrences, and the remaining records keep their relative order.
   */
  lemma RemoveIdSpec(users: seq<User>, id: string)
    ensures forall u :: u in RemoveId(users, id) ==> u.id != id
    ensures forall u :: u in users && u.id != id ==> u in RemoveId(users, id)
    ensures forall u :: multiset(RemoveId(users, id))[u] == if u.id == id then 0 else multiset(users)[u]
    ensures IsSubsequence(RemoveId(users, id), users)
  {
    forall u ensures multiset(RemoveId(users, id))[u] == if u.id == id then 0 else multiset(users)[u] {
      KeepCount(users, u => HasOtherId(id, u), u);
    }
    KeepIsSubsequence(users, u => HasOtherId(id, u));
  }

  /** Removing an id the roster does not hold changes nothing. */
  lemma RemoveAbsentId(users: seq<User>, id: string)
    requires forall u :: u in users ==> u.id != id
    ensures RemoveId(users, id) == users
  {
    KeepAll(users, u => HasOtherId(id, u));
  }

  /** No two records share an id (the store's ids are unique within the collection). */
  predicate UniqueIds(users: seq<User>) {
    forall i, j :: 0 <= i < j < |users| ==> users[i].id != users[j].id
  }

  /** The roster's id column, in order. */
  function Ids(users: seq<User>): seq<string> {
    seq(|users|, i requires 0 <= i < |users| => users[i].id)
  }

  /** An update keeps the id column, so it keeps ids unique. */
  lemma UpdateKeepsIds(users: seq<User>, id: string, name: string, email: string, phone: string)
    ensures Ids(UpdateById(users, id, name, email, phone)) == Ids(users)
    ensures UniqueIds(users) ==> UniqueIds(UpdateById(users, id, name, email, phone))
  {
  }

  /** A removal keeps ids unique. */
  lemma {:induction false} RemoveKeepsUniqueIds(users: seq<User>, id: string)
    requires UniqueIds(users)
    ensures UniqueIds(RemoveId(users, id))
    decreases |users|
  {
    if users != [] {
      var init := users[..|users| - 1];
      var last := users[|users| - 1];
      RemoveKeepsUniqueIds(init, id);
      var r := RemoveId(users, id);
      if last.id != id {
        assert r == RemoveId(init, id) + [last];
        forall u | u in RemoveId(init, id) ensures u.id != last.id {
          assert u in init;
        }
      }
    }
  }
}
