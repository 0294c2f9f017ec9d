/**
 * The database: one table per handled entity, each an ordered sequence of row objects.
 * Store order is taken to be insertion order. `query.all()` has no `order_by`, so this is
 * a convention of the model. The primary key makes ids unique; the User table's unique
 * constraint makes emails unique.
 */
module Store {
  import opened Wire
  import opened Models
  import opened Seqs

  // ---------------------------------------------------------------- users

  /** `User.query.filter_by(id=id).first()`. */
  function FindUser(s: seq<User>, id: int): (r: User?)
    reads s
    ensures r != null ==> r in s && r.id == id
    ensures r == null ==> forall i :: 0 <= i < |s| ==> s[i].id != id
  {
    if s == [] then null else if s[0].id == id then s[0] else FindUser(s[1..], id)
  }

  /** `User.query.filter_by(email=email).first()`. */
  function FindUserByEmail(s: seq<User>, email: string): (r: User?)
    reads s
    ensures r != null ==> r in s && r.email == email
    ensures r == null ==> forall i :: 0 <= i < |s| ==> s[i].email != email
  {
    if s == [] then null else if s[0].email == email then s[0] else FindUserByEmail(s[1..], email)
  }

  class UserTable {
    var rows: seq<User>

    /** Distinct rows, and both the primary key and the email column identify a row. */
    ghost predicate Valid()
      reads this, rows
    {
      && Distinct(rows)
      && (forall x, y :: x in rows && y in rows && x.id == y.id ==> x == y)
      && (forall x, y :: x in rows && y in rows && x.email == y.email ==> x == y)
    }

    constructor ()
      ensures Valid() && rows == []
    {
      rows := [];
    }

    /** `db.session.add(user); db.session.commit()`: the row gets its id and joins the table. */
    method Insert(u: User, id: int)
      requires Valid() && u !in rows
      requires FindUser(rows, id) == null && FindUserByEmail(rows, u.email) == null
      modifies this`rows, u`id
      ensures Valid()
      ensures rows == old(rows) + [u] && u.id == id
    {
      u.id := id;
      rows := rows + [u];
    }
  }

  // ---------------------------------------------------------------- posts

  /** `Post.query.filter_by(id=id).first()`. */
  function FindPost(s: seq<Post>, id: int): (r: Post?)
    reads s
    ensures r != null ==> r in s && r.id == id
    ensures r == null ==> forall i :: 0 <= i < |s| ==> s[i].id != id
  {
    if s == [] then null else if s[0].id == id then s[0] else FindPost(s[1..], id)
  }

  class PostTable {
    var rows: seq<Post>

    ghost predicate Valid()
      reads this, rows
    {
      Distinct(rows) && forall x, y :: x in rows && y in rows && x.id == y.id ==> x == y
    }

    constructor ()
      ensures Valid() && rows == []
    {
      rows := [];
    }

    method Insert(p: Post, id: int, now: Timestamp)
      requires Valid() && p !in rows && FindPost(rows, id) == null
      modifies this`rows, p`id, p`createdAt
      ensures Valid()
      ensures rows == old(rows) + [p] && p.id == id && p.createdAt == now
    {
      p.id, p.createdAt := id, now;
      rows := rows + [p];
    }
  }

  // ---------------------------------------------------------------- to-dos

  /** `ToDo.query.filter_by(id=id).first()`. */
  function FindToDo(s: seq<ToDo>, id: int): (r: ToDo?)
    reads s
    ensures r != null ==> r in s && r.id == id
    ensures r == null ==> forall i :: 0 <= i < |s| ==> s[i].id != id
  {
    if s == [] then null else if s[0].id == id then s[0] else FindToDo(s[1..], id)
  }

  /** `ToDo.query.filter(ToDo.is_complete == True).all()`: the completed rows in store order. */
  function Completed(s: seq<ToDo>): (r: seq<ToDo>)
    reads s
    ensures forall i :: 0 <= i < |r| ==> r[i] in s && r[i].isComplete
    ensures forall i :: 0 <= i < |s| && s[i].isComplete ==> s[i] in r
  {
    if s == [] then [] else (if s[0].isComplete then [s[0]] else []) + Completed(s[1..])
  }

  /** The reference for what a bulk delete leaves: the rows not complete, in store order. */
  function Incomplete(s: seq<ToDo>): (r: seq<ToDo>)
    reads s
    ensures forall i :: 0 <= i < |r| ==> r[i] in s && !r[i].isComplete
    ensures forall i :: 0 <= i < |s| && !s[i].isComplete ==> s[i] in r
  {
    if s == [] then [] else (if s[0].isComplete then [] else [s[0]]) + Incomplete(s[1..])
  }

  lemma {:induction false} CompletedDistinct(s: seq<ToDo>)
    requires Distinct(s)
    ensures Distinct(Completed(s))
  {
    if s != [] {
      assert Distinct(s[1..]);
      CompletedDistinct(s[1..]);
      assert s[0] !in s[1..];
    }
  }

  /** Removing a set that holds exactly the completed rows leaves Incomplete(s). */
  lemma {:induction false} WithoutCompleted(s: seq<ToDo>, gone: set<ToDo>)
    requires forall i :: 0 <= i < |s| ==> (s[i] in gone <==> s[i].isComplete)
    ensures Without(s, gone) == Incomplete(s)
  {
    if s != [] {
      WithoutCompleted(s[1..], gone);
    }
  }

  /** Deleting every row the completed-query returns leaves exactly Incomplete(s). */
  lemma {:induction false} DeleteCompletedLeavesIncomplete(s: seq<ToDo>)
    ensures Without(s, Elems(Completed(s))) == Incomplete(s)
  {
    WithoutCompleted(s, Elems(Completed(s)));
  }

  /** The filter keeps store order: it works on each part of a sequence separately. */
  lemma {:induction false} IncompleteAppend(a: seq<ToDo>, b: seq<ToDo>)
    ensures Incomplete(a + b) == Incomplete(a) + Incomplete(b)
  {
    if a == [] {
      assert a + b == b;
    } else {
      assert (a + b)[1..] == a[1..] + b;
      IncompleteAppend(a[1..], b);
    }
  }

  /** A table with nothing complete is left exactly as it is. */
  lemma {:induction false} IncompleteNoneComplete(s: seq<ToDo>)
    requires forall i :: 0 <= i < |s| ==> !s[i].isComplete
    ensures Incomplete(s) == s
  {
    if s != [] {
      IncompleteNoneComplete(s[1..]);
    }
  }

  /** A second bulk delete finds nothing to delete. */
  lemma {:induction false} IncompleteIdempotent(s: seq<ToDo>)
    ensures Incomplete(Incomplete(s)) == Incomplete(s)
  {
    IncompleteNoneComplete(Incomplete(s));
  }

  /** Every row is either deleted or kept, never both. */
  lemma {:induction false} CompletedIncompleteSplit(s: seq<ToDo>)
    ensures |Completed(s)| + |Incomplete(s)| == |s|
  {
    if s != [] {
      CompletedIncompleteSplit(s[1..]);
    }
  }

  class ToDoTable {
    var rows: seq<ToDo>

    ghost predicate Valid()
      reads this, rows
    {
      Distinct(rows) && forall x, y :: x in rows && y in rows && x.id == y.id ==> x == y
    }

    constructor ()
      ensures Valid() && rows == []
    {
      rows := [];
    }

    method Insert(t: ToDo, id: int, now: Timestamp)
      requires Valid() && t !in rows && FindToDo(rows, id) == null
      modifies this`rows, t`id, t`createdAt
      ensures Valid()
      ensures rows == old(rows) + [t] && t.id == id && t.createdAt == now
    {
      t.id, t.createdAt := id, now;
      rows := rows + [t];
    }

    /** `db.session.delete(todo)`: the row leaves the table, the others keep their order. */
    method Delete(t: ToDo)
      requires Valid() && t in rows
      modifies this`rows
      ensures Valid()
      ensures rows == Without(old(rows), {t}) && |rows| == |old(rows)| - 1
    {
      var i := IndexOf(rows, t);
      WithoutAt(rows, i);
      WithoutDistinct(rows, {t});
      rows := Without(rows, {t});
    }
  }

  // ---------------------------------------------------------------- contacts

  /** `Contact.query.filter_by(id=id).first()`. */
  function FindContact(s: seq<Contact>, id: int): (r: Contact?)
    reads s
    ensures r != null ==> r in s && r.id == id
    ensures r == null ==> forall i :: 0 <= i < |s| ==> s[i].id != id
  {
    if s == [] then null else if s[0].id == id then s[0] else FindContact(s[1..], id)
  }

  /** `Contact.query.filter(Contact.is_selected == True).all()`. */
  function Selected(s: seq<Contact>): (r: seq<Contact>)
    reads s
    ensures forall i :: 0 <= i < |r| ==> r[i] in s && r[i].isSelected
    ensures forall i :: 0 <= i < |s| && s[i].isSelected ==> s[i] in r
  {
    if s == [] then [] else (if s[0].isSelected then [s[0]] else []) + Selected(s[1..])
  }

  /** The reference for what a bulk delete leaves: the unselected rows, in store order. */
  function Unselected(s: seq<Contact>): (r: seq<Contact>)
    reads s
    ensures forall i :: 0 <= i < |r| ==> r[i] in s && !r[i].isSelected
    ensures forall i :: 0 <= i < |s| && !s[i].isSelected ==> s[i] in r
  {
    if s == [] then [] else (if s[0].isSelected then [] else [s[0]]) + Unselected(s[1..])
  }

  lemma {:induction false} SelectedDistinct(s: seq<Contact>)
    requires Distinct(s)
    ensures Distinct(Selected(s))
  {
    if s != [] {
      assert Distinct(s[1..]);
      SelectedDistinct(s[1..]);
      assert s[0] !in s[1..];
    }
  }

  lemma {:induction false} WithoutSelected(s: seq<Contact>, gone: set<Contact>)
    requires forall i :: 0 <= i < |s| ==> (s[i] in gone <==> s[i].isSelected)
    ensures Without(s, gone) == Unselected(s)
  {
    if s != [] {
      WithoutSelected(s[1..], gone);
    }
  }

  /** Deleting every row the selected-query returns leaves exactly Unselected(s). */
  lemma {:induction false} DeleteSelectedLeavesUnselected(s: seq<Contact>)
    ensures Without(s, Elems(Selected(s))) == Unselected(s)
  {
    WithoutSelected(s, Elems(Selected(s)));
  }

  lemma {:induction false} UnselectedAppend(a: seq<Contact>, b: seq<Contact>)
    ensures Unselected(a + b) == Unselected(a) + Unselected(b)
  {
    if a == [] {
      assert a + b == b;
    } else {
      assert (a + b)[1..] == a[1..] + b;
      UnselectedAppend(a[1..], b);
    }
  }

  lemma {:induction false} UnselectedNoneSelected(s: seq<Contact>)
    requires forall i :: 0 <= i < |s| ==> !s[i].isSelected
    ensures Unselected(s) == s
  {
    if s != [] {
      UnselectedNoneSelected(s[1..]);
    }
  }

  lemma {:induction false} UnselectedIdempotent(s: seq<Contact>)
    ensures Unselected(Unselected(s)) == Unselected(s)
  {
    UnselectedNoneSelected(Unselected(s));
  }

  lemma {:induction false} SelectedUnselectedSplit(s: seq<Contact>)
    ensures |Selected(s)| + |Unselected(s)| == |s|
  {
    if s != [] {
      SelectedUnselectedSplit(s[1..]);
    }
  }

  class ContactTable {
    var rows: seq<Contact>

    ghost predicate Valid()
      reads this, rows
    {
      Distinct(rows) && forall x, y :: x in rows && y in rows && x.id == y.id ==> x == y
    }

    constructor ()
      ensures Valid() && rows == []
    {
      rows := [];
    }

    method Insert(c: Contact, id: int, now: Timestamp)
      requires Valid() && c !in rows && FindContact(rows, id) == null
      modifies this`rows, c`id, c`createdAt
      ensures Valid()
      ensures rows == old(rows) + [c] && c.id == id && c.createdAt == now
    {
      c.id, c.createdAt := id, now;
      rows := rows + [c];
    }

    /** `db.session.delete(contact)`. */
    method Delete(c: Contact)
      requires Valid() && c in rows
      modifies this`rows
      ensures Valid()
      ensures rows == Without(old(rows), {c}) && |rows| == |old(rows)| - 1
    {
      var i := IndexOf(rows, c);
      WithoutAt(rows, i);
      WithoutDistinct(rows, {c});
      rows := Without(rows, {c});
    }
  }
}
