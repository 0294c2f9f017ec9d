/**
 * The request handlers of `views.py`, one method per resource and verb. Each validates (the
 * outcome arrives as a Form), changes the tables in place, and answers with a serialized body
 * and a status. The authenticated user is a parameter instead of the ambient `g.user`.
 * Fresh ids and timestamps, which the database supplies at commit, are parameters too.
 */
module Views {
  import opened Wire
  import opened Forms
  import opened Models
  import opened Store
  import opened Serializers
  import opened Seqs

  /** Some stored user has this email and the password checks against its hash. */
  ghost predicate Authenticates(users: seq<User>, hash: Hasher, email: string, password: string)
    reads users
  {
    exists u :: u in users && u.email == email && CheckPasswordHash(hash, u.password, password)
  }

  /**
   * The auth gate's `verify_password`: look the user up by email (`user` is what the handler
   * stores in `g.user`), then check the password against the stored hash.
   */
  method VerifyPassword(users: UserTable, hash: Hasher, email: string, password: string)
    returns (ok: bool, user: User?)
    requires users.Valid()
    ensures user == null <==> forall i :: 0 <= i < |users.rows| ==> users.rows[i].email != email
    ensures user == null ==> !ok
    ensures user != null ==> user in users.rows && user.email == email
    ensures ok <==> Authenticates(users.rows, hash, email, password)
  {
    user := FindUserByEmail(users.rows, email);
    if user == null {
      return false, null;
    }
    ok := CheckPasswordHash(hash, user.password, password);
    OnlyUserWithEmail(users, user);
  }

  /** With emails unique, the user found by email is the only candidate for a login. */
  lemma OnlyUserWithEmail(users: UserTable, user: User)
    requires users.Valid() && user in users.rows
    ensures forall hash, password ::
              Authenticates(users.rows, hash, user.email, password) <==>
              CheckPasswordHash(hash, user.password, password)
  {
  }

  /** UserView.post: register a user; the stored password is the hash of the one submitted. */
  method UserPost(users: UserTable, hash: Hasher, form: Form<UserCreate>, id: int)
    returns (resp: Response)
    requires users.Valid() && FindUser(users.rows, id) == null
    // The form's Unique validator rejects an email that is already registered.
    requires form.Accepted? ==> FindUserByEmail(users.rows, form.data.email) == null
    modifies users
    ensures users.Valid()
    ensures form.Rejected? ==> resp == Invalid(form.errors) && users.rows == old(users.rows)
    ensures form.Accepted? ==>
              && |users.rows| == |old(users.rows)| + 1
              && users.rows[..|old(users.rows)|] == old(users.rows)
              && var u := users.rows[|old(users.rows)|];
              && fresh(u) && u.id == id && u.email == form.data.email
              && u.password == hash(form.data.password)
              && resp == Response(JObj(SerializeUser(u)), 200)
  {
    if form.Rejected? {
      return Invalid(form.errors);
    }
    var u := new User(form.data.email, form.data.password, hash);
    users.Insert(u, id);
    resp := Response(JObj(SerializeUser(u)), 200);
  }

  /** SessionView.post: 201 with the user when the credentials match a stored user, else 401. */
  method SessionPost(users: UserTable, hash: Hasher, form: Form<SessionCreate>)
    returns (resp: Response)
    requires users.Valid()
    ensures form.Rejected? ==> resp == Invalid(form.errors)
    ensures form.Accepted? ==>
              (resp.status == 201 <==> Authenticates(users.rows, hash, form.data.email, form.data.password))
    ensures form.Accepted? && resp.status == 201 ==>
              exists u :: u in users.rows && u.email == form.data.email && resp.body == JObj(SerializeUser(u))
    ensures form.Accepted? && resp.status != 201 ==> resp == Unauthorized
  {
    if form.Rejected? {
      return Invalid(form.errors);
    }
    var user := FindUserByEmail(users.rows, form.data.email);
    if user != null {
      OnlyUserWithEmail(users, user);
    }
    if user != null && CheckPasswordHash(hash, user.password, form.data.password) {
      return Response(JObj(SerializeUser(user)), 201);
    }
    resp := Unauthorized;
  }

  /** PostListView.get: every post, in store order, each with its author nested. */
  method PostListGet(posts: PostTable, users: UserTable) returns (resp: Response)
    ensures resp.status == 200 && resp.body.JArr? && |resp.body.items| == |posts.rows|
    ensures forall i :: 0 <= i < |posts.rows| ==>
              resp.body.items[i] == JObj(SerializePost(posts.rows[i], users.rows))
  {
    resp := Response(JArr(SerializePosts(posts.rows, users.rows)), 200);
  }

  /** PostListView.post once the gate has let `current` through: the post belongs to `current`. */
  method PostListPost(users: UserTable, posts: PostTable, current: User, form: Form<PostCreate>,
                      id: int, now: Timestamp)
    returns (resp: Response)
    requires users.Valid() && current in users.rows
    requires posts.Valid() && FindPost(posts.rows, id) == null
    modifies posts
    ensures posts.Valid()
    ensures form.Rejected? ==> resp == Invalid(form.errors) && posts.rows == old(posts.rows)
    ensures form.Accepted? ==>
              && |posts.rows| == |old(posts.rows)| + 1
              && posts.rows[..|old(posts.rows)|] == old(posts.rows)
              && var p := posts.rows[|old(posts.rows)|];
              && fresh(p) && p.id == id && p.createdAt == now
              && p.title == form.data.title && p.body == form.data.body && p.userId == current.id
              && resp == Response(JObj(SerializePost(p, users.rows)), 201)
              && resp.body.fields["user"] == JObj(SerializeUser(current))
  {
    if form.Rejected? {
      return Invalid(form.errors);
    }
    var p := new Post(form.data.title, form.data.body, current);
    posts.Insert(p, id, now);
    PostNestsAuthor(p, users.rows, current);
    resp := Response(JObj(SerializePost(p, users.rows)), 201);
  }

  /**
   * `@auth.login_required` around PostListView.post: bad credentials answer 401 before the
   * handler runs; otherwise the post is created for the user the email names.
   */
  method GatedPostListPost(users: UserTable, posts: PostTable, hash: Hasher, auth: Credentials,
                           form: Form<PostCreate>, id: int, now: Timestamp)
    returns (resp: Response)
    requires users.Valid() && posts.Valid() && FindPost(posts.rows, id) == null
    modifies posts
    ensures posts.Valid()
    ensures resp.status == 401 <==> !Authenticates(users.rows, hash, auth.email, auth.password)
    ensures resp.status == 401 ==> resp == Unauthorized && posts.rows == old(posts.rows)
    ensures resp.status == 201 ==>
              && form.Accepted?
              && |posts.rows| == |old(posts.rows)| + 1
              && var p := posts.rows[|old(posts.rows)|];
              && exists u :: u in users.rows && u.email == auth.email && p.userId == u.id
  {
    var ok, user := VerifyPassword(users, hash, auth.email, auth.password);
    if !ok {
      return Unauthorized;
    }
    resp := PostListPost(users, posts, user, form, id, now);
  }

  /** PostView.get: the post with that id. */
  method PostGet(posts: PostTable, users: UserTable, id: int) returns (resp: Response)
    requires FindPost(posts.rows, id) != null
    ensures resp.status == 200
    ensures exists p :: p in posts.rows && p.id == id && resp.body == JObj(SerializePost(p, users.rows))
  {
    var p := FindPost(posts.rows, id);
    resp := Response(JObj(SerializePost(p, users.rows)), 200);
  }

  // ---------------------------------------------------------------- to-dos

  /** ToDoListView.get. */
  method ToDoListGet(todos: ToDoTable) returns (resp: Response)
    ensures resp.status == 200 && resp.body.JArr? && |resp.body.items| == |todos.rows|
    ensures forall i :: 0 <= i < |todos.rows| ==> resp.body.items[i] == JObj(SerializeToDo(todos.rows[i]))
  {
    resp := Response(JArr(SerializeToDos(todos.rows)), 200);
  }

  /** ToDoListView.post: a new to-do is always 'Active', whatever `is_complete` says. */
  method ToDoListPost(todos: ToDoTable, form: Form<ToDoCreate>, id: int, now: Timestamp)
    returns (resp: Response)
    requires todos.Valid() && FindToDo(todos.rows, id) == null
    modifies todos
    ensures todos.Valid()
    ensures form.Rejected? ==> resp == Invalid(form.errors) && todos.rows == old(todos.rows)
    ensures form.Accepted? ==>
              && |todos.rows| == |old(todos.rows)| + 1
              && todos.rows[..|old(todos.rows)|] == old(todos.rows)
              && var t := todos.rows[|old(todos.rows)|];
              && fresh(t) && t.id == id && t.createdAt == now
              && t.text == form.data.text && t.isComplete == form.data.isComplete
              && t.status == DefaultStatus
              && resp == Response(JObj(SerializeToDo(t)), 201)
  {
    if form.Rejected? {
      return Invalid(form.errors);
    }
    var t := new ToDo(form.data.text, form.data.isComplete, DefaultStatus);
    todos.Insert(t, id, now);
    resp := Response(JObj(SerializeToDo(t)), 201);
  }

  /**
   * ToDoListView.delete: query the completed rows, delete them one by one, and answer with
   * what is left. The table ends as the order-preserving filter Incomplete of the old one.
   */
  method ToDoListDelete(todos: ToDoTable) returns (resp: Response)
    requires todos.Valid()
    modifies todos
    ensures todos.Valid()
    ensures todos.rows == Incomplete(old(todos.rows))
    ensures resp == Response(JArr(SerializeToDos(todos.rows)), 201)
  {
    ghost var before := todos.rows;
    var toDelete := Completed(todos.rows);
    CompletedDistinct(before);
    WithoutNone(before, toDelete);
    var k := 0;
    while k < |toDelete|
      invariant 0 <= k <= |toDelete|
      invariant todos.Valid()
      invariant todos.rows == Without(before, Elems(toDelete[..k]))
    {
      WithoutStep(before, toDelete, k);
      todos.Delete(toDelete[k]);
      k := k + 1;
    }
    assert toDelete[..k] == toDelete;
    DeleteCompletedLeavesIncomplete(before);
    resp := Response(JArr(SerializeToDos(todos.rows)), 201);
  }

  /** ToDoView.get. */
  method ToDoGet(todos: ToDoTable, id: int) returns (resp: Response)
    requires FindToDo(todos.rows, id) != null
    ensures resp.status == 200
    ensures exists t :: t in todos.rows && t.id == id && resp.body == JObj(SerializeToDo(t))
  {
    var t := FindToDo(todos.rows, id);
    resp := Response(JObj(SerializeToDo(t)), 200);
  }

  /**
   * ToDoView.put: set `is_complete` from the form and derive `status` from it; the form's
   * `text` is ignored. A missing id is only looked up after validation passes.
   */
  method ToDoPut(todos: ToDoTable, id: int, form: Form<ToDoComplete>) returns (resp: Response)
    requires todos.Valid()
    requires form.Accepted? ==> FindToDo(todos.rows, id) != null
    modifies FindToDo(todos.rows, id)
    ensures todos.Valid()
    ensures form.Rejected? ==> resp == Invalid(form.errors) && forall t :: t in todos.rows ==> unchanged(t)
    ensures form.Accepted? ==>
              var t := old(FindToDo(todos.rows, id));
              && t.isComplete == form.data.isComplete
              && (t.status == "Completed" <==> t.isComplete)
              && (!t.isComplete ==> t.status == DefaultStatus)
              && t.id == old(t.id) && t.text == old(t.text) && t.createdAt == old(t.createdAt)
              && resp == Response(JObj(SerializeToDo(t)), 201)
  {
    if form.Rejected? {
      return Invalid(form.errors);
    }
    var t := FindToDo(todos.rows, id);
    t.isComplete := form.data.isComplete;
    if t.isComplete {
      t.status := "Completed";
    } else {
      t.status := DefaultStatus;
    }
    resp := Response(JObj(SerializeToDo(t)), 201);
  }

  // ---------------------------------------------------------------- contacts

  /** ContactListView.get. */
  method ContactListGet(contacts: ContactTable) returns (resp: Response)
    ensures resp.status == 200 && resp.body.JArr? && |resp.body.items| == |contacts.rows|
    ensures forall i :: 0 <= i < |contacts.rows| ==>
              resp.body.items[i] == JObj(SerializeContact(contacts.rows[i]))
  {
    resp := Response(JArr(SerializeContacts(contacts.rows)), 200);
  }

  /** ContactListView.post: the four submitted fields are stored; icon_url stays null. */
  method ContactListPost(contacts: ContactTable, form: Form<ContactCreate>, id: int, now: Timestamp)
    returns (resp: Response)
    requires contacts.Valid() && FindContact(contacts.rows, id) == null
    modifies contacts
    ensures contacts.Valid()
    ensures form.Rejected? ==> resp == Invalid(form.errors) && contacts.rows == old(contacts.rows)
    ensures form.Accepted? ==>
              && |contacts.rows| == |old(contacts.rows)| + 1
              && contacts.rows[..|old(contacts.rows)|] == old(contacts.rows)
              && var c := contacts.rows[|old(contacts.rows)|];
              && fresh(c) && c.id == id && c.createdAt == now
              && c.text == form.data.text && c.firstName == form.data.firstName
              && c.lastName == form.data.lastName && c.isSelected == form.data.isSelected
              && c.iconUrl == None
              && resp == Response(JObj(SerializeContact(c)), 201)
  {
    if form.Rejected? {
      return Invalid(form.errors);
    }
    var c := new Contact(form.data.text, form.data.firstName, form.data.lastName, form.data.isSelected);
    contacts.Insert(c, id, now);
    resp := Response(JObj(SerializeContact(c)), 201);
  }

  /** ContactListView.delete: delete every selected contact and answer with the rest. */
  method ContactListDelete(contacts: ContactTable) returns (resp: Response)
    requires contacts.Valid()
    modifies contacts
    ensures contacts.Valid()
    ensures contacts.rows == Unselected(old(contacts.rows))
    ensures resp == Response(JArr(SerializeContacts(contacts.rows)), 201)
  {
    ghost var before := contacts.rows;
    var toDelete := Selected(contacts.rows);
    SelectedDistinct(before);
    WithoutNone(before, toDelete);
    var k := 0;
    while k < |toDelete|
      invariant 0 <= k <= |toDelete|
      invariant contacts.Valid()
      invariant contacts.rows == Without(before, Elems(toDelete[..k]))
    {
      WithoutStep(before, toDelete, k);
      contacts.Delete(toDelete[k]);
      k := k + 1;
    }
    assert toDelete[..k] == toDelete;
    DeleteSelectedLeavesUnselected(before);
    resp := Response(JArr(SerializeContacts(contacts.rows)), 201);
  }

  /** ContactView.get. */
  method ContactGet(contacts: ContactTable, id: int) returns (resp: Response)
    requires FindContact(contacts.rows, id) != null
    ensures resp.status == 200
    ensures exists c :: c in contacts.rows && c.id == id && resp.body == JObj(SerializeContact(c))
  {
    var c := FindContact(contacts.rows, id);
    resp := Response(JObj(SerializeContact(c)), 200);
  }

  /** ContactView.put: overwrite first name, last name and text; nothing else changes. */
  method ContactPut(contacts: ContactTable, id: int, form: Form<ContactUpdate>) returns (resp: Response)
    requires contacts.Valid()
    requires form.Accepted? ==> FindContact(contacts.rows, id) != null
    modifies FindContact(contacts.rows, id)
    ensures contacts.Valid()
    ensures form.Rejected? ==>
              resp == Invalid(form.errors) && forall c :: c in contacts.rows ==> unchanged(c)
    ensures form.Accepted? ==>
              var c := old(FindContact(contacts.rows, id));
              && c.firstName == form.data.firstName && c.lastName == form.data.lastName
              && c.text == form.data.text
              && c.isSelected == old(c.isSelected) && c.iconUrl == old(c.iconUrl)
              && c.id == old(c.id) && c.createdAt == old(c.createdAt)
              && resp == Response(JObj(SerializeContact(c)), 201)
  {
    if form.Rejected? {
      return Invalid(form.errors);
    }
    var c := FindContact(contacts.rows, id);
    c.firstName := form.data.firstName;
    c.lastName := form.data.lastName;
    c.text := form.data.text;
    resp := Response(JObj(SerializeContact(c)), 201);
  }

  /** ContactView.delete: remove the one row with that id and answer with the rest (status 200). */
  method ContactDelete(contacts: ContactTable, id: int) returns (resp: Response)
    requires contacts.Valid() && FindContact(contacts.rows, id) != null
    modifies contacts
    ensures contacts.Valid()
    ensures forall c :: c in contacts.rows <==> c in old(contacts.rows) && c.id != id
    ensures exists i :: && 0 <= i < |old(contacts.rows)| && old(contacts.rows)[i].id == id
                        && contacts.rows == old(contacts.rows)[..i] + old(contacts.rows)[i + 1..]
    ensures resp == Response(JArr(SerializeContacts(contacts.rows)), 200)
  {
    var c := FindContact(contacts.rows, id);
    var i := IndexOf(contacts.rows, c);
    WithoutAt(contacts.rows, i);
    contacts.Delete(c);
    resp := Response(JArr(SerializeContacts(contacts.rows)), 200);
  }
}
