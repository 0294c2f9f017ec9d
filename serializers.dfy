/**
 * The marshmallow serializers: each is a fixed allowlist of attribute names applied to a
 * record's attributes; PostSerializer also nests the author through UserSerializer.
 * `many=True` applies the per-record projection to every row, in store order.
 */
module Serializers {
  import opened Wire
  import opened Models
  import opened Store

  /** `Meta.fields`: keep the listed attributes and drop every other. */
  function Select(attrs: map<string, Json>, fields: set<string>): (r: map<string, Json>)
    ensures r.Keys == attrs.Keys * fields
    ensures forall f :: f in r ==> r[f] == attrs[f]
  {
    map f | f in attrs && f in fields :: attrs[f]
  }

  const UserFields: set<string> := {"id", "email"}
  const PostFields: set<string> := {"id", "title", "body", "created_at"}  // plus the nested "user"
  const ToDoFields: set<string> := {"id", "text", "is_complete", "created_at", "status"}
  const ContactFields: set<string> := {"id", "first_name", "last_name", "text", "created_at"}

  /** UserSerializer. */
  function SerializeUser(u: User): map<string, Json>
    reads u
  {
    Select(u.Attributes(), UserFields)
  }

  /** The user projection is id and email; the password hash never leaves the server. */
  lemma UserProjection(u: User)
    ensures var r := SerializeUser(u);
            && r.Keys == {"id", "email"} && "password" !in r
            && r["id"] == JInt(u.id) && r["email"] == JStr(u.email)
  {
  }

  /**
   * What `fields.Nested(UserSerializer)` without `allow_null` writes for a missing author:
   * pre-2.0 marshmallow serializes `None` like any object, so every declared field is null.
   */
  const MissingAuthor: Json := JObj(map["id" := JNull, "email" := JNull])

  /** PostSerializer: the allowlisted attributes, plus "user", the author through UserSerializer. */
  function SerializePost(p: Post, users: seq<User>): map<string, Json>
    reads p, users
  {
    var author := FindUser(users, p.userId);
    Select(p.Attributes(), PostFields)["user" := if author == null then MissingAuthor else JObj(SerializeUser(author))]
  }

  /**
   * The post projection is id, title, body, created_at and user, never the foreign key
   * user_id. "user" is the all-null user object exactly when no user has the post's user_id,
   * and otherwise the user projection of a user that has it.
   */
  lemma PostProjection(p: Post, users: seq<User>)
    ensures var r := SerializePost(p, users);
            && r.Keys == {"id", "title", "body", "user", "created_at"} && "user_id" !in r
            && r["id"] == JInt(p.id) && r["title"] == JStr(p.title) && r["body"] == JStr(p.body)
            && r["created_at"] == JTime(p.createdAt)
            && (r["user"] == MissingAuthor <==> forall i :: 0 <= i < |users| ==> users[i].id != p.userId)
            && (r["user"] != MissingAuthor ==>
                  exists u :: u in users && u.id == p.userId && r["user"] == JObj(SerializeUser(u)))
  {
    var author := FindUser(users, p.userId);
    if author != null {
      UserProjection(author);
      assert JObj(SerializeUser(author)).fields["id"] != JNull;
    }
  }

  /** ToDoSerializer. */
  function SerializeToDo(t: ToDo): map<string, Json>
    reads t
  {
    Select(t.Attributes(), ToDoFields)
  }

  /** The to-do projection is exactly id, text, is_complete, created_at and status. */
  lemma ToDoProjection(t: ToDo)
    ensures var r := SerializeToDo(t);
            && r.Keys == {"id", "text", "is_complete", "created_at", "status"}
            && r["id"] == JInt(t.id) && r["text"] == JStr(t.text)
            && r["is_complete"] == JBool(t.isComplete)
            && r["created_at"] == JTime(t.createdAt) && r["status"] == JStr(t.status)
  {
  }

  /** ContactSerializer. */
  function SerializeContact(c: Contact): map<string, Json>
    reads c
  {
    Select(c.Attributes(), ContactFields)
  }

  /** The contact projection is id, names, text and created_at; icon_url and is_selected are omitted. */
  lemma ContactProjection(c: Contact)
    ensures var r := SerializeContact(c);
            && r.Keys == {"id", "first_name", "last_name", "text", "created_at"}
            && "icon_url" !in r && "is_selected" !in r
            && r["id"] == JInt(c.id) && r["first_name"] == JStr(c.firstName)
            && r["last_name"] == JStr(c.lastName) && r["text"] == JStr(c.text)
            && r["created_at"] == JTime(c.createdAt)
  {
  }

  /** `PostSerializer(posts, many=True)`: one object per row, in store order. */
  function SerializePosts(s: seq<Post>, users: seq<User>): (r: seq<Json>)
    reads s, users
    ensures |r| == |s|
    ensures forall i :: 0 <= i < |s| ==> r[i] == JObj(SerializePost(s[i], users))
  {
    if s == [] then [] else SerializePosts(s[..|s| - 1], users) + [JObj(SerializePost(s[|s| - 1], users))]
  }

  /** `ToDoSerializer(todos, many=True)`. */
  function SerializeToDos(s: seq<ToDo>): (r: seq<Json>)
    reads s
    ensures |r| == |s|
    ensures forall i :: 0 <= i < |s| ==> r[i] == JObj(SerializeToDo(s[i]))
  {
    if s == [] then [] else SerializeToDos(s[..|s| - 1]) + [JObj(SerializeToDo(s[|s| - 1]))]
  }

  /** `ContactSerializer(contacts, many=True)`. */
  function SerializeContacts(s: seq<Contact>): (r: seq<Json>)
    reads s
    ensures |r| == |s|
    ensures forall i :: 0 <= i < |s| ==> r[i] == JObj(SerializeContact(s[i]))
  {
    if s == [] then [] else SerializeContacts(s[..|s| - 1]) + [JObj(SerializeContact(s[|s| - 1]))]
  }

  /**
   * With ids unique in the User table, a post by a stored user nests exactly that user's
   * id and email.
   */
  lemma PostNestsAuthor(p: Post, users: seq<User>, author: User)
    requires author in users && p.userId == author.id
    requires forall x, y :: x in users && y in users && x.id == y.id ==> x == y
    ensures SerializePost(p, users)["user"] == JObj(SerializeUser(author))
    ensures SerializePost(p, users)["user"].fields.Keys == {"id", "email"}
  {
    var found := FindUser(users, p.userId);
    assert found != null by {
      var i :| 0 <= i < |users| && users[i] == author;
    }
    UserProjection(author);
  }
}
