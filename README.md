# tagmatic-backend: the entity store, its handlers and its serializers

This project models the core of a small Flask REST backend for a personal task tracker. It covers:

- the ORM records of `server/app/models.py`: User, Post, ToDo, Contact, Project, Issue, Tag,
  Milestone, Effort, Column;
- the handlers of `server/app/views.py` that read and change the User, Post, ToDo and
  Contact tables;
- the field-allowlist serializers of `server/app/serializers.py`.

Modules:

- `Wire` (wire.dfy): JSON bodies, responses, and the 422 error answer.
- `Forms` (forms.dfy): what a validated submission carries. It is either `Accepted(data)` or
  `Rejected(errors)`.
- `Models` (models.dfy): one class per record. Each constructor sets the attributes that
  `__init__` sets. Two constructors also fix a column that `__init__` leaves alone. Contact's
  nullable icon_url is null. Milestone's status holds its column default 'Active'. Nullable
  columns have type `Option`, with two exceptions. Post.user_id is a plain `int`, because
  `__init__` always sets it from `g.user`. The `created_at` columns are plain `Timestamp`s,
  because the database fills them at insert with `now()`.
- `Seqs` (seqs.dfy): `Without`, order-preserving removal from a sequence, and its laws.
- `Store` (store.dfy): one table class per handled entity. Each holds its rows as a sequence
  of objects in insertion order. `Valid()` says that no row appears twice and that ids are
  unique; in the User table, emails are unique too. The module also has the `first()`
  lookups, the flag queries behind the bulk deletes, and the filters that say what a bulk
  delete leaves behind.
- `Serializers` (serializers.dfy): marshmallow's `Meta.fields` as `Select`, one projection
  per serializer, the nested author of a post, and `many=True`.
- `Views` (views.dfy): one method per handler.
  - The authenticated user is an explicit parameter instead of `g.user`.
  - The id and the `created_at` that the database assigns at commit are parameters too.
  - Row updates change the fetched object in place, as the handlers in `views.py` do.
  - Deletes remove rows from the table's sequence.

Password hashing is the function-typed parameter `hash: Hasher`, which is left uninterpreted.
`CheckPasswordHash(hash, stored, candidate)` holds when `stored == hash(candidate)`.

## Model

| member | source | states |
|---|---|---|
| `Wire.Invalid` | server/app/views.py:23-24 | A failed validation answers 422, and the body maps each offending field to its list of messages. |
| `Models.User.constructor` | server/app/models.py:14-16 | A new user stores the given email and `hash(password)`, never the plaintext password, and the stored hash checks against that password. |
| `Models.Post.constructor` | server/app/models.py:29-32 | A new post stores title and body. Its `user_id` is the authenticated user's id and is never taken from the request. |
| `Models.ToDo.constructor` | server/app/models.py:45-48 | A new to-do stores exactly the given text, is_complete and status. |
| `Models.Contact.constructor` | server/app/models.py:63-67 | A new contact stores text, first and last name and is_selected as given. `icon_url` stays null. |
| `Models.Project.constructor` | server/app/models.py:81-84 | A new project stores name, description and its owner, a non-null reference to a contact. |
| `Models.Issue.constructor` | server/app/models.py:108-116 | All eight arguments go to the same-named fields. project_id and column_id are non-null; tag, milestone, effort and assignee may be null. |
| `Models.Tag.constructor` | server/app/models.py:128-131 | A new tag stores name, description and color as given. |
| `Models.Milestone.constructor` | server/app/models.py:143-147 | The `status` column keeps its default 'Active'. The status argument lands only in the stray attribute `stats`. |
| `Models.Effort.constructor` | server/app/models.py:157-159 | A new effort stores name and description. |
| `Models.Column.constructor` | server/app/models.py:170-172 | A new column stores name and description. |
| `Seqs.WithoutAt` | server/app/views.py:149 | Deleting one row from a table without repeated rows cuts out exactly that row's position and shortens the table by one. |
| `Store.FindUser` | server/app/models.py:12 | The author lookup behind `post.user` finds a user with that id. It yields null only when no user has that id. |
| `Store.FindUserByEmail` | server/app/views.py:13 | The login lookup finds a user with that email. It yields null only when no user has that email. |
| `Store.FindPost` | server/app/views.py:62 | The post lookup finds a post with that id, or null only when none has it. |
| `Store.FindToDo` | server/app/views.py:98 | The to-do lookup finds a to-do with that id, or null only when none has it. |
| `Store.FindContact` | server/app/views.py:140 | The contact lookup finds a contact with that id, or null only when none has it. |
| `Store.Completed` | server/app/views.py:81 | The completed-query returns every completed row of the table and nothing else. |
| `Store.Incomplete` | server/app/views.py:85 | After a to-do bulk delete, the table holds every row that is not complete and nothing else. |
| `Store.DeleteCompletedLeavesIncomplete` | server/app/views.py:81-85 | Deleting every row the completed-query returns leaves exactly the incomplete rows, in their original order. |
| `Store.IncompleteAppend` | server/app/views.py:85 | The to-do filter keeps store order: it acts on each part of the table independently. |
| `Store.IncompleteIdempotent` | server/app/views.py:80-86 | A second to-do bulk delete leaves the table as it is. |
| `Store.CompletedIncompleteSplit` | server/app/views.py:81-85 | Every to-do is either deleted or kept, never both. |
| `Store.Selected` | server/app/views.py:123 | The selected-query returns every selected contact and nothing else. |
| `Store.Unselected` | server/app/views.py:127 | After a contact bulk delete, the table holds every contact that is not selected and nothing else. |
| `Store.DeleteSelectedLeavesUnselected` | server/app/views.py:123-127 | Deleting every row the selected-query returns leaves exactly the unselected rows, in their original order. |
| `Store.UnselectedAppend` | server/app/views.py:127 | The contact filter keeps store order. |
| `Store.UnselectedIdempotent` | server/app/views.py:122-128 | A second contact bulk delete leaves the table as it is. |
| `Store.SelectedUnselectedSplit` | server/app/views.py:123-127 | Every contact is either deleted or kept, never both. |
| `Store.UserTable.Insert` | server/app/views.py:27-28 | add-and-commit gives the user its fresh id and appends it. Ids and emails stay unique. |
| `Store.PostTable.Insert` | server/app/views.py:55-56 | add-and-commit gives the post its id and created_at and appends it. Ids stay unique. |
| `Store.ToDoTable.Insert` | server/app/views.py:76-77 | add-and-commit gives the to-do its id and created_at and appends it. Ids stay unique. |
| `Store.ToDoTable.Delete` | server/app/views.py:83 | `session.delete` removes that one row and keeps the others in order. |
| `Store.ContactTable.Insert` | server/app/views.py:118-119 | add-and-commit gives the contact its id and created_at and appends it. Ids stay unique. |
| `Store.ContactTable.Delete` | server/app/views.py:125 | `session.delete` removes that one row and keeps the others in order. |
| `Serializers.Select` | server/app/serializers.py:5-6 | An allowlist keeps exactly the listed attributes, with their values, and drops all others. |
| `Serializers.UserProjection` | server/app/serializers.py:4-6 | The user projection emits exactly id and email. It never emits the password. |
| `Serializers.PostProjection` | server/app/serializers.py:9-13 | The post projection emits exactly id, title, body, created_at and user, never user_id. "user" is an object whose id and email are both null exactly when no user has the post's user_id. Otherwise it is the user projection of that user. |
| `Serializers.PostNestsAuthor` | server/app/serializers.py:10 | With unique user ids, a post by a stored user nests that user's projection, which has only id and email. |
| `Serializers.ToDoProjection` | server/app/serializers.py:16-18 | The to-do projection emits exactly id, text, is_complete, created_at and status, with the row's values. |
| `Serializers.ContactProjection` | server/app/serializers.py:21-23 | The contact projection emits exactly id, names, text and created_at. It omits icon_url and is_selected. |
| `Serializers.SerializePosts` | server/app/views.py:47 | `many=True` on posts gives one projection per row, in store order. |
| `Serializers.SerializeToDos` | server/app/views.py:69 | `many=True` on to-dos gives one projection per row, in store order. |
| `Serializers.SerializeContacts` | server/app/views.py:111 | `many=True` on contacts gives one projection per row, in store order. |
| `Views.VerifyPassword` | server/app/views.py:11-17 | An unknown email fails. Otherwise the looked-up user, the one `g.user` holds, has that email. The gate passes if and only if some stored user has the email and the password checks. |
| `Views.UserPost` | server/app/views.py:21-29 | A rejected form answers 422 and changes nothing. An accepted one appends a user with the email and the hashed password and answers 200 with its projection. |
| `Views.SessionPost` | server/app/views.py:33-41 | Login answers 201 with the user's projection if and only if a stored user has the email and the password checks. Otherwise it answers 401 with an empty body. A rejected form answers 422. |
| `Views.PostListGet` | server/app/views.py:45-47 | The post list answers 200 with every post's projection, in store order. |
| `Views.PostListPost` | server/app/views.py:50-57 | A rejected form answers 422 and changes nothing. Otherwise a post owned by the authenticated user is appended, and the 201 answer nests that user. |
| `Views.GatedPostListPost` | server/app/views.py:49-57 | The post is refused with 401, and nothing changes, if and only if the credentials fail. When it is created, its owner is the user the credentials name. |
| `Views.PostGet` | server/app/views.py:61-63 | A post lookup answers 200 with the projection of the post with that id. |
| `Views.ToDoListGet` | server/app/views.py:67-69 | The to-do list answers 200 with every to-do's projection, in store order. |
| `Views.ToDoListPost` | server/app/views.py:71-78 | A rejected form answers 422 and changes nothing. Otherwise the new to-do stores the text and is_complete, and its status is 'Active' even when is_complete is true. It answers 201. |
| `Views.ToDoListDelete` | server/app/views.py:80-86 | Deleting the queried rows one at a time leaves exactly the incomplete rows in order. The answer is 201 with what is left. |
| `Views.ToDoGet` | server/app/views.py:90-92 | A to-do lookup answers 200 with the projection of the to-do with that id. |
| `Views.ToDoPut` | server/app/views.py:94-105 | is_complete is taken from the form. status is 'Completed' if and only if is_complete holds, and 'Active' otherwise. id, text and created_at are unchanged even though the form carries text. A rejected form leaves every row untouched. |
| `Views.ContactListGet` | server/app/views.py:109-111 | The contact list answers 200 with every contact's projection, in store order. |
| `Views.ContactListPost` | server/app/views.py:113-120 | A rejected form answers 422 and changes nothing. Otherwise a contact with the four submitted fields and a null icon_url is appended, answering 201. |
| `Views.ContactListDelete` | server/app/views.py:122-128 | Deleting the selected rows leaves exactly the unselected ones in order. The answer is 201 with what is left. |
| `Views.ContactGet` | server/app/views.py:132-134 | A contact lookup answers 200 with the projection of the contact with that id. |
| `Views.ContactPut` | server/app/views.py:136-145 | Only first_name, last_name and text change. is_selected, icon_url, id, created_at and the table are unchanged. A rejected form leaves every row untouched. |
| `Views.ContactDelete` | server/app/views.py:147-152 | Exactly the one row with that id is removed and the others keep their order. The answer is 200, not 201, with what is left. |

## Left out

- Routing (`api.add_resource`), Flask-RESTful's JSON encoding and HTTP Basic header parsing are framework behaviour. Handlers take their decoded inputs as parameters.
- The SQLAlchemy session, transactions and id/timestamp generation are database internals. A fresh id and the commit time are parameters of each create handler. The create handlers require that the id is not in use.
- WTForms validation is library behaviour. Its outcome is the `Form` input. The one consequence the model relies on comes from the wtforms_alchemy `ModelForm`, which has a session: its Unique validator rejects a taken email, so `Views.UserPost` requires an accepted email to be unused. That requirement keeps the unique-email invariant of the User table.
- bcrypt is the uninterpreted `Hasher` parameter. The random salt is not modelled, so equal passwords hash equally here.
- The 401 body of the auth gate is produced by the HTTP auth extension, which is not part of this model. `Views.GatedPostListPost` answers with the same empty-body 401 as login.
- Views.GatedPostListPost: states only that a 401 leaves the posts table unchanged and who owns a created post. Title, body and the response body are stated by `Views.PostListPost`, which it calls.
- GET of a missing id serializes `None`, and PUT or DELETE of a missing id raises on `None`. The GET, PUT and DELETE handlers require the id to be present. For PUT, the requirement applies only when the form is accepted, because validation runs before the lookup.
- The Project handlers (`ProjectListView.get` and `ProjectListView.post`, views.py:155-167) are left out. They use a form and a serializer that do not exist, and `post` calls the three-argument `Project.__init__` with two arguments. Only the Project record itself is modelled.
- `views.py` imports `ProjectCreateForm`, `ProjectUpdateForm` and `ProjectSerializer` at module level (views.py:6-8). Neither `forms.py` nor `serializers.py` defines them, so importing the module as written raises ImportError and registers no handler at all. The handlers are modelled on the assumption that those imports resolve.
- Store order is an assumption. `query.all()` has no `order_by`, and SQL promises no row order without one. The model takes the tables' order to be insertion order, and every "in store order" contract rests on that convention.
- Issue, Tag, Milestone, Effort and Column have no handlers, so only their constructors are modelled. They and Project have no id or created_at fields, because nothing in the modelled handlers inserts them.
- Column defaults behind a `None` argument are not modelled. These are Issue.column_id = 1, Tag.color = "ffffff", ToDo.is_complete = False and Contact.is_selected = False. `__init__` always assigns these fields. When the argument is `None`, SQLAlchemy leaves the column out of the INSERT and the default applies: `Tag("bug", None, None)` stores color "ffffff", and an Issue built with `column_id=None` stores column 1. The model's parameter types (`columnId: int`, `color: string`, `isComplete: bool`, `isSelected: bool`) exclude `None`, so the model has no such input. The modelled handlers never pass `None` here: the BooleanFields yield booleans, and nothing inserts an Issue or a Tag. Milestone.due_date (default `now()`) is the one such column the model types as `Option`: the constructor keeps a `None` due date as `None`, where an insert would store the current time. Nothing inserts a Milestone, so no handler reaches it. Milestone.status is never assigned, so its default 'Active' is what the row holds; the constructor models that value directly.
- String column lengths (`String(120)`, `String(80)`, `String(32)`) are not modelled; strings are unbounded.
- Foreign keys are plain integers. Dangling references and the `posts`/backref relationships are not modelled, except that a post's author is looked up by `user_id`.
- `__repr__` methods are debugging text and are not modelled.
- Datetimes are opaque `Timestamp` values; marshmallow's date formatting is not modelled.
