/**
 * The ORM records. Each constructor sets the attributes `__init__` sets; `id` and
 * `created_at` are left to the table's Insert, which plays the part of add-and-commit.
 * Two constructors also fix a column `__init__` leaves alone: Contact's nullable icon_url
 * is None and Milestone's status holds its default 'Active'. Nullable columns have type
 * Option, except Post.user_id, which `__init__` always sets from `g.user`, and the
 * `created_at` columns, which the database fills with `now()` at insert.
 */
module Models {
  import opened Wire

  /** bcrypt's generate_password_hash, left uninterpreted: any function from passwords to hashes. */
  type Hasher = string -> string

  /** bcrypt's check_password_hash: does `stored` hash the `candidate` password? */
  predicate CheckPasswordHash(hash: Hasher, stored: string, candidate: string)
  {
    stored == hash(candidate)
  }

  class User {
    var id: int
    var email: string
    var password: string  // the hash, never the plaintext

    constructor (email: string, password: string, hash: Hasher)
      ensures this.email == email
      ensures this.password == hash(password)
      ensures CheckPasswordHash(hash, this.password, password)
    {
      this.email := email;
      this.password := hash(password);
    }

    /** The attributes a serializer can read off the object. */
    function Attributes(): map<string, Json>
      reads this
    {
      map["id" := JInt(id), "email" := JStr(email), "password" := JStr(password)]
    }
  }

  class Post {
    var id: int
    var title: string
    var body: string
    var userId: int  // a nullable column, but __init__ always sets it
    var createdAt: Timestamp

    /** `current` is the authenticated user that `Post.__init__` reads from `g.user`. */
    constructor (title: string, body: string, current: User)
      ensures this.title == title && this.body == body
      ensures userId == current.id
    {
      this.title := title;
      this.body := body;
      this.userId := current.id;
    }

    function Attributes(): map<string, Json>
      reads this
    {
      map["id" := JInt(id), "title" := JStr(title), "body" := JStr(body),
          "user_id" := JInt(userId), "created_at" := JTime(createdAt)]
    }
  }

  /** The value the `status` column takes when nothing else is written (ToDo, Milestone). */
  const DefaultStatus: string := "Active"

  class ToDo {
    var id: int
    var text: string
    var isComplete: bool
    var status: string
    var createdAt: Timestamp

    constructor (text: string, isComplete: bool, status: string)
      ensures this.text == text && this.isComplete == isComplete && this.status == status
    {
      this.text := text;
      this.isComplete := isComplete;
      this.status := status;
    }

    function Attributes(): map<string, Json>
      reads this
    {
      map["id" := JInt(id), "text" := JStr(text), "is_complete" := JBool(isComplete),
          "status" := JStr(status), "created_at" := JTime(createdAt)]
    }
  }

  class Contact {
    var id: int
    var firstName: string
    var lastName: string
    var text: string
    var iconUrl: Option<string>
    var isSelected: bool
    var createdAt: Timestamp

    constructor (text: string, firstName: string, lastName: string, isSelected: bool)
      ensures this.text == text && this.firstName == firstName && this.lastName == lastName
      ensures this.isSelected == isSelected
      ensures iconUrl == None
    {
      this.text := text;
      this.firstName := firstName;
      this.lastName := lastName;
      this.isSelected := isSelected;
      this.iconUrl := None;
    }

    function Attributes(): map<string, Json>
      reads this
    {
      map["id" := JInt(id), "first_name" := JStr(firstName), "last_name" := JStr(lastName),
          "text" := JStr(text), "icon_url" := JNullable(iconUrl),
          "is_selected" := JBool(isSelected), "created_at" := JTime(createdAt)]
    }
  }

  /** A project; `userId` is a non-null foreign key into the Contact table. */
  class Project {
    var name: string
    var description: Option<string>
    var userId: int

    constructor (name: string, description: Option<string>, userId: int)
      ensures this.name == name && this.description == description && this.userId == userId
    {
      this.name := name;
      this.description := description;
      this.userId := userId;
    }
  }

  /** An issue: project and column are required references, the other four optional. */
  class Issue {
    var title: string
    var description: Option<string>
    var projectId: int
    var columnId: int
    var tagId: Option<int>
    var milestoneId: Option<int>
    var effortId: Option<int>
    var assignedToId: Option<int>

    constructor (title: string, description: Option<string>, projectId: int, columnId: int,
                 tagId: Option<int>, milestoneId: Option<int>, effortId: Option<int>,
                 assignedToId: Option<int>)
      ensures this.title == title && this.description == description
      ensures this.projectId == projectId && this.columnId == columnId
      ensures this.tagId == tagId && this.milestoneId == milestoneId
      ensures this.effortId == effortId && this.assignedToId == assignedToId
    {
      this.title := title;
      this.description := description;
      this.projectId := projectId;
      this.columnId := columnId;
      this.tagId := tagId;
      this.milestoneId := milestoneId;
      this.effortId := effortId;
      this.assignedToId := assignedToId;
    }
  }

  class Tag {
    var name: string
    var description: Option<string>
    var color: string

    constructor (name: string, description: Option<string>, color: string)
      ensures this.name == name && this.description == description && this.color == color
    {
      this.name := name;
      this.description := description;
      this.color := color;
    }
  }

  /**
   * A milestone. The constructor writes its `status` argument to a stray attribute `stats`,
   * so the `status` column keeps its default.
   */
  class Milestone {
    var name: string
    var description: Option<string>
    var dueDate: Option<Timestamp>
    var status: string
    var stats: string  // not a column: the misspelt target of the status argument

    constructor (name: string, description: Option<string>, dueDate: Option<Timestamp>, status: string)
      ensures this.name == name && this.description == description && this.dueDate == dueDate
      ensures this.status == DefaultStatus
      ensures this.stats == status
    {
      this.name := name;
      this.description := description;
      this.dueDate := dueDate;
      this.stats := status;
      this.status := DefaultStatus;
    }
  }

  class Effort {
    var name: string
    var description: Option<string>

    constructor (name: string, description: Option<string>)
      ensures this.name == name && this.description == description
    {
      this.name := name;
      this.description := description;
    }
  }

  class Column {
    var name: string
    var description: Option<string>

    constructor (name: string, description: Option<string>)
      ensures this.name == name && this.description == description
    {
      this.name := name;
      this.description := description;
    }
  }
}
