/** The data a submitted form yields once its validators have run. */
module Forms {
  import opened Wire

  /** A validated submission: the coerced field values, or the validators' complaints. */
  datatype Form<T> = Accepted(data: T) | Rejected(errors: Errors)

  datatype UserCreate = UserCreate(email: string, password: string)
  datatype SessionCreate = SessionCreate(email: string, password: string)
  datatype PostCreate = PostCreate(title: string, body: string)
  datatype ToDoCreate = ToDoCreate(text: string, isComplete: bool)
  /** ToDoCompleteForm also carries `text`; the handler ignores it. */
  datatype ToDoComplete = ToDoComplete(text: string, isComplete: bool)
  datatype ContactCreate = ContactCreate(text: string, firstName: string, lastName: string, isSelected: bool)
  datatype ContactUpdate = ContactUpdate(firstName: string, lastName: string, text: string)

  /** HTTP Basic credentials as the auth gate receives them. */
  datatype Credentials = Credentials(email: string, password: string)
}
