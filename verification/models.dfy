/** The records of src/models/User.ts and src/models/Task.ts. */
module Models {
  import opened Wrappers

  /** A JavaScript `Date`: milliseconds since the epoch, ordered as numbers. */
  type Timestamp = int

  /** `User`: the shape every user operation returns; `_id` is optional in the interface. */
  datatype User = User(
    id: Option<string>,
    email: string,
    password: string,
    name: string,
    createdAt: Timestamp,
    updatedAt: Timestamp)

  datatype LoginInput = LoginInput(email: string, password: string)

  datatype RegisterInput = RegisterInput(email: string, password: string, name: string)

  datatype AuthPayload = AuthPayload(token: string, user: User)

  /** `Task`: the shape every task operation returns; `_id` and `description` are optional. */
  datatype Task = Task(
    id: Option<string>,
    title: string,
    description: Option<string>,
    completed: bool,
    createdAt: Timestamp,
    updatedAt: Timestamp)

  datatype CreateTaskInput = CreateTaskInput(title: string, description: Option<string>)
}
