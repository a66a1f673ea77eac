/** Result shapes shared by the post store and the user store. */
module Common {

  datatype Option<+T> = None | Some(value: T)

  /** What a write to one of the two tables comes to.
      Conflict stands for SQLAlchemy's IntegrityError on a UNIQUE column;
      NotFound for a primary key that names no row. */
  datatype Status = Done | Conflict | NotFound
}
