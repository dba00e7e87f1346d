/** The task record, the one entity of the system. */
module Tasks {
  import opened Wrappers

  /** A point in time. The handlers read the clock (`new Date()`); here the
      reading is an input, and only equality and order of readings matter. */
  type Timestamp = nat

  /** The opaque identifier `randomUUID` hands out. */
  type Id = string

  /** One stored task. `description` is `None` when the body left it out;
      `completedAt` is `None` while the task is incomplete (`null`). */
  datatype Task = Task(
    id: Id,
    title: string,
    description: Option<string>,
    completedAt: Option<Timestamp>,
    createdAt: Timestamp,
    updatedAt: Timestamp)
}
