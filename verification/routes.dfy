/**
 * The five handlers of the task resource, acting on the shared "tasks"
 * table. Each handler receives the request inputs it reads (query, path id,
 * body) and, where it reads them, the clock reading and the freshly
 * generated id; it answers with a status code and may change the table.
 */
module Routes {
  import opened Wrappers
  import opened Text
  import opened Tasks
  import Store
  import opened Validation

  const StatusOk: nat := 200
  const StatusCreated: nat := 201
  const StatusNoContent: nat := 204
  const StatusBadRequest: nat := 400
  const StatusNotFound: nat := 404

  /** The filter GET passes to the listing: none for a missing or empty
      `search`, otherwise the same term for both `title` and `description`. */
  function SearchFilter(search: Option<string>): (f: Option<map<string, string>>)
    ensures f.None? <==> search.None? || search.value == ""
    ensures f.Some? ==> f.value.Keys == {"title", "description"}
    ensures f.Some? ==> f.value["title"] == f.value["description"] == search.value
  {
    if search.Some? && search.value != "" then
      Some(map["title" := search.value, "description" := search.value])
    else
      None
  }

  /** The new `completed_at` of PATCH: "now" for an incomplete task, no value
      for a completed one. */
  function Toggle(completedAt: Option<Timestamp>, now: Timestamp): (r: Option<Timestamp>)
    ensures r.None? <==> completedAt.Some?
    ensures r.Some? ==> r.value == now
  {
    if completedAt.None? then Some(now) else None
  }

  /** Completing twice brings an incomplete task back to incomplete, and a
      completed one back to completed at the second reading of the clock. */
  lemma ToggleTwice(completedAt: Option<Timestamp>, first: Timestamp, second: Timestamp)
    ensures completedAt.None? ==> Toggle(Toggle(completedAt, first), second) == None
    ensures completedAt.Some? ==> Toggle(Toggle(completedAt, first), second) == Some(second)
  {
  }

  /** The "tasks" table together with its handlers. */
  class TaskRoutes {
    var tasks: seq<Task>

    /** Ids are unique and every stored title passed the body rule. */
    ghost predicate Valid()
      reads this
    {
      Store.UniqueIds(tasks) && forall i :: 0 <= i < |tasks| ==> TitleOk(tasks[i].title)
    }

    /** An empty table. */
    constructor ()
      ensures Valid() && tasks == []
    {
      tasks := [];
    }

    /** GET /tasks: always 200, with the listing for the filter built from `search`. */
    method List(search: Option<string>, matches: (Task, map<string, string>) -> bool)
      returns (status: nat, listed: seq<Task>)
      ensures status == StatusOk
      ensures listed == Store.Select(tasks, SearchFilter(search), matches)
      ensures search.None? || search == Some("") ==> listed == tasks
      ensures forall t :: t in listed ==> t in tasks
    {
      listed := Store.Select(tasks, SearchFilter(search), matches);
      status := StatusOk;
    }

    /** POST /tasks. An invalid body gives 400 and no change. A valid one gives
        201 and appends one incomplete task with the fresh id, the trimmed
        title, the given description and both timestamps equal to `now`. */
    method Create(body: Body, freshId: Id, now: Timestamp) returns (status: nat)
      requires Valid()
      requires freshId !in Store.Ids(tasks)
      modifies this
      ensures Valid()
      ensures Validate(body).None? ==> status == StatusBadRequest && tasks == old(tasks)
      ensures Validate(body).Some? ==>
        && status == StatusCreated
        && |tasks| == |old(tasks)| + 1
        && tasks[..|old(tasks)|] == old(tasks)
        && var t := tasks[|old(tasks)|];
           && t.id == freshId
           && t.title == Trim(body.title.s)
           && t.description == Validate(body).value.description
           && t.completedAt == None
           && t.createdAt == t.updatedAt == now
    {
      var input := Validate(body);
      if input.None? {
        return StatusBadRequest;
      }
      var task := Task(freshId, input.value.title, input.value.description, None, now, now);
      tasks := Store.Insert(tasks, task);
      status := StatusCreated;
    }

    /** PUT /tasks/:id. An unknown id gives 404 whatever the body; a known id
        with an invalid body gives 400; neither changes the table. Otherwise
        204, and only the task's title, description (dropped when the body
        has none) and `updated_at` change. */
    method Replace(id: Id, body: Body, now: Timestamp) returns (status: nat)
      requires Valid()
      modifies this
      ensures Valid()
      ensures id !in Store.Ids(old(tasks)) ==> status == StatusNotFound && tasks == old(tasks)
      ensures id in Store.Ids(old(tasks)) && Validate(body).None? ==>
        status == StatusBadRequest && tasks == old(tasks)
      ensures id in Store.Ids(old(tasks)) && Validate(body).Some? ==>
        && status == StatusNoContent
        && |tasks| == |old(tasks)|
        && forall i :: 0 <= i < |tasks| ==>
             tasks[i] == if old(tasks)[i].id == id
                         then old(tasks)[i].(title := Trim(body.title.s),
                                             description := Validate(body).value.description,
                                             updatedAt := now)
                         else old(tasks)[i]
    {
      var task := Store.FindById(tasks, id);
      if task.None? {
        return StatusNotFound;
      }
      var input := Validate(body);
      if input.None? {
        return StatusBadRequest;
      }
      tasks := Store.Update(tasks, id,
        Store.Changes(Some(input.value.title), Some(input.value.description), None, Some(now)));
      status := StatusNoContent;
    }

    /** DELETE /tasks/:id. An unknown id gives 404 and no change; otherwise
        204, and exactly that task is gone, the others kept in order. */
    method Remove(id: Id) returns (status: nat)
      requires Valid()
      modifies this
      ensures Valid()
      ensures id !in Store.Ids(old(tasks)) ==> status == StatusNotFound && tasks == old(tasks)
      ensures id in Store.Ids(old(tasks)) ==>
        && status == StatusNoContent
        && tasks == Store.Without(old(tasks), id)
        && |tasks| == |old(tasks)| - 1
        && Store.Ids(tasks) == Store.Ids(old(tasks)) - {id}
    {
      var task := Store.FindById(tasks, id);
      if task.None? {
        return StatusNotFound;
      }
      Store.DeleteIsWithout(tasks, id);
      tasks := Store.Delete(tasks, id);
      status := StatusNoContent;
    }

    /** PATCH /tasks/:id/complete. An unknown id gives 404 and no change;
        otherwise 204, and only the task's `completed_at` (toggled) and
        `updated_at` (set to `now`) change. */
    method ToggleComplete(id: Id, now: Timestamp) returns (status: nat)
      requires Valid()
      modifies this
      ensures Valid()
      ensures id !in Store.Ids(old(tasks)) ==> status == StatusNotFound && tasks == old(tasks)
      ensures id in Store.Ids(old(tasks)) ==>
        && status == StatusNoContent
        && |tasks| == |old(tasks)|
        && forall i :: 0 <= i < |tasks| ==>
             tasks[i] == if old(tasks)[i].id == id
                         then old(tasks)[i].(completedAt := Toggle(old(tasks)[i].completedAt, now),
                                             updatedAt := now)
                         else old(tasks)[i]
    {
      var task := Store.FindById(tasks, id);
      if task.None? {
        return StatusNotFound;
      }
      var isCompletingTask := task.value.completedAt.None?;
      tasks := Store.Update(tasks, id,
        Store.Changes(None, None, Some(if isCompletingTask then Some(now) else None), Some(now)));
      status := StatusNoContent;
    }
  }
}

/**
 * A client of the handlers: one task's whole life, from creation through two
 * completions to removal, followed by a removal of the same id that is no
 * longer there. The listing's match rule is left open; only unfiltered
 * listings are requested.
 */
module Scenario {
  import opened Wrappers
  import opened Tasks
  import opened Validation
  import opened Text
  import opened Routes

  method BuyMilk(id: Id, t1: Timestamp, t2: Timestamp, t3: Timestamp,
                 matches: (Task, map<string, string>) -> bool)
    returns (statuses: seq<nat>, first: seq<Task>, completed: seq<Task>, reopened: seq<Task>, last: seq<Task>)
    ensures statuses == [StatusCreated, StatusOk, StatusNoContent, StatusOk, StatusNoContent, StatusOk,
                         StatusNoContent, StatusOk, StatusNotFound]
    ensures first == [Task(id, "Buy milk", None, None, t1, t1)]
    ensures completed == [Task(id, "Buy milk", None, Some(t2), t1, t2)]
    ensures reopened == [Task(id, "Buy milk", None, None, t1, t3)]
    ensures last == []
  {
    var routes := new TaskRoutes();
    var title := "Buy milk";
    assert title[0] == 'B' && title[|title| - 1] == 'k';
    assert !IsSpace(title[0]) && !AllSpace(title);
    assert Trim(title) == title;
    var body := Object(Str(title), Missing);
    assert Validate(body) == Some(TaskInput(title, None));
    var created := routes.Create(body, id, t1);
    assert routes.tasks == [Task(id, title, None, None, t1, t1)];
    assert routes.tasks[0] in routes.tasks;
    var listing;
    listing, first := routes.List(None, matches);
    var done := routes.ToggleComplete(id, t2);
    assert routes.tasks == [Task(id, title, None, Some(t2), t1, t2)];
    assert routes.tasks[0] in routes.tasks;
    var listingCompleted;
    listingCompleted, completed := routes.List(Some(""), matches);
    var undone := routes.ToggleComplete(id, t3);
    assert routes.tasks == [Task(id, title, None, None, t1, t3)];
    assert routes.tasks[0] in routes.tasks;
    var listingReopened;
    listingReopened, reopened := routes.List(None, matches);
    var removed := routes.Remove(id);
    assert routes.tasks == [];
    var listingLast;
    listingLast, last := routes.List(None, matches);
    var again := routes.Remove(id);
    statuses := [created, listing, done, listingCompleted, undone, listingReopened, removed, listingLast, again];
  }
}
