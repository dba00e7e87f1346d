/**
 * The "tasks" table of the in-process database, as the handlers use it: an
 * ordered sequence of task records with lookup by id, append, shallow update
 * by id, removal by id and a filtered listing. Persistence to disk is not
 * modelled.
 */
module Store {
  import opened Wrappers
  import opened Tasks

  /** The ids present in a table. */
  function Ids(s: seq<Task>): set<Id> {
    set t | t in s :: t.id
  }

  /** No two records share an id. */
  predicate UniqueIds(s: seq<Task>) {
    forall i, j :: 0 <= i < j < |s| ==> s[i].id != s[j].id
  }

  /** Position of the first record with the given id, or -1 (`findIndex`). */
  function FindIndex(s: seq<Task>, id: Id): (k: int)
    ensures -1 <= k < |s|
    ensures k == -1 <==> id !in Ids(s)
    ensures k >= 0 ==> s[k].id == id && forall j :: 0 <= j < k ==> s[j].id != id
  {
    if s == [] then -1
    else if s[0].id == id then 0
    else
      var k := FindIndex(s[1..], id);
      assert Ids(s) == {s[0].id} + Ids(s[1..]) by {
        assert s == [s[0]] + s[1..];
      }
      if k == -1 then -1 else k + 1
  }

  /** The record with the given id, if any (`findById`). */
  function FindById(s: seq<Task>, id: Id): (r: Option<Task>)
    ensures r.Some? <==> id in Ids(s)
    ensures r.Some? ==> r.value in s && r.value.id == id
  {
    var k := FindIndex(s, id);
    if k < 0 then None else Some(s[k])
  }

  /** Appends a record (`insert`). A record whose id is new keeps the ids unique. */
  function Insert(s: seq<Task>, t: Task): (r: seq<Task>)
    ensures Ids(r) == Ids(s) + {t.id}
    ensures UniqueIds(s) && t.id !in Ids(s) ==> UniqueIds(r)
    ensures |r| == |s| + 1 && r[..|s|] == s && r[|s|] == t
  {
    var r := s + [t];
    assert forall u :: u in r <==> u in s || u == t;
    r
  }

  /** The fields a call to `update` supplies. A present component overwrites
      the record's field, an absent one keeps it; `description` and
      `completedAt` can be overwritten with "no value". The id is never among
      them. */
  datatype Changes = Changes(
    title: Option<string>,
    description: Option<Option<string>>,
    completedAt: Option<Option<Timestamp>>,
    updatedAt: Option<Timestamp>)

  /** Shallow field overwrite of `t` by `c`: every supplied field is written,
      every other field, the id and the creation time are kept. */
  function Merge(t: Task, c: Changes): (r: Task)
    ensures r.id == t.id && r.createdAt == t.createdAt
    ensures c.title.Some? ==> r.title == c.title.value
    ensures c.description.Some? ==> r.description == c.description.value
    ensures c.completedAt.Some? ==> r.completedAt == c.completedAt.value
    ensures c.updatedAt.Some? ==> r.updatedAt == c.updatedAt.value
    ensures c.title.None? ==> r.title == t.title
    ensures c.description.None? ==> r.description == t.description
    ensures c.completedAt.None? ==> r.completedAt == t.completedAt
    ensures c.updatedAt.None? ==> r.updatedAt == t.updatedAt
  {
    t.(title := if c.title.Some? then c.title.value else t.title,
       description := if c.description.Some? then c.description.value else t.description,
       completedAt := if c.completedAt.Some? then c.completedAt.value else t.completedAt,
       updatedAt := if c.updatedAt.Some? then c.updatedAt.value else t.updatedAt)
  }

  /** Merges `c` into the record with id `id`; no-op when there is none
      (`update`). Ids, order and every other record are kept. */
  function Update(s: seq<Task>, id: Id, c: Changes): (r: seq<Task>)
    ensures |r| == |s|
    ensures forall i :: 0 <= i < |s| ==> r[i].id == s[i].id
    ensures Ids(r) == Ids(s)
    ensures UniqueIds(s) ==> UniqueIds(r)
    ensures UniqueIds(s) ==>
      forall i :: 0 <= i < |s| ==> r[i] == if s[i].id == id then Merge(s[i], c) else s[i]
  {
    var k := FindIndex(s, id);
    var r := if k < 0 then s else s[k := Merge(s[k], c)];
    assert forall i :: 0 <= i < |s| ==> r[i].id == s[i].id;
    assert Ids(r) == Ids(s) by {
      forall x | x in Ids(s) ensures x in Ids(r) {
        var u :| u in s && u.id == x;
        var i :| 0 <= i < |s| && s[i] == u;
        assert r[i].id == x;
      }
      forall x | x in Ids(r) ensures x in Ids(s) {
        var u :| u in r && u.id == x;
        var i :| 0 <= i < |r| && r[i] == u;
        assert s[i].id == x;
      }
    }
    r
  }

  /** Removes the first record with id `id`, if any (`delete`). */
  function Delete(s: seq<Task>, id: Id): (r: seq<Task>)
    ensures id !in Ids(s) ==> r == s
    ensures id in Ids(s) ==> |r| == |s| - 1
  {
    var k := FindIndex(s, id);
    if k < 0 then s else s[..k] + s[k + 1..]
  }

  /** Reference definition of removal by id: the records whose id differs,
      in their original order. */
  function Without(s: seq<Task>, id: Id): (r: seq<Task>)
    ensures forall t :: t in r <==> t in s && t.id != id
    ensures |r| <= |s|
  {
    if s == [] then []
    else
      var rest := Without(s[1..], id);
      assert forall t :: t in s <==> t == s[0] || t in s[1..] by {
        assert s == [s[0]] + s[1..];
      }
      if s[0].id == id then rest else [s[0]] + rest
  }

  /** Removing an id that is not there changes nothing. */
  lemma {:induction false} WithoutAbsent(s: seq<Task>, id: Id)
    requires id !in Ids(s)
    ensures Without(s, id) == s
  {
    if s != [] {
      assert s[0] in s;
      assert Ids(s[1..]) <= Ids(s) by {
        forall x | x in Ids(s[1..]) ensures x in Ids(s) {
          var u :| u in s[1..] && u.id == x;
          assert u in s;
        }
      }
      WithoutAbsent(s[1..], id);
    }
  }

  /** With unique ids, `delete` removes exactly the record with that id and
      keeps all the others in their order. */
  lemma {:induction false} DeleteIsWithout(s: seq<Task>, id: Id)
    requires UniqueIds(s)
    ensures Delete(s, id) == Without(s, id)
  {
    if s != [] {
      var tail := s[1..];
      TailFacts(s);
      if s[0].id == id {
        WithoutAbsent(tail, id);
        assert FindIndex(s, id) == 0;
        assert Delete(s, id) == tail;
      } else {
        DeleteIsWithout(tail, id);
        DeleteCons(s, id);
      }
    }
  }

  /** The tail of a table with unique ids has unique ids and lacks the head's id. */
  lemma {:induction false} TailFacts(s: seq<Task>)
    requires s != [] && UniqueIds(s)
    ensures UniqueIds(s[1..]) && s[0].id !in Ids(s[1..])
  {
    var tail := s[1..];
    forall u | u in tail ensures u.id != s[0].id {
      var j :| 0 <= j < |tail| && tail[j] == u;
      assert u == s[j + 1];
    }
  }

  /** `delete` on a table whose head keeps its id deletes from the tail. */
  lemma {:induction false} DeleteCons(s: seq<Task>, id: Id)
    requires s != [] && s[0].id != id
    ensures Delete(s, id) == [s[0]] + Delete(s[1..], id)
  {
    var tail := s[1..];
    var k := FindIndex(s, id);
    if k < 0 {
      assert FindIndex(tail, id) < 0;
      assert s == [s[0]] + tail;
    } else {
      assert FindIndex(tail, id) == k - 1;
      assert s[..k] + s[k + 1..] == [s[0]] + (tail[..k - 1] + tail[k..]);
    }
  }

  /** Records that satisfy the filter `q` under the match rule `matches`, in order. */
  function Keep(s: seq<Task>, q: map<string, string>, matches: (Task, map<string, string>) -> bool): (r: seq<Task>)
    ensures forall t :: t in r <==> t in s && matches(t, q)
    ensures |r| <= |s|
  {
    if s == [] then []
    else
      var rest := Keep(s[1..], q, matches);
      assert forall t :: t in s <==> t == s[0] || t in s[1..] by {
        assert s == [s[0]] + s[1..];
      }
      if matches(s[0], q) then [s[0]] + rest else rest
  }

  /** The listing (`select`): the whole table without a filter, otherwise the
      records the filter accepts, in table order. How a record is matched
      against a filter belongs to the database and is taken as a parameter. */
  function Select(s: seq<Task>, filter: Option<map<string, string>>, matches: (Task, map<string, string>) -> bool): (r: seq<Task>)
    ensures filter.None? ==> r == s
    ensures filter.Some? ==> forall t :: t in r <==> t in s && matches(t, filter.value)
  {
    match filter
    case None => s
    case Some(q) => Keep(s, q, matches)
  }

  /** The filtered listing keeps table order: listing a concatenation lists
      each part in turn. */
  lemma {:induction false} KeepAppend(a: seq<Task>, b: seq<Task>, q: map<string, string>, matches: (Task, map<string, string>) -> bool)
    ensures Keep(a + b, q, matches) == Keep(a, q, matches) + Keep(b, q, matches)
  {
    if a == [] {
      assert a + b == b;
    } else {
      var ab := a + b;
      assert ab[0] == a[0] && ab[1..] == a[1..] + b;
      KeepAppend(a[1..], b, q, matches);
      var head := if matches(a[0], q) then [a[0]] else [];
      assert Keep(ab, q, matches) == head + Keep(ab[1..], q, matches);
      assert Keep(a, q, matches) == head + Keep(a[1..], q, matches);
    }
  }
}
