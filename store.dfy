/**
 The todo table and the five REST handlers of backend/app.py over it:
 get_todos (List), get_todo (Get), create_todo (Create), update_todo (Update)
 and delete_todo (Delete).
 */
module Store {
  import opened Json
  import opened Text
  import opened Requests

  /** What a handler answers. */
  datatype Reply =
    | Ok(todo: Todo)                        // 200 with one record
    | Listed(items: seq<Todo>, count: nat)  // 200 with every record and their number
    | Created(todo: Todo)                   // 201 with the new record
    | Deleted                               // 200 with a message only
    | BadRequest(reason: Reason)            // 400
    | NotFound                              // 404

  /** The HTTP status code of each reply. */
  function Status(r: Reply): int {
    match r
    case Ok(_) => 200
    case Listed(_, _) => 200
    case Created(_) => 201
    case Deleted => 200
    case BadRequest(_) => 400
    case NotFound => 404
  }

  /** The status tells the outcome apart: 201 only for a creation, 400 only for
      a refused body, 404 only for a missing id, and 200 for the rest. */
  lemma StatusOfReply(r: Reply)
    ensures Status(r) == 201 <==> r.Created?
    ensures Status(r) == 400 <==> r.BadRequest?
    ensures Status(r) == 404 <==> r.NotFound?
    ensures Status(r) == 200 <==> r.Ok? || r.Listed? || r.Deleted?
  {
  }

  /** The ids of `ids` are all stored in `m`, oldest first: creation times
      strictly increase along the sequence. */
  ghost predicate Chronological(m: map<int, Todo>, ids: seq<int>) {
    && (forall i :: 0 <= i < |ids| ==> ids[i] in m)
    && (forall i, j :: 0 <= i < j < |ids| ==> m[ids[i]].createdAt < m[ids[j]].createdAt)
  }

  /** No id occurs twice in `ids`. */
  ghost predicate Distinct(ids: seq<int>) {
    forall i, j :: 0 <= i < j < |ids| ==> ids[i] != ids[j]
  }

  /** The records of `ids`, last id first. */
  function NewestFirst(m: map<int, Todo>, ids: seq<int>): (r: seq<Todo>)
    requires forall i :: 0 <= i < |ids| ==> ids[i] in m
    ensures |r| == |ids|
    ensures forall i :: 0 <= i < |ids| ==> r[i] == m[ids[|ids| - 1 - i]]
  {
    if ids == [] then []
    else [m[ids[|ids| - 1]]] + NewestFirst(m, ids[..|ids| - 1])
  }

  /** `ids` with every occurrence of `x` taken out, the rest in the same order. */
  function Without(ids: seq<int>, x: int): (r: seq<int>)
    ensures forall y :: y in r <==> y in ids && y != x
  {
    if ids == [] then []
    else (if ids[0] == x then [] else [ids[0]]) + Without(ids[1..], x)
  }

  /** A sequence of distinct ids is as long as the set of ids it holds. */
  lemma {:induction false} DistinctCount(ids: seq<int>, keys: set<int>)
    requires Distinct(ids)
    requires forall k :: k in keys <==> k in ids
    ensures |keys| == |ids|
  {
    if ids == [] {
      var none: set<int> := {};
      assert forall k :: k in keys <==> k in none;
      assert keys == none;
    } else {
      var rest := ids[1..];
      assert forall k :: k in keys - {ids[0]} <==> k in rest by {
        forall k ensures k in keys - {ids[0]} <==> k in rest {
          if k in rest {
            var j :| 0 <= j < |rest| && rest[j] == k;
            assert ids[j + 1] == k;
          }
          if k in ids && k != ids[0] {
            var j :| 0 <= j < |ids| && ids[j] == k;
            assert rest[j - 1] == k;
          }
        }
      }
      DistinctCount(rest, keys - {ids[0]});
      assert keys == (keys - {ids[0]}) + {ids[0]};
    }
  }

  /** Deleting a record keeps the remaining ids in creation order. */
  lemma {:induction false} WithoutKeepsOrder(m: map<int, Todo>, ids: seq<int>, x: int)
    requires Chronological(m, ids)
    ensures Chronological(m - {x}, Without(ids, x))
  {
    if ids != [] {
      var rest := ids[1..];
      assert Chronological(m, rest) by {
        forall i, j | 0 <= i < j < |rest| ensures m[rest[i]].createdAt < m[rest[j]].createdAt {
          assert rest[i] == ids[i + 1] && rest[j] == ids[j + 1];
        }
      }
      WithoutKeepsOrder(m, rest, x);
      if ids[0] != x {
        var w := Without(rest, x);
        assert Without(ids, x) == [ids[0]] + w;
        forall y | y in w ensures m[ids[0]].createdAt < m[y].createdAt {
          var j :| 0 <= j < |rest| && rest[j] == y;
          assert ids[j + 1] == y;
        }
      }
    }
  }

  /** Storing a new record `t` and appending its id puts it at the head of the
      newest-first listing and leaves the rest of the listing as it was. */
  lemma NewestFirstAppend(m: map<int, Todo>, ids: seq<int>, t: Todo)
    requires forall i :: 0 <= i < |ids| ==> ids[i] in m
    requires t.id !in m
    ensures NewestFirst(m[t.id := t], ids + [t.id]) == [t] + NewestFirst(m, ids)
  {
    var m', ids' := m[t.id := t], ids + [t.id];
    var after, before := NewestFirst(m', ids'), NewestFirst(m, ids);
    forall i | 0 <= i < |after| ensures after[i] == ([t] + before)[i] {
      if i > 0 {
        assert ids'[|ids'| - 1 - i] == ids[|ids| - 1 - (i - 1)];
      }
    }
  }

  /** The table's invariant: every stored record is under its own id, is well
      formed, was created before clock tick `clock` and has an id below
      `nextId`; `order` lists exactly the stored ids, oldest first. */
  ghost predicate TableInvariant(todos: map<int, Todo>, order: seq<int>, clock: nat, nextId: int) {
    && Chronological(todos, order)
    && (forall id :: id in todos ==> id in order)
    && (forall id :: id in todos ==>
          todos[id].id == id && WellFormed(todos[id]) && todos[id].createdAt < clock && id < nextId)
  }

  /** Inserting a well-formed record with id `nextId` at time `clock`, and
      advancing both, keeps the invariant. */
  lemma InsertKeepsInvariant(todos: map<int, Todo>, order: seq<int>, clock: nat, nextId: int, t: Todo)
    requires TableInvariant(todos, order, clock, nextId)
    requires t.id == nextId && t.createdAt == clock && WellFormed(t)
    ensures t.id !in todos
    ensures forall id :: id in todos ==> todos[id].createdAt < t.createdAt
    ensures TableInvariant(todos[t.id := t], order + [t.id], clock + 1, nextId + 1)
  {
    var m, o := todos[t.id := t], order + [t.id];
    forall i | 0 <= i < |o| ensures o[i] in m {
      if i < |order| { assert o[i] == order[i]; }
    }
    forall i, j | 0 <= i < j < |o| ensures m[o[i]].createdAt < m[o[j]].createdAt {
      assert o[i] == order[i];
      if j < |order| { assert o[j] == order[j]; }
    }
  }

  /** Under the table's invariant the newest-first listing holds every stored
      record once, each under its own id, in strictly decreasing creation
      time. */
  lemma NewestFirstListsTable(todos: map<int, Todo>, order: seq<int>, clock: nat, nextId: int)
    requires TableInvariant(todos, order, clock, nextId)
    ensures |NewestFirst(todos, order)| == |todos|
    ensures forall id :: id in todos ==> todos[id] in NewestFirst(todos, order)
    ensures forall t :: t in NewestFirst(todos, order) ==> t.id in todos && todos[t.id] == t
    ensures forall i, j :: 0 <= i < j < |NewestFirst(todos, order)| ==>
              NewestFirst(todos, order)[i].createdAt > NewestFirst(todos, order)[j].createdAt
  {
    ChronologicalIsDistinct(todos, order);
    DistinctCount(order, todos.Keys);
    NewestFirstCovers(todos, order);
    NewestFirstDescending(todos, order);
    NewestFirstKeyed(todos, order);
  }

  /** When every record is stored under its own id, each listed record is the
      one stored under its id. */
  lemma NewestFirstKeyed(m: map<int, Todo>, ids: seq<int>)
    requires forall i :: 0 <= i < |ids| ==> ids[i] in m
    requires forall id :: id in m ==> m[id].id == id
    ensures forall t :: t in NewestFirst(m, ids) ==> t.id in m && m[t.id] == t
  {
    var items := NewestFirst(m, ids);
    forall t | t in items ensures t.id in m && m[t.id] == t {
      var k :| 0 <= k < |items| && items[k] == t;
      var id := ids[|ids| - 1 - k];
      assert t == m[id] && m[id].id == id;
    }
  }

  /** Every record whose id is in `ids` is in the listing. */
  lemma NewestFirstCovers(m: map<int, Todo>, ids: seq<int>)
    requires forall i :: 0 <= i < |ids| ==> ids[i] in m
    ensures forall id :: id in ids ==> m[id] in NewestFirst(m, ids)
  {
    var items := NewestFirst(m, ids);
    forall id | id in ids ensures m[id] in items {
      var j :| 0 <= j < |ids| && ids[j] == id;
      assert items[|ids| - 1 - j] == m[id];
    }
  }

  /** Ids in creation order give a listing in decreasing creation time. */
  lemma NewestFirstDescending(m: map<int, Todo>, ids: seq<int>)
    requires Chronological(m, ids)
    ensures forall i, j :: 0 <= i < j < |NewestFirst(m, ids)| ==>
              NewestFirst(m, ids)[i].createdAt > NewestFirst(m, ids)[j].createdAt
  {
    var items := NewestFirst(m, ids);
    forall i, j | 0 <= i < j < |items| ensures items[i].createdAt > items[j].createdAt {
      assert items[i] == m[ids[|ids| - 1 - i]];
      assert items[j] == m[ids[|ids| - 1 - j]];
    }
  }

  /** Replacing a stored record by a well-formed one with the same id and
      creation time keeps the invariant. */
  lemma ReplaceKeepsInvariant(todos: map<int, Todo>, order: seq<int>, clock: nat, nextId: int, t: Todo)
    requires TableInvariant(todos, order, clock, nextId)
    requires t.id in todos && todos[t.id].createdAt == t.createdAt && WellFormed(t)
    ensures TableInvariant(todos[t.id := t], order, clock, nextId)
  {
    var m := todos[t.id := t];
    forall i, j | 0 <= i < j < |order| ensures m[order[i]].createdAt < m[order[j]].createdAt {
      assert m[order[i]].createdAt == todos[order[i]].createdAt;
      assert m[order[j]].createdAt == todos[order[j]].createdAt;
    }
  }

  /** Strictly increasing creation times make the ids distinct. */
  lemma ChronologicalIsDistinct(m: map<int, Todo>, ids: seq<int>)
    requires Chronological(m, ids)
    ensures Distinct(ids)
  {
  }

  /** The todo table: records keyed by id, plus the bookkeeping the database does
      behind the ORM: live ids in creation order, a logical clock standing for
      the creation timestamp, and the next id the table will hand out. */
  class TodoStore {
    var todos: map<int, Todo>
    var order: seq<int>
    var clock: nat
    var nextId: int

    /** The table's invariant, on the current state. */
    ghost predicate Valid()
      reads this
    {
      TableInvariant(todos, order, clock, nextId)
    }

    /** An empty table. */
    constructor ()
      ensures Valid()
      ensures todos == map[] && order == []
    {
      todos := map[];
      order := [];
      clock := 0;
      nextId := 1;
    }

    /** get_todos: every stored record, newest first, and how many there are. */
    function List(): (r: Reply)
      reads this
      requires Valid()
      ensures r.Listed? && r.count == |r.items| == |todos|
      ensures forall id :: id in todos ==> todos[id] in r.items
      ensures forall t :: t in r.items ==> t.id in todos && todos[t.id] == t
      ensures forall i, j :: 0 <= i < j < |r.items| ==> r.items[i].createdAt > r.items[j].createdAt
    {
      NewestFirstListsTable(todos, order, clock, nextId);
      var items := NewestFirst(todos, order);
      Listed(items, |items|)
    }

    /** get_todo: the record stored under `id`, or NotFound. */
    function Get(id: int): (r: Reply)
      reads this
      ensures r.Ok? <==> id in todos
      ensures r.Ok? ==> r.todo == todos[id]
      ensures !r.Ok? ==> r == NotFound
      ensures Valid() && r.Ok? ==> r.todo.id == id && WellFormed(r.todo)
    {
      if id in todos then Ok(todos[id]) else NotFound
    }

    /** create_todo: a body that passes the checks is stored as a new record
        under a fresh id, with the next creation time, and answered 201; any
        other body is answered 400 and nothing is stored. */
    method Create(body: JVal) returns (r: Reply)
      requires Valid()
      requires CreateAccepted(body) ==> CompletedIsBoolOrAbsent(body)
      modifies this
      ensures Valid()
      ensures CheckCreate(body).Failure? ==>
                && r == BadRequest(CheckCreate(body).reason)
                && todos == old(todos) && order == old(order) && clock == old(clock) && nextId == old(nextId)
      ensures CheckCreate(body).Success? ==>
                var d := CheckCreate(body).value;
                && r.Created?
                && r.todo.id !in old(todos)
                && r.todo == Todo(r.todo.id, d.title, d.description, d.completed, r.todo.createdAt)
                && (forall id :: id in old(todos) ==> old(todos)[id].createdAt < r.todo.createdAt)
                && todos == old(todos)[r.todo.id := r.todo]
                && order == old(order) + [r.todo.id]
                && clock == old(clock) + 1 && nextId == old(nextId) + 1
    {
      match CheckCreate(body)
      case Failure(reason) =>
        r := BadRequest(reason);
      case Success(d) =>
        var todo := Todo(nextId, d.title, d.description, d.completed, clock);
        InsertKeepsInvariant(todos, order, clock, nextId, todo);
        todos := todos[todo.id := todo];
        order := order + [todo.id];
        clock := clock + 1;
        nextId := nextId + 1;
        r := Created(todo);
    }

    /** update_todo: NotFound when `id` is not stored (before the body is looked
        at); otherwise the body checks run in order against a copy of the
        record, field by field, and only a body that passes them all is
        written back. */
    method Update(id: int, body: JVal) returns (r: Reply)
      requires Valid()
      modifies this
      ensures Valid()
      ensures order == old(order) && clock == old(clock) && nextId == old(nextId)
      ensures id !in old(todos) ==> r == NotFound && todos == old(todos)
      ensures id in old(todos) && Patch(old(todos)[id], body).Failure? ==>
                r == BadRequest(Patch(old(todos)[id], body).reason) && todos == old(todos)
      ensures id in old(todos) && Patch(old(todos)[id], body).Success? ==>
                r == Ok(Patch(old(todos)[id], body).value) && todos == old(todos)[id := r.todo]
    {
      if id !in todos {
        return NotFound;
      }
      match Patch(todos[id], body)
      case Failure(reason) =>
        r := BadRequest(reason);
      case Success(todo) =>
        ReplaceKeepsInvariant(todos, order, clock, nextId, todo);
        // the commit: only a body that passed every check is written back
        todos := todos[id := todo];
        r := Ok(todo);
    }

    /** delete_todo: NotFound when `id` is not stored; otherwise exactly that
        record is removed, so that a later get or delete of it is NotFound. */
    method Delete(id: int) returns (r: Reply)
      requires Valid()
      modifies this
      ensures Valid()
      ensures clock == old(clock) && nextId == old(nextId)
      ensures id !in old(todos) ==> r == NotFound && todos == old(todos) && order == old(order)
      ensures id in old(todos) ==> r == Deleted && todos == old(todos) - {id}
      ensures id in old(todos) ==> order == Without(old(order), id)
      ensures Get(id) == NotFound
    {
      if id !in todos {
        return NotFound;
      }
      WithoutKeepsOrder(todos, order, id);
      todos := todos - {id};
      order := Without(order, id);
      r := Deleted;
    }
  }
}
