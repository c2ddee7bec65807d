/**
 Request sequences from the project's test suite, stated over the store: each
 method states the statuses and records the suite expects, for any title and
 description of the kind the test uses, and is proved from the contracts of
 TodoStore alone.
 */
module Scenarios {
  import opened Json
  import opened Text
  import opened Requests
  import opened Store

  /** A body with a title only. */
  function TitleBody(title: string): JVal {
    JObj(map["title" := JStr(title)])
  }

  /** A body with a title and a description. */
  function TitleDescriptionBody(title: string, description: string): JVal {
    JObj(map["title" := JStr(title), "description" := JStr(description)])
  }

  /** A body with a title, a description and `completed`. */
  function FullBody(title: string, description: string, completed: bool): JVal {
    JObj(map["title" := JStr(title), "description" := JStr(description), "completed" := JBool(completed)])
  }

  /** A title-only body with a non-space character in the title is accepted,
      and the record gets the stripped title, an empty description and
      `completed` false. */
  lemma CreateOfTitle(title: string)
    requires !AllSpace(title)
    ensures CompletedIsBoolOrAbsent(TitleBody(title))
    ensures CheckCreate(TitleBody(title)).Success?
    ensures CheckCreate(TitleBody(title)).value.title == Strip(title)
    ensures CheckCreate(TitleBody(title)).value.description == ""
    ensures !CheckCreate(TitleBody(title)).value.completed
  {
    assert CreateAccepted(TitleBody(title));
  }

  /** The same with a description: it is stored stripped, and `completed`
      defaults to false. */
  lemma CreateOfTitleDescription(title: string, description: string)
    requires !AllSpace(title)
    ensures CompletedIsBoolOrAbsent(TitleDescriptionBody(title, description))
    ensures CheckCreate(TitleDescriptionBody(title, description)).Success?
    ensures CheckCreate(TitleDescriptionBody(title, description)).value.title == Strip(title)
    ensures CheckCreate(TitleDescriptionBody(title, description)).value.description == Strip(description)
    ensures !CheckCreate(TitleDescriptionBody(title, description)).value.completed
  {
    assert CreateAccepted(TitleDescriptionBody(title, description));
  }

  /** A body with all three fields is accepted with the stripped title and
      description and the given `completed`. */
  lemma CreateOfFullBody(title: string, description: string, completed: bool)
    requires !AllSpace(title)
    ensures CompletedIsBoolOrAbsent(FullBody(title, description, completed))
    ensures CheckCreate(FullBody(title, description, completed)).Success?
    ensures CheckCreate(FullBody(title, description, completed)).value.title == Strip(title)
    ensures CheckCreate(FullBody(title, description, completed)).value.description == Strip(description)
    ensures CheckCreate(FullBody(title, description, completed)).value.completed == completed
  {
    var body := FullBody(title, description, completed);
    assert body.fields["completed"] == JBool(completed);
    assert CreateAccepted(body);
  }

  /** A body that sets `completed` only. */
  function CompletedBody(completed: JVal): JVal {
    JObj(map["completed" := completed])
  }

  /** Setting `completed` to a boolean is committed, with that value. */
  lemma UpdateOfCompleted(t: Todo, completed: bool)
    ensures Patch(t, CompletedBody(JBool(completed))).Success?
    ensures Patch(t, CompletedBody(JBool(completed))).value.completed == completed
  {
    var body := CompletedBody(JBool(completed));
    assert "completed" in body.fields;
    PatchChangesNamedFields(t, body);
  }

  /** Setting `completed` to anything but a boolean is refused. */
  lemma UpdateOfNonBooleanCompleted(t: Todo, completed: JVal)
    requires !completed.JBool?
    ensures Patch(t, CompletedBody(completed)) == Failure(CompletedNotBoolean)
  {
    PatchRejectsNonBooleanCompleted(t, CompletedBody(completed));
  }

  /** Read, mark completed, delete and read again a stored record:
      200, 200, 200, 404. */
  method CompleteAndDelete(store: TodoStore, id: int) returns (statuses: seq<int>, completed: bool)
    requires store.Valid() && id in store.todos
    modifies store
    ensures statuses == [200, 200, 200, 404]
    ensures completed
  {
    var read := store.Get(id);
    UpdateOfCompleted(store.todos[id], true);
    var updated := store.Update(id, CompletedBody(JBool(true)));
    completed := updated.todo.completed;
    var deleted := store.Delete(id);
    var reread := store.Get(id);
    statuses := [Status(read), Status(updated), Status(deleted), Status(reread)];
  }

  /** Create, read, mark completed, delete, read again: 201, 200, 200, 200, 404,
      for any body create_todo accepts. */
  method FullCrudWorkflow(body: JVal) returns (statuses: seq<int>, completed: bool)
    requires CompletedIsBoolOrAbsent(body) && CreateAccepted(body)
    ensures statuses == [201, 200, 200, 200, 404]
    ensures completed
  {
    var store := new TodoStore();
    var created := store.Create(body);
    var rest;
    rest, completed := CompleteAndDelete(store, created.todo.id);
    statuses := [Status(created), rest[0], rest[1], rest[2], rest[3]];
  }

  /** Two records created one after the other are listed newest first. */
  method ListedNewestFirst(first: string, second: string) returns (titles: seq<string>)
    requires !AllSpace(first) && !AllSpace(second)
    ensures titles == [Strip(second), Strip(first)]
  {
    var store := new TodoStore();
    CreateOfTitle(first);
    CreateOfTitle(second);
    var r1 := store.Create(TitleBody(first));
    var r2 := store.Create(TitleBody(second));
    var listing := store.List();
    titles := [listing.items[0].title, listing.items[1].title];
  }

  /** Whitespace around the title and the description is cut on create. */
  method CreateTrimsWhitespace(pad: string, title: string, description: string)
    returns (storedTitle: string, storedDescription: string)
    requires AllSpace(pad) && Trimmed(title) && title != [] && Trimmed(description)
    ensures storedTitle == title && storedDescription == description
  {
    var store := new TodoStore();
    var rawTitle, rawDescription := pad + title + pad, pad + description + pad;
    StripPadded(pad, title, pad);
    StripPadded(pad, description, pad);
    assert !AllSpace(rawTitle) by { assert rawTitle[|pad|] == title[0]; }
    CreateOfTitleDescription(rawTitle, rawDescription);
    var created := store.Create(TitleDescriptionBody(rawTitle, rawDescription));
    storedTitle, storedDescription := created.todo.title, created.todo.description;
  }

  /** Deleting the same record twice: the second delete finds nothing. */
  method DeleteTwice(body: JVal) returns (statuses: seq<int>)
    requires CompletedIsBoolOrAbsent(body) && CreateAccepted(body)
    ensures statuses == [200, 404]
  {
    var store := new TodoStore();
    var created := store.Create(body);
    assert created.Created?;
    var id := created.todo.id;
    var first := store.Delete(id);
    assert first == Deleted && id !in store.todos;
    var second := store.Delete(id);
    statuses := [Status(first), Status(second)];
  }

  /** A non-boolean `completed` is refused and the stored record is kept. */
  method UpdateRefusesNonBooleanCompleted(body: JVal, completed: JVal) returns (status: int, kept: bool)
    requires CompletedIsBoolOrAbsent(body) && CreateAccepted(body)
    requires !completed.JBool?
    ensures status == 400 && kept
  {
    var store := new TodoStore();
    var created := store.Create(body);
    var id := created.todo.id;
    UpdateOfNonBooleanCompleted(store.todos[id], completed);
    var updated := store.Update(id, CompletedBody(completed));
    status := Status(updated);
    kept := store.Get(id) == Ok(created.todo);
  }

  /** Records created in a row are all listed: the count is the number created. */
  method CreateMany(body: JVal, n: nat) returns (count: nat)
    requires CompletedIsBoolOrAbsent(body) && CreateAccepted(body)
    ensures count == n
  {
    var store := new TodoStore();
    for i := 0 to n
      invariant store.Valid()
      invariant |store.todos| == i
    {
      var created := store.Create(body);
    }
    count := store.List().count;
  }
}
