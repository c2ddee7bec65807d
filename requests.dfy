/**
 The todo record and the body checks of the create and update handlers
 (backend/app.py, create_todo and update_todo), as pure functions: which bodies
 are refused with 400 and why, and what a body that passes writes.
 */
module Requests {
  import opened Json
  import opened Text

  /** One row of the todo table. `createdAt` stands for the creation timestamp:
      a tick of the store's logical clock. */
  datatype Todo = Todo(id: int, title: string, description: string, completed: bool, createdAt: nat)

  /** Why a request is answered 400, one kind per distinct check of the handlers. */
  datatype Reason =
    | NoData              // `not data`: null body or empty object
    | TitleRequired       // create: title missing, falsy or blank
    | TitleEmpty          // update: title present but falsy or blank
    | CompletedNotBoolean // update: `completed` present but not a bool
    | InvalidRequestData  // any other exception caught by `except Exception`

  datatype Result<T> = Success(value: T) | Failure(reason: Reason)

  /** The fields create_todo hands to the Todo constructor. */
  datatype Draft = Draft(title: string, description: string, completed: bool)

  /** What every record written through the handlers satisfies: a non-empty
      title, and no whitespace around the title or the description. */
  predicate WellFormed(t: Todo) {
    t.title != [] && Trimmed(t.title) && Trimmed(t.description)
  }

  /** The body's `completed`, when it has one, is a JSON boolean: the only values
      whose effect on create this model states for a body that passes the checks
      (the handler hands any other value to the ORM column). */
  predicate CompletedIsBoolOrAbsent(data: JVal) {
    data.JObj? && "completed" in data.fields ==> data.fields["completed"].JBool?
  }

  /** `not data.get('title') or not data.get('title').strip()` holds without
      raising: the title is missing, falsy, or a blank string. */
  predicate TitleMissingOrBlank(fields: map<string, JVal>) {
    var title := GetOr(fields, "title", JNull);
    !Truthy(title) || (title.JStr? && AllSpace(title.s))
  }

  /** The create bodies that are stored: an object whose title is a string with
      a non-space character and whose description, when given, is a string. */
  predicate CreateAccepted(data: JVal) {
    && data.JObj?
    && "title" in data.fields
    && data.fields["title"].JStr?
    && !AllSpace(data.fields["title"].s)
    && ("description" in data.fields ==> data.fields["description"].JStr?)
  }

  /** The checks of create_todo, in the handler's order, and the record fields it
      builds: stripped title, stripped description defaulting to "", and
      `completed` defaulting to false. */
  function CheckCreate(data: JVal): (r: Result<Draft>)
    requires CreateAccepted(data) ==> CompletedIsBoolOrAbsent(data)
    ensures !Truthy(data) ==> r == Failure(NoData)
    ensures Truthy(data) && data.JObj? && TitleMissingOrBlank(data.fields) ==> r == Failure(TitleRequired)
    ensures r.Success? <==> CreateAccepted(data)
    ensures CreateAccepted(data) ==> r.value.title == Strip(data.fields["title"].s)
    ensures CreateAccepted(data) && "description" in data.fields ==>
              r.value.description == Strip(data.fields["description"].s)
    ensures CreateAccepted(data) && "description" !in data.fields ==> r.value.description == ""
    ensures CreateAccepted(data) ==> r.value.completed == ("completed" in data.fields && data.fields["completed"].b)
    ensures r.Success? ==> r.value.title != [] && Trimmed(r.value.title) && Trimmed(r.value.description)
    // everything else that is refused raises inside the handler: "Invalid request data"
    ensures r.Failure? ==> r.reason == (if !Truthy(data) then NoData
                                        else if data.JObj? && TitleMissingOrBlank(data.fields) then TitleRequired
                                        else InvalidRequestData)
  {
    if !Truthy(data) then Failure(NoData)
    // `data.get` exists only on a dict; on any other JSON value it raises
    else if !data.JObj? then Failure(InvalidRequestData)
    else
      var title := GetOr(data.fields, "title", JNull);
      if !Truthy(title) then Failure(TitleRequired)
      // `.strip()` on a truthy non-string raises
      else if !title.JStr? then Failure(InvalidRequestData)
      else if IsBlank(title.s) then Failure(TitleRequired)
      else
        var description := GetOr(data.fields, "description", JStr(""));
        if !description.JStr? then Failure(InvalidRequestData)
        else
          var completed := GetOr(data.fields, "completed", JBool(false));
          Success(Draft(Strip(title.s), Strip(description.s), completed.b))
  }

  /** The `'title' in data` step of update_todo. */
  function SetTitle(t: Todo, f: Field): (r: Result<Todo>)
    ensures r.Success? <==> f.Absent? || (f.Present? && f.v.JStr? && !AllSpace(f.v.s))
    ensures r.Success? ==> r.value == if f.Present? then t.(title := Strip(f.v.s)) else t
    ensures f.Present? && (!Truthy(f.v) || (f.v.JStr? && AllSpace(f.v.s))) ==> r == Failure(TitleEmpty)
    ensures f.Raises? || (f.Present? && Truthy(f.v) && !f.v.JStr?) ==> r == Failure(InvalidRequestData)
  {
    match f
    case Absent => Success(t)
    case Raises => Failure(InvalidRequestData)
    case Present(v) =>
      if !Truthy(v) then Failure(TitleEmpty)
      else if !v.JStr? then Failure(InvalidRequestData)
      else if IsBlank(v.s) then Failure(TitleEmpty)
      else Success(t.(title := Strip(v.s)))
  }

  /** The `'description' in data` step of update_todo: a falsy description
      becomes "". */
  function SetDescription(t: Todo, f: Field): (r: Result<Todo>)
    ensures r.Success? <==> f.Absent? || (f.Present? && (!Truthy(f.v) || f.v.JStr?))
    ensures r.Success? && f.Present? ==> r.value == t.(description := if Truthy(f.v) then Strip(f.v.s) else "")
    ensures r.Success? && f.Absent? ==> r.value == t
    ensures r.Failure? ==> r.reason == InvalidRequestData
  {
    match f
    case Absent => Success(t)
    case Raises => Failure(InvalidRequestData)
    case Present(v) =>
      if !Truthy(v) then Success(t.(description := ""))
      else if !v.JStr? then Failure(InvalidRequestData)
      else Success(t.(description := Strip(v.s)))
  }

  /** The `'completed' in data` step of update_todo. */
  function SetCompleted(t: Todo, f: Field): (r: Result<Todo>)
    ensures r.Success? <==> f.Absent? || (f.Present? && f.v.JBool?)
    ensures r.Success? ==> r.value == if f.Present? then t.(completed := f.v.b) else t
    ensures f.Present? && !f.v.JBool? ==> r == Failure(CompletedNotBoolean)
    ensures f.Raises? ==> r == Failure(InvalidRequestData)
  {
    match f
    case Absent => Success(t)
    case Raises => Failure(InvalidRequestData)
    case Present(v) =>
      if !v.JBool? then Failure(CompletedNotBoolean)
      else Success(t.(completed := v.b))
  }

  /** The update bodies that are committed. An object: not empty, a title (if
      given) that is a string with a non-space character, a description (if
      given) that is falsy or a string, a `completed` (if given) that is a bool.
      A non-empty list or string passes only when `in` finds none of the three
      field names in it, and then changes nothing. */
  predicate UpdateAccepted(data: JVal) {
    match data
    case JObj(f) =>
      && f != map[]
      && ("title" in f ==> f["title"].JStr? && !AllSpace(f["title"].s))
      && ("description" in f ==> !Truthy(f["description"]) || f["description"].JStr?)
      && ("completed" in f ==> f["completed"].JBool?)
    case JArr(items) =>
      items != [] && JStr("title") !in items && JStr("description") !in items && JStr("completed") !in items
    case JStr(s) =>
      s != [] && !Contains(s, "title") && !Contains(s, "description") && !Contains(s, "completed")
    case _ => false
  }

  /** The body checks and field assignments of update_todo, in the handler's
      order, applied to the stored record `t`. */
  function Patch(t: Todo, data: JVal): (r: Result<Todo>)
    ensures !Truthy(data) ==> r == Failure(NoData)
    ensures r.Success? ==> r.value.id == t.id && r.value.createdAt == t.createdAt
    ensures r.Success? && !data.JObj? ==> r.value == t
    ensures r.Success? && WellFormed(t) ==> WellFormed(r.value)
    // a blank title is refused before any other field is looked at
    ensures Truthy(data) && data.JObj? && "title" in data.fields
            && (!Truthy(data.fields["title"]) || (data.fields["title"].JStr? && AllSpace(data.fields["title"].s)))
            ==> r == Failure(TitleEmpty)
  {
    if !Truthy(data) then Failure(NoData)
    else
      match SetTitle(t, Index(data, "title"))
      case Failure(e) => Failure(e)
      case Success(t1) =>
        match SetDescription(t1, Index(data, "description"))
        case Failure(e) => Failure(e)
        case Success(t2) => SetCompleted(t2, Index(data, "completed"))
  }

  /** An update body is committed exactly when it satisfies UpdateAccepted. */
  lemma PatchAcceptsExactly(t: Todo, data: JVal)
    ensures Patch(t, data).Success? <==> UpdateAccepted(data)
  {
    match data
    case JObj(f) =>
    case JArr(items) =>
    case JStr(s) =>
    case _ =>
  }

  /** A committed update of an object body changes exactly the fields it names:
      the title is stripped, a falsy description becomes "", and `completed`
      takes the body's boolean; every other field keeps its stored value. */
  lemma PatchChangesNamedFields(t: Todo, data: JVal)
    requires UpdateAccepted(data) && data.JObj?
    ensures Patch(t, data).Success?
    ensures var f, u := data.fields, Patch(t, data).value;
            && u.id == t.id
            && u.createdAt == t.createdAt
            && u.title == (if "title" in f then Strip(f["title"].s) else t.title)
            && u.description ==
                 (if "description" !in f then t.description
                  else if Truthy(f["description"]) then Strip(f["description"].s)
                  else "")
            && u.completed == (if "completed" in f then f["completed"].b else t.completed)
  {
    PatchAcceptsExactly(t, data);
  }

  /** A `completed` that is not a boolean is refused, once the title and the
      description have passed their checks. */
  lemma PatchRejectsNonBooleanCompleted(t: Todo, data: JVal)
    requires data.JObj? && "completed" in data.fields && !data.fields["completed"].JBool?
    requires "title" in data.fields ==> data.fields["title"].JStr? && !AllSpace(data.fields["title"].s)
    requires "description" in data.fields ==> !Truthy(data.fields["description"]) || data.fields["description"].JStr?
    ensures Patch(t, data) == Failure(CompletedNotBoolean)
  {
    assert Truthy(data);
  }

  /** Why update_todo refuses a body, in the handler's order: no data; a falsy
      or blank title; anything that makes a check raise (a body that is not an
      object, a truthy title or description that is not a string); and last a
      `completed` that is not a boolean. */
  function UpdateRefusal(data: JVal): Reason {
    if !Truthy(data) then NoData
    else if !data.JObj? then InvalidRequestData
    else
      var f := data.fields;
      if "title" in f && (!Truthy(f["title"]) || (f["title"].JStr? && AllSpace(f["title"].s))) then TitleEmpty
      else if "title" in f && !f["title"].JStr? then InvalidRequestData
      else if "description" in f && Truthy(f["description"]) && !f["description"].JStr? then InvalidRequestData
      else CompletedNotBoolean
  }

  /** Every refused update carries the reason UpdateRefusal gives: in
      particular a list or string body in which `in` finds a field name, and a
      truthy non-string title or description, are refused as invalid data. */
  lemma PatchRefusalReason(t: Todo, data: JVal)
    requires Patch(t, data).Failure?
    ensures Patch(t, data).reason == UpdateRefusal(data)
  {
    if data.JObj? && Truthy(data) {
      var f := data.fields;
      if "title" in f && f["title"].JStr? && !AllSpace(f["title"].s) {
        assert !IsBlank(f["title"].s);
      }
    }
  }

  /** Sending the same update twice leaves the record as the first one left it. */
  lemma PatchIdempotent(t: Todo, data: JVal)
    requires Patch(t, data).Success?
    ensures Patch(Patch(t, data).value, data) == Patch(t, data)
  {
    var u := Patch(t, data).value;
    assert UpdateAccepted(data);
    if data.JObj? {
      var v := Patch(u, data).value;
      assert v == u;
    }
  }
}
