/**
 * src/services/TaskService.ts: the operations on the `tasks` collection. The collection
 * is the sequence of its documents in natural order; `createTask` and `deleteTask`
 * change it in place, `getAllTasks` and `getTaskById` are queries over a snapshot.
 */
module Tasks {
  import opened Wrappers
  import opened ObjectIds
  import opened Collection
  import opened Models

  /**
   * A document of the `tasks` collection. Documents this service inserts always carry a
   * description; a document written by anything else may lack one.
   */
  datatype TaskDoc = TaskDoc(
    id: ObjectId,
    title: string,
    description: Option<string>,
    completed: bool,
    createdAt: Timestamp,
    updatedAt: Timestamp)

  /** The prefix `deleteTask` puts before the message of the error it wraps. */
  const DeleteFailedPrefix := "Failed to delete task: "

  /** The text of the error `new ObjectId(id)` throws for a malformed id. */
  const InvalidObjectIdError := "BSONError: input must be a 24 character hex string, 12 byte Uint8Array, or an integer"

  /** `value || ''` on an optional string: the empty string is falsy, so a present value is kept as is. */
  function OrEmpty(value: Option<string>): (r: string)
    ensures value.Some? ==> r == value.value
    ensures value.None? ==> r == ""
  {
    if value.Some? && value.value != "" then value.value else ""
  }

  /** The object `getAllTasks` and `getTaskById` build from a document. */
  function ToTask(doc: TaskDoc): Task {
    Task(Some(doc.id), doc.title, Some(OrEmpty(doc.description)), doc.completed, doc.createdAt, doc.updatedAt)
  }

  /**
   * A task read from a document has the `_id` as a string, the stored description or ''
   * when it is missing, and every other field as stored.
   */
  lemma ToTaskFields(doc: TaskDoc)
    ensures ToTask(doc).id == Some(doc.id) && ToTask(doc).title == doc.title
    ensures ToTask(doc).completed == doc.completed
    ensures ToTask(doc).createdAt == doc.createdAt && ToTask(doc).updatedAt == doc.updatedAt
    ensures doc.description.Some? ==> ToTask(doc).description == doc.description
    ensures doc.description.None? ==> ToTask(doc).description == Some("")
  {
  }

  /** `docs.map(ToTask)`. */
  function Views(docs: seq<TaskDoc>): (r: seq<Task>)
    ensures |r| == |docs|
  {
    if docs == [] then [] else [ToTask(docs[0])] + Views(docs[1..])
  }

  lemma {:induction false} ViewsAt(docs: seq<TaskDoc>)
    ensures forall i :: 0 <= i < |docs| ==> Views(docs)[i] == ToTask(docs[i])
  {
    if docs != [] {
      ViewsAt(docs[1..]);
    }
  }

  /** The `_id` of a document, the field of the collection's unique index. */
  function TaskId(doc: TaskDoc): ObjectId {
    doc.id
  }

  /** Each document was created no earlier than the next one. */
  predicate NewestFirst(docs: seq<TaskDoc>) {
    forall i :: 0 <= i < |docs| - 1 ==> docs[i].createdAt >= docs[i + 1].createdAt
  }

  /** Ordered neighbours make the whole sequence ordered. */
  lemma {:induction false} NewestFirstEverywhere(docs: seq<TaskDoc>)
    requires NewestFirst(docs)
    ensures forall i, j :: 0 <= i < j < |docs| ==> docs[i].createdAt >= docs[j].createdAt
  {
    if |docs| > 1 {
      NewestFirstEverywhere(docs[1..]);
      forall j | 1 <= j < |docs| ensures docs[0].createdAt >= docs[j].createdAt {
        if j > 1 {
          assert docs[1..][0] == docs[1] && docs[1..][j - 1] == docs[j];
        }
      }
    }
  }

  function InsertNewestFirst(doc: TaskDoc, sorted: seq<TaskDoc>): (r: seq<TaskDoc>)
    requires NewestFirst(sorted)
    ensures |r| == |sorted| + 1
    ensures r[0] == doc || (sorted != [] && r[0] == sorted[0])
    ensures NewestFirst(r)
  {
    if sorted == [] || doc.createdAt >= sorted[0].createdAt then
      [doc] + sorted
    else
      var rest := InsertNewestFirst(doc, sorted[1..]);
      assert sorted == [sorted[0]] + sorted[1..];
      assert sorted[0].createdAt >= rest[0].createdAt;
      var r := [sorted[0]] + rest;
      assert forall i :: 1 <= i < |r| ==> r[i] == rest[i - 1];
      r
  }

  /**
   * The order of `sort({ createdAt: -1 })`. MongoDB leaves the order of documents with
   * equal `createdAt` unspecified; this definition keeps such documents in natural order,
   * which is one of the orders the server may return. What callers may rely on is only
   * `NewestFirst` and `SortPermutes`.
   */
  function SortNewestFirst(docs: seq<TaskDoc>): (r: seq<TaskDoc>)
    ensures |r| == |docs|
    ensures NewestFirst(r)
  {
    if docs == [] then [] else InsertNewestFirst(docs[0], SortNewestFirst(docs[1..]))
  }

  /** Inserting adds exactly the inserted document. */
  lemma {:induction false} InsertAddsDoc(doc: TaskDoc, sorted: seq<TaskDoc>)
    requires NewestFirst(sorted)
    ensures multiset(InsertNewestFirst(doc, sorted)) == multiset(sorted) + multiset{doc}
  {
    if sorted != [] && doc.createdAt < sorted[0].createdAt {
      InsertAddsDoc(doc, sorted[1..]);
      assert sorted == [sorted[0]] + sorted[1..];
    }
  }

  /** Sorting is a permutation: no document is lost, added or duplicated. */
  lemma {:induction false} SortPermutes(docs: seq<TaskDoc>)
    ensures multiset(SortNewestFirst(docs)) == multiset(docs)
  {
    if docs != [] {
      var rest := SortNewestFirst(docs[1..]);
      SortPermutes(docs[1..]);
      InsertAddsDoc(docs[0], rest);
      MultisetOfCons(docs);
    }
  }

  lemma MultisetOfCons<T>(s: seq<T>)
    requires s != []
    ensures multiset(s) == multiset(s[1..]) + multiset{s[0]}
  {
    assert s == [s[0]] + s[1..];
  }

  /** Mapping after inserting is mapping, then adding the inserted document's task. */
  lemma {:induction false} ViewsOfInsert(doc: TaskDoc, sorted: seq<TaskDoc>)
    requires NewestFirst(sorted)
    ensures multiset(Views(InsertNewestFirst(doc, sorted))) == multiset(Views(sorted)) + multiset{ToTask(doc)}
  {
    var r := InsertNewestFirst(doc, sorted);
    if sorted == [] || doc.createdAt >= sorted[0].createdAt {
      assert r == [doc] + sorted;
      assert r[1..] == sorted;
    } else {
      var rest := InsertNewestFirst(doc, sorted[1..]);
      ViewsOfInsert(doc, sorted[1..]);
      assert r == [sorted[0]] + rest;
      assert r[1..] == rest;
      assert Views(r) == [ToTask(sorted[0])] + Views(rest);
      assert Views(sorted) == [ToTask(sorted[0])] + Views(sorted[1..]);
      calc {
        multiset(Views(r));
        multiset{ToTask(sorted[0])} + multiset(Views(rest));
        multiset{ToTask(sorted[0])} + multiset(Views(sorted[1..])) + multiset{ToTask(doc)};
        multiset(Views(sorted)) + multiset{ToTask(doc)};
      }
    }
  }

  /** Sorting, then mapping, yields the mapped documents in some order. */
  lemma {:induction false} ViewsOfSort(docs: seq<TaskDoc>)
    ensures multiset(Views(SortNewestFirst(docs))) == multiset(Views(docs))
  {
    if docs != [] {
      ViewsOfSort(docs[1..]);
      ViewsOfInsert(docs[0], SortNewestFirst(docs[1..]));
      assert Views(docs) == [ToTask(docs[0])] + Views(docs[1..]);
    }
  }

  /**
   * `getAllTasks`: every stored task, none filtered out, newest first, each with its
   * `_id` as a string and a missing description read as ''.
   */
  function GetAllTasks(tasks: seq<TaskDoc>): (r: seq<Task>)
    ensures |r| == |tasks|
    ensures forall i, j :: 0 <= i < j < |r| ==> r[i].createdAt >= r[j].createdAt
    ensures multiset(r) == multiset(Views(tasks))
    ensures forall i :: 0 <= i < |r| ==> r[i].id.Some? && r[i].description.Some?
  {
    var sorted := SortNewestFirst(tasks);
    NewestFirstEverywhere(sorted);
    ViewsAt(sorted);
    ViewsOfSort(tasks);
    Views(sorted)
  }

  /**
   * `getTaskById`: the task with that id, or None both when no document has it and when
   * `id` is not a well-formed ObjectId (the exception is caught).
   */
  function GetTaskById(tasks: seq<TaskDoc>, id: string): (r: Option<Task>)
    ensures r.Some? <==> Parse(id).Some? && HasKey(tasks, TaskId, Parse(id).value)
    ensures r.Some? ==> exists i :: 0 <= i < |tasks| && tasks[i].id == Parse(id).value && r.value == ToTask(tasks[i])
    ensures r.Some? ==> r.value.id == Some(Parse(id).value)
  {
    match Parse(id)
    case None => None
    case Some(key) =>
      match FindOne(tasks, KeyFilter(TaskId, key))
      case None => None
      case Some(i) => Some(ToTask(tasks[i]))
  }

  /**
   * `deleteOne({ _id: id })`: no change when no document has the id; otherwise the first
   * document with that id, and only it, is taken out.
   */
  function RemoveTask(tasks: seq<TaskDoc>, id: ObjectId): (r: seq<TaskDoc>)
    ensures !HasKey(tasks, TaskId, id) ==> r == tasks
    ensures HasKey(tasks, TaskId, id) <==> FindOne(tasks, KeyFilter(TaskId, id)).Some?
    ensures FindOne(tasks, KeyFilter(TaskId, id)).Some? ==>
      var i := FindOne(tasks, KeyFilter(TaskId, id)).value;
      tasks[i].id == id && r == tasks[..i] + tasks[i + 1..]
  {
    match FindOne(tasks, KeyFilter(TaskId, id))
    case None =>
      DeleteOne(tasks, KeyFilter(TaskId, id))
    case Some(i) =>
      assert KeyFilter(TaskId, id)(tasks[i]) && TaskId(tasks[i]) == id;
      DeleteOne(tasks, KeyFilter(TaskId, id))
  }

  /** Deleting by id takes out at most one document, and exactly one when some document has the id. */
  lemma RemoveTaskCount(tasks: seq<TaskDoc>, id: ObjectId)
    ensures |RemoveTask(tasks, id)| == |tasks| - (if HasKey(tasks, TaskId, id) then 1 else 0)
  {
    if HasKey(tasks, TaskId, id) {
      var k :| 0 <= k < |tasks| && tasks[k].id == id;
      assert KeyFilter(TaskId, id)(tasks[k]);
    }
  }

  /** Deleting by id keeps every document with another id. */
  lemma RemoveTaskKeepsOthers(tasks: seq<TaskDoc>, id: ObjectId)
    ensures forall d :: d in tasks && d.id != id ==> d in RemoveTask(tasks, id)
  {
    var r := RemoveTask(tasks, id);
    match FindOne(tasks, KeyFilter(TaskId, id))
    case None =>
    case Some(i) =>
      assert r == tasks[..i] + tasks[i + 1..];
      assert tasks == tasks[..i] + [tasks[i]] + tasks[i + 1..];
      assert KeyFilter(TaskId, id)(tasks[i]) && TaskId(tasks[i]) == id;
  }

  /** Deleting by id adds no document. */
  lemma RemoveTaskAddsNothing(tasks: seq<TaskDoc>, id: ObjectId)
    ensures forall d :: d in RemoveTask(tasks, id) ==> d in tasks
  {
    var r := RemoveTask(tasks, id);
    match FindOne(tasks, KeyFilter(TaskId, id))
    case None =>
    case Some(i) =>
      assert r == tasks[..i] + tasks[i + 1..];
      assert tasks == tasks[..i] + [tasks[i]] + tasks[i + 1..];
  }

  /** Under unique ids, no document with the deleted id is left. */
  lemma RemoveTaskLeavesNoMatch(tasks: seq<TaskDoc>, id: ObjectId)
    requires UniqueKeys(tasks, TaskId)
    ensures !HasKey(RemoveTask(tasks, id), TaskId, id)
  {
    var r := RemoveTask(tasks, id);
    match FindOne(tasks, KeyFilter(TaskId, id))
    case None =>
    case Some(i) =>
      assert r == tasks[..i] + tasks[i + 1..] && tasks[i].id == id;
      forall k | 0 <= k < |r| ensures TaskId(r[k]) != id {
        assert r[k] == tasks[Skip(k, i)];
      }
  }

  /** Deleting keeps the ids unique. */
  lemma RemoveTaskKeepsIdsUnique(tasks: seq<TaskDoc>, id: ObjectId)
    requires UniqueKeys(tasks, TaskId)
    ensures UniqueKeys(RemoveTask(tasks, id), TaskId)
  {
    var r := RemoveTask(tasks, id);
    match FindOne(tasks, KeyFilter(TaskId, id))
    case None =>
    case Some(i) =>
      UniqueAfterRemovingAt(tasks, TaskId, i);
  }

  /** The position in the collection of the `k`-th document left after deleting position `i`. */
  function Skip(k: nat, i: nat): nat {
    if k < i then k else k + 1
  }

  /** A task inserted under a fresh id is found by that id. */
  lemma CreatedTaskIsFound(tasks: seq<TaskDoc>, doc: TaskDoc)
    requires !HasKey(tasks, TaskId, doc.id)
    ensures GetTaskById(tasks + [doc], doc.id) == Some(ToTask(doc))
  {
    ParseToString(doc.id);
    var all := tasks + [doc];
    assert all[|tasks|] == doc;
    assert TaskId(all[|tasks|]) == doc.id;
    assert KeyFilter(TaskId, doc.id)(all[|tasks|]);
    assert FindOne(all, KeyFilter(TaskId, doc.id)) == Some(|tasks|);
  }

  /** A task inserted into the collection appears in the listing. */
  lemma CreatedTaskIsListed(tasks: seq<TaskDoc>, doc: TaskDoc)
    ensures ToTask(doc) in GetAllTasks(tasks + [doc])
  {
    var all := tasks + [doc];
    ViewsAt(all);
    assert Views(all)[|tasks|] == ToTask(doc);
    assert ToTask(doc) in multiset(Views(all));
    assert ToTask(doc) in multiset(GetAllTasks(all));
  }

  /** Once the document with an id is deleted, that id no longer finds a task. */
  lemma RemovedTaskIsGone(tasks: seq<TaskDoc>, id: string)
    requires UniqueKeys(tasks, TaskId) && IsObjectIdHex(id)
    ensures GetTaskById(RemoveTask(tasks, Parse(id).value), id) == None
  {
    RemoveTaskLeavesNoMatch(tasks, Parse(id).value);
  }

  /** The service bound to the database's `tasks` collection. */
  class TaskService {
    var tasks: seq<TaskDoc>

    ghost predicate Valid()
      reads this
    {
      UniqueKeys(tasks, TaskId)
    }

    /** `new TaskService(db)`, over the collection's current documents. */
    constructor(tasks: seq<TaskDoc>)
      requires UniqueKeys(tasks, TaskId)
      ensures Valid() && this.tasks == tasks
    {
      this.tasks := tasks;
    }

    /**
     * `createTask`: inserts one not-completed task whose description is the input's or
     * '' and returns it with the id the driver generated. `newId`, `createdAt` and
     * `updatedAt` are what the driver and the two clock reads produce; insertion fails,
     * changing nothing, when the id is already taken.
     */
    method CreateTask(input: CreateTaskInput, newId: ObjectId, createdAt: Timestamp, updatedAt: Timestamp)
      returns (r: Result<Task>)
      requires Valid()
      modifies this
      ensures Valid()
      ensures HasKey(old(tasks), TaskId, newId) ==> r == Err(DuplicateKeyError) && tasks == old(tasks)
      ensures !HasKey(old(tasks), TaskId, newId) ==>
        var description := if input.description.Some? then input.description.value else "";
        tasks == old(tasks) + [TaskDoc(newId, input.title, Some(description), false, createdAt, updatedAt)] &&
        r == Ok(Task(Some(newId), input.title, Some(description), false, createdAt, updatedAt))
      ensures r.Ok? ==> GetTaskById(tasks, newId) == Some(r.value) && r.value in GetAllTasks(tasks)
    {
      var taskData := TaskDoc(newId, input.title, Some(OrEmpty(input.description)), false, createdAt, updatedAt);
      if HasKey(tasks, TaskId, newId) {
        return Err(DuplicateKeyError);
      }
      AppendKeepsKeysUnique(tasks, TaskId, taskData);
      CreatedTaskIsFound(tasks, taskData);
      CreatedTaskIsListed(tasks, taskData);
      tasks := tasks + [taskData];
      r := Ok(Task(Some(newId), taskData.title, taskData.description, taskData.completed,
                   taskData.createdAt, taskData.updatedAt));
    }

    /**
     * `deleteTask`: removes the task with that id and reports whether one was removed.
     * A malformed id makes `new ObjectId` throw; the error is rethrown wrapped.
     */
    method DeleteTask(id: string) returns (r: Result<bool>)
      requires Valid()
      modifies this
      ensures Valid()
      ensures !IsObjectIdHex(id) ==> r == Err(DeleteFailedPrefix + InvalidObjectIdError) && tasks == old(tasks)
      ensures r.Err? ==> DeleteFailedPrefix <= r.error
      ensures IsObjectIdHex(id) ==>
        r == Ok(HasKey(old(tasks), TaskId, Parse(id).value)) && tasks == RemoveTask(old(tasks), Parse(id).value)
      ensures |tasks| == |old(tasks)| - (if r == Ok(true) then 1 else 0)
      ensures forall d :: d in old(tasks) && Some(d.id) != Parse(id) ==> d in tasks
      ensures forall d :: d in tasks ==> d in old(tasks)
      ensures r.Ok? ==> GetTaskById(tasks, id) == None
    {
      match Parse(id)
      case None =>
        r := Err(DeleteFailedPrefix + InvalidObjectIdError);
      case Some(key) =>
        RemoveTaskCount(tasks, key);
        RemoveTaskKeepsOthers(tasks, key);
        RemoveTaskAddsNothing(tasks, key);
        RemoveTaskLeavesNoMatch(tasks, key);
        RemoveTaskKeepsIdsUnique(tasks, key);
        RemovedTaskIsGone(tasks, id);
        var deletedCount := if HasKey(tasks, TaskId, key) then 1 else 0;
        tasks := RemoveTask(tasks, key);
        r := Ok(deletedCount > 0);
    }
  }
}
