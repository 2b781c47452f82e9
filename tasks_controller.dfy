/**
 * The task store behind the tasks controller: a table of task records with
 * an id counter, and the five operations the controller offers on it, each
 * returning the HTTP outcome the controller produces.
 */
module Tasks {
  import opened Wrappers
  import opened Text
  import opened Annotations
  import opened Models
  import C = CreateTask
  import U = UpdateTask

  /** The outcomes the controller returns. */
  datatype Response =
    | Ok(task: TaskItem)
    | OkList(tasks: seq<TaskItem>)
    | Created(task: TaskItem)
    | NoContent
    | NotFound(id: int)
    | BadRequest(violations: set<Violation>)

  /**
   * What every stored record satisfies: the title and description limits of
   * the payloads, and a Done record has a completion time.
   */
  predicate WellFormed(t: TaskItem) {
    && TitleMin <= Utf16Length(t.title) <= TitleMax
    && StringLengthHolds(t.description, 0, DescriptionMax)
    && (t.status == Done ==> t.completedAt.Some?)
  }

  /** No two records share an id (the table's key). */
  predicate UniqueIds(s: seq<TaskItem>) {
    forall i, j :: 0 <= i < j < |s| ==> s[i].id != s[j].id
  }

  // ---------------------------------------------------------------- lookup

  /** Position of the record with key `id`, as a keyed lookup finds it. */
  function IndexOf(s: seq<TaskItem>, id: int): (r: Option<nat>)
    ensures r.Some? ==> r.value < |s| && s[r.value].id == id
    ensures r.None? <==> forall i :: 0 <= i < |s| ==> s[i].id != id
  {
    if s == [] then None
    else if s[0].id == id then Some(0)
    else match IndexOf(s[1..], id)
      case Some(k) => Some(k + 1)
      case None => None
  }

  /** With unique keys the lookup finds the one record that has the key. */
  lemma IndexOfUnique(s: seq<TaskItem>, i: nat)
    requires UniqueIds(s) && i < |s|
    ensures IndexOf(s, s[i].id) == Some(i)
  {
  }

  // --------------------------------------------------------------- listing

  /** Newest first: `createdAt` never increases along `s`. */
  predicate NewestFirst(s: seq<TaskItem>) {
    forall i, j :: 0 <= i < j < |s| ==> s[i].createdAt >= s[j].createdAt
  }

  /** Inserts `x` into a newest-first sequence, before every record not newer than it. */
  function InsertNewestFirst(x: TaskItem, s: seq<TaskItem>): (r: seq<TaskItem>)
    requires NewestFirst(s)
    ensures NewestFirst(r)
    ensures multiset(r) == multiset(s) + multiset{x}
    ensures r[0] == x || (s != [] && r[0] == s[0])
  {
    if s == [] || x.createdAt >= s[0].createdAt then
      ConsNewestFirst(x, s);
      [x] + s
    else
      assert s == [s[0]] + s[1..];
      TailNewestFirst(s);
      var rest := InsertNewestFirst(x, s[1..]);
      ConsNewestFirst(s[0], rest);
      [s[0]] + rest
  }

  /** The tail of a newest-first sequence is newest first. */
  lemma TailNewestFirst(s: seq<TaskItem>)
    requires NewestFirst(s) && s != []
    ensures NewestFirst(s[1..])
  {
    forall i, j | 0 <= i < j < |s| - 1
      ensures s[1..][i].createdAt >= s[1..][j].createdAt
    {
      assert s[1..][i] == s[i + 1] && s[1..][j] == s[j + 1];
    }
  }

  /** Putting a record not older than the head in front keeps a sequence newest first. */
  lemma ConsNewestFirst(h: TaskItem, s: seq<TaskItem>)
    requires NewestFirst(s) && (s != [] ==> h.createdAt >= s[0].createdAt)
    ensures NewestFirst([h] + s)
  {
    var r := [h] + s;
    forall i, j | 0 <= i < j < |r| ensures r[i].createdAt >= r[j].createdAt {
      assert r[j] == s[j - 1];
      if i > 0 {
        assert r[i] == s[i - 1];
      } else {
        assert s[0].createdAt >= s[j - 1].createdAt || j == 1;
      }
    }
  }

  /** The records of `s` ordered by `createdAt`, descending. */
  function SortNewestFirst(s: seq<TaskItem>): (r: seq<TaskItem>)
    ensures NewestFirst(r)
    ensures multiset(r) == multiset(s)
  {
    if s == [] then []
    else
      assert s == [s[0]] + s[1..];
      InsertNewestFirst(s[0], SortNewestFirst(s[1..]))
  }

  /** Tasks created at T1 < T2 < T3 are listed T3, T2, T1. */
  lemma ListsThreeNewestFirst(a: TaskItem, b: TaskItem, c: TaskItem)
    requires a.createdAt < b.createdAt < c.createdAt
    ensures SortNewestFirst([a, b, c]) == [c, b, a]
  {
    assert [a, b, c][1..] == [b, c];
    assert [b, c][1..] == [c];
    assert [c][1..] == [];
    assert SortNewestFirst([c]) == [c];
    assert InsertNewestFirst(b, [c]) == [c] + InsertNewestFirst(b, []);
    assert SortNewestFirst([b, c]) == [c, b];
    assert [c, b][1..] == [b];
    assert InsertNewestFirst(a, [b]) == [b, a];
    assert InsertNewestFirst(a, [c, b]) == [c] + InsertNewestFirst(a, [b]);
  }

  // --------------------------------------------------------------- records

  /** The record a valid create payload produces under key `id` at time `now`. */
  function NewTask(id: int, dto: C.CreateTaskDto, now: DateTime): TaskItem
    requires C.IsValid(dto)
  {
    TaskItem(id, dto.title.value, dto.description, Todo, dto.priority, dto.dueDate, now, None)
  }

  /** A created record satisfies the record invariant. */
  lemma NewTaskWellFormed(id: int, dto: C.CreateTaskDto, now: DateTime)
    requires C.IsValid(dto)
    ensures WellFormed(NewTask(id, dto, now))
  {
    C.ValidIff(dto);
  }

  /**
   * The update applied field by field to record `t` at time `now`: a title
   * replaces the old one unless it is null or empty, a non-null description
   * (the empty string included) replaces the old one, a supplied status,
   * priority or due date replaces the old one, and entering Done without a
   * completion time stamps `now`.
   */
  function ApplyUpdate(t: TaskItem, d: U.UpdateTaskDto, now: DateTime): TaskItem {
    var title := if !IsNullOrEmpty(d.title) then d.title.value else t.title;
    var description := if d.description.Some? then d.description else t.description;
    var completedAt :=
      if d.status == Some(Done) && t.completedAt.None? then Some(now) else t.completedAt;
    var dueDate := if d.dueDate.Some? then d.dueDate else t.dueDate;
    t.(title := title, description := description,
       status := d.status.GetOr(t.status), completedAt := completedAt,
       priority := d.priority.GetOr(t.priority), dueDate := dueDate)
  }

  /** An update never changes the key or the creation time. */
  lemma UpdateKeepsIdentity(t: TaskItem, d: U.UpdateTaskDto, now: DateTime)
    ensures ApplyUpdate(t, d, now).id == t.id
    ensures ApplyUpdate(t, d, now).createdAt == t.createdAt
  {
  }

  /** An absent property leaves its field as it was. */
  lemma AbsentFieldsUnchanged(t: TaskItem, d: U.UpdateTaskDto, now: DateTime)
    ensures var u := ApplyUpdate(t, d, now);
      && (IsNullOrEmpty(d.title) ==> u.title == t.title)
      && (d.description.None? ==> u.description == t.description)
      && (d.status.None? ==> u.status == t.status && u.completedAt == t.completedAt)
      && (d.priority.None? ==> u.priority == t.priority)
      && (d.dueDate.None? ==> u.dueDate == t.dueDate)
  {
  }

  /** The update with nothing supplied changes nothing. */
  lemma EmptyUpdateIsIdentity(t: TaskItem, now: DateTime)
    ensures ApplyUpdate(t, U.Empty, now) == t
  {
  }

  /** The fields of `u` hold every property `d` supplies (a non-empty title). */
  predicate Reflects(u: TaskItem, d: U.UpdateTaskDto) {
    && (!IsNullOrEmpty(d.title) ==> u.title == d.title.value)
    && (d.description.Some? ==> u.description == d.description)
    && (d.status.Some? ==> u.status == d.status.value)
    && (d.priority.Some? ==> u.priority == d.priority.value)
    && (d.dueDate.Some? ==> u.dueDate == d.dueDate)
  }

  /** An update's result holds every property it supplied; under a valid payload a supplied title always lands. */
  lemma UpdateAppliesPresentFields(t: TaskItem, d: U.UpdateTaskDto, now: DateTime)
    ensures Reflects(ApplyUpdate(t, d, now), d)
    ensures U.IsValid(d) && d.title.Some? ==> ApplyUpdate(t, d, now).title == d.title.value
  {
    if U.IsValid(d) && d.title.Some? {
      U.EmptyStrings(d);
    }
  }

  /**
   * The completion time: entering Done without one stamps `now`, one that is
   * present is never overwritten, and it is never cleared.
   */
  lemma CompletedAtRules(t: TaskItem, d: U.UpdateTaskDto, now: DateTime)
    ensures var u := ApplyUpdate(t, d, now);
      && (d.status == Some(Done) && t.completedAt.None? ==> u.completedAt == Some(now))
      && (t.completedAt.Some? ==> u.completedAt == t.completedAt)
      && (d.status != Some(Done) ==> u.completedAt == t.completedAt)
      && (u.completedAt.Some? <==> t.completedAt.Some? || d.status == Some(Done))
  {
  }

  /**
   * Done, then any other status, then Done again: the second Done keeps the
   * time the first one stamped.
   */
  lemma DoneAgainKeepsFirstStamp(t: TaskItem, other: Status, n1: DateTime, n2: DateTime, n3: DateTime)
    ensures var done := U.Empty.(status := Some(Done));
      var u1 := ApplyUpdate(t, done, n1);
      var u3 := ApplyUpdate(ApplyUpdate(u1, U.Empty.(status := Some(other)), n2), done, n3);
      && u1.completedAt.Some?
      && u3.status == Done
      && u3.completedAt == u1.completedAt
      && (t.completedAt.None? ==> u3.completedAt == Some(n1))
  {
  }

  /** Two payloads that supply no property in common. */
  predicate Disjoint(d1: U.UpdateTaskDto, d2: U.UpdateTaskDto) {
    && (IsNullOrEmpty(d1.title) || IsNullOrEmpty(d2.title))
    && (d1.description.None? || d2.description.None?)
    && (d1.status.None? || d2.status.None?)
    && (d1.priority.None? || d2.priority.None?)
    && (d1.dueDate.None? || d2.dueDate.None?)
  }

  /** Two updates of different fields applied one after the other: neither is lost. */
  lemma DisjointUpdatesBothHold(t: TaskItem, d1: U.UpdateTaskDto, d2: U.UpdateTaskDto,
                                n1: DateTime, n2: DateTime)
    requires Disjoint(d1, d2)
    ensures Reflects(ApplyUpdate(ApplyUpdate(t, d1, n1), d2, n2), d1)
    ensures Reflects(ApplyUpdate(ApplyUpdate(t, d1, n1), d2, n2), d2)
  {
    var u1 := ApplyUpdate(t, d1, n1);
    UpdateAppliesPresentFields(t, d1, n1);
    AbsentFieldsUnchanged(u1, d2, n2);
    UpdateAppliesPresentFields(u1, d2, n2);
  }

  /** A valid update keeps a well-formed record well-formed. */
  lemma UpdatePreservesWellFormed(t: TaskItem, d: U.UpdateTaskDto, now: DateTime)
    requires WellFormed(t) && U.IsValid(d)
    ensures WellFormed(ApplyUpdate(t, d, now))
  {
    U.ValidIff(d);
  }

  /**
   * Unlike creation, an update does not require a visible title: three
   * spaces pass the update payload's rules but not the create payload's.
   */
  lemma UpdateAcceptsBlankTitle(t: TaskItem, now: DateTime)
    ensures var d := U.Empty.(title := Some("   "));
      && U.IsValid(d)
      && ApplyUpdate(t, d, now).title == "   "
      && !C.IsValid(C.CreateTaskDto(Some("   "), None, Medium, None))
  {
    BmpLength("   ");
    U.ValidIff(U.Empty.(title := Some("   ")));
    C.ViolationsExact(C.CreateTaskDto(Some("   "), None, Medium, None));
  }

  /** Removing position `i` keeps the others, in order, and the keys unique. */
  lemma RemoveAt(s: seq<TaskItem>, i: nat)
    requires UniqueIds(s) && i < |s|
    ensures var r := s[..i] + s[i + 1..];
      && |r| == |s| - 1
      && (forall k :: 0 <= k < |r| ==> r[k] == s[if k < i then k else k + 1])
      && UniqueIds(r)
      && (forall k :: 0 <= k < |r| ==> r[k].id != s[i].id)
      && multiset(r) == multiset(s) - multiset{s[i]}
  {
    var r := s[..i] + s[i + 1..];
    assert s == s[..i] + [s[i]] + s[i + 1..];
    assert forall k :: 0 <= k < |r| ==> r[k] == s[if k < i then k else k + 1];
  }

  /** Replacing position `i` by a record with the same key keeps the keys unique. */
  lemma ReplaceAt(s: seq<TaskItem>, i: nat, t: TaskItem)
    requires UniqueIds(s) && i < |s| && t.id == s[i].id
    ensures UniqueIds(s[i := t])
  {
    var r := s[i := t];
    forall a, b | 0 <= a < b < |r| ensures r[a].id != r[b].id {
      assert r[a].id == s[a].id && r[b].id == s[b].id;
    }
  }

  /**
   * The table's invariant: unique keys, well-formed records, every stored
   * key and every completed key handed out before `nextId`, and a record
   * has a completion time exactly when it has reached Done at some point.
   */
  ghost predicate StoreInvariant(tasks: seq<TaskItem>, nextId: int, issued: set<int>, everDone: set<int>) {
    && UniqueIds(tasks)
    && (forall i :: 0 <= i < |tasks| ==> WellFormed(tasks[i]) && tasks[i].id in issued)
    && (forall i :: 0 <= i < |tasks| ==> (tasks[i].completedAt.Some? <==> tasks[i].id in everDone))
    && everDone <= issued
    && (forall x :: x in issued ==> 0 < x < nextId)
    && 0 < nextId
  }

  /** A valid update of one record keeps the invariant, the stamped key joining `everDone`. */
  lemma UpdateKeepsInvariant(tasks: seq<TaskItem>, nextId: int, issued: set<int>,
                             everDone: set<int>, i: nat, dto: U.UpdateTaskDto, now: DateTime)
    requires StoreInvariant(tasks, nextId, issued, everDone) && i < |tasks| && U.IsValid(dto)
    ensures var stamped := dto.status == Some(Done) && tasks[i].completedAt.None?;
      StoreInvariant(tasks[i := ApplyUpdate(tasks[i], dto, now)], nextId, issued,
                     if stamped then everDone + {tasks[i].id} else everDone)
  {
    var u := ApplyUpdate(tasks[i], dto, now);
    UpdatePreservesWellFormed(tasks[i], dto, now);
    ReplaceAt(tasks, i, u);
  }

  // ----------------------------------------------------------------- store

  class TaskStore {
    /** The stored records. */
    var tasks: seq<TaskItem>
    /** The key the next created record receives. */
    var nextId: int
    /** Every key ever handed out, including those of deleted records. */
    ghost var issued: set<int>
    /** The keys of records that have reached Done at least once. */
    ghost var everDone: set<int>

    ghost predicate Valid()
      reads this
    {
      StoreInvariant(tasks, nextId, issued, everDone)
    }

    /** An empty table; the first key handed out is 1. */
    constructor ()
      ensures Valid()
      ensures tasks == [] && nextId == 1 && issued == {} && everDone == {}
    {
      tasks, nextId := [], 1;
      issued, everDone := {}, {};
    }

    /** All records, newest first; the table is not changed. */
    function GetTasks(): (r: Response)
      reads this
      ensures r.OkList?
      ensures multiset(r.tasks) == multiset(tasks)
      ensures NewestFirst(r.tasks)
    {
      OkList(SortNewestFirst(tasks))
    }

    /** The record with key `id`, or NotFound; the table is not changed. */
    function GetTask(id: int): (r: Response)
      reads this
      ensures r.Ok? || r == NotFound(id)
      ensures r.Ok? ==> r.task in tasks && r.task.id == id
      ensures r.NotFound? <==> forall i :: 0 <= i < |tasks| ==> tasks[i].id != id
    {
      match IndexOf(tasks, id)
      case Some(i) => Ok(tasks[i])
      case None => NotFound(id)
    }

    /**
     * An invalid payload is refused with its violations and changes nothing.
     * A valid one is stored under a key never handed out before, as a Todo
     * record created at `now` with no completion time; the records already
     * stored are untouched.
     */
    method CreateTask(dto: C.CreateTaskDto, now: DateTime) returns (r: Response)
      requires Valid()
      modifies this
      ensures Valid()
      ensures !C.IsValid(dto) ==> r == BadRequest(C.Violations(dto)) && unchanged(this)
      ensures C.IsValid(dto) ==>
        && r.Created?
        && r.task.id == old(nextId)
        && r.task.title == dto.title.value
        && r.task.description == dto.description
        && r.task.priority == dto.priority
        && r.task.dueDate == dto.dueDate
        && r.task.status == Todo
        && r.task.createdAt == now
        && r.task.completedAt.None?
        && r.task.id !in old(issued)
        && (forall i :: 0 <= i < |old(tasks)| ==> old(tasks)[i].id != r.task.id)
        && tasks == old(tasks) + [r.task]
        && nextId == old(nextId) + 1
        && issued == old(issued) + {r.task.id}
        && everDone == old(everDone)
        && GetTask(r.task.id) == Ok(r.task)
    {
      var violations := C.Violations(dto);
      if violations != {} {
        return BadRequest(violations);
      }
      var task := NewTask(nextId, dto, now);
      NewTaskWellFormed(nextId, dto, now);
      tasks := tasks + [task];
      issued := issued + {nextId};
      nextId := nextId + 1;
      IndexOfUnique(tasks, |tasks| - 1);
      r := Created(task);
    }

    /**
     * The payload is checked before the key is looked up: an invalid one is
     * refused even for a missing key, and a valid one for a missing key is
     * NotFound; neither changes anything. Otherwise only the addressed
     * record changes, to the payload applied to it at `now`.
     */
    method UpdateTask(id: int, dto: U.UpdateTaskDto, now: DateTime) returns (r: Response)
      requires Valid()
      modifies this
      ensures Valid()
      ensures !U.IsValid(dto) ==> r == BadRequest(U.Violations(dto)) && unchanged(this)
      ensures U.IsValid(dto) && IndexOf(old(tasks), id).None? ==> r == NotFound(id) && unchanged(this)
      ensures U.IsValid(dto) && IndexOf(old(tasks), id).Some? ==>
        var i := IndexOf(old(tasks), id).value;
        && tasks == old(tasks)[i := ApplyUpdate(old(tasks)[i], dto, now)]
        && r == Ok(tasks[i])
        && GetTask(id) == r
        && everDone == if dto.status == Some(Done) && old(tasks)[i].completedAt.None?
                       then old(everDone) + {id} else old(everDone)
      ensures nextId == old(nextId) && issued == old(issued)
    {
      var violations := U.Violations(dto);
      if violations != {} {
        return BadRequest(violations);
      }
      var found := IndexOf(tasks, id);
      if found.None? {
        return NotFound(id);
      }
      var i := found.value;
      var task := tasks[i];
      if !IsNullOrEmpty(dto.title) {
        task := task.(title := dto.title.value);
      }
      if dto.description.Some? {
        task := task.(description := dto.description);
      }
      if dto.status.Some? {
        task := task.(status := dto.status.value);
        if dto.status.value == Done && task.completedAt.None? {
          task := task.(completedAt := Some(now));
          everDone := everDone + {id};
        }
      }
      if dto.priority.Some? {
        task := task.(priority := dto.priority.value);
      }
      if dto.dueDate.Some? {
        task := task.(dueDate := dto.dueDate);
      }
      assert task == ApplyUpdate(tasks[i], dto, now);
      UpdateKeepsInvariant(tasks, nextId, issued, old(everDone), i, dto, now);
      tasks := tasks[i := task];
      IndexOfUnique(tasks, i);
      r := Ok(task);
    }

    /**
     * A missing key is NotFound and changes nothing; otherwise exactly the
     * record with that key is removed. Either way a later lookup of the key
     * is NotFound, and the key is never handed out again.
     */
    method DeleteTask(id: int) returns (r: Response)
      requires Valid()
      modifies this
      ensures Valid()
      ensures IndexOf(old(tasks), id).None? ==> r == NotFound(id) && unchanged(this)
      ensures IndexOf(old(tasks), id).Some? ==>
        var i := IndexOf(old(tasks), id).value;
        && r == NoContent
        && tasks == old(tasks)[..i] + old(tasks)[i + 1..]
        && multiset(tasks) == multiset(old(tasks)) - multiset{old(tasks)[i]}
      ensures GetTask(id) == NotFound(id)
      ensures nextId == old(nextId) && issued == old(issued) && everDone == old(everDone)
    {
      var found := IndexOf(tasks, id);
      if found.None? {
        return NotFound(id);
      }
      var i := found.value;
      RemoveAt(tasks, i);
      tasks := tasks[..i] + tasks[i + 1..];
      r := NoContent;
    }
  }
}
