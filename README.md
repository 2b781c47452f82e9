# TaskFlow task store, modelled in Dafny

TaskFlow is a small task-tracking web API. Its only component with rules is
the tasks controller over the task table: list all tasks newest first, get
one by id, create one from a validated payload, partially update one from a
validated payload, and delete one. This project models that store, the two
request payloads with their validation attributes, and the task record, and
proves what the controller promises about each operation.

Layout:

- `wrappers.dfy` (`Wrappers`): `Option`, standing for a .NET nullable.
- `text.dfy` (`Text`): .NET string length in UTF-16 code units
  (`Utf16Length`), `Char.IsWhiteSpace`, `String.IsNullOrWhiteSpace`,
  `String.IsNullOrEmpty`.
- `annotations.dfy` (`Annotations`): the `[Required]` and `[StringLength]`
  rules as predicates, the limits 3, 200 and 1000, and the `Violation` kinds
  a bad request reports.
- `models.dfy` (`Models`): `TaskItem`, `Status` (Todo, InProgress, Done),
  `Priority` (Low, Medium, High). The source's Models file is not part of
  this model; these types come from how the controller, the payloads and
  the seed data use them. `DateTime` is an integer tick count.
- `create_task_dto.dfy` (`CreateTask`): the create payload, its
  initialisers (title `""`, priority Medium), binding of a body and its
  violations.
- `update_task_dto.dfy` (`UpdateTask`): the all-optional update payload and
  its violations.
- `tasks_controller.dfy` (`Tasks`): the `Response` outcomes (Ok, OkList,
  Created, NoContent, NotFound, BadRequest with the failing attributes),
  the field-by-field update `ApplyUpdate`, the ordering used by the list,
  and the class `TaskStore` holding the records (`tasks`), the id counter
  (`nextId`) and two ghost sets: every id ever handed out (`issued`) and the
  ids of records that have reached Done (`everDone`). Its invariant says ids
  are unique and never reused, every record meets the title and description
  limits, Done implies a completion time, and a record has a completion
  time exactly when it has ever reached Done.

The clock is the parameter `now` of create and update. Ids are handed out by
the counter, starting at 1; a deleted record's id is never handed out again.

Behaviour of the code worth noting:

- Update checks the payload before it looks up the id, so an invalid
  payload is a bad request even for a missing id; the updated record is
  not re-validated.
- In an update payload a JSON null and an absent property are the same
  (`None`): there is no explicit null-clear of the description. The empty
  string is the explicit clear, and it is applied.
- Update does not demand a visible title: a title of three spaces passes
  the update rules though the create rules (`[Required]`) refuse it
  (`Tasks.UpdateAcceptsBlankTitle`). The store invariant therefore covers
  the title's length, not its visibility.
- Update takes a title only when it is neither null nor empty. Under a valid
  payload an empty title is refused anyway, so a supplied title always lands.

## Model

| member | source | states |
|---|---|---|
| Text.Utf16Length | DTOs/CreateTaskDto.cs:10 | the length the length attributes measure lies between the character count and twice it |
| Text.BmpLength | DTOs/CreateTaskDto.cs:10-11 | without surrogate pairs that length is the character count |
| CreateTask.ViolationsExact | DTOs/CreateTaskDto.cs:9-14 | a create payload reports TitleRequired exactly when the title is null or blank, TitleLength exactly when a present title is outside 3..200, DescriptionLength exactly when a present description exceeds 1000, and nothing else |
| CreateTask.ValidIff | DTOs/CreateTaskDto.cs:9-14 | a create payload is valid if and only if its title is present, has a non-white-space character and is 3..200 long, and its description is absent or at most 1000 long; a valid title has 2..200 characters |
| CreateTask.MissingTitleIsInvalid | DTOs/CreateTaskDto.cs:9-11 | a body without a title binds the empty string and fails both title attributes |
| CreateTask.NullTitleIsInvalid | DTOs/CreateTaskDto.cs:9-11 | a null title fails Required and not StringLength |
| CreateTask.DefaultsWhenAbsent | DTOs/CreateTaskDto.cs:13-19 | an absent priority binds Medium, an absent description and due date bind null |
| CreateTask.PriorityAndDueDateUnconstrained | DTOs/CreateTaskDto.cs:16-19 | changing priority or due date never changes the violations |
| CreateTask.TitleLengthBoundary | DTOs/CreateTaskDto.cs:10-11 | for a visible title without surrogate pairs: under 3 characters or over 200 is a length violation, 3..200 passes both title attributes |
| UpdateTask.ValidIff | DTOs/UpdateTaskDto.cs:10-22 | an update payload is valid if and only if a present title is 3..200 long and a present description at most 1000 long; Required is never reported and status, priority and due date never matter |
| UpdateTask.EmptyIsValid | DTOs/UpdateTaskDto.cs:10-22 | a payload that supplies nothing is valid |
| UpdateTask.EmptyStrings | DTOs/UpdateTaskDto.cs:10-14 | an empty title is supplied and too short; an empty description is supplied and acceptable |
| Tasks.IndexOf | Controllers/TasksController.cs:35 | the lookup finds a position holding the id, or reports none exactly when no record has it |
| Tasks.IndexOfUnique | Controllers/TasksController.cs:71 | with unique ids the lookup finds the one record holding the id |
| Tasks.InsertNewestFirst | Controllers/TasksController.cs:26-28 | inserting into a newest-first list keeps it newest first and adds exactly that record |
| Tasks.SortNewestFirst | Controllers/TasksController.cs:26-28 | the listing order is a permutation of the records with createdAt non-increasing |
| Tasks.ListsThreeNewestFirst | Controllers/TasksController.cs:26-28 | tasks created at T1 < T2 < T3 are listed T3, T2, T1 |
| Tasks.NewTaskWellFormed | Controllers/TasksController.cs:47-55 | a record built from a valid create payload meets the record invariant |
| Tasks.UpdateKeepsIdentity | Controllers/TasksController.cs:75-92 | an update never changes id or createdAt |
| Tasks.AbsentFieldsUnchanged | Controllers/TasksController.cs:75-92 | a null or empty title, and an absent description, status, priority or due date leave that field as it was; without a status the completion time is untouched |
| Tasks.EmptyUpdateIsIdentity | Controllers/TasksController.cs:75-92 | an update that supplies nothing gives back the same record |
| Tasks.UpdateAppliesPresentFields | Controllers/TasksController.cs:75-92 | after an update every supplied property holds, the empty description included; under a valid payload a supplied title always lands |
| Tasks.CompletedAtRules | Controllers/TasksController.cs:81-86 | entering Done without a completion time stamps now; a present completion time is never overwritten or cleared; any other status or none leaves it; it is present afterwards exactly when it was before or Done was set |
| Tasks.DoneAgainKeepsFirstStamp | Controllers/TasksController.cs:81-86 | Done, then another status, then Done again keeps the first stamp |
| Tasks.DisjointUpdatesBothHold | Controllers/TasksController.cs:75-92 | two successive updates of different fields both hold afterwards |
| Tasks.UpdatePreservesWellFormed | Controllers/TasksController.cs:75-86 | a valid payload applied to a well-formed record keeps the title in 3..200, the description at most 1000 and Done with a completion time |
| Tasks.UpdateAcceptsBlankTitle | Controllers/TasksController.cs:75-76 | a title of three spaces passes the update rules and is stored, though the create rules refuse it |
| Tasks.UpdateKeepsInvariant | Controllers/TasksController.cs:75-92 | a valid update of one record keeps the store invariant, the stamped id joining the ever-done set |
| Tasks.TaskStore.GetTasks | Controllers/TasksController.cs:24-30 | the list holds exactly the stored records, newest first, and the store is not changed |
| Tasks.TaskStore.GetTask | Controllers/TasksController.cs:33-39 | Ok with a stored record of that id, or NotFound exactly when no record has it; the store is not changed |
| Tasks.TaskStore.CreateTask | Controllers/TasksController.cs:42-63 | an invalid payload is BadRequest with its violations and changes nothing; a valid one appends one record with a never-used id, the payload's title, description, priority and due date, status Todo, createdAt now and no completion time, leaves the other records, and a later get finds it |
| Tasks.TaskStore.UpdateTask | Controllers/TasksController.cs:66-99 | an invalid payload is BadRequest even for a missing id; a valid one for a missing id is NotFound; neither changes anything; otherwise only the addressed record becomes the payload applied to it, and the result is it |
| Tasks.TaskStore.DeleteTask | Controllers/TasksController.cs:102-114 | a missing id is NotFound and changes nothing; otherwise exactly that record is removed and the result is NoContent; afterwards a get of the id is NotFound and the counter is unchanged |

## Left out

- Tasks.TaskStore.GetTasks: does not fix the order of records with equal createdAt, because it follows the in-memory table's enumeration order, which the source does not determine.
- Asynchrony, `SaveChangesAsync`, `FindAsync` and change tracking: the store is a synchronous sequence of records.
- Aliasing: the source updates the tracked entity in place and returns it; the model replaces the record in the sequence and returns a copy of the new value.
- Logging: it has no effect on the outcome.
- Routing, the `CreatedAtAction` location URL, the JSON string-enum converters and JSON that cannot be deserialised (an unknown enum name, a malformed body): transport and serialisation. Outcomes are the `Response` datatype.
- `CreateTask.Bind` covers a body that supplies or omits each property; an explicit JSON null title is the payload value `title == None` instead.
- The 32-bit width of ids: the counter is an unbounded integer, so overflow after 2^31 records is not modelled.
- The context class's database configuration and its two seed rows, and the startup code (service wiring, Swagger, CORS, HTTPS redirection, startup seeding): configuration, not store behaviour. The store starts empty with the counter at 1.
- The real clock and date arithmetic: `now` is a parameter.
- Concurrency between requests: the controller has none of its own; the model is sequential.
