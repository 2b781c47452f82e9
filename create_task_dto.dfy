/**
 * The payload of a create request: four properties, two initialised
 * defaults, and the validation attributes on Title and Description.
 */
module CreateTask {
  import opened Wrappers
  import opened Text
  import opened Annotations
  import opened Models

  /**
   * The payload once bound. `title == None` is a JSON null; `description`
   * and `dueDate` are nullable.
   */
  datatype CreateTaskDto = CreateTaskDto(
    title: Option<string>,
    description: Option<string>,
    priority: Priority,
    dueDate: Option<DateTime>)

  /** A newly constructed payload: every property at its initialiser. */
  const Initial: CreateTaskDto := CreateTaskDto(Some(""), None, Medium, None)

  /**
   * Binding a request body: each argument is `Some` when the body supplies
   * that property; an absent property keeps its initialiser.
   */
  function Bind(title: Option<string>, description: Option<string>,
                priority: Option<Priority>, dueDate: Option<DateTime>): CreateTaskDto
  {
    CreateTaskDto(
      if title.Some? then title else Initial.title,
      if description.Some? then description else Initial.description,
      priority.GetOr(Initial.priority),
      if dueDate.Some? then dueDate else Initial.dueDate)
  }

  /** Every attribute that fails on `d`; `ModelState.IsValid` is this being empty. */
  function Violations(d: CreateTaskDto): set<Violation> {
    Check(RequiredHolds(d.title), TitleRequired)
    + Check(StringLengthHolds(d.title, TitleMin, TitleMax), TitleLength)
    + Check(StringLengthHolds(d.description, 0, DescriptionMax), DescriptionLength)
  }

  predicate IsValid(d: CreateTaskDto) {
    Violations(d) == {}
  }

  /** Each violation is reported exactly when its attribute fails. */
  lemma ViolationsExact(d: CreateTaskDto)
    ensures TitleRequired in Violations(d) <==> IsNullOrWhiteSpace(d.title)
    ensures TitleLength in Violations(d) <==>
              d.title.Some? && !(TitleMin <= Utf16Length(d.title.value) <= TitleMax)
    ensures DescriptionLength in Violations(d) <==>
              d.description.Some? && Utf16Length(d.description.value) > DescriptionMax
    ensures Violations(d) <= {TitleRequired, TitleLength, DescriptionLength}
  {
  }

  /**
   * A valid payload has a title that is present, not blank and 3..200 code
   * units long (so 2..200 characters), and a description that is absent or
   * at most 1000 code units long; and conversely.
   */
  lemma ValidIff(d: CreateTaskDto)
    ensures IsValid(d) <==>
      && d.title.Some?
      && (exists i :: 0 <= i < |d.title.value| && !IsWhiteSpace(d.title.value[i]))
      && TitleMin <= Utf16Length(d.title.value) <= TitleMax
      && (d.description.None? || Utf16Length(d.description.value) <= DescriptionMax)
    ensures IsValid(d) ==> 2 <= |d.title.value| <= TitleMax
  {
    ViolationsExact(d);
    if d.title.Some? {
      NotBlankWitness(d.title.value);
    }
  }

  /** A body without a title binds the empty string, which fails both title attributes. */
  lemma MissingTitleIsInvalid(description: Option<string>,
                               priority: Option<Priority>, dueDate: Option<DateTime>)
    ensures var d := Bind(None, description, priority, dueDate);
      d.title == Some("") && TitleRequired in Violations(d) && TitleLength in Violations(d)
  {
    var d := Bind(None, description, priority, dueDate);
    ViolationsExact(d);
    assert Utf16Length("") == 0;
  }

  /** A null title fails [Required] only; [StringLength] lets null through. */
  lemma NullTitleIsInvalid(d: CreateTaskDto)
    requires d.title.None?
    ensures TitleRequired in Violations(d) && TitleLength !in Violations(d)
  {
  }

  /** Priority defaults to Medium; the other absent properties to null. */
  lemma DefaultsWhenAbsent(title: Option<string>)
    ensures var d := Bind(title, None, None, None);
      d.priority == Medium && d.description.None? && d.dueDate.None?
  {
  }

  /** Priority and due date carry no constraint. */
  lemma PriorityAndDueDateUnconstrained(d: CreateTaskDto, p: Priority, due: Option<DateTime>)
    ensures Violations(d.(priority := p, dueDate := due)) == Violations(d)
  {
  }

  /**
   * The title boundary for text without surrogate pairs and with a visible
   * character: two characters are too short, three to two hundred pass,
   * two hundred and one are too long.
   */
  lemma TitleLengthBoundary(d: CreateTaskDto)
    requires d.title.Some? && InBmp(d.title.value) && !IsNullOrWhiteSpace(d.title)
    ensures |d.title.value| < TitleMin ==> Violations(d) * {TitleRequired, TitleLength} == {TitleLength}
    ensures TitleMin <= |d.title.value| <= TitleMax ==> Violations(d) * {TitleRequired, TitleLength} == {}
    ensures TitleMax < |d.title.value| ==> Violations(d) * {TitleRequired, TitleLength} == {TitleLength}
  {
    BmpLength(d.title.value);
    ViolationsExact(d);
  }
}
