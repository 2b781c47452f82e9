/**
 * The payload of an update request: five properties, all optional, two of
 * them with length attributes. An absent property and a JSON null bind to
 * the same `None`.
 */
module UpdateTask {
  import opened Wrappers
  import opened Text
  import opened Annotations
  import opened Models

  datatype UpdateTaskDto = UpdateTaskDto(
    title: Option<string>,
    description: Option<string>,
    status: Option<Status>,
    priority: Option<Priority>,
    dueDate: Option<DateTime>)

  /** A body that supplies nothing. */
  const Empty: UpdateTaskDto := UpdateTaskDto(None, None, None, None, None)

  /** Every attribute that fails on `d`. */
  function Violations(d: UpdateTaskDto): set<Violation> {
    Check(StringLengthHolds(d.title, TitleMin, TitleMax), TitleLength)
    + Check(StringLengthHolds(d.description, 0, DescriptionMax), DescriptionLength)
  }

  predicate IsValid(d: UpdateTaskDto) {
    Violations(d) == {}
  }

  /**
   * A payload is valid exactly when a present title is 3..200 code units
   * and a present description at most 1000; status, priority and due date
   * are never the reason.
   */
  lemma ValidIff(d: UpdateTaskDto)
    ensures IsValid(d) <==>
      && (d.title.None? || TitleMin <= Utf16Length(d.title.value) <= TitleMax)
      && (d.description.None? || Utf16Length(d.description.value) <= DescriptionMax)
    ensures TitleRequired !in Violations(d)
    ensures forall s, p, due :: Violations(d.(status := s, priority := p, dueDate := due)) == Violations(d)
  {
  }

  /** Supplying nothing is valid. */
  lemma EmptyIsValid()
    ensures IsValid(Empty)
  {
  }

  /**
   * The empty string is a supplied title, and too short; the empty string
   * is a supplied description, and acceptable.
   */
  lemma EmptyStrings(d: UpdateTaskDto)
    ensures d.title == Some("") ==> TitleLength in Violations(d)
    ensures d.description == Some("") ==> DescriptionLength !in Violations(d)
  {
    assert Utf16Length("") == 0;
  }
}
