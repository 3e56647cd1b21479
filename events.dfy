/** The debounced event kinds and the event record the Python package exposes
    (python/watchfs/debounced_events.py). */
module DebouncedEvents {
  import opened Wrappers

  /** `DebouncedEventTypes`, in declaration order. */
  datatype DebouncedEventType =
    | NoticeWrite | NoticeRemove | Create | Write | Chmod | Remove | Rename | Rescan | Error

  /** ValueError raised by `DebouncedEventTypes(n)` for a value no kind has. */
  datatype ValueError = NotAValidType(value: int)

  const AllTypes: seq<DebouncedEventType> :=
    [NoticeWrite, NoticeRemove, Create, Write, Chmod, Remove, Rename, Rescan, Error]

  /** The `.value` of a kind. */
  function Value(k: DebouncedEventType): (v: nat)
    ensures v < |AllTypes| && AllTypes[v] == k
  {
    match k
    case NoticeWrite => 0
    case NoticeRemove => 1
    case Create => 2
    case Write => 3
    case Chmod => 4
    case Remove => 5
    case Rename => 6
    case Rescan => 7
    case Error => 8
  }

  /** `DebouncedEventTypes(n)`: lookup by value. */
  function FromValue(n: int): (r: Result<DebouncedEventType, ValueError>)
    ensures r.Ok? <==> 0 <= n < |AllTypes|
    ensures r.Ok? ==> Value(r.value) == n
    ensures r.Err? ==> r.error == NotAValidType(n)
  {
    if 0 <= n < |AllTypes| then Ok(AllTypes[n]) else Err(NotAValidType(n))
  }

  /** The kinds are listed with the values 0 to 8 in order, each kind once. */
  lemma ValuesInOrder()
    ensures forall i :: 0 <= i < |AllTypes| ==> Value(AllTypes[i]) == i
    ensures forall k: DebouncedEventType :: k in AllTypes
  {
    forall i | 0 <= i < |AllTypes| ensures Value(AllTypes[i]) == i {
      assert AllTypes[i] == AllTypes[Value(AllTypes[i])];
    }
    forall k: DebouncedEventType ensures k in AllTypes {
      assert AllTypes[Value(k)] == k;
    }
  }

  /** Distinct kinds have distinct values. */
  lemma ValueInjective(j: DebouncedEventType, k: DebouncedEventType)
    requires Value(j) == Value(k)
    ensures j == k
  {
  }

  /** Looking up a kind's own value gives the kind back. */
  lemma FromValueOfValue(k: DebouncedEventType)
    ensures FromValue(Value(k)) == Ok(k)
  {
  }

  /** `DebouncedEvent`: `path` is kept as given, `type` is converted with
      `DebouncedEventTypes(type)`, `error_message` is kept unchanged, None
      included. */
  datatype DebouncedEvent = DebouncedEvent(path: string, kind: DebouncedEventType, errorMessage: Option<string>)

  /** The `DebouncedEvent` constructor; it raises ValueError for a type code
      outside 0..8 and builds the record otherwise. */
  function NewDebouncedEvent(path: string, typeCode: int, errorMessage: Option<string>): (r: Result<DebouncedEvent, ValueError>)
    ensures r.Ok? <==> 0 <= typeCode <= 8
    ensures r.Ok? ==> r.value.path == path && Value(r.value.kind) == typeCode && r.value.errorMessage == errorMessage
    ensures r.Err? ==> r.error == NotAValidType(typeCode)
  {
    match FromValue(typeCode)
    case Err(e) => Err(e)
    case Ok(kind) => Ok(DebouncedEvent(path, kind, errorMessage))
  }

  /** A created file: type code 2 is CREATE and the empty error message is
      kept, as the watcher tests expect. */
  lemma CreatedFileEvent(path: string)
    ensures NewDebouncedEvent(path, 2, Some("")) == Ok(DebouncedEvent(path, Create, Some("")))
  {
  }
}
