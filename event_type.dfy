/** The binlog event types, their numeric codes and names, and the two lookups
    that map a code or a name back to a type. */
module EventTypes {
  import opened Java

  datatype EventType =
    | UnknownEvent | StartEventV3 | QueryEvent | StopEvent | RotateEvent | IntvarEvent
    | SlaveEvent | AppendBlockEvent | DeleteFileEvent | RandEvent | UserVarEvent
    | FormatDescriptionEvent | XidEvent | BeginLoadQueryEvent | ExecuteLoadQueryEvent
    | TableMapEvent | WriteRowsEventV1 | UpdateRowsEventV1 | DeleteRowsEventV1
    | IncidentEvent | HeartbeatLogEvent | IgnorableLogEvent | RowsQueryLogEvent
    | WriteRowsEvent | UpdateRowsEvent | DeleteRowsEvent | GtidLogEvent
    | AnonymousGtidLogEvent | PreviousGtidsLogEvent | TransactionContextEvent
    | ViewChangeEvent | XaPrepareLogEvent | PartialUpdateRowsEvent

  /** getTypeCode(): the code each constant is declared with. */
  function Code(t: EventType): int {
    match t
    case UnknownEvent => 0
    case StartEventV3 => 1
    case QueryEvent => 2
    case StopEvent => 3
    case RotateEvent => 4
    case IntvarEvent => 5
    case SlaveEvent => 7
    case AppendBlockEvent => 9
    case DeleteFileEvent => 11
    case RandEvent => 13
    case UserVarEvent => 14
    case FormatDescriptionEvent => 15
    case XidEvent => 16
    case BeginLoadQueryEvent => 17
    case ExecuteLoadQueryEvent => 18
    case TableMapEvent => 19
    case WriteRowsEventV1 => 23
    case UpdateRowsEventV1 => 24
    case DeleteRowsEventV1 => 25
    case IncidentEvent => 26
    case HeartbeatLogEvent => 27
    case IgnorableLogEvent => 28
    case RowsQueryLogEvent => 29
    case WriteRowsEvent => 30
    case UpdateRowsEvent => 31
    case DeleteRowsEvent => 32
    case GtidLogEvent => 33
    case AnonymousGtidLogEvent => 34
    case PreviousGtidsLogEvent => 35
    case TransactionContextEvent => 36
    case ViewChangeEvent => 37
    case XaPrepareLogEvent => 38
    case PartialUpdateRowsEvent => 39
  }

  /** name(): the constant's identifier. */
  function Name(t: EventType): string {
    match t
    case UnknownEvent => "UNKNOWN_EVENT"
    case StartEventV3 => "START_EVENT_V3"
    case QueryEvent => "QUERY_EVENT"
    case StopEvent => "STOP_EVENT"
    case RotateEvent => "ROTATE_EVENT"
    case IntvarEvent => "INTVAR_EVENT"
    case SlaveEvent => "SLAVE_EVENT"
    case AppendBlockEvent => "APPEND_BLOCK_EVENT"
    case DeleteFileEvent => "DELETE_FILE_EVENT"
    case RandEvent => "RAND_EVENT"
    case UserVarEvent => "USER_VAR_EVENT"
    case FormatDescriptionEvent => "FORMAT_DESCRIPTION_EVENT"
    case XidEvent => "XID_EVENT"
    case BeginLoadQueryEvent => "BEGIN_LOAD_QUERY_EVENT"
    case ExecuteLoadQueryEvent => "EXECUTE_LOAD_QUERY_EVENT"
    case TableMapEvent => "TABLE_MAP_EVENT"
    case WriteRowsEventV1 => "WRITE_ROWS_EVENT_V1"
    case UpdateRowsEventV1 => "UPDATE_ROWS_EVENT_V1"
    case DeleteRowsEventV1 => "DELETE_ROWS_EVENT_V1"
    case IncidentEvent => "INCIDENT_EVENT"
    case HeartbeatLogEvent => "HEARTBEAT_LOG_EVENT"
    case IgnorableLogEvent => "IGNORABLE_LOG_EVENT"
    case RowsQueryLogEvent => "ROWS_QUERY_LOG_EVENT"
    case WriteRowsEvent => "WRITE_ROWS_EVENT"
    case UpdateRowsEvent => "UPDATE_ROWS_EVENT"
    case DeleteRowsEvent => "DELETE_ROWS_EVENT"
    case GtidLogEvent => "GTID_LOG_EVENT"
    case AnonymousGtidLogEvent => "ANONYMOUS_GTID_LOG_EVENT"
    case PreviousGtidsLogEvent => "PREVIOUS_GTIDS_LOG_EVENT"
    case TransactionContextEvent => "TRANSACTION_CONTEXT_EVENT"
    case ViewChangeEvent => "VIEW_CHANGE_EVENT"
    case XaPrepareLogEvent => "XA_PREPARE_LOG_EVENT"
    case PartialUpdateRowsEvent => "PARTIAL_UPDATE_ROWS_EVENT"
  }

  /** The constants in declaration order, the order the name lookup tries them. */
  const AllTypes: seq<EventType> := [
    UnknownEvent, StartEventV3, QueryEvent, StopEvent, RotateEvent, IntvarEvent,
    SlaveEvent, AppendBlockEvent, DeleteFileEvent, RandEvent, UserVarEvent,
    FormatDescriptionEvent, XidEvent, BeginLoadQueryEvent, ExecuteLoadQueryEvent,
    TableMapEvent, WriteRowsEventV1, UpdateRowsEventV1, DeleteRowsEventV1,
    IncidentEvent, HeartbeatLogEvent, IgnorableLogEvent, RowsQueryLogEvent,
    WriteRowsEvent, UpdateRowsEvent, DeleteRowsEvent, GtidLogEvent,
    AnonymousGtidLogEvent, PreviousGtidsLogEvent, TransactionContextEvent,
    ViewChangeEvent, XaPrepareLogEvent, PartialUpdateRowsEvent]

  /** getEventType(int): the switch over codes. Code 8 gives APPEND_BLOCK_EVENT
      although that constant is declared with 9; every other code gives the
      constant declared with it, and a code with no case gives UNKNOWN_EVENT. */
  function FromCode(code: int): EventType {
    match code
    case 0 => UnknownEvent
    case 1 => StartEventV3
    case 2 => QueryEvent
    case 3 => StopEvent
    case 4 => RotateEvent
    case 5 => IntvarEvent
    case 7 => SlaveEvent
    case 8 => AppendBlockEvent
    case 11 => DeleteFileEvent
    case 13 => RandEvent
    case 14 => UserVarEvent
    case 15 => FormatDescriptionEvent
    case 16 => XidEvent
    case 17 => BeginLoadQueryEvent
    case 18 => ExecuteLoadQueryEvent
    case 19 => TableMapEvent
    case 23 => WriteRowsEventV1
    case 24 => UpdateRowsEventV1
    case 25 => DeleteRowsEventV1
    case 26 => IncidentEvent
    case 27 => HeartbeatLogEvent
    case 28 => IgnorableLogEvent
    case 29 => RowsQueryLogEvent
    case 30 => WriteRowsEvent
    case 31 => UpdateRowsEvent
    case 32 => DeleteRowsEvent
    case 33 => GtidLogEvent
    case 34 => AnonymousGtidLogEvent
    case 35 => PreviousGtidsLogEvent
    case 36 => TransactionContextEvent
    case 37 => ViewChangeEvent
    case 38 => XaPrepareLogEvent
    case 39 => PartialUpdateRowsEvent
    case _ => UnknownEvent
  }

  /** The codes the switch has a case for. */
  predicate HasCase(code: int) {
    0 <= code <= 39 && code !in {6, 9, 10, 12, 20, 21, 22}
  }

  /** The declared codes are pairwise distinct. */
  lemma CodesDistinct(a: EventType, b: EventType)
    ensures Code(a) == Code(b) ==> a == b
  {
    FromCodeOfCode(a);
    FromCodeOfCode(b);
  }

  /** Looking up a constant's own code gives it back, except for
      APPEND_BLOCK_EVENT: its code 9 has no case and gives UNKNOWN_EVENT, and
      the case 8 that names it is no constant's code. */
  lemma FromCodeOfCode(t: EventType)
    ensures t != AppendBlockEvent ==> FromCode(Code(t)) == t
    ensures FromCode(Code(AppendBlockEvent)) == UnknownEvent && FromCode(8) == AppendBlockEvent
  {
  }

  /** A code without a case gives UNKNOWN_EVENT, and a code with one gives
      UNKNOWN_EVENT only when it is 0. */
  lemma FromCodeUnknown(code: int)
    ensures FromCode(code) == UnknownEvent <==> !HasCase(code) || code == 0
  {
  }

  /** getEventType(String): the first constant, in declaration order, whose
      name equals the text ignoring case, or UNKNOWN_EVENT when none does. */
  function FromName(name: string): (r: EventType)
    ensures Matches(name) ==> EqualsIgnoreCase(Name(r), name)
    ensures !Matches(name) ==> r == UnknownEvent
  {
    FirstNamed(AllTypes, name)
  }

  /** Some constant's name equals the text ignoring case. */
  predicate Matches(name: string) {
    exists t :: t in AllTypes && Named(t, name)
  }

  predicate Named(t: EventType, name: string) {
    EqualsIgnoreCase(Name(t), name)
  }

  function FirstNamed(candidates: seq<EventType>, name: string): (r: EventType)
    ensures (exists t :: t in candidates && Named(t, name)) ==> r in candidates && Named(r, name)
    ensures (forall t :: t in candidates ==> !Named(t, name)) ==> r == UnknownEvent
  {
    if candidates == [] then UnknownEvent
    else if Named(candidates[0], name) then candidates[0]
    else
      var r := FirstNamed(candidates[1..], name);
      assert forall t :: t in candidates && t != candidates[0] ==> t in candidates[1..];
      r
  }
}
