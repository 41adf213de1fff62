/**
 * The vocabulary of the notification data path: the two event types, the
 * event record handed to extractors, the resource-kind identifier and the
 * plugin identity. Objects and resource kinds are opaque values here.
 */
module DataLayer {
  import opened Wrappers

  /** The kind of mutation an event reports; the enumeration has no third value. */
  datatype EventType = EventAddOrUpdate | EventDelete

  /** The integer a Go `EventType` constant carries (`iota` numbering). */
  function Code(t: EventType): int
  {
    match t
    case EventAddOrUpdate => 0
    case EventDelete => 1
  }

  /** Classifies an integer as an `EventType`; only the two declared constants are events. */
  function FromCode(c: int): (r: Option<EventType>)
    ensures r.Some? <==> c == 0 || c == 1
    ensures r.Some? ==> Code(r.value) == c
  {
    if c == 0 then Some(EventAddOrUpdate)
    else if c == 1 then Some(EventDelete)
    else None
  }

  /** Every event type survives the round trip through its integer code. */
  lemma CodeRoundTrip(t: EventType)
    ensures FromCode(Code(t)) == Some(t)
    ensures 0 <= Code(t) <= 1
  {
    match t
    case EventAddOrUpdate =>
    case EventDelete =>
  }

  /** An unstructured Kubernetes object, treated as an opaque document. */
  datatype Unstructured = Unstructured(document: map<string, string>)

  /**
   * One event: its type and the affected object, which is the current state
   * for an add or update and the last known state for a delete.
   */
  datatype NotificationEvent = NotificationEvent(eventType: EventType, obj: Unstructured)

  /** The group/version/kind triple naming a Kubernetes resource kind. */
  datatype GroupVersionKind = GroupVersionKind(group: string, version: string, kind: string)

  /** The identity of a plugin instance: its implementing type and its configured name. */
  datatype TypedName = TypedName(pluginType: string, name: string)
  {
    /** The rendering used in diagnostics: `Type/Name`. */
    function String(): (s: string)
      ensures |s| == |pluginType| + 1 + |name|
      ensures s[..|pluginType|] == pluginType && s[|pluginType|] == '/'
      ensures s[|pluginType| + 1..] == name
    {
      pluginType + "/" + name
    }
  }

  /**
   * Go stores every plugin as an `Extractor` interface value and narrows it
   * with a type assertion. Dafny has no runtime type test, so each extractor
   * carries a tag telling whether it also implements `NotificationExtractor`.
   */
  datatype Capability = ExtractorOnly | NotificationCapable

  datatype Extractor = Extractor(typedName: TypedName, capability: Capability)
  {
    /** Every `NotificationExtractor` is an `Extractor`; this says whether the narrowing succeeds. */
    predicate IsNotificationExtractor()
    {
      capability == NotificationCapable
    }
  }
}
