# Notification data source and declarative flags, in Dafny

This project models two small sequential parts of the Gateway API inference
extension's endpoint picker (EPP):

- **The Kubernetes notification data source** (`K8sNotificationSource`). It
  watches one resource kind (a `GroupVersionKind`, GVK) and keeps a registry
  of notification extractors keyed by extractor name. The registry has three
  rules: nil is rejected, a plugin that is not a `NotificationExtractor` is
  rejected, and a duplicate name is rejected so the first registration wins.
  `Notify` hands each informer event to every registered extractor in turn
  and carries on past failures. It wraps each failure with the extractor's
  identity and logs the batch only when it is non-empty. `Extractors` lists
  the rendered identities, and `Collect` does nothing.
  - The vocabulary comes from the data-layer interfaces: a two-valued
    `EventType`, the `NotificationEvent` record, and the
    `NotificationExtractor` capability.
  - Dafny has no runtime type assertion, so each extractor carries a
    capability tag.
- **Declarative command-line flags** (`options.AddFlags`). A list of flag
  definitions is checked against a map of destination pointers. The checks
  are: counts match, a default is present, a destination is present, the
  default's type is supported, and the destination points to that type.
  Each accepted flag's default is written through its pointer and the flag
  is registered with a flag set. A deprecated flag's value is wrapped so
  that its first successful `Set` prints a warning. String and boolean flags
  can be read back by name.

Modules:

- `Wrappers`: `Option` and `Result`.
- `DataLayer` (`datalayer.dfy`): events, plugin identity, capability tag.
- `Notification` (`notification.dfy`): the registry as pure functions with
  lemmas, and the `K8sNotificationSource` class. The class's methods are
  proved against those functions.
  - The class holds the extractor map, plus four ghost records: the notify
    history, the point in that history at which each name was registered,
    per-name received events, and the logged error batches.
  - Its invariant `Valid` says two things. Every entry is stored under its
    own name and is a notification extractor. Each extractor has received
    exactly the events notified since it was registered.
- `Options` (`options.dfy`): flag checks as pure functions, and the flag set,
  variables and deprecation wrapper as classes.
  - A Go pointer is a typed address (`Ptr`) into a `Memory` of variables.
    `*p = v` is an update of `Memory.cells`.
  - `WellTyped` says each variable holds a value of its pointer's type, as
    Go's static typing guarantees. A `Memory` starts well typed, and
    `AddFlags`, `Bind` and `DeprecatedValue.Set` keep it so.
  - `AddFlags` is a loop proved against `AddFlagsError` (the returned error),
    `Registered` (the new flag set) and `Stores` (the new variables).

## Model

| member | source | states |
|---|---|---|
| DataLayer.FromCode | pkg/epp/framework/interface/datalayer/k8s_notification.go:28-35 | exactly the integers 0 and 1 are event types, and each decodes to the constant carrying that code |
| DataLayer.CodeRoundTrip | pkg/epp/framework/interface/datalayer/k8s_notification.go:30-35 | every event type survives encoding to its `iota` code and back; the codes are 0 and 1, so there is no third variant |
| DataLayer.TypedName.String | pkg/epp/framework/plugins/datalayer/source/notification/datasource.go:65 | the rendering is the type, one `/`, then the name |
| Notification.Register | pkg/epp/framework/plugins/datalayer/source/notification/datasource.go:74-87 | success iff the plugin is non-nil, notification-capable and its name is new; nil, non-capable and duplicate each give their own error and leave the registry unchanged; success adds exactly one entry, keyed by `Name`, leaves the others untouched, and keeps every entry keyed by its own name |
| Notification.RegisteredIff | pkg/epp/framework/plugins/datalayer/source/notification/datasource.go:82-86 | over any sequence of registrations, a name ends up registered iff it was present before or some offered notification extractor carries it |
| Notification.RegisteredKept | pkg/epp/framework/plugins/datalayer/source/notification/datasource.go:82-85 | a registered extractor is never replaced by later registrations under its name |
| Notification.FirstRegistrationWins | pkg/epp/framework/plugins/datalayer/source/notification/datasource.go:82-85 | for a new name, the stored extractor is the earliest offered one carrying that name |
| Notification.DeliverAllAppends | pkg/epp/framework/plugins/datalayer/source/notification/datasource.go:94-109 | over a sequence of notifications with a fixed registry, each extractor's record is its old record followed by exactly that sequence of events |
| Notification.EnumerationSize | pkg/epp/framework/plugins/datalayer/source/notification/datasource.go:63 | a pass that visits every key once is as long as the key set |
| Notification.RenderedLists | pkg/epp/framework/plugins/datalayer/source/notification/datasource.go:61-70 | rendering one pass over the registry gives one name per entry: the length equals the map size, and the `i`-th name is the rendered identity of the `i`-th entry visited, so every entry appears and nothing else does, even when two identities render alike |
| Notification.ErrorsOfSound | pkg/epp/framework/plugins/datalayer/source/notification/datasource.go:99-107 | every collected error is the wrapped error of a visited extractor that failed |
| Notification.ErrorsOfComplete | pkg/epp/framework/plugins/datalayer/source/notification/datasource.go:100-108 | every visited extractor that failed has a collected error, since the pass does not stop at failures |
| Notification.ErrorsOfDistinct | pkg/epp/framework/plugins/datalayer/source/notification/datasource.go:100-108 | no extractor has two collected errors when each is visited once |
| Notification.ErrorsOfReports | pkg/epp/framework/plugins/datalayer/source/notification/datasource.go:99-109 | a pass over every extractor, in any order, collects exactly one wrapped error per failing extractor |
| Notification.DispatchingDone | pkg/epp/framework/plugins/datalayer/source/notification/datasource.go:99-111 | after the pass, every extractor has received the event once, the errors report exactly the failing ones, and the batch is non-empty iff one failed |
| Notification.ConsistentAdd | pkg/epp/framework/plugins/datalayer/source/notification/datasource.go:82-86 | a newly stored extractor starts with an empty event record, and the source invariant is kept |
| Notification.ConsistentDeliver | pkg/epp/framework/plugins/datalayer/source/notification/datasource.go:94-109 | delivering an event to all extractors keeps each record equal to the events notified since its registration |
| Notification.K8sNotificationSource.constructor | pkg/epp/framework/plugins/datalayer/source/notification/datasource.go:44-58 | a new source has the given type, name and GVK, no extractors and empty records; identity and GVK are constants from then on |
| Notification.K8sNotificationSource.Extractors | pkg/epp/framework/plugins/datalayer/source/notification/datasource.go:61-70 | returns one rendered identity per registered extractor and changes nothing: there is an order visiting every entry once such that the `i`-th name is the `i`-th entry's rendered identity; length equals the map size, every entry appears, nothing else does |
| Notification.K8sNotificationSource.AddExtractor | pkg/epp/framework/plugins/datalayer/source/notification/datasource.go:74-87 | the registry and the error are those of `Register`; on success the new extractor starts with an empty record; nothing else changes |
| Notification.K8sNotificationSource.Collect | pkg/epp/framework/plugins/datalayer/source/notification/datasource.go:89-92 | always returns no error and changes nothing |
| Notification.K8sNotificationSource.Dispatch | pkg/epp/framework/plugins/datalayer/source/notification/datasource.go:99-109 | the pass calls every registered extractor once, whatever the others return; it collects exactly one wrapped error per failure; it changes no state, and `delivered` is what the records become |
| Notification.K8sNotificationSource.Notify | pkg/epp/framework/plugins/datalayer/source/notification/datasource.go:94-113 | every extractor's record grows by the event; registry, identity and GVK stay; one batch holding exactly the failures is logged iff some extractor failed |
| Options.TypeError | pkg/epp/options/options.go:134-137 | a type-mismatch error naming the flag, the expected type, and the `%T` of what was given; a pointer to another type is reported as a pointer type that differs from a pointer to the expected one |
| Options.CheckFlag | pkg/epp/options/options.go:49-90 | a definition is accepted iff its default is non-nil, its destination exists and points to the default's supported type; otherwise the error is, in Go's order, nil-default, missing-variable, unsupported-type or the type error naming the default's type and the destination's `%T` |
| Options.FirstRejected | pkg/epp/options/options.go:48-90 | all definitions before the returned index are accepted and the one at it is rejected |
| Options.AddFlagsError | pkg/epp/options/options.go:39-107 | no error iff the counts match and every definition is accepted; a count mismatch is reported before anything else; otherwise the error is that of the first rejected definition |
| Options.StopsAt | pkg/epp/options/options.go:48-57 | the loop ends at the first rejected definition with its error, and nothing after it is bound |
| Options.RegisteredNothing | pkg/epp/options/options.go:40-42 | when no definition is bound, as after a count mismatch, the flag set is unchanged |
| Options.StoresAt | pkg/epp/options/options.go:59-87 | after the writes, each accepted flag's variable holds its default unless a later flag shares the variable |
| Options.StoresWellTyped | pkg/epp/options/options.go:59-87 | writing the defaults of accepted definitions keeps every variable holding a value of its pointer's type |
| Options.StoresElsewhere | pkg/epp/options/options.go:59-87 | variables no accepted flag points to keep their contents |
| Options.Bind | pkg/epp/options/options.go:59-103 | binding one accepted definition writes its default through its pointer and registers it under its name, wrapped in a fresh, not yet warned deprecation value when it is deprecated; variables stay of their types |
| Options.AddFlags | pkg/epp/options/options.go:39-107 | returns `AddFlagsError`; the definitions bound are exactly those before the first rejected one (none on a count mismatch), so earlier flags stay registered and written on failure; each is registered under its name with its usage, default and value; the variables are the old ones with those defaults written in order, and stay of their types |
| Options.AtMostOneWarning | pkg/epp/options/options.go:120-132 | over any sequence of `Set` calls a deprecated flag warns at most once, exactly once iff it had not warned and some call succeeded, and never again once warned |
| Options.WarningCountAppend | pkg/epp/options/options.go:120-132 | the warnings of two runs of calls add up, the second starting in the state the first left |
| Options.DeprecatedValue.constructor | pkg/epp/options/options.go:97-102 | a new wrapper carries the flag's name, replacement and writer, and has not warned |
| Options.DeprecatedValue.Set | pkg/epp/options/options.go:120-132 | returns exactly the inner `Set` error; the variable receives whatever the inner `Set` stores, also when it fails (Go's standard values store before returning a parse error); the variable stays of its type; `warned` becomes true on the first success only; one warning is written then, naming the replacement when there is one |
| Options.GetStringFlagValueAsWritten | pkg/epp/options/options.go:142-161 | as written the getter never succeeds on any flag `AddFlags` registers: `Get` returns a `string`, not a `*string` |
| Options.GetBoolFlagValueAsWritten | pkg/epp/options/options.go:165-184 | as written the getter never succeeds on any flag `AddFlags` registers: `Get` returns a `bool`, not a `*bool` |
| Options.GetStringFlagValue | pkg/epp/options/options.go:142-161 | succeeds iff the flag exists, is a getter and its variable holds a string, and then returns the variable's current value; with well-typed variables, that is iff the variable's type is `string`, and any other type is reported by name; an absent flag gives not-found and a deprecated flag gives not-a-getter; it reads and changes nothing else |
| Options.GetBoolFlagValue | pkg/epp/options/options.go:165-184 | the boolean counterpart of `GetStringFlagValue` |
| Options.StringDefaultReadBack | pkg/epp/options/options.go:142-161 | a non-deprecated string flag bound by `AddFlags`, whose variable no later flag shares, reads back its default; the getter as written reports a type error for it |
| Options.BoolDefaultReadBack | pkg/epp/options/options.go:165-184 | the same for a boolean flag |

## Left out

- Concurrency of the `sync.Map` registry. The registry is a sequential map.
  - The order of a `Range` pass is unspecified. The model visits the keys in
    any order it picks, and its properties are stated per extractor.
- The logging sink (`log.FromContext`, `logger.Error`) is left out.
  - Each logged batch is appended to the ghost sequence `logged`.
  - `errors.Join` and the `extractor %s: %w` wrapping are the
    `ExtractionError` record.
- `context.Context` parameters are not modelled. The behaviour of each
  extractor's `ExtractNotification` is the parameter `respond`, which gives
  the error, if any, each extractor returns for the event.
- The contents of `unstructured.Unstructured`, the internals of
  `schema.GroupVersionKind`, and the framework's deep copy: the object and
  the GVK are opaque values.
- `UnstructuredType` is left out because it is runtime reflection.
- Events are immutable values, so sharing of the event object is not
  captured. `Notify` passes the same event to every extractor
  (datasource.go:105). The event's `Object` is a pointer
  (k8s_notification.go:43) that is deep-copied once per event, not once per
  extractor (k8s_notification.go:38). A mutation by one extractor is
  therefore seen by the extractors after it, and the model cannot show this.
- A flag set holds only flags that `AddFlags` binds: a standard value of a
  supported type, or a deprecation wrapper around one. Flags defined on the
  same set by other means, such as a custom `flag.Value` passed to `fs.Var`,
  cannot be represented. So "never succeeds" for the getters as written,
  and the success condition of the corrected getters, are proved only over
  such flags. A custom `flag.Getter` whose `Get` returns a `*string` would
  make `GetStringFlagValue` as written succeed.
- `plugin.TypedName` is modelled as a record of type and name. Its source
  is not among the files modelled, so only its `String` rendering,
  `Type/Name`, is assumed.
- The type-assertion skips at datasource.go:64 and datasource.go:101-104 are
  kept. The registry holds only notification extractors, so they never fire.
- A nil flag set, which `AddFlags` (options.go:44-46), `GetStringFlagValue`
  (options.go:143-145) and `GetBoolFlagValue` (options.go:166-168) replace
  with `flag.CommandLine`, is not modelled. A flag set is always given.
- `AddFlags` and its loop: Go's `flag` package panics when a flag name is
  defined twice, and that panic is not modelled.
  - The precondition `NoRedefinition` says no definition that would be bound
    reuses a name.
- The failed `fs.Lookup` branch at options.go:93-96 is not modelled. The name
  was registered one statement before, so that branch cannot be taken.
- `Options.AddFlags`: the loop returns the first rejected definition's error
  after leaving the loop, rather than from inside it. The result and the
  state are the same.
- Error message text (`%q`, `%T` and `fmt.Errorf` formatting) is not
  modelled. Each error is a datatype variant carrying the flag name and the
  type names the message prints.
- A typed nil pointer in `vars`, on which `*p = def` would panic, is not
  modelled. Every `Pointer` designates a variable.
- The widths of `int` and `time.Duration` are not modelled. Both are
  unbounded integers, since the code never does arithmetic on them.
- The wrapped `flag.Value.Set` is the parameter `wrapped` of
  `DeprecatedValue.Set`, giving the value it stores and the error it
  returns. It is required to store a value of the variable's type.
- Command-line parsing is not modelled. That includes the wrapper's
  `String` and the `IsBoolFlag` method it does not forward.
- `fs.Output()` I/O is not modelled. Each flag set has a fixed `Output`,
  whose ghost `lines` receive the warnings.
- options.go:186-456 is commented-out code and is left out.
- pkg/epp/util/logging/fatal.go only logs and exits the process, and is left
  out.
- `Options.StoresAt`: requires that no later accepted flag share the
  variable. With aliasing pointers the later write wins, which `Stores`
  states.

## Findings

| source | as written | input that shows it | evidently intended | confidence | as-written member | corrected member |
|---|---|---|---|---|---|---|
| pkg/epp/options/options.go:155-160 | asserts the result of `flag.Getter.Get()` to `*string` | any string flag registered by `AddFlags`: Go's string flag value `Get` returns a `string`, so the assertion fails and the error "is not a string type, got string" is returned | assert to `string` and return it, so that the current value is read back | high; not executed | Options.GetStringFlagValueAsWritten | Options.GetStringFlagValue |
| pkg/epp/options/options.go:178-183 | asserts the result of `flag.Getter.Get()` to `*bool` | any boolean flag registered by `AddFlags`: Go's boolean flag value `Get` returns a `bool`, so the error "is not a bool type, got bool" is returned | assert to `bool` and return it | high; not executed | Options.GetBoolFlagValueAsWritten | Options.GetBoolFlagValue |
