/**
 * The Kubernetes notification data source: a registry of notification
 * extractors keyed by name, bound to one resource kind, with a synchronous
 * fan-out of every event to every registered extractor.
 */
module Notification {
  import opened Wrappers
  import opened DataLayer

  /** Why `AddExtractor` refused a plugin. */
  datatype RegistrationError =
    | NilExtractor
    | NotNotificationExtractor(extractor: TypedName)
    | DuplicateExtractor(extractor: TypedName, source: TypedName)

  /** One extractor's failure on one event, wrapped with the extractor's identity. */
  datatype ExtractionError = ExtractionError(extractor: TypedName, cause: string)

  /** The extractor map: key is the extractor's `TypedName().Name` only. */
  type Registry = map<string, Extractor>

  /** Every entry is stored under its own name and is a notification extractor. */
  predicate WellKeyed(reg: Registry)
  {
    forall n :: n in reg ==> reg[n].typedName.name == n && reg[n].IsNotificationExtractor()
  }

  /** The registry after one registration attempt, and the error it returned. */
  datatype Registration = Registration(registry: Registry, err: Option<RegistrationError>)

  /**
   * One `AddExtractor` call on the registry `reg` of the source named `owner`:
   * nil is refused, a plugin without the notification capability is refused,
   * a name already present is refused (the stored extractor stays), and
   * anything else is stored under its name.
   */
  function Register(reg: Registry, ext: Option<Extractor>, owner: TypedName): (r: Registration)
    ensures r.err.None? <==>
              ext.Some? && ext.value.IsNotificationExtractor() && ext.value.typedName.name !in reg
    ensures r.err.Some? ==> r.registry == reg
    ensures ext.None? ==> r.err == Some(NilExtractor)
    ensures ext.Some? && !ext.value.IsNotificationExtractor() ==>
              r.err == Some(NotNotificationExtractor(ext.value.typedName))
    ensures ext.Some? && ext.value.IsNotificationExtractor() && ext.value.typedName.name in reg ==>
              r.err == Some(DuplicateExtractor(ext.value.typedName, owner))
    ensures r.err.None? ==>
              && r.registry.Keys == reg.Keys + {ext.value.typedName.name}
              && r.registry[ext.value.typedName.name] == ext.value
              && forall n :: n in reg ==> r.registry[n] == reg[n]
    ensures |r.registry| == |reg| + (if r.err.None? then 1 else 0)
    ensures WellKeyed(reg) ==> WellKeyed(r.registry)
  {
    if ext.None? then Registration(reg, Some(NilExtractor))
    else if !ext.value.IsNotificationExtractor() then
      Registration(reg, Some(NotNotificationExtractor(ext.value.typedName)))
    else if ext.value.typedName.name in reg then
      Registration(reg, Some(DuplicateExtractor(ext.value.typedName, owner)))
    else
      Registration(reg[ext.value.typedName.name := ext.value], None)
  }

  /** The registry after a sequence of `AddExtractor` calls, in order. */
  function RegisterAll(reg: Registry, exts: seq<Option<Extractor>>, owner: TypedName): Registry
    decreases |exts|
  {
    if exts == [] then reg
    else RegisterAll(Register(reg, exts[0], owner).registry, exts[1..], owner)
  }

  /** The `i`-th plugin of `exts` is a notification extractor named `n`. */
  predicate Offers(exts: seq<Option<Extractor>>, i: int, n: string)
    requires 0 <= i < |exts|
  {
    exts[i].Some? && exts[i].value.IsNotificationExtractor() && exts[i].value.typedName.name == n
  }

  /** The registrations after the first one see the offers shifted by one. */
  lemma OffersTail(exts: seq<Option<Extractor>>, n: string)
    requires exts != []
    ensures forall i :: 1 <= i < |exts| ==> Offers(exts, i, n) == Offers(exts[1..], i - 1, n)
  {
    forall i | 1 <= i < |exts| ensures Offers(exts, i, n) == Offers(exts[1..], i - 1, n) {
      assert exts[i] == exts[1..][i - 1];
    }
  }

  /**
   * Over any sequence of registrations, a name ends up registered exactly when
   * it was already present or some offered notification extractor carries it.
   */
  lemma {:induction false} RegisteredIff(reg: Registry, exts: seq<Option<Extractor>>,
                                         owner: TypedName, n: string)
    ensures n in RegisterAll(reg, exts, owner) <==>
              n in reg || exists i :: 0 <= i < |exts| && Offers(exts, i, n)
    decreases |exts|
  {
    if exts != [] {
      var next := Register(reg, exts[0], owner).registry;
      assert RegisterAll(reg, exts, owner) == RegisterAll(next, exts[1..], owner);
      assert n in next <==> n in reg || Offers(exts, 0, n);
      RegisteredIff(next, exts[1..], owner, n);
      OffersTail(exts, n);
      if exists i :: 0 <= i < |exts[1..]| && Offers(exts[1..], i, n) {
        var k :| 0 <= k < |exts[1..]| && Offers(exts[1..], k, n);
        assert Offers(exts, k + 1, n);
      }
    }
  }

  /** A name already registered keeps its extractor over any later registrations. */
  lemma {:induction false} RegisteredKept(reg: Registry, exts: seq<Option<Extractor>>,
                                          owner: TypedName, n: string)
    requires n in reg
    ensures n in RegisterAll(reg, exts, owner) && RegisterAll(reg, exts, owner)[n] == reg[n]
    decreases |exts|
  {
    if exts != [] {
      RegisteredKept(Register(reg, exts[0], owner).registry, exts[1..], owner, n);
    }
  }

  /**
   * For a name not yet registered, the extractor stored under it is the
   * earliest offered notification extractor carrying it: the first one wins.
   */
  lemma {:induction false} FirstRegistrationWins(reg: Registry, exts: seq<Option<Extractor>>,
                                                 owner: TypedName, n: string, i: int)
    requires n !in reg && 0 <= i < |exts| && Offers(exts, i, n)
    requires forall j :: 0 <= j < i ==> !Offers(exts, j, n)
    ensures n in RegisterAll(reg, exts, owner) && RegisterAll(reg, exts, owner)[n] == exts[i].value
    decreases |exts|
  {
    var next := Register(reg, exts[0], owner).registry;
    if i == 0 {
      RegisteredKept(next, exts[1..], owner, n);
    } else {
      OffersTail(exts, n);
      assert !Offers(exts, 0, n);
      assert n !in next;
      forall j | 0 <= j < i - 1 ensures !Offers(exts[1..], j, n) {
        assert !Offers(exts, j + 1, n);
      }
      FirstRegistrationWins(next, exts[1..], owner, n, i - 1);
    }
  }

  /** Extractors are told about event `e`: each one's record grows by `e`. */
  function Deliver(received: map<string, seq<NotificationEvent>>, e: NotificationEvent)
    : map<string, seq<NotificationEvent>>
  {
    map n | n in received :: received[n] + [e]
  }

  /** The records after a sequence of `Notify` calls with a fixed registry. */
  function DeliverAll(received: map<string, seq<NotificationEvent>>, events: seq<NotificationEvent>)
    : map<string, seq<NotificationEvent>>
    decreases |events|
  {
    if events == [] then received else DeliverAll(Deliver(received, events[0]), events[1..])
  }

  /**
   * Over a sequence of `Notify` calls with the registry fixed, every extractor
   * sees exactly that sequence of events, in order, after what it had before.
   */
  lemma {:induction false} DeliverAllAppends(received: map<string, seq<NotificationEvent>>,
                                             events: seq<NotificationEvent>)
    ensures DeliverAll(received, events).Keys == received.Keys
    ensures forall n :: n in received ==> DeliverAll(received, events)[n] == received[n] + events
    decreases |events|
  {
    if events != [] {
      var next := Deliver(received, events[0]);
      DeliverAllAppends(next, events[1..]);
      forall n | n in received
        ensures DeliverAll(received, events)[n] == received[n] + events
      {
        calc {
          DeliverAll(received, events)[n];
          DeliverAll(next, events[1..])[n];
          (received[n] + [events[0]]) + events[1..];
          { assert events == [events[0]] + events[1..]; }
          received[n] + events;
        }
      }
    }
  }

  /** No name occurs twice in `order`. */
  ghost predicate Distinct(order: seq<string>)
  {
    forall i, j :: 0 <= i < j < |order| ==> order[i] != order[j]
  }

  /** `order` lists every name of `names` exactly once: one pass of a `Range` over the map. */
  ghost predicate Enumerates(order: seq<string>, names: set<string>)
  {
    Distinct(order) && forall n :: n in names <==> n in order
  }

  /** Visiting one more, not yet visited, name extends the enumeration. */
  lemma EnumeratesStep(order: seq<string>, names: set<string>, n: string)
    requires Enumerates(order, names) && n !in names
    ensures Enumerates(order + [n], names + {n})
  {
    var order' := order + [n];
    forall i, j | 0 <= i < j < |order'| ensures order'[i] != order'[j] {
      assert order'[i] == order[i];
      if j < |order| { assert order'[j] == order[j]; }
    }
    forall m ensures m in names + {n} <==> m in order' {
      assert m in order' <==> m in order || m == n;
    }
  }

  /** Dropping the last name visited leaves an enumeration of the rest. */
  lemma EnumeratesFront(order: seq<string>, names: set<string>)
    requires Enumerates(order, names) && order != []
    ensures order[|order| - 1] in names
    ensures Enumerates(order[..|order| - 1], names - {order[|order| - 1]})
  {
    var last := order[|order| - 1];
    var front := order[..|order| - 1];
    forall i, j | 0 <= i < j < |front| ensures front[i] != front[j] {
      assert front[i] == order[i] && front[j] == order[j];
    }
    forall m ensures m in names - {last} <==> m in front {
      if m in front {
        var k :| 0 <= k < |front| && front[k] == m;
        assert order[k] == m;
      }
      if m in names - {last} {
        var k :| 0 <= k < |order| && order[k] == m;
        assert k != |order| - 1;
        assert front[k] == m;
      }
    }
  }

  /** An enumeration is exactly as long as the set it enumerates. */
  lemma {:induction false} EnumerationSize(order: seq<string>, names: set<string>)
    requires Enumerates(order, names)
    ensures |order| == |names|
    decreases |order|
  {
    if order != [] {
      EnumeratesFront(order, names);
      EnumerationSize(order[..|order| - 1], names - {order[|order| - 1]});
    }
  }

  /**
   * The rendered `TypedName` of each extractor in `order`, in that order,
   * skipping any entry that is not a notification extractor (the type
   * assertion in the `Range` callback).
   */
  function Rendered(order: seq<string>, reg: Registry): seq<string>
    decreases |order|
  {
    if order == [] then []
    else
      var last := order[|order| - 1];
      Rendered(order[..|order| - 1], reg) +
        (if last in reg && reg[last].IsNotificationExtractor() then [reg[last].typedName.String()] else [])
  }

  /** In a well-keyed registry nothing is skipped: position `i` renders the `i`-th extractor visited. */
  lemma {:induction false} RenderedAt(order: seq<string>, reg: Registry, i: int)
    requires WellKeyed(reg) && forall k :: 0 <= k < |order| ==> order[k] in reg
    requires 0 <= i < |order|
    ensures |Rendered(order, reg)| == |order|
    ensures Rendered(order, reg)[i] == reg[order[i]].typedName.String()
    decreases |order|
  {
    var front := order[..|order| - 1];
    if i < |order| - 1 {
      RenderedAt(front, reg, i);
    } else if front != [] {
      RenderedAt(front, reg, 0);
    }
  }

  /**
   * Rendering an enumeration of the whole registry lists every extractor once:
   * as many names as entries, the `i`-th being the `i`-th entry visited, so
   * each entry's name present and nothing else.
   */
  lemma RenderedLists(order: seq<string>, reg: Registry)
    requires WellKeyed(reg) && Enumerates(order, reg.Keys)
    ensures |Rendered(order, reg)| == |reg| == |order|
    ensures forall i :: 0 <= i < |order| ==> Rendered(order, reg)[i] == reg[order[i]].typedName.String()
    ensures forall n :: n in reg ==> reg[n].typedName.String() in Rendered(order, reg)
    ensures forall i :: 0 <= i < |Rendered(order, reg)| ==>
              exists n :: n in reg && Rendered(order, reg)[i] == reg[n].typedName.String()
  {
    var names := Rendered(order, reg);
    EnumerationSize(order, reg.Keys);
    assert forall k :: 0 <= k < |order| ==> order[k] in reg;
    if order != [] {
      RenderedAt(order, reg, 0);
    }
    forall n | n in reg ensures reg[n].typedName.String() in names {
      var k :| 0 <= k < |order| && order[k] == n;
      RenderedAt(order, reg, k);
    }
    forall i | 0 <= i < |names|
      ensures exists n :: n in reg && names[i] == reg[n].typedName.String()
    {
      RenderedAt(order, reg, i);
    }
    forall i | 0 <= i < |order| ensures names[i] == reg[order[i]].typedName.String() {
      RenderedAt(order, reg, i);
    }
  }

  /** Halfway through `Extractors`: the names visited so far are rendered into `names`. */
  ghost predicate Listing(names: seq<string>, visited: seq<string>, todo: set<string>, reg: Registry)
  {
    && todo <= reg.Keys
    && Enumerates(visited, reg.Keys - todo)
    && names == Rendered(visited, reg)
  }

  /** One more `Range` callback of `Extractors`, on the entry `n`. */
  lemma ListingStep(names: seq<string>, visited: seq<string>, todo: set<string>, reg: Registry,
                    n: string)
    requires Listing(names, visited, todo, reg) && n in todo
    ensures Listing(names + (if reg[n].IsNotificationExtractor() then [reg[n].typedName.String()] else []),
                    visited + [n], todo - {n}, reg)
  {
    EnumeratesStep(visited, reg.Keys - todo, n);
    assert reg.Keys - (todo - {n}) == (reg.Keys - todo) + {n};
    assert (visited + [n])[..|visited|] == visited;
  }

  /** The notification extractor registered as `n` fails on the event: `respond` gives it an error. */
  predicate Fails(reg: Registry, respond: TypedName -> Option<string>, n: string)
  {
    n in reg && reg[n].IsNotificationExtractor() && respond(reg[n].typedName).Some?
  }

  /** Names of the registered extractors whose `ExtractNotification` fails. */
  function Failing(reg: Registry, respond: TypedName -> Option<string>): set<string>
  {
    set n | n in reg && Fails(reg, respond, n)
  }

  /** The error `Notify` collects for a failing extractor: its cause, tagged with its identity. */
  function Wrapped(reg: Registry, respond: TypedName -> Option<string>, n: string): ExtractionError
    requires Fails(reg, respond, n)
  {
    ExtractionError(reg[n].typedName, respond(reg[n].typedName).value)
  }

  /** The errors collected while visiting the extractors of `order`, in that order. */
  function ErrorsOf(order: seq<string>, reg: Registry, respond: TypedName -> Option<string>)
    : seq<ExtractionError>
    decreases |order|
  {
    if order == [] then []
    else
      var last := order[|order| - 1];
      ErrorsOf(order[..|order| - 1], reg, respond) +
        (if Fails(reg, respond, last) then [Wrapped(reg, respond, last)] else [])
  }

  /**
   * `errs` holds exactly one wrapped error per failing extractor among `names`
   * and nothing else: every entry is the wrapped error of a failing extractor,
   * every failing extractor has an entry, and no extractor has two.
   */
  ghost predicate ReportsFor(errs: seq<ExtractionError>, names: set<string>, reg: Registry,
                             respond: TypedName -> Option<string>)
  {
    && (forall i :: 0 <= i < |errs| ==>
          && errs[i].extractor.name in names
          && Fails(reg, respond, errs[i].extractor.name)
          && errs[i] == Wrapped(reg, respond, errs[i].extractor.name))
    && (forall n :: n in names && Fails(reg, respond, n) ==>
          exists i :: 0 <= i < |errs| && errs[i].extractor.name == n)
    && (forall i, j :: 0 <= i < j < |errs| ==> errs[i].extractor.name != errs[j].extractor.name)
  }

  /** `errs` holds exactly one wrapped error per failing registered extractor, and nothing else. */
  ghost predicate ReportsExactly(errs: seq<ExtractionError>, reg: Registry,
                                 respond: TypedName -> Option<string>)
  {
    ReportsFor(errs, reg.Keys, reg, respond)
  }

  /** Every collected error is the wrapped error of a failing extractor visited. */
  lemma {:induction false} ErrorsOfSound(order: seq<string>, reg: Registry,
                                         respond: TypedName -> Option<string>)
    requires WellKeyed(reg)
    ensures forall i :: 0 <= i < |ErrorsOf(order, reg, respond)| ==>
              && ErrorsOf(order, reg, respond)[i].extractor.name in order
              && Fails(reg, respond, ErrorsOf(order, reg, respond)[i].extractor.name)
              && ErrorsOf(order, reg, respond)[i] ==
                 Wrapped(reg, respond, ErrorsOf(order, reg, respond)[i].extractor.name)
    decreases |order|
  {
    if order != [] {
      var front := order[..|order| - 1];
      var prev := ErrorsOf(front, reg, respond);
      var errs := ErrorsOf(order, reg, respond);
      ErrorsOfSound(front, reg, respond);
      forall i | 0 <= i < |errs|
        ensures errs[i].extractor.name in order && Fails(reg, respond, errs[i].extractor.name)
        ensures errs[i] == Wrapped(reg, respond, errs[i].extractor.name)
      {
        if i < |prev| {
          assert errs[i] == prev[i];
          var k :| 0 <= k < |front| && front[k] == prev[i].extractor.name;
          assert order[k] == front[k];
        }
      }
    }
  }

  /** Every failing extractor visited has a collected error. */
  lemma {:induction false} ErrorsOfComplete(order: seq<string>, reg: Registry,
                                            respond: TypedName -> Option<string>, n: string)
    requires WellKeyed(reg) && n in order && Fails(reg, respond, n)
    ensures exists i :: 0 <= i < |ErrorsOf(order, reg, respond)| &&
                        ErrorsOf(order, reg, respond)[i].extractor.name == n
    decreases |order|
  {
    var front := order[..|order| - 1];
    var prev := ErrorsOf(front, reg, respond);
    var errs := ErrorsOf(order, reg, respond);
    assert errs == prev + (if Fails(reg, respond, order[|order| - 1]) then
                             [Wrapped(reg, respond, order[|order| - 1])] else []);
    if n == order[|order| - 1] {
      assert errs[|errs| - 1].extractor.name == n;
    } else {
      var k :| 0 <= k < |order| && order[k] == n;
      assert front[k] == n;
      ErrorsOfComplete(front, reg, respond, n);
      var i :| 0 <= i < |prev| && prev[i].extractor.name == n;
      assert errs[i] == prev[i];
    }
  }

  /** Visiting each extractor at most once collects at most one error per extractor. */
  lemma {:induction false} ErrorsOfDistinct(order: seq<string>, reg: Registry,
                                            respond: TypedName -> Option<string>)
    requires WellKeyed(reg) && Distinct(order)
    ensures forall i, j :: 0 <= i < j < |ErrorsOf(order, reg, respond)| ==>
              ErrorsOf(order, reg, respond)[i].extractor.name !=
              ErrorsOf(order, reg, respond)[j].extractor.name
    decreases |order|
  {
    if order != [] {
      var last := order[|order| - 1];
      var front := order[..|order| - 1];
      var prev := ErrorsOf(front, reg, respond);
      var errs := ErrorsOf(order, reg, respond);
      assert Distinct(front) by {
        forall i, j | 0 <= i < j < |front| ensures front[i] != front[j] {
          assert front[i] == order[i] && front[j] == order[j];
        }
      }
      ErrorsOfDistinct(front, reg, respond);
      ErrorsOfSound(front, reg, respond);
      assert last !in front by {
        forall k | 0 <= k < |front| ensures front[k] != last {
          assert front[k] == order[k];
        }
      }
      forall i, j | 0 <= i < j < |errs|
        ensures errs[i].extractor.name != errs[j].extractor.name
      {
        assert errs[i] == prev[i];
        if j < |prev| { assert errs[j] == prev[j]; }
        else { assert errs[j].extractor.name == last && prev[i].extractor.name in front; }
      }
    }
  }

  /**
   * Visiting every extractor of `names` once, in any order, collects exactly
   * one error per failing extractor; the batch is empty exactly when no
   * extractor failed.
   */
  lemma ErrorsOfReports(order: seq<string>, names: set<string>, reg: Registry,
                        respond: TypedName -> Option<string>)
    requires WellKeyed(reg) && Enumerates(order, names)
    ensures ReportsFor(ErrorsOf(order, reg, respond), names, reg, respond)
  {
    ErrorsOfSound(order, reg, respond);
    ErrorsOfDistinct(order, reg, respond);
    forall n | n in names && Fails(reg, respond, n)
      ensures exists i :: 0 <= i < |ErrorsOf(order, reg, respond)| &&
                          ErrorsOf(order, reg, respond)[i].extractor.name == n
    {
      ErrorsOfComplete(order, reg, respond, n);
    }
  }

  /**
   * Halfway through `Notify`: every visited extractor has received `event` on
   * top of its record `before`, the others not yet, and `errs` holds the
   * errors of the visited ones.
   */
  ghost predicate Dispatching(errs: seq<ExtractionError>, rec: map<string, seq<NotificationEvent>>,
                              visited: seq<string>, todo: set<string>,
                              before: map<string, seq<NotificationEvent>>, reg: Registry,
                              respond: TypedName -> Option<string>, event: NotificationEvent)
  {
    && todo <= reg.Keys
    && Enumerates(visited, reg.Keys - todo)
    && rec.Keys == before.Keys == reg.Keys
    && (forall n :: n in rec ==> rec[n] == before[n] + (if n in todo then [] else [event]))
    && errs == ErrorsOf(visited, reg, respond)
  }

  /** One more `Range` callback of `Notify`, on the entry `n`. */
  lemma DispatchingStep(errs: seq<ExtractionError>, rec: map<string, seq<NotificationEvent>>,
                        visited: seq<string>, todo: set<string>,
                        before: map<string, seq<NotificationEvent>>, reg: Registry,
                        respond: TypedName -> Option<string>, event: NotificationEvent, n: string)
    requires Dispatching(errs, rec, visited, todo, before, reg, respond, event)
    requires WellKeyed(reg) && n in todo
    ensures Dispatching(errs + (if Fails(reg, respond, n) then [Wrapped(reg, respond, n)] else []),
                        rec[n := rec[n] + [event]], visited + [n], todo - {n},
                        before, reg, respond, event)
  {
    EnumeratesStep(visited, reg.Keys - todo, n);
    assert reg.Keys - (todo - {n}) == (reg.Keys - todo) + {n};
    assert (visited + [n])[..|visited|] == visited;
  }

  /** Records that each grew by exactly `e` are what `Deliver` gives. */
  lemma DeliveredToAll(rec: map<string, seq<NotificationEvent>>,
                       before: map<string, seq<NotificationEvent>>, e: NotificationEvent)
    requires rec.Keys == before.Keys
    requires forall n :: n in rec ==> rec[n] == before[n] + [e]
    ensures rec == Deliver(before, e)
  {
  }

  /** Once every entry is visited, the records are `Deliver`'s and the errors are exactly reported. */
  lemma DispatchingDone(errs: seq<ExtractionError>, rec: map<string, seq<NotificationEvent>>,
                        visited: seq<string>, before: map<string, seq<NotificationEvent>>,
                        reg: Registry, respond: TypedName -> Option<string>, event: NotificationEvent)
    requires Dispatching(errs, rec, visited, {}, before, reg, respond, event) && WellKeyed(reg)
    ensures rec == Deliver(before, event)
    ensures ReportsExactly(errs, reg, respond)
    ensures |errs| > 0 <==> Failing(reg, respond) != {}
  {
    DeliveredToAll(rec, before, event);
    ErrorsOfReports(visited, reg.Keys, reg, respond);
    if |errs| > 0 {
      assert errs[0].extractor.name in Failing(reg, respond);
    }
    if Failing(reg, respond) != {} {
      var n :| n in Failing(reg, respond);
      assert Fails(reg, respond, n);
    }
  }

  /**
   * The bookkeeping of a source: one entry per name, each a notification
   * extractor, and each extractor's record is exactly the events of `history`
   * from the moment `at` it was registered.
   */
  ghost predicate Consistent(reg: Registry, at: map<string, nat>,
                             received: map<string, seq<NotificationEvent>>,
                             history: seq<NotificationEvent>)
  {
    && WellKeyed(reg)
    && received.Keys == reg.Keys
    && at.Keys == reg.Keys
    && forall n :: n in reg ==> at[n] <= |history| && received[n] == history[at[n]..]
  }

  /** A newly stored extractor starts with an empty record and stays consistent. */
  lemma ConsistentAdd(reg: Registry, at: map<string, nat>,
                      received: map<string, seq<NotificationEvent>>,
                      history: seq<NotificationEvent>, e: Extractor)
    requires Consistent(reg, at, received, history)
    requires e.IsNotificationExtractor() && e.typedName.name !in reg
    ensures Consistent(reg[e.typedName.name := e], at[e.typedName.name := |history|],
                       received[e.typedName.name := []], history)
  {
    assert history[|history|..] == [];
  }

  /** Delivering one more event to every extractor keeps the records consistent. */
  lemma ConsistentDeliver(reg: Registry, at: map<string, nat>,
                          received: map<string, seq<NotificationEvent>>,
                          history: seq<NotificationEvent>, e: NotificationEvent)
    requires Consistent(reg, at, received, history)
    ensures Consistent(reg, at, Deliver(received, e), history + [e])
  {
    forall n | n in reg
      ensures Deliver(received, e)[n] == (history + [e])[at[n]..]
    {
      assert (history + [e])[at[n]..] == history[at[n]..] + [e];
    }
  }

  /**
   * A notification source for one resource kind. `typedName` and `gvk` are
   * what Go's `TypedName()` and `GVK()` return; they are constants, fixed by
   * the constructor. The ghost fields record what the extractors were handed
   * and what was logged.
   */
  class K8sNotificationSource {
    const typedName: TypedName
    const gvk: GroupVersionKind
    var extractors: Registry

    /** Every event `Notify` was called with, in call order. */
    ghost var history: seq<NotificationEvent>
    /** For each registered name, the length of `history` when it was registered. */
    ghost var registeredAt: map<string, nat>
    /** For each registered name, the events its `ExtractNotification` received, in order. */
    ghost var received: map<string, seq<NotificationEvent>>
    /** The error batches `Notify` logged, one per call that had failures. */
    ghost var logged: seq<seq<ExtractionError>>

    /**
     * One entry per name, each a notification extractor; each extractor has
     * received exactly the events notified since it was registered.
     */
    ghost predicate Valid()
      reads this
    {
      Consistent(extractors, registeredAt, received, history)
    }

    constructor (pluginType: string, pluginName: string, gvk: GroupVersionKind)
      ensures Valid()
      ensures typedName == TypedName(pluginType, pluginName) && this.gvk == gvk
      ensures extractors == map[] && history == [] && logged == []
    {
      typedName := TypedName(pluginType, pluginName);
      this.gvk := gvk;
      extractors := map[];
      history := [];
      registeredAt := map[];
      received := map[];
      logged := [];
    }

    /** The rendered `TypedName` of every registered extractor, one per entry. */
    method Extractors() returns (names: seq<string>)
      requires Valid()
      ensures |names| == |extractors|
      ensures exists order :: Enumerates(order, extractors.Keys) && |order| == |names| &&
                forall i :: 0 <= i < |order| ==> names[i] == extractors[order[i]].typedName.String()
      ensures forall n :: n in extractors ==> extractors[n].typedName.String() in names
      ensures forall i :: 0 <= i < |names| ==>
                exists n :: n in extractors && names[i] == extractors[n].typedName.String()
    {
      names := [];
      var todo := extractors.Keys;
      ghost var visited: seq<string> := [];
      while todo != {}
        invariant Listing(names, visited, todo, extractors)
        modifies {}
        decreases todo
      {
        var n :| n in todo;
        ListingStep(names, visited, todo, extractors, n);
        var ext := extractors[n];
        if ext.IsNotificationExtractor() {
          names := names + [ext.typedName.String()];
        }
        visited := visited + [n];
        todo := todo - {n};
      }
      assert extractors.Keys - todo == extractors.Keys;
      RenderedLists(visited, extractors);
    }

    /** Registers `ext` (`None` stands for Go's nil) under its name, first one wins. */
    method AddExtractor(ext: Option<Extractor>) returns (err: Option<RegistrationError>)
      requires Valid()
      modifies this
      ensures Valid()
      ensures Registration(extractors, err) == Register(old(extractors), ext, typedName)
      ensures history == old(history) && logged == old(logged)
      ensures err.Some? ==> received == old(received) && registeredAt == old(registeredAt)
      ensures err.None? ==> received == old(received)[ext.value.typedName.name := []]
    {
      if ext.None? {
        return Some(NilExtractor);
      }
      var e := ext.value;
      if !e.IsNotificationExtractor() {
        return Some(NotNotificationExtractor(e.typedName));
      }
      var name := e.typedName.name;
      if name in extractors {
        return Some(DuplicateExtractor(e.typedName, typedName));
      }
      ConsistentAdd(extractors, registeredAt, received, history, e);
      extractors := extractors[name := e];
      received := received[name := []];
      registeredAt := registeredAt[name := |history|];
      err := None;
    }

    /** Polling entry point; a notification source is event-driven, so this does nothing. */
    method Collect<Endpoint>(endpoint: Endpoint) returns (err: Option<string>)
      ensures err == None
    {
      err := None;
    }

    /**
     * The `Range` pass of `Notify`: calls `ExtractNotification` once on every
     * registered extractor, in some order, whatever the others return, and
     * collects one wrapped error per failure. `delivered` is what the
     * extractors' records become.
     */
    method Dispatch(event: NotificationEvent, respond: TypedName -> Option<string>)
      returns (errs: seq<ExtractionError>, ghost delivered: map<string, seq<NotificationEvent>>)
      requires Valid()
      ensures delivered == Deliver(received, event)
      ensures ReportsExactly(errs, extractors, respond)
      ensures |errs| > 0 <==> Failing(extractors, respond) != {}
    {
      errs := [];
      delivered := received;
      var todo := extractors.Keys;
      ghost var visited: seq<string> := [];
      while todo != {}
        invariant Dispatching(errs, delivered, visited, todo, received, extractors, respond, event)
        decreases todo
      {
        var n :| n in todo;
        DispatchingStep(errs, delivered, visited, todo, received, extractors, respond, event, n);
        var ext := extractors[n];
        if ext.IsNotificationExtractor() {
          delivered := delivered[n := delivered[n] + [event]];
          var res := respond(ext.typedName);
          if res.Some? {
            errs := errs + [ExtractionError(ext.typedName, res.value)];
          }
        }
        visited := visited + [n];
        todo := todo - {n};
      }
      DispatchingDone(errs, delivered, visited, received, extractors, respond, event);
    }

    /**
     * Hands `event` to every registered extractor, whatever the others return.
     * `respond` gives the error, if any, each extractor's `ExtractNotification`
     * returns for this event. Nothing is returned to the caller; the failures
     * are logged as one batch, and only when there is at least one.
     */
    method Notify(event: NotificationEvent, respond: TypedName -> Option<string>)
      requires Valid()
      modifies this
      ensures Valid()
      ensures extractors == old(extractors) && registeredAt == old(registeredAt)
      ensures history == old(history) + [event]
      ensures received == Deliver(old(received), event)
      ensures Failing(extractors, respond) == {} ==> logged == old(logged)
      ensures Failing(extractors, respond) != {} ==>
                && |logged| == |old(logged)| + 1
                && logged[..|old(logged)|] == old(logged)
                && ReportsExactly(logged[|old(logged)|], extractors, respond)
    {
      var errs, delivered := Dispatch(event, respond);
      ConsistentDeliver(extractors, registeredAt, received, history, event);
      received := delivered;
      history := history + [event];
      if |errs| > 0 {
        logged := logged + [errs];
      }
    }
  }
}
