/**
 * Declarative command-line flags: a list of flag definitions is checked
 * against a map of destination variables and registered with a flag set,
 * deprecated flags are wrapped so that their first successful use prints a
 * warning, and string and boolean flags can be read back by name.
 *
 * Go pointers are modelled as typed addresses (`Ptr`) into a `Memory` of
 * variables; `*p = v` is an update of `Memory.cells`.
 */
module Options {
  import opened Wrappers

  /** The default-value types `AddFlags` supports. */
  datatype Kind = StringKind | IntKind | BoolKind | DurationKind

  /** A dynamically typed Go value: a flag default or a variable's contents. */
  datatype Value =
    | Str(s: string)
    | Int(i: int)
    | Bool(b: bool)
    | Duration(nanos: int)
    /** a value of any other dynamic type, by its `%T` name */
    | Other(goType: string)

  /** A pointer to a variable of type `kind`. */
  datatype Ptr = Ptr(kind: Kind, addr: nat)

  /**
   * An entry of the `vars` map: a pointer to a supported type, or any other
   * value by its `%T` name, including a pointer to an unsupported type such as
   * `*float64`.
   */
  datatype Dest = Pointer(p: Ptr) | OtherDest(goType: string)

  /** A flag definition. A nil default is `None`. */
  datatype Flag = Flag(name: string, defValue: Option<Value>, usage: string,
                       deprecated: bool, replacedBy: string)

  /** The errors `AddFlags` returns, with the data their messages carry. */
  datatype FlagError =
    | CountMismatch(flags: nat, vars: nat)
    | NilDefault(name: string)
    | MissingVariable(name: string)
    | TypeMismatch(name: string, expected: string, got: string)
    | UnsupportedType(name: string, got: string)

  /** The errors of the flag getters. */
  datatype GetError =
    | NotFound(name: string)
    | NotGetter(name: string)
    | WrongType(name: string, got: string)

  function KindOf(v: Value): Option<Kind>
  {
    match v
    case Str(_) => Some(StringKind)
    case Int(_) => Some(IntKind)
    case Bool(_) => Some(BoolKind)
    case Duration(_) => Some(DurationKind)
    case Other(_) => None
  }

  /** The Go name of a supported type. */
  function KindName(k: Kind): string
  {
    match k
    case StringKind => "string"
    case IntKind => "int"
    case BoolKind => "bool"
    case DurationKind => "time.Duration"
  }

  /** `%T` of a value. */
  function TypeOfValue(v: Value): string
  {
    if v.Other? then v.goType else KindName(KindOf(v).value)
  }

  /** `%T` of a `vars` entry. */
  function TypeOfDest(d: Dest): string
  {
    if d.Pointer? then "*" + KindName(d.p.kind) else d.goType
  }

  /** Go's zero value of a supported type. */
  function Zero(k: Kind): (v: Value)
    ensures KindOf(v) == Some(k)
  {
    match k
    case StringKind => Str("")
    case IntKind => Int(0)
    case BoolKind => Bool(false)
    case DurationKind => Duration(0)
  }

  /** Every variable holds a value of its pointer's type, as Go's static typing guarantees. */
  predicate WellTyped(cells: map<Ptr, Value>)
  {
    forall p :: p in cells ==> KindOf(cells[p]) == Some(p.kind)
  }

  /** `*p`: a variable never written holds its type's zero value. */
  function Load(cells: map<Ptr, Value>, p: Ptr): (v: Value)
    ensures WellTyped(cells) ==> KindOf(v) == Some(p.kind)
  {
    if p in cells then cells[p] else Zero(p.kind)
  }

  /** The error for a destination that is not a pointer to `expected` (`typeError`). */
  function TypeError(name: string, got: Dest, expected: Kind): (e: FlagError)
    ensures e.TypeMismatch? && e.name == name && e.expected == KindName(expected)
    ensures e.got == TypeOfDest(got)
    ensures got.Pointer? && got.p.kind != expected ==> e.got != "*" + e.expected
  {
    TypeMismatch(name, KindName(expected), TypeOfDest(got))
  }

  /**
   * The checks `AddFlags` makes on one definition, in its order: a default is
   * present, a destination exists, the default's type is supported and the
   * destination points to that type. `None` when the flag can be bound.
   */
  function CheckFlag(f: Flag, vars: map<string, Dest>): (r: Option<FlagError>)
    ensures r.None? <==>
              && f.defValue.Some? && f.name in vars && vars[f.name].Pointer?
              && KindOf(f.defValue.value) == Some(vars[f.name].p.kind)
    ensures f.defValue.None? ==> r == Some(NilDefault(f.name))
    ensures f.defValue.Some? && f.name !in vars ==> r == Some(MissingVariable(f.name))
    ensures f.defValue.Some? && f.name in vars && f.defValue.value.Other? ==>
              r == Some(UnsupportedType(f.name, f.defValue.value.goType))
    ensures f.defValue.Some? && f.name in vars && KindOf(f.defValue.value).Some? &&
            !(vars[f.name].Pointer? && vars[f.name].p.kind == KindOf(f.defValue.value).value) ==>
              r == Some(TypeError(f.name, vars[f.name], KindOf(f.defValue.value).value))
  {
    if f.defValue.None? then Some(NilDefault(f.name))
    else if f.name !in vars then Some(MissingVariable(f.name))
    else
      match KindOf(f.defValue.value)
      case None => Some(UnsupportedType(f.name, TypeOfValue(f.defValue.value)))
      case Some(k) =>
        var ptr := vars[f.name];
        if ptr.Pointer? && ptr.p.kind == k then None else Some(TypeError(f.name, ptr, k))
  }

  predicate Accepts(f: Flag, vars: map<string, Dest>)
  {
    CheckFlag(f, vars).None?
  }

  /** The variable an accepted flag is bound to. */
  function Target(f: Flag, vars: map<string, Dest>): (p: Ptr)
    requires Accepts(f, vars)
    ensures Some(p.kind) == KindOf(f.defValue.value)
  {
    vars[f.name].p
  }

  predicate AllAccepted(flags: seq<Flag>, vars: map<string, Dest>)
  {
    forall i :: 0 <= i < |flags| ==> Accepts(flags[i], vars)
  }

  /** The index of the first definition the checks reject, or `|flags|`. */
  function FirstRejected(flags: seq<Flag>, vars: map<string, Dest>): (k: nat)
    ensures k <= |flags|
    ensures AllAccepted(flags[..k], vars)
    ensures k < |flags| ==> !Accepts(flags[k], vars)
  {
    if flags == [] then 0
    else if !Accepts(flags[0], vars) then 0
    else
      var k := 1 + FirstRejected(flags[1..], vars);
      assert flags[..k] == [flags[0]] + flags[1..][..k - 1];
      k
  }

  /** How many definitions `AddFlags` binds before it stops. */
  function Accepted(flags: seq<Flag>, vars: map<string, Dest>): nat
  {
    if |flags| != |vars| then 0 else FirstRejected(flags, vars)
  }

  /**
   * The error `AddFlags` returns: a count mismatch before anything else,
   * then the first rejected definition's error.
   */
  function AddFlagsError(flags: seq<Flag>, vars: map<string, Dest>): (r: Option<FlagError>)
    ensures r.None? <==> |flags| == |vars| && AllAccepted(flags, vars)
    ensures |flags| != |vars| ==> r == Some(CountMismatch(|flags|, |vars|))
    ensures r.None? <==> |flags| == |vars| && Accepted(flags, vars) == |flags|
    ensures r.Some? && |flags| == |vars| ==>
              Accepted(flags, vars) < |flags| && r == CheckFlag(flags[Accepted(flags, vars)], vars)
  {
    if |flags| != |vars| then Some(CountMismatch(|flags|, |vars|))
    else
      var k := FirstRejected(flags, vars);
      assert k == |flags| ==> flags[..k] == flags;
      if k < |flags| then CheckFlag(flags[k], vars) else None
  }

  function NamesOf(flags: seq<Flag>): set<string>
  {
    set i | 0 <= i < |flags| :: flags[i].name
  }

  /** Registering `flags` in order panics on no name: none is taken, none repeats. */
  predicate NoRedefinition(formal: map<string, Entry>, flags: seq<Flag>)
  {
    forall i :: 0 <= i < |flags| ==>
      flags[i].name !in formal && forall j :: 0 <= j < i ==> flags[j].name != flags[i].name
  }

  /**
   * The variables after the defaults of the accepted `flags` were written in
   * order (`*p = def`); a later write through an aliasing pointer wins.
   */
  function Stores(cells: map<Ptr, Value>, flags: seq<Flag>, vars: map<string, Dest>): map<Ptr, Value>
    requires AllAccepted(flags, vars)
  {
    if flags == [] then cells
    else
      var f := flags[|flags| - 1];
      Stores(cells, flags[..|flags| - 1], vars)[Target(f, vars) := f.defValue.value]
  }

  /** A flag's default ends up in its variable unless a later flag shares it. */
  lemma {:induction false} StoresAt(cells: map<Ptr, Value>, flags: seq<Flag>, vars: map<string, Dest>, i: nat)
    requires AllAccepted(flags, vars) && i < |flags|
    requires forall j :: i < j < |flags| ==> Target(flags[j], vars) != Target(flags[i], vars)
    ensures Target(flags[i], vars) in Stores(cells, flags, vars)
    ensures Stores(cells, flags, vars)[Target(flags[i], vars)] == flags[i].defValue.value
  {
    var last := |flags| - 1;
    if i < last {
      var front := flags[..last];
      assert front[i] == flags[i];
      forall j | i < j < |front|
        ensures Target(front[j], vars) != Target(front[i], vars)
      {
        assert front[j] == flags[j];
      }
      StoresAt(cells, front, vars, i);
    }
  }

  /** Writing the defaults of accepted flags keeps every variable's contents of its type. */
  lemma {:induction false} StoresWellTyped(cells: map<Ptr, Value>, flags: seq<Flag>, vars: map<string, Dest>)
    requires AllAccepted(flags, vars) && WellTyped(cells)
    ensures WellTyped(Stores(cells, flags, vars))
  {
    if flags != [] {
      var front := flags[..|flags| - 1];
      assert AllAccepted(front, vars) by {
        forall j | 0 <= j < |front| ensures Accepts(front[j], vars) {
          assert front[j] == flags[j];
        }
      }
      StoresWellTyped(cells, front, vars);
    }
  }

  /** Variables no accepted flag points to keep their contents. */
  lemma {:induction false} StoresElsewhere(cells: map<Ptr, Value>, flags: seq<Flag>, vars: map<string, Dest>, p: Ptr)
    requires AllAccepted(flags, vars)
    requires forall j :: 0 <= j < |flags| ==> Target(flags[j], vars) != p
    ensures p in Stores(cells, flags, vars) <==> p in cells
    ensures p in cells ==> Stores(cells, flags, vars)[p] == cells[p]
  {
    if flags != [] {
      var front := flags[..|flags| - 1];
      forall j | 0 <= j < |front|
        ensures Target(front[j], vars) != p
      {
        assert front[j] == flags[j];
      }
      StoresElsewhere(cells, front, vars, p);
    }
  }

  /** An I/O sink: the lines written to it. */
  class Output {
    ghost var lines: seq<string>

    constructor ()
      ensures lines == []
    {
      lines := [];
    }
  }

  /** The caller's variables that flag pointers designate. */
  class Memory {
    var cells: map<Ptr, Value>

    constructor (cells: map<Ptr, Value>)
      requires WellTyped(cells)
      ensures this.cells == cells
    {
      this.cells := cells;
    }
  }

  /** The warning a deprecated flag prints on its first successful use. */
  function WarningText(name: string, replacedBy: string): string
  {
    if replacedBy != "" then
      "Warning: --" + name + " is deprecated; use " + replacedBy + " instead.\n"
    else
      "Warning: --" + name + " is deprecated and will be removed in an upcoming release.\n"
  }

  /**
   * What a wrapped value's `Set` does: the value it stores in its variable and
   * the error it returns. Go's standard values store even when parsing fails.
   */
  datatype SetOutcome = SetOutcome(written: Value, err: Option<string>)

  /**
   * The number of warnings a deprecated flag prints over a series of `Set`
   * calls whose inner `Set` succeeded as `oks` says, starting from `warned`.
   */
  function WarningCount(warned: bool, oks: seq<bool>): nat
    decreases |oks|
  {
    if oks == [] then 0
    else (if oks[0] && !warned then 1 else 0) + WarningCount(warned || oks[0], oks[1..])
  }

  /** A deprecated flag warns at most once, and exactly once iff it was not yet warned and some use succeeds. */
  lemma {:induction false} AtMostOneWarning(warned: bool, oks: seq<bool>)
    ensures WarningCount(warned, oks) <= 1
    ensures WarningCount(warned, oks) == 1 <==> !warned && true in oks
    ensures warned ==> WarningCount(warned, oks) == 0
    decreases |oks|
  {
    if oks != [] {
      AtMostOneWarning(warned || oks[0], oks[1..]);
      assert true in oks <==> oks[0] || true in oks[1..];
    }
  }

  /** Warnings over two runs of calls add up, the second starting where the first left `warned`. */
  lemma {:induction false} WarningCountAppend(warned: bool, a: seq<bool>, b: seq<bool>)
    ensures WarningCount(warned, a + b) == WarningCount(warned, a) + WarningCount(warned || true in a, b)
    decreases |a|
  {
    if a != [] {
      var w := warned || a[0];
      assert (a + b)[1..] == a[1..] + b;
      assert WarningCount(warned, a + b) == (if a[0] && !warned then 1 else 0) + WarningCount(w, a[1..] + b);
      WarningCountAppend(w, a[1..], b);
      assert true in a <==> a[0] || true in a[1..];
    } else {
      assert a + b == b;
    }
  }

  /** A flag value wrapped so that its first successful `Set` prints a deprecation warning. */
  class DeprecatedValue {
    /** the wrapped value: the variable the flag was bound to */
    const inner: Ptr
    const mem: Memory
    const name: string
    const replacedBy: string
    const writer: Output
    var warned: bool
    /** warnings this value has written */
    ghost var emitted: nat

    ghost predicate Valid()
      reads this
    {
      emitted == (if warned then 1 else 0)
    }

    constructor (inner: Ptr, mem: Memory, name: string, replacedBy: string, writer: Output)
      ensures Valid() && !warned
      ensures this.inner == inner && this.mem == mem && this.name == name
      ensures this.replacedBy == replacedBy && this.writer == writer
    {
      this.inner := inner;
      this.mem := mem;
      this.name := name;
      this.replacedBy := replacedBy;
      this.writer := writer;
      warned := false;
      emitted := 0;
    }

    /**
     * Runs the wrapped value's `Set`, whose effect on `s` is `wrapped(s)`: its
     * variable receives what that stores, and its error is returned unchanged.
     * On the first success only, records `warned` and writes the warning.
     */
    method Set(s: string, wrapped: string -> SetOutcome) returns (err: Option<string>)
      requires Valid()
      requires KindOf(wrapped(s).written) == Some(inner.kind)
      modifies this, mem, writer
      ensures Valid()
      ensures err == wrapped(s).err
      ensures mem.cells == old(mem.cells)[inner := wrapped(s).written]
      ensures WellTyped(old(mem.cells)) ==> WellTyped(mem.cells)
      ensures warned == (old(warned) || err.None?)
      ensures emitted == old(emitted) + WarningCount(old(warned), [err.None?])
      ensures writer.lines == old(writer.lines) +
                (if err.None? && !old(warned) then [WarningText(name, replacedBy)] else [])
    {
      var r := wrapped(s);
      mem.cells := mem.cells[inner := r.written];
      err := r.err;
      if err.None? && !warned {
        warned := true;
        emitted := emitted + 1;
        writer.lines := writer.lines + [WarningText(name, replacedBy)];
      }
    }
  }

  /** A registered flag's value: the bound variable itself, or a deprecation wrapper around it. */
  datatype FlagValue = Bound(p: Ptr) | Wrapped(d: DeprecatedValue)

  /** A registered flag. */
  datatype Entry = Entry(usage: string, defValue: Value, value: FlagValue)

  /** A set of registered flags, keyed by name. */
  class FlagSet {
    var formal: map<string, Entry>
    const output: Output

    constructor (output: Output)
      ensures formal == map[] && this.output == output
    {
      formal := map[];
      this.output := output;
    }
  }

  /** `e` is what registering the accepted definition `f` leaves under its name. */
  predicate Declared(e: Entry, f: Flag, vars: map<string, Dest>)
    requires Accepts(f, vars)
  {
    && e.usage == f.usage
    && e.defValue == f.defValue.value
    && if f.deprecated then
         && e.value.Wrapped?
         && e.value.d.inner == Target(f, vars)
         && e.value.d.name == f.name
         && e.value.d.replacedBy == f.replacedBy
       else
         e.value == Bound(Target(f, vars))
  }

  /** `after` is `before` with each of the accepted `flags` registered under its name. */
  predicate Registered(before: map<string, Entry>, after: map<string, Entry>,
                       flags: seq<Flag>, vars: map<string, Dest>)
  {
    && AllAccepted(flags, vars)
    && after.Keys == before.Keys + NamesOf(flags)
    && (forall n :: n in before ==> n in after && after[n] == before[n])
    && (forall i :: 0 <= i < |flags| ==> flags[i].name in after && Declared(after[flags[i].name], flags[i], vars))
  }

  /** Registering no definitions, as after a count mismatch, leaves the set as it was. */
  lemma RegisteredNothing(before: map<string, Entry>, after: map<string, Entry>, vars: map<string, Dest>)
    requires Registered(before, after, [], vars)
    ensures after == before
  {
    assert NamesOf([]) == {};
  }

  lemma RegisteredStep(before: map<string, Entry>, mid: map<string, Entry>, flags: seq<Flag>,
                       vars: map<string, Dest>, f: Flag, e: Entry)
    requires Registered(before, mid, flags, vars)
    requires NoRedefinition(before, flags + [f])
    requires Accepts(f, vars) && Declared(e, f, vars)
    ensures Registered(before, mid[f.name := e], flags + [f], vars)
  {
    var after := mid[f.name := e];
    var all := flags + [f];
    assert all[|flags|] == f;
    assert NamesOf(all) == NamesOf(flags) + {f.name} by {
      forall n | n in NamesOf(all) ensures n in NamesOf(flags) + {f.name} {
        var i :| 0 <= i < |all| && all[i].name == n;
        if i < |flags| { assert flags[i] == all[i]; }
      }
      forall n | n in NamesOf(flags) ensures n in NamesOf(all) {
        var i :| 0 <= i < |flags| && flags[i].name == n;
        assert all[i] == flags[i];
      }
    }
    forall i | 0 <= i < |all|
      ensures all[i].name in after && Declared(after[all[i].name], all[i], vars)
    {
      if i < |flags| {
        assert all[i] == flags[i];
        assert flags[i].name != f.name by {
          assert all[|flags|].name != all[i].name;
        }
      }
    }
  }

  lemma NoRedefinitionPrefix(formal: map<string, Entry>, flags: seq<Flag>, n: nat, m: nat)
    requires n <= m <= |flags| && NoRedefinition(formal, flags[..m])
    ensures NoRedefinition(formal, flags[..n])
  {
    forall i | 0 <= i < n
      ensures flags[..n][i] == flags[..m][i]
      ensures forall j :: 0 <= j < i ==> flags[..n][j] == flags[..m][j]
    {
    }
  }

  /** A definition `AddFlags` reached and accepts is followed by the next one. */
  lemma Continues(flags: seq<Flag>, vars: map<string, Dest>, i: nat)
    requires |flags| == |vars| && i <= FirstRejected(flags, vars)
    requires i < |flags| && Accepts(flags[i], vars)
    ensures i < Accepted(flags, vars)
  {
  }

  /** The state after the first `i` definitions were bound. */
  ghost predicate Binding(before: map<string, Entry>, formal: map<string, Entry>,
                          initial: map<Ptr, Value>, cells: map<Ptr, Value>,
                          flags: seq<Flag>, vars: map<string, Dest>, i: nat)
  {
    && i <= FirstRejected(flags, vars)
    && Registered(before, formal, flags[..i], vars)
    && cells == Stores(initial, flags[..i], vars)
  }

  lemma BindingStep(before: map<string, Entry>, formal: map<string, Entry>,
                    initial: map<Ptr, Value>, cells: map<Ptr, Value>,
                    flags: seq<Flag>, vars: map<string, Dest>, i: nat, e: Entry)
    requires Binding(before, formal, initial, cells, flags, vars, i)
    requires |flags| == |vars| && i < |flags| && Accepts(flags[i], vars)
    requires NoRedefinition(before, flags[..Accepted(flags, vars)])
    requires Declared(e, flags[i], vars)
    ensures Binding(before, formal[flags[i].name := e],
                    initial, cells[Target(flags[i], vars) := flags[i].defValue.value], flags, vars, i + 1)
  {
    var f := flags[i];
    Continues(flags, vars, i);
    assert flags[..i + 1] == flags[..i] + [f];
    NoRedefinitionPrefix(before, flags, i + 1, Accepted(flags, vars));
    RegisteredStep(before, formal, flags[..i], vars, f, e);
    StoresStep(initial, flags, vars, i);
  }

  lemma StoresStep(initial: map<Ptr, Value>, flags: seq<Flag>, vars: map<string, Dest>, i: nat)
    requires i < |flags| && AllAccepted(flags[..i + 1], vars)
    ensures AllAccepted(flags[..i], vars)
    ensures Stores(initial, flags[..i + 1], vars) ==
              Stores(initial, flags[..i], vars)[Target(flags[i], vars) := flags[i].defValue.value]
  {
    assert flags[..i + 1][..i] == flags[..i];
    assert flags[..i + 1][i] == flags[i];
  }

  /** `AddFlags` stops at a rejected definition it reached; nothing after it is bound. */
  lemma StopsAt(flags: seq<Flag>, vars: map<string, Dest>, i: nat)
    requires |flags| == |vars| && i <= FirstRejected(flags, vars)
    requires i < |flags| && !Accepts(flags[i], vars)
    ensures Accepted(flags, vars) == i
    ensures AddFlagsError(flags, vars) == CheckFlag(flags[i], vars)
  {
  }

  /** A deprecation wrapper that has not warned yet, over `mem`, writing to `out`. */
  ghost predicate Unused(d: DeprecatedValue, mem: Memory, out: Output)
    reads d
  {
    d.Valid() && !d.warned && d.mem == mem && d.writer == out
  }

  /**
   * Binds one accepted definition: `*p = def`, `fs.StringVar(p, ...)` or its
   * sibling for the default's type, then the deprecation wrapper if marked.
   */
  method Bind(fs: FlagSet, mem: Memory, f: Flag, vars: map<string, Dest>)
    returns (ghost added: set<DeprecatedValue>)
    requires Accepts(f, vars)
    modifies fs, mem
    ensures mem.cells == old(mem.cells)[Target(f, vars) := f.defValue.value]
    ensures WellTyped(old(mem.cells)) ==> WellTyped(mem.cells)
    ensures f.name in fs.formal && fs.formal == old(fs.formal)[f.name := fs.formal[f.name]]
    ensures Declared(fs.formal[f.name], f, vars)
    ensures fresh(added) && forall d :: d in added ==> Unused(d, mem, fs.output)
    ensures fs.formal[f.name].value.Wrapped? ==> fs.formal[f.name].value.d in added
  {
    added := {};
    var p := vars[f.name].p;
    mem.cells := mem.cells[p := f.defValue.value];
    fs.formal := fs.formal[f.name := Entry(f.usage, f.defValue.value, Bound(p))];
    if f.deprecated {
      var d := new DeprecatedValue(p, mem, f.name, f.replacedBy, fs.output);
      fs.formal := fs.formal[f.name := fs.formal[f.name].(value := Wrapped(d))];
      added := {d};
    }
  }

  /** Binds `flags` in order; see `AddFlagsError` for the outcome and `Registered`, `Stores` for the state. */
  method AddFlags(fs: FlagSet, mem: Memory, flags: seq<Flag>, vars: map<string, Dest>)
    returns (err: Option<FlagError>)
    requires NoRedefinition(fs.formal, flags[..Accepted(flags, vars)])
    modifies fs, mem
    ensures err == AddFlagsError(flags, vars)
    ensures Registered(old(fs.formal), fs.formal, flags[..Accepted(flags, vars)], vars)
    ensures mem.cells == Stores(old(mem.cells), flags[..Accepted(flags, vars)], vars)
    ensures WellTyped(old(mem.cells)) ==> WellTyped(mem.cells)
    ensures forall n :: n in fs.formal && n !in old(fs.formal) && fs.formal[n].value.Wrapped? ==>
              fresh(fs.formal[n].value.d) && Unused(fs.formal[n].value.d, mem, fs.output)
  {
    if |flags| != |vars| {
      return Some(CountMismatch(|flags|, |vars|));
    }
    var i := 0;
    ghost var wrappers: set<DeprecatedValue> := {};
    while i < |flags| && Accepts(flags[i], vars)
      invariant Binding(old(fs.formal), fs.formal, old(mem.cells), mem.cells, flags, vars, i)
      invariant fresh(wrappers) && forall d :: d in wrappers ==> Unused(d, mem, fs.output)
      invariant forall n :: n in fs.formal && n !in old(fs.formal) && fs.formal[n].value.Wrapped? ==>
                  fs.formal[n].value.d in wrappers
    {
      ghost var mid, cells := fs.formal, mem.cells;
      ghost var added := Bind(fs, mem, flags[i], vars);
      BindingStep(old(fs.formal), mid, old(mem.cells), cells, flags, vars, i, fs.formal[flags[i].name]);
      wrappers := wrappers + added;
      i := i + 1;
    }
    if i < |flags| {
      // the first rejected definition: its check's error, nothing after it bound
      StopsAt(flags, vars, i);
      if WellTyped(old(mem.cells)) {
        StoresWellTyped(old(mem.cells), flags[..i], vars);
      }
      return CheckFlag(flags[i], vars);
    }
    assert flags[..i] == flags;
    if WellTyped(old(mem.cells)) {
      StoresWellTyped(old(mem.cells), flags, vars);
    }
    return None;
  }

  /** The variable behind a registered flag that `flag.Getter` can read, if any. */
  function GetterTarget(fs: FlagSet, name: string): Option<Ptr>
    reads fs
  {
    if name in fs.formal && fs.formal[name].value.Bound? then Some(fs.formal[name].value.p) else None
  }

  /**
   * `GetStringFlagValue` as written: `Get` returns the variable's value, never a
   * `*string`, so the pointer assertion fails for every flag that has a getter.
   */
  function GetStringFlagValueAsWritten(fs: FlagSet, mem: Memory, name: string): (r: Result<string, GetError>)
    reads fs, mem
    ensures r.Err?
  {
    if name !in fs.formal then Err(NotFound(name))
    else match fs.formal[name].value
      case Wrapped(_) => Err(NotGetter(name))
      case Bound(p) => Err(WrongType(name, TypeOfValue(Load(mem.cells, p))))
  }

  /** `GetBoolFlagValue` as written; fails for the same reason. */
  function GetBoolFlagValueAsWritten(fs: FlagSet, mem: Memory, name: string): (r: Result<bool, GetError>)
    reads fs, mem
    ensures r.Err?
  {
    if name !in fs.formal then Err(NotFound(name))
    else match fs.formal[name].value
      case Wrapped(_) => Err(NotGetter(name))
      case Bound(p) => Err(WrongType(name, TypeOfValue(Load(mem.cells, p))))
  }

  /** The current value of a string flag, asserting `Get`'s result to `string`. */
  function GetStringFlagValue(fs: FlagSet, mem: Memory, name: string): (r: Result<string, GetError>)
    reads fs, mem
    ensures r.Ok? <==> GetterTarget(fs, name).Some? && Load(mem.cells, GetterTarget(fs, name).value).Str?
    ensures r.Ok? ==> r.value == Load(mem.cells, GetterTarget(fs, name).value).s
    ensures name !in fs.formal ==> r == Err(NotFound(name))
    ensures name in fs.formal && fs.formal[name].value.Wrapped? ==> r == Err(NotGetter(name))
    ensures WellTyped(mem.cells) ==>
              (r.Ok? <==> GetterTarget(fs, name).Some? && GetterTarget(fs, name).value.kind == StringKind)
    ensures WellTyped(mem.cells) && GetterTarget(fs, name).Some? && GetterTarget(fs, name).value.kind != StringKind ==>
              r == Err(WrongType(name, KindName(GetterTarget(fs, name).value.kind)))
  {
    if name !in fs.formal then Err(NotFound(name))
    else match fs.formal[name].value
      case Wrapped(_) => Err(NotGetter(name))
      case Bound(p) =>
        match Load(mem.cells, p)
        case Str(s) => Ok(s)
        case v => Err(WrongType(name, TypeOfValue(v)))
  }

  /** The current value of a boolean flag, asserting `Get`'s result to `bool`. */
  function GetBoolFlagValue(fs: FlagSet, mem: Memory, name: string): (r: Result<bool, GetError>)
    reads fs, mem
    ensures r.Ok? <==> GetterTarget(fs, name).Some? && Load(mem.cells, GetterTarget(fs, name).value).Bool?
    ensures r.Ok? ==> r.value == Load(mem.cells, GetterTarget(fs, name).value).b
    ensures name !in fs.formal ==> r == Err(NotFound(name))
    ensures name in fs.formal && fs.formal[name].value.Wrapped? ==> r == Err(NotGetter(name))
    ensures WellTyped(mem.cells) ==>
              (r.Ok? <==> GetterTarget(fs, name).Some? && GetterTarget(fs, name).value.kind == BoolKind)
    ensures WellTyped(mem.cells) && GetterTarget(fs, name).Some? && GetterTarget(fs, name).value.kind != BoolKind ==>
              r == Err(WrongType(name, KindName(GetterTarget(fs, name).value.kind)))
  {
    if name !in fs.formal then Err(NotFound(name))
    else match fs.formal[name].value
      case Wrapped(_) => Err(NotGetter(name))
      case Bound(p) =>
        match Load(mem.cells, p)
        case Bool(b) => Ok(b)
        case v => Err(WrongType(name, TypeOfValue(v)))
  }

  /**
   * A non-deprecated string flag bound by `AddFlags`, whose variable no later
   * flag shares, reads back its default; the getter as written reports a type
   * error for it instead.
   */
  lemma StringDefaultReadBack(fs: FlagSet, mem: Memory, before: map<string, Entry>, cells: map<Ptr, Value>,
                              flags: seq<Flag>, vars: map<string, Dest>, i: nat)
    requires Registered(before, fs.formal, flags, vars) && mem.cells == Stores(cells, flags, vars)
    requires i < |flags| && !flags[i].deprecated && flags[i].defValue.value.Str?
    requires forall j :: i < j < |flags| ==> Target(flags[j], vars) != Target(flags[i], vars)
    ensures GetStringFlagValue(fs, mem, flags[i].name) == Ok(flags[i].defValue.value.s)
    ensures GetStringFlagValueAsWritten(fs, mem, flags[i].name) == Err(WrongType(flags[i].name, "string"))
  {
    StoresAt(cells, flags, vars, i);
  }

  /** The boolean counterpart of `StringDefaultReadBack`. */
  lemma BoolDefaultReadBack(fs: FlagSet, mem: Memory, before: map<string, Entry>, cells: map<Ptr, Value>,
                            flags: seq<Flag>, vars: map<string, Dest>, i: nat)
    requires Registered(before, fs.formal, flags, vars) && mem.cells == Stores(cells, flags, vars)
    requires i < |flags| && !flags[i].deprecated && flags[i].defValue.value.Bool?
    requires forall j :: i < j < |flags| ==> Target(flags[j], vars) != Target(flags[i], vars)
    ensures GetBoolFlagValue(fs, mem, flags[i].name) == Ok(flags[i].defValue.value.b)
    ensures GetBoolFlagValueAsWritten(fs, mem, flags[i].name) == Err(WrongType(flags[i].name, "bool"))
  {
    StoresAt(cells, flags, vars, i);
  }
}
