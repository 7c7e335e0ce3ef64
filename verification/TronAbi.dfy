/** The two ABI models and their conversions (crates/abi/src/alloy.rs). */
module AbiTypes {
  import opened Wrappers
  import opened SortedMap

  // ---- The JSON side ----

  datatype Mutability = Pure | View | NonPayable | Payable

  datatype Param = Param(ty: string, name: string, components: seq<Param>, internalType: Option<string>)

  datatype EventParam = EventParam(param: Param, indexed: bool)

  datatype JsonItem =
    | ConstructorItem(inputs: seq<Param>, state: Mutability)
    | FallbackItem(state: Mutability)
    | ReceiveItem(state: Mutability)
    | FunctionItem(name: string, inputs: seq<Param>, outputs: seq<Param>, state: Mutability)
    | EventItem(name: string, params: seq<EventParam>, anonymous: bool)
    | ErrorItem(name: string, inputs: seq<Param>)

  /** Singletons apart, functions, events and errors each grouped by name. */
  datatype JsonAbi = JsonAbi(
    constructor_: Option<JsonItem>,
    fallback: Option<JsonItem>,
    receive: Option<JsonItem>,
    functions: Groups<JsonItem>,
    events: Groups<JsonItem>,
    errors: Groups<JsonItem>)

  const EMPTY_ABI: JsonAbi := JsonAbi(None, None, None, [], [], [])

  // ---- The TRON side ----

  datatype EntryType = Constructor | Function | Event | Fallback | Receive | Error | Unknown(code: int)

  datatype TronState = TronPure | TronView | TronNonPayable | TronPayable | TronUnknown(code: int)

  datatype TronParam = TronParam(indexed: bool, name: string, ty: string)

  datatype Entry = Entry(
    kind: EntryType,
    name: string,
    inputs: seq<TronParam>,
    outputs: seq<TronParam>,
    anonymous: bool,
    constant: bool,
    payable: bool,
    state: TronState)

  datatype ConversionError =
    | InvalidType(ty: string)
    | InvalidName(name: string)
    | UnknownEntryType(code: int)
    | InvalidMutability(code: int)
    | ConflictingMutability
    | IncompleteTuple(name: string)
    | DuplicateEntry(what: string)

  function KindOf(item: JsonItem): EntryType
  {
    match item
    case ConstructorItem(_, _) => Constructor
    case FallbackItem(_) => Fallback
    case ReceiveItem(_) => Receive
    case FunctionItem(_, _, _, _) => Function
    case EventItem(_, _, _) => Event
    case ErrorItem(_, _) => Error
  }

  function NameOf(item: JsonItem): string
  {
    match item
    case FunctionItem(name, _, _, _) => name
    case EventItem(name, _, _) => name
    case ErrorItem(name, _) => name
    case _ => ""
  }

  predicate Named(kind: EntryType) { kind.Function? || kind.Event? || kind.Error? }
}

/** Grouping items by kind and name, apart from what the items are. */
module AbiGrouping {
  import opened Wrappers
  import opened AbiTypes
  import M = SortedMap

  type Kinds<!T> = T -> EntryType
  type Names<!T> = T -> string

  function Select<T>(items: seq<T>, kind: EntryType, kindOf: Kinds<T>): seq<T>
  {
    if items == [] then []
    else (if kindOf(items[0]) == kind then [items[0]] else []) + Select(items[1..], kind, kindOf)
  }

  /** The order a round trip leaves: constructor, fallback, receive, then functions, events
      and errors, each sorted by name without disturbing the overloads. */
  function Regroup<T>(items: seq<T>, kindOf: Kinds<T>, nameOf: Names<T>): seq<T>
  {
    Select(items, Constructor, kindOf) + Select(items, Fallback, kindOf) + Select(items, Receive, kindOf)
    + M.Stable(Select(items, Function, kindOf), nameOf)
    + M.Stable(Select(items, Event, kindOf), nameOf)
    + M.Stable(Select(items, Error, kindOf), nameOf)
  }

  lemma {:induction false} SelectConcat<T>(a: seq<T>, b: seq<T>, kind: EntryType, kindOf: Kinds<T>)
    ensures Select(a + b, kind, kindOf) == Select(a, kind, kindOf) + Select(b, kind, kindOf)
  {
    if a == [] {
      assert a + b == b;
    } else {
      assert (a + b)[1..] == a[1..] + b && (a + b)[0] == a[0];
      SelectConcat(a[1..], b, kind, kindOf);
      var head := if kindOf(a[0]) == kind then [a[0]] else [];
      M.ConcatAssociative(head, Select(a[1..], kind, kindOf), Select(b, kind, kindOf));
    }
  }

  lemma {:induction false} SelectAll<T>(items: seq<T>, own: EntryType, kind: EntryType, kindOf: Kinds<T>)
    requires forall k :: 0 <= k < |items| ==> kindOf(items[k]) == own
    ensures Select(items, kind, kindOf) == if own == kind then items else []
  {
    if items != [] {
      assert items == [items[0]] + items[1..];
      SelectAll(items[1..], own, kind, kindOf);
    }
  }

  lemma {:induction false} SelectKind<T>(items: seq<T>, kind: EntryType, kindOf: Kinds<T>)
    ensures forall k :: 0 <= k < |Select(items, kind, kindOf)| ==> kindOf(Select(items, kind, kindOf)[k]) == kind
  {
    if items != [] { SelectKind(items[1..], kind, kindOf); }
  }

  lemma {:induction false} SelectMap<T, U>(f: T -> U, items: seq<T>, kind: EntryType, kindT: Kinds<T>, kindU: Kinds<U>)
    requires forall k :: 0 <= k < |items| ==> kindU(f(items[k])) == kindT(items[k])
    ensures Select(M.MapSeq(f, items), kind, kindU) == M.MapSeq(f, Select(items, kind, kindT))
  {
    if items != [] {
      assert M.MapSeq(f, items)[1..] == M.MapSeq(f, items[1..]);
      SelectMap(f, items[1..], kind, kindT, kindU);
      var head := if kindT(items[0]) == kind then [items[0]] else [];
      M.MapSeqConcat(f, head, Select(items[1..], kind, kindT));
      assert M.MapSeq(f, head) == if kindT(items[0]) == kind then [f(items[0])] else [];
    }
  }

  lemma {:induction false} SelectIn<T>(items: seq<T>, kind: EntryType, kindOf: Kinds<T>)
    ensures forall x :: x in Select(items, kind, kindOf) ==> x in items
  {
    if items != [] { SelectIn(items[1..], kind, kindOf); }
  }

  /** Regrouping commutes with any map that keeps kinds and names. */
  lemma RegroupMap<T, U>(f: T -> U, items: seq<T>, kindT: Kinds<T>, nameT: Names<T>, kindU: Kinds<U>, nameU: Names<U>)
    requires forall k :: 0 <= k < |items| ==>
      kindU(f(items[k])) == kindT(items[k]) && nameU(f(items[k])) == nameT(items[k])
    ensures Regroup(M.MapSeq(f, items), kindU, nameU) == M.MapSeq(f, Regroup(items, kindT, nameT))
  {
    var c, b, r := Select(items, Constructor, kindT), Select(items, Fallback, kindT), Select(items, Receive, kindT);
    var x, y, z := Select(items, Function, kindT), Select(items, Event, kindT), Select(items, Error, kindT);
    SelectMap(f, items, Constructor, kindT, kindU);
    SelectMap(f, items, Fallback, kindT, kindU);
    SelectMap(f, items, Receive, kindT, kindU);
    StableSelectMap(f, items, Function, kindT, nameT, kindU, nameU);
    StableSelectMap(f, items, Event, kindT, nameT, kindU, nameU);
    StableSelectMap(f, items, Error, kindT, nameT, kindU, nameU);
    var sx, sy, sz := M.Stable(x, nameT), M.Stable(y, nameT), M.Stable(z, nameT);
    M.MapSeqConcat(f, c, b);
    M.MapSeqConcat(f, c + b, r);
    M.MapSeqConcat(f, c + b + r, sx);
    M.MapSeqConcat(f, c + b + r + sx, sy);
    M.MapSeqConcat(f, c + b + r + sx + sy, sz);
  }

  lemma StableSelectMap<T, U>(f: T -> U, items: seq<T>, kind: EntryType, kindT: Kinds<T>, nameT: Names<T>,
      kindU: Kinds<U>, nameU: Names<U>)
    requires forall k :: 0 <= k < |items| ==>
      kindU(f(items[k])) == kindT(items[k]) && nameU(f(items[k])) == nameT(items[k])
    ensures M.Stable(Select(M.MapSeq(f, items), kind, kindU), nameU)
         == M.MapSeq(f, M.Stable(Select(items, kind, kindT), nameT))
  {
    SelectMap(f, items, kind, kindT, kindU);
    var s := Select(items, kind, kindT);
    SelectIn(items, kind, kindT);
    forall k | 0 <= k < |s| ensures nameU(f(s[k])) == nameT(s[k]) {
      assert s[k] in items;
    }
    M.StableMap(f, s, nameT, nameU);
  }

  function Rank(kind: EntryType): nat
  {
    match kind
    case Constructor => 0
    case Fallback => 1
    case Receive => 2
    case Function => 3
    case Event => 4
    case Error => 5
    case Unknown(_) => 6
  }

  lemma StableSelect<T>(items: seq<T>, kind: EntryType, kindOf: Kinds<T>, nameOf: Names<T>)
    ensures var s := M.Stable(Select(items, kind, kindOf), nameOf);
      && multiset(s) == multiset(Select(items, kind, kindOf))
      && forall k :: 0 <= k < |s| ==> kindOf(s[k]) == kind
  {
    var sel := Select(items, kind, kindOf);
    var s := M.Stable(sel, nameOf);
    M.StableIsAStableSort(sel, nameOf);
    SelectKind(items, kind, kindOf);
    forall k | 0 <= k < |s| ensures kindOf(s[k]) == kind {
      assert s[k] in multiset(s);
      assert s[k] in sel;
    }
  }

  lemma SelectSix<T>(c: seq<T>, b: seq<T>, r: seq<T>, x: seq<T>, y: seq<T>, z: seq<T>, kind: EntryType,
      kindOf: Kinds<T>)
    ensures Select(c + b + r + x + y + z, kind, kindOf)
         == Select(c, kind, kindOf) + Select(b, kind, kindOf) + Select(r, kind, kindOf)
            + Select(x, kind, kindOf) + Select(y, kind, kindOf) + Select(z, kind, kindOf)
  {
    SelectConcat(c, b, kind, kindOf);
    SelectConcat(c + b, r, kind, kindOf);
    SelectConcat(c + b + r, x, kind, kindOf);
    SelectConcat(c + b + r + x, y, kind, kindOf);
    SelectConcat(c + b + r + x + y, z, kind, kindOf);
  }

  ghost predicate AllOfKind<T>(s: seq<T>, kind: EntryType, kindOf: Kinds<T>)
  {
    forall k :: 0 <= k < |s| ==> kindOf(s[k]) == kind
  }

  /** One kind out of a concatenation of the six kinds. */
  lemma SelectPart<T>(c: seq<T>, b: seq<T>, r: seq<T>, x: seq<T>, y: seq<T>, z: seq<T>, kind: EntryType,
      kindOf: Kinds<T>)
    requires AllOfKind(c, Constructor, kindOf) && AllOfKind(b, Fallback, kindOf) && AllOfKind(r, Receive, kindOf)
    requires AllOfKind(x, Function, kindOf) && AllOfKind(y, Event, kindOf) && AllOfKind(z, Error, kindOf)
    ensures Select(c + b + r + x + y + z, kind, kindOf) ==
      match kind
      case Constructor => c
      case Fallback => b
      case Receive => r
      case Function => x
      case Event => y
      case Error => z
      case Unknown(_) => []
  {
    SelectSix(c, b, r, x, y, z, kind, kindOf);
    SelectAll(c, Constructor, kind, kindOf);
    SelectAll(b, Fallback, kind, kindOf);
    SelectAll(r, Receive, kind, kindOf);
    SelectAll(x, Function, kind, kindOf);
    SelectAll(y, Event, kind, kindOf);
    SelectAll(z, Error, kind, kindOf);
  }

  /** Each kind of a regrouped list, on its own. */
  lemma SelectOfRegroup<T>(items: seq<T>, kind: EntryType, kindOf: Kinds<T>, nameOf: Names<T>)
    requires !kind.Unknown?
    ensures Select(Regroup(items, kindOf, nameOf), kind, kindOf)
         == if Named(kind) then M.Stable(Select(items, kind, kindOf), nameOf) else Select(items, kind, kindOf)
  {
    PartsOfKind(items, kindOf, nameOf);
    SelectPart(Select(items, Constructor, kindOf), Select(items, Fallback, kindOf), Select(items, Receive, kindOf),
               M.Stable(Select(items, Function, kindOf), nameOf), M.Stable(Select(items, Event, kindOf), nameOf),
               M.Stable(Select(items, Error, kindOf), nameOf), kind, kindOf);
  }

  lemma PartsOfKind<T>(items: seq<T>, kindOf: Kinds<T>, nameOf: Names<T>)
    ensures AllOfKind(Select(items, Constructor, kindOf), Constructor, kindOf)
    ensures AllOfKind(Select(items, Fallback, kindOf), Fallback, kindOf)
    ensures AllOfKind(Select(items, Receive, kindOf), Receive, kindOf)
    ensures AllOfKind(M.Stable(Select(items, Function, kindOf), nameOf), Function, kindOf)
    ensures AllOfKind(M.Stable(Select(items, Event, kindOf), nameOf), Event, kindOf)
    ensures AllOfKind(M.Stable(Select(items, Error, kindOf), nameOf), Error, kindOf)
  {
    SelectKind(items, Constructor, kindOf);
    SelectKind(items, Fallback, kindOf);
    SelectKind(items, Receive, kindOf);
    StableSelect(items, Function, kindOf, nameOf);
    StableSelect(items, Event, kindOf, nameOf);
    StableSelect(items, Error, kindOf, nameOf);
  }

  lemma {:induction false} SelectPartition<T>(items: seq<T>, kindOf: Kinds<T>)
    requires forall k :: 0 <= k < |items| ==> !kindOf(items[k]).Unknown?
    ensures multiset(items)
         == multiset(Select(items, Constructor, kindOf)) + multiset(Select(items, Fallback, kindOf))
            + multiset(Select(items, Receive, kindOf)) + multiset(Select(items, Function, kindOf))
            + multiset(Select(items, Event, kindOf)) + multiset(Select(items, Error, kindOf))
  {
    if items != [] {
      assert items == [items[0]] + items[1..];
      SelectPartition(items[1..], kindOf);
    }
  }

  /** Regrouping only moves items. */
  lemma RegroupKeepsItems<T>(items: seq<T>, kindOf: Kinds<T>, nameOf: Names<T>)
    requires forall k :: 0 <= k < |items| ==> !kindOf(items[k]).Unknown?
    ensures multiset(Regroup(items, kindOf, nameOf)) == multiset(items)
  {
    SelectPartition(items, kindOf);
    StableSelect(items, Function, kindOf, nameOf);
    StableSelect(items, Event, kindOf, nameOf);
    StableSelect(items, Error, kindOf, nameOf);
  }

  ghost predicate KindsInOrder<T>(s: seq<T>, kindOf: Kinds<T>)
  {
    forall i, j :: 0 <= i < j < |s| ==> Rank(kindOf(s[i])) <= Rank(kindOf(s[j]))
  }

  ghost predicate RanksUpTo<T>(s: seq<T>, kindOf: Kinds<T>, top: nat)
  {
    KindsInOrder(s, kindOf) && forall i :: 0 <= i < |s| ==> Rank(kindOf(s[i])) <= top
  }

  lemma RanksAppend<T>(s: seq<T>, part: seq<T>, kind: EntryType, kindOf: Kinds<T>)
    requires RanksUpTo(s, kindOf, Rank(kind)) && AllOfKind(part, kind, kindOf)
    ensures RanksUpTo(s + part, kindOf, Rank(kind))
  {
  }

  /** It puts the kinds in order. */
  lemma RegroupOrdersKinds<T>(items: seq<T>, kindOf: Kinds<T>, nameOf: Names<T>)
    ensures KindsInOrder(Regroup(items, kindOf, nameOf), kindOf)
  {
    PartsOfKind(items, kindOf, nameOf);
    var c, b, r := Select(items, Constructor, kindOf), Select(items, Fallback, kindOf), Select(items, Receive, kindOf);
    var x, y := M.Stable(Select(items, Function, kindOf), nameOf), M.Stable(Select(items, Event, kindOf), nameOf);
    RanksAppend(c, b, Fallback, kindOf);
    RanksAppend(c + b, r, Receive, kindOf);
    RanksAppend(c + b + r, x, Function, kindOf);
    RanksAppend(c + b + r + x, y, Event, kindOf);
    RanksAppend(c + b + r + x + y, M.Stable(Select(items, Error, kindOf), nameOf), Error, kindOf);
  }

  /** And within a named kind it sorts by name, keeping the overloads of a name in order. */
  lemma RegroupSortsNames<T>(items: seq<T>, kind: EntryType, name: string, kindOf: Kinds<T>, nameOf: Names<T>)
    requires Named(kind)
    ensures M.InNameOrder(Select(Regroup(items, kindOf, nameOf), kind, kindOf), nameOf)
    ensures M.Named(Select(Regroup(items, kindOf, nameOf), kind, kindOf), name, nameOf)
         == M.Named(Select(items, kind, kindOf), name, nameOf)
  {
    SelectOfRegroup(items, kind, kindOf, nameOf);
    M.StableIsAStableSort(Select(items, kind, kindOf), nameOf);
  }
}

module TronAbi {
  import opened Wrappers
  import opened AbiTypes
  import opened AbiGrouping
  import M = SortedMap

  type Converted<T> = Result<T, ConversionError>

  /** Alloy's identifier check, selector types and parameter parser. */
  datatype Lib = Lib(
    validIdentifier: string -> bool,
    selectorType: Param -> string,
    parseParam: string -> Option<Param>)
  {
    predicate ValidName(name: string, allowEmpty: bool) { (allowEmpty && name == "") || validIdentifier(name) }
  }

  // ---- Parameters ----

  predicate StartsWithTuple(ty: string) { |ty| >= 5 && ty[..5] == "tuple" }

  predicate EmptyTuple(p: Param) { StartsWithTuple(p.ty) && p.components == [] }

  /** `tuple`, `tuple[]`, ...: a tuple type without its component types. */
  predicate BareTuple(ty: string) { StartsWithTuple(ty) && (|ty| == 5 || ty[5] == '[') }

  function ParamFromJson(lib: Lib, p: Param): Converted<TronParam>
  {
    if !lib.ValidName(p.name, true) then Err(InvalidName(p.name))
    else if EmptyTuple(p) then Err(IncompleteTuple(p.name))
    else
      var ty := lib.selectorType(p);
      if ty == "" then Err(InvalidType(p.ty)) else Ok(TronParam(false, p.name, ty))
  }

  function Declaration(ty: string, name: string): string { if name == "" then ty else ty + " " + name }

  function ParamToJson(lib: Lib, p: TronParam): Converted<Param>
  {
    if !lib.ValidName(p.name, true) then Err(InvalidName(p.name))
    else if BareTuple(p.ty) then Err(IncompleteTuple(p.name))
    else
      match lib.parseParam(Declaration(p.ty, p.name))
      case Some(param) => Ok(param)
      case None => Err(InvalidType(p.ty))
  }

  function EventParamFromJson(lib: Lib, p: EventParam): Converted<TronParam>
  {
    match ParamFromJson(lib, p.param)
    case Ok(q) => Ok(q.(indexed := p.indexed))
    case Err(e) => Err(e)
  }

  function EventParamToJson(lib: Lib, p: TronParam): Converted<EventParam>
  {
    match ParamToJson(lib, p)
    case Ok(q) => Ok(EventParam(q, p.indexed))
    case Err(e) => Err(e)
  }

  /** `[head] + tail`, or the first error. */
  function Cons<T>(head: Converted<T>, tail: Converted<seq<T>>): Converted<seq<T>>
  {
    if head.Err? then Err(head.error) else if tail.Err? then tail else Ok([head.value] + tail.value)
  }

  function ParamsFromJson(lib: Lib, ps: seq<Param>): Converted<seq<TronParam>>
  {
    if ps == [] then Ok([]) else Cons(ParamFromJson(lib, ps[0]), ParamsFromJson(lib, ps[1..]))
  }

  function EventParamsFromJson(lib: Lib, ps: seq<EventParam>): Converted<seq<TronParam>>
  {
    if ps == [] then Ok([]) else Cons(EventParamFromJson(lib, ps[0]), EventParamsFromJson(lib, ps[1..]))
  }

  function ParamsToJson(lib: Lib, ps: seq<TronParam>): Converted<seq<Param>>
  {
    if ps == [] then Ok([]) else Cons(ParamToJson(lib, ps[0]), ParamsToJson(lib, ps[1..]))
  }

  function EventParamsToJson(lib: Lib, ps: seq<TronParam>): Converted<seq<EventParam>>
  {
    if ps == [] then Ok([]) else Cons(EventParamToJson(lib, ps[0]), EventParamsToJson(lib, ps[1..]))
  }

  // ---- Mutability ----

  function StateFromJson(m: Mutability): TronState
  {
    match m
    case Pure => TronPure
    case View => TronView
    case NonPayable => TronNonPayable
    case Payable => TronPayable
  }

  function StateToJson(value: TronState, constant: bool, payable: bool, receive: bool): Converted<Mutability>
  {
    match value
    case TronUnknown(code) =>
      if code != 0 then Err(InvalidMutability(code))
      else if constant && (receive || payable) then Err(ConflictingMutability)
      else if receive || payable then Ok(Payable)
      else if constant then Ok(View)
      else Ok(NonPayable)
    case TronPure => Ok(Pure)
    case TronView => Ok(View)
    case TronNonPayable => Ok(NonPayable)
    case TronPayable => Ok(Payable)
  }

  // ---- Items ----

  function MakeEntry(kind: EntryType, name: string, inputs: seq<TronParam>, outputs: seq<TronParam>,
      state: TronState, anonymous: bool): Entry
  {
    Entry(kind, name, inputs, outputs, anonymous, state.TronPure? || state.TronView?, state.TronPayable?, state)
  }

  function EntryOf(lib: Lib, item: JsonItem): Converted<Entry>
  {
    match item
    case ConstructorItem(inputs, state) =>
      var ins := ParamsFromJson(lib, inputs);
      if ins.Err? then Err(ins.error)
      else Ok(MakeEntry(Constructor, "", ins.value, [], StateFromJson(state), false))
    case FallbackItem(state) => Ok(MakeEntry(Fallback, "", [], [], StateFromJson(state), false))
    case ReceiveItem(state) => Ok(MakeEntry(Receive, "", [], [], StateFromJson(state), false))
    case FunctionItem(name, inputs, outputs, state) =>
      if !lib.ValidName(name, false) then Err(InvalidName(name))
      else
        var ins, outs := ParamsFromJson(lib, inputs), ParamsFromJson(lib, outputs);
        if ins.Err? then Err(ins.error)
        else if outs.Err? then Err(outs.error)
        else Ok(MakeEntry(Function, name, ins.value, outs.value, StateFromJson(state), false))
    case EventItem(name, params, anonymous) =>
      if !lib.ValidName(name, false) then Err(InvalidName(name))
      else
        var ins := EventParamsFromJson(lib, params);
        if ins.Err? then Err(ins.error) else Ok(MakeEntry(Event, name, ins.value, [], TronUnknown(0), anonymous))
    case ErrorItem(name, inputs) =>
      if !lib.ValidName(name, false) then Err(InvalidName(name))
      else
        var ins := ParamsFromJson(lib, inputs);
        if ins.Err? then Err(ins.error) else Ok(MakeEntry(Error, name, ins.value, [], TronUnknown(0), false))
  }

  function ItemOf(lib: Lib, e: Entry): Converted<JsonItem>
  {
    match e.kind
    case Constructor =>
      var ins, state := ParamsToJson(lib, e.inputs), StateToJson(e.state, e.constant, e.payable, false);
      if ins.Err? then Err(ins.error) else if state.Err? then Err(state.error)
      else Ok(ConstructorItem(ins.value, state.value))
    case Function =>
      var ins, outs := ParamsToJson(lib, e.inputs), ParamsToJson(lib, e.outputs);
      var state := StateToJson(e.state, e.constant, e.payable, false);
      if !lib.ValidName(e.name, false) then Err(InvalidName(e.name))
      else if ins.Err? then Err(ins.error) else if outs.Err? then Err(outs.error)
      else if state.Err? then Err(state.error)
      else Ok(FunctionItem(e.name, ins.value, outs.value, state.value))
    case Event =>
      var ins := EventParamsToJson(lib, e.inputs);
      if !lib.ValidName(e.name, false) then Err(InvalidName(e.name))
      else if ins.Err? then Err(ins.error) else Ok(EventItem(e.name, ins.value, e.anonymous))
    case Fallback =>
      var state := StateToJson(e.state, e.constant, e.payable, false);
      if state.Err? then Err(state.error) else Ok(FallbackItem(state.value))
    case Receive =>
      var state := StateToJson(e.state, e.constant, e.payable, true);
      if state.Err? then Err(state.error) else Ok(ReceiveItem(state.value))
    case Error =>
      var ins := ParamsToJson(lib, e.inputs);
      if !lib.ValidName(e.name, false) then Err(InvalidName(e.name))
      else if ins.Err? then Err(ins.error) else Ok(ErrorItem(e.name, ins.value))
    case Unknown(code) => Err(UnknownEntryType(code))
  }

  // ---- Whole ABIs ----

  function OptSeq<T>(o: Option<T>): seq<T> { if o.Some? then [o.value] else [] }

  /** Alloy's iteration order. */
  function Items(j: JsonAbi): seq<JsonItem>
  {
    OptSeq(j.constructor_) + OptSeq(j.fallback) + OptSeq(j.receive)
    + M.Flatten(j.functions) + M.Flatten(j.events) + M.Flatten(j.errors)
  }

  function EntriesOf(lib: Lib, items: seq<JsonItem>): Converted<seq<Entry>>
  {
    if items == [] then Ok([]) else Cons(EntryOf(lib, items[0]), EntriesOf(lib, items[1..]))
  }

  function FromJson(lib: Lib, j: JsonAbi): Converted<seq<Entry>> { EntriesOf(lib, Items(j)) }

  predicate Taken(j: JsonAbi, kind: EntryType)
  {
    || (kind.Constructor? && j.constructor_.Some?)
    || (kind.Fallback? && j.fallback.Some?)
    || (kind.Receive? && j.receive.Some?)
  }

  function KindName(kind: EntryType): string
  {
    match kind
    case Constructor => "constructor"
    case Fallback => "fallback"
    case Receive => "receive"
    case _ => ""
  }

  function Place(j: JsonAbi, item: JsonItem): JsonAbi
  {
    match item
    case ConstructorItem(_, _) => j.(constructor_ := Some(item))
    case FallbackItem(_) => j.(fallback := Some(item))
    case ReceiveItem(_) => j.(receive := Some(item))
    case FunctionItem(name, _, _, _) => j.(functions := M.Insert(j.functions, name, item))
    case EventItem(name, _, _) => j.(events := M.Insert(j.events, name, item))
    case ErrorItem(name, _) => j.(errors := M.Insert(j.errors, name, item))
  }

  function AddEntry(lib: Lib, j: JsonAbi, e: Entry): Converted<JsonAbi>
  {
    if Taken(j, e.kind) then Err(DuplicateEntry(KindName(e.kind)))
    else
      match ItemOf(lib, e)
      case Err(err) => Err(err)
      case Ok(item) => Ok(Place(j, item))
  }

  function ToJsonFrom(lib: Lib, j: JsonAbi, es: seq<Entry>): Converted<JsonAbi>
    decreases |es|
  {
    if es == [] then Ok(j)
    else
      match AddEntry(lib, j, es[0])
      case Err(err) => Err(err)
      case Ok(j') => ToJsonFrom(lib, j', es[1..])
  }

  function ToJson(lib: Lib, es: seq<Entry>): Converted<JsonAbi> { ToJsonFrom(lib, EMPTY_ABI, es) }

  /** One list after another, or the first error. */
  function Append<T>(a: Converted<seq<T>>, b: Converted<seq<T>>): Converted<seq<T>>
  {
    if a.Err? then a else if b.Err? then b else Ok(a.value + b.value)
  }

  lemma {:induction false} EntriesOfConcat(lib: Lib, a: seq<JsonItem>, b: seq<JsonItem>)
    ensures EntriesOf(lib, a + b) == Append(EntriesOf(lib, a), EntriesOf(lib, b))
  {
    if a == [] {
      assert a + b == b;
      var r := EntriesOf(lib, b);
      assert r.Ok? ==> [] + r.value == r.value;
    } else {
      assert (a + b)[1..] == a[1..] + b && (a + b)[0] == a[0];
      EntriesOfConcat(lib, a[1..], b);
      var ea, eb := EntriesOf(lib, a[1..]), EntriesOf(lib, b);
      if EntryOf(lib, a[0]).Ok? && ea.Ok? && eb.Ok? {
        assert [EntryOf(lib, a[0]).value] + (ea.value + eb.value) == ([EntryOf(lib, a[0]).value] + ea.value) + eb.value;
      }
    }
  }

  /** One group of `try_from_json_abi`: convert and push, stopping at the first error. */
  method PushAll(lib: Lib, items: seq<JsonItem>, entries: seq<Entry>) returns (r: Converted<seq<Entry>>)
    ensures r == Append(Ok(entries), EntriesOf(lib, items))
  {
    var out := entries;
    assert entries + [] == entries;
    for i := 0 to |items|
      invariant EntriesOf(lib, items[..i]).Ok? && out == entries + EntriesOf(lib, items[..i]).value
    {
      EntriesOfConcat(lib, items[..i], items[i..]);
      assert items[..i] + items[i..] == items;
      EntriesOfConcat(lib, items[..i], [items[i]]);
      assert items[..i] + [items[i]] == items[..i + 1];
      var e := EntryOf(lib, items[i]);
      if e.Err? {
        return Err(e.error);
      }
      assert EntriesOf(lib, [items[i]]).value == [e.value];
      assert entries + (EntriesOf(lib, items[..i]).value + [e.value]) == out + [e.value];
      out := out + [e.value];
    }
    assert items[..|items|] == items;
    r := Ok(out);
  }

  /** `TronAbi::try_from_json_abi`. */
  method TryFromJsonAbi(lib: Lib, j: JsonAbi) returns (r: Converted<seq<Entry>>)
    ensures r == FromJson(lib, j)
  {
    EntriesOfConcat(lib, OptSeq(j.constructor_), OptSeq(j.fallback));
    EntriesOfConcat(lib, OptSeq(j.constructor_) + OptSeq(j.fallback), OptSeq(j.receive));
    var singles := OptSeq(j.constructor_) + OptSeq(j.fallback) + OptSeq(j.receive);
    EntriesOfConcat(lib, singles, M.Flatten(j.functions));
    EntriesOfConcat(lib, singles + M.Flatten(j.functions), M.Flatten(j.events));
    EntriesOfConcat(lib, singles + M.Flatten(j.functions) + M.Flatten(j.events), M.Flatten(j.errors));
    r := PushAll(lib, singles, []);
    assert EntriesOf(lib, singles).Ok? ==> [] + EntriesOf(lib, singles).value == EntriesOf(lib, singles).value;
    if r.Err? { return; }
    r := PushAll(lib, M.Flatten(j.functions), r.value);
    if r.Err? { return; }
    r := PushAll(lib, M.Flatten(j.events), r.value);
    if r.Err? { return; }
    r := PushAll(lib, M.Flatten(j.errors), r.value);
  }

  /** `TronAbi::try_to_json_abi`: fill the result entry by entry. */
  method TryToJsonAbi(lib: Lib, es: seq<Entry>) returns (r: Converted<JsonAbi>)
    ensures r == ToJson(lib, es)
  {
    var result := EMPTY_ABI;
    assert es[0..] == es;
    for i := 0 to |es|
      invariant ToJsonFrom(lib, result, es[i..]) == ToJson(lib, es)
    {
      var e := es[i];
      assert es[i..][0] == e && es[i..][1..] == es[i + 1..];
      if Taken(result, e.kind) {
        return Err(DuplicateEntry(KindName(e.kind)));
      }
      var item := ItemOf(lib, e);
      if item.Err? {
        return Err(item.error);
      }
      result := Place(result, item.value);
    }
    return Ok(result);
  }

  // ---- Placing items is regrouping them ----

  function ItemsOf(lib: Lib, es: seq<Entry>): Converted<seq<JsonItem>>
  {
    if es == [] then Ok([]) else Cons(ItemOf(lib, es[0]), ItemsOf(lib, es[1..]))
  }

  function PlaceAll(j: JsonAbi, items: seq<JsonItem>): Option<JsonAbi>
    decreases |items|
  {
    if items == [] then Some(j)
    else if Taken(j, KindOf(items[0])) then None
    else PlaceAll(Place(j, items[0]), items[1..])
  }

  lemma ItemKeepsKindAndName(lib: Lib, e: Entry)
    requires ItemOf(lib, e).Ok?
    ensures KindOf(ItemOf(lib, e).value) == e.kind
    ensures NameOf(ItemOf(lib, e).value) == if Named(e.kind) then e.name else ""
  {
  }

  lemma {:induction false} ToJsonIsPlacing(lib: Lib, j: JsonAbi, es: seq<Entry>)
    ensures ToJsonFrom(lib, j, es).Ok? <==> ItemsOf(lib, es).Ok? && PlaceAll(j, ItemsOf(lib, es).value).Some?
    ensures ToJsonFrom(lib, j, es).Ok? ==> PlaceAll(j, ItemsOf(lib, es).value) == Some(ToJsonFrom(lib, j, es).value)
    decreases |es|
  {
    if es != [] && ItemOf(lib, es[0]).Ok? {
      var item := ItemOf(lib, es[0]).value;
      ItemKeepsKindAndName(lib, es[0]);
      ToJsonIsPlacing(lib, Place(j, item), es[1..]);
      if ItemsOf(lib, es[1..]).Ok? {
        var items := ItemsOf(lib, es).value;
        assert items[0] == item && items[1..] == ItemsOf(lib, es[1..]).value;
      }
    }
  }

  function SingleOf(j: JsonAbi, kind: EntryType): Option<JsonItem>
  {
    match kind
    case Constructor => j.constructor_
    case Fallback => j.fallback
    case Receive => j.receive
    case _ => None
  }

  function GroupsOf(j: JsonAbi, kind: EntryType): M.Groups<JsonItem>
  {
    match kind
    case Function => j.functions
    case Event => j.events
    case Error => j.errors
    case _ => []
  }

  predicate Single(kind: EntryType) { kind.Constructor? || kind.Fallback? || kind.Receive? }

  lemma PlaceSingle(j: JsonAbi, item: JsonItem, kind: EntryType)
    requires Single(kind) && !Taken(j, KindOf(item))
    ensures OptSeq(SingleOf(Place(j, item), kind))
         == OptSeq(SingleOf(j, kind)) + (if KindOf(item) == kind then [item] else [])
  {
  }

  lemma PlaceInGroup(j: JsonAbi, item: JsonItem, kind: EntryType)
    requires Named(kind)
    ensures GroupsOf(Place(j, item), kind)
         == if KindOf(item) == kind then M.Insert(GroupsOf(j, kind), NameOf(item), item) else GroupsOf(j, kind)
  {
  }

  /** Placing leaves each singleton slot holding the items of its kind. */
  lemma {:induction false} PlacingSingles(j: JsonAbi, items: seq<JsonItem>, kind: EntryType)
    requires Single(kind) && PlaceAll(j, items).Some?
    ensures OptSeq(SingleOf(PlaceAll(j, items).value, kind)) == OptSeq(SingleOf(j, kind)) + Select(items, kind, KindOf)
    decreases |items|
  {
    if items != [] {
      var j' := Place(j, items[0]);
      PlaceSingle(j, items[0], kind);
      PlacingSingles(j', items[1..], kind);
      var head := if KindOf(items[0]) == kind then [items[0]] else [];
      M.ConcatAssociative(OptSeq(SingleOf(j, kind)), head, Select(items[1..], kind, KindOf));
    }
  }

  /** And each group holding the items of its kind, collected by name. */
  lemma {:induction false} PlacingGroups(j: JsonAbi, items: seq<JsonItem>, kind: EntryType)
    requires Named(kind) && PlaceAll(j, items).Some?
    ensures GroupsOf(PlaceAll(j, items).value, kind)
         == M.CollectInto(GroupsOf(j, kind), Select(items, kind, KindOf), NameOf)
    decreases |items|
  {
    if items != [] {
      PlaceInGroup(j, items[0], kind);
      PlacingGroups(Place(j, items[0]), items[1..], kind);
      var rest := Select(items[1..], kind, KindOf);
      if KindOf(items[0]) == kind {
        assert Select(items, kind, KindOf) == [items[0]] + rest && ([items[0]] + rest)[1..] == rest;
      } else {
        assert Select(items, kind, KindOf) == [] + rest == rest;
      }
    }
  }

  predicate Fits(j: JsonAbi, items: seq<JsonItem>, kind: EntryType)
  {
    |OptSeq(SingleOf(j, kind))| + |Select(items, kind, KindOf)| <= 1
  }

  /** It fails exactly when a singleton comes twice. */
  lemma {:induction false} PlacingSucceeds(j: JsonAbi, items: seq<JsonItem>)
    ensures PlaceAll(j, items).Some? <==>
      Fits(j, items, Constructor) && Fits(j, items, Fallback) && Fits(j, items, Receive)
    decreases |items|
  {
    if items != [] {
      var j', head, tail := Place(j, items[0]), items[0], items[1..];
      PlacingSucceeds(j', tail);
      FitsCons(j, items, Constructor);
      FitsCons(j, items, Fallback);
      FitsCons(j, items, Receive);
    }
  }

  lemma FitsCons(j: JsonAbi, items: seq<JsonItem>, kind: EntryType)
    requires items != [] && Single(kind)
    ensures KindOf(items[0]) != kind ==> (Fits(j, items, kind) <==> Fits(Place(j, items[0]), items[1..], kind))
    ensures KindOf(items[0]) == kind ==>
      (Fits(j, items, kind) <==> !Taken(j, kind) && Fits(Place(j, items[0]), items[1..], kind))
  {
  }
}
