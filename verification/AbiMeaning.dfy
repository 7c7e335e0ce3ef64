/** What the ABI conversions accept, refuse and produce, said of the fields of what goes in
    (crates/abi/src/alloy.rs). */
module AbiMeaning {
  import opened Wrappers
  import opened AbiTypes
  import opened TronAbi

  predicate OptionalName(lib: Lib, name: string) { name == "" || lib.validIdentifier(name) }

  // ---- Parameters, TRON to JSON ----

  /** The type and, after a space, the name if there is one. */
  function Text(p: TronParam): string { if |p.name| > 0 then p.ty + " " + p.name else p.ty }

  predicate BareTupleType(ty: string) { ty == "tuple" || "tuple[" <= ty }

  predicate ParamOk(lib: Lib, p: TronParam)
  {
    OptionalName(lib, p.name) && !BareTupleType(p.ty) && lib.parseParam(Text(p)).Some?
  }

  ghost predicate ParamRefused(lib: Lib, p: TronParam, e: ConversionError)
  {
    if !OptionalName(lib, p.name) then e == InvalidName(p.name)
    else if BareTupleType(p.ty) then e == IncompleteTuple(p.name)
    else lib.parseParam(Text(p)).None? && e == InvalidType(p.ty)
  }

  ghost predicate AllOk(lib: Lib, ps: seq<TronParam>) { forall i :: 0 <= i < |ps| ==> ParamOk(lib, ps[i]) }

  /** The first parameter refused gives the error. */
  ghost predicate ListRefused(lib: Lib, ps: seq<TronParam>, e: ConversionError)
  {
    exists k :: 0 <= k < |ps| && ParamRefused(lib, ps[k], e) && AllOk(lib, ps[..k])
  }

  ghost predicate ReadAs(lib: Lib, ps: seq<TronParam>, qs: seq<Param>)
  {
    |qs| == |ps| && forall i :: 0 <= i < |ps| ==> lib.parseParam(Text(ps[i])) == Some(qs[i])
  }

  ghost predicate EventReadAs(lib: Lib, ps: seq<TronParam>, qs: seq<EventParam>)
  {
    && |qs| == |ps|
    && forall i :: 0 <= i < |ps| ==> lib.parseParam(Text(ps[i])) == Some(qs[i].param) && qs[i].indexed == ps[i].indexed
  }

  lemma BareTupleMeaning(ty: string)
    ensures BareTuple(ty) <==> BareTupleType(ty)
  {
    if BareTuple(ty) && |ty| > 5 {
      assert ty[..6] == ty[..5] + [ty[5]];
    }
    if "tuple[" <= ty {
      assert ty[..5] == ty[..6][..5] && ty[5] == ty[..6][5];
    }
  }

  lemma ParamToJsonMeaning(lib: Lib, p: TronParam)
    ensures ParamToJson(lib, p).Ok? <==> ParamOk(lib, p)
    ensures ParamToJson(lib, p).Ok? ==> lib.parseParam(Text(p)) == Some(ParamToJson(lib, p).value)
    ensures ParamToJson(lib, p).Err? ==> ParamRefused(lib, p, ParamToJson(lib, p).error)
  {
    BareTupleMeaning(p.ty);
  }

  lemma AllOkCons(lib: Lib, ps: seq<TronParam>)
    requires ps != []
    ensures AllOk(lib, ps) <==> ParamOk(lib, ps[0]) && AllOk(lib, ps[1..])
  {
    assert forall i :: 0 < i < |ps| ==> ps[i] == ps[1..][i - 1];
  }

  lemma RefusedCons(lib: Lib, ps: seq<TronParam>, e: ConversionError)
    requires ps != []
    ensures ParamRefused(lib, ps[0], e) ==> ListRefused(lib, ps, e)
    ensures ParamOk(lib, ps[0]) && ListRefused(lib, ps[1..], e) ==> ListRefused(lib, ps, e)
  {
    if ParamRefused(lib, ps[0], e) {
      assert ps[..0] == [];
    }
    if ParamOk(lib, ps[0]) && ListRefused(lib, ps[1..], e) {
      var k :| 0 <= k < |ps[1..]| && ParamRefused(lib, ps[1..][k], e) && AllOk(lib, ps[1..][..k]);
      assert ps[..k + 1][1..] == ps[1..][..k];
      AllOkCons(lib, ps[..k + 1]);
      assert ParamRefused(lib, ps[k + 1], e);
    }
  }

  lemma {:induction false} ParamsToJsonMeaning(lib: Lib, ps: seq<TronParam>)
    ensures ParamsToJson(lib, ps).Ok? <==> AllOk(lib, ps)
    ensures ParamsToJson(lib, ps).Ok? ==> ReadAs(lib, ps, ParamsToJson(lib, ps).value)
    ensures ParamsToJson(lib, ps).Err? ==> ListRefused(lib, ps, ParamsToJson(lib, ps).error)
  {
    if ps != [] {
      ParamToJsonMeaning(lib, ps[0]);
      ParamsToJsonMeaning(lib, ps[1..]);
      AllOkCons(lib, ps);
      if ParamsToJson(lib, ps).Err? {
        RefusedCons(lib, ps, ParamsToJson(lib, ps).error);
      }
    }
  }

  lemma {:induction false} EventParamsToJsonMeaning(lib: Lib, ps: seq<TronParam>)
    ensures EventParamsToJson(lib, ps).Ok? <==> AllOk(lib, ps)
    ensures EventParamsToJson(lib, ps).Ok? ==> EventReadAs(lib, ps, EventParamsToJson(lib, ps).value)
    ensures EventParamsToJson(lib, ps).Err? ==> ListRefused(lib, ps, EventParamsToJson(lib, ps).error)
  {
    if ps != [] {
      ParamToJsonMeaning(lib, ps[0]);
      EventParamsToJsonMeaning(lib, ps[1..]);
      AllOkCons(lib, ps);
      if EventParamsToJson(lib, ps).Err? {
        RefusedCons(lib, ps, EventParamsToJson(lib, ps).error);
      }
    }
  }

  // ---- Mutability ----

  predicate Pays(e: Entry) { e.payable || e.kind == Receive }

  /** A mutability that is set, or the one the legacy flags spell when it is not. */
  ghost predicate StateIs(e: Entry, m: Mutability)
  {
    match e.state
    case TronPure => m == Pure
    case TronView => m == View
    case TronNonPayable => m == NonPayable
    case TronPayable => m == Payable
    case TronUnknown(code) =>
      && code == 0 && !(e.constant && Pays(e))
      && (m == Payable <==> Pays(e)) && (m == View <==> e.constant) && m != Pure
  }

  predicate StateOk(e: Entry) { e.state.TronUnknown? ==> e.state == TronUnknown(0) && !(e.constant && Pays(e)) }

  ghost predicate StateRefused(e: Entry, err: ConversionError)
  {
    && e.state.TronUnknown?
    && if e.state.code != 0 then err == InvalidMutability(e.state.code)
       else e.constant && Pays(e) && err == ConflictingMutability
  }

  lemma StateToJsonMeaning(e: Entry)
    ensures var r := StateToJson(e.state, e.constant, e.payable, e.kind == Receive);
      && (r.Ok? <==> StateOk(e))
      && (r.Ok? ==> StateIs(e, r.value))
      && (r.Err? ==> StateRefused(e, r.error))
  {
  }

  // ---- Entries, TRON to JSON ----

  predicate HasName(kind: EntryType) { kind == Function || kind == Event || kind == Error }

  predicate HasInputs(kind: EntryType) { HasName(kind) || kind == Constructor }

  predicate HasMutability(kind: EntryType)
  {
    kind == Constructor || kind == Fallback || kind == Receive || kind == Function
  }

  /** What of an entry's fields decides whether it reaches JSON. */
  ghost predicate EntryOk(lib: Lib, e: Entry)
  {
    && !e.kind.Unknown?
    && (HasName(e.kind) ==> lib.validIdentifier(e.name))
    && (HasInputs(e.kind) ==> AllOk(lib, e.inputs))
    && (e.kind == Function ==> AllOk(lib, e.outputs))
    && (HasMutability(e.kind) ==> StateOk(e))
  }

  /** The kind, the name, the inputs, the outputs and the mutability are looked at in this order,
      and the first that is refused gives the error. */
  ghost predicate EntryRefused(lib: Lib, e: Entry, err: ConversionError)
  {
    if e.kind.Unknown? then err == UnknownEntryType(e.kind.code)
    else if HasName(e.kind) && !lib.validIdentifier(e.name) then err == InvalidName(e.name)
    else if HasInputs(e.kind) && !AllOk(lib, e.inputs) then ListRefused(lib, e.inputs, err)
    else if e.kind == Function && !AllOk(lib, e.outputs) then ListRefused(lib, e.outputs, err)
    else HasMutability(e.kind) && StateRefused(e, err)
  }

  /** Each item holds its entry's fields. */
  ghost predicate ItemHolds(lib: Lib, e: Entry, item: JsonItem)
  {
    match item
    case ConstructorItem(inputs, state) => e.kind == Constructor && ReadAs(lib, e.inputs, inputs) && StateIs(e, state)
    case FallbackItem(state) => e.kind == Fallback && StateIs(e, state)
    case ReceiveItem(state) => e.kind == Receive && StateIs(e, state)
    case FunctionItem(name, inputs, outputs, state) =>
      && e.kind == Function && name == e.name
      && ReadAs(lib, e.inputs, inputs) && ReadAs(lib, e.outputs, outputs) && StateIs(e, state)
    case EventItem(name, params, anonymous) =>
      e.kind == Event && name == e.name && EventReadAs(lib, e.inputs, params) && anonymous == e.anonymous
    case ErrorItem(name, inputs) => e.kind == Error && name == e.name && ReadAs(lib, e.inputs, inputs)
  }

  /** An entry reaches JSON exactly when its fields are in order; then the item holds them, and
      otherwise the first field that is not gives the error. */
  lemma EntryToJsonMeaning(lib: Lib, e: Entry)
    ensures ItemOf(lib, e).Ok? <==> EntryOk(lib, e)
    ensures ItemOf(lib, e).Ok? ==> ItemHolds(lib, e, ItemOf(lib, e).value)
    ensures ItemOf(lib, e).Err? ==> EntryRefused(lib, e, ItemOf(lib, e).error)
  {
    match e.kind
    case Function => FunctionToJsonMeaning(lib, e);
    case Event => EventParamsToJsonMeaning(lib, e.inputs);
    case Error => ParamsToJsonMeaning(lib, e.inputs);
    case Constructor =>
      ParamsToJsonMeaning(lib, e.inputs);
      StateToJsonMeaning(e);
    case _ => StateToJsonMeaning(e);
  }

  lemma FunctionToJsonMeaning(lib: Lib, e: Entry)
    requires e.kind == Function
    ensures ItemOf(lib, e).Ok? <==> EntryOk(lib, e)
    ensures ItemOf(lib, e).Ok? ==> ItemHolds(lib, e, ItemOf(lib, e).value)
    ensures ItemOf(lib, e).Err? ==> EntryRefused(lib, e, ItemOf(lib, e).error)
  {
    ParamsToJsonMeaning(lib, e.inputs);
    ParamsToJsonMeaning(lib, e.outputs);
    StateToJsonMeaning(e);
  }

  // ---- Lists of entries ----

  predicate OnlyOnce(kind: EntryType) { kind == Constructor || kind == Fallback || kind == Receive }

  ghost predicate SeenBefore(es: seq<Entry>, k: nat)
    requires k < |es|
  {
    OnlyOnce(es[k].kind) && HasKind(es[..k], es[k].kind)
  }

  function DuplicateOf(kind: EntryType): ConversionError
  {
    DuplicateEntry(if kind == Constructor then "constructor" else if kind == Fallback then "fallback" else "receive")
  }

  lemma {:induction false} ToJsonSnoc(lib: Lib, j: JsonAbi, es: seq<Entry>, e: Entry)
    ensures ToJsonFrom(lib, j, es + [e]) ==
      match ToJsonFrom(lib, j, es) case Err(err) => Err(err) case Ok(j') => AddEntry(lib, j', e)
    decreases |es|
  {
    if es == [] {
      assert [] + [e] == [e] && [e][1..] == [];
    } else {
      assert (es + [e])[1..] == es[1..] + [e] && (es + [e])[0] == es[0];
      match AddEntry(lib, j, es[0]) {
        case Err(_) =>
        case Ok(j') => ToJsonSnoc(lib, j', es[1..], e);
      }
    }
  }

  lemma {:induction false} TakenMeansSeen(lib: Lib, es: seq<Entry>, kind: EntryType)
    requires ToJson(lib, es).Ok?
    ensures Taken(ToJson(lib, es).value, kind) <==> OnlyOnce(kind) && HasKind(es, kind)
    decreases |es|
  {
    if es != [] {
      var init, last := es[..|es| - 1], es[|es| - 1];
      assert init + [last] == es;
      ToJsonSnoc(lib, EMPTY_ABI, init, last);
      TakenMeansSeen(lib, init, kind);
      ItemKeepsKindAndName(lib, last);
      HasKindSnoc(es, kind);
      TakenAfter(ToJson(lib, init).value, ItemOf(lib, last).value, kind);
    }
  }

  ghost predicate HasKind(es: seq<Entry>, kind: EntryType) { exists i :: 0 <= i < |es| && es[i].kind == kind }

  lemma HasKindSnoc(es: seq<Entry>, kind: EntryType)
    requires es != []
    ensures HasKind(es, kind) <==> HasKind(es[..|es| - 1], kind) || es[|es| - 1].kind == kind
  {
    if HasKind(es[..|es| - 1], kind) {
      var i :| 0 <= i < |es| - 1 && es[..|es| - 1][i].kind == kind;
      assert es[i].kind == kind;
    }
    if i :| 0 <= i < |es| && es[i].kind == kind {
      if i < |es| - 1 { assert es[..|es| - 1][i].kind == kind; }
    }
  }

  lemma TakenAfter(j: JsonAbi, item: JsonItem, kind: EntryType)
    ensures Taken(Place(j, item), kind) <==> Taken(j, kind) || (OnlyOnce(kind) && KindOf(item) == kind)
  {
  }

  ghost predicate AllInOrder(lib: Lib, es: seq<Entry>)
  {
    forall i: nat :: i < |es| ==> EntryOk(lib, es[i]) && !SeenBefore(es, i)
  }

  lemma AllInOrderSnoc(lib: Lib, es: seq<Entry>)
    requires es != []
    ensures var n := |es| - 1;
      AllInOrder(lib, es) <==> AllInOrder(lib, es[..n]) && EntryOk(lib, es[n]) && !SeenBefore(es, n)
  {
    var n := |es| - 1;
    assert forall i: nat :: i < n ==> es[..n][i] == es[i] && es[..n][..i] == es[..i];
    assert forall i: nat :: i < n ==> (SeenBefore(es[..n], i) <==> SeenBefore(es, i));
  }

  /** Converting a list to JSON succeeds exactly when each entry is in order and no constructor,
      fallback or receive comes twice; otherwise the first entry that is not so gives the error. */
  lemma {:induction false} ToJsonMeaning(lib: Lib, es: seq<Entry>) returns (k: nat)
    ensures ToJson(lib, es).Ok? <==> AllInOrder(lib, es)
    ensures ToJson(lib, es).Err? ==>
      && k < |es| && ToJson(lib, es[..k]).Ok?
      && if SeenBefore(es, k) then ToJson(lib, es).error == DuplicateOf(es[k].kind)
         else EntryRefused(lib, es[k], ToJson(lib, es).error)
    decreases |es|
  {
    k := 0;
    if es != [] {
      var n := |es| - 1;
      assert es[..n] + [es[n]] == es;
      k := ToJsonMeaning(lib, es[..n]);
      AllInOrderSnoc(lib, es);
      ToJsonSnoc(lib, EMPTY_ABI, es[..n], es[n]);
      EntryToJsonMeaning(lib, es[n]);
      if ToJson(lib, es[..n]).Ok? {
        TakenMeansSeen(lib, es[..n], es[n].kind);
        k := n;
      } else {
        assert es[..n][..k] == es[..k];
      }
    }
  }

  // ---- JSON to TRON ----

  predicate JsonParamOk(lib: Lib, p: Param)
  {
    OptionalName(lib, p.name) && !("tuple" <= p.ty && p.components == []) && lib.selectorType(p) != ""
  }

  ghost predicate JsonParamRefused(lib: Lib, p: Param, e: ConversionError)
  {
    if !OptionalName(lib, p.name) then e == InvalidName(p.name)
    else if "tuple" <= p.ty && p.components == [] then e == IncompleteTuple(p.name)
    else lib.selectorType(p) == "" && e == InvalidType(p.ty)
  }

  ghost predicate AllJsonOk(lib: Lib, ps: seq<Param>) { forall i :: 0 <= i < |ps| ==> JsonParamOk(lib, ps[i]) }

  ghost predicate JsonListRefused(lib: Lib, ps: seq<Param>, e: ConversionError)
  {
    exists k :: 0 <= k < |ps| && JsonParamRefused(lib, ps[k], e) && AllJsonOk(lib, ps[..k])
  }

  /** Names stay, types become selector types, and the flags say which are indexed. */
  ghost predicate WrittenAs(lib: Lib, ps: seq<Param>, indexed: seq<bool>, qs: seq<TronParam>)
  {
    && |qs| == |ps| == |indexed|
    && forall i :: 0 <= i < |ps| ==> qs[i] == TronParam(indexed[i], ps[i].name, lib.selectorType(ps[i]))
  }

  function ParamsOf(ps: seq<EventParam>): (r: seq<Param>)
    ensures |r| == |ps| && forall i :: 0 <= i < |ps| ==> r[i] == ps[i].param
  {
    seq(|ps|, i requires 0 <= i < |ps| => ps[i].param)
  }

  function FlagsOf(ps: seq<EventParam>): (r: seq<bool>)
    ensures |r| == |ps| && forall i :: 0 <= i < |ps| ==> r[i] == ps[i].indexed
  {
    seq(|ps|, i requires 0 <= i < |ps| => ps[i].indexed)
  }

  function Unindexed(n: nat): seq<bool> { seq(n, _ => false) }

  lemma ParamFromJsonMeaning(lib: Lib, p: Param)
    ensures ParamFromJson(lib, p).Ok? <==> JsonParamOk(lib, p)
    ensures ParamFromJson(lib, p).Ok? ==> ParamFromJson(lib, p).value == TronParam(false, p.name, lib.selectorType(p))
    ensures ParamFromJson(lib, p).Err? ==> JsonParamRefused(lib, p, ParamFromJson(lib, p).error)
  {
  }

  lemma AllJsonOkCons(lib: Lib, ps: seq<Param>)
    requires ps != []
    ensures AllJsonOk(lib, ps) <==> JsonParamOk(lib, ps[0]) && AllJsonOk(lib, ps[1..])
  {
    assert forall i :: 0 < i < |ps| ==> ps[i] == ps[1..][i - 1];
  }

  lemma JsonRefusedCons(lib: Lib, ps: seq<Param>, e: ConversionError)
    requires ps != []
    ensures JsonParamRefused(lib, ps[0], e) ==> JsonListRefused(lib, ps, e)
    ensures JsonParamOk(lib, ps[0]) && JsonListRefused(lib, ps[1..], e) ==> JsonListRefused(lib, ps, e)
  {
    if JsonParamRefused(lib, ps[0], e) {
      assert ps[..0] == [];
    }
    if JsonParamOk(lib, ps[0]) && JsonListRefused(lib, ps[1..], e) {
      var k :| 0 <= k < |ps[1..]| && JsonParamRefused(lib, ps[1..][k], e) && AllJsonOk(lib, ps[1..][..k]);
      assert ps[..k + 1][1..] == ps[1..][..k];
      AllJsonOkCons(lib, ps[..k + 1]);
      assert JsonParamRefused(lib, ps[k + 1], e);
    }
  }

  lemma {:induction false} ParamsFromJsonMeaning(lib: Lib, ps: seq<Param>)
    ensures ParamsFromJson(lib, ps).Ok? <==> AllJsonOk(lib, ps)
    ensures ParamsFromJson(lib, ps).Ok? ==> WrittenAs(lib, ps, Unindexed(|ps|), ParamsFromJson(lib, ps).value)
    ensures ParamsFromJson(lib, ps).Err? ==> JsonListRefused(lib, ps, ParamsFromJson(lib, ps).error)
  {
    if ps != [] {
      ParamFromJsonMeaning(lib, ps[0]);
      ParamsFromJsonMeaning(lib, ps[1..]);
      AllJsonOkCons(lib, ps);
      if ParamsFromJson(lib, ps).Err? {
        JsonRefusedCons(lib, ps, ParamsFromJson(lib, ps).error);
      }
    }
  }

  lemma {:induction false} EventParamsFromJsonMeaning(lib: Lib, ps: seq<EventParam>)
    ensures EventParamsFromJson(lib, ps).Ok? <==> AllJsonOk(lib, ParamsOf(ps))
    ensures EventParamsFromJson(lib, ps).Ok? ==>
      WrittenAs(lib, ParamsOf(ps), FlagsOf(ps), EventParamsFromJson(lib, ps).value)
    ensures EventParamsFromJson(lib, ps).Err? ==>
      JsonListRefused(lib, ParamsOf(ps), EventParamsFromJson(lib, ps).error)
  {
    if ps != [] {
      ParamFromJsonMeaning(lib, ps[0].param);
      EventParamsFromJsonMeaning(lib, ps[1..]);
      assert ParamsOf(ps)[1..] == ParamsOf(ps[1..]) && FlagsOf(ps)[1..] == FlagsOf(ps[1..]);
      AllJsonOkCons(lib, ParamsOf(ps));
      if EventParamsFromJson(lib, ps).Err? {
        JsonRefusedCons(lib, ParamsOf(ps), EventParamsFromJson(lib, ps).error);
      }
    }
  }

  function NameIn(item: JsonItem): string
  {
    if item.FunctionItem? || item.EventItem? || item.ErrorItem? then item.name else ""
  }

  function InputsIn(item: JsonItem): seq<Param>
  {
    match item
    case ConstructorItem(inputs, _) => inputs
    case FunctionItem(_, inputs, _, _) => inputs
    case EventItem(_, params, _) => ParamsOf(params)
    case ErrorItem(_, inputs) => inputs
    case _ => []
  }

  function IndexedIn(item: JsonItem): seq<bool>
  {
    if item.EventItem? then FlagsOf(item.params) else Unindexed(|InputsIn(item)|)
  }

  function OutputsIn(item: JsonItem): seq<Param> { if item.FunctionItem? then item.outputs else [] }

  predicate HasNameIn(item: JsonItem) { item.FunctionItem? || item.EventItem? || item.ErrorItem? }

  ghost predicate ItemOk(lib: Lib, item: JsonItem)
  {
    && (HasNameIn(item) ==> lib.validIdentifier(NameIn(item)))
    && AllJsonOk(lib, InputsIn(item)) && AllJsonOk(lib, OutputsIn(item))
  }

  ghost predicate ItemRefused(lib: Lib, item: JsonItem, e: ConversionError)
  {
    if HasNameIn(item) && !lib.validIdentifier(NameIn(item)) then e == InvalidName(NameIn(item))
    else if !AllJsonOk(lib, InputsIn(item)) then JsonListRefused(lib, InputsIn(item), e)
    else JsonListRefused(lib, OutputsIn(item), e)
  }

  /** The entry holds its item's fields; the mutability is set exactly where the item has one,
      and the legacy flags agree with it. */
  ghost predicate EntryHolds(lib: Lib, item: JsonItem, e: Entry)
  {
    && e.name == NameIn(item)
    && WrittenAs(lib, InputsIn(item), IndexedIn(item), e.inputs)
    && WrittenAs(lib, OutputsIn(item), Unindexed(|OutputsIn(item)|), e.outputs)
    && (e.anonymous <==> item.EventItem? && item.anonymous)
    && (e.constant <==> e.state == TronPure || e.state == TronView)
    && (e.payable <==> e.state == TronPayable)
    && match item
       case ConstructorItem(_, m) => e.kind == Constructor && StateIs(e, m) && !e.state.TronUnknown?
       case FallbackItem(m) => e.kind == Fallback && StateIs(e, m) && !e.state.TronUnknown?
       case ReceiveItem(m) => e.kind == Receive && StateIs(e, m) && !e.state.TronUnknown?
       case FunctionItem(_, _, _, m) => e.kind == Function && StateIs(e, m) && !e.state.TronUnknown?
       case EventItem(_, _, _) => e.kind == Event && e.state == TronUnknown(0)
       case ErrorItem(_, _) => e.kind == Error && e.state == TronUnknown(0)
  }

  lemma ItemFromJsonMeaning(lib: Lib, item: JsonItem)
    ensures EntryOf(lib, item).Ok? <==> ItemOk(lib, item)
    ensures EntryOf(lib, item).Ok? ==> EntryHolds(lib, item, EntryOf(lib, item).value)
    ensures EntryOf(lib, item).Err? ==> ItemRefused(lib, item, EntryOf(lib, item).error)
  {
    match item
    case ConstructorItem(inputs, _) => ParamsFromJsonMeaning(lib, inputs);
    case FunctionItem(_, inputs, outputs, _) =>
      ParamsFromJsonMeaning(lib, inputs);
      ParamsFromJsonMeaning(lib, outputs);
    case EventItem(_, params, _) => EventParamsFromJsonMeaning(lib, params);
    case ErrorItem(_, inputs) => ParamsFromJsonMeaning(lib, inputs);
    case _ =>
  }

  ghost predicate ItemsOk(lib: Lib, items: seq<JsonItem>) { forall i :: 0 <= i < |items| ==> ItemOk(lib, items[i]) }

  ghost predicate EachHolds(lib: Lib, items: seq<JsonItem>, es: seq<Entry>)
  {
    |es| == |items| &&
    (items == [] || (EntryHolds(lib, items[0], es[0]) && EachHolds(lib, items[1..], es[1..])))
  }

  lemma ItemsOkCons(lib: Lib, items: seq<JsonItem>)
    requires items != []
    ensures ItemsOk(lib, items) <==> ItemOk(lib, items[0]) && ItemsOk(lib, items[1..])
  {
    assert forall i :: 0 < i < |items| ==> items[i] == items[1..][i - 1];
  }

  /** Converting a JSON ABI takes its items one by one: the entries hold their fields, in order,
      and the first item that is not in order gives the error. */
  lemma {:induction false} FromItemsMeaning(lib: Lib, items: seq<JsonItem>) returns (k: nat)
    ensures EntriesOf(lib, items).Ok? <==> ItemsOk(lib, items)
    ensures EntriesOf(lib, items).Ok? ==> EachHolds(lib, items, EntriesOf(lib, items).value)
    ensures EntriesOf(lib, items).Err? ==>
      k < |items| && ItemsOk(lib, items[..k]) && ItemRefused(lib, items[k], EntriesOf(lib, items).error)
  {
    k := 0;
    if items != [] {
      ItemFromJsonMeaning(lib, items[0]);
      ItemsOkCons(lib, items);
      var m := FromItemsMeaning(lib, items[1..]);
      if EntryOf(lib, items[0]).Ok? {
        if EntriesOf(lib, items[1..]).Ok? {
          assert EntriesOf(lib, items).value[1..] == EntriesOf(lib, items[1..]).value;
        } else {
          k := m + 1;
          assert items[..k][1..] == items[1..][..m] && items[..k][0] == items[0];
          ItemsOkCons(lib, items[..k]);
        }
      }
    }
  }
}
