/** Names of the generated methods of a contract handle: one for each function, one for each
    event (crates/sol-macro/src/lib.rs). */
module MethodNames {
  import opened Decimals

  const RESERVED: set<string> := {
    "new", "deploy", "deploy_builder", "address", "set_address", "at",
    "caller", "set_caller", "provider", "call_builder", "event_filter"}

  /** `{base}_{i}`. */
  function Numbered(base: string, i: nat): string { base + "_" + Decimal(i) }

  function Count(names: seq<string>, n: string): nat { multiset(names)[n] }

  /** How many functions of the same name come before the `i`-th. */
  function RankOf(names: seq<string>, i: nat): nat
    requires i < |names|
  {
    Count(names[..i], names[i])
  }

  function Effective(names: seq<string>, i: nat): string
    requires i < |names|
  {
    if Count(names, names[i]) > 1 then Numbered(names[i], RankOf(names, i)) else names[i]
  }

  function MethodName(effective: string): string
  {
    if effective in RESERVED then effective + "_call" else effective
  }

  function FilterName(effective: string): string { effective + "_filter" }

  /** The methods every handle has; the last two only with bytecode to deploy. */
  function OwnMethods(deployable: bool): set<string>
  {
    {"address", "set_address", "at", "caller", "set_caller", "provider", "call_builder", "event_filter"}
    + (if deployable then {"deploy_builder", "deploy"} else {})
  }

  /** The reserved names are those of the methods every handle has, and its free constructor. */
  lemma ReservedIsExactly(name: string)
    ensures name in RESERVED <==> name == "new" || name in OwnMethods(true)
  {
  }

  lemma CountAppend(names: seq<string>, i: nat, n: string)
    requires i < |names|
    ensures Count(names[..i + 1], n) == Count(names[..i], n) + (if names[i] == n then 1 else 0)
  {
    assert names[..i + 1] == names[..i] + [names[i]];
  }

  function Get(m: map<string, nat>, n: string): nat { if n in m then m[n] else 0 }

  /** `m` counts the names met more than `floor` times in all, over the first `i`. */
  ghost predicate Tallies(m: map<string, nat>, names: seq<string>, i: nat, floor: nat)
  {
    i <= |names| && forall n :: Count(names, n) > floor ==> Get(m, n) == Count(names[..i], n)
  }

  lemma TallyNext(m: map<string, nat>, names: seq<string>, i: nat, floor: nat)
    requires Tallies(m, names, i, floor) && i < |names|
    ensures Tallies(m[names[i] := Get(m, names[i]) + 1], names, i + 1, floor)
    ensures Count(names, names[i]) <= floor ==> Tallies(m, names, i + 1, floor)
  {
    forall n ensures Count(names[..i + 1], n) == Count(names[..i], n) + (if names[i] == n then 1 else 0) {
      CountAppend(names, i, n);
    }
  }

  lemma TallyAll(m: map<string, nat>, names: seq<string>, n: string)
    requires Tallies(m, names, |names|, 0)
    ensures Count(names, n) > 0 ==> Get(m, n) == Count(names, n)
  {
    assert names[..|names|] == names;
  }

  /** The numbering loops of `expand_contract`, one pair for the functions and one for the events. */
  method NumberOverloads(names: seq<string>) returns (bases: seq<string>)
    ensures bases == EffectiveNames(names)
  {
    var counts: map<string, nat> := map[];
    for i := 0 to |names|
      invariant Tallies(counts, names, i, 0)
    {
      TallyNext(counts, names, i, 0);
      counts := counts[names[i] := Get(counts, names[i]) + 1];
    }
    var seen: map<string, nat> := map[];
    bases := [];
    for i := 0 to |names|
      invariant |bases| == i && Tallies(seen, names, i, 1)
      invariant forall k :: 0 <= k < i ==> bases[k] == Effective(names, k)
    {
      var effective := names[i];
      TallyAll(counts, names, names[i]);
      CountPositive(names, i);
      TallyNext(seen, names, i, 1);
      if Get(counts, names[i]) > 1 {
        effective := Numbered(names[i], Get(seen, names[i]));
        seen := seen[names[i] := Get(seen, names[i]) + 1];
      }
      bases := bases + [effective];
    }
  }

  /** The names generated for a contract: the call structs, the function methods, the event
      types and the filter methods. */
  method NameMethods(functions: seq<string>, events: seq<string>)
    returns (calls: seq<string>, methods: seq<string>, types: seq<string>, filters: seq<string>)
    ensures calls == EffectiveNames(functions) && methods == MethodNamesOf(functions)
    ensures types == EffectiveNames(events) && filters == FilterNamesOf(events)
  {
    calls := NumberOverloads(functions);
    methods := [];
    for i := 0 to |calls|
      invariant |methods| == i && forall k :: 0 <= k < i ==> methods[k] == MethodName(calls[k])
    {
      methods := methods + [MethodName(calls[i])];
    }
    types := NumberOverloads(events);
    filters := [];
    for i := 0 to |types|
      invariant |filters| == i && forall k :: 0 <= k < i ==> filters[k] == FilterName(types[k])
    {
      filters := filters + [FilterName(types[i])];
    }
  }

  function EffectiveNames(names: seq<string>): seq<string>
  {
    seq(|names|, i requires 0 <= i < |names| => Effective(names, i))
  }

  function MethodNamesOf(names: seq<string>): seq<string>
  {
    seq(|names|, i requires 0 <= i < |names| => MethodName(Effective(names, i)))
  }

  function FilterNamesOf(names: seq<string>): seq<string>
  {
    seq(|names|, i requires 0 <= i < |names| => FilterName(Effective(names, i)))
  }

  // ---- The last underscore ----

  lemma {:induction false} DecimalHasNoUnderscore(i: nat)
    ensures '_' !in Decimal(i)
  {
    DecimalReadsBack(i);
  }

  lemma AtMark(a: string, x: string)
    ensures (a + "_" + x)[|a|] == '_'
  {
  }

  lemma PastMark(a: string, x: string, p: nat)
    requires |a| < p < |a + "_" + x|
    ensures (a + "_" + x)[p] in x
  {
    assert (a + "_" + x)[p] == x[p - |a| - 1];
  }

  lemma MarkNotBefore(a: string, b: string, x: string, y: string)
    requires a + "_" + x == b + "_" + y && '_' !in x
    ensures |b| <= |a|
  {
    if |a| < |b| {
      PastMark(a, x, |b|);
      AtMark(b, y);
    }
  }

  lemma LastUnderscore(a: string, b: string, x: string, y: string)
    requires a + "_" + x == b + "_" + y && '_' !in x && '_' !in y
    ensures a == b && x == y
  {
    var s := a + "_" + x;
    MarkNotBefore(a, b, x, y);
    MarkNotBefore(b, a, y, x);
    assert a == s[..|a|] == b && x == s[|a| + 1..] == y;
  }

  /** A numbered name has one base and one number. */
  lemma NumberedInjective(a: string, i: nat, b: string, j: nat)
    requires Numbered(a, i) == Numbered(b, j)
    ensures a == b && i == j
  {
    DecimalHasNoUnderscore(i);
    DecimalHasNoUnderscore(j);
    LastUnderscore(a, b, Decimal(i), Decimal(j));
    DecimalInjective(i, j);
  }

  lemma NumberedEndsInDigit(a: string, i: nat)
    ensures var s := Numbered(a, i); s != [] && IsDigit(s[|s| - 1])
  {
    DecimalReadsBack(i);
    var s := Numbered(a, i);
    assert s[|s| - 1] == Decimal(i)[|Decimal(i)| - 1];
  }

  predicate EndsInLetter(s: string) { s != [] && !IsDigit(s[|s| - 1]) }

  lemma ReservedEndInLetters(s: string)
    requires s in RESERVED
    ensures EndsInLetter(s)
  {
  }

  lemma CallEndsInLetter(s: string)
    ensures EndsInLetter(s + "_call")
  {
  }

  // ---- Ranks ----

  lemma RanksDiffer(names: seq<string>, i: nat, j: nat)
    requires i < j < |names| && names[i] == names[j]
    ensures RankOf(names, i) < RankOf(names, j)
    ensures Count(names, names[i]) > 1
  {
    CountAppend(names, i, names[i]);
    CountGrows(names, i + 1, j, names[i]);
    CountAppend(names, j, names[i]);
    CountGrows(names, j + 1, |names|, names[i]);
    assert names[..|names|] == names;
  }

  lemma {:induction false} CountGrows(names: seq<string>, i: nat, j: nat, n: string)
    requires i <= j <= |names|
    ensures Count(names[..i], n) <= Count(names[..j], n)
    decreases j
  {
    if i < j {
      CountGrows(names, i, j - 1, n);
      CountAppend(names, j - 1, n);
    }
  }

  lemma RankBelowCount(names: seq<string>, i: nat)
    requires i < |names|
    ensures RankOf(names, i) < Count(names, names[i])
  {
    CountAppend(names, i, names[i]);
    CountGrows(names, i + 1, |names|, names[i]);
    assert names[..|names|] == names;
  }

  /** Every number below the count is the rank of some function. */
  lemma {:induction false} RankAttained(names: seq<string>, upTo: nat, n: string, k: nat) returns (i: nat)
    requires upTo <= |names| && k < Count(names[..upTo], n)
    ensures i < upTo && names[i] == n && RankOf(names, i) == k
    decreases upTo
  {
    CountAppend(names, upTo - 1, n);
    if k < Count(names[..upTo - 1], n) {
      i := RankAttained(names, upTo - 1, n, k);
    } else {
      i := upTo - 1;
    }
  }

  // ---- When the names are pairwise distinct ----

  ghost predicate Distinct(s: seq<string>) { forall i, j :: 0 <= i < j < |s| ==> s[i] != s[j] }

  /** The `i`-th function keeps its name, which the `k`-th overload of the `j`-th one's name gets. */
  ghost predicate TakesNumber(names: seq<string>, i: nat, j: nat, k: nat)
  {
    && i < |names| && j < |names|
    && Count(names, names[i]) == 1
    && k < Count(names, names[j]) && 1 < Count(names, names[j])
    && names[i] == Numbered(names[j], k)
  }

  /** The `i`-th function has the name that the reserved `j`-th one gets. */
  ghost predicate TakesCall(names: seq<string>, i: nat, j: nat)
  {
    && i < |names| && j < |names|
    && Count(names, names[i]) == 1 && Count(names, names[j]) == 1
    && names[j] in RESERVED
    && names[i] == names[j] + "_call"
  }

  /** No function that keeps its name has a name generated for an overload of another. */
  ghost predicate NoNumberClash(names: seq<string>)
  {
    forall i: nat, j: nat, k: nat :: !TakesNumber(names, i, j, k)
  }

  /** No function is named as a reserved one is renamed. */
  ghost predicate NoCallClash(names: seq<string>)
  {
    forall i: nat, j: nat :: !TakesCall(names, i, j)
  }

  lemma CountPositive(names: seq<string>, i: nat)
    requires i < |names|
    ensures Count(names, names[i]) >= 1
  {
    RankBelowCount(names, i);
  }

  lemma KeptIsNotNumbered(names: seq<string>, i: nat, j: nat)
    requires i < |names| && j < |names| && NoNumberClash(names)
    requires Count(names, names[i]) == 1 && Count(names, names[j]) > 1
    ensures Effective(names, i) != Effective(names, j)
  {
    RankBelowCount(names, j);
    assert !TakesNumber(names, i, j, RankOf(names, j));
  }

  lemma EffectiveClash(names: seq<string>, i: nat, j: nat)
    requires i < j < |names| && NoNumberClash(names)
    ensures Effective(names, i) != Effective(names, j)
  {
    CountPositive(names, i);
    CountPositive(names, j);
    if names[i] == names[j] {
      RanksDiffer(names, i, j);
    }
    if Count(names, names[i]) > 1 && Count(names, names[j]) > 1 {
      if Effective(names, i) == Effective(names, j) {
        NumberedInjective(names[i], RankOf(names, i), names[j], RankOf(names, j));
      }
    } else if Count(names, names[i]) > 1 {
      KeptIsNotNumbered(names, j, i);
    } else if Count(names, names[j]) > 1 {
      KeptIsNotNumbered(names, i, j);
    }
  }

  lemma NumberClash(names: seq<string>, i: nat, j: nat, k: nat)
    requires TakesNumber(names, i, j, k)
    ensures !Distinct(EffectiveNames(names)) && !Distinct(MethodNamesOf(names))
  {
    assert names[..|names|] == names;
    var other := RankAttained(names, |names|, names[j], k);
    assert other != i;
    assert Effective(names, other) == Effective(names, i);
    var lo, hi := if i < other then i else other, if i < other then other else i;
    assert EffectiveNames(names)[lo] == EffectiveNames(names)[hi];
    assert MethodNamesOf(names)[lo] == MethodNamesOf(names)[hi];
  }

  /** The call structs of the overloads are named apart exactly when no declared name equals
      another's generated name. */
  lemma CallStructsDistinct(names: seq<string>)
    ensures Distinct(EffectiveNames(names)) <==> NoNumberClash(names)
  {
    if NoNumberClash(names) {
      forall i, j | 0 <= i < j < |names| ensures EffectiveNames(names)[i] != EffectiveNames(names)[j] {
        EffectiveClash(names, i, j);
      }
    } else {
      var i: nat, j: nat, k: nat :| TakesNumber(names, i, j, k);
      NumberClash(names, i, j, k);
    }
  }

  lemma ReservedIsAlone(names: seq<string>, i: nat)
    requires i < |names| && Effective(names, i) in RESERVED
    ensures Count(names, names[i]) == 1 && Effective(names, i) == names[i]
  {
    CountPositive(names, i);
    ReservedEndInLetters(Effective(names, i));
    NumberedEndsInDigit(names[i], RankOf(names, i));
  }

  lemma CallIsAlone(names: seq<string>, i: nat, stem: string)
    requires i < |names| && Effective(names, i) == stem + "_call"
    ensures Count(names, names[i]) == 1 && Effective(names, i) == names[i]
  {
    CountPositive(names, i);
    CallEndsInLetter(stem);
    NumberedEndsInDigit(names[i], RankOf(names, i));
  }

  lemma DropSuffix(a: string, b: string, suffix: string)
    requires a + suffix == b + suffix
    ensures a == b
  {
    assert |a| == |b|;
    assert a == (a + suffix)[..|a|] && b == (b + suffix)[..|b|];
  }

  lemma MethodClash(names: seq<string>, i: nat, j: nat)
    requires i < |names| && j < |names| && Effective(names, i) != Effective(names, j)
    requires MethodName(Effective(names, i)) == MethodName(Effective(names, j)) && Effective(names, i) in RESERVED
    ensures !NoCallClash(names)
  {
    ReservedIsAlone(names, i);
    if Effective(names, j) in RESERVED {
      DropSuffix(Effective(names, i), Effective(names, j), "_call");
      assert false;
    } else {
      CallIsAlone(names, j, names[i]);
      assert TakesCall(names, j, i);
    }
  }

  lemma CallClash(names: seq<string>, i: nat, j: nat)
    requires TakesCall(names, i, j)
    ensures !Distinct(MethodNamesOf(names))
  {
    assert names[i] !in RESERVED by {
      NoReservedCall(names[j]);
    }
    assert i != j by {
      assert |names[i]| == |names[j]| + 5;
    }
    var lo, hi := if i < j then i else j, if i < j then j else i;
    assert MethodNamesOf(names)[lo] == MethodNamesOf(names)[hi];
  }

  lemma NoReservedCall(stem: string)
    ensures stem + "_call" !in RESERVED
  {
    var s := stem + "_call";
    assert s[|s| - 1] == 'l' && s[|s| - 2] == 'l';
  }

  /** The methods of the functions have pairwise distinct names exactly when no declared name
      equals another's generated name, and none equals a reserved name with `_call`. */
  lemma MethodNamesDistinct(names: seq<string>)
    ensures Distinct(MethodNamesOf(names)) <==> NoNumberClash(names) && NoCallClash(names)
  {
    if !NoNumberClash(names) {
      var i: nat, j: nat, k: nat :| TakesNumber(names, i, j, k);
      NumberClash(names, i, j, k);
    } else if !NoCallClash(names) {
      var i: nat, j: nat :| TakesCall(names, i, j);
      CallClash(names, i, j);
    } else {
      forall i, j | 0 <= i < j < |names| ensures MethodNamesOf(names)[i] != MethodNamesOf(names)[j] {
        EffectiveClash(names, i, j);
        if MethodNamesOf(names)[i] == MethodNamesOf(names)[j] {
          if Effective(names, i) in RESERVED {
            MethodClash(names, i, j);
          } else {
            MethodClash(names, j, i);
          }
        }
      }
    }
  }

  // ---- Functions and events together ----

  /** A name a generated filter method is built on: of a lone event its own, of an overloaded one
      any of its numbered names. */
  predicate Generates(names: seq<string>, j: nat, k: nat, base: string)
  {
    && j < |names| && k < Count(names, names[j])
    && base == if Count(names, names[j]) > 1 then Numbered(names[j], k) else names[j]
  }

  /** The `i`-th function keeps its name, which is that of the filter method of the `k`-th
      event called like the `j`-th. */
  ghost predicate TakesFilter(functions: seq<string>, events: seq<string>, i: nat, j: nat, k: nat)
  {
    && i < |functions| && Count(functions, functions[i]) == 1 && functions[i] !in RESERVED
    && exists base :: Generates(events, j, k, base) && functions[i] == FilterName(base)
  }

  ghost predicate NoFilterClash(functions: seq<string>, events: seq<string>)
  {
    forall i: nat, j: nat, k: nat :: !TakesFilter(functions, events, i, j, k)
  }

  /** Exactly the effective names are generated. */
  lemma GeneratedAreEffective(names: seq<string>, j: nat, k: nat, base: string) returns (i: nat)
    requires Generates(names, j, k, base)
    ensures i < |names| && Effective(names, i) == base
  {
    i := j;
    if Count(names, names[j]) > 1 {
      assert names[..|names|] == names;
      i := RankAttained(names, |names|, names[j], k);
    }
  }

  lemma EffectiveIsGenerated(names: seq<string>, j: nat)
    requires j < |names|
    ensures Generates(names, j, RankOf(names, j), Effective(names, j))
  {
    RankBelowCount(names, j);
  }

  lemma FilterEnds(base: string)
    ensures var s := FilterName(base); EndsInLetter(s) && s[|s| - 1] == 'r'
  {
  }

  lemma CallEnds(stem: string)
    ensures var s := stem + "_call"; s[|s| - 1] == 'l'
  {
  }

  /** A method of a function named as a filter method is one that kept its declared name. */
  lemma MethodIsFilter(functions: seq<string>, events: seq<string>, i: nat, j: nat)
    requires i < |functions| && j < |events|
    requires MethodName(Effective(functions, i)) == FilterName(Effective(events, j))
    ensures TakesFilter(functions, events, i, j, RankOf(events, j))
  {
    FilterEnds(Effective(events, j));
    CallEnds(Effective(functions, i));
    assert Effective(functions, i) !in RESERVED;
    CountPositive(functions, i);
    NumberedEndsInDigit(functions[i], RankOf(functions, i));
    EffectiveIsGenerated(events, j);
  }

  lemma FilterIsMethod(functions: seq<string>, events: seq<string>, i: nat, j: nat, k: nat) returns (e: nat)
    requires TakesFilter(functions, events, i, j, k)
    ensures i < |functions| && e < |events|
    ensures MethodName(Effective(functions, i)) == FilterName(Effective(events, e))
  {
    var base :| Generates(events, j, k, base) && functions[i] == FilterName(base);
    e := GeneratedAreEffective(events, j, k, base);
  }

  lemma FiltersDistinct(events: seq<string>)
    ensures Distinct(FilterNamesOf(events)) <==> NoNumberClash(events)
  {
    CallStructsDistinct(events);
    var bases, filters := EffectiveNames(events), FilterNamesOf(events);
    forall i, j | 0 <= i < j < |events| ensures bases[i] == bases[j] <==> filters[i] == filters[j] {
      if filters[i] == filters[j] {
        DropSuffix(bases[i], bases[j], "_filter");
      }
    }
  }

  ghost predicate Apart(a: seq<string>, b: set<string>) { forall i :: 0 <= i < |a| ==> a[i] !in b }

  lemma MethodsAreNotOwn(functions: seq<string>, deployable: bool)
    ensures Apart(MethodNamesOf(functions), OwnMethods(deployable))
  {
    assert OwnMethods(deployable) <= RESERVED;
    forall i | 0 <= i < |functions| ensures MethodName(Effective(functions, i)) !in RESERVED {
      NoReservedCall(Effective(functions, i));
    }
  }

  /** Only the filter of a lone event called `event` is a method every handle has. */
  lemma FiltersAreNotOwn(events: seq<string>, deployable: bool)
    ensures Apart(FilterNamesOf(events), OwnMethods(deployable)) <==> Count(events, "event") != 1
  {
    if Count(events, "event") == 1 {
      assert events[..|events|] == events;
      var j := RankAttained(events, |events|, "event", 0);
      EventFilterIsOwn(deployable);
      assert FilterNamesOf(events)[j] == FilterName("event");
    } else {
      forall j | 0 <= j < |events| ensures FilterNamesOf(events)[j] !in OwnMethods(deployable) {
        if FilterNamesOf(events)[j] in OwnMethods(deployable) {
          OwnFilterIsLone(events, j, deployable);
        }
      }
    }
  }

  lemma EventFilterIsOwn(deployable: bool)
    ensures FilterName("event") in OwnMethods(deployable)
  {
    assert FilterName("event") == "event_filter";
  }

  lemma OwnFilterIsLone(events: seq<string>, j: nat, deployable: bool)
    requires j < |events| && FilterName(Effective(events, j)) in OwnMethods(deployable)
    ensures events[j] == "event" && Count(events, "event") == 1
  {
    OwnFilter(Effective(events, j), deployable);
    CountPositive(events, j);
    NumberedEndsInDigit(events[j], RankOf(events, j));
  }

  lemma OwnFilter(base: string, deployable: bool)
    requires FilterName(base) in OwnMethods(deployable)
    ensures base == "event"
  {
    var s := FilterName(base);
    assert s[|s| - 7..] == "_filter";
    assert s == "event_filter" by {
      assert s[|s| - 1] == 'r' && s[|s| - 2] == 'e' && s[|s| - 3] == 't';
    }
    assert "event_filter" == "event" + "_filter";
    DropSuffix(base, "event", "_filter");
  }

  /** No two inherent methods of a handle share a name - those of the functions, those of the
      events and those every handle has - exactly when none of these declared names meet: a
      function's or an event's with a number generated for its like, a function's with a
      reserved one's `_call`, a function's with a filter method, and no lone event is `event`. */
  lemma HandleMethodsDistinct(functions: seq<string>, events: seq<string>, deployable: bool)
    ensures
      && Distinct(MethodNamesOf(functions) + FilterNamesOf(events))
      && Apart(MethodNamesOf(functions) + FilterNamesOf(events), OwnMethods(deployable))
      <==>
      && NoNumberClash(functions) && NoCallClash(functions)
      && NoNumberClash(events)
      && NoFilterClash(functions, events)
      && Count(events, "event") != 1
  {
    var methods, filters := MethodNamesOf(functions), FilterNamesOf(events);
    MethodNamesDistinct(functions);
    FiltersDistinct(events);
    DistinctParts(methods, filters);
    MethodsMeetFilters(functions, events);
    MethodsAreNotOwn(functions, deployable);
    FiltersAreNotOwn(events, deployable);
    ApartParts(methods, filters, OwnMethods(deployable));
  }

  ghost predicate NeverMeet(a: seq<string>, b: seq<string>)
  {
    forall i, j :: 0 <= i < |a| && 0 <= j < |b| ==> a[i] != b[j]
  }

  lemma DistinctParts(a: seq<string>, b: seq<string>)
    ensures Distinct(a + b) <==> Distinct(a) && Distinct(b) && NeverMeet(a, b)
  {
    var s := a + b;
    if Distinct(s) {
      forall i, j | 0 <= i < j < |a| ensures a[i] != a[j] {
        assert s[i] == a[i] && s[j] == a[j];
      }
      forall i, j | 0 <= i < j < |b| ensures b[i] != b[j] {
        assert s[|a| + i] == b[i] && s[|a| + j] == b[j];
      }
      forall i, j | 0 <= i < |a| && 0 <= j < |b| ensures a[i] != b[j] {
        assert s[i] == a[i] && s[|a| + j] == b[j];
      }
    }
  }

  lemma ApartParts(a: seq<string>, b: seq<string>, own: set<string>)
    ensures Apart(a + b, own) <==> Apart(a, own) && Apart(b, own)
  {
    assert forall i :: 0 <= i < |a| ==> (a + b)[i] == a[i];
    assert forall i :: 0 <= i < |b| ==> (a + b)[|a| + i] == b[i];
  }

  lemma MethodsMeetFilters(functions: seq<string>, events: seq<string>)
    ensures NeverMeet(MethodNamesOf(functions), FilterNamesOf(events)) <==> NoFilterClash(functions, events)
  {
    var methods, filters := MethodNamesOf(functions), FilterNamesOf(events);
    if i: nat, j: nat, k: nat :| TakesFilter(functions, events, i, j, k) {
      var e := FilterIsMethod(functions, events, i, j, k);
      assert methods[i] == filters[e];
    } else {
      forall i, j | 0 <= i < |methods| && 0 <= j < |filters| ensures methods[i] != filters[j] {
        if methods[i] == filters[j] {
          MethodIsFilter(functions, events, i, j);
        }
      }
    }
  }

  /** A contract for which they clash: `f` overloaded beside a function called `f_0`. */
  lemma NumberClashExample()
    ensures !Distinct(MethodNamesOf(["f", "f", "f_0"]))
  {
    var names := ["f", "f", "f_0"];
    assert Count(names, "f_0") == 1 && Count(names, "f") == 2;
    assert Decimal(0) == "0" && names[2] == Numbered(names[0], 0);
    NumberClash(names, 2, 0, 0);
  }

  /** Another: a function called like the filter method of an event. */
  lemma FilterClashExample()
    ensures !Distinct(MethodNamesOf(["Transfer_filter"]) + FilterNamesOf(["Transfer"]))
  {
    var functions, events := ["Transfer_filter"], ["Transfer"];
    assert Count(functions, "Transfer_filter") == 1 && Count(events, "Transfer") == 1;
    assert FilterName("Transfer") == "Transfer_filter";
    NotReserved();
    assert Generates(events, 0, 0, "Transfer");
    assert TakesFilter(functions, events, 0, 0, 0);
    MethodsMeetFilters(functions, events);
    DistinctParts(MethodNamesOf(functions), FilterNamesOf(events));
  }

  lemma NotReserved()
    ensures "Transfer_filter" !in RESERVED
  {
    assert "Transfer_filter"[0] == 'T';
  }
}
