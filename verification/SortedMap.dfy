/** `BTreeMap<String, Vec<T>>` as the ABI types use it: overloads grouped under a name, the
    names in order. */
module SortedMap {
  import opened Wrappers

  // ---- The order of the keys ----

  predicate Less(a: string, b: string)
  {
    if b == [] then false
    else if a == [] then true
    else a[0] < b[0] || (a[0] == b[0] && Less(a[1..], b[1..]))
  }

  lemma {:induction false} LessIsIrreflexive(a: string)
    ensures !Less(a, a)
  {
    if a != [] { LessIsIrreflexive(a[1..]); }
  }

  lemma {:induction false} LessIsTransitive(a: string, b: string, c: string)
    requires Less(a, b) && Less(b, c)
    ensures Less(a, c)
  {
    if a != [] && a[0] == b[0] && b[0] == c[0] {
      LessIsTransitive(a[1..], b[1..], c[1..]);
    }
  }

  lemma {:induction false} LessIsTotal(a: string, b: string)
    ensures Less(a, b) || a == b || Less(b, a)
  {
    if a != [] && b != [] && a[0] == b[0] {
      LessIsTotal(a[1..], b[1..]);
      if a[1..] == b[1..] {
        assert a == [a[0]] + a[1..] && b == [b[0]] + b[1..];
      }
    }
  }

  ghost predicate FirstDifference(a: string, b: string, k: nat)
  {
    && k <= |a| && k < |b| && a[..k] == b[..k]
    && (k == |a| || a[k] < b[k])
  }

  /** The order is lexicographic: at the first difference the smaller character, or the end. */
  lemma {:induction false} LessIsLexicographic(a: string, b: string)
    ensures Less(a, b) <==> exists k: nat :: FirstDifference(a, b, k)
  {
    if b == [] {
    } else if a == [] {
      assert FirstDifference(a, b, 0);
    } else {
      LessIsLexicographic(a[1..], b[1..]);
      if a[0] < b[0] {
        assert FirstDifference(a, b, 0);
      }
      if k: nat :| FirstDifference(a[1..], b[1..], k) {
        if a[0] == b[0] {
          assert a[..k + 1] == [a[0]] + a[1..][..k] && b[..k + 1] == [b[0]] + b[1..][..k];
          assert FirstDifference(a, b, k + 1);
        }
      }
      if k: nat :| FirstDifference(a, b, k) {
        DifferenceAfterHead(a, b, k);
      }
    }
  }

  lemma DifferenceAfterHead(a: string, b: string, k: nat)
    requires a != [] && b != [] && FirstDifference(a, b, k)
    ensures a[0] < b[0] || (a[0] == b[0] && exists j: nat :: FirstDifference(a[1..], b[1..], j))
  {
    if k > 0 {
      assert a[0] == a[..k][0] && b[0] == b[..k][0];
      assert a[1..][..k - 1] == a[..k][1..] && b[1..][..k - 1] == b[..k][1..];
      assert FirstDifference(a[1..], b[1..], k - 1);
    }
  }

  // ---- Groups ----

  datatype Group<T> = Group(name: string, items: seq<T>)

  type Groups<T> = seq<Group<T>>

  ghost predicate Sorted<T>(m: Groups<T>)
  {
    forall i, j :: 0 <= i < j < |m| ==> Less(m[i].name, m[j].name)
  }

  /** Every item sits under its own name. */
  ghost predicate NamesAgree<T>(m: Groups<T>, nameOf: T -> string)
  {
    forall i, k :: 0 <= i < |m| && 0 <= k < |m[i].items| ==> nameOf(m[i].items[k]) == m[i].name
  }

  ghost predicate WellFormed<T>(m: Groups<T>, nameOf: T -> string) { Sorted(m) && NamesAgree(m, nameOf) }

  /** `entry(name).or_default().push(item)`. */
  function Insert<T>(m: Groups<T>, name: string, item: T): Groups<T>
  {
    if m == [] then [Group(name, [item])]
    else if m[0].name == name then [Group(name, m[0].items + [item])] + m[1..]
    else if Less(name, m[0].name) then [Group(name, [item])] + m
    else [m[0]] + Insert(m[1..], name, item)
  }

  /** All items in iteration order: by name, overloads in the order they were pushed. */
  function Flatten<T>(m: Groups<T>): seq<T>
  {
    if m == [] then [] else m[0].items + Flatten(m[1..])
  }

  function Lookup<T>(m: Groups<T>, name: string): Option<seq<T>>
  {
    if m == [] then None
    else if m[0].name == name then Some(m[0].items)
    else Lookup(m[1..], name)
  }

  function CollectInto<T>(m: Groups<T>, items: seq<T>, nameOf: T -> string): Groups<T>
    decreases |items|
  {
    if items == [] then m else CollectInto(Insert(m, nameOf(items[0]), items[0]), items[1..], nameOf)
  }

  function NonEmpty<T>(m: Groups<T>): Groups<T>
  {
    if m == [] then [] else (if m[0].items == [] then [] else [m[0]]) + NonEmpty(m[1..])
  }

  lemma {:induction false} CollectConcat<T>(m: Groups<T>, a: seq<T>, b: seq<T>, nameOf: T -> string)
    ensures CollectInto(m, a + b, nameOf) == CollectInto(CollectInto(m, a, nameOf), b, nameOf)
    decreases |a|
  {
    if a == [] {
      assert a + b == b;
    } else {
      assert (a + b)[1..] == a[1..] + b;
      CollectConcat(Insert(m, nameOf(a[0]), a[0]), a[1..], b, nameOf);
    }
  }

  // ---- Collecting what was flattened ----

  ghost predicate AllBelow<T>(m: Groups<T>, name: string) { forall i :: 0 <= i < |m| ==> Less(m[i].name, name) }

  lemma {:induction false} InsertAtEnd<T>(m: Groups<T>, name: string, old_: seq<T>, item: T)
    requires AllBelow(m, name)
    ensures Insert(m, name, item) == m + [Group(name, [item])]
    ensures Insert(m + [Group(name, old_)], name, item) == m + [Group(name, old_ + [item])]
  {
    var full := m + [Group(name, old_)];
    if m == [] {
      assert full[1..] == [];
    } else {
      LessIsIrreflexive(name);
      if Less(name, m[0].name) {
        LessIsTransitive(name, m[0].name, name);
      }
      InsertAtEnd(m[1..], name, old_, item);
      assert full[0] == m[0] && full[1..] == m[1..] + [Group(name, old_)];
    }
  }

  lemma {:induction false} CollectOneGroup<T>(m: Groups<T>, name: string, old_: seq<T>, items: seq<T>,
      nameOf: T -> string)
    requires AllBelow(m, name) && old_ != [] && forall k :: 0 <= k < |items| ==> nameOf(items[k]) == name
    ensures CollectInto(m + [Group(name, old_)], items, nameOf) == m + [Group(name, old_ + items)]
    decreases |items|
  {
    if items == [] {
      assert old_ + items == old_;
    } else {
      InsertAtEnd(m, name, old_, items[0]);
      CollectOneGroup(m, name, old_ + [items[0]], items[1..], nameOf);
      assert (old_ + [items[0]]) + items[1..] == old_ + items;
    }
  }

  /** Every group of `rest` comes after every group of `done`. */
  ghost predicate Follow<T>(done: Groups<T>, rest: Groups<T>)
  {
    forall i :: 0 <= i < |rest| ==> AllBelow(done, rest[i].name)
  }

  lemma TailFacts<T>(m: Groups<T>, nameOf: T -> string)
    requires m != [] && WellFormed(m, nameOf)
    ensures WellFormed(m[1..], nameOf) && Follow([m[0]], m[1..])
  {
    assert forall i :: 0 <= i < |m[1..]| ==> m[1..][i] == m[i + 1];
  }

  lemma FollowTail<T>(done: Groups<T>, rest: Groups<T>, nameOf: T -> string)
    requires rest != [] && WellFormed(rest, nameOf) && Follow(done, rest)
    ensures WellFormed(rest[1..], nameOf) && Follow(done, rest[1..]) && Follow(done + [rest[0]], rest[1..])
    ensures AllBelow(done, rest[0].name)
    ensures forall k :: 0 <= k < |rest[0].items| ==> nameOf(rest[0].items[k]) == rest[0].name
  {
    TailFacts(rest, nameOf);
    var tail := rest[1..];
    forall i | 0 <= i < |tail| ensures AllBelow(done, tail[i].name) && AllBelow(done + [rest[0]], tail[i].name) {
      assert tail[i] == rest[i + 1];
    }
  }

  lemma {:induction false} CollectAfter<T>(done: Groups<T>, rest: Groups<T>, nameOf: T -> string)
    requires WellFormed(rest, nameOf) && Follow(done, rest)
    ensures CollectInto(done, Flatten(rest), nameOf) == done + NonEmpty(rest)
    decreases |rest|
  {
    if rest == [] {
      assert done + [] == done;
    } else {
      var g, tail := rest[0], rest[1..];
      FollowTail(done, rest, nameOf);
      CollectConcat(done, g.items, Flatten(tail), nameOf);
      if g.items == [] {
        CollectAfter(done, tail, nameOf);
      } else {
        CollectWholeGroup(done, g, nameOf);
        CollectAfter(done + [g], tail, nameOf);
        ConcatAssociative(done, [g], NonEmpty(tail));
      }
      ConcatAssociative(done, [], NonEmpty(tail));
    }
  }

  lemma CollectWholeGroup<T>(done: Groups<T>, g: Group<T>, nameOf: T -> string)
    requires AllBelow(done, g.name) && g.items != [] && forall k :: 0 <= k < |g.items| ==> nameOf(g.items[k]) == g.name
    ensures CollectInto(done, g.items, nameOf) == done + [g]
  {
    InsertAtEnd(done, g.name, [], g.items[0]);
    CollectOneGroup(done, g.name, [g.items[0]], g.items[1..], nameOf);
    assert [g.items[0]] + g.items[1..] == g.items;
  }

  /** Collecting the items of a map gives the map back, without its empty groups. */
  lemma CollectUndoesFlatten<T>(m: Groups<T>, nameOf: T -> string)
    requires WellFormed(m, nameOf)
    ensures CollectInto([], Flatten(m), nameOf) == NonEmpty(m)
  {
    assert [] + NonEmpty(m) == NonEmpty(m);
    CollectAfter([], m, nameOf);
  }

  // ---- Flattening what was collected: a stable sort by name ----

  ghost predicate Full<T>(m: Groups<T>) { forall i :: 0 <= i < |m| ==> m[i].items != [] }

  ghost predicate AllAbove<T>(name: string, m: Groups<T>) { forall i :: 0 <= i < |m| ==> Less(name, m[i].name) }

  lemma {:induction false} InsertAbove<T>(low: string, m: Groups<T>, name: string, item: T)
    requires Less(low, name) && AllAbove(low, m)
    ensures AllAbove(low, Insert(m, name, item))
  {
    if m != [] {
      InsertAbove(low, m[1..], name, item);
    }
  }

  lemma SortedCons<T>(g: Group<T>, m: Groups<T>)
    requires AllAbove(g.name, m) && Sorted(m)
    ensures Sorted([g] + m)
  {
  }

  lemma SortedUncons<T>(m: Groups<T>)
    requires m != [] && Sorted(m)
    ensures AllAbove(m[0].name, m[1..]) && Sorted(m[1..])
  {
  }

  lemma {:induction false} InsertSorted<T>(m: Groups<T>, name: string, item: T)
    requires Sorted(m)
    ensures Sorted(Insert(m, name, item))
  {
    if m != [] {
      SortedUncons(m);
      if m[0].name == name {
        SortedCons(Group(name, m[0].items + [item]), m[1..]);
      } else if Less(name, m[0].name) {
        forall j | 0 <= j < |m| ensures Less(name, m[j].name) {
          if j > 0 { LessIsTransitive(name, m[0].name, m[j].name); }
        }
        SortedCons(Group(name, [item]), m);
      } else {
        LessIsTotal(name, m[0].name);
        InsertSorted(m[1..], name, item);
        InsertAbove(m[0].name, m[1..], name, item);
        SortedCons(m[0], Insert(m[1..], name, item));
      }
    }
  }

  lemma {:induction false} InsertAgrees<T>(m: Groups<T>, name: string, item: T, nameOf: T -> string)
    requires NamesAgree(m, nameOf) && nameOf(item) == name
    ensures NamesAgree(Insert(m, name, item), nameOf)
    ensures Full(m) ==> Full(Insert(m, name, item))
  {
    if m != [] && m[0].name != name && !Less(name, m[0].name) {
      assert forall i :: 0 <= i < |m[1..]| ==> m[1..][i] == m[i + 1];
      InsertAgrees(m[1..], name, item, nameOf);
      var r := Insert(m, name, item);
      assert r == [m[0]] + Insert(m[1..], name, item);
      assert forall i :: 0 < i < |r| ==> r[i] == Insert(m[1..], name, item)[i - 1];
    }
  }

  lemma ConcatAssociative<T>(a: seq<T>, b: seq<T>, c: seq<T>)
    ensures (a + b) + c == a + (b + c)
    ensures a + [] == a && [] + a == a
  {
  }

  /** The items of one name, in order. */
  function Named<T>(items: seq<T>, name: string, nameOf: T -> string): seq<T>
  {
    if items == [] then [] else (if nameOf(items[0]) == name then [items[0]] else []) + Named(items[1..], name, nameOf)
  }

  lemma {:induction false} NamedConcat<T>(a: seq<T>, b: seq<T>, name: string, nameOf: T -> string)
    ensures Named(a + b, name, nameOf) == Named(a, name, nameOf) + Named(b, name, nameOf)
  {
    if a == [] {
      assert a + b == b;
    } else {
      assert (a + b)[1..] == a[1..] + b && (a + b)[0] == a[0];
      NamedConcat(a[1..], b, name, nameOf);
      var head := if nameOf(a[0]) == name then [a[0]] else [];
      ConcatAssociative(head, Named(a[1..], name, nameOf), Named(b, name, nameOf));
    }
  }

  lemma {:induction false} NamedAll<T>(items: seq<T>, group: string, name: string, nameOf: T -> string)
    requires forall k :: 0 <= k < |items| ==> nameOf(items[k]) == group
    ensures Named(items, name, nameOf) == if group == name then items else []
  {
    if items != [] {
      assert items == [items[0]] + items[1..];
      NamedAll(items[1..], group, name, nameOf);
    }
  }

  /** A group put in front contributes its items, or nothing, to a name. */
  lemma NamedFront<T>(g: Group<T>, tail: Groups<T>, name: string, nameOf: T -> string)
    requires forall k :: 0 <= k < |g.items| ==> nameOf(g.items[k]) == g.name
    ensures Named(Flatten([g] + tail), name, nameOf)
         == (if g.name == name then g.items else []) + Named(Flatten(tail), name, nameOf)
  {
    assert ([g] + tail)[1..] == tail;
    NamedConcat(g.items, Flatten(tail), name, nameOf);
    NamedAll(g.items, g.name, name, nameOf);
  }

  lemma PushNamed<T>(g: Group<T>, tail: Groups<T>, item: T, other: string, nameOf: T -> string)
    requires WellFormed([g] + tail, nameOf) && nameOf(item) == g.name
    ensures Named(Flatten([Group(g.name, g.items + [item])] + tail), other, nameOf)
         == Named(Flatten([g] + tail), other, nameOf) + (if other == g.name then [item] else [])
  {
    TailFacts([g] + tail, nameOf);
    SortedUncons([g] + tail);
    assert ([g] + tail)[1..] == tail && ([g] + tail)[0] == g;
    NamedAbove(g.name, tail, nameOf);
    NamedFront(g, tail, other, nameOf);
    NamedFront(Group(g.name, g.items + [item]), tail, other, nameOf);
  }

  lemma NewGroupNamed<T>(m: Groups<T>, name: string, item: T, other: string, nameOf: T -> string)
    requires WellFormed(m, nameOf) && AllAbove(name, m) && nameOf(item) == name
    ensures Named(Flatten([Group(name, [item])] + m), other, nameOf)
         == Named(Flatten(m), other, nameOf) + (if other == name then [item] else [])
  {
    NamedAbove(name, m, nameOf);
    NamedFront(Group(name, [item]), m, other, nameOf);
  }

  /** Inserting appends to the items of the name and touches no other. */
  lemma {:induction false} InsertNamed<T>(m: Groups<T>, name: string, item: T, other: string, nameOf: T -> string)
    requires WellFormed(m, nameOf) && nameOf(item) == name
    ensures Named(Flatten(Insert(m, name, item)), other, nameOf)
         == Named(Flatten(m), other, nameOf) + (if other == name then [item] else [])
  {
    if m == [] {
      NewGroupNamed(m, name, item, other, nameOf);
      assert [Group(name, [item])] + m == [Group(name, [item])];
    } else {
      var g, tail := m[0], m[1..];
      assert m == [g] + tail;
      if g.name == name {
        PushNamed(g, tail, item, other, nameOf);
      } else if Less(name, g.name) {
        LessThanAll(m, name);
        NewGroupNamed(m, name, item, other, nameOf);
      } else {
        TailFacts(m, nameOf);
        InsertNamed(tail, name, item, other, nameOf);
        NamedFront(g, tail, other, nameOf);
        NamedFront(g, Insert(tail, name, item), other, nameOf);
        var head, last := if g.name == other then g.items else [], if other == name then [item] else [];
        ConcatAssociative(head, Named(Flatten(tail), other, nameOf), last);
      }
    }
  }

  lemma LessThanAll<T>(m: Groups<T>, name: string)
    requires m != [] && Sorted(m) && Less(name, m[0].name)
    ensures AllAbove(name, m)
  {
    forall j | 0 <= j < |m| ensures Less(name, m[j].name) {
      if j > 0 { LessIsTransitive(name, m[0].name, m[j].name); }
    }
  }

  lemma {:induction false} NamedAbove<T>(name: string, m: Groups<T>, nameOf: T -> string)
    requires AllAbove(name, m) && WellFormed(m, nameOf)
    ensures Named(Flatten(m), name, nameOf) == []
  {
    if m != [] {
      TailFacts(m, nameOf);
      SortedUncons(m);
      LessIsIrreflexive(name);
      NamedConcat(m[0].items, Flatten(m[1..]), name, nameOf);
      NamedAll(m[0].items, m[0].name, name, nameOf);
      NamedAbove(name, m[1..], nameOf);
    }
  }

  lemma {:induction false} InsertMultiset<T>(m: Groups<T>, name: string, item: T)
    ensures multiset(Flatten(Insert(m, name, item))) == multiset(Flatten(m)) + multiset{item}
  {
    if m == [] {
      assert Flatten(Insert(m, name, item)) == [item];
    } else {
      var g, tail := m[0], m[1..];
      if g.name == name {
        assert Flatten([Group(name, g.items + [item])] + tail) == (g.items + [item]) + Flatten(tail);
      } else if Less(name, g.name) {
        assert Flatten([Group(name, [item])] + m) == [item] + Flatten(m);
      } else {
        InsertMultiset(tail, name, item);
        assert Flatten([g] + Insert(tail, name, item)) == g.items + Flatten(Insert(tail, name, item));
      }
    }
  }

  lemma InsertKeeps<T>(m: Groups<T>, item: T, nameOf: T -> string)
    requires WellFormed(m, nameOf) && Full(m)
    ensures WellFormed(Insert(m, nameOf(item), item), nameOf) && Full(Insert(m, nameOf(item), item))
  {
    InsertSorted(m, nameOf(item), item);
    InsertAgrees(m, nameOf(item), item, nameOf);
  }

  lemma {:induction false} CollectKeeps<T>(m: Groups<T>, items: seq<T>, nameOf: T -> string)
    requires WellFormed(m, nameOf) && Full(m)
    ensures WellFormed(CollectInto(m, items, nameOf), nameOf) && Full(CollectInto(m, items, nameOf))
    decreases |items|
  {
    if items != [] {
      InsertKeeps(m, items[0], nameOf);
      CollectKeeps(Insert(m, nameOf(items[0]), items[0]), items[1..], nameOf);
    }
  }

  lemma {:induction false} CollectMultiset<T>(m: Groups<T>, items: seq<T>, nameOf: T -> string)
    ensures multiset(Flatten(CollectInto(m, items, nameOf))) == multiset(Flatten(m)) + multiset(items)
    decreases |items|
  {
    if items != [] {
      var inserted := Insert(m, nameOf(items[0]), items[0]);
      assert multiset(items) == multiset{items[0]} + multiset(items[1..]) by {
        assert items == [items[0]] + items[1..];
      }
      InsertMultiset(m, nameOf(items[0]), items[0]);
      CollectMultiset(inserted, items[1..], nameOf);
    }
  }

  lemma {:induction false} CollectNamed<T>(m: Groups<T>, items: seq<T>, name: string, nameOf: T -> string)
    requires WellFormed(m, nameOf) && Full(m)
    ensures Named(Flatten(CollectInto(m, items, nameOf)), name, nameOf)
         == Named(Flatten(m), name, nameOf) + Named(items, name, nameOf)
    decreases |items|
  {
    if items != [] {
      InsertKeeps(m, items[0], nameOf);
      InsertNamed(m, nameOf(items[0]), items[0], name, nameOf);
      CollectNamed(Insert(m, nameOf(items[0]), items[0]), items[1..], name, nameOf);
      var head := if nameOf(items[0]) == name then [items[0]] else [];
      ConcatAssociative(Named(Flatten(m), name, nameOf), head, Named(items[1..], name, nameOf));
    }
  }

  function Stable<T>(items: seq<T>, nameOf: T -> string): seq<T> { Flatten(CollectInto([], items, nameOf)) }

  ghost predicate InNameOrder<T>(items: seq<T>, nameOf: T -> string)
  {
    forall i, j :: 0 <= i < j < |items| ==> !Less(nameOf(items[j]), nameOf(items[i]))
  }

  lemma {:induction false} FlattenInOrder<T>(m: Groups<T>, nameOf: T -> string)
    requires WellFormed(m, nameOf)
    ensures InNameOrder(Flatten(m), nameOf)
    ensures forall low, i :: AllAbove(low, m) && 0 <= i < |Flatten(m)| ==> Less(low, nameOf(Flatten(m)[i]))
  {
    if m != [] {
      var g, tail := m[0], m[1..];
      TailFacts(m, nameOf);
      SortedUncons(m);
      FlattenInOrder(tail, nameOf);
      var items := Flatten(m);
      assert forall i :: 0 <= i < |g.items| ==> items[i] == g.items[i];
      assert forall i :: |g.items| <= i < |items| ==> items[i] == Flatten(tail)[i - |g.items|];
      LessIsIrreflexive(g.name);
      forall i, j | 0 <= i < j < |items| ensures !Less(nameOf(items[j]), nameOf(items[i])) {
        if i < |g.items| <= j {
          if Less(nameOf(items[j]), g.name) {
            LessIsTransitive(g.name, nameOf(items[j]), g.name);
          }
        }
      }
      forall low | AllAbove(low, m) ensures AllAbove(low, tail) && Less(low, g.name) {
        assert m[0] == g;
        assert forall i :: 0 <= i < |tail| ==> tail[i] == m[i + 1];
      }
    }
  }

  /** Collecting and flattening is a stable sort by name: the same items, in name order, and
      under each name in their original order. */
  lemma StableIsAStableSort<T>(items: seq<T>, nameOf: T -> string)
    ensures multiset(Stable(items, nameOf)) == multiset(items)
    ensures InNameOrder(Stable(items, nameOf), nameOf)
    ensures forall name :: Named(Stable(items, nameOf), name, nameOf) == Named(items, name, nameOf)
  {
    CollectKeeps([], items, nameOf);
    CollectMultiset([], items, nameOf);
    FlattenInOrder(CollectInto([], items, nameOf), nameOf);
    forall name ensures Named(Stable(items, nameOf), name, nameOf) == Named(items, name, nameOf) {
      CollectNamed([], items, name, nameOf);
      assert Named<T>([], name, nameOf) + Named(items, name, nameOf) == Named(items, name, nameOf);
    }
  }

  lemma {:induction false} FullIsNonEmpty<T>(m: Groups<T>)
    requires Full(m)
    ensures NonEmpty(m) == m
  {
    if m != [] {
      assert forall i :: 0 <= i < |m[1..]| ==> m[1..][i] == m[i + 1];
      FullIsNonEmpty(m[1..]);
      assert [m[0]] + m[1..] == m;
    }
  }

  // ---- Mapping ----

  function MapSeq<T, U>(f: T -> U, items: seq<T>): (r: seq<U>)
    ensures |r| == |items| && forall i :: 0 <= i < |r| ==> r[i] == f(items[i])
  {
    if items == [] then [] else [f(items[0])] + MapSeq(f, items[1..])
  }

  lemma {:induction false} MapSeqConcat<T, U>(f: T -> U, a: seq<T>, b: seq<T>)
    ensures MapSeq(f, a + b) == MapSeq(f, a) + MapSeq(f, b)
  {
  }

  function MapGroups<T, U>(f: T -> U, m: Groups<T>): (r: Groups<U>)
    ensures |r| == |m| && forall i :: 0 <= i < |r| ==> r[i] == Group(m[i].name, MapSeq(f, m[i].items))
  {
    if m == [] then [] else [Group(m[0].name, MapSeq(f, m[0].items))] + MapGroups(f, m[1..])
  }

  lemma MapGroupsCons<T, U>(f: T -> U, g: Group<T>, m: Groups<T>)
    ensures MapGroups(f, [g] + m) == [Group(g.name, MapSeq(f, g.items))] + MapGroups(f, m)
  {
    assert ([g] + m)[1..] == m;
  }

  lemma {:induction false} FlattenMap<T, U>(f: T -> U, m: Groups<T>)
    ensures Flatten(MapGroups(f, m)) == MapSeq(f, Flatten(m))
  {
    if m != [] {
      FlattenMap(f, m[1..]);
      MapSeqConcat(f, m[0].items, Flatten(m[1..]));
    }
  }

  lemma {:induction false} InsertMap<T, U>(f: T -> U, m: Groups<T>, name: string, item: T)
    ensures Insert(MapGroups(f, m), name, f(item)) == MapGroups(f, Insert(m, name, item))
  {
    MapGroupsCons(f, Group(name, [item]), m);
    assert MapSeq(f, [item]) == [f(item)];
    if m == [] {
      assert [Group(name, [item])] + m == [Group(name, [item])];
    } else {
      assert m == [m[0]] + m[1..];
      MapGroupsCons(f, m[0], m[1..]);
      if m[0].name == name {
        MapSeqConcat(f, m[0].items, [item]);
        assert MapGroups(f, m)[1..] == MapGroups(f, m[1..]);
        MapGroupsCons(f, Group(name, m[0].items + [item]), m[1..]);
      } else if Less(name, m[0].name) {
        assert Insert(m, name, item) == [Group(name, [item])] + m;
      } else {
        InsertMap(f, m[1..], name, item);
        assert MapGroups(f, m)[1..] == MapGroups(f, m[1..]);
        MapGroupsCons(f, m[0], Insert(m[1..], name, item));
      }
    }
  }

  lemma {:induction false} CollectMap<T, U>(f: T -> U, m: Groups<T>, items: seq<T>, nameT: T -> string,
      nameU: U -> string)
    requires forall k :: 0 <= k < |items| ==> nameU(f(items[k])) == nameT(items[k])
    ensures CollectInto(MapGroups(f, m), MapSeq(f, items), nameU) == MapGroups(f, CollectInto(m, items, nameT))
    decreases |items|
  {
    if items != [] {
      InsertMap(f, m, nameT(items[0]), items[0]);
      assert MapSeq(f, items)[1..] == MapSeq(f, items[1..]);
      CollectMap(f, Insert(m, nameT(items[0]), items[0]), items[1..], nameT, nameU);
    }
  }

  /** Sorting commutes with any map that keeps names. */
  lemma StableMap<T, U>(f: T -> U, items: seq<T>, nameT: T -> string, nameU: U -> string)
    requires forall k :: 0 <= k < |items| ==> nameU(f(items[k])) == nameT(items[k])
    ensures Stable(MapSeq(f, items), nameU) == MapSeq(f, Stable(items, nameT))
  {
    CollectMap(f, [], items, nameT, nameU);
    FlattenMap(f, CollectInto([], items, nameT));
  }

  lemma {:induction false} NonEmptyMap<T, U>(f: T -> U, m: Groups<T>)
    ensures NonEmpty(MapGroups(f, m)) == MapGroups(f, NonEmpty(m))
  {
    if m != [] {
      NonEmptyMap(f, m[1..]);
      assert MapGroups(f, m)[1..] == MapGroups(f, m[1..]);
      assert m[0].items == [] <==> MapSeq(f, m[0].items) == [];
      if m[0].items != [] {
        assert NonEmpty(m) == [m[0]] + NonEmpty(m[1..]);
        assert NonEmpty(m)[1..] == NonEmpty(m[1..]);
      } else {
        assert NonEmpty(m) == NonEmpty(m[1..]);
      }
    }
  }
}
