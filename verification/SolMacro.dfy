/** The meta list of a `#[sol(...)]` attribute (crates/sol-macro/src/lib.rs). */
module SolMeta {
  import opened Positions

  datatype Delimiter = Parenthesis | Brace | Bracket | Invisible

  /** A token without its span and spacing. */
  datatype Token =
    | Ident(name: string)
    | Punct(c: char)
    | Literal(text: string)
    | Group(delim: Delimiter, body: seq<Token>)

  type Tokens = seq<Token>

  const COMMA: Token := Punct(',')

  /** The comma-separated pieces of a list, empty ones included. */
  function Split(ts: Tokens): (r: seq<Tokens>)
    ensures r != []
  {
    if ts == [] then [[]]
    else
      var rest := Split(ts[1..]);
      if ts[0] == COMMA then [[]] + rest else [[ts[0]] + rest[0]] + rest[1..]
  }

  function NonEmpty(items: seq<Tokens>): seq<Tokens>
  {
    if items == [] then [] else (if items[0] == [] then [] else [items[0]]) + NonEmpty(items[1..])
  }

  /** The entries of a meta list. */
  function MetaItems(ts: Tokens): seq<Tokens> { NonEmpty(Split(ts)) }

  function Key(item: Tokens): string { if item != [] && item[0].Ident? then item[0].name else "" }

  predicate Keeps(item: Tokens) { item != [] && Key(item) != "rpc" }

  function Kept(items: seq<Tokens>): seq<Tokens>
  {
    if items == [] then [] else (if Keeps(items[0]) then [items[0]] else []) + Kept(items[1..])
  }

  function Join(items: seq<Tokens>): Tokens
  {
    if items == [] then [] else if |items| == 1 then items[0] else items[0] + [COMMA] + Join(items[1..])
  }

  function FilteredMeta(ts: Tokens): Tokens { Join(Kept(Split(ts))) }

  // ---- The loops of `filter_sol_meta` ----

  /** `items`, its last piece still open, followed by the pieces of the rest. */
  function Continue(items: seq<Tokens>, rest: seq<Tokens>): seq<Tokens>
    requires items != [] && rest != []
  {
    items[..|items| - 1] + [items[|items| - 1] + rest[0]] + rest[1..]
  }

  function PushToken(items: seq<Tokens>, t: Token): (r: seq<Tokens>)
    requires items != []
    ensures r != []
  {
    items[..|items| - 1] + [items[|items| - 1] + [t]]
  }

  lemma ContinueComma(items: seq<Tokens>, rest: seq<Tokens>)
    requires items != [] && rest != []
    ensures Continue(items, [[]] + rest) == Continue(items + [[]], rest)
  {
    var n := |items| - 1;
    assert items[n] + [] == items[n] && items[..n] + [items[n]] == items;
    assert [] + rest[0] == rest[0] && [rest[0]] + rest[1..] == rest;
    assert (items + [[]])[..n + 1] == items && ([[]] + rest)[1..] == rest;
  }

  lemma ContinueToken(items: seq<Tokens>, t: Token, rest: seq<Tokens>)
    requires items != [] && rest != []
    ensures Continue(items, [[t] + rest[0]] + rest[1..]) == Continue(PushToken(items, t), rest)
  {
    var n := |items| - 1;
    assert items[n] + ([t] + rest[0]) == (items[n] + [t]) + rest[0];
    assert PushToken(items, t)[..n] == items[..n];
    assert ([[t] + rest[0]] + rest[1..])[1..] == rest[1..];
  }

  lemma ContinueDone(items: seq<Tokens>)
    requires items != []
    ensures Continue(items, [[]]) == items
    ensures Continue([[]], items) == items
  {
    var n := |items| - 1;
    assert items[n] + [] == items[n] && items[..n] + [items[n]] + [] == items;
    assert [] + items[0] == items[0] && [items[0]] + items[1..] == items;
  }

  method SplitAtCommas(stream: Tokens) returns (items: seq<Tokens>)
    ensures items == Split(stream)
  {
    items := [[]];
    ContinueDone(Split(stream));
    assert stream[0..] == stream;
    for i := 0 to |stream|
      invariant items != [] && Continue(items, Split(stream[i..])) == Split(stream)
    {
      assert stream[i..][0] == stream[i] && stream[i..][1..] == stream[i + 1..];
      if stream[i] == COMMA {
        ContinueComma(items, Split(stream[i + 1..]));
        items := items + [[]];
      } else {
        ContinueToken(items, stream[i], Split(stream[i + 1..]));
        items := PushToken(items, stream[i]);
      }
    }
    ContinueDone(items);
  }

  lemma {:induction false} KeptAppend(items: seq<Tokens>, item: Tokens)
    ensures Kept(items + [item]) == Kept(items) + (if Keeps(item) then [item] else [])
  {
    if items == [] {
      assert [] + [item] == [item] && [item][1..] == [];
    } else {
      assert (items + [item])[1..] == items[1..] + [item] && (items + [item])[0] == items[0];
      KeptAppend(items[1..], item);
      var head, last := if Keeps(items[0]) then [items[0]] else [], if Keeps(item) then [item] else [];
      assert (head + Kept(items[1..])) + last == head + (Kept(items[1..]) + last);
    }
  }

  lemma {:induction false} JoinAppend(items: seq<Tokens>, item: Tokens)
    ensures Join(items + [item]) == if items == [] then item else Join(items) + [COMMA] + item
  {
    if items == [] {
      assert [] + [item] == [item];
    } else {
      assert (items + [item])[1..] == items[1..] + [item] && (items + [item])[0] == items[0];
      JoinAppend(items[1..], item);
      if |items| == 1 {
        assert items[1..] == [];
      } else {
        JoinShift(items[0] + [COMMA], Join(items[1..]), [COMMA] + item);
        assert Join(items[1..]) + [COMMA] + item == Join(items[1..]) + ([COMMA] + item);
        assert Join(items) + [COMMA] + item == Join(items) + ([COMMA] + item);
      }
    }
  }

  lemma JoinShift(a: Tokens, b: Tokens, c: Tokens)
    ensures a + (b + c) == (a + b) + c
  {
  }

  method FilterSolMeta(stream: Tokens) returns (out: Tokens)
    ensures out == FilteredMeta(stream)
  {
    var items := SplitAtCommas(stream);
    out := [];
    var first := true;
    for k := 0 to |items|
      invariant out == Join(Kept(items[..k])) && (first <==> Kept(items[..k]) == [])
    {
      var item := items[k];
      assert items[..k + 1] == items[..k] + [item];
      KeptAppend(items[..k], item);
      JoinAppend(Kept(items[..k]), item);
      if Keeps(item) {
        assert first ==> [] + item == item;
        if !first {
          out := out + [COMMA];
        }
        first := false;
        out := out + item;
      } else {
        assert Kept(items[..k]) + [] == Kept(items[..k]);
      }
    }
    assert items[..|items|] == items;
  }

  // ---- What filtering keeps ----

  predicate NoComma(item: Tokens) { COMMA !in item }

  ghost predicate Pieces(items: seq<Tokens>) { forall i :: 0 <= i < |items| ==> items[i] != [] && NoComma(items[i]) }

  lemma {:induction false} SplitPiece(item: Tokens)
    requires NoComma(item)
    ensures Split(item) == [item]
  {
    if item != [] {
      assert NoComma(item[1..]);
      SplitPiece(item[1..]);
      assert [item[0]] + item[1..] == item;
    }
  }

  lemma {:induction false} SplitFront(item: Tokens, rest: Tokens)
    requires NoComma(item)
    ensures Split(item + [COMMA] + rest) == [item] + Split(rest)
  {
    var all := item + [COMMA] + rest;
    if item == [] {
      assert all == [COMMA] + rest && all[1..] == rest;
    } else {
      assert all[0] == item[0] && all[1..] == item[1..] + [COMMA] + rest;
      assert NoComma(item[1..]);
      SplitFront(item[1..], rest);
      assert [item[0]] + item[1..] == item;
    }
  }

  /** Joined pieces split into the same pieces. */
  lemma {:induction false} SplitUndoesJoin(items: seq<Tokens>)
    requires Pieces(items)
    ensures MetaItems(Join(items)) == items
  {
    if items == [] {
    } else if |items| == 1 {
      SplitPiece(items[0]);
      assert items == [items[0]] && items[1..] == [];
      assert [items[0]] + NonEmpty([]) == [items[0]];
    } else {
      SplitUndoesJoin(items[1..]);
      SplitFront(items[0], Join(items[1..]));
      assert ([items[0]] + Split(Join(items[1..])))[1..] == Split(Join(items[1..]));
      assert items == [items[0]] + items[1..];
    }
  }

  lemma {:induction false} SplitHasNoComma(ts: Tokens)
    ensures forall i :: 0 <= i < |Split(ts)| ==> NoComma(Split(ts)[i])
  {
    if ts != [] {
      SplitHasNoComma(ts[1..]);
    }
  }

  lemma {:induction false} KeptArePieces(items: seq<Tokens>)
    requires forall i :: 0 <= i < |items| ==> NoComma(items[i])
    ensures Pieces(Kept(items)) && forall i :: 0 <= i < |Kept(items)| ==> Keeps(Kept(items)[i])
    ensures Kept(NonEmpty(items)) == Kept(items)
  {
    if items != [] {
      KeptArePieces(items[1..]);
      if items[0] != [] {
        assert NonEmpty(items)[0] == items[0] && NonEmpty(items)[1..] == NonEmpty(items[1..]);
      } else {
        assert NonEmpty(items) == NonEmpty(items[1..]) && Kept(items) == Kept(items[1..]);
      }
    }
  }

  /** A list is its pieces with commas between them: no piece holds a comma, and every comma of
      the list separates two of them. */
  lemma {:induction false} SplitMeaning(ts: Tokens)
    ensures Join(Split(ts)) == ts
    ensures forall i :: 0 <= i < |Split(ts)| ==> Punct(',') !in Split(ts)[i]
    ensures |Split(ts)| == multiset(ts)[Punct(',')] + 1
  {
    SplitHasNoComma(ts);
    if ts != [] {
      SplitMeaning(ts[1..]);
      assert ts == [ts[0]] + ts[1..];
      var rest := Split(ts[1..]);
      if ts[0] == COMMA {
        assert ([[]] + rest)[1..] == rest && [] + [COMMA] + ts[1..] == ts;
      } else {
        JoinFirst(ts[0], rest);
      }
    }
  }

  lemma JoinFirst(t: Token, items: seq<Tokens>)
    requires items != []
    ensures Join([[t] + items[0]] + items[1..]) == [t] + Join(items)
  {
    var longer := [[t] + items[0]] + items[1..];
    assert longer[1..] == items[1..];
    if |items| > 1 {
      assert ([t] + items[0]) + [COMMA] + Join(items[1..]) == [t] + (items[0] + [COMMA] + Join(items[1..]));
    }
  }

  /** The entries of the filtered list are the entries at these positions, in order, which are
      exactly those whose first token is not the identifier `rpc`. */
  ghost predicate AllButRpc(ts: Tokens, at: seq<nat>)
  {
    && Picks(MetaItems(ts), at, MetaItems(FilteredMeta(ts)))
    && forall i: nat :: i < |MetaItems(ts)| ==>
         MetaItems(ts)[i] != [] && (i in at <==> MetaItems(ts)[i][0] != Ident("rpc"))
  }

  lemma {:induction false} KeptPositions(items: seq<Tokens>) returns (at: seq<nat>)
    requires forall i :: 0 <= i < |items| ==> items[i] != []
    ensures Picks(items, at, Kept(items))
    ensures forall i: nat :: i < |items| ==> (i in at <==> items[i][0] != Ident("rpc"))
  {
    at := [];
    if items != [] {
      var tail := KeptPositions(items[1..]);
      at := Behind(tail, Keeps(items[0]));
      BehindFacts(tail, Keeps(items[0]));
      PicksBehind(items, tail, Kept(items[1..]), Keeps(items[0]));
      assert forall i :: 0 < i < |items| ==> items[i] == items[1..][i - 1];
    }
  }

  lemma {:induction false} NonEmptyIsNonEmpty(items: seq<Tokens>)
    ensures forall i :: 0 <= i < |NonEmpty(items)| ==> NonEmpty(items)[i] != []
    ensures multiset(NonEmpty(items)) == multiset(items)[[] := 0]
  {
    if items != [] {
      NonEmptyIsNonEmpty(items[1..]);
      assert items == [items[0]] + items[1..];
    }
  }

  /** Filtering drops the entries that start with `rpc` and only those: `bytecode` and every
      other key stay, in their order. */
  lemma FilteringKeepsAllButRpc(ts: Tokens) returns (at: seq<nat>)
    ensures AllButRpc(ts, at)
    ensures FilteredMeta(ts) == [] <==> at == []
  {
    NonEmptyIsNonEmpty(Split(ts));
    FilteringDropsExactlyRpc(ts);
    at := KeptPositions(MetaItems(ts));
  }

  /** The first token of an entry; entries are not empty. */
  function FirstOf(item: Tokens): Token { if item == [] then COMMA else item[0] }

  lemma {:induction false} NothingKept(items: seq<Tokens>)
    requires forall i :: 0 <= i < |items| ==> items[i] != []
    ensures Kept(items) == [] <==> forall item :: item in items ==> FirstOf(item) == Ident("rpc")
  {
    if items != [] {
      NothingKept(items[1..]);
      assert forall item :: item in items <==> item == items[0] || item in items[1..];
      assert Keeps(items[0]) <==> FirstOf(items[0]) != Ident("rpc");
    }
  }

  lemma EmptyExactlyWhenOnlyRpc(ts: Tokens)
    ensures FilteredMeta(ts) == [] <==> forall item :: item in MetaItems(ts) ==> FirstOf(item) == Ident("rpc")
  {
    NonEmptyIsNonEmpty(Split(ts));
    FilteringDropsExactlyRpc(ts);
    NothingKept(MetaItems(ts));
  }

  /** Filtering a meta list removes its `rpc` entries and no other: the entries of the result
      are the kept entries of the list, in order. */
  lemma FilteringDropsExactlyRpc(ts: Tokens)
    ensures MetaItems(FilteredMeta(ts)) == Kept(MetaItems(ts))
    ensures forall i :: 0 <= i < |MetaItems(FilteredMeta(ts))| ==> Key(MetaItems(FilteredMeta(ts))[i]) != "rpc"
    ensures FilteredMeta(ts) == [] <==> Kept(MetaItems(ts)) == []
  {
    SplitHasNoComma(ts);
    KeptArePieces(Split(ts));
    SplitUndoesJoin(Kept(Split(ts)));
  }

  lemma {:induction false} KeptAgain(items: seq<Tokens>)
    requires forall i :: 0 <= i < |items| ==> Keeps(items[i])
    ensures Kept(items) == items
  {
    if items != [] {
      KeptAgain(items[1..]);
      assert items == [items[0]] + items[1..];
    }
  }

  lemma FilteringTwiceIsOnce(ts: Tokens)
    ensures FilteredMeta(FilteredMeta(ts)) == FilteredMeta(ts)
  {
    SplitHasNoComma(ts);
    KeptArePieces(Split(ts));
    FilteringDropsExactlyRpc(ts);
    SplitHasNoComma(FilteredMeta(ts));
    KeptArePieces(Split(FilteredMeta(ts)));
    KeptAgain(Kept(Split(ts)));
  }
}

/** Stripping TRON's attributes from a token stream (crates/sol-macro/src/lib.rs). */
module TokenStrip {
  import opened Wrappers
  import opened SolMeta

  // ---- One attribute ----

  predicate IsSolList(inner: Tokens)
  {
    |inner| >= 2 && inner[0] == Ident("sol") && inner[1].Group? && inner[1].delim == Parenthesis
  }

  /** The attribute's new contents, or nothing when the attribute goes. */
  function RewriteAttr(inner: Tokens): Option<Tokens>
  {
    if inner == [] || !inner[0].Ident? then Some(inner)
    else if inner[0].name == "tron_sol" then None
    else if IsSolList(inner) then
      var kept := FilteredMeta(inner[1].body);
      if kept == [] then None else Some([inner[0], Group(Parenthesis, kept)])
    else Some(inner)
  }

  /** Nothing in it is for TRON alone. */
  predicate CleanAttr(inner: Tokens)
  {
    && !(inner != [] && inner[0] == Ident("tron_sol"))
    && (IsSolList(inner) ==>
         var items := MetaItems(inner[1].body); forall i :: 0 <= i < |items| ==> Key(items[i]) != "rpc")
  }

  /** Rewriting leaves it as it is. */
  predicate Settled(inner: Tokens) { RewriteAttr(inner) == Some(inner) }

  /** An attribute goes when it is `tron_sol` or a `sol` list of nothing but `rpc`; a `sol` list
      that stays loses its `rpc` entries and whatever follows the list, and nothing else; any
      other attribute is untouched. */
  lemma RewriteAttrMeaning(inner: Tokens)
    ensures RewriteAttr(inner).None? <==>
      (inner != [] && inner[0] == Ident("tron_sol")) || (IsSolList(inner) && Kept(MetaItems(inner[1].body)) == [])
    ensures RewriteAttr(inner).Some? && IsSolList(inner) ==>
      && IsSolList(RewriteAttr(inner).value) && |RewriteAttr(inner).value| == 2
      && MetaItems(RewriteAttr(inner).value[1].body) == Kept(MetaItems(inner[1].body))
    ensures RewriteAttr(inner).Some? && !IsSolList(inner) ==> RewriteAttr(inner).value == inner
    ensures RewriteAttr(inner).Some? ==> CleanAttr(RewriteAttr(inner).value) && Settled(RewriteAttr(inner).value)
  {
    if IsSolList(inner) {
      FilteringDropsExactlyRpc(inner[1].body);
      FilteringTwiceIsOnce(inner[1].body);
    }
  }

  /** The same said of the tokens: an attribute goes exactly when it starts with `tron_sol`, or
      is a `sol` list each of whose entries starts with `rpc`. */
  lemma AttrGoesExactlyWhen(inner: Tokens)
    ensures RewriteAttr(inner).None? <==>
      || (inner != [] && inner[0] == Ident("tron_sol"))
      || (IsSolList(inner) && forall item :: item in MetaItems(inner[1].body) ==> FirstOf(item) == Ident("rpc"))
  {
    if IsSolList(inner) {
      EmptyExactlyWhenOnlyRpc(inner[1].body);
    }
  }

  // ---- The stripper ----

  predicate IsBracket(t: Token) { t.Group? && t.delim == Bracket }

  /** How many tokens the attribute at the head takes; none opens there when 0. */
  function AttrLength(ts: Tokens): (n: nat)
    ensures n <= |ts|
    ensures n > 0 ==> 2 <= n <= 3 && ts[0] == Punct('#') && IsBracket(ts[n - 1])
    ensures n > 0 ==> (n == 3 <==> ts[1] == Punct('!'))
  {
    if |ts| < 2 || ts[0] != Punct('#') then 0
    else if ts[1] == Punct('!') then if |ts| >= 3 && IsBracket(ts[2]) then 3 else 0
    else if IsBracket(ts[1]) then 2 else 0
  }

  function StripHead(ts: Tokens): Tokens
    requires AttrLength(ts) > 0
  {
    var n := AttrLength(ts);
    match RewriteAttr(ts[n - 1].body)
    case None => []
    case Some(inner) => ts[..n - 1] + [Group(Bracket, inner)]
  }

  function Strip(ts: Tokens): Tokens
  {
    if ts == [] then []
    else if ts[0].Group? then [Group(ts[0].delim, Strip(ts[0].body))] + Strip(ts[1..])
    else if AttrLength(ts) > 0 then StripHead(ts) + Strip(ts[AttrLength(ts)..])
    else [ts[0]] + Strip(ts[1..])
  }

  method Rewrite(inner: Tokens) returns (r: Option<Tokens>)
    ensures r == RewriteAttr(inner)
  {
    if inner == [] || !inner[0].Ident? {
      return Some(inner);
    }
    if inner[0].name == "tron_sol" {
      return None;
    }
    if inner[0].name == "sol" && |inner| >= 2 && inner[1].Group? && inner[1].delim == Parenthesis {
      var kept := FilterSolMeta(inner[1].body);
      if kept == [] {
        return None;
      }
      return Some([inner[0], Group(Parenthesis, kept)]);
    }
    return Some(inner);
  }

  /** What one turn of the loop must emit. */
  ghost predicate Emits(tokens: Tokens, i: nat, next: nat, piece: Tokens)
  {
    i < next <= |tokens| && Strip(tokens[i..]) == piece + Strip(tokens[next..])
  }

  lemma EmitsGroup(tokens: Tokens, i: nat)
    requires i < |tokens| && tokens[i].Group?
    ensures Emits(tokens, i, i + 1, [Group(tokens[i].delim, Strip(tokens[i].body))])
  {
    assert tokens[i..][0] == tokens[i] && tokens[i..][1..] == tokens[i + 1..];
  }

  lemma EmitsAttr(tokens: Tokens, i: nat, j: nat)
    requires i < j < |tokens| && tokens[i] == Punct('#') && IsBracket(tokens[j])
    requires j == (if tokens[i + 1] == Punct('!') then i + 2 else i + 1)
    ensures Emits(tokens, i, j + 1,
      match RewriteAttr(tokens[j].body) case None => [] case Some(x) => tokens[i..j] + [Group(Bracket, x)])
  {
    var rest := tokens[i..];
    assert rest[0] == tokens[i] && rest[1] == tokens[i + 1] && rest[j - i] == tokens[j];
    assert AttrLength(rest) == j + 1 - i;
    assert rest[..j - i] == tokens[i..j] && rest[j + 1 - i..] == tokens[j + 1..];
  }

  lemma EmitsToken(tokens: Tokens, i: nat)
    requires i < |tokens| && !tokens[i].Group? && AttrLength(tokens[i..]) == 0
    ensures Emits(tokens, i, i + 1, [tokens[i]])
  {
    assert tokens[i..][0] == tokens[i] && tokens[i..][1..] == tokens[i + 1..];
  }

  lemma Emitted(tokens: Tokens, out: Tokens, i: nat, next: nat, piece: Tokens)
    requires Emits(tokens, i, next, piece)
    ensures out + Strip(tokens[i..]) == (out + piece) + Strip(tokens[next..])
  {
  }

  /** `strip_tron_attrs`. */
  method StripTronAttrs(tokens: Tokens) returns (out: Tokens)
    ensures out == Strip(tokens)
    decreases tokens
  {
    out := [];
    var i := 0;
    assert tokens[0..] == tokens && [] + Strip(tokens) == Strip(tokens);
    while i < |tokens|
      invariant 0 <= i <= |tokens| && out + Strip(tokens[i..]) == Strip(tokens)
    {
      var next, piece := i + 1, [tokens[i]];
      if tokens[i].Group? {
        var body := StripTronAttrs(tokens[i].body);
        piece := [Group(tokens[i].delim, body)];
        EmitsGroup(tokens, i);
      } else {
        var j := i + 1;
        if j < |tokens| && tokens[j] == Punct('!') {
          j := j + 1;
        }
        if tokens[i] == Punct('#') && j < |tokens| && IsBracket(tokens[j]) {
          var inner := Rewrite(tokens[j].body);
          next, piece := j + 1, if inner.Some? then tokens[i..j] + [Group(Bracket, inner.value)] else [];
          EmitsAttr(tokens, i, j);
        } else {
          EmitsToken(tokens, i);
        }
      }
      Emitted(tokens, out, i, next, piece);
      out := out + piece;
      i := next;
    }
  }

  // ---- A stream as a tree of attributes, groups and single tokens ----

  datatype Chunk =
    | Attr(bang: bool, inner: Tokens)
    | Nested(delim: Delimiter, chunks: seq<Chunk>)
    | Plain(token: Token)

  type Tree = seq<Chunk>

  function Parse(ts: Tokens): Tree
  {
    if ts == [] then []
    else if ts[0].Group? then [Nested(ts[0].delim, Parse(ts[0].body))] + Parse(ts[1..])
    else
      var n := AttrLength(ts);
      if n > 0 then [Attr(n == 3, ts[n - 1].body)] + Parse(ts[n..]) else [Plain(ts[0])] + Parse(ts[1..])
  }

  function PrintChunk(c: Chunk): Tokens
    decreases c, 0
  {
    match c
    case Attr(bang, inner) => (if bang then [Punct('#'), Punct('!')] else [Punct('#')]) + [Group(Bracket, inner)]
    case Nested(delim, chunks) => [Group(delim, Print(chunks))]
    case Plain(t) => [t]
  }

  function Print(t: Tree): Tokens
    decreases t, 1
  {
    if t == [] then [] else PrintChunk(t[0]) + Print(t[1..])
  }

  /** The reference: attributes rewritten in place or removed, all else kept where it is. */
  function RewriteTree(t: Tree): Tree
  {
    if t == [] then []
    else
      (match t[0]
       case Attr(bang, inner) => (match RewriteAttr(inner) case None => [] case Some(x) => [Attr(bang, x)])
       case Nested(delim, chunks) => [Nested(delim, RewriteTree(chunks))]
       case Plain(_) => [t[0]])
      + RewriteTree(t[1..])
  }

  lemma PrintCons(c: Chunk, t: Tree)
    ensures Print([c] + t) == PrintChunk(c) + Print(t)
  {
    assert ([c] + t)[1..] == t;
  }

  lemma PrintAttr(ts: Tokens, inner: Tokens)
    requires AttrLength(ts) > 0
    ensures PrintChunk(Attr(AttrLength(ts) == 3, inner)) == ts[..AttrLength(ts) - 1] + [Group(Bracket, inner)]
  {
  }

  lemma {:induction false} PrintUndoesParse(ts: Tokens)
    ensures Print(Parse(ts)) == ts
  {
    if ts == [] {
    } else if ts[0].Group? {
      PrintUndoesParse(ts[0].body);
      PrintUndoesParse(ts[1..]);
      PrintCons(Nested(ts[0].delim, Parse(ts[0].body)), Parse(ts[1..]));
    } else {
      var n := AttrLength(ts);
      if n > 0 {
        PrintUndoesParse(ts[n..]);
        PrintCons(Attr(n == 3, ts[n - 1].body), Parse(ts[n..]));
        PrintAttr(ts, ts[n - 1].body);
        assert ts[..n - 1] + [ts[n - 1]] + ts[n..] == ts;
      } else {
        PrintUndoesParse(ts[1..]);
        PrintCons(Plain(ts[0]), Parse(ts[1..]));
      }
    }
  }

  /** Whatever the stream, the stripper prints the rewritten tree. */
  lemma {:induction false} StripPrintsTheRewrittenTree(ts: Tokens)
    ensures Strip(ts) == Print(RewriteTree(Parse(ts)))
  {
    if ts == [] {
    } else if ts[0].Group? {
      StripPrintsTheRewrittenTree(ts[0].body);
      StripPrintsTheRewrittenTree(ts[1..]);
      ParseCons(Nested(ts[0].delim, Parse(ts[0].body)), Parse(ts[1..]));
      PrintCons(Nested(ts[0].delim, RewriteTree(Parse(ts[0].body))), RewriteTree(Parse(ts[1..])));
    } else {
      var n := AttrLength(ts);
      if n > 0 {
        StripPrintsTheRewrittenTree(ts[n..]);
        var inner, rest := ts[n - 1].body, Parse(ts[n..]);
        ParseCons(Attr(n == 3, inner), rest);
        match RewriteAttr(inner) {
          case None => assert [] + Strip(ts[n..]) == Strip(ts[n..]) && [] + RewriteTree(rest) == RewriteTree(rest);
          case Some(x) =>
            PrintCons(Attr(n == 3, x), RewriteTree(rest));
            PrintAttr(ts, x);
        }
      } else {
        StripPrintsTheRewrittenTree(ts[1..]);
        ParseCons(Plain(ts[0]), Parse(ts[1..]));
        PrintCons(Plain(ts[0]), RewriteTree(Parse(ts[1..])));
      }
    }
  }

  lemma ParseCons(c: Chunk, t: Tree)
    ensures ([c] + t)[0] == c && ([c] + t)[1..] == t
  {
  }

  // ---- When a printed tree reads back as itself ----

  /** What the tokens just before may still open: nothing, `#`, or `#!`. */
  datatype Trail = Clear | Hash | HashBang

  function After(trail: Trail, t: Token): Trail
  {
    if t == Punct('#') then Hash else if t == Punct('!') && trail == Hash then HashBang else Clear
  }

  /** No bracket group follows a `#` or `#!` that the tree holds as plain tokens. */
  predicate Reparses(t: Tree, trail: Trail)
  {
    t == [] ||
    match t[0]
    case Attr(_, _) => Reparses(t[1..], Clear)
    case Nested(delim, chunks) =>
      !(delim == Bracket && trail != Clear) && Reparses(chunks, Clear) && Reparses(t[1..], Clear)
    case Plain(tok) => !tok.Group? && Reparses(t[1..], After(trail, tok))
  }

  lemma {:induction false} ReparsesClear(t: Tree, trail: Trail)
    requires Reparses(t, trail)
    ensures Reparses(t, Clear)
  {
    if t != [] && t[0].Plain? && After(trail, t[0].token) != After(Clear, t[0].token) {
      ReparsesClear(t[1..], After(trail, t[0].token));
    }
  }

  lemma PrintHead(t: Tree)
    requires t != []
    ensures Print(t) != []
    ensures t[0].Attr? ==> Print(t)[0] == Punct('#')
    ensures t[0].Nested? ==> Print(t)[0].Group? && Print(t)[0].delim == t[0].delim
    ensures t[0].Plain? ==> Print(t)[0] == t[0].token && Print(t)[1..] == Print(t[1..])
  {
    assert t == [t[0]] + t[1..];
    PrintCons(t[0], t[1..]);
  }

  lemma HashOpensNothing(t: Tree)
    requires Reparses(t, Hash)
    ensures AttrLength([Punct('#')] + Print(t)) == 0
  {
    var ts := [Punct('#')] + Print(t);
    if t != [] {
      PrintHead(t);
      assert ts[1] == Print(t)[0];
      if t[0] == Plain(Punct('!')) && t[1..] != [] {
        PrintHead(t[1..]);
        assert ts[2] == Print(t)[1] == Print(t[1..])[0];
      }
    }
  }

  lemma ParsePlain(tok: Token, rest: Tokens)
    requires !tok.Group? && AttrLength([tok] + rest) == 0
    ensures Parse([tok] + rest) == [Plain(tok)] + Parse(rest)
  {
    assert ([tok] + rest)[1..] == rest;
  }

  lemma ParseGroup(delim: Delimiter, body: Tokens, rest: Tokens)
    ensures Parse([Group(delim, body)] + rest) == [Nested(delim, Parse(body))] + Parse(rest)
  {
    assert ([Group(delim, body)] + rest)[1..] == rest;
  }

  lemma ParseAttr(bang: bool, inner: Tokens, rest: Tokens)
    ensures Parse(PrintChunk(Attr(bang, inner)) + rest) == [Attr(bang, inner)] + Parse(rest)
  {
    var ts := PrintChunk(Attr(bang, inner)) + rest;
    var n := if bang then 3 else 2;
    assert AttrLength(ts) == n && ts[n..] == rest;
  }

  lemma {:induction false} ParseUndoesPrint(t: Tree)
    requires Reparses(t, Clear)
    ensures Parse(Print(t)) == t
  {
    if t != [] {
      var rest := t[1..];
      assert t == [t[0]] + rest;
      match t[0] {
        case Attr(bang, inner) =>
          ParseUndoesPrint(rest);
          ParseAttr(bang, inner, Print(rest));
        case Nested(delim, chunks) =>
          ParseUndoesPrint(chunks);
          ParseUndoesPrint(rest);
          PrintCons(t[0], rest);
          ParseGroup(delim, Print(chunks), Print(rest));
        case Plain(tok) =>
          ReparsesClear(rest, After(Clear, tok));
          ParseUndoesPrint(rest);
          if tok == Punct('#') {
            HashOpensNothing(rest);
          }
          ParsePlain(tok, Print(rest));
      }
    }
  }

  lemma HashBefore(t: Tree, trail: Trail)
    requires Reparses(t, Clear) && trail != Clear
    requires t != [] ==> !(t[0].Nested? && t[0].delim == Bracket)
    requires trail == Hash && |t| > 1 && t[0] == Plain(Punct('!')) ==> !(t[1].Nested? && t[1].delim == Bracket)
    ensures Reparses(t, trail)
  {
    if t != [] && t[0] == Plain(Punct('!')) && trail == Hash {
      HashBefore(t[1..], HashBang);
    }
  }

  lemma ParsedHead(ts: Tokens)
    ensures Parse(ts) != [] && Parse(ts)[0].Nested? ==> ts != [] && ts[0].Group? && ts[0].delim == Parse(ts)[0].delim
    ensures Parse(ts) != [] && Parse(ts)[0].Plain? ==>
      ts != [] && ts[0] == Parse(ts)[0].token && Parse(ts)[1..] == Parse(ts[1..])
  {
  }

  lemma {:induction false} ParsedReparses(ts: Tokens)
    ensures Reparses(Parse(ts), Clear)
  {
    if ts == [] {
    } else if ts[0].Group? {
      ParsedReparses(ts[0].body);
      ParsedReparses(ts[1..]);
    } else if AttrLength(ts) > 0 {
      ParsedReparses(ts[AttrLength(ts)..]);
    } else {
      ParsedReparses(ts[1..]);
      if ts[0] == Punct('#') {
        var t := Parse(ts[1..]);
        ParsedHead(ts[1..]);
        if |t| > 1 && t[0] == Plain(Punct('!')) {
          ParsedHead(ts[1..][1..]);
        }
        HashBefore(t, Hash);
      }
    }
  }

  /** A tree reads back from its print exactly when no bracket group hangs behind a stray `#`. */
  lemma ReadsBackExactlyWhen(t: Tree)
    ensures Parse(Print(t)) == t <==> Reparses(t, Clear)
  {
    ParsedReparses(Print(t));
    if Reparses(t, Clear) {
      ParseUndoesPrint(t);
    }
  }

  // ---- When stripping is rewriting the tree ----

  /** No bracket group stands behind a stray `#` or `#!` with only attributes that go between. */
  predicate Separate(t: Tree, trail: Trail)
  {
    t == [] ||
    match t[0]
    case Attr(_, inner) => Separate(t[1..], if RewriteAttr(inner).None? then trail else Clear)
    case Nested(delim, chunks) =>
      !(delim == Bracket && trail != Clear) && Separate(chunks, Clear) && Separate(t[1..], Clear)
    case Plain(tok) => !tok.Group? && Separate(t[1..], After(trail, tok))
  }

  predicate SafeToStrip(ts: Tokens) { Separate(Parse(ts), Clear) }

  lemma {:induction false} SeparateMeansReparses(t: Tree, trail: Trail)
    ensures Separate(t, trail) <==> Reparses(RewriteTree(t), trail)
  {
    if t != [] {
      var rest := RewriteTree(t[1..]);
      match t[0] {
        case Attr(bang, inner) =>
          match RewriteAttr(inner) {
            case None =>
              SeparateMeansReparses(t[1..], trail);
              assert [] + rest == rest;
            case Some(x) =>
              SeparateMeansReparses(t[1..], Clear);
              ParseCons(Attr(bang, x), rest);
          }
        case Nested(delim, chunks) =>
          SeparateMeansReparses(chunks, Clear);
          SeparateMeansReparses(t[1..], Clear);
          ParseCons(Nested(delim, RewriteTree(chunks)), rest);
        case Plain(tok) =>
          SeparateMeansReparses(t[1..], After(trail, tok));
          ParseCons(t[0], rest);
      }
    }
  }

  /** The stripper touches the attributes and nothing else exactly when no stray `#` can meet a
      bracket group over what it removes. */
  lemma StripRewritesTheTree(ts: Tokens)
    ensures Parse(Strip(ts)) == RewriteTree(Parse(ts)) <==> SafeToStrip(ts)
  {
    StripPrintsTheRewrittenTree(ts);
    ReadsBackExactlyWhen(RewriteTree(Parse(ts)));
    SeparateMeansReparses(Parse(ts), Clear);
  }

  // ---- What is left, and what is kept ----

  /** Every attribute, at any depth, has this property. */
  predicate AllAttrs(t: Tree, ok: Tokens -> bool)
  {
    t == [] ||
    (AllAttrs(t[1..], ok) &&
     match t[0]
     case Attr(_, inner) => ok(inner)
     case Nested(_, chunks) => AllAttrs(chunks, ok)
     case Plain(_) => true)
  }

  /** No attribute for TRON alone at any depth. */
  predicate Clean(t: Tree) { AllAttrs(t, CleanAttr) }

  /** Holds of whatever rewriting leaves. */
  ghost predicate Produced(ok: Tokens -> bool)
  {
    forall inner :: RewriteAttr(inner).Some? ==> ok(RewriteAttr(inner).value)
  }

  lemma RewritingSettlesAndCleans()
    ensures Produced(Settled) && Produced(CleanAttr)
  {
    forall inner ensures RewriteAttr(inner).Some? ==>
      Settled(RewriteAttr(inner).value) && CleanAttr(RewriteAttr(inner).value)
    {
      RewriteAttrMeaning(inner);
    }
  }

  /** The tree without its attributes. */
  function Bare(t: Tree): Tree
  {
    if t == [] then []
    else
      (match t[0]
       case Attr(_, _) => []
       case Nested(delim, chunks) => [Nested(delim, Bare(chunks))]
       case Plain(_) => [t[0]])
      + Bare(t[1..])
  }

  lemma {:induction false} RewrittenIsBareAlike(t: Tree)
    ensures Bare(RewriteTree(t)) == Bare(t)
  {
    if t != [] {
      var rest := RewriteTree(t[1..]);
      RewrittenIsBareAlike(t[1..]);
      match t[0] {
        case Attr(bang, inner) =>
          match RewriteAttr(inner) {
            case None => assert [] + rest == rest;
            case Some(x) => ParseCons(Attr(bang, x), rest);
          }
        case Nested(delim, chunks) =>
          RewrittenIsBareAlike(chunks);
          ParseCons(Nested(delim, RewriteTree(chunks)), rest);
        case Plain(_) => ParseCons(t[0], rest);
      }
    }
  }

  // ---- Nothing but attributes is lost exactly on safe streams ----

  /** Tokens outside attributes, at every depth. */
  function Size(t: Tree): nat
  {
    if t == [] then 0
    else
      (match t[0]
       case Attr(_, _) => 0
       case Nested(_, chunks) => 1 + Size(chunks)
       case Plain(_) => 1)
      + Size(t[1..])
  }

  lemma SizeCons(c: Chunk, t: Tree)
    ensures Size([c] + t) == Size([c]) + Size(t)
  {
    assert ([c] + t)[1..] == t && [c][1..] == [];
  }

  lemma {:induction false} BareSize(t: Tree)
    ensures Size(Bare(t)) == Size(t)
  {
    if t != [] {
      BareSize(t[1..]);
      if t[0].Nested? {
        BareSize(t[0].chunks);
        SizeCons(Nested(t[0].delim, Bare(t[0].chunks)), Bare(t[1..]));
      } else if t[0].Plain? {
        SizeCons(t[0], Bare(t[1..]));
      } else {
        assert [] + Bare(t[1..]) == Bare(t[1..]);
      }
    }
  }

  /** Plain chunks hold single tokens. */
  predicate Proper(t: Tree)
  {
    t == [] ||
    (Proper(t[1..]) &&
     match t[0]
     case Attr(_, _) => true
     case Nested(_, chunks) => Proper(chunks)
     case Plain(tok) => !tok.Group?)
  }

  lemma {:induction false} ReparsesIsProper(t: Tree, trail: Trail)
    requires Reparses(t, trail)
    ensures Proper(RewriteTree(t))
  {
    if t != [] {
      var rest := RewriteTree(t[1..]);
      match t[0] {
        case Attr(bang, inner) =>
          ReparsesIsProper(t[1..], Clear);
          match RewriteAttr(inner) {
            case None => assert [] + rest == rest;
            case Some(x) => ParseCons(Attr(bang, x), rest);
          }
        case Nested(delim, chunks) =>
          ReparsesIsProper(chunks, Clear);
          ReparsesIsProper(t[1..], Clear);
          ParseCons(Nested(delim, RewriteTree(chunks)), rest);
        case Plain(tok) =>
          ReparsesIsProper(t[1..], After(trail, tok));
          ParseCons(t[0], rest);
      }
    }
  }

  lemma PrintTail(t: Tree)
    requires t != [] && !t[0].Attr?
    ensures Print(t) != [] && Print(t)[1..] == Print(t[1..])
  {
    assert t == [t[0]] + t[1..];
    PrintCons(t[0], t[1..]);
  }

  /** A bracket group printed first is a bracket group of the tree. */
  lemma BracketHead(t: Tree)
    requires Proper(t) && Print(t) != [] && IsBracket(Print(t)[0])
    ensures t != [] && t[0].Nested? && Print(t)[1..] == Print(t[1..]) && Proper(t[1..]) && Size(t[1..]) + 1 <= Size(t)
  {
    PrintHead(t);
    PrintTail(t);
  }

  lemma PlainHead(t: Tree)
    requires Proper(t) && Print(t) != [] && Print(t)[0] == Punct('!')
    ensures t != [] && t[0].Plain? && Print(t)[1..] == Print(t[1..]) && Proper(t[1..]) && Size(t[1..]) + 1 == Size(t)
  {
    PrintHead(t);
  }

  /** A plain `#` that opens an attribute swallows the bracket group behind it. */
  lemma Swallows(t: Tree)
    returns (k: nat)
    requires Proper(t) && t != [] && t[0].Plain? && AttrLength(Print(t)) > 0
    ensures 0 < k <= |t| && Proper(t[k..]) && Size(t[k..]) + 2 <= Size(t)
    ensures AttrLength(Print(t)) <= |Print(t)| && Print(t)[AttrLength(Print(t))..] == Print(t[k..])
  {
    var ts, rest := Print(t), t[1..];
    PrintTail(t);
    PrintHead(t);
    assert ts[1] == Print(rest)[0];
    if AttrLength(ts) == 2 {
      BracketHead(rest);
      assert ts[2..] == Print(rest)[1..] && t[2..] == rest[1..];
      k := 2;
    } else {
      PlainHead(rest);
      assert ts[2] == Print(rest)[1] == Print(rest[1..])[0];
      BracketHead(rest[1..]);
      assert ts[3..] == Print(rest[1..])[1..] && t[3..] == rest[1..][1..];
      k := 3;
    }
  }

  lemma SizeOfAttr(ts: Tokens)
    requires AttrLength(ts) > 0
    ensures Size(Parse(ts)) == Size(Parse(ts[AttrLength(ts)..]))
  {
    var n := AttrLength(ts);
    SizeCons(Attr(n == 3, ts[n - 1].body), Parse(ts[n..]));
  }

  /** Reading a print back never finds more outside attributes, and finds as much only when
      the tree reads back as itself. */
  lemma {:induction false} ReadingBackShrinks(t: Tree)
    requires Proper(t)
    ensures Size(Parse(Print(t))) <= Size(t)
    ensures Size(Parse(Print(t))) == Size(t) ==> Reparses(t, Clear)
  {
    if t != [] {
      var rest := t[1..];
      assert t == [t[0]] + rest;
      PrintCons(t[0], rest);
      match t[0] {
        case Attr(bang, inner) =>
          ReadingBackShrinks(rest);
          ParseAttr(bang, inner, Print(rest));
          SizeCons(t[0], Parse(Print(rest)));
        case Nested(delim, chunks) =>
          ReadingBackShrinks(chunks);
          ReadingBackShrinks(rest);
          ParseGroup(delim, Print(chunks), Print(rest));
          SizeCons(Nested(delim, Parse(Print(chunks))), Parse(Print(rest)));
        case Plain(tok) =>
          if AttrLength(Print(t)) == 0 {
            ReadingBackShrinks(rest);
            ParsePlain(tok, Print(rest));
            SizeCons(t[0], Parse(Print(rest)));
            if Reparses(rest, Clear) && tok == Punct('#') {
              NotOpened(rest);
            }
          } else {
            var k := Swallows(t);
            ReadingBackShrinks(t[k..]);
            SizeOfAttr(Print(t));
          }
      }
    }
  }

  lemma NotOpened(rest: Tree)
    requires Reparses(rest, Clear) && AttrLength([Punct('#')] + Print(rest)) == 0
    ensures Reparses(rest, Hash)
  {
    var ts := [Punct('#')] + Print(rest);
    if rest != [] {
      PrintHead(rest);
      assert ts[1] == Print(rest)[0];
      if |rest| > 1 && rest[0] == Plain(Punct('!')) {
        PrintHead(rest[1..]);
        assert ts[2] == Print(rest)[1] == Print(rest[1..])[0];
      }
    }
    HashBefore(rest, Hash);
  }

  /** The stream without its attributes survives stripping exactly when it is safe. */
  lemma OnlyAttributesAreTouched(ts: Tokens)
    ensures Bare(Parse(Strip(ts))) == Bare(Parse(ts)) <==> SafeToStrip(ts)
  {
    var t := Parse(ts);
    var t' := RewriteTree(t);
    StripPrintsTheRewrittenTree(ts);
    RewrittenIsBareAlike(t);
    SeparateMeansReparses(t, Clear);
    if SafeToStrip(ts) {
      StripRewritesTheTree(ts);
    } else if Bare(Parse(Strip(ts))) == Bare(t) {
      BareSize(t);
      BareSize(t');
      BareSize(Parse(Strip(ts)));
      ParsedReparses(ts);
      ReparsesIsProper(t, Clear);
      ReadingBackShrinks(t');
    }
  }

  // ---- When the output is clean, and when a second pass changes nothing ----

  /** The tokens a trail stands for. */
  function Pending(trail: Trail): Tokens
  {
    match trail
    case Clear => []
    case Hash => [Punct('#')]
    case HashBang => [Punct('#'), Punct('!')]
  }

  function Plains(trail: Trail): Tree
  {
    match trail
    case Clear => []
    case Hash => [Plain(Punct('#'))]
    case HashBang => [Plain(Punct('#')), Plain(Punct('!'))]
  }

  /** The attributes one reads back from the print of `t`, `trail` before it, all have the
      property: those of `t`, and each bracket group behind a stray `#` or `#!`. */
  predicate ReadBackAs(t: Tree, trail: Trail, ok: Tokens -> bool)
  {
    t == [] ||
    match t[0]
    case Attr(_, inner) => ok(inner) && ReadBackAs(t[1..], Clear, ok)
    case Nested(delim, chunks) =>
      && (if delim == Bracket && trail != Clear then ok(Print(chunks)) else ReadBackAs(chunks, Clear, ok))
      && ReadBackAs(t[1..], Clear, ok)
    case Plain(tok) => ReadBackAs(t[1..], After(trail, tok), ok)
  }

  /** Pending tokens open nothing before these. */
  predicate Blocks(trail: Trail, ts: Tokens)
  {
    ts == [] || trail == Clear || (!IsBracket(ts[0]) && !(trail == Hash && ts[0] == Punct('!')))
  }

  lemma ParsePending(trail: Trail, ts: Tokens)
    requires Blocks(trail, ts)
    ensures Parse(Pending(trail) + ts) == Plains(trail) + Parse(ts)
  {
    match trail
    case Clear =>
      assert [] + ts == ts && [] + Parse(ts) == Parse(ts);
    case Hash =>
      ParsePlain(Punct('#'), ts);
    case HashBang =>
      assert Pending(HashBang) + ts == [Punct('#')] + ([Punct('!')] + ts);
      ParsePlain(Punct('#'), [Punct('!')] + ts);
      ParsePlain(Punct('!'), ts);
      assert [Plain(Punct('#'))] + ([Plain(Punct('!'))] + Parse(ts)) == Plains(HashBang) + Parse(ts);
  }

  lemma AllAttrsCons(c: Chunk, t: Tree, ok: Tokens -> bool)
    ensures AllAttrs([c] + t, ok) <==> AllAttrs([c], ok) && AllAttrs(t, ok)
  {
    assert ([c] + t)[1..] == t && [c][1..] == [];
  }

  lemma AllAttrsPlains(trail: Trail, t: Tree, ok: Tokens -> bool)
    ensures AllAttrs(Plains(trail) + t, ok) <==> AllAttrs(t, ok)
  {
    match trail
    case Clear => assert [] + t == t;
    case Hash => AllAttrsCons(Plain(Punct('#')), t, ok);
    case HashBang =>
      assert Plains(HashBang) + t == [Plain(Punct('#'))] + ([Plain(Punct('!'))] + t);
      AllAttrsCons(Plain(Punct('#')), [Plain(Punct('!'))] + t, ok);
      AllAttrsCons(Plain(Punct('!')), t, ok);
  }

  /** Pending tokens that open nothing add no attribute. */
  lemma SkipPending(trail: Trail, ts: Tokens, ok: Tokens -> bool)
    requires Blocks(trail, ts)
    ensures AllAttrs(Parse(Pending(trail) + ts), ok) <==> AllAttrs(Parse(ts), ok)
  {
    ParsePending(trail, ts);
    AllAttrsPlains(trail, Parse(ts), ok);
  }

  lemma AttrReadBack(trail: Trail, bang: bool, inner: Tokens, rest: Tokens, ok: Tokens -> bool)
    ensures AllAttrs(Parse(Pending(trail) + (PrintChunk(Attr(bang, inner)) + rest)), ok) <==>
      ok(inner) && AllAttrs(Parse(rest), ok)
  {
    SkipPending(trail, PrintChunk(Attr(bang, inner)) + rest, ok);
    ParseAttr(bang, inner, rest);
    AllAttrsCons(Attr(bang, inner), Parse(rest), ok);
  }

  lemma GroupReadBack(trail: Trail, delim: Delimiter, body: Tokens, rest: Tokens, ok: Tokens -> bool)
    ensures AllAttrs(Parse(Pending(trail) + ([Group(delim, body)] + rest)), ok) <==>
      (if delim == Bracket && trail != Clear then ok(body) else AllAttrs(Parse(body), ok)) && AllAttrs(Parse(rest), ok)
  {
    if delim == Bracket && trail != Clear {
      var attr := Attr(trail == HashBang, body);
      assert Pending(trail) + ([Group(delim, body)] + rest) == PrintChunk(attr) + rest;
      ParseAttr(trail == HashBang, body, rest);
      AllAttrsCons(attr, Parse(rest), ok);
    } else {
      SkipPending(trail, [Group(delim, body)] + rest, ok);
      ParseGroup(delim, body, rest);
      AllAttrsCons(Nested(delim, Parse(body)), Parse(rest), ok);
    }
  }

  lemma TokenReadBack(trail: Trail, tok: Token, rest: Tokens, ok: Tokens -> bool)
    requires !tok.Group?
    ensures AllAttrs(Parse(Pending(trail) + ([tok] + rest)), ok) <==>
      AllAttrs(Parse(Pending(After(trail, tok)) + rest), ok)
  {
    if trail == Hash && tok == Punct('!') {
      assert Pending(Hash) + ([tok] + rest) == Pending(HashBang) + rest;
    } else {
      SkipPending(trail, [tok] + rest, ok);
      if tok != Punct('#') {
        PlainReadBack(tok, rest, ok);
        assert Pending(After(trail, tok)) + rest == rest;
      }
    }
  }

  lemma PlainReadBack(tok: Token, rest: Tokens, ok: Tokens -> bool)
    requires !tok.Group? && tok != Punct('#')
    ensures AllAttrs(Parse([tok] + rest), ok) <==> AllAttrs(Parse(rest), ok)
  {
    ParsePlain(tok, rest);
    AllAttrsCons(Plain(tok), Parse(rest), ok);
  }

  lemma {:induction false} ReadBackExactly(t: Tree, trail: Trail, ok: Tokens -> bool)
    requires Proper(t)
    ensures AllAttrs(Parse(Pending(trail) + Print(t)), ok) <==> ReadBackAs(t, trail, ok)
  {
    if t == [] {
      SkipPending(trail, [], ok);
    } else {
      var rest := t[1..];
      assert t == [t[0]] + rest;
      PrintCons(t[0], rest);
      assert Pending(Clear) + Print(rest) == Print(rest);
      match t[0] {
        case Attr(bang, inner) =>
          AttrReadBack(trail, bang, inner, Print(rest), ok);
          ReadBackExactly(rest, Clear, ok);
        case Nested(delim, chunks) =>
          GroupReadBack(trail, delim, Print(chunks), Print(rest), ok);
          assert Pending(Clear) + Print(chunks) == Print(chunks);
          ReadBackExactly(chunks, Clear, ok);
          ReadBackExactly(rest, Clear, ok);
        case Plain(tok) =>
          TokenReadBack(trail, tok, Print(rest), ok);
          ReadBackExactly(rest, After(trail, tok), ok);
      }
    }
  }

  /** A bracket group that comes to stand behind a stray `#` or `#!`, with only attributes that
      go between, has the property once stripped. Everywhere else a stray `#` does no harm. */
  predicate Harmless(t: Tree, trail: Trail, ok: Tokens -> bool)
  {
    t == [] ||
    match t[0]
    case Attr(_, inner) => Harmless(t[1..], if RewriteAttr(inner).None? then trail else Clear, ok)
    case Nested(delim, chunks) =>
      && (if delim == Bracket && trail != Clear then ok(Print(RewriteTree(chunks))) else Harmless(chunks, Clear, ok))
      && Harmless(t[1..], Clear, ok)
    case Plain(tok) => Harmless(t[1..], After(trail, tok), ok)
  }

  lemma {:induction false} HarmlessMeansReadBack(t: Tree, trail: Trail, ok: Tokens -> bool)
    requires Produced(ok)
    ensures Harmless(t, trail, ok) <==> ReadBackAs(RewriteTree(t), trail, ok)
  {
    if t != [] {
      var rest := RewriteTree(t[1..]);
      match t[0] {
        case Attr(bang, inner) =>
          match RewriteAttr(inner) {
            case None =>
              HarmlessMeansReadBack(t[1..], trail, ok);
              assert [] + rest == rest;
            case Some(x) =>
              HarmlessMeansReadBack(t[1..], Clear, ok);
              ParseCons(Attr(bang, x), rest);
          }
        case Nested(delim, chunks) =>
          HarmlessMeansReadBack(chunks, Clear, ok);
          HarmlessMeansReadBack(t[1..], Clear, ok);
          ParseCons(Nested(delim, RewriteTree(chunks)), rest);
        case Plain(tok) =>
          HarmlessMeansReadBack(t[1..], After(trail, tok), ok);
          ParseCons(t[0], rest);
      }
    }
  }

  lemma OutputAttrs(ts: Tokens, ok: Tokens -> bool)
    requires Produced(ok)
    ensures AllAttrs(Parse(Strip(ts)), ok) <==> Harmless(Parse(ts), Clear, ok)
  {
    var t := RewriteTree(Parse(ts));
    StripPrintsTheRewrittenTree(ts);
    ParsedReparses(ts);
    ReparsesIsProper(Parse(ts), Clear);
    ReadBackExactly(t, Clear, ok);
    assert Pending(Clear) + Print(t) == Print(t);
    HarmlessMeansReadBack(Parse(ts), Clear, ok);
  }

  lemma {:induction false} RewritingShortens(t: Tree)
    ensures |Print(RewriteTree(t))| <= |Print(t)|
  {
    if t != [] {
      var rest := RewriteTree(t[1..]);
      RewritingShortens(t[1..]);
      assert t == [t[0]] + t[1..];
      PrintCons(t[0], t[1..]);
      match t[0] {
        case Attr(bang, inner) =>
          match RewriteAttr(inner) {
            case None => assert [] + rest == rest;
            case Some(x) => PrintCons(Attr(bang, x), rest);
          }
        case Nested(delim, chunks) => PrintCons(Nested(delim, RewriteTree(chunks)), rest);
        case Plain(_) => PrintCons(t[0], rest);
      }
    }
  }

  lemma SameFront(a: Tokens, x: Tokens, b: Tokens, y: Tokens)
    requires a + x == b + y && |a| == |b|
    ensures a == b && x == y
  {
    assert a == (a + x)[..|a|] && b == (b + y)[..|b|];
    assert x == (a + x)[|a|..] && y == (b + y)[|b|..];
  }

  /** A tree prints as before after rewriting exactly when all its attributes are settled. */
  lemma {:induction false} PrintsTheSameExactly(t: Tree)
    ensures Print(RewriteTree(t)) == Print(t) <==> AllAttrs(t, Settled)
  {
    if t != [] {
      var tail, rest := t[1..], RewriteTree(t[1..]);
      assert t == [t[0]] + tail;
      PrintCons(t[0], tail);
      PrintsTheSameExactly(tail);
      match t[0] {
        case Attr(bang, inner) =>
          match RewriteAttr(inner) {
            case None =>
              assert [] + rest == rest;
              RewritingShortens(tail);
            case Some(x) =>
              PrintCons(Attr(bang, x), rest);
              if Print(RewriteTree(t)) == Print(t) {
                SameFront(PrintChunk(Attr(bang, x)), Print(rest), PrintChunk(t[0]), Print(tail));
                var n := if bang then 2 else 1;
                assert PrintChunk(Attr(bang, x))[n] == PrintChunk(t[0])[n];
              }
          }
        case Nested(delim, chunks) =>
          PrintsTheSameExactly(chunks);
          PrintCons(Nested(delim, RewriteTree(chunks)), rest);
          if Print(RewriteTree(t)) == Print(t) {
            var after, before := Group(delim, Print(RewriteTree(chunks))), Group(delim, Print(chunks));
            SameFront([after], Print(rest), [before], Print(tail));
            assert [after][0] == [before][0];
          }
        case Plain(_) =>
          PrintCons(t[0], rest);
          if Print(RewriteTree(t)) == Print(t) {
            SameFront(PrintChunk(t[0]), Print(rest), PrintChunk(t[0]), Print(tail));
          }
      }
    }
  }

  /** A second pass changes nothing exactly when the bracket groups that come to stand behind a
      stray `#` hold nothing more to rewrite. */
  lemma StrippingTwiceIsOnceExactlyWhen(ts: Tokens)
    ensures Strip(Strip(ts)) == Strip(ts) <==> Harmless(Parse(ts), Clear, Settled)
  {
    StripPrintsTheRewrittenTree(Strip(ts));
    PrintUndoesParse(Strip(ts));
    PrintsTheSameExactly(Parse(Strip(ts)));
    RewritingSettlesAndCleans();
    OutputAttrs(ts, Settled);
  }

  /** No attribute for TRON alone is left, at any depth, exactly when no such bracket group holds
      what would be one. */
  lemma OutputIsCleanExactlyWhen(ts: Tokens)
    ensures Clean(Parse(Strip(ts))) <==> Harmless(Parse(ts), Clear, CleanAttr)
  {
    RewritingSettlesAndCleans();
    OutputAttrs(ts, CleanAttr);
  }

  lemma {:induction false} SafeIsHarmless(t: Tree, trail: Trail, ok: Tokens -> bool)
    requires Separate(t, trail)
    ensures Harmless(t, trail, ok)
  {
    if t != [] {
      match t[0]
      case Attr(_, inner) => SafeIsHarmless(t[1..], if RewriteAttr(inner).None? then trail else Clear, ok);
      case Nested(_, chunks) =>
        SafeIsHarmless(chunks, Clear, ok);
        SafeIsHarmless(t[1..], Clear, ok);
      case Plain(tok) => SafeIsHarmless(t[1..], After(trail, tok), ok);
    }
  }

  /** On safe streams all three hold: nothing TRON-only is left at any depth, everything that is
      no attribute is kept in place, and stripping again changes nothing. */
  lemma StripRemovesExactlyTron(ts: Tokens)
    requires SafeToStrip(ts)
    ensures Clean(Parse(Strip(ts)))
    ensures Bare(Parse(Strip(ts))) == Bare(Parse(ts))
    ensures Strip(Strip(ts)) == Strip(ts)
  {
    OnlyAttributesAreTouched(ts);
    SafeIsHarmless(Parse(ts), Clear, CleanAttr);
    SafeIsHarmless(Parse(ts), Clear, Settled);
    OutputIsCleanExactlyWhen(ts);
    StrippingTwiceIsOnceExactlyWhen(ts);
  }

  /** Each `#` outside attribute brackets opens an attribute. */
  predicate EveryHashOpens(ts: Tokens)
  {
    ts == [] ||
    if ts[0].Group? then EveryHashOpens(ts[0].body) && EveryHashOpens(ts[1..])
    else if AttrLength(ts) > 0 then EveryHashOpens(ts[AttrLength(ts)..])
    else ts[0] != Punct('#') && EveryHashOpens(ts[1..])
  }

  /** In particular wherever each `#` opens an attribute. */
  lemma {:induction false} EveryHashOpensIsSafe(ts: Tokens)
    requires EveryHashOpens(ts)
    ensures SafeToStrip(ts)
  {
    if ts == [] {
    } else if ts[0].Group? {
      EveryHashOpensIsSafe(ts[0].body);
      EveryHashOpensIsSafe(ts[1..]);
    } else if AttrLength(ts) > 0 {
      EveryHashOpensIsSafe(ts[AttrLength(ts)..]);
    } else {
      EveryHashOpensIsSafe(ts[1..]);
    }
  }

  const TRON_ONLY: Tokens := [Ident("tron_sol")]

  const TRON_ATTR: Tokens := [Punct('#'), Group(Bracket, TRON_ONLY)]

  lemma StripPlain(tok: Token, rest: Tokens)
    requires !tok.Group? && AttrLength([tok] + rest) == 0
    ensures Strip([tok] + rest) == [tok] + Strip(rest)
  {
    assert ([tok] + rest)[1..] == rest;
  }

  lemma StripDropped(rest: Tokens)
    ensures Strip(TRON_ATTR + rest) == Strip(rest)
    ensures Parse(TRON_ATTR + rest) == [Attr(false, TRON_ONLY)] + Parse(rest)
  {
    var ts := TRON_ATTR + rest;
    assert AttrLength(ts) == 2 && ts[2..] == rest && ts[1].body == TRON_ONLY;
    assert [] + Strip(rest) == Strip(rest);
  }

  lemma StripLoneGroup()
    ensures Strip([Group(Bracket, TRON_ONLY)]) == [Group(Bracket, TRON_ONLY)]
  {
    assert TRON_ONLY == [Ident("tron_sol")] + [];
    StripPlain(Ident("tron_sol"), []);
    assert [Group(Bracket, TRON_ONLY)][1..] == [];
  }

  /** Elsewhere it can go wrong: removing an attribute lets a stray `#` open the next bracket
      group, and a `tron_sol` attribute comes out that a second pass removes. */
  lemma StrayHashCounterexample()
    ensures var ts := [Punct('#')] + TRON_ATTR + [Group(Bracket, TRON_ONLY)];
            !SafeToStrip(ts) && Strip(ts) == TRON_ATTR && Strip(TRON_ATTR) == [] && !Clean(Parse(Strip(ts)))
  {
    var last := [Group(Bracket, TRON_ONLY)];
    var ts := [Punct('#')] + TRON_ATTR + last;
    assert ts == [Punct('#')] + (TRON_ATTR + last);
    StripPlain(Punct('#'), TRON_ATTR + last);
    StripDropped(last);
    StripLoneGroup();
    assert [Punct('#')] + last == TRON_ATTR;
    StripDropped([]);
    assert TRON_ATTR + [] == TRON_ATTR;
    assert [Attr(false, TRON_ONLY)] + Parse([]) == [Attr(false, TRON_ONLY)];
    assert !Clean([Attr(false, TRON_ONLY)]);
    if SafeToStrip(ts) {
      StripRemovesExactlyTron(ts);
    }
  }
}
