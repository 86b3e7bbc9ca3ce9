/**
 Ordering and de-duplication of the FQANs of an attribute certificate (src/server/vomsd.cc:215-285,
 972-1001, 1457-1471). std::sort and std::partial_sort are described by what they guarantee of
 their result, so every claim holds for any order they may leave open.
 */
module Ordering {
  import opened Options
  import opened Strings
  import Fqan

  type OrderMap = map<string, nat>

  // ----- sequences without repetitions

  predicate NoDuplicates<T(==)>(s: seq<T>) {
    forall i, j :: 0 <= i < j < |s| ==> s[i] != s[j]
  }

  function FirstIndex<T(==)>(s: seq<T>, x: T): (i: nat)
    requires x in s
    ensures i < |s| && s[i] == x && forall j :: 0 <= j < i ==> s[j] != x
  {
    if s[0] == x then 0 else 1 + FirstIndex(s[1..], x)
  }

  lemma {:induction false} FirstIndexIs<T>(s: seq<T>, x: T, i: nat)
    requires i < |s| && s[i] == x && forall j :: 0 <= j < i ==> s[j] != x
    ensures x in s && FirstIndex(s, x) == i
  {
  }

  lemma {:induction false} DistinctElements<T>(s: seq<T>, keys: set<T>)
    requires NoDuplicates(s) && forall i :: 0 <= i < |s| ==> s[i] in keys
    ensures |s| <= |keys|
  {
    if s != [] {
      DistinctElements(s[1..], keys - {s[0]});
    }
  }

  // ----- the requested order

  /** One entry of the order list: group:role stands for group/Role=role. */
  function Mention(attribute: string): string {
    var i := IndexOfChar(attribute, ':');
    if i == |attribute| then attribute else attribute[..i] + "/Role=" + attribute[i + 1..]
  }

  /** The FQANs mentioned by an order list, in order. */
  function Mentions(message: string): (r: seq<string>)
    ensures r != []
  {
    MentionsOf(Split(message, ','))
  }

  function MentionsOf(pieces: seq<string>): (r: seq<string>)
    ensures |r| == |pieces|
  {
    seq(|pieces|, i requires 0 <= i < |pieces| => Mention(pieces[i]))
  }

  /** The map ranks just the mentioned FQANs, each by its first mention. */
  ghost predicate Ranks(ordering: OrderMap, mentions: seq<string>) {
    && (forall f :: f in ordering <==> f in mentions)
    && (forall f :: f in ordering ==> ordering[f] == FirstIndex(mentions, f))
  }

  function FirstNonEmpty(mentions: seq<string>): (r: string)
    ensures r == "" ==> forall i :: 0 <= i < |mentions| ==> mentions[i] == ""
    ensures r != "" ==> r in mentions && forall j :: 0 <= j < FirstIndex(mentions, r) ==> mentions[j] == ""
  {
    if mentions == [] then "" else if mentions[0] != "" then mentions[0] else FirstNonEmpty(mentions[1..])
  }

  method ParseOrder(message: string) returns (first: string, ordering: OrderMap)
    ensures Ranks(ordering, Mentions(message))
    ensures first == FirstNonEmpty(Mentions(message))
  {
    hide Mention, Mentions, Ranks, FirstNonEmpty;
    NothingRanked();
    first, ordering := "", map[];
    var order, position, more := 0, 0, true;
    ghost var seen: seq<string> := [];
    while more
      invariant position <= |message|
      invariant if more then Mentions(message) == seen + Mentions(message[position..]) else Mentions(message) == seen
      invariant order == |seen| && Ranks(ordering, seen)
      invariant first == FirstNonEmpty(seen)
      decreases more, |message| - position
    {
      var rest := message[position..];
      var end := IndexOfChar(rest, ',');
      var attribute := rest[..end];
      var fqan := Mention(attribute);
      if first == "" {
        first := fqan;
      }
      FirstNonEmptySnoc(seen, fqan);
      RanksSnoc(ordering, seen, fqan);
      if fqan !in ordering {
        ordering := ordering[fqan := order];
      }
      order := order + 1;
      MentionsUnfold(rest);
      seen := seen + [fqan];
      if end < |rest| {
        assert rest[end + 1..] == message[position + end + 1..];
        position := position + end + 1;
      } else {
        more := false;
      }
    }
  }

  lemma {:induction false} NothingRanked()
    ensures Ranks(map[], []) && FirstNonEmpty([]) == ""
  {
  }

  lemma {:induction false} MentionsUnfold(rest: string)
    ensures var end := IndexOfChar(rest, ',');
      Mentions(rest) == [Mention(rest[..end])] + (if end < |rest| then Mentions(rest[end + 1..]) else [])
  {
    hide Mention, Split, MentionsOf;
    var end := IndexOfChar(rest, ',');
    SplitUnfold(rest, ',');
    if end < |rest| {
      MentionsOfCons(rest[..end], Split(rest[end + 1..], ','));
    } else {
      MentionsOfCons(rest, []);
      assert rest[..end] == rest && [rest] + [] == [rest];
    }
  }

  lemma {:induction false} MentionsOfCons(piece: string, pieces: seq<string>)
    ensures MentionsOf([piece] + pieces) == [Mention(piece)] + MentionsOf(pieces)
    ensures MentionsOf([]) == []
  {
  }

  lemma {:induction false} FirstNonEmptySnoc(seen: seq<string>, x: string)
    ensures FirstNonEmpty(seen + [x]) == if FirstNonEmpty(seen) == "" then x else FirstNonEmpty(seen)
  {
    if seen != [] {
      assert (seen + [x])[1..] == seen[1..] + [x];
      FirstNonEmptySnoc(seen[1..], x);
    }
  }

  lemma {:induction false} RanksSnoc(ordering: OrderMap, seen: seq<string>, x: string)
    requires Ranks(ordering, seen)
    ensures Ranks(if x in ordering then ordering else ordering[x := |seen|], seen + [x])
  {
    var s := seen + [x];
    forall f | f in seen ensures FirstIndex(s, f) == FirstIndex(seen, f) {
      FirstIndexIs(s, f, FirstIndex(seen, f));
    }
    if x !in seen {
      FirstIndexIs(s, x, |seen|);
    }
  }

  // ----- the comparison

  /** `compare`: ranked FQANs come first, by rank. */
  predicate Before(ordering: OrderMap, l: string, r: string) {
    if l !in ordering then false
    else if r !in ordering then true
    else ordering[l] < ordering[r]
  }

  /** The comparison is the strict weak order that the standard algorithms ask for. */
  lemma {:induction false} BeforeIsStrictWeakOrder(ordering: OrderMap, a: string, b: string, c: string)
    ensures !Before(ordering, a, a)
    ensures Before(ordering, a, b) && Before(ordering, b, c) ==> Before(ordering, a, c)
    ensures Before(ordering, a, c) ==> Before(ordering, a, b) || Before(ordering, b, c)
  {
  }

  /** What std::partial_sort(v, v + k, end) leaves: a permutation whose first k elements are
      in order and not behind any of the others. */
  ghost predicate PartiallySorted(v: seq<string>, r: seq<string>, k: nat, ordering: OrderMap) {
    && multiset(r) == multiset(v)
    && k <= |r|
    && (forall i, j :: 0 <= i < j < k ==> !Before(ordering, r[j], r[i]))
    && (forall i, j :: 0 <= i < k <= j < |r| ==> !Before(ordering, r[j], r[i]))
  }

  function SortSize(ordering: OrderMap, v: seq<string>): nat {
    if |ordering| < |v| then |ordering| else |v|
  }

  /** The result of `orderattribs`. */
  ghost predicate Ordered(v: seq<string>, r: seq<string>, ordering: OrderMap) {
    PartiallySorted(v, r, SortSize(ordering, v), ordering)
  }

  // ----- removing duplicates

  predicate LexLeq(a: string, b: string) {
    if a == "" then true
    else if b == "" then false
    else a[0] < b[0] || (a[0] == b[0] && LexLeq(a[1..], b[1..]))
  }

  lemma {:induction false} LexLeqAntisymmetric(a: string, b: string)
    requires LexLeq(a, b) && LexLeq(b, a)
    ensures a == b
  {
    if a != "" {
      LexLeqAntisymmetric(a[1..], b[1..]);
      assert a == [a[0]] + a[1..] && b == [b[0]] + b[1..];
    }
  }

  /** What std::sort leaves. */
  ghost predicate IsSortOf(v: seq<string>, r: seq<string>) {
    multiset(r) == multiset(v) && forall i, j :: 0 <= i < j < |r| ==> LexLeq(r[i], r[j])
  }

  /** std::unique: drops each element equal to the one kept before it. */
  function Unique<T(==,!new)>(s: seq<T>): (r: seq<T>)
    ensures s != [] ==> r != [] && r[0] == s[0]
    ensures forall x :: x in r <==> x in s
  {
    if |s| <= 1 then s
    else
      assert s == [s[0]] + s[1..];
      if s[0] == s[1] then Unique(s[1..]) else [s[0]] + Unique(s[1..])
  }

  /** Equal elements stand together. */
  ghost predicate Grouped<T(!new)>(s: seq<T>) {
    forall i, j, k :: 0 <= i <= j <= k < |s| && s[i] == s[k] ==> s[i] == s[j]
  }

  lemma {:induction false} UniqueOfGrouped<T(!new)>(s: seq<T>)
    requires Grouped(s)
    ensures NoDuplicates(Unique(s))
  {
    if |s| > 1 {
      assert forall i :: 0 <= i < |s| - 1 ==> s[1..][i] == s[i + 1];
      UniqueOfGrouped(s[1..]);
      assert forall k :: 1 <= k < |s| && s[k] == s[0] ==> s[1] == s[0];
      assert s[0] in s[1..] ==> s[1] == s[0];
    }
  }

  /** Sorting and dropping neighbours leaves each FQAN once. */
  lemma {:induction false} SortedUnique(v: seq<string>, sorted: seq<string>)
    requires IsSortOf(v, sorted)
    ensures NoDuplicates(Unique(sorted))
    ensures forall f :: f in Unique(sorted) <==> f in v
  {
    forall i, j, k | 0 <= i <= j <= k < |sorted| && sorted[i] == sorted[k] ensures sorted[i] == sorted[j] {
      if i < j < k {
        LexLeqAntisymmetric(sorted[i], sorted[j]);
      }
    }
    UniqueOfGrouped(sorted);
    SameElements(sorted, v);
  }

  lemma {:induction false} SameElements<T>(a: seq<T>, b: seq<T>)
    requires multiset(a) == multiset(b)
    ensures |a| == |b| && forall x :: x in a <==> x in b
  {
    assert |multiset(a)| == |multiset(b)|;
    forall x ensures x in a <==> x in b {
      assert x in a <==> x in multiset(a);
      assert x in b <==> x in multiset(b);
    }
  }

  lemma {:induction false} PermutationNoDuplicates<T>(a: seq<T>, b: seq<T>)
    requires multiset(a) == multiset(b) && NoDuplicates(a)
    ensures NoDuplicates(b)
  {
    forall i, j | 0 <= i < j < |b| ensures b[i] != b[j] {
      if b[i] == b[j] {
        assert b == b[..i] + [b[i]] + b[i + 1..j] + [b[j]] + b[j + 1..];
        assert multiset(a)[b[i]] >= 2;
        CountAtMostOne(a, b[i]);
      }
    }
  }

  lemma {:induction false} CountAtMostOne<T>(a: seq<T>, x: T)
    requires NoDuplicates(a)
    ensures multiset(a)[x] <= 1
  {
    if a != [] {
      CountAtMostOne(a[1..], x);
      assert a == [a[0]] + a[1..];
      if a[0] == x {
        assert x !in a[1..];
      }
    }
  }

  // ----- what the user gets

  /** Mentioned FQANs precede all others, in the order of their first mention. */
  ghost predicate InRequestedOrder(r: seq<string>, mentions: seq<string>) {
    forall i, j :: 0 <= i < j < |r| && r[j] in mentions ==>
      r[i] in mentions && FirstIndex(mentions, r[i]) < FirstIndex(mentions, r[j])
  }

  /** The part that is really sorted covers every ranked FQAN. */
  lemma {:induction false} SortedPartCovers(v: seq<string>, r: seq<string>, ordering: OrderMap, j: nat)
    requires NoDuplicates(v) && Ordered(v, r, ordering)
    requires j < |r| && r[j] in ordering
    ensures j < SortSize(ordering, v)
  {
    var k := SortSize(ordering, v);
    PermutationNoDuplicates(v, r);
    SameElements(r, v);
    if j >= k {
      var ranked := r[..k] + [r[j]];
      forall i | 0 <= i < |ranked| ensures ranked[i] in ordering.Keys {
        if i < k {
          assert !Before(ordering, r[j], r[i]);
        }
      }
      DistinctElements(ranked, ordering.Keys);
    }
  }

  lemma {:induction false} OrderingKeepsElements(v: seq<string>, r: seq<string>, ordering: OrderMap,
                                                 mentions: seq<string>)
    requires NoDuplicates(v) && Ranks(ordering, mentions) && Ordered(v, r, ordering)
    ensures InRequestedOrder(r, mentions)
  {
    PermutationNoDuplicates(v, r);
    SameElements(r, v);
    forall i, j | 0 <= i < j < |r| && r[j] in mentions
      ensures r[i] in mentions && FirstIndex(mentions, r[i]) < FirstIndex(mentions, r[j])
    {
      SortedPartCovers(v, r, ordering, j);
      assert !Before(ordering, r[j], r[i]);
    }
  }

  /** Whatever the sorting algorithms leave open: the FQANs retrieved for the user come out
      each once, none lost and none added, and in the requested order. */
  lemma {:induction false} FqansComeOrdered(fqans: seq<string>, sorted: seq<string>, r: seq<string>,
                                            ordering: OrderMap, mentions: seq<string>)
    requires IsSortOf(fqans, sorted)
    requires Ranks(ordering, mentions) && Ordered(Unique(sorted), r, ordering)
    ensures NoDuplicates(r)
    ensures forall f :: f in r <==> f in fqans
    ensures InRequestedOrder(r, mentions)
  {
    SortedUnique(fqans, sorted);
    PermutationNoDuplicates(Unique(sorted), r);
    SameElements(r, Unique(sorted));
    OrderingKeepsElements(Unique(sorted), r, ordering, mentions);
  }

  /** The server warns that the first FQAN is not the first one selected. */
  predicate WarnsNotFirst(r: seq<string>, first: string) {
    first != "" && r != [] && r[0] != first
  }

  /** The warning is given just when the first FQAN asked for is missing from the answer, or
      when an empty FQAN was asked for before it and is there. */
  lemma {:induction false} WarningIff(r: seq<string>, mentions: seq<string>)
    requires NoDuplicates(r) && InRequestedOrder(r, mentions)
    ensures var first := FirstNonEmpty(mentions);
      WarnsNotFirst(r, first) <==>
        && first != "" && r != []
        && (first !in r
            || ("" in r && "" in mentions && FirstIndex(mentions, "") < FirstIndex(mentions, first)))
  {
    var first := FirstNonEmpty(mentions);
    if first != "" && r != [] && first in r {
      var j :| 0 <= j < |r| && r[j] == first;
      if j > 0 {
        assert r[0] in mentions && FirstIndex(mentions, r[0]) < FirstIndex(mentions, first);
        assert r[0] == "";
      } else if "" in r && "" in mentions {
        var k :| 0 <= k < |r| && r[k] == "";
        assert FirstIndex(mentions, r[0]) < FirstIndex(mentions, r[k]);
      }
    }
  }

  /** Where no empty FQAN is released, the warning says just that the first one is missing. */
  lemma {:induction false} WarningMeansMissing(r: seq<string>, mentions: seq<string>)
    requires NoDuplicates(r) && InRequestedOrder(r, mentions) && "" !in r
    ensures var first := FirstNonEmpty(mentions);
      WarnsNotFirst(r, first) <==> first != "" && r != [] && first !in r
  {
    hide WarnsNotFirst;
    WarningIff(r, mentions);
  }

  /** An empty FQAN that was mentioned first and is there: the warning is given although the
      other one is there as well. */
  lemma {:induction false} EmptyFqanRaisesTheWarning()
    ensures var r := ["", "/vo"];
      && NoDuplicates(r) && InRequestedOrder(r, Mentions(",/vo"))
      && FirstNonEmpty(Mentions(",/vo")) in r && WarnsNotFirst(r, FirstNonEmpty(Mentions(",/vo")))
  {
    hide Mention;
    EmptyMention();
    IndexOfCharIs(",/vo", ',', 0);
    assert ",/vo"[..0] == "" && ",/vo"[1..] == "/vo";
    MentionsUnfold(",/vo");
    MentionsSingle("/vo");
    MentionWithoutColon("/vo");
    assert Mentions(",/vo") == ["", "/vo"];
    assert ["", "/vo"][1..] == ["/vo"];
  }

  lemma {:induction false} MentionWithoutColon(x: string)
    requires ':' !in x
    ensures Mention(x) == x
  {
    IndexOfCharIs(x, ':', |x|);
  }

  // ----- where the order comes from

  /** A client that states its order in FQANs mentions just these FQANs. */
  lemma {:induction false} ClientOrderIsMentioned(ws: seq<Fqan.Wish>, xs: seq<string>)
    requires ws != [] && |xs| == |ws|
    requires forall i :: 0 <= i < |ws| ==> Fqan.ValidWish(ws[i]) && !ws[i].All?
    requires forall i :: 0 <= i < |ws| ==> Fqan.FqanParse(Fqan.FqanOf(ws[i]), false) == Some(xs[i])
    ensures |Mentions(Join(xs, ','))| == |ws|
    ensures forall i :: 0 <= i < |ws| ==> Mentions(Join(xs, ','))[i] == Fqan.FqanOf(ws[i])
  {
    hide Fqan.FqanParse, Fqan.ValidWish, Mention, Fqan.FqanOf;
    forall i | 0 <= i < |ws| ensures ',' !in xs[i] && Mention(xs[i]) == Fqan.FqanOf(ws[i]) {
      PlainOrder(ws[i], xs[i]);
    }
    SplitOfJoin(xs, ',');
  }

  lemma {:induction false} PlainOrder(w: Fqan.Wish, x: string)
    requires Fqan.ValidWish(w) && !w.All? && Fqan.FqanParse(Fqan.FqanOf(w), false) == Some(x)
    ensures ',' !in x && Mention(x) == Fqan.FqanOf(w)
  {
    hide Find, IndexOfChar;
    match w {
      case Group(g) =>
        Fqan.AcceptableHasNo(g, '=');
        Fqan.AcceptableHasNo(g, ',');
        Fqan.AcceptableHasNo(g, ':');
        Fqan.NoEquals(g, "/Role=");
        Fqan.NoEquals(g, "/Capability=");
        IndexOfCharIs(g, ':', |g|);
      case GroupRole(g, r) =>
        Fqan.RoleFound(g, r);
        var s := g + "/Role=" + r;
        assert s[..|g|] == g && s[|g| + 6..] == r;
        assert x == g + ":" + r;
        PlainOrderOfRole(g, r);
    }
  }

  lemma {:induction false} PlainOrderOfRole(g: string, r: string)
    requires Fqan.Acceptable(g) && Fqan.Acceptable(r)
    ensures ',' !in g + ":" + r && Mention(g + ":" + r) == g + "/Role=" + r
  {
    hide IndexOfChar;
    var x := g + ":" + r;
    Fqan.AcceptableHasNo(g, ',');
    Fqan.AcceptableHasNo(r, ',');
    Fqan.AcceptableHasNo(g, ':');
    IndexOfCharIs(x, ':', |g|);
    assert x[..|g|] == g && x[|g| + 1..] == r;
  }

  /** `addtoorder`, by which the server builds an order list from the commands themselves. */
  function AddToOrder(previous: string, group: Option<string>, role: Option<string>): string {
    if group.None? && role.None? then previous
    else
      previous + (if previous == "" then "" else ",")
      + (if group.Some? then group.value else "")
      + (if role.Some? then "/Role=" + role.value else "")
  }

  /** The order list after these commands. */
  function DefaultOrder(ws: seq<Fqan.Wish>): string {
    if ws == [] then ""
    else
      var v := Fqan.Understood(ws[|ws| - 1]);
      AddToOrder(DefaultOrder(ws[..|ws| - 1]), v.group, v.role)
  }

  function NonEmpty(xs: seq<string>): seq<string> {
    if xs == [] then []
    else NonEmpty(xs[..|xs| - 1]) + (if xs[|xs| - 1] == "" then [] else [xs[|xs| - 1]])
  }

  function NamedFqans(ws: seq<Fqan.Wish>): seq<string> {
    if ws == [] then []
    else NamedFqans(ws[..|ws| - 1]) + (if ws[|ws| - 1].All? then [] else [Fqan.FqanOf(ws[|ws| - 1])])
  }

  lemma {:induction false} SplitSnoc(s: string, x: string, c: char)
    requires c !in x
    ensures Split(s + [c] + x, c) == Split(s, c) + [x]
    decreases |s|
  {
    hide Split;
    var i := IndexOfChar(s, c);
    var t := s + [c] + x;
    SplitUnfold(s, c);
    if i == |s| {
      SplitCons(s, x, c);
      SplitSingle(x, c);
      SplitSingle(s, c);
    } else {
      assert t == s[..i] + [c] + (s[i + 1..] + [c] + x);
      SplitCons(s[..i], s[i + 1..] + [c] + x, c);
      SplitSnoc(s[i + 1..], x, c);
    }
  }

  lemma {:induction false} MentionsSingle(x: string)
    requires ',' !in x
    ensures Mentions(x) == [Mention(x)]
  {
    SplitSingle(x, ',');
  }

  lemma {:induction false} MentionsSnoc(before: string, x: string)
    requires ',' !in x
    ensures Mentions(before + [','] + x) == Mentions(before) + [Mention(x)]
  {
    hide Mention;
    SplitSnoc(before, x, ',');
  }

  lemma {:induction false} NonEmptySnoc(xs: seq<string>, x: string)
    ensures NonEmpty(xs + [x]) == NonEmpty(xs) + (if x == "" then [] else [x])
  {
    assert (xs + [x])[..|xs|] == xs;
  }

  /** Without an order list, the FQANs are asked for in the order of the commands. */
  lemma {:induction false} DefaultOrderIsCommandOrder(ws: seq<Fqan.Wish>)
    requires forall i :: 0 <= i < |ws| ==> Fqan.ValidWish(ws[i])
    ensures NonEmpty(Mentions(DefaultOrder(ws))) == NamedFqans(ws)
  {
    hide Fqan.ValidWish, Mention, Mentions, Fqan.FqanOf, AddToOrder, Fqan.Understood;
    MentionsSingle("");
    EmptyMention();
    NonEmptySnoc([], "");
    if ws != [] {
      var w := ws[|ws| - 1];
      var before := DefaultOrder(ws[..|ws| - 1]);
      DefaultOrderIsCommandOrder(ws[..|ws| - 1]);
      MentionOfFqan(w);
      var x := if w.All? then "" else Fqan.FqanOf(w);
      AddToOrderStep(before, w);
      if before == "" {
        MentionsSingle(x);
        NonEmptySnoc([], x);
      } else {
        MentionsSnoc(before, x);
        NonEmptySnoc(Mentions(before), x);
      }
    }
  }

  lemma {:induction false} AddToOrderStep(before: string, w: Fqan.Wish)
    requires Fqan.ValidWish(w)
    ensures var v := Fqan.Understood(w);
      var x := if w.All? then "" else Fqan.FqanOf(w);
      AddToOrder(before, v.group, v.role) == if before == "" then x else before + [','] + x
  {
    hide Fqan.ValidWish;
    match w {
      case All =>
      case Group(g) =>
      case GroupRole(g, r) =>
        var role := "/Role=" + r;
        assert Fqan.FqanOf(w) == g + role;
        if before == "" {
          assert before + g + role == g + role;
        } else {
          assert before + [','] + g + role == before + [','] + (g + role);
        }
    }
  }

  lemma {:induction false} EmptyMention()
    ensures Mention("") == ""
  {
  }

  lemma {:induction false} MentionOfFqan(w: Fqan.Wish)
    requires Fqan.ValidWish(w)
    ensures var x := if w.All? then "" else Fqan.FqanOf(w);
      && ',' !in x && Mention(x) == x
      && (w.All? <==> x == "")
  {
    match w {
      case All =>
      case Group(g) =>
        Fqan.AcceptableHasNo(g, ',');
        Fqan.AcceptableHasNo(g, ':');
        IndexOfCharIs(g, ':', |g|);
      case GroupRole(g, r) =>
        var x := g + "/Role=" + r;
        Fqan.AcceptableHasNo(g, ',');
        Fqan.AcceptableHasNo(r, ',');
        Fqan.AcceptableHasNo(g, ':');
        Fqan.AcceptableHasNo(r, ':');
        IndexOfCharIs(x, ':', |x|);
    }
  }
}
