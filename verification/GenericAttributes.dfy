/**
 Generic attributes: their one-line form, their order and de-duplication on the server, and the
 splitter that takes the line apart when an attribute certificate is written
 (src/include/dbwrap.h:60-71, src/server/attribute.cc:28-41, src/server/vomsd.cc:983-988,
 src/ac/write.c:182-235).
 */
module GenericAttributes {
  import opened Options
  import opened Sequences
  import opened Strings
  import opened Ordering

  datatype GAttrib = GAttrib(name: string, qualifier: string, value: string)

  function Str(g: GAttrib): string {
    (if g.qualifier == "" then "" else g.qualifier) + "::" + g.name + "=" + g.value
  }

  // ----- the line determines the attribute

  predicate WellFormed(g: GAttrib) {
    ':' !in g.qualifier && '=' !in g.name
  }

  lemma {:induction false} LineParts(g: GAttrib)
    requires WellFormed(g)
    ensures IndexOfChar(Str(g), ':') == |g.qualifier| && |Str(g)| >= |g.qualifier| + 2
    ensures Str(g)[..|g.qualifier|] == g.qualifier
    ensures Str(g)[|g.qualifier| + 2..] == g.name + "=" + g.value
    ensures IndexOfChar(g.name + "=" + g.value, '=') == |g.name|
  {
    IndexOfCharIs(Str(g), ':', |g.qualifier|);
    IndexOfCharIs(g.name + "=" + g.value, '=', |g.name|);
  }

  /** Two well-formed attributes with the same line are the same. */
  lemma {:induction false} StrInjective(a: GAttrib, b: GAttrib)
    requires WellFormed(a) && WellFormed(b) && Str(a) == Str(b)
    ensures a == b
  {
    LineParts(a);
    LineParts(b);
    var s, t := a.name + "=" + a.value, b.name + "=" + b.value;
    assert s[..|a.name|] == a.name && s[|a.name| + 1..] == a.value;
    assert t[..|b.name|] == b.name && t[|b.name| + 1..] == b.value;
  }

  // ----- removing duplicates

  /** What std::sort leaves: sorted by line, attributes with the same line in any order. */
  ghost predicate IsSortOfAttributes(v: seq<GAttrib>, r: seq<GAttrib>) {
    multiset(r) == multiset(v) && forall i, j :: 0 <= i < j < |r| ==> LexLeq(Str(r[i]), Str(r[j]))
  }

  /** An attribute that is there twice, and another one with the same line. */
  ghost predicate HasClash(v: seq<GAttrib>) {
    exists i, j, k :: 0 <= i < j < |v| && 0 <= k < |v| && v[i] == v[j] && Str(v[k]) == Str(v[i]) && v[k] != v[i]
  }

  lemma {:induction false} LexLeqReflexive(s: string)
    ensures LexLeq(s, s)
  {
    if s != "" {
      LexLeqReflexive(s[1..]);
    }
  }

  lemma {:induction false} LexLeqTotal(a: string, b: string)
    ensures LexLeq(a, b) || LexLeq(b, a)
  {
    if a != "" && b != "" {
      LexLeqTotal(a[1..], b[1..]);
    }
  }

  lemma {:induction false} LexLeqTransitive(a: string, b: string, c: string)
    requires LexLeq(a, b) && LexLeq(b, c)
    ensures LexLeq(a, c)
  {
    if a != "" {
      if a[0] == b[0] == c[0] {
        LexLeqTransitive(a[1..], b[1..], c[1..]);
      }
    }
  }

  // ----- no clash, no duplicate

  lemma {:induction false} TwoPlaces<T>(s: seq<T>, x: T) returns (i: nat, j: nat)
    requires multiset(s)[x] >= 2
    ensures i < j < |s| && s[i] == x && s[j] == x
  {
    assert x in multiset(s);
    i := FirstIndex(s, x);
    var rest := s[i + 1..];
    assert s == s[..i] + [s[i]] + rest;
    assert x !in s[..i] && x in multiset(rest);
    j := i + 1 + FirstIndex(rest, x);
  }

  /** Without a clash, sorting by line and dropping equal neighbours leaves every attribute
      exactly once. */
  lemma {:induction false} AttributesComeOnce(v: seq<GAttrib>, sorted: seq<GAttrib>)
    requires !HasClash(v) && IsSortOfAttributes(v, sorted)
    ensures NoDuplicates(Unique(sorted))
    ensures forall g :: g in Unique(sorted) <==> g in v
  {
    hide Str;
    SameElements(sorted, v);
    forall i, j, k | 0 <= i <= j <= k < |sorted| && sorted[i] == sorted[k] ensures sorted[i] == sorted[j] {
      if i < j < k {
        LexLeqAntisymmetric(Str(sorted[i]), Str(sorted[j]));
        TwiceThere(sorted, i, k);
        var a, b := TwoPlaces(v, sorted[i]);
        assert sorted[j] in v;
        var c :| 0 <= c < |v| && v[c] == sorted[j];
        assert !(v[a] == v[b] && Str(v[c]) == Str(v[a]) && v[c] != v[a]);
      }
    }
    UniqueOfGrouped(sorted);
  }

  // ----- with a clash, some sort leaves a duplicate

  /** Where attributes with this line may stand in a sorted list. */
  function Place(s: seq<GAttrib>, line: string): (p: nat)
    ensures p <= |s| && forall i :: 0 <= i < p ==> !LexLeq(line, Str(s[i]))
    ensures p < |s| ==> LexLeq(line, Str(s[p]))
  {
    if s == [] || LexLeq(line, Str(s[0])) then 0 else 1 + Place(s[1..], line)
  }

  ghost predicate IsSorted(s: seq<GAttrib>) {
    forall i, j :: 0 <= i < j < |s| ==> LexLeq(Str(s[i]), Str(s[j]))
  }

  function Spliced(s: seq<GAttrib>, xs: seq<GAttrib>, line: string): seq<GAttrib> {
    var p := Place(s, line);
    s[..p] + xs + s[p..]
  }

  lemma {:induction false} SortedAppend(a: seq<GAttrib>, b: seq<GAttrib>)
    requires IsSorted(a) && IsSorted(b)
    requires forall i, j :: 0 <= i < |a| && 0 <= j < |b| ==> LexLeq(Str(a[i]), Str(b[j]))
    ensures IsSorted(a + b)
  {
    hide Str, LexLeq;
  }

  /** Everything in front of the place is at most the line, everything behind it at least. */
  lemma {:induction false} PlaceFits(s: seq<GAttrib>, line: string)
    requires IsSorted(s)
    ensures var p := Place(s, line);
      && (forall i :: 0 <= i < p ==> LexLeq(Str(s[i]), line))
      && (forall i :: p <= i < |s| ==> LexLeq(line, Str(s[i])))
  {
    hide Str, LexLeq;
    var p := Place(s, line);
    forall i | 0 <= i < p ensures LexLeq(Str(s[i]), line) {
      LexLeqTotal(line, Str(s[i]));
    }
    forall i | p <= i < |s| ensures LexLeq(line, Str(s[i])) {
      if p < i {
        LexLeqTransitive(line, Str(s[p]), Str(s[i]));
      }
    }
  }

  lemma {:induction false} SplicedIsSorted(s: seq<GAttrib>, xs: seq<GAttrib>, line: string)
    requires IsSorted(s) && forall i :: 0 <= i < |xs| ==> Str(xs[i]) == line
    ensures IsSorted(Spliced(s, xs, line)) && multiset(Spliced(s, xs, line)) == multiset(s) + multiset(xs)
  {
    hide Str, LexLeq, Place;
    var p := Place(s, line);
    var a, b := s[..p], s[p..];
    assert s == a + b;
    LexLeqReflexive(line);
    PlaceFits(s, line);
    assert IsSorted(a) && IsSorted(b) && IsSorted(xs);
    SortedAppend(a, xs);
    forall i, j | 0 <= i < |a + xs| && 0 <= j < |b| ensures LexLeq(Str((a + xs)[i]), Str(b[j])) {
      LexLeqTransitive(Str((a + xs)[i]), line, Str(b[j]));
    }
    SortedAppend(a + xs, b);
  }

  lemma {:induction false} SortExists(v: seq<GAttrib>) returns (sorted: seq<GAttrib>)
    ensures IsSortOfAttributes(v, sorted)
  {
    if v == [] {
      sorted := [];
    } else {
      var rest := SortExists(v[1..]);
      SplicedIsSorted(rest, [v[0]], Str(v[0]));
      sorted := Spliced(rest, [v[0]], Str(v[0]));
      assert v == [v[0]] + v[1..];
    }
  }

  lemma {:induction false} UniqueStep<T(!new)>(s: seq<T>)
    ensures |s| <= 1 ==> Unique(s) == s
    ensures |s| > 1 ==> Unique(s) == (if s[0] == s[1] then [] else [s[0]]) + Unique(s[1..])
  {
  }

  /** Between unequal neighbours, unique falls apart. */
  lemma {:induction false} UniqueFallsApart<T(!new)>(s: seq<T>, n: nat)
    requires 0 < n < |s| && s[n - 1] != s[n]
    ensures Unique(s) == Unique(s[..n]) + Unique(s[n..])
  {
    hide Unique;
    var front, back := s[..n], s[n..];
    UniqueStep(s);
    UniqueStep(front);
    if n == 1 {
      assert front == [s[0]] && s[1..] == back;
    } else {
      var first := if s[0] == s[1] then [] else [s[0]];
      UniqueFallsApart(s[1..], n - 1);
      assert s[1..][..n - 1] == front[1..] && s[1..][n - 1..] == back;
      AppendAssoc(first, Unique(front[1..]), Unique(back));
    }
  }

  lemma {:induction false} SeparatedTwinsSurvive(s: seq<GAttrib>, n: nat)
    requires 0 < n && n + 1 < |s| && s[n - 1] == s[n + 1] && s[n - 1] != s[n]
    ensures !NoDuplicates(Unique(s))
  {
    var front, back, tail := s[..n], s[n..], s[n + 1..];
    UniqueFallsApart(s, n);
    UniqueFallsApart(back, 1);
    assert back[1..] == tail && back[..1] == [s[n]];
    assert front[n - 1] in Unique(front) && tail[0] in Unique(tail);
    var i :| 0 <= i < |Unique(front)| && Unique(front)[i] == s[n - 1];
    var j :| 0 <= j < |Unique(tail)| && Unique(tail)[j] == s[n - 1];
    var r := Unique(s);
    assert r == Unique(front) + (Unique([s[n]]) + Unique(tail));
    assert r[i] == r[|Unique(front)| + |Unique([s[n]])| + j];
  }

  lemma {:induction false} TakeOut<T>(s: seq<T>, x: T) returns (r: seq<T>)
    requires multiset(s)[x] > 0
    ensures forall y :: multiset(r)[y] == multiset(s)[y] - if y == x then 1 else 0
  {
    assert x in multiset(s);
    var i := FirstIndex(s, x);
    r := s[..i] + s[i + 1..];
    assert s == s[..i] + [x] + s[i + 1..];
  }

  lemma {:induction false} TakeOutThree<T>(v: seq<T>, i: nat, j: nat, k: nat) returns (others: seq<T>)
    requires i < j < |v| && k < |v| && v[i] == v[j] && v[k] != v[i]
    ensures multiset(others) + multiset([v[i], v[k], v[i]]) == multiset(v)
  {
    var x, y := v[i], v[k];
    TwiceThere(v, i, j);
    assert y in multiset(v);
    var one := TakeOut(v, x);
    var two := TakeOut(one, x);
    others := TakeOut(two, y);
    assert multiset([x, y, x]) == multiset{x, y, x};
  }

  lemma {:induction false} TwiceThere<T>(v: seq<T>, i: nat, j: nat)
    requires i < j < |v| && v[i] == v[j]
    ensures multiset(v)[v[i]] >= 2
  {
    assert v == v[..i] + [v[i]] + v[i + 1..j] + [v[j]] + v[j + 1..];
  }

  /** The twins go around the other attribute. */
  lemma {:induction false} TwinsApart(rest: seq<GAttrib>, a: GAttrib, b: GAttrib) returns (sorted: seq<GAttrib>)
    requires IsSorted(rest) && Str(a) == Str(b) && a != b
    ensures IsSorted(sorted) && multiset(sorted) == multiset(rest) + multiset([a, b, a])
    ensures !NoDuplicates(Unique(sorted))
  {
    hide Str, IsSorted, NoDuplicates, Unique;
    SplicedIsSorted(rest, [a, b, a], Str(a));
    sorted := Spliced(rest, [a, b, a], Str(a));
    var p := Place(rest, Str(a));
    assert sorted[p] == a && sorted[p + 1] == b && sorted[p + 2] == a;
    SeparatedTwinsSurvive(sorted, p + 1);
  }

  lemma {:induction false} ClashLeavesDuplicate(v: seq<GAttrib>) returns (sorted: seq<GAttrib>)
    requires HasClash(v)
    ensures IsSortOfAttributes(v, sorted) && !NoDuplicates(Unique(sorted))
  {
    hide Str, LexLeq, Unique, NoDuplicates;
    var i, j, k :| 0 <= i < j < |v| && 0 <= k < |v| && v[i] == v[j] && Str(v[k]) == Str(v[i]) && v[k] != v[i];
    var others := TakeOutThree(v, i, j, k);
    var rest := SortExists(others);
    sorted := TwinsApart(rest, v[i], v[k]);
  }

  /** Whatever order the sort gives to attributes with the same line, no duplicate survives if
      and only if none of the attributes that are there twice shares its line with another. */
  lemma {:induction false} DuplicatesGoIff(v: seq<GAttrib>)
    ensures (forall sorted :: IsSortOfAttributes(v, sorted) ==> NoDuplicates(Unique(sorted))) <==> !HasClash(v)
  {
    hide HasClash, IsSortOfAttributes, NoDuplicates, Unique;
    if HasClash(v) {
      var sorted := ClashLeavesDuplicate(v);
    } else {
      forall sorted | IsSortOfAttributes(v, sorted) ensures NoDuplicates(Unique(sorted)) {
        AttributesComeOnce(v, sorted);
      }
    }
  }

  /** Attributes with ':'-free qualifiers and '='-free names never clash, and so come once. */
  lemma {:induction false} WellFormedComeOnce(v: seq<GAttrib>, sorted: seq<GAttrib>)
    requires (forall i :: 0 <= i < |v| ==> WellFormed(v[i])) && IsSortOfAttributes(v, sorted)
    ensures !HasClash(v)
    ensures NoDuplicates(Unique(sorted)) && forall g :: g in Unique(sorted) <==> g in v
  {
    hide Str, WellFormed;
    forall i, k | 0 <= i < |v| && 0 <= k < |v| && Str(v[k]) == Str(v[i]) ensures v[k] == v[i] {
      StrInjective(v[k], v[i]);
    }
    AttributesComeOnce(v, sorted);
  }

  /** A clash: two attributes that are both written "a::b::c=v". */
  lemma {:induction false} DuplicateMaySurvive()
    ensures var a, b := GAttrib("c", "a::b", "v"), GAttrib("b::c", "a", "v");
      && HasClash([a, a, b])
      && exists sorted :: IsSortOfAttributes([a, a, b], sorted) && !NoDuplicates(Unique(sorted))
  {
    var a, b := GAttrib("c", "a::b", "v"), GAttrib("b::c", "a", "v");
    var v := [a, a, b];
    assert Str(a) == "a::b::c=v" == Str(b);
    assert v[0] == v[1] && Str(v[2]) == Str(v[0]) && v[2] != v[0];
    var sorted := ClashLeavesDuplicate(v);
  }

  // ----- taking the line apart

  datatype Parts = Parts(qualifier: string, name: string, value: string)

  /** The splitter of `writeac`; `vo` stands in for a missing qualifier. None is its error for
      a line without '='. */
  function SplitLine(line: string, vo: string): Option<Parts>
    requires Find(line, "::").Some?
  {
    var i := Find(line, "::").value;
    var rest := line[i + 2..];
    var j := IndexOfChar(rest, '=');
    if j == |rest| then None
    else Some(Parts(if i == 0 then vo else line[..i], rest[..j], rest[j + 1..]))
  }

  /** The first "::" of a line is the one behind the qualifier unless the qualifier, with a
      colon after it, has one itself. */
  lemma {:induction false} FirstColons(g: GAttrib)
    ensures Find(Str(g), "::").Some? && Find(Str(g), "::").value <= |g.qualifier|
    ensures Find(Str(g), "::").value == |g.qualifier| <==> Find(g.qualifier + ":", "::").None?
  {
    var s, q := Str(g), g.qualifier + ":";
    assert s[|g.qualifier|..] == "::" + g.name + "=" + g.value;
    assert OccursAt(s, "::", |g.qualifier|);
    forall j: nat ensures OccursAt(q, "::", j) <==> j < |g.qualifier| && OccursAt(s, "::", j) {
      if j < |g.qualifier| {
        assert s[j..][0] == q[j..][0] && s[j..][1] == q[j..][1];
      } else {
        NotThere(q, "::", j, 1);
      }
    }
  }

  lemma {:induction false} FirstEquals(name: string, value: string)
    ensures IndexOfChar(name + "=" + value, '=') == |name| <==> '=' !in name
    ensures IndexOfChar(name + "=" + value, '=') <= |name|
  {
    var s := name + "=" + value;
    assert s[|name|] == '=' && forall k :: 0 <= k < |name| ==> s[k] == name[k];
  }

  /** The splitter gives back qualifier (or the VO for none), name and value just when the
      separators it looks for first are the right ones. */
  lemma {:induction false} SplitLineRecoversIff(g: GAttrib, vo: string)
    ensures Find(Str(g), "::").Some?
    ensures SplitLine(Str(g), vo) == Some(Parts(if g.qualifier == "" then vo else g.qualifier, g.name, g.value))
            <==> Find(g.qualifier + ":", "::").None? && '=' !in g.name
  {
    hide Find, IndexOfChar;
    FirstColons(g);
    FirstEquals(g.name, g.value);
    var s := Str(g);
    var i := Find(s, "::").value;
    var rest := s[i + 2..];
    var j := IndexOfChar(rest, '=');
    assert |rest| == |g.qualifier| - i + |g.name| + 1 + |g.value|;
    if i == |g.qualifier| {
      assert s[..i] == g.qualifier && rest == g.name + "=" + g.value;
      assert rest[..|g.name|] == g.name && rest[|g.name| + 1..] == g.value;
    }
  }

  /** The server's own lines are never refused. */
  lemma {:induction false} SplitLineWorks(g: GAttrib, vo: string)
    ensures Find(Str(g), "::").Some? && SplitLine(Str(g), vo).Some?
  {
    hide Find;
    FirstColons(g);
    var s := Str(g);
    var rest := s[Find(s, "::").value + 2..];
    assert s[|g.qualifier| + 2 + |g.name|] == '=';
    assert rest[|g.qualifier| + |g.name| - Find(s, "::").value] == '=';
  }

  /** What the splitter makes of any line: an error exactly without '=' behind the first "::", and
      otherwise the texts around the first "::" and the first '=' behind it. */
  lemma {:induction false} LineIsSplit(q: string, name: string, value: string, vo: string)
    requires forall j: nat :: j < |q| ==> !OccursAt(q + "::" + name, "::", j)
    requires '=' !in name
    ensures Find(q + "::" + name, "::").Some? && SplitLine(q + "::" + name, vo) == None
    ensures Find(q + "::" + name + "=" + value, "::").Some?
    ensures SplitLine(q + "::" + name + "=" + value, vo) == Some(Parts(if q == "" then vo else q, name, value))
  {
    hide Find, IndexOfChar;
    FirstColonsAt(q, name, "");
    assert name + "" == name && q + "::" + name + "" == q + "::" + name;
    IndexOfCharIs(name, '=', |name|);
    FirstColonsAt(q, name, "=" + value);
    assert q + "::" + name + ("=" + value) == q + "::" + name + "=" + value;
    assert name + ("=" + value) == name + "=" + value;
    FirstEquals(name, value);
    assert (name + "=" + value)[..|name|] == name && (name + "=" + value)[|name| + 1..] == value;
  }

  lemma {:induction false} FirstColonsAt(q: string, name: string, tail: string)
    requires forall j: nat :: j < |q| ==> !OccursAt(q + "::" + name, "::", j)
    ensures var s := q + "::" + name + tail;
      Find(s, "::") == Some(|q|) && s[..|q|] == q && s[|q| + 2..] == name + tail
  {
    var s, s' := q + "::" + name + tail, q + "::" + name;
    assert s[|q|..] == "::" + (name + tail);
    assert s[|q|..][..2] == "::";
    forall j: nat | j < |q| ensures !OccursAt(s, "::", j) {
      assert !OccursAt(s', "::", j);
      assert s'[j..][..2] == [s'[j], s'[j + 1]] && s[j] == s'[j] && s[j + 1] == s'[j + 1];
      NotThere(s, "::", j, if s[j] != ':' then 0 else 1);
    }
    FindIs(s, "::", |q|);
  }
}
