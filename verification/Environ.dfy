/**
 The replacement setenv and unsetenv (src/replib/setenv.c:75-185): an array of "name=value"
 strings ended by a null pointer, as a map from names to values.
 */
module Environ {
  import opened Options
  import opened Sequences
  import opened Strings

  // ----- the entries as a list

  function Entry(name: string, value: string): string {
    name + "=" + value
  }

  /** The test both functions make: the entry starts with the name and goes on with '='. */
  predicate Matches(entry: string, name: string) {
    name <= entry && |entry| > |name| && entry[|name|] == '='
  }

  /** What getenv finds. */
  function Get(es: seq<string>, name: string): Option<string> {
    if es == [] then None
    else if Matches(es[0], name) then Some(es[0][|name| + 1..])
    else Get(es[1..], name)
  }

  function FirstMatch(es: seq<string>, name: string): (i: nat)
    ensures i <= |es| && (i < |es| ==> Matches(es[i], name))
    ensures forall j :: 0 <= j < i ==> !Matches(es[j], name)
  {
    if es == [] || Matches(es[0], name) then 0 else 1 + FirstMatch(es[1..], name)
  }

  lemma {:induction false} FirstMatchIs(es: seq<string>, name: string, i: nat)
    requires i <= |es| && (forall j :: 0 <= j < i ==> !Matches(es[j], name)) && (i < |es| ==> Matches(es[i], name))
    ensures FirstMatch(es, name) == i
  {
  }

  function SetEntries(es: seq<string>, name: string, value: string, replace: bool): seq<string> {
    var i := FirstMatch(es, name);
    if i == |es| then es + [Entry(name, value)]
    else if replace then es[i := Entry(name, value)]
    else es
  }

  /** What the removing loop leaves: behind an entry it removes, it moves on past the entry that
      has come into its place without looking at it. */
  function UnsetEntries(es: seq<string>, name: string): seq<string> {
    if es == [] then []
    else if !Matches(es[0], name) then [es[0]] + UnsetEntries(es[1..], name)
    else if |es| == 1 then []
    else [es[1]] + UnsetEntries(es[2..], name)
  }

  // ----- the list as a map

  /** A name that an entry can have. */
  predicate IsName(name: string) {
    '=' !in name
  }

  lemma {:induction false} MatchesOneName(entry: string, m: string, n: string)
    requires IsName(m) && IsName(n) && Matches(entry, m) && Matches(entry, n)
    ensures m == n
  {
    IndexOfCharIs(entry, '=', |m|);
    IndexOfCharIs(entry, '=', |n|);
    assert entry[..|m|] == m && entry[..|n|] == n;
  }

  lemma {:induction false} EntryMatches(name: string, value: string, m: string)
    requires IsName(name) && IsName(m)
    ensures Matches(Entry(name, value), m) <==> m == name
    ensures Entry(name, value)[|name| + 1..] == value
  {
    assert Matches(Entry(name, value), name);
    if Matches(Entry(name, value), m) {
      MatchesOneName(Entry(name, value), m, name);
    }
  }

  /** An environment that starts with "m=v": the value of m is v, and that of any other name is
      found behind it. */
  lemma {:induction false} GetReadsEntries(es: seq<string>, m: string, v: string, name: string)
    requires IsName(m) && IsName(name)
    ensures Get([m + "=" + v] + es, name) == if name == m then Some(v) else Get(es, name)
  {
    EntryMatches(m, v, name);
    assert ([m + "=" + v] + es)[1..] == es;
  }

  lemma {:induction false} GetIsFirstMatch(es: seq<string>, name: string)
    ensures var i := FirstMatch(es, name);
      Get(es, name) == if i < |es| then Some(es[i][|name| + 1..]) else None
  {
    if es != [] && !Matches(es[0], name) {
      GetIsFirstMatch(es[1..], name);
    }
  }

  /** setenv gives the name its new value, unless it has one that is not to be replaced, and
      leaves every other name alone. */
  lemma {:induction false} SetRefinesMap(es: seq<string>, name: string, value: string, replace: bool, m: string)
    requires IsName(name) && IsName(m)
    ensures Get(SetEntries(es, name, value, replace), m)
         == if m == name && (replace || Get(es, name).None?) then Some(value) else Get(es, m)
  {
    var rs := SetEntries(es, name, value, replace);
    var i, k := FirstMatch(es, name), FirstMatch(es, m);
    EntryMatches(name, value, m);
    GetIsFirstMatch(es, name);
    GetIsFirstMatch(es, m);
    GetIsFirstMatch(rs, m);
    if m == name {
      FirstMatchIs(rs, m, i);
    } else {
      if i < |es| && k < |es| && i == k {
        MatchesOneName(es[i], m, name);
      }
      if i < |es| && Matches(es[i], m) {
        MatchesOneName(es[i], m, name);
      }
      FirstMatchIs(rs, m, if k < |es| then k else |rs|);
    }
  }

  /** unsetenv leaves every other name alone, whatever it does to this one. */
  lemma {:induction false} UnsetLeavesOthers(es: seq<string>, name: string, m: string)
    requires IsName(name) && IsName(m) && m != name
    ensures Get(UnsetEntries(es, name), m) == Get(es, m)
    decreases |es|
  {
    if es != [] {
      if !Matches(es[0], name) {
        UnsetLeavesOthers(es[1..], name, m);
      } else {
        if Matches(es[0], m) {
          MatchesOneName(es[0], m, name);
        }
        if |es| > 1 {
          UnsetLeavesOthers(es[2..], name, m);
          assert Get(es, m) == Get(es[1..], m) && es[1..][1..] == es[2..];
        }
      }
    }
  }

  /** No two neighbours both carry the name. */
  predicate NoNeighbours(es: seq<string>, name: string) {
    |es| <= 1 || (!(Matches(es[0], name) && Matches(es[1], name)) && NoNeighbours(es[1..], name))
  }

  /** unsetenv removes the name if and only if no two neighbouring entries carry it. */
  lemma {:induction false} UnsetRemovesIff(es: seq<string>, name: string)
    ensures Get(UnsetEntries(es, name), name).None? <==> NoNeighbours(es, name)
    decreases |es|
  {
    if |es| > 0 && !Matches(es[0], name) {
      UnsetRemovesIff(es[1..], name);
      assert UnsetEntries(es, name)[1..] == UnsetEntries(es[1..], name);
    } else if |es| > 1 {
      UnsetRemovesIff(es[2..], name);
      assert UnsetEntries(es, name)[1..] == UnsetEntries(es[2..], name);
      assert es[1..][1..] == es[2..];
    }
  }

  /** Two neighbours: one is left. */
  lemma {:induction false} SecondEntryStays()
    ensures Get(UnsetEntries(["A=1", "A=2"], "A"), "A") == Some("2")
  {
    assert "A=2"[2..] == "2";
  }

  /** The names in the environment are unique: no name has two entries. */
  ghost predicate UniqueNames(es: seq<string>) {
    forall i, j, n: string :: 0 <= i < j < |es| && IsName(n) && Matches(es[i], n) ==> !Matches(es[j], n)
  }

  lemma {:induction false} UniqueHasNoNeighbours(es: seq<string>, name: string)
    requires UniqueNames(es) && IsName(name)
    ensures NoNeighbours(es, name)
  {
    if |es| > 1 {
      assert Matches(es[0], name) ==> !Matches(es[1], name);
      forall i, j, n: string | 0 <= i < j < |es| - 1 && IsName(n) && Matches(es[1..][i], n)
        ensures !Matches(es[1..][j], n)
      {
        assert es[1..][i] == es[i + 1] && es[1..][j] == es[j + 1];
      }
      UniqueHasNoNeighbours(es[1..], name);
    }
  }

  lemma {:induction false} SetKeepsUnique(es: seq<string>, name: string, value: string, replace: bool)
    requires UniqueNames(es) && IsName(name)
    ensures UniqueNames(SetEntries(es, name, value, replace))
  {
    var k := FirstMatch(es, name);
    var rs := SetEntries(es, name, value, replace);
    forall i, j, n: string | 0 <= i < j < |rs| && IsName(n) && Matches(rs[i], n) ensures !Matches(rs[j], n) {
      EntryMatches(name, value, n);
    }
  }

  /** The entries left are among those there were, in order and without the name twice. */
  lemma {:induction false} UnsetKeepsUnique(es: seq<string>, name: string)
    requires UniqueNames(es)
    ensures UniqueNames(UnsetEntries(es, name))
    ensures forall e :: e in UnsetEntries(es, name) ==> e in es
    decreases |es|
  {
    if es != [] {
      var skip := if Matches(es[0], name) && |es| > 1 then 2 else 1;
      var tail := es[skip..];
      forall i, j, n: string | 0 <= i < j < |tail| && IsName(n) && Matches(tail[i], n) ensures !Matches(tail[j], n) {
        assert tail[i] == es[i + skip] && tail[j] == es[j + skip];
      }
      UnsetKeepsUnique(tail, name);
      var rs := UnsetEntries(es, name);
      if rs != [] && !(Matches(es[0], name) && |es| == 1) {
        assert rs[0] == es[skip - 1] && rs[1..] == UnsetEntries(tail, name);
        forall i, j, n: string | 0 <= i < j < |rs| && IsName(n) && Matches(rs[i], n) ensures !Matches(rs[j], n) {
          assert rs[j] == rs[1..][j - 1];
          if i == 0 {
            assert rs[1..][j - 1] in tail;
            var k :| 0 <= k < |tail| && tail[k] == rs[j];
            assert es[k + skip] == rs[j];
          } else {
            assert rs[i] == rs[1..][i - 1];
          }
        }
        forall e | e in rs ensures e in es {
          assert e == rs[0] || e in rs[1..];
        }
      }
    }
  }

  // ----- whole runs

  datatype Call = Set(name: string, value: string, replace: bool) | Unset(name: string)

  function Apply(es: seq<string>, c: Call): seq<string> {
    match c
    case Set(n, v, r) => SetEntries(es, n, v, r)
    case Unset(n) => UnsetEntries(es, n)
  }

  function Run(es: seq<string>, calls: seq<Call>): seq<string> {
    if calls == [] then es else Apply(Run(es, calls[..|calls| - 1]), calls[|calls| - 1])
  }

  /** The value of a name after the calls, when before them the environment gave it `start`. */
  function MapRun(start: Option<string>, calls: seq<Call>, name: string): Option<string> {
    if calls == [] then start
    else
      var before := MapRun(start, calls[..|calls| - 1], name);
      match calls[|calls| - 1]
      case Set(n, v, r) => if n == name && (r || before.None?) then Some(v) else before
      case Unset(n) => if n == name then None else before
  }

  /** Any run of calls refines a map from names to values, one name at a time, and keeps names
      unique. */
  lemma {:induction false} RunRefinesMap(es: seq<string>, calls: seq<Call>, name: string)
    requires UniqueNames(es) && IsName(name)
    requires forall i :: 0 <= i < |calls| ==> IsName(calls[i].name)
    ensures UniqueNames(Run(es, calls))
    ensures Get(Run(es, calls), name) == MapRun(Get(es, name), calls, name)
  {
    if calls != [] {
      var init := calls[..|calls| - 1];
      RunRefinesMap(es, init, name);
      var before := Run(es, init);
      match calls[|calls| - 1] {
        case Set(n, v, r) =>
          SetRefinesMap(before, n, v, r, name);
          SetKeepsUnique(before, n, v, r);
        case Unset(n) =>
          UnsetKeepsUnique(before, n);
          if n == name {
            UniqueHasNoNeighbours(before, n);
            UnsetRemovesIff(before, n);
          } else {
            UnsetLeavesOthers(before, n, name);
          }
      }
    }
  }

  // ----- the array

  /** The array holds n strings and then a null pointer. */
  predicate EndsAt(s: seq<Option<string>>, n: nat) {
    n < |s| && s[n].None? && forall i :: 0 <= i < n ==> s[i].Some?
  }

  /** The strings in front of the first null pointer. */
  function StringsIn(s: seq<Option<string>>): seq<string> {
    if s == [] || s[0].None? then [] else [s[0].value] + StringsIn(s[1..])
  }

  lemma {:induction false} StringsUpTo(s: seq<Option<string>>, n: nat)
    requires EndsAt(s, n)
    ensures |StringsIn(s)| == n && forall i :: 0 <= i < n ==> StringsIn(s)[i] == s[i].value
  {
    if n > 0 {
      StringsUpTo(s[1..], n - 1);
    }
  }

  lemma {:induction false} StringsAre(s: seq<Option<string>>, es: seq<string>)
    requires EndsAt(s, |es|) && forall i :: 0 <= i < |es| ==> s[i].value == es[i]
    ensures StringsIn(s) == es
  {
    StringsUpTo(s, |es|);
  }

  class Environment {
    var environ: array?<Option<string>>
    var lastEnviron: array?<Option<string>>

    /** The array, if there is one, ends in a null pointer. */
    ghost predicate Valid()
      reads this, environ
    {
      environ != null ==> exists n: nat :: EndsAt(environ[..], n)
    }

    ghost function Contents(): seq<string>
      reads this, environ
    {
      if environ == null then [] else StringsIn(environ[..])
    }

    method Realloc(block: array<Option<string>>, size: nat) returns (r: array<Option<string>>)
      ensures fresh(r) && r.Length == size
      ensures forall i :: 0 <= i < size && i < block.Length ==> r[i] == block[i]
    {
      r := new Option<string>[size](i reads block => if 0 <= i < block.Length then block[i] else None);
    }

    /** Adds an entry behind the `size` entries there are, in a new array. */
    method Append(size: nat, name: string, value: string)
      requires if environ == null then size == 0 else EndsAt(environ[..], size)
      modifies this
      ensures environ != null && fresh(environ) && lastEnviron == environ && EndsAt(environ[..], size + 1)
      ensures Contents() == old(Contents()) + [Entry(name, value)]
    {
      ghost var es := Contents();
      if environ != null {
        StringsUpTo(environ[..], size);
      }
      var newEnviron: array<Option<string>>;
      if environ == lastEnviron && environ != null {
        newEnviron := Realloc(lastEnviron, size + 2);
      } else {
        newEnviron := new Option<string>[size + 2](_ => None);
      }
      if environ != lastEnviron && environ != null {
        for i := 0 to size
          modifies newEnviron
          invariant forall j :: 0 <= j < i ==> newEnviron[j] == environ[j]
        {
          newEnviron[i] := environ[i];
        }
      }
      newEnviron[size] := Some(Entry(name, value));
      newEnviron[size + 1] := None;
      lastEnviron, environ := newEnviron, newEnviron;
      assert EndsAt(environ[..], |es| + 1);
      StringsAre(environ[..], es + [Entry(name, value)]);
    }

    method SetEnv(name: string, value: string, replace: bool)
      requires Valid()
      modifies this, environ
      ensures Valid()
      ensures Contents() == SetEntries(old(Contents()), name, value, replace)
    {
      hide SetEntries;
      ghost var es := Contents();
      var size, found := FindEntry(name);
      SetMeans(es, name, value, replace);
      if !found {
        Append(size, name, value);
      } else if replace {
        ghost var n: nat :| EndsAt(environ[..], n);
        StringsUpTo(environ[..], n);
        environ[size] := Some(Entry(name, value));
        assert EndsAt(environ[..], |es|);
        StringsAre(environ[..], es[size := Entry(name, value)]);
      }
    }

    /** The position of the first entry with the name, or of the null pointer. */
    method FindEntry(name: string) returns (size: nat, found: bool)
      requires Valid()
      ensures size == FirstMatch(Contents(), name)
      ensures found <==> size < |Contents()|
      ensures if environ == null then size == 0 else size < environ.Length && (found <==> environ[size].Some?)
      ensures environ != null && !found ==> EndsAt(environ[..], size)
    {
      size, found := 0, false;
      ghost var es := Contents();
      if environ != null {
        ghost var n: nat :| EndsAt(environ[..], n);
        StringsUpTo(environ[..], n);
        while environ[size].Some? && !Matches(environ[size].value, name)
          invariant size <= n
          invariant forall j :: 0 <= j < size ==> !Matches(es[j], name)
          decreases n - size
        {
          size := size + 1;
        }
        found := environ[size].Some?;
      }
      FirstMatchIs(es, name, size);
    }

    /** Moves the pointers behind i back by one, up to the null pointer. */
    method ShiftBack(i: nat, ghost all: seq<string>)
      requires environ != null && Holds(environ[..], all) && i < |all|
      modifies environ
      ensures Holds(environ[..], Without(all, i)) && environ[|all|].None?
    {
      var dp := i;
      environ[dp] := environ[dp + 1];
      while environ[dp].Some?
        invariant i <= dp < |all|
        invariant forall k :: 0 <= k < i || dp < k < environ.Length ==> environ[k] == old(environ[k])
        invariant forall k :: i <= k <= dp ==> environ[k] == old(environ[k + 1])
        decreases |all| - dp
      {
        dp := dp + 1;
        environ[dp] := environ[dp + 1];
      }
    }

    method UnsetEnv(name: string)
      requires Valid() && environ != null
      modifies environ
      ensures Valid()
      ensures Contents() == UnsetEntries(old(Contents()), name)
    {
      hide UnsetEntries, Holds, Passed, EndsAt, StringsIn, Without, Matches;
      ghost var all := Contents();
      ghost var target := UnsetEntries(all, name);
      ValidHolds(environ[..]);
      PassedEnds(all, name);
      HoldsAt(environ[..], all, 0);
      var ep := 0;
      while environ[ep].Some?
        invariant ep < environ.Length && Holds(environ[..], all)
        invariant environ[ep].Some? ==> ep < |all| && environ[ep].value == all[ep]
        invariant environ[ep].None? ==> ep >= |all|
        invariant Passed(all, ep, name) == target
        decreases |all| - ep
      {
        PassedStep(all, ep, name);
        HoldsAt(environ[..], all, ep);
        if Matches(environ[ep].value, name) {
          ShiftBack(ep, all);
          all := Without(all, ep);
        }
        ep := ep + 1;
        HoldsAt(environ[..], all, ep);
      }
      HoldsAll(environ[..], all);
      PassedEnds(all, name);
    }
  }

  /** The array holds just these strings in front of its first null pointer. */
  ghost predicate Holds(s: seq<Option<string>>, all: seq<string>) {
    EndsAt(s, |all|) && forall k :: 0 <= k < |all| ==> s[k] == Some(all[k])
  }

  lemma {:induction false} ValidHolds(s: seq<Option<string>>)
    requires exists n: nat :: EndsAt(s, n)
    ensures Holds(s, StringsIn(s))
  {
    var n: nat :| EndsAt(s, n);
    StringsUpTo(s, n);
  }

  lemma {:induction false} HoldsAt(s: seq<Option<string>>, all: seq<string>, i: nat)
    requires Holds(s, all)
    ensures |all| < |s| && s[|all|].None?
    ensures i < |all| ==> s[i] == Some(all[i])
  {
  }

  lemma {:induction false} HoldsAll(s: seq<Option<string>>, all: seq<string>)
    requires Holds(s, all)
    ensures EndsAt(s, |all|) && StringsIn(s) == all
  {
    StringsAre(s, all);
  }

  function Without(all: seq<string>, i: nat): (r: seq<string>)
    requires i < |all|
    ensures |r| == |all| - 1
  {
    all[..i] + all[i + 1..]
  }

  /** What is left in the end when the loop stands at ep with these strings in the array. */
  function Passed(all: seq<string>, ep: nat, name: string): seq<string> {
    if ep >= |all| then all else all[..ep] + UnsetEntries(all[ep..], name)
  }

  lemma {:induction false} PassedEnds(all: seq<string>, name: string)
    ensures Passed(all, 0, name) == UnsetEntries(all, name)
    ensures forall ep :: ep >= |all| ==> Passed(all, ep, name) == all
  {
    assert all[..0] + UnsetEntries(all[0..], name) == UnsetEntries(all, name) by { assert all[0..] == all; }
  }

  lemma {:induction false} PassedIs(all: seq<string>, ep: nat, name: string)
    requires ep <= |all|
    ensures Passed(all, ep, name) == all[..ep] + UnsetEntries(all[ep..], name)
  {
    if ep == |all| {
      UnsetStep([], name);
      assert all[ep..] == [] && all[..ep] + [] == all;
    }
  }

  lemma {:induction false} PassedStep(all: seq<string>, ep: nat, name: string)
    requires ep < |all|
    ensures Passed(all, ep, name) == Passed(if Matches(all[ep], name) then Without(all, ep) else all, ep + 1, name)
  {
    hide UnsetEntries, Matches, Passed;
    var front, rest := all[..ep], all[ep..];
    PassedIs(all, ep, name);
    UnsetStep(rest, name);
    if !Matches(all[ep], name) {
      PassedIs(all, ep + 1, name);
      assert rest[1..] == all[ep + 1..] && all[..ep + 1] == front + [all[ep]];
      OneFurther(front, all[ep], UnsetEntries(rest[1..], name));
    } else if |rest| > 1 {
      var t := Without(all, ep);
      PassedIs(t, ep + 1, name);
      assert t[..ep + 1] == front + [rest[1]] && t[ep + 1..] == rest[2..];
      OneFurther(front, rest[1], UnsetEntries(rest[2..], name));
    } else {
      PassedEnds(Without(all, ep), name);
      assert Without(all, ep) == front + [];
    }
  }

  lemma {:induction false} SetMeans(es: seq<string>, name: string, value: string, replace: bool)
    ensures var i := FirstMatch(es, name);
      SetEntries(es, name, value, replace)
      == if i == |es| then es + [Entry(name, value)] else if replace then es[i := Entry(name, value)] else es
  {
  }

  lemma {:induction false} UnsetStep(es: seq<string>, name: string)
    ensures UnsetEntries(es, name)
         == if es == [] then []
            else if !Matches(es[0], name) then [es[0]] + UnsetEntries(es[1..], name)
            else if |es| == 1 then []
            else [es[1]] + UnsetEntries(es[2..], name)
    ensures UnsetEntries([], name) == []
  {
  }
}
