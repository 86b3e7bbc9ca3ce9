/** Rewriting distinguished names to normal form (src/common/normalize.c:32-66). */
module Normalize {
  import opened Options
  import opened Sequences
  import opened Strings

  // ----- replacing a key

  /** What the three uses of `change` have in common: both keys start a component, and text
      that starts with the new one never starts with the old one. */
  predicate Keys(from: string, to: string) {
    && from != "" && from[0] == '/' && '/' !in from[1..]
    && to != "" && to[0] == '/' && '/' !in to[1..]
    && !(from <= to) && !(to <= from)
  }

  /** Every occurrence of `from` replaced, from left to right. */
  function Replaced(s: string, from: string, to: string): string
    requires from != ""
    decreases |s|
  {
    if s == "" then ""
    else if from <= s then to + Replaced(s[|from|..], from, to)
    else [s[0]] + Replaced(s[1..], from, to)
  }

  function Count(s: string, from: string): nat
    requires from != ""
    decreases |s|
  {
    if s == "" then 0
    else if from <= s then 1 + Count(s[|from|..], from)
    else Count(s[1..], from)
  }

  ghost predicate NoneBefore(s: string, from: string, q: nat) {
    forall j: nat :: j < q ==> !OccursAt(s, from, j)
  }

  /** Text in front of the first possible occurrence is copied. */
  lemma {:induction false} SkipPrefix(s: string, from: string, to: string, q: nat)
    requires from != "" && q <= |s| && NoneBefore(s, from, q)
    ensures Replaced(s, from, to) == s[..q] + Replaced(s[q..], from, to)
    ensures Count(s, from) == Count(s[q..], from)
    decreases q
  {
    hide Replaced, Count;
    if q == 0 {
      assert s[0..] == s && s[..0] + Replaced(s, from, to) == Replaced(s, from, to);
    } else {
      var t := s[1..];
      SkipOne(s, from, to, q);
      SkipPrefix(t, from, to, q - 1);
      assert t[q - 1..] == s[q..];
      assert s[..q] == [s[0]] + t[..q - 1];
      AppendAssoc([s[0]], t[..q - 1], Replaced(s[q..], from, to));
    }
  }

  lemma {:induction false} SkipOne(s: string, from: string, to: string, q: nat)
    requires from != "" && 0 < q <= |s| && NoneBefore(s, from, q)
    ensures NoneBefore(s[1..], from, q - 1)
    ensures Replaced(s, from, to) == [s[0]] + Replaced(s[1..], from, to)
    ensures Count(s, from) == Count(s[1..], from)
  {
    assert !OccursAt(s, from, 0) && s[0..] == s;
    forall j: nat | j < q - 1 ensures !OccursAt(s[1..], from, j) {
      assert !OccursAt(s, from, j + 1) && s[1..][j..] == s[j + 1..];
    }
  }

  /** The text after one replacement at the first occurrence. */
  function ReplacedAt(s: string, p: nat, from: string, to: string): string
    requires p + |from| <= |s|
  {
    s[..p] + to + s[p + |from|..]
  }

  lemma {:induction false} NewKeyIsNotOld(from: string, to: string, rest: string)
    requires Keys(from, to)
    ensures !(from <= to + rest)
  {
    var t := to + rest;
    assert t[..|to|] == to;
    if |to| <= |from| <= |t| {
      assert t[..|from|][..|to|] == to;
    } else if |from| < |to| {
      assert t[..|from|] == to[..|from|];
    }
  }

  /** A replacement makes no occurrence in front of it, in it, or across its start. */
  lemma {:induction false} NoNewOccurrence(s: string, p: nat, from: string, to: string, j: nat)
    requires Keys(from, to) && OccursAt(s, from, p) && !(j < p && OccursAt(s, from, j)) && j < p + |to|
    requires p + |from| <= |s|
    ensures !OccursAt(ReplacedAt(s, p, from, to), from, j)
  {
    var t := ReplacedAt(s, p, from, to);
    if j == p {
      assert t[p..] == to + s[p + |from|..];
      NewKeyIsNotOld(from, to, s[p + |from|..]);
    } else if j > p {
      assert t[j] == to[j - p] && to[j - p] == to[1..][j - p - 1];
      NotThere(t, from, j, 0);
    } else if j + |from| <= p {
      assert !OccursAt(s, from, j) && t[j..][..|from|] == s[j..][..|from|];
    } else {
      assert t[p] == '/' && from[p - j] == from[1..][p - j - 1];
      NotThere(t, from, j, p - j);
    }
  }

  lemma {:induction false} OccurrenceFits(s: string, from: string, to: string, p: nat)
    requires Keys(from, to) && OccursAt(s, from, p)
    ensures from != "" && p + |from| <= |s| && from <= s[p..]
  {
  }

  lemma {:induction false} NoNewOccurrences(s: string, p: nat, from: string, to: string)
    requires Keys(from, to) && OccursAt(s, from, p) && NoneBefore(s, from, p) && p + |from| <= |s|
    ensures NoneBefore(ReplacedAt(s, p, from, to), from, p + |to|)
  {
    hide OccursAt;
    forall j: nat | j < p + |to| ensures !OccursAt(ReplacedAt(s, p, from, to), from, j) {
      NoNewOccurrence(s, p, from, to, j);
    }
  }

  lemma {:induction false} ReplacedAtParts(s: string, p: nat, from: string, to: string)
    requires p + |from| <= |s|
    ensures var t := ReplacedAt(s, p, from, to);
      |t| >= p + |to| && t[..p + |to|] == s[..p] + to && t[p + |to|..] == s[p + |from|..]
    ensures s[p..][|from|..] == s[p + |from|..]
  {
  }

  /** Replacing the first occurrence makes no new one: the next one, if any, is behind the
      replacement, and so at least |to| characters into the text. */
  lemma {:induction false} OneReplacement(s: string, p: nat, from: string, to: string)
    requires Keys(from, to) && OccursAt(s, from, p) && NoneBefore(s, from, p)
    ensures p + |from| <= |s|
    ensures var t := ReplacedAt(s, p, from, to);
      && NoneBefore(t, from, p + |to|)
      && Replaced(t, from, to) == Replaced(s, from, to)
      && Count(t, from) + 1 == Count(s, from)
  {
    hide *;
    OccurrenceFits(s, from, to, p);
    NoNewOccurrences(s, p, from, to);
    ReplacedAtParts(s, p, from, to);
    SkipPrefix(ReplacedAt(s, p, from, to), from, to, p + |to|);
    SkipPrefix(s, from, to, p);
    ReplaceHere(s[p..], from, to);
    AppendAssoc(s[..p], to, Replaced(s[p + |from|..], from, to));
  }

  lemma {:induction false} ReplaceHere(s: string, from: string, to: string)
    requires from != "" && from <= s
    ensures Replaced(s, from, to) == to + Replaced(s[|from|..], from, to)
    ensures Count(s, from) == 1 + Count(s[|from|..], from)
  {
  }

  /** `change`: the loop replaces every occurrence and ends, since each turn leaves one less,
      although the text may grow. */
  method Change(str: string, from: string, to: string) returns (copy: string)
    requires Keys(from, to)
    ensures copy == Replaced(str, from, to)
  {
    hide Replaced, Count, OccursAt, NoneBefore, Keys;
    copy := str;
    var pos: Option<nat> := Find(copy, from);
    FoundFirst(copy, from, to);
    while pos.Some?
      invariant Replaced(copy, from, to) == Replaced(str, from, to)
      invariant if pos.Some? then OccursAt(copy, from, pos.value) && NoneBefore(copy, from, pos.value)
                else Replaced(copy, from, to) == copy
      decreases Count(copy, from) + (if pos.Some? then 1 else 0)
    {
      ChangeStep(copy, pos.value, from, to);
      copy := copy[..pos.value] + to + copy[pos.value + |from|..];
      var next := Find(copy[|to|..], from);
      pos := if next.Some? then Some(next.value + |to|) else None;
    }
  }

  lemma {:induction false} FoundFirst(s: string, from: string, to: string)
    requires Keys(from, to)
    ensures from != ""
    ensures var f := Find(s, from);
      if f.Some? then OccursAt(s, from, f.value) && NoneBefore(s, from, f.value) else Replaced(s, from, to) == s
  {
    hide Replaced;
    if Find(s, from).None? {
      NoneToReplace(s, from, to);
    }
  }

  lemma {:induction false} NoneToReplace(s: string, from: string, to: string)
    requires from != "" && NoneBefore(s, from, |s|)
    ensures Replaced(s, from, to) == s
  {
    hide Replaced;
    SkipPrefix(s, from, to, |s|);
    NothingToReplace(from, to);
    assert s[..|s|] + "" == s && s[|s|..] == "";
  }

  /** One turn of the loop of `change`. */
  lemma {:induction false} ChangeStep(s: string, p: nat, from: string, to: string)
    requires Keys(from, to) && OccursAt(s, from, p) && NoneBefore(s, from, p)
    ensures p + |from| <= |s|
    ensures var t := ReplacedAt(s, p, from, to);
      && |to| <= |t|
      && Replaced(t, from, to) == Replaced(s, from, to)
      && Count(t, from) + 1 == Count(s, from)
      && var next := Find(t[|to|..], from);
         if next.Some? then OccursAt(t, from, next.value + |to|) && NoneBefore(t, from, next.value + |to|)
         else Replaced(t, from, to) == t
  {
    hide Replaced, Count, OccursAt;
    OneReplacement(s, p, from, to);
    var t := ReplacedAt(s, p, from, to);
    FindInTail(t, from, |to|);
    if Find(t[|to|..], from).None? {
      NoneToReplace(t, from, to);
    }
  }

  lemma {:induction false} NothingToReplace(from: string, to: string)
    requires from != ""
    ensures Replaced("", from, to) == ""
  {
  }

  lemma {:induction false} FindInTail(s: string, from: string, k: nat)
    requires k <= |s| && NoneBefore(s, from, k)
    ensures var next := Find(s[k..], from);
      if next.Some? then OccursAt(s, from, next.value + k) && NoneBefore(s, from, next.value + k)
      else forall j: nat :: !OccursAt(s, from, j)
  {
    forall j: nat | k <= j ensures OccursAt(s, from, j) <==> OccursAt(s[k..], from, j - k) {
      if j <= |s| {
        assert s[k..][j - k..] == s[j..];
      }
    }
  }

  /** A text is unchanged just when the key does not occur. */
  lemma {:induction false} UnchangedIff(s: string, from: string, to: string)
    requires Keys(from, to)
    ensures Replaced(s, from, to) == s <==> Find(s, from).None?
  {
    var f := Find(s, from);
    if f.None? {
      SkipPrefix(s, from, to, |s|);
      assert s[|s|..] == "" && s[..|s|] + "" == s;
    } else {
      var p := f.value;
      SkipPrefix(s, from, to, p);
      var tail := Replaced(s[p..][|from|..], from, to);
      assert Replaced(s, from, to)[p..] == to + tail;
      NewKeyIsNotOld(from, to, tail);
    }
  }

  // ----- the same, component by component

  /** A component with its key replaced. */
  function Rekeyed(c: string, key: string, newKey: string): string {
    if key <= c then newKey + c[|key|..] else c
  }

  function RekeyedAll(cs: seq<string>, key: string, newKey: string): (r: seq<string>)
    ensures |r| == |cs|
  {
    seq(|cs|, i requires 0 <= i < |cs| => Rekeyed(cs[i], key, newKey))
  }

  /** A name with its components rewritten; what stands before the first '/' is none. */
  function OnComponents(cs: seq<string>, key: string, newKey: string): (r: seq<string>)
    requires cs != []
    ensures |r| == |cs|
  {
    [cs[0]] + RekeyedAll(cs[1..], key, newKey)
  }

  lemma {:induction false} ReplacedPassesText(a: string, r: string, from: string, to: string)
    requires Keys(from, to) && '/' !in a
    ensures Replaced(a + r, from, to) == a + Replaced(r, from, to)
  {
    if a == "" {
      assert a + r == r;
    } else {
      assert (a + r)[1..] == a[1..] + r && (a + r)[0] == a[0];
      ReplacedPassesText(a[1..], r, from, to);
    }
  }

  /** The text of components, each with its '/' in front. */
  function Slashed(cs: seq<string>): string {
    if cs == [] then "" else "/" + cs[0] + Slashed(cs[1..])
  }

  lemma {:induction false} JoinIsSlashed(cs: seq<string>)
    requires cs != []
    ensures Join(cs, '/') == cs[0] + Slashed(cs[1..])
  {
    if |cs| > 1 {
      JoinIsSlashed(cs[1..]);
    }
  }

  lemma {:induction false} KeyWithinComponent(c: string, r: string, key: string)
    requires '/' !in key && (r != "" ==> r[0] == '/')
    ensures key <= c + r <==> key <= c
  {
    var t := c + r;
    assert t[0..] == t;
    if |c| < |key| {
      NotThere(t, key, 0, |c|);
    }
  }

  /** The scan stands at the '/' of component c, with r the text from the next '/' on. */
  lemma {:induction false} ReplacedAtComponent(c: string, r: string, key: string, newKey: string)
    requires Keys("/" + key, "/" + newKey) && '/' !in c && (r != "" ==> r[0] == '/')
    ensures Replaced("/" + c + r, "/" + key, "/" + newKey)
         == "/" + Rekeyed(c, key, newKey) + Replaced(r, "/" + key, "/" + newKey)
  {
    hide Keys, Replaced;
    KeyParts(key, newKey);
    KeyWithinComponent(c, r, key);
    if key <= c {
      ReplacedAtKey(c[|key|..], r, key, newKey);
      assert c == key + c[|key|..];
    } else {
      NoKeyHere(c + r, key);
      assert "/" + c + r == "/" + (c + r) && ("/" + (c + r))[1..] == c + r;
      ReplacedStep("/" + (c + r), "/" + key, "/" + newKey);
      ReplacedPassesText(c, r, "/" + key, "/" + newKey);
    }
  }

  lemma {:induction false} NoKeyHere(t: string, key: string)
    ensures "/" + key <= "/" + t <==> key <= t
  {
    assert ("/" + key)[1..] == key && ("/" + t)[1..] == t;
  }

  lemma {:induction false} ReplacedAtKey(tail: string, r: string, key: string, newKey: string)
    requires Keys("/" + key, "/" + newKey) && '/' !in tail
    ensures Replaced("/" + (key + tail) + r, "/" + key, "/" + newKey)
         == "/" + (newKey + tail) + Replaced(r, "/" + key, "/" + newKey)
  {
    hide Keys, Replaced;
    var from, to := "/" + key, "/" + newKey;
    var s := "/" + (key + tail) + r;
    assert s[|from|..] == tail + r && s[..|from|] == from;
    ReplacedStep(s, from, to);
    ReplacedPassesText(tail, r, from, to);
  }

  lemma {:induction false} KeyParts(key: string, newKey: string)
    requires Keys("/" + key, "/" + newKey)
    ensures '/' !in key && '/' !in newKey
  {
    assert ("/" + key)[1..] == key && ("/" + newKey)[1..] == newKey;
  }

  lemma {:induction false} ReplacedStep(s: string, from: string, to: string)
    requires from != "" && s != ""
    ensures Replaced(s, from, to)
         == if from <= s then to + Replaced(s[|from|..], from, to) else [s[0]] + Replaced(s[1..], from, to)
  {
  }

  lemma {:induction false} ReplacedSlashed(cs: seq<string>, key: string, newKey: string)
    requires Keys("/" + key, "/" + newKey) && forall i :: 0 <= i < |cs| ==> '/' !in cs[i]
    ensures Replaced(Slashed(cs), "/" + key, "/" + newKey) == Slashed(RekeyedAll(cs, key, newKey))
  {
    if cs != [] {
      ReplacedSlashed(cs[1..], key, newKey);
      ReplacedAtComponent(cs[0], Slashed(cs[1..]), key, newKey);
      assert RekeyedAll(cs, key, newKey)[1..] == RekeyedAll(cs[1..], key, newKey);
    }
  }

  lemma {:induction false} RekeyedHasNoSlash(c: string, key: string, newKey: string)
    requires Keys("/" + key, "/" + newKey) && '/' !in c
    ensures '/' !in Rekeyed(c, key, newKey)
  {
    assert ("/" + newKey)[1..] == newKey;
  }

  /** Replacing "/key" in a name rewrites the components that start with the key. */
  lemma {:induction false} ReplacedIsOnComponents(cs: seq<string>, key: string, newKey: string)
    requires Keys("/" + key, "/" + newKey)
    requires cs != [] && forall i :: 0 <= i < |cs| ==> '/' !in cs[i]
    ensures Replaced(Join(cs, '/'), "/" + key, "/" + newKey) == Join(OnComponents(cs, key, newKey), '/')
    ensures forall i :: 0 <= i < |cs| ==> '/' !in OnComponents(cs, key, newKey)[i]
  {
    hide Replaced, Keys, Rekeyed;
    var ds := OnComponents(cs, key, newKey);
    JoinIsSlashed(cs);
    JoinIsSlashed(ds);
    ReplacedPassesText(cs[0], Slashed(cs[1..]), "/" + key, "/" + newKey);
    ReplacedSlashed(cs[1..], key, newKey);
    assert ds[1..] == RekeyedAll(cs[1..], key, newKey);
    forall i | 0 <= i < |cs| ensures '/' !in ds[i] {
      if i > 0 {
        RekeyedHasNoSlash(cs[i], key, newKey);
      }
    }
  }

  // ----- the normal form

  /** The normal form of one component. */
  function NormalComponent(c: string): string {
    if "USERID=" <= c then "UID=" + c[7..]
    else if "emailAddress=" <= c then "Email=" + c[13..]
    else if "E=" <= c then "Email=" + c[2..]
    else c
  }

  function NormalComponents(cs: seq<string>): (r: seq<string>)
    requires cs != []
    ensures |r| == |cs|
  {
    seq(|cs|, i requires 0 <= i < |cs| => if i == 0 then cs[0] else NormalComponent(cs[i]))
  }

  function Normal(name: string): string {
    Join(NormalComponents(Split(name, '/')), '/')
  }

  lemma {:induction false} KeysAreProper()
    ensures Keys("/USERID=", "/UID=")
    ensures Keys("/emailAddress=", "/Email=")
    ensures Keys("/E=", "/Email=")
  {
    ProperKeys("USERID=", "UID=", 1);
    ProperKeys("emailAddress=", "Email=", 0);
    ProperKeys("E=", "Email=", 1);
    KeyTexts();
  }

  lemma {:induction false} KeyTexts()
    ensures "/USERID=" == "/" + "USERID=" && "/UID=" == "/" + "UID="
    ensures "/emailAddress=" == "/" + "emailAddress=" && "/Email=" == "/" + "Email="
    ensures "/E=" == "/" + "E="
  {
  }

  /** Two keys that differ at position i. */
  lemma {:induction false} ProperKeys(key: string, newKey: string, i: nat)
    requires '/' !in key && '/' !in newKey
    requires i < |key| && i < |newKey| && key[i] != newKey[i]
    ensures Keys("/" + key, "/" + newKey)
  {
    var from, to := "/" + key, "/" + newKey;
    assert from[1..] == key && to[1..] == newKey;
    assert from[i + 1] != to[i + 1];
  }

  lemma {:induction false} ThreeRewritings(c: string)
    ensures Rekeyed(Rekeyed(Rekeyed(c, "USERID=", "UID="), "emailAddress=", "Email="), "E=", "Email=")
        == NormalComponent(c)
  {
    if "USERID=" <= c {
      var d := "UID=" + c[7..];
      assert d[0] == 'U';
    } else if "emailAddress=" <= c {
      var d := "Email=" + c[13..];
      assert d[1] == 'm';
    }
  }

  /** `normalize`: three replacements one after the other amount to one rewriting of each
      component. */
  method NormalizeName(str: string) returns (r: string)
    ensures r == Normal(str)
  {
    hide Replaced, Keys, Rekeyed, NormalComponent;
    KeysAreProper();
    var tmp := Change(str, "/USERID=", "/UID=");
    var tmp2 := Change(tmp, "/emailAddress=", "/Email=");
    r := Change(tmp2, "/E=", "/Email=");
    ThreeReplacements(str);
  }

  lemma {:induction false} ThreeReplacements(str: string)
    ensures Keys("/USERID=", "/UID=") && Keys("/emailAddress=", "/Email=") && Keys("/E=", "/Email=")
    ensures Replaced(Replaced(Replaced(str, "/USERID=", "/UID="), "/emailAddress=", "/Email="), "/E=", "/Email=")
        == Normal(str)
  {
    hide Replaced, Keys, OnComponents, NormalComponents, Split, Join;
    KeysAreProper();
    KeyTexts();
    JoinOfSplit(str, '/');
    var cs := Split(str, '/');
    PiecesHaveNoSeparator(str, '/');
    ReplacedIsOnComponents(cs, "USERID=", "UID=");
    var ds := OnComponents(cs, "USERID=", "UID=");
    ReplacedIsOnComponents(ds, "emailAddress=", "Email=");
    var es := OnComponents(ds, "emailAddress=", "Email=");
    ReplacedIsOnComponents(es, "E=", "Email=");
    ThreeOnComponents(cs);
  }

  lemma {:induction false} ThreeOnComponents(cs: seq<string>)
    requires cs != []
    ensures OnComponents(OnComponents(OnComponents(cs, "USERID=", "UID="), "emailAddress=", "Email="), "E=", "Email=")
            == NormalComponents(cs)
  {
    hide Rekeyed, NormalComponent;
    var ds := OnComponents(cs, "USERID=", "UID=");
    var es := OnComponents(ds, "emailAddress=", "Email=");
    var fs := OnComponents(es, "E=", "Email=");
    forall i | 0 <= i < |cs| ensures fs[i] == NormalComponents(cs)[i] {
      ThreeRewritings(cs[i]);
    }
  }

  lemma {:induction false} NormalComponentIsNormal(c: string)
    ensures var d := NormalComponent(c);
      && !("USERID=" <= d) && !("emailAddress=" <= d) && !("E=" <= d)
      && ('/' !in c ==> '/' !in d)
  {
    var d := NormalComponent(c);
    if "USERID=" <= c {
      assert d[0] == 'U' && d[1] == 'I';
    } else if "emailAddress=" <= c || "E=" <= c {
      assert d[0] == 'E' && d[1] == 'm';
    }
  }

  lemma {:induction false} ComponentsOfNormal(str: string)
    ensures Split(Normal(str), '/') == NormalComponents(Split(str, '/'))
  {
    hide NormalComponent;
    var cs := Split(str, '/');
    PiecesHaveNoSeparator(str, '/');
    forall i | 0 <= i < |cs| ensures '/' !in NormalComponents(cs)[i] {
      NormalComponentIsNormal(cs[i]);
    }
    SplitOfJoin(NormalComponents(cs), '/');
  }

  /** A name in normal form has no component with one of the old keys. */
  lemma {:induction false} NoOldKeys(str: string)
    ensures Find(Normal(str), "/USERID=").None?
    ensures Find(Normal(str), "/emailAddress=").None?
    ensures Find(Normal(str), "/E=").None?
  {
    hide NormalComponent, Replaced, Keys;
    var ds := NormalComponents(Split(str, '/'));
    ComponentsOfNormal(str);
    PiecesHaveNoSeparator(str, '/');
    KeysAreProper();
    KeyTexts();
    forall i | 0 < i < |ds|
      ensures '/' !in ds[i] && Rekeyed(ds[i], "USERID=", "UID=") == ds[i]
      ensures Rekeyed(ds[i], "emailAddress=", "Email=") == ds[i] && Rekeyed(ds[i], "E=", "Email=") == ds[i]
    {
      NormalComponentIsNormal(Split(str, '/')[i]);
    }
    assert '/' !in ds[0];
    NoKey(ds, "USERID=", "UID=");
    NoKey(ds, "emailAddress=", "Email=");
    NoKey(ds, "E=", "Email=");
  }

  lemma {:induction false} NoKey(cs: seq<string>, key: string, newKey: string)
    requires Keys("/" + key, "/" + newKey)
    requires cs != [] && forall i :: 0 <= i < |cs| ==> '/' !in cs[i]
    requires forall i :: 0 < i < |cs| ==> Rekeyed(cs[i], key, newKey) == cs[i]
    ensures Find(Join(cs, '/'), "/" + key).None?
  {
    hide Replaced, Keys, Rekeyed;
    ReplacedIsOnComponents(cs, key, newKey);
    assert OnComponents(cs, key, newKey) == cs;
    UnchangedIff(Join(cs, '/'), "/" + key, "/" + newKey);
  }

  /** Just the names without an old key are in normal form already; in particular, normalizing
      twice does no more than normalizing once. */
  lemma {:induction false} NormalFormIff(str: string)
    ensures Normal(str) == str <==>
      Find(str, "/USERID=").None? && Find(str, "/emailAddress=").None? && Find(str, "/E=").None?
    ensures Normal(Normal(str)) == Normal(str)
  {
    hide Replaced, Keys, Normal;
    NoOldKeys(str);
    NormalIfNoKeys(Normal(str));
    if Find(str, "/USERID=").None? && Find(str, "/emailAddress=").None? && Find(str, "/E=").None? {
      NormalIfNoKeys(str);
    }
  }

  lemma {:induction false} NormalIfNoKeys(str: string)
    requires Find(str, "/USERID=").None? && Find(str, "/emailAddress=").None? && Find(str, "/E=").None?
    ensures Normal(str) == str
  {
    hide Replaced, Keys;
    ThreeReplacements(str);
    UnchangedIff(str, "/USERID=", "/UID=");
    UnchangedIff(str, "/emailAddress=", "/Email=");
    UnchangedIff(str, "/E=", "/Email=");
  }

  /** What becomes of a name with one more component: the last component is rewritten, whatever
      stands in front, and only its key changes. */
  lemma {:induction false} LastComponentIsRewritten(name: string, c: string, v: string)
    requires '/' !in c && '/' !in v
    ensures Normal(name + "/" + ("USERID=" + v)) == Normal(name) + "/" + ("UID=" + v)
    ensures Normal(name + "/" + ("emailAddress=" + v)) == Normal(name) + "/" + ("Email=" + v)
    ensures Normal(name + "/" + ("E=" + v)) == Normal(name) + "/" + ("Email=" + v)
    ensures !("USERID=" <= c) && !("emailAddress=" <= c) && !("E=" <= c) ==>
      Normal(name + "/" + c) == Normal(name) + "/" + c
  {
    hide Normal, NormalComponent;
    NormalOfLast(name, "USERID=" + v);
    NormalOfLast(name, "emailAddress=" + v);
    NormalOfLast(name, "E=" + v);
    NormalOfLast(name, c);
    KeyGivesWay(v);
    if !("USERID=" <= c) && !("emailAddress=" <= c) && !("E=" <= c) {
      OtherKeyStays(c);
    }
  }

  lemma {:induction false} OtherKeyStays(c: string)
    requires !("USERID=" <= c) && !("emailAddress=" <= c) && !("E=" <= c)
    ensures NormalComponent(c) == c
  {
  }

  lemma {:induction false} KeyGivesWay(v: string)
    ensures NormalComponent("USERID=" + v) == "UID=" + v
    ensures NormalComponent("emailAddress=" + v) == "Email=" + v
    ensures NormalComponent("E=" + v) == "Email=" + v
  {
    assert ("USERID=" + v)[7..] == v && ("emailAddress=" + v)[13..] == v && ("E=" + v)[2..] == v;
    assert ("emailAddress=" + v)[0] == 'e' && ("E=" + v)[0] == 'E';
  }

  lemma {:induction false} NormalOfLast(name: string, c: string)
    requires '/' !in c
    ensures Normal(name + "/" + c) == Normal(name) + "/" + NormalComponent(c)
  {
    hide NormalComponent, Split, Join;
    var cs := Split(name, '/');
    JoinOfSplit(name, '/');
    JoinSnoc(cs, c, '/');
    PiecesHaveNoSeparator(name, '/');
    SplitOfJoin(cs + [c], '/');
    assert NormalComponents(cs + [c]) == NormalComponents(cs) + [NormalComponent(c)];
    JoinSnoc(NormalComponents(cs), NormalComponent(c), '/');
  }
}
