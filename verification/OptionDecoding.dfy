/**
 Decoding of one option out of a command-line element (src/replib/getopt_long.c:626-1188):
 long options by exact name or unambiguous prefix, clusters of short options, and where an
 option's argument comes from. Nothing here depends on how the elements are permuted.
 */
module OptionDecoding {
  import opened Options

  /** A row of the long-option table; `flag` names the caller's variable, if any. */
  datatype LongOption = LongOption(name: string, hasArg: int, flag: Option<nat>, val: int)

  /** What stays fixed between calls: the table (absent for plain getopt), whether a single
      dash may introduce long options, and the string of short options. */
  datatype Config = Config(longopts: Option<seq<LongOption>>, longOnly: bool, opts: string)

  /** What one call tells its caller: the returned code, `optarg`, and the values stored in
      `optopt`, `*longind` and an option's flag when the call stores them. */
  datatype Reply = Reply(code: int, optarg: Option<string>, optopt: Option<int>,
                         longind: Option<nat>, flagSet: Option<(nat, int)>)

  /** A decoded option, the text left in its element, and how many elements are used up. */
  datatype Step = Step(reply: Reply, rest: string, used: nat)

  const QUESTION: int := '?' as int

  function Plain(code: int): Reply {
    Reply(code, None, None, None, None)
  }

  function Complaint(code: int, optopt: int): Reply {
    Reply(code, None, Some(optopt), None, None)
  }

  // ----- characters and short options

  /** The text of s from the first occurrence of c on, as strchr returns it. */
  function FromChar(s: string, c: char): (r: Option<string>)
    ensures r.None? <==> c !in s
    ensures r.Some? ==> 0 < |r.value| <= |s| && r.value[0] == c && r.value == s[|s| - |r.value|..]
                        && c !in s[..|s| - |r.value|]
  {
    if s == [] then None
    else if s[0] == c then Some(s)
    else FromChar(s[1..], c)
  }

  /** The optstring asks for the `-W foo' convention, which this model leaves out. */
  predicate HasW(opts: string) {
    var t := FromChar(opts, 'W');
    t.Some? && |t.value| > 1 && t.value[1] == ';'
  }

  /** The code returned for a missing argument. */
  function MissingCode(opts: string): int {
    if |opts| > 0 && opts[0] == ':' then ':' as int else QUESTION
  }

  /** Decodes the short option at the head of `rest`; `next` is the element that follows. */
  function DecodeShort(rest: string, next: Option<string>, opts: string): (st: Step)
    requires rest != ""
    ensures st.used == 0 ==> 0 < |st.rest| < |rest|
    ensures st.used > 0 ==> st.rest == ""
    ensures st.used <= if next.Some? then 2 else 1
  {
    var c := rest[0];
    var tail := rest[1..];
    var step := if tail == "" then 1 else 0;
    var temp := FromChar(opts, c);
    if temp.None? || c == ':' then
      Step(Complaint(QUESTION, c as int), tail, step)
    else if |temp.value| > 1 && temp.value[1] == ':' then
      if |temp.value| > 2 && temp.value[2] == ':' then
        Step(Plain(c as int).(optarg := if tail == "" then None else Some(tail)), "", 1)
      else if tail != "" then
        Step(Plain(c as int).(optarg := Some(tail)), "", 1)
      else if next.None? then
        Step(Complaint(MissingCode(opts), c as int), "", 1)
      else
        Step(Plain(c as int).(optarg := next), "", 2)
    else
      Step(Plain(c as int), tail, step)
  }

  // ----- long options

  datatype Lookup = NotFound | Ambiguous | Found(index: nat)

  /** The text before the first '=', the name a long option is looked up by. */
  function NameOf(rest: string): (name: string)
    ensures name <= rest && '=' !in name
    ensures |name| < |rest| ==> rest[|name|] == '='
  {
    if rest == "" || rest[0] == '=' then "" else [rest[0]] + NameOf(rest[1..])
  }

  lemma {:induction false} NameEndsAt(rest: string, n: nat)
    requires n <= |rest| && '=' !in rest[..n] && (n < |rest| ==> rest[n] == '=')
    ensures NameOf(rest) == rest[..n]
  {
    if n > 0 {
      assert rest[..n][0] == rest[0] && rest[1..][..n - 1] == rest[..n][1..];
      NameEndsAt(rest[1..], n - 1);
    }
  }

  ghost predicate IsExact(table: seq<LongOption>, key: string, i: nat) {
    i < |table| && table[i].name == key
  }

  ghost predicate IsPrefix(table: seq<LongOption>, key: string, i: nat) {
    i < |table| && key <= table[i].name
  }

  /** i is the first row with an exactly matching name. */
  ghost predicate FirstExact(table: seq<LongOption>, key: string, i: nat) {
    IsExact(table, key, i) && forall j: nat :: j < i ==> !IsExact(table, key, j)
  }

  /** i is the first row whose name starts with the key. */
  ghost predicate FirstPrefix(table: seq<LongOption>, key: string, i: nat) {
    IsPrefix(table, key, i) && forall j: nat :: j < i ==> !IsPrefix(table, key, j)
  }

  /** Row j competes with the earlier abbreviation match i: it would do something else. */
  ghost predicate Competes(table: seq<LongOption>, key: string, longOnly: bool, i: nat, j: nat) {
    && i < j && i < |table| && IsPrefix(table, key, j)
    && (longOnly || table[i].hasArg != table[j].hasArg
        || table[i].flag != table[j].flag || table[i].val != table[j].val)
  }

  /** What the documentation promises of a lookup: an exact match wins; otherwise an
      abbreviation is accepted when no other option it abbreviates does something else. */
  ghost predicate Resolves(table: seq<LongOption>, key: string, longOnly: bool, r: Lookup) {
    match r
    case Found(i) =>
      || FirstExact(table, key, i)
      || (&& FirstPrefix(table, key, i)
          && (forall j: nat :: !IsExact(table, key, j))
          && forall j: nat :: !Competes(table, key, longOnly, i, j))
    case Ambiguous =>
      && (forall j: nat :: !IsExact(table, key, j))
      && exists i: nat, j: nat :: FirstPrefix(table, key, i) && Competes(table, key, longOnly, i, j)
    case NotFound =>
      forall j: nat :: !IsPrefix(table, key, j)
  }

  /** A lookup has only one outcome that meets the promise. */
  lemma {:induction false} ResolvesUnique(table: seq<LongOption>, key: string, longOnly: bool, r: Lookup, r': Lookup)
    requires Resolves(table, key, longOnly, r) && Resolves(table, key, longOnly, r')
    ensures r == r'
  {
    forall i: nat | IsExact(table, key, i) ensures IsPrefix(table, key, i) {}
    if r.Found? && r'.Found? {
      assert r.index < r'.index || r'.index < r.index || r.index == r'.index;
    }
  }

  /** The outcome of a lookup as a function: the one that Resolves. */
  ghost function Resolve(table: seq<LongOption>, key: string, longOnly: bool): (r: Lookup)
    ensures r.Found? ==> r.index < |table|
  {
    if r :| Resolves(table, key, longOnly, r) then r else NotFound
  }

  lemma {:induction false} OutcomeIs(table: seq<LongOption>, key: string, longOnly: bool, r: Lookup)
    requires Resolves(table, key, longOnly, r)
    ensures r == Resolve(table, key, longOnly)
  {
    var r' := Resolve(table, key, longOnly);
    assert Resolves(table, key, longOnly, r');
    ResolvesUnique(table, key, longOnly, r, r');
  }

  lemma {:induction false} SomeFirstExact(table: seq<LongOption>, key: string, i: nat) returns (k: nat)
    requires IsExact(table, key, i)
    ensures FirstExact(table, key, k)
  {
    k := i;
    if j: nat :| j < i && IsExact(table, key, j) {
      k := SomeFirstExact(table, key, j);
    }
  }

  lemma {:induction false} SomeFirstPrefix(table: seq<LongOption>, key: string, i: nat) returns (k: nat)
    requires IsPrefix(table, key, i)
    ensures FirstPrefix(table, key, k)
  {
    k := i;
    if j: nat :| j < i && IsPrefix(table, key, j) {
      k := SomeFirstPrefix(table, key, j);
    }
  }

  /** Every lookup has an outcome that meets the promise. */
  lemma {:induction false} SomethingResolves(table: seq<LongOption>, key: string, longOnly: bool)
    ensures Resolves(table, key, longOnly, Resolve(table, key, longOnly))
  {
    if i: nat :| IsExact(table, key, i) {
      var k := SomeFirstExact(table, key, i);
      assert Resolves(table, key, longOnly, Found(k));
    } else if i: nat :| IsPrefix(table, key, i) {
      var k := SomeFirstPrefix(table, key, i);
      if j: nat :| Competes(table, key, longOnly, k, j) {
        assert Resolves(table, key, longOnly, Ambiguous);
      } else {
        assert Resolves(table, key, longOnly, Found(k));
      }
    } else {
      assert Resolves(table, key, longOnly, NotFound);
    }
  }

  /** The table scan: first match, later exact match, or an abbreviation that competes. */
  method LookupLong(table: seq<LongOption>, key: string, longOnly: bool) returns (r: Lookup)
    ensures Resolves(table, key, longOnly, r)
    ensures r == Resolve(table, key, longOnly)
  {
    var pfound: Option<nat> := None;
    var ambig := false;
    for i := 0 to |table|
      invariant forall j: nat :: j < i ==> !IsExact(table, key, j)
      invariant pfound.None? ==> !ambig && forall j: nat :: j < i ==> !IsPrefix(table, key, j)
      invariant pfound.Some? ==> pfound.value < i && FirstPrefix(table, key, pfound.value)
      invariant pfound.Some? ==> (ambig <==> exists j: nat :: j < i && Competes(table, key, longOnly, pfound.value, j))
    {
      if key <= table[i].name {
        if |key| == |table[i].name| {
          assert IsExact(table, key, i);
          r := Found(i);
          OutcomeIs(table, key, longOnly, r);
          return;
        } else if pfound.None? {
          pfound := Some(i);
        } else {
          var p := table[pfound.value];
          if longOnly || p.hasArg != table[i].hasArg || p.flag != table[i].flag || p.val != table[i].val {
            assert Competes(table, key, longOnly, pfound.value, i);
            ambig := true;
          }
        }
      }
    }
    if ambig {
      r := Ambiguous;
    } else if pfound.Some? {
      r := Found(pfound.value);
    } else {
      r := NotFound;
    }
    OutcomeIs(table, key, longOnly, r);
  }

  /** The element is to be looked up in the long-option table. */
  predicate IsLong(elem: string, cfg: Config, opts: string)
    requires |elem| > 1
  {
    && cfg.longopts.Some?
    && (elem[1] == '-' || (cfg.longOnly && (|elem| > 2 || elem[1] !in opts)))
  }

  /** Decodes the long option in `rest` once it was found in row i of the table. */
  function DecodeFound(rest: string, next: Option<string>, opts: string, table: seq<LongOption>, i: nat): (st: Step)
    requires rest != "" && i < |table|
    ensures 0 < st.used && st.rest == ""
    ensures st.used <= if next.Some? then 2 else 1
  {
    var name := NameOf(rest);
    var opt := table[i];
    var done := if opt.flag.Some?
                then Reply(0, None, None, Some(i), Some((opt.flag.value, opt.val)))
                else Reply(opt.val, None, None, Some(i), None);
    if |name| < |rest| then
      if opt.hasArg != 0 then Step(done.(optarg := Some(rest[|name| + 1..])), "", 1)
      else Step(Complaint(QUESTION, opt.val), "", 1)
    else if opt.hasArg == 1 then
      if next.Some? then Step(done.(optarg := next), "", 2)
      else Step(Complaint(MissingCode(opts), opt.val), "", 1)
    else
      Step(done, "", 1)
  }

  /** One call's worth of decoding: `rest` is the text still to be decoded in the option
      element `elem`, `next` the element after it. */
  ghost function Decode(elem: string, rest: string, next: Option<string>, cfg: Config, opts: string): (st: Step)
    requires |elem| > 1 && rest != ""
    ensures st.used == 0 ==> 0 < |st.rest| < |rest|
    ensures st.used > 0 ==> st.rest == ""
    ensures st.used <= if next.Some? then 2 else 1
  {
    if IsLong(elem, cfg, opts) then
      match Resolve(cfg.longopts.value, NameOf(rest), cfg.longOnly)
      case Ambiguous => Step(Complaint(QUESTION, 0), "", 1)
      case Found(i) => DecodeFound(rest, next, opts, cfg.longopts.value, i)
      case NotFound =>
        if !cfg.longOnly || elem[1] == '-' || rest[0] !in opts then Step(Complaint(QUESTION, 0), "", 1)
        else DecodeShort(rest, next, opts)
    else
      DecodeShort(rest, next, opts)
  }
}
