/**
 Delegation never widens (src/server/vomsd.cc:1004-1071, 1424-1427): the server releases only
 FQANs that the holder's certificate chain already carries for the VO, once it carries any.
 */
module Narrowing {
  import opened Options
  import opened Strings
  import opened GenericAttributes

  // ----- one request

  /** What the narrowing part of makeAC decides. */
  datatype Decision =
    | Refused
    | Released(fqans: seq<string>, attribs: seq<GAttrib>, warnSubset: bool)

  /** The long format of an FQAN. */
  function LongForm(f: string): string {
    if Find(f, "/Role=").Some? then f + "/Capability=NULL" else f + "/Role=NULL/Capability=NULL"
  }

  function Formatted(fqans: seq<string>, shortfqans: bool): (r: seq<string>)
    ensures |r| == |fqans|
  {
    if shortfqans then fqans else seq(|fqans|, i requires 0 <= i < |fqans| => LongForm(fqans[i]))
  }

  /** The elements of s that are in `among`, in their order. */
  function Keep(s: seq<string>, among: seq<string>): (r: seq<string>)
    ensures |r| <= |s|
    ensures forall x :: x in r <==> x in s && x in among
  {
    if s == [] then []
    else
      var init, last := s[..|s| - 1], s[|s| - 1];
      assert s == init + [last];
      Keep(init, among) + (if last in among then [last] else [])
  }

  predicate Survives(g: GAttrib, fqans: seq<string>) {
    g.qualifier == "" || g.qualifier in fqans
  }

  function KeepAttribs(gs: seq<GAttrib>, fqans: seq<string>): (r: seq<GAttrib>)
    ensures forall g :: g in r <==> g in gs && Survives(g, fqans)
  {
    if gs == [] then []
    else
      var init, last := gs[..|gs| - 1], gs[|gs| - 1];
      assert gs == init + [last];
      KeepAttribs(init, fqans) + (if Survives(last, fqans) then [last] else [])
  }

  /** The decision on `fqans` for a holder who already has `existing`. */
  function Decide(fqans: seq<string>, attribs: seq<GAttrib>, existing: seq<string>, shortfqans: bool): Decision {
    var wanted := Formatted(fqans, shortfqans);
    var kept := if existing == [] then wanted else Keep(wanted, existing);
    if kept == [] then Refused
    else if |kept| != |wanted| then Released(kept, KeepAttribs(attribs, kept), true)
    else Released(kept, attribs, false)
  }

  /** The code: reformatting, removing what the holder does not have, and the attributes that
      depended on it. */
  method Narrow(fqans: seq<string>, attribs: seq<GAttrib>, existing: seq<string>, shortfqans: bool)
    returns (d: Decision)
    ensures d == Decide(fqans, attribs, existing, shortfqans)
  {
    hide Formatted, Keep, KeepAttribs;
    var wanted := Format(fqans, shortfqans);
    var kept := wanted;
    if existing != [] {
      kept := RemoveNotIn(wanted, existing);
    }
    var subset := |kept| != |wanted|;
    var left := attribs;
    if subset {
      left := RemoveNotInside(attribs, kept);
    }
    if |kept| == 0 {
      return Refused;
    }
    return Released(kept, left, subset);
  }

  method Format(fqans: seq<string>, shortfqans: bool) returns (wanted: seq<string>)
    ensures wanted == Formatted(fqans, shortfqans)
  {
    if shortfqans {
      return fqans;
    }
    hide LongForm;
    wanted := [];
    for i := 0 to |fqans|
      invariant |wanted| == i && forall k :: 0 <= k < i ==> wanted[k] == LongForm(fqans[k])
    {
      var fqan := Lengthen(fqans[i]);
      wanted := wanted + [fqan];
    }
  }

  method Lengthen(fqan: string) returns (long: string)
    ensures long == LongForm(fqan)
  {
    long := fqan;
    if Find(fqan, "/Role=").Some? {
      long := long + "/Capability=NULL";
    } else {
      long := long + "/Role=NULL/Capability=NULL";
    }
  }

  method RemoveNotIn(wanted: seq<string>, existing: seq<string>) returns (kept: seq<string>)
    ensures kept == Keep(wanted, existing)
  {
    kept := [];
    for i := 0 to |wanted|
      invariant kept == Keep(wanted[..i], existing)
    {
      assert wanted[..i + 1][..i] == wanted[..i];
      if wanted[i] in existing {
        kept := kept + [wanted[i]];
      }
    }
    assert wanted[..|wanted|] == wanted;
  }

  method RemoveNotInside(attribs: seq<GAttrib>, kept: seq<string>) returns (left: seq<GAttrib>)
    ensures left == KeepAttribs(attribs, kept)
  {
    left := [];
    for i := 0 to |attribs|
      invariant left == KeepAttribs(attribs[..i], kept)
    {
      assert attribs[..i + 1][..i] == attribs[..i];
      if !(attribs[i].qualifier != "" && attribs[i].qualifier !in kept) {
        left := left + [attribs[i]];
      }
    }
    assert attribs[..|attribs|] == attribs;
  }

  lemma {:induction false} KeepAll(s: seq<string>, among: seq<string>)
    ensures |Keep(s, among)| == |s| <==> forall x :: x in s ==> x in among
    ensures (forall x :: x in s ==> x in among) ==> Keep(s, among) == s
  {
    if s != [] {
      var init := s[..|s| - 1];
      assert s == init + [s[|s| - 1]];
      KeepAll(init, among);
    }
  }

  /** a can be had from b by leaving elements out. */
  ghost predicate IsSubsequence<T>(a: seq<T>, b: seq<T>)
    decreases |b|
  {
    if a == [] then true
    else if b == [] then false
    else
      || (a[|a| - 1] == b[|b| - 1] && IsSubsequence(a[..|a| - 1], b[..|b| - 1]))
      || IsSubsequence(a, b[..|b| - 1])
  }

  lemma {:induction false} KeepIsSubsequence(s: seq<string>, among: seq<string>)
    ensures IsSubsequence(Keep(s, among), s)
  {
    if s != [] {
      var init, last := s[..|s| - 1], s[|s| - 1];
      KeepIsSubsequence(init, among);
      var k := Keep(init, among);
      if last in among {
        assert (k + [last])[..|k|] == k;
      } else {
        assert k + [] == k;
      }
    }
  }

  lemma {:induction false} SubsequenceOfItself<T>(s: seq<T>)
    ensures IsSubsequence(s, s)
  {
    if s != [] {
      SubsequenceOfItself(s[..|s| - 1]);
    }
  }

  /** What one request releases: just the wanted FQANs the holder may have, in their order;
      a warning just when some were withheld, and then no attribute bound to an FQAN that is
      not released; and a refusal just when there is nothing to release. */
  lemma {:induction false} DecisionIsExact(fqans: seq<string>, attribs: seq<GAttrib>, existing: seq<string>,
                                           shortfqans: bool)
    ensures var wanted := Formatted(fqans, shortfqans);
      var d := Decide(fqans, attribs, existing, shortfqans);
      && (d.Refused? <==> forall f :: f in wanted ==> existing != [] && f !in existing)
      && (d.Released? ==>
           && IsSubsequence(d.fqans, wanted)
           && (forall f :: f in d.fqans <==> f in wanted && (existing == [] || f in existing))
           && (d.warnSubset <==> existing != [] && exists f :: f in wanted && f !in existing)
           && (!d.warnSubset ==> d.fqans == wanted && d.attribs == attribs)
           && (d.warnSubset ==> forall g :: g in d.attribs <==>
                g in attribs && (g.qualifier == "" || g.qualifier in d.fqans)))
  {
    var wanted := Formatted(fqans, shortfqans);
    var kept := if existing == [] then wanted else Keep(wanted, existing);
    if existing == [] {
      SubsequenceOfItself(wanted);
    } else {
      KeepAll(wanted, existing);
      KeepIsSubsequence(wanted, existing);
    }
    if kept == [] {
      forall f | f in wanted ensures existing != [] && f !in existing {
        assert f !in kept;
      }
    } else {
      assert kept[0] in kept;
    }
  }

  // ----- chains of delegation

  /** One attribute certificate in a certificate chain. */
  datatype Granted = Granted(vo: string, fqans: seq<string>)

  /** All FQANs the chain carries for the VO, as Retrieve(..., RECURSE_DEEP) collects them. */
  function Existing(chain: seq<Granted>, vo: string): seq<string> {
    if chain == [] then []
    else Existing(chain[..|chain| - 1], vo) + (if chain[|chain| - 1].vo == vo then chain[|chain| - 1].fqans else [])
  }

  /** What can happen to a holder's chain: this VO's server answers a request, whatever was
      retrieved for it and in whatever format, or another VO grants something. */
  datatype Event =
    | Request(fqans: seq<string>, attribs: seq<GAttrib>, shortfqans: bool)
    | Elsewhere(granted: Granted)

  predicate Possible(ev: Event, vo: string) {
    ev.Elsewhere? ==> ev.granted.vo != vo
  }

  function Answer(chain: seq<Granted>, ev: Event, vo: string): Decision
    requires ev.Request?
  {
    Decide(ev.fqans, ev.attribs, Existing(chain, vo), ev.shortfqans)
  }

  /** The chain after an event: what was granted is delegated on. */
  function Extend(chain: seq<Granted>, ev: Event, vo: string): seq<Granted> {
    match ev
    case Elsewhere(g) => chain + [g]
    case Request(_, _, _) =>
      match Answer(chain, ev, vo)
      case Refused => chain
      case Released(fqans, _, _) => chain + [Granted(vo, fqans)]
  }

  /** The chain after the first n events of a run. */
  function After(chain: seq<Granted>, run: seq<Event>, n: nat, vo: string): seq<Granted>
    requires n <= |run|
  {
    if n == 0 then chain else Extend(After(chain, run, n - 1, vo), run[n - 1], vo)
  }

  lemma {:induction false} ExistingSnoc(chain: seq<Granted>, g: Granted, vo: string)
    ensures Existing(chain + [g], vo) == Existing(chain, vo) + (if g.vo == vo then g.fqans else [])
  {
    assert (chain + [g])[..|chain|] == chain;
  }

  /** The set of a holder's FQANs for the VO never changes once it is not empty. */
  lemma {:induction false} RightsNeverChange(chain: seq<Granted>, run: seq<Event>, n: nat, vo: string)
    requires n <= |run| && forall i :: 0 <= i < |run| ==> Possible(run[i], vo)
    requires Existing(chain, vo) != []
    ensures Existing(After(chain, run, n, vo), vo) != []
    ensures forall f :: f in Existing(After(chain, run, n, vo), vo) <==> f in Existing(chain, vo)
  {
    hide Decide, Formatted, IsSubsequence, Existing;
    if n > 0 {
      RightsNeverChange(chain, run, n - 1, vo);
      var before, ev := After(chain, run, n - 1, vo), run[n - 1];
      match ev {
        case Elsewhere(g) =>
          ExistingSnoc(before, g, vo);
        case Request(fqans, attribs, shortfqans) =>
          DecisionIsExact(fqans, attribs, Existing(before, vo), shortfqans);
          var d := Answer(before, ev, vo);
          if d.Released? {
            ExistingSnoc(before, Granted(vo, d.fqans), vo);
          }
      }
    }
  }

  /** In every run of delegations, every certificate issued later carries only FQANs the holder
      had at the start, in the order retrieved for the request; and when something was
      withheld, only attributes without a qualifier or qualified by a released FQAN. */
  lemma {:induction false} DelegationNeverWidens(chain: seq<Granted>, run: seq<Event>, n: nat, vo: string)
    requires n < |run| && forall i :: 0 <= i < |run| ==> Possible(run[i], vo)
    requires Existing(chain, vo) != [] && run[n].Request?
    ensures var d := Answer(After(chain, run, n, vo), run[n], vo);
      d.Released? ==>
        && (forall f :: f in d.fqans ==> f in Existing(chain, vo))
        && IsSubsequence(d.fqans, Formatted(run[n].fqans, run[n].shortfqans))
        && (d.warnSubset <==> exists f :: f in Formatted(run[n].fqans, run[n].shortfqans) && f !in Existing(chain, vo))
        && (d.warnSubset ==> forall g :: g in d.attribs ==>
             g in run[n].attribs && (g.qualifier == "" || g.qualifier in d.fqans))
  {
    RightsNeverChange(chain, run, n, vo);
    DecisionIsExact(run[n].fqans, run[n].attribs, Existing(After(chain, run, n, vo), vo), run[n].shortfqans);
  }
}
