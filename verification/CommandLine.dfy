/**
 What a command line means, said without permuting anything: one left-to-right pass over the
 arguments that sorts them into consumed elements (options, option-arguments, `--') and
 operands, and lists the replies a caller collects. The permuting scanner in module Getopt is
 proved against this.
 */
module CommandLine {
  import opened Options
  import opened OptionDecoding

  datatype Ordering = RequireOrder | Permute | ReturnInOrder

  datatype Parse = Parse(consumed: seq<string>, operands: seq<string>, replies: seq<Reply>)

  /** The element has option syntax: a dash and something after it. */
  predicate IsOption(elem: string) {
    |elem| > 1 && elem[0] == '-'
  }

  /** The text of an option element after its punctuation. */
  function OptionText(elem: string, cfg: Config): (rest: string)
    requires IsOption(elem) && elem != "--"
    ensures rest != ""
  {
    if cfg.longopts.Some? && elem[1] == '-' then assert |elem| > 2; elem[2..] else elem[1..]
  }

  function Following(xs: seq<string>): Option<string> {
    if |xs| > 1 then Some(xs[1]) else None
  }

  /** The parse with more elements already sorted in front of it. */
  function Combine(consumed: seq<string>, operands: seq<string>, p: Parse): Parse {
    Parse(consumed + p.consumed, operands + p.operands, p.replies)
  }

  function Prepend(reply: Reply, p: Parse): Parse {
    Parse(p.consumed, p.operands, [reply] + p.replies)
  }

  /** Scans xs. The option string is `cur` until the next reply and cfg.opts after it: only
      the first call strips the leading character that selects an ordering. */
  ghost function Scan(cfg: Config, ord: Ordering, cur: string, xs: seq<string>): Parse
    decreases |xs|, 1, 0
  {
    if xs == [] then Parse([], [], [])
    else if xs[0] == "--" then Parse(["--"], xs[1..], [])
    else if !IsOption(xs[0]) then
      match ord
      case Permute => Combine([], [xs[0]], Scan(cfg, ord, cur, xs[1..]))
      case RequireOrder => Parse([], xs, [])
      case ReturnInOrder =>
        Prepend(Plain(1).(optarg := Some(xs[0])), Combine([xs[0]], [], Scan(cfg, ord, cfg.opts, xs[1..])))
    else ScanWithin(cfg, ord, cur, xs, OptionText(xs[0], cfg))
  }

  /** Scans on from inside the option element xs[0], of which the text `rest` is left. */
  ghost function ScanWithin(cfg: Config, ord: Ordering, cur: string, xs: seq<string>, rest: string): Parse
    requires xs != [] && IsOption(xs[0]) && rest != ""
    decreases |xs|, 0, |rest|
  {
    var st := Decode(xs[0], rest, Following(xs), cfg, cur);
    Prepend(st.reply,
            if st.used == 0 then ScanWithin(cfg, ord, cfg.opts, xs, st.rest)
            else Combine(xs[..st.used], [], Scan(cfg, ord, cfg.opts, xs[st.used..])))
  }

  // ----- the pass is a stable partition

  /** xs is an interleaving of a and b that keeps the order within each. */
  ghost predicate Interleaves<T>(xs: seq<T>, a: seq<T>, b: seq<T>)
    decreases |xs|
  {
    if xs == [] then a == [] && b == []
    else
      || (a != [] && a[0] == xs[0] && Interleaves(xs[1..], a[1..], b))
      || (b != [] && b[0] == xs[0] && Interleaves(xs[1..], a, b[1..]))
  }

  lemma {:induction false} InterleavesRight<T>(b: seq<T>)
    ensures Interleaves(b, [], b)
  {
    if b != [] {
      InterleavesRight(b[1..]);
    }
  }

  lemma {:induction false} InterleavesPrefix<T>(p: seq<T>, xs: seq<T>, a: seq<T>, b: seq<T>)
    requires Interleaves(xs, a, b)
    ensures Interleaves(p + xs, p + a, b)
  {
    if p != [] {
      InterleavesPrefix(p[1..], xs, a, b);
      assert (p + xs)[1..] == p[1..] + xs && (p + a)[1..] == p[1..] + a;
    } else {
      assert p + xs == xs && p + a == a;
    }
  }

  lemma {:induction false} InterleavesPermutation<T>(xs: seq<T>, a: seq<T>, b: seq<T>)
    requires Interleaves(xs, a, b)
    ensures multiset(a) + multiset(b) == multiset(xs) && |a| + |b| == |xs|
  {
    if xs != [] {
      assert xs == [xs[0]] + xs[1..];
      if a != [] && a[0] == xs[0] && Interleaves(xs[1..], a[1..], b) {
        InterleavesPermutation(xs[1..], a[1..], b);
        assert a == [a[0]] + a[1..];
      } else {
        InterleavesPermutation(xs[1..], a, b[1..]);
        assert b == [b[0]] + b[1..];
      }
    }
  }

  /** Consumed elements and operands make up the command line, each in their original order;
      and unless `--' ended the options, no operand of a permuted scan looks like one. */
  lemma {:induction false} ScanIsStablePartition(cfg: Config, ord: Ordering, cur: string, xs: seq<string>)
    ensures var p := Scan(cfg, ord, cur, xs);
      && Interleaves(xs, p.consumed, p.operands)
      && (ord != RequireOrder && "--" !in p.consumed ==> forall x :: x in p.operands ==> !IsOption(x))
    decreases |xs|, 1, 0
  {
    hide Decode;
    var p := Scan(cfg, ord, cur, xs);
    if xs == [] {
    } else if xs[0] == "--" {
      InterleavesRight(xs[1..]);
      InterleavesPrefix(["--"], xs[1..], [], xs[1..]);
      assert xs == ["--"] + xs[1..];
    } else if !IsOption(xs[0]) {
      match ord {
        case Permute =>
          ScanIsStablePartition(cfg, ord, cur, xs[1..]);
          var q := Scan(cfg, ord, cur, xs[1..]);
          assert p.consumed == q.consumed && p.operands[1..] == q.operands;
        case RequireOrder =>
          InterleavesRight(xs);
        case ReturnInOrder =>
          ScanIsStablePartition(cfg, ord, cfg.opts, xs[1..]);
          var q := Scan(cfg, ord, cfg.opts, xs[1..]);
          InterleavesPrefix([xs[0]], xs[1..], q.consumed, q.operands);
          assert xs == [xs[0]] + xs[1..] && p.operands == q.operands;
      }
    } else {
      ScanWithinIsStablePartition(cfg, ord, cur, xs, OptionText(xs[0], cfg));
    }
  }

  lemma {:induction false} ScanWithinIsStablePartition(cfg: Config, ord: Ordering, cur: string, xs: seq<string>,
                                                       rest: string)
    requires xs != [] && IsOption(xs[0]) && rest != ""
    ensures var p := ScanWithin(cfg, ord, cur, xs, rest);
      && Interleaves(xs, p.consumed, p.operands)
      && (ord != RequireOrder && "--" !in p.consumed ==> forall x :: x in p.operands ==> !IsOption(x))
    decreases |xs|, 0, |rest|
  {
    var st := Decode(xs[0], rest, Following(xs), cfg, cur);
    if st.used == 0 {
      ScanWithinIsStablePartition(cfg, ord, cfg.opts, xs, st.rest);
    } else {
      ScanIsStablePartition(cfg, ord, cfg.opts, xs[st.used..]);
      var q := Scan(cfg, ord, cfg.opts, xs[st.used..]);
      InterleavesPrefix(xs[..st.used], xs[st.used..], q.consumed, q.operands);
      assert xs == xs[..st.used] + xs[st.used..];
      var p := ScanWithin(cfg, ord, cur, xs, rest);
      assert p.consumed == xs[..st.used] + q.consumed && p.operands == q.operands;
    }
  }

  // ----- the sorted command line means the same to a scanner that does not permute

  /** The scan ends in an option that wants an argument where no element is left. */
  ghost predicate ArgumentMissing(cfg: Config, cur: string, xs: seq<string>)
    decreases |xs|, 1, 0
  {
    if xs == [] || xs[0] == "--" then false
    else if !IsOption(xs[0]) then ArgumentMissing(cfg, cur, xs[1..])
    else MissingWithin(cfg, cur, xs, OptionText(xs[0], cfg))
  }

  ghost predicate MissingWithin(cfg: Config, cur: string, xs: seq<string>, rest: string)
    requires xs != [] && IsOption(xs[0]) && rest != ""
    decreases |xs|, 0, |rest|
  {
    var st := Decode(xs[0], rest, Following(xs), cfg, cur);
    || (|xs| == 1 && WantsNext(xs[0], rest, cfg, cur))
    || (if st.used == 0 then MissingWithin(cfg, cfg.opts, xs, st.rest)
        else ArgumentMissing(cfg, cfg.opts, xs[st.used..]))
  }

  /** The option would take the following element as its argument. */
  ghost predicate WantsNext(elem: string, rest: string, cfg: Config, cur: string)
    requires IsOption(elem) && rest != ""
  {
    Decode(elem, rest, Some(""), cfg, cur).used == 2
  }

  /** Only an option that wants an argument looks at the following element. */
  lemma {:induction false} DecodeLooksAhead(elem: string, rest: string, cfg: Config, cur: string, next: Option<string>)
    requires IsOption(elem) && rest != ""
    ensures !WantsNext(elem, rest, cfg, cur) ==>
      Decode(elem, rest, next, cfg, cur) == Decode(elem, rest, None, cfg, cur)
    ensures WantsNext(elem, rest, cfg, cur) ==>
      var st := Decode(elem, rest, next, cfg, cur);
      if next.Some? then st.used == 2 && st.reply.optarg == next else st.used == 1 && st.reply.optarg == None
  {
  }

  ghost predicate NoOptions(xs: seq<string>) {
    forall x :: x in xs ==> !IsOption(x)
  }

  /** After a permuting scan, scanning the sorted arguments again without permuting gives the
      very same parse, except when the last option lacks its argument: it would then find the
      first operand in that place. `skipped` are operands met before xs. */
  lemma {:induction false} Replay(cfg: Config, cur: string, xs: seq<string>, skipped: seq<string>)
    requires NoOptions(skipped)
    ensures var p := Scan(cfg, Permute, cur, xs);
      Scan(cfg, RequireOrder, cur, p.consumed + (skipped + p.operands)) == Combine([], skipped, p)
      <==> (skipped + p.operands == [] || !ArgumentMissing(cfg, cur, xs))
    decreases |xs|, 1, 0
  {
    var p := Scan(cfg, Permute, cur, xs);
    var ys := p.consumed + (skipped + p.operands);
    if xs == [] {
      assert ys == skipped && skipped + p.operands == skipped;
    } else if xs[0] == "--" {
      assert ys[0] == "--" && ys[1..] == skipped + p.operands;
    } else if !IsOption(xs[0]) {
      var q := Scan(cfg, Permute, cur, xs[1..]);
      assert p == Combine([], [xs[0]], q) && p.consumed == q.consumed;
      assert skipped + ([xs[0]] + q.operands) == skipped + [xs[0]] + q.operands;
      Replay(cfg, cur, xs[1..], skipped + [xs[0]]);
      assert Combine([], skipped + [xs[0]], q) == Combine([], skipped, p);
    } else {
      ReplayWithin(cfg, cur, xs, OptionText(xs[0], cfg), skipped);
      assert ys[0] == xs[0];
    }
  }

  /** An argument that is missing the first time and not the second: `x` is an operand, and then
      the argument of `-a`. */
  lemma {:induction false} ReplayMayDiffer(cfg: Config)
    requires cfg.opts == "a:" && cfg.longopts.None?
    ensures var xs := ["x", "-a"];
      var p := Scan(cfg, Permute, cfg.opts, xs);
      p.consumed == ["-a"] && p.operands == ["x"]
      && Scan(cfg, RequireOrder, cfg.opts, p.consumed + p.operands) != p
  {
  }

  lemma {:induction false} PrependInjective(reply: Reply, p: Parse, q: Parse)
    ensures Prepend(reply, p) == Prepend(reply, q) <==> p == q
  {
    if Prepend(reply, p) == Prepend(reply, q) {
      assert p.replies == ([reply] + p.replies)[1..] == ([reply] + q.replies)[1..];
    }
  }

  lemma {:induction false} ReplayWithin(cfg: Config, cur: string, xs: seq<string>, rest: string, skipped: seq<string>)
    requires xs != [] && IsOption(xs[0]) && rest != "" && NoOptions(skipped)
    ensures var p := ScanWithin(cfg, Permute, cur, xs, rest);
      var ys := p.consumed + (skipped + p.operands);
      && ys != [] && ys[0] == xs[0]
      && (ScanWithin(cfg, RequireOrder, cur, ys, rest) == Combine([], skipped, p)
          <==> (skipped + p.operands == [] || !MissingWithin(cfg, cur, xs, rest)))
    decreases |xs|, 0, |rest|
  {
    hide Decode, Scan, ScanWithin;
    var st := Decode(xs[0], rest, Following(xs), cfg, cur);
    DecodeLooksAhead(xs[0], rest, cfg, cur, Following(xs));
    var p := ScanWithin(cfg, Permute, cur, xs, rest);
    var ys := p.consumed + (skipped + p.operands);
    if st.used == 0 {
      var q := ScanWithin(cfg, Permute, cfg.opts, xs, st.rest);
      WithinElement(cfg, Permute, cur, xs, rest);
      ReplayWithin(cfg, cfg.opts, xs, st.rest, skipped);
      DecodeLooksAhead(xs[0], rest, cfg, cur, Following(ys));
      WithinElement(cfg, RequireOrder, cur, ys, rest);
      PrependInjective(st.reply, ScanWithin(cfg, RequireOrder, cfg.opts, ys, st.rest), Combine([], skipped, q));
    } else {
      ReplayWhole(cfg, cur, xs, rest, skipped);
    }
  }

  lemma {:induction false} WithinElement(cfg: Config, ord: Ordering, cur: string, xs: seq<string>, rest: string)
    requires xs != [] && IsOption(xs[0]) && rest != ""
    ensures var st := Decode(xs[0], rest, Following(xs), cfg, cur);
      ScanWithin(cfg, ord, cur, xs, rest)
      == Prepend(st.reply, if st.used == 0 then ScanWithin(cfg, ord, cfg.opts, xs, st.rest)
                           else Combine(xs[..st.used], [], Scan(cfg, ord, cfg.opts, xs[st.used..])))
  {
  }

  /** The replay when the rest of the element is decoded at once. */
  lemma {:induction false} ReplayWhole(cfg: Config, cur: string, xs: seq<string>, rest: string, skipped: seq<string>)
    requires xs != [] && IsOption(xs[0]) && rest != "" && NoOptions(skipped)
    requires Decode(xs[0], rest, Following(xs), cfg, cur).used > 0
    ensures var p := ScanWithin(cfg, Permute, cur, xs, rest);
      var ys := p.consumed + (skipped + p.operands);
      && ys != [] && ys[0] == xs[0]
      && (ScanWithin(cfg, RequireOrder, cur, ys, rest) == Combine([], skipped, p)
          <==> (skipped + p.operands == [] || !MissingWithin(cfg, cur, xs, rest)))
    decreases |xs|, 0, 0
  {
    hide Decode, Scan, ScanWithin, NoOptions;
    var st := Decode(xs[0], rest, Following(xs), cfg, cur);
    DecodeLooksAhead(xs[0], rest, cfg, cur, Following(xs));
    var p := ScanWithin(cfg, Permute, cur, xs, rest);
    var ys := p.consumed + (skipped + p.operands);
    var q := Scan(cfg, Permute, cfg.opts, xs[st.used..]);
    WithinElement(cfg, Permute, cur, xs, rest);
    Replay(cfg, cfg.opts, xs[st.used..], skipped);
    assert p.operands == q.operands && p.replies == [st.reply] + q.replies;
    assert ys == xs[..st.used] + (q.consumed + (skipped + q.operands));
    assert ys[..st.used] == xs[..st.used] && ys[st.used..] == q.consumed + (skipped + q.operands);
    DecodeLooksAhead(xs[0], rest, cfg, cur, Following(ys));
    WithinElement(cfg, RequireOrder, cur, ys, rest);
    SameLength(cfg, xs, st.used, q);
    var st' := Decode(ys[0], rest, Following(ys), cfg, cur);
    if |xs| == 1 && WantsNext(xs[0], rest, cfg, cur) && skipped != [] {
      assert st'.reply.optarg == Some(skipped[0]) && st.reply.optarg == None;
      assert ScanWithin(cfg, RequireOrder, cur, ys, rest).replies[0] != p.replies[0];
    } else {
      assert Following(ys) == Following(xs) || !WantsNext(xs[0], rest, cfg, cur) by {
        assert |xs| > 1 && st.used == 2 ==> ys[..2][1] == xs[..2][1];
      }
      assert st' == st;
      SameAgain(xs[..st.used], st.reply, skipped, Scan(cfg, RequireOrder, cfg.opts, ys[st.used..]), q);
    }
  }

  /** Putting the same element in front of both sides tells nothing apart. */
  lemma {:induction false} SameAgain(taken: seq<string>, reply: Reply, skipped: seq<string>, r: Parse, q: Parse)
    ensures Prepend(reply, Combine(taken, [], r)) == Combine([], skipped, Prepend(reply, Combine(taken, [], q)))
            <==> r == Combine([], skipped, q)
  {
    CombineInjective(taken, r, Combine([], skipped, q));
    PrependInjective(reply, Combine(taken, [], r), Combine(taken, [], Combine([], skipped, q)));
    assert Combine([], skipped, Prepend(reply, Combine(taken, [], q)))
        == Prepend(reply, Combine(taken, [], Combine([], skipped, q)));
  }

  lemma {:induction false} SameLength(cfg: Config, xs: seq<string>, used: nat, q: Parse)
    requires 0 < used <= |xs| && q == Scan(cfg, Permute, cfg.opts, xs[used..])
    ensures |q.consumed| + |q.operands| == |xs| - used
  {
    ScanIsStablePartition(cfg, Permute, cfg.opts, xs[used..]);
    InterleavesPermutation(xs[used..], q.consumed, q.operands);
  }

  lemma {:induction false} CombineInjective(c: seq<string>, p: Parse, q: Parse)
    ensures Combine(c, [], p) == Combine(c, [], q) <==> p == q
  {
    if Combine(c, [], p) == Combine(c, [], q) {
      assert p.consumed == (c + p.consumed)[|c|..] == (c + q.consumed)[|c|..] == q.consumed;
      assert p.operands == [] + p.operands == [] + q.operands == q.operands;
    }
  }
}
