/**
 The resumable, permuting option scanner (src/replib/getopt_long.c). The static variables of
 the C file are the fields of one Scanner; each call of Next is one call of _getopt_internal.
 */
module Getopt {
  import opened Options
  import opened OptionDecoding
  import opened CommandLine
  import Exchange
  import W = WrittenOptions

  /** How a call ends: with -1, or with a reply for the caller. */
  datatype Outcome = Done | Said(reply: Reply)

  /** Where the scan stands once it has advanced to the next element. */
  datatype Position = AtEnd | AtOperand(reply: Reply) | AtOption

  function OrderingOf(opts: string, posixlyCorrect: bool): Ordering {
    if |opts| > 0 && opts[0] == '-' then ReturnInOrder
    else if |opts| > 0 && opts[0] == '+' then RequireOrder
    else if posixlyCorrect then RequireOrder
    else Permute
  }

  /** The option string without the leading character that selects an ordering. */
  function Stripped(opts: string): string {
    if |opts| > 0 && (opts[0] == '-' || opts[0] == '+') then opts[1..] else opts
  }

  function Min(a: nat, b: nat): nat {
    if a < b then a else b
  }

  // ----- the scan as a value: the arguments, the three indices and the text left

  /** Everything still to come, as the one-pass parse of the arguments: the elements sorted so
      far together with the parse of the rest. The skipped operands are s[f..l], the consumed
      elements s[1..f] and s[l..o]. */
  ghost function FutureOf(cfg: Config, cur: string, ord: Ordering, s: seq<string>, f: nat, l: nat, o: nat,
                          rest: string): Parse
    requires 1 <= f <= l <= o <= |s|
    requires rest != "" ==> o < |s| && IsOption(s[o])
  {
    Combine(s[1..f] + s[l..o], s[f..l],
            if rest == "" then Scan(cfg, ord, cur, s[o..]) else ScanWithin(cfg, ord, cur, s[o..], rest))
  }

  /** The arguments s stand sorted, with optind at the first operand. */
  ghost predicate SortedAs(s: seq<string>, optind: nat, p: Parse) {
    && s != []
    && s == s[..1] + p.consumed + p.operands
    && optind == 1 + |p.consumed|
    && p.replies == []
  }

  lemma {:induction false} ExchangeKeepsFuture(cfg: Config, cur: string, ord: Ordering, s: seq<string>, f: nat, l: nat,
                                               o: nat)
    requires 1 <= f <= l <= o <= |s|
    ensures var r := Exchange.Rotated(s, f, l, o);
      && r[..1] == s[..1]
      && FutureOf(cfg, cur, ord, r, f + (o - l), o, o, "") == FutureOf(cfg, cur, ord, s, f, l, o, "")
  {
    var r := Exchange.Rotated(s, f, l, o);
    assert r[o..] == s[o..];
    assert r[1..f + (o - l)] == s[1..f] + s[l..o];
    assert r[1..f + (o - l)] + r[o..o] == s[1..f] + s[l..o];
    assert r[f + (o - l)..o] == s[f..l];
  }

  lemma {:induction false} NothingSkippedKeepsFuture(cfg: Config, cur: string, ord: Ordering, s: seq<string>, f: nat,
                                                     o: nat)
    requires 1 <= f <= o <= |s|
    ensures FutureOf(cfg, cur, ord, s, o, o, o, "") == FutureOf(cfg, cur, ord, s, f, f, o, "")
  {
    assert s[1..f] + s[f..o] == s[1..o] == s[1..o] + s[o..o];
    assert s[o..o] == [] == s[f..f];
  }

  lemma {:induction false} SkipKeepsFuture(cfg: Config, cur: string, s: seq<string>, f: nat, o: nat)
    requires 1 <= f <= o < |s| && !IsOption(s[o])
    ensures FutureOf(cfg, cur, Permute, s, f, o + 1, o + 1, "") == FutureOf(cfg, cur, Permute, s, f, o, o, "")
  {
    var q := Scan(cfg, Permute, cur, s[o + 1..]);
    assert s[o..][1..] == s[o + 1..];
    assert s[o..o] == [] == s[o + 1..o + 1];
    assert s[1..f] + [] + ([] + q.consumed) == s[1..f] + [] + q.consumed;
    assert s[f..o] + ([s[o]] + q.operands) == s[f..o + 1] + q.operands;
  }

  /** Once `--' is reached, putting it and what was consumed before it in front of the skipped
      operands sorts everything. */
  lemma {:induction false} DashesEndTheScan(cfg: Config, cur: string, ord: Ordering, s: seq<string>, f: nat, l: nat,
                                            o: nat)
    requires 1 <= f <= l <= o < |s| && s[o] == "--"
    ensures Exchange.Rotated(s, f, l, o + 1)[..1] == s[..1]
    ensures SortedAs(Exchange.Rotated(s, f, l, o + 1), f + (o + 1 - l), FutureOf(cfg, cur, ord, s, f, l, o, ""))
  {
    var p := FutureOf(cfg, cur, ord, s, f, l, o, "");
    assert s[o..][0] == "--" && s[o..][1..] == s[o + 1..];
    assert p == Combine(s[1..f] + s[l..o], s[f..l], Parse(["--"], s[o + 1..], []));
    assert s[l..o + 1] == s[l..o] + ["--"];
    assert p.consumed == s[1..f] + s[l..o + 1];
    assert p.operands == s[f..l] + s[o + 1..];
    var r := Exchange.Rotated(s, f, l, o + 1);
    assert r[..1] == s[..1] && s[..f] == s[..1] + s[1..f];
  }

  lemma {:induction false} EndOfElements(cfg: Config, cur: string, ord: Ordering, s: seq<string>, f: nat, l: nat)
    requires 1 <= f <= l <= |s| && (f == l || l == |s|)
    ensures SortedAs(s, if f == l then |s| else f, FutureOf(cfg, cur, ord, s, f, l, |s|, ""))
  {
    hide Scan;
    assert s[|s|..] == [];
    NothingToScan(cfg, cur, ord);
    var p := FutureOf(cfg, cur, ord, s, f, l, |s|, "");
    if f == l {
      assert p.operands == [] && p.consumed == s[1..f] + s[f..] == s[1..];
      assert s == s[..1] + s[1..] + [];
    } else {
      assert p.operands == s[f..] && p.consumed == s[1..f];
      assert s == s[..1] + s[1..f] + s[f..];
    }
  }

  lemma {:induction false} NothingToScan(cfg: Config, cur: string, ord: Ordering)
    ensures Scan(cfg, ord, cur, []) == Parse([], [], [])
  {
  }

  lemma {:induction false} OperandEndsTheScan(cfg: Config, cur: string, s: seq<string>, f: nat, o: nat)
    requires 1 <= f <= o < |s| && !IsOption(s[o])
    ensures SortedAs(s, o, FutureOf(cfg, cur, RequireOrder, s, f, f, o, ""))
  {
    assert s[1..f] + s[f..o] == s[1..o];
    assert s[o..][0] == s[o];
    assert s == s[..1] + s[1..o] + s[o..];
  }

  lemma {:induction false} OperandIsReturned(cfg: Config, cur: string, s: seq<string>, f: nat, o: nat)
    requires 1 <= f <= o < |s| && !IsOption(s[o])
    ensures FutureOf(cfg, cur, ReturnInOrder, s, f, f, o, "")
         == Prepend(Plain(1).(optarg := Some(s[o])), FutureOf(cfg, cfg.opts, ReturnInOrder, s, f, f, o + 1, ""))
  {
    var q := Scan(cfg, ReturnInOrder, cfg.opts, s[o + 1..]);
    assert s[o..][0] == s[o] && s[o..][1..] == s[o + 1..];
    assert s[1..f] + s[f..o + 1] == s[1..f] + s[f..o] + [s[o]];
    assert s[1..f] + s[f..o] + ([s[o]] + q.consumed) == s[1..f] + s[f..o + 1] + q.consumed;
    assert s[f..f] + ([] + q.operands) == s[f..f] + q.operands;
  }

  lemma {:induction false} DecodingStarts(cfg: Config, cur: string, ord: Ordering, s: seq<string>, f: nat, l: nat,
                                          o: nat)
    requires 1 <= f <= l <= o < |s| && IsOption(s[o]) && s[o] != "--"
    ensures FutureOf(cfg, cur, ord, s, f, l, o, "") == FutureOf(cfg, cur, ord, s, f, l, o, OptionText(s[o], cfg))
  {
    assert s[o..][0] == s[o];
  }

  /** Decoding part of an element, or all of it and perhaps the element after it. */
  lemma {:induction false} DecodeKeepsFuture(cfg: Config, cur: string, ord: Ordering, s: seq<string>, f: nat, l: nat,
                                             o: nat, rest: string)
    requires 1 <= f <= l <= o < |s| && IsOption(s[o]) && rest != ""
    ensures var st := Decode(s[o], rest, Following(s[o..]), cfg, cur);
      && o + st.used <= |s|
      && FutureOf(cfg, cur, ord, s, f, l, o, rest)
         == Prepend(st.reply, FutureOf(cfg, cfg.opts, ord, s, f, l, o + st.used, st.rest))
  {
    hide Decode, Scan;
    var st := Decode(s[o], rest, Following(s[o..]), cfg, cur);
    if st.used > 0 {
      var q := Scan(cfg, ord, cfg.opts, s[o + st.used..]);
      assert s[o..][st.used..] == s[o + st.used..] && s[o..][..st.used] == s[o..o + st.used];
      assert s[l..o + st.used] == s[l..o] + s[o..o + st.used];
      assert s[1..f] + s[l..o] + (s[o..o + st.used] + q.consumed) == s[1..f] + s[l..o + st.used] + q.consumed;
      assert s[f..l] + ([] + q.operands) == s[f..l] + q.operands;
    }
  }

  lemma {:induction false} NothingSortedYet(cfg: Config, cur: string, ord: Ordering, s: seq<string>)
    requires s != []
    ensures FutureOf(cfg, cur, ord, s, 1, 1, 1, "") == Scan(cfg, ord, cur, s[1..])
  {
  }

  lemma {:induction false} SortedMeans(s: seq<string>, optind: nat, p: Parse)
    requires SortedAs(s, optind, p)
    ensures s == s[..1] + p.consumed + p.operands && optind == 1 + |p.consumed| && p.replies == []
  {
  }

  /** These replies were taken off the parse p, and `rest` is what is left of it. */
  ghost predicate IsCollected(p: Parse, replies: seq<Reply>, rest: Parse) {
    p == Parse(rest.consumed, rest.operands, replies + rest.replies)
  }

  lemma {:induction false} NothingCollected(p: Parse)
    ensures IsCollected(p, [], p)
  {
    assert [] + p.replies == p.replies;
  }

  lemma {:induction false} CollectOne(p: Parse, replies: seq<Reply>, reply: Reply, rest: Parse)
    requires IsCollected(p, replies, Prepend(reply, rest))
    ensures IsCollected(p, replies + [reply], rest) && |rest.replies| < |Prepend(reply, rest).replies|
  {
    assert replies + ([reply] + rest.replies) == (replies + [reply]) + rest.replies;
  }

  lemma {:induction false} AllCollected(p: Parse, replies: seq<Reply>, rest: Parse)
    requires IsCollected(p, replies, rest) && rest.replies == []
    ensures p == Parse(rest.consumed, rest.operands, replies)
  {
  }

  // ----- the scanner

  class Scanner {
    const argv: array<string>
    const posixlyCorrect: bool
    var optind: nat
    var firstNonopt: nat
    var lastNonopt: nat
    var nextchar: string   // "" where the C pointer is NULL or at the end of its element
    var ordering: Ordering
    var initialized: bool
    var optarg: Option<string>
    var optopt: int

    constructor (argv: array<string>, posixlyCorrect: bool)
      ensures this.argv == argv && this.posixlyCorrect == posixlyCorrect
      ensures !initialized && optind == 1
    {
      this.argv, this.posixlyCorrect := argv, posixlyCorrect;
      optind, firstNonopt, lastNonopt, nextchar := 1, 0, 0, "";
      ordering, initialized, optarg, optopt := Permute, false, None, QUESTION;
    }

    /** The next call starts a new scan. */
    predicate Fresh()
      reads this
    {
      optind == 0 || !initialized
    }

    /** What holds between calls, also when the caller has reset optind, or moved it back while no
        element is being decoded. */
    ghost predicate Valid()
      reads this, argv
    {
      && 0 < argv.Length
      && optind <= argv.Length
      && (!Fresh() ==> Ready())
    }

    ghost predicate Ready()
      reads this, argv
    {
      && 0 < optind <= argv.Length
      && 1 <= firstNonopt <= lastNonopt <= argv.Length
      && (ordering != Permute ==> Min(firstNonopt, optind) == Min(lastNonopt, optind))
      && (nextchar != "" ==> lastNonopt <= optind < argv.Length && IsOption(argv[optind]))
    }

    /** The skipped operands directly follow the consumed elements, and the options seen since
        then follow them. */
    ghost predicate Ordered()
      reads this
    {
      firstNonopt <= lastNonopt <= optind
    }

    ghost function FutureFrom(cfg: Config, cur: string): Parse
      requires Ready()
      reads this, argv
    {
      FutureOf(cfg, cur, ordering, argv[..], Min(firstNonopt, optind), Min(lastNonopt, optind), optind, nextchar)
    }

    ghost function Future(cfg: Config): Parse
      requires Valid()
      reads this, argv
    {
      if Fresh() then
        var start := if optind == 0 then 1 else optind;
        FutureOf(cfg, Stripped(cfg.opts), OrderingOf(cfg.opts, posixlyCorrect), argv[..], start, start, start, "")
      else FutureFrom(cfg, cfg.opts)
    }

    method Initialize(opts: string) returns (cur: string)
      requires 0 < optind <= argv.Length
      modifies this`firstNonopt, this`lastNonopt, this`nextchar, this`ordering, this`initialized
      ensures Ready() && Ordered() && initialized && nextchar == "" && cur == Stripped(opts)
      ensures firstNonopt == lastNonopt == optind && ordering == OrderingOf(opts, posixlyCorrect)
      ensures forall s :: opts == "-" + s ==> ordering == ReturnInOrder && cur == s
      ensures forall s :: opts == "+" + s ==> ordering == RequireOrder && cur == s
      ensures opts == "" || opts[0] !in "-+" ==>
        ordering == (if posixlyCorrect then RequireOrder else Permute) && cur == opts
    {
      firstNonopt, lastNonopt := optind, optind;
      nextchar := "";
      cur := opts;
      if |opts| > 0 && opts[0] == '-' {
        ordering := ReturnInOrder;
        cur := opts[1..];
      } else if |opts| > 0 && opts[0] == '+' {
        ordering := RequireOrder;
        cur := opts[1..];
      } else if posixlyCorrect {
        ordering := RequireOrder;
      } else {
        ordering := Permute;
      }
      initialized := true;
    }

    /** Moves the options seen since the last skipped operands in front of those operands. */
    method ExchangeSegments()
      requires 1 <= firstNonopt <= lastNonopt <= optind <= argv.Length
      modifies this`firstNonopt, this`lastNonopt, argv
      ensures argv[..] == Exchange.Rotated(old(argv[..]), old(firstNonopt), old(lastNonopt), optind)
      ensures firstNonopt == old(firstNonopt) + (optind - old(lastNonopt)) && lastNonopt == optind
    {
      ghost var n := Exchange.ExchangeBlocks(argv, firstNonopt, lastNonopt, optind);
      firstNonopt := firstNonopt + (optind - lastNonopt);
      lastNonopt := optind;
    }

    /** In PERMUTE order: sorts the elements behind optind and skips the operands there. */
    method SkipOperands(ghost cfg: Config, ghost cur: string)
      requires Ready() && Ordered() && initialized && nextchar == "" && ordering == Permute
      modifies this`firstNonopt, this`lastNonopt, this`optind, argv
      ensures Ready() && Ordered() && lastNonopt == optind
      ensures optind < argv.Length ==> IsOption(argv[optind])
      ensures argv[..1] == old(argv[..1])
      ensures FutureFrom(cfg, cur) == old(FutureFrom(cfg, cur))
    {
      hide FutureOf, Exchange.Rotated;
      ghost var s, f, l, o := argv[..], firstNonopt, lastNonopt, optind;
      if firstNonopt != lastNonopt && lastNonopt != optind {
        ExchangeSegments();
        ExchangeKeepsFuture(cfg, cur, Permute, s, f, l, o);
      } else if lastNonopt != optind {
        firstNonopt := optind;
        NothingSkippedKeepsFuture(cfg, cur, Permute, s, f, o);
      }
      ghost var t := argv[..];
      while optind < argv.Length && !IsOption(argv[optind])
        modifies this`optind
        invariant 1 <= firstNonopt <= optind <= |t|
        invariant FutureOf(cfg, cur, Permute, t, firstNonopt, optind, optind, "")
            == FutureOf(cfg, cur, Permute, s, f, l, o, "")
      {
        SkipKeepsFuture(cfg, cur, t, firstNonopt, optind);
        optind := optind + 1;
      }
      lastNonopt := optind;
      assert argv[..] == t;
    }

    /** Passes `--': what was consumed is put in front of the skipped operands, and everything
        behind it is an operand too. */
    method PassDashes(ghost cfg: Config, ghost cur: string)
      requires Ready() && Ordered() && nextchar == ""
      requires optind < argv.Length && argv[optind] == "--"
      modifies this`firstNonopt, this`lastNonopt, this`optind, argv
      ensures 1 <= firstNonopt <= lastNonopt == argv.Length == optind
      ensures argv[..1] == old(argv[..1])
      ensures SortedAs(argv[..], firstNonopt, old(FutureFrom(cfg, cur)))
    {
      hide FutureOf, SortedAs, Exchange.Rotated;
      ghost var s, f, l, o := argv[..], firstNonopt, lastNonopt, optind;
      DashesEndTheScan(cfg, cur, ordering, s, f, l, o);
      optind := optind + 1;
      if firstNonopt != lastNonopt && lastNonopt != optind {
        ExchangeSegments();
      } else if firstNonopt == lastNonopt {
        Exchange.NothingToExchange(s, f, f, o + 1);
        firstNonopt := optind;
      }
      lastNonopt := argv.Length;
      optind := argv.Length;
    }

    /** Advances to the next element when the current one is used up. */
    method Advance(cfg: Config, ghost cur: string) returns (pos: Position)
      requires Ready() && initialized && nextchar == ""
      modifies this`firstNonopt, this`lastNonopt, this`optind, this`nextchar, argv
      ensures Ready() && argv[..1] == old(argv[..1])
      ensures pos.AtEnd? ==> nextchar == "" && SortedAs(argv[..], optind, old(FutureFrom(cfg, cur)))
      ensures pos.AtOperand? ==> Ordered() && nextchar == ""
      ensures pos.AtOperand? ==> old(FutureFrom(cfg, cur)) == Prepend(pos.reply, FutureFrom(cfg, cfg.opts))
      ensures pos.AtOption? ==> Ordered() && nextchar != "" && old(FutureFrom(cfg, cur)) == FutureFrom(cfg, cur)
    {
      hide FutureOf;
      BackUp(cfg, cur);
      if ordering == Permute {
        SkipOperands(cfg, cur);
      }
      pos := Classify(cfg, cur);
    }

    /** Gives the bounds of the skipped operands rational values if the caller has moved optind
        back. */
    method BackUp(ghost cfg: Config, ghost cur: string)
      requires Ready() && nextchar == ""
      modifies this`firstNonopt, this`lastNonopt
      ensures Ready() && Ordered()
      ensures FutureFrom(cfg, cur) == old(FutureFrom(cfg, cur))
    {
      hide FutureOf;
      if lastNonopt > optind { lastNonopt := optind; }
      if firstNonopt > optind { firstNonopt := optind; }
    }

    /** Looks at the element behind the skipped operands: the end, `--', an operand that is not
        to be skipped, or an option. */
    method Classify(cfg: Config, ghost cur: string) returns (pos: Position)
      requires Ready() && Ordered() && initialized && nextchar == ""
      requires ordering == Permute ==> lastNonopt == optind && (optind < argv.Length ==> IsOption(argv[optind]))
      modifies this`firstNonopt, this`lastNonopt, this`optind, this`nextchar, argv
      ensures Ready() && argv[..1] == old(argv[..1])
      ensures pos.AtEnd? ==> nextchar == "" && SortedAs(argv[..], optind, old(FutureFrom(cfg, cur)))
      ensures pos.AtOperand? ==> Ordered() && nextchar == ""
      ensures pos.AtOperand? ==> old(FutureFrom(cfg, cur)) == Prepend(pos.reply, FutureFrom(cfg, cfg.opts))
      ensures pos.AtOption? ==> Ordered() && nextchar != "" && old(FutureFrom(cfg, cur)) == FutureFrom(cfg, cur)
    {
      hide FutureOf, SortedAs;
      ghost var s, f, l, o := argv[..], firstNonopt, lastNonopt, optind;
      if optind != argv.Length && argv[optind] == "--" {
        PassDashes(cfg, cur);
      } else if optind == argv.Length {
        EndOfElements(cfg, cur, ordering, s, f, l);
      }
      if optind == argv.Length {
        if firstNonopt != lastNonopt {
          optind := firstNonopt;
        }
        return AtEnd;
      }
      if !IsOption(argv[optind]) {
        if ordering == RequireOrder {
          OperandEndsTheScan(cfg, cur, s, f, o);
          return AtEnd;
        }
        OperandIsReturned(cfg, cur, s, f, o);
        optind := optind + 1;
        return AtOperand(Plain(1).(optarg := Some(argv[optind - 1])));
      }
      DecodingStarts(cfg, cur, ordering, s, f, l, o);
      nextchar := if cfg.longopts.Some? && argv[optind][1] == '-' then argv[optind][2..] else argv[optind][1..];
      return AtOption;
    }

    /** The text before '=' of the long option being decoded. */
    method ScanName() returns (n: nat)
      ensures n <= |nextchar| && nextchar[..n] == NameOf(nextchar)
    {
      n := 0;
      while n < |nextchar| && nextchar[n] != '='
        invariant n <= |nextchar| && '=' !in nextchar[..n]
      {
        n := n + 1;
      }
      NameEndsAt(nextchar, n);
    }

    /** Decodes the next option of the current element as a short one. */
    method TakeShort(opts: string, ghost next: Option<string>) returns (reply: Reply)
      requires nextchar != "" && optind < argv.Length
      requires next == Following(argv[optind..])
      modifies this`optind, this`nextchar, this`optarg, this`optopt
      ensures var st := DecodeShort(old(nextchar), next, opts);
        reply == st.reply && nextchar == st.rest && optind == old(optind) + st.used
      ensures optarg == reply.optarg && optopt == (if reply.optopt.Some? then reply.optopt.value else old(optopt))
    {
      var c := nextchar[0];
      nextchar := nextchar[1..];
      optarg := None;
      var temp := FromChar(opts, c);
      if nextchar == "" {
        optind := optind + 1;
      }
      if temp.None? || c == ':' {
        optopt := c as int;
        return Complaint(QUESTION, c as int);
      }
      if |temp.value| > 1 && temp.value[1] == ':' {
        if |temp.value| > 2 && temp.value[2] == ':' {
          if nextchar != "" {
            optarg := Some(nextchar);
            optind := optind + 1;
          }
          nextchar := "";
        } else {
          if nextchar != "" {
            optarg := Some(nextchar);
            optind := optind + 1;
          } else if optind == argv.Length {
            optopt := c as int;
            return Complaint(MissingCode(opts), c as int);
          } else {
            optarg := Some(argv[optind]);
            optind := optind + 1;
          }
          nextchar := "";
        }
      }
      return Plain(c as int).(optarg := optarg);
    }

    /** Acts on a long option found in row i of the table. */
    method TakeFound(opts: string, table: seq<LongOption>, i: nat, n: nat, ghost next: Option<string>)
      returns (reply: Reply)
      requires nextchar != "" && optind < argv.Length && i < |table|
      requires n <= |nextchar| && nextchar[..n] == NameOf(nextchar)
      requires next == Following(argv[optind..])
      modifies this`optind, this`nextchar, this`optarg, this`optopt
      ensures var st := DecodeFound(old(nextchar), next, opts, table, i);
        reply == st.reply && nextchar == st.rest && optind == old(optind) + st.used
      ensures optarg == reply.optarg && optopt == (if reply.optopt.Some? then reply.optopt.value else old(optopt))
    {
      var opt := table[i];
      optarg := None;
      optind := optind + 1;
      if n < |nextchar| {
        if opt.hasArg != 0 {
          optarg := Some(nextchar[n + 1..]);
        } else {
          nextchar := "";
          optopt := opt.val;
          return Complaint(QUESTION, opt.val);
        }
      } else if opt.hasArg == 1 {
        if optind < argv.Length {
          optarg := Some(argv[optind]);
          optind := optind + 1;
        } else {
          nextchar := "";
          optopt := opt.val;
          return Complaint(MissingCode(opts), opt.val);
        }
      }
      nextchar := "";
      if opt.flag.Some? {
        return Reply(0, optarg, None, Some(i), Some((opt.flag.value, opt.val)));
      }
      return Reply(opt.val, optarg, None, Some(i), None);
    }

    /** Decodes the next option of the current element. */
    method TakeOption(cfg: Config, opts: string) returns (reply: Reply)
      requires nextchar != "" && optind < argv.Length && IsOption(argv[optind])
      modifies this`optind, this`nextchar, this`optarg, this`optopt
      ensures var st := Decode(argv[old(optind)], old(nextchar), Following(argv[old(optind)..]), cfg, opts);
        reply == st.reply && nextchar == st.rest && optind == old(optind) + st.used
      ensures optarg == reply.optarg && optopt == (if reply.optopt.Some? then reply.optopt.value else old(optopt))
    {
      var elem := argv[optind];
      ghost var next := Following(argv[optind..]);
      if IsLong(elem, cfg, opts) {
        var n := ScanName();
        var found := LookupLong(cfg.longopts.value, nextchar[..n], cfg.longOnly);
        if found.Ambiguous? || (found.NotFound? && (!cfg.longOnly || elem[1] == '-' || nextchar[0] !in opts)) {
          nextchar := "";
          optind := optind + 1;
          optarg, optopt := None, 0;
          return Complaint(QUESTION, 0);
        }
        if found.Found? {
          reply := TakeFound(opts, cfg.longopts.value, found.index, n, next);
          return;
        }
      }
      reply := TakeShort(opts, next);
    }

    /** Takes the next reply off the current element. */
    method Continue(cfg: Config, cur: string) returns (reply: Reply)
      requires Ready() && initialized && nextchar != ""
      modifies this`optind, this`nextchar, this`optarg, this`optopt
      ensures Ready() && Ordered() && optarg == reply.optarg
      ensures old(FutureFrom(cfg, cur)) == Prepend(reply, FutureFrom(cfg, cfg.opts))
    {
      hide FutureOf, Decode;
      ghost var s, f, l, o := argv[..], firstNonopt, lastNonopt, optind;
      DecodeKeepsFuture(cfg, cur, ordering, s, f, l, o, nextchar);
      reply := TakeOption(cfg, cur);
      assert argv[o..] == s[o..] && argv[..] == s;
    }

    /** One call of getopt. It either reports the end, with the arguments sorted, or takes the
        next reply off what is still to come and leaves the rest unchanged, whatever it moved. */
    method Next(cfg: Config) returns (out: Outcome)
      requires 0 < argv.Length ==> Valid()
      requires !HasW(cfg.opts)
      modifies this, argv
      ensures argv.Length == 0 ==> out == Done
      ensures 0 < argv.Length ==> Valid() && !Fresh() && argv[..1] == old(argv[..1])
      ensures 0 < argv.Length && out.Done? ==> SortedAs(argv[..], optind, old(Future(cfg)))
      ensures out.Said? ==> 0 < argv.Length && Ordered() && optarg == out.reply.optarg
                            && old(Future(cfg)) == Prepend(out.reply, Future(cfg))
    {
      hide FutureOf, SortedAs, Prepend, HasW, IsOption, Stripped, OrderingOf;
      if argv.Length < 1 {
        return Done;
      }
      optarg := None;
      var cur := cfg.opts;
      if optind == 0 || !initialized {
        if optind == 0 {
          optind := 1;
        }
        cur := Initialize(cfg.opts);
      }
      if nextchar == "" {
        var pos := Advance(cfg, cur);
        if pos.AtEnd? {
          return Done;
        }
        if pos.AtOperand? {
          optarg := pos.reply.optarg;
          return Said(pos.reply);
        }
      }
      var reply := Continue(cfg, cur);
      return Said(reply);
    }

    /** A caller's loop: calls until the end. */
    method CallUntilDone(cfg: Config) returns (replies: seq<Reply>)
      requires 0 < argv.Length && Valid() && !HasW(cfg.opts)
      modifies this, argv
      ensures replies == old(Future(cfg)).replies
      ensures argv[..1] == old(argv[..1]) && SortedAs(argv[..], optind, old(Future(cfg)).(replies := []))
    {
      hide FutureOf, Scan, SortedAs, IsCollected, Prepend, FutureFrom, Ready, Future;
      ghost var p, name := Future(cfg), argv[..1];
      replies := [];
      ghost var rest := p;
      NothingCollected(p);
      var out := Next(cfg);
      while out.Said?
        invariant Valid() && argv[..1] == name
        invariant IsCollected(p, replies, rest)
        invariant out.Said? ==> rest == Prepend(out.reply, Future(cfg))
        invariant out.Done? ==> SortedAs(argv[..], optind, rest)
        decreases |rest.replies|, if out.Said? then 1 else 0
      {
        CollectOne(p, replies, out.reply, Future(cfg));
        rest := Future(cfg);
        replies := replies + [out.reply];
        out := Next(cfg);
      }
      SortedMeans(argv[..], optind, rest);
      AllCollected(p, replies, rest);
    }

    /** A whole run. Permuting is invisible to the caller: it collects the replies of the one-pass
        parse, and finds the program name, everything consumed and every operand in that order,
        with optind at the first operand. However the arguments were written, they are answered as
        they were meant. */
    method Run(cfg: Config) returns (replies: seq<Reply>)
      requires 0 < argv.Length && Fresh() && optind <= 1
      requires !HasW(cfg.opts)
      modifies this, argv
      ensures var p := Scan(cfg, OrderingOf(cfg.opts, posixlyCorrect), Stripped(cfg.opts), old(argv[1..]));
        && replies == p.replies
        && argv[..] == [old(argv[0])] + p.consumed + p.operands
        && optind == 1 + |p.consumed|
      ensures forall items, rest ::
        W.Spells(cfg, OrderingOf(cfg.opts, posixlyCorrect), Stripped(cfg.opts), items, rest, old(argv[1..])) ==>
          var p := W.Meant(cfg, OrderingOf(cfg.opts, posixlyCorrect), Stripped(cfg.opts), items, rest);
          && replies == p.replies
          && argv[..] == [old(argv[0])] + p.consumed + p.operands
          && optind == 1 + |p.consumed|
    {
      hide FutureOf, Scan, SortedAs, OrderingOf, Stripped, FutureFrom, Ready, W.Spells, W.Meant;
      ghost var ord, cur, xs := OrderingOf(cfg.opts, posixlyCorrect), Stripped(cfg.opts), argv[1..];
      forall items, rest | W.Spells(cfg, ord, cur, items, rest, xs)
        ensures Scan(cfg, ord, cur, xs) == W.Meant(cfg, ord, cur, items, rest)
      {
        W.WrittenIsRead(cfg, ord, cur, items, rest, xs);
      }
      ghost var p := Future(cfg);
      NothingSortedYet(cfg, Stripped(cfg.opts), OrderingOf(cfg.opts, posixlyCorrect), argv[..]);
      assert argv[..][1..] == argv[1..] && argv[..1] == [argv[0]];
      replies := CallUntilDone(cfg);
      SortedMeans(argv[..], optind, p.(replies := []));
      assert argv[..][..1] == argv[..1];
    }
  }
}
