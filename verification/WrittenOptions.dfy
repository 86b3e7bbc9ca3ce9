/**
 How command lines are written, and what a caller is told of each: options with their arguments
 attached, separate or missing, clusters of short options, and operands between them. Nothing here
 decodes; the parse of a command line is proved to give back what was written
 (src/replib/getopt_long.c:510-1188).
 */
module WrittenOptions {
  import opened Options
  import opened OptionDecoding
  import opened CommandLine

  /** Where an option's argument stands: nowhere, in the option's own element, or in the next. */
  datatype Argument = Absent | Attached(value: string) | Separate(value: string)

  /** The option that ends an element. A long one carries what its name is looked up to. */
  datatype Last = Long(name: string, found: Lookup, arg: Argument) | Short(letter: char, arg: Argument)

  /** An operand, or an option element: one or two dashes, short options, and the last option. */
  datatype Item = Operand(text: string) | Element(lead: string, flags: string, last: Last)

  function LastText(last: Last): (text: string) {
    match last
    case Long(name, _, Attached(v)) => name + "=" + v
    case Long(name, _, _) => name
    case Short(c, Attached(v)) => [c] + v
    case Short(c, _) => [c]
  }

  function Head(item: Item): string {
    match item
    case Operand(text) => text
    case Element(lead, flags, last) => lead + (flags + LastText(last))
  }

  function Taken(elem: string, last: Last): seq<string> {
    if last.arg.Separate? then [elem, last.arg.value] else [elem]
  }

  function Elements(item: Item): seq<string> {
    if item.Element? then Taken(Head(item), item.last) else [item.text]
  }

  function AllElements(items: seq<Item>): seq<string> {
    if items == [] then [] else Elements(items[0]) + AllElements(items[1..])
  }

  // ----- what may be written

  /** An empty element, a single dash, or one that does not start with a dash. */
  predicate IsOperand(x: string) {
    x == "" || x == "-" || x[0] != '-'
  }

  /** The first mention of c in the option string is at k. */
  ghost predicate FirstAt(opts: string, c: char, k: nat) {
    k < |opts| && opts[k] == c && c !in opts[..k]
  }

  /** How many colons, of at most two, stand behind the first letter. */
  function Colons(s: string): nat {
    if |s| < 2 || s[1] != ':' then 0 else if |s| < 3 || s[2] != ':' then 1 else 2
  }

  /** The option string knows the letter c, with n colons behind its first mention. */
  ghost predicate Knows(opts: string, c: char, n: nat) {
    c != ':' && exists k: nat :: FirstAt(opts, c, k) && n == Colons(opts[k..])
  }

  /** Two dashes introduce a long option, and with `longOnly` one dash does too, unless it stands
      before a single known letter. */
  predicate LooksLong(cfg: Config, cur: string, elem: string)
    requires |elem| > 1
  {
    cfg.longopts.Some? && (elem[1] == '-' || (cfg.longOnly && !(|elem| == 2 && elem[1] in cur)))
  }

  /** No long option has a name like this, but its first letter may be meant. */
  ghost predicate FallsToShort(cfg: Config, cur: string, elem: string, name: string, first: char)
    requires |elem| > 1 && cfg.longopts.Some?
  {
    Resolves(cfg.longopts.value, name, cfg.longOnly, NotFound) && cfg.longOnly && elem[1] != '-' && first in cur
  }

  /** The text `rest` of the element is read as a short option. */
  ghost predicate LooksShort(cfg: Config, cur: string, elem: string, rest: string)
    requires |elem| > 1 && rest != ""
  {
    LooksLong(cfg, cur, elem) ==> FallsToShort(cfg, cur, elem, NameOf(rest), rest[0])
  }

  /** The letters of `flags` stand before `tail` and take no argument. */
  ghost predicate FlagsFit(cfg: Config, cur: string, elem: string, flags: string, tail: string)
    requires |elem| > 1
    decreases |flags|
  {
    flags == "" ||
    (&& LooksShort(cfg, cur, elem, flags + tail)
     && !Knows(cur, flags[0], 1) && !Knows(cur, flags[0], 2)
     && FlagsFit(cfg, cfg.opts, elem, flags[1..], tail))
  }

  /** The last option of an element; `more` says that another element follows it. */
  ghost predicate LastFits(cfg: Config, cur: string, elem: string, last: Last, more: bool)
    requires |elem| > 1
  {
    match last
    case Long(name, found, arg) =>
      && LastText(last) != "" && '=' !in name
      && LooksLong(cfg, cur, elem)
      && Resolves(cfg.longopts.value, name, cfg.longOnly, found)
      && !FallsToShort(cfg, cur, elem, name, LastText(last)[0])
      && (arg.Separate? ==> found.Found? && cfg.longopts.value[found.index].hasArg == 1)
      && (arg.Absent? && found.Found? && cfg.longopts.value[found.index].hasArg == 1 ==> !more)
    case Short(c, arg) =>
      && LooksShort(cfg, cur, elem, LastText(last))
      && (arg.Attached? ==> arg.value != "" && (Knows(cur, c, 1) || Knows(cur, c, 2)))
      && (arg.Separate? ==> Knows(cur, c, 1))
      && (arg.Absent? && Knows(cur, c, 1) ==> !more)
  }

  ghost predicate ItemFits(cfg: Config, ord: Ordering, cur: string, item: Item, more: bool) {
    match item
    case Operand(text) => ord != RequireOrder && IsOperand(text)
    case Element(lead, flags, last) =>
      var text := flags + LastText(last);
      && text != "" && lead + text != "--"
      && (if lead == "--" then cfg.longopts.Some? else lead == "-" && (cfg.longopts.Some? ==> text[0] != '-'))
      && FlagsFit(cfg, cur, lead + text, flags, LastText(last))
      && LastFits(cfg, if flags == "" then cur else cfg.opts, lead + text, last, more)
  }

  /** The option string after an item: the first reply restores the leading character. */
  function After(cfg: Config, ord: Ordering, cur: string, item: Item): string {
    if item.Operand? && ord == Permute then cur else cfg.opts
  }

  function AfterAll(cfg: Config, ord: Ordering, cur: string, items: seq<Item>): string
    decreases |items|
  {
    if items == [] then cur else AfterAll(cfg, ord, After(cfg, ord, cur, items[0]), items[1..])
  }

  ghost predicate Fit(cfg: Config, ord: Ordering, cur: string, items: seq<Item>, more: bool)
    decreases |items|
  {
    items == [] ||
    (&& ItemFits(cfg, ord, cur, items[0], items[1..] != [] || more)
     && Fit(cfg, ord, After(cfg, ord, cur, items[0]), items[1..], more))
  }

  // ----- what the caller is told

  /** The row is reported, and its value returned or stored in the flag it names. */
  function RowReply(row: LongOption, i: nat, arg: Option<string>): Reply {
    match row.flag
    case None => Reply(row.val, arg, None, Some(i), None)
    case Some(flag) => Reply(0, arg, None, Some(i), Some((flag, row.val)))
  }

  function MissingReply(cur: string, optopt: int): Reply {
    Reply(if cur != "" && cur[0] == ':' then ':' as int else '?' as int, None, Some(optopt), None, None)
  }

  function WrongReply(optopt: int): Reply {
    Reply('?' as int, None, Some(optopt), None, None)
  }

  function ValueOf(arg: Argument): Option<string> {
    if arg.Absent? then None else Some(arg.value)
  }

  ghost function LastReply(cfg: Config, cur: string, last: Last): Reply {
    match last
    case Long(_, found, arg) =>
      if found.Found? && cfg.longopts.Some? && found.index < |cfg.longopts.value| then
        var row := cfg.longopts.value[found.index];
        if arg.Absent? && row.hasArg == 1 then MissingReply(cur, row.val)
        else if arg.Attached? && row.hasArg == 0 then WrongReply(row.val)
        else RowReply(row, found.index, ValueOf(arg))
      else WrongReply(0)
    case Short(c, arg) =>
      if c == ':' || c !in cur then WrongReply(c as int)
      else if arg.Absent? && Knows(cur, c, 1) then MissingReply(cur, c as int)
      else Reply(c as int, ValueOf(arg), None, None, None)
  }

  function FlagReply(cur: string, c: char): Reply {
    if c == ':' || c !in cur then WrongReply(c as int) else Reply(c as int, None, None, None, None)
  }

  function FlagReplies(cfg: Config, cur: string, flags: string): seq<Reply>
    decreases |flags|
  {
    if flags == "" then [] else [FlagReply(cur, flags[0])] + FlagReplies(cfg, cfg.opts, flags[1..])
  }

  ghost function RestReplies(cfg: Config, cur: string, flags: string, last: Last): seq<Reply> {
    FlagReplies(cfg, cur, flags) + [LastReply(cfg, if flags == "" then cur else cfg.opts, last)]
  }

  ghost function ItemReplies(cfg: Config, ord: Ordering, cur: string, item: Item): seq<Reply> {
    match item
    case Operand(text) => if ord == ReturnInOrder then [Reply(1, Some(text), None, None, None)] else []
    case Element(_, flags, last) =>
      RestReplies(cfg, cur, flags, last)
  }

  ghost function Replies(cfg: Config, ord: Ordering, cur: string, items: seq<Item>): seq<Reply>
    decreases |items|
  {
    if items == [] then []
    else ItemReplies(cfg, ord, cur, items[0]) + Replies(cfg, ord, After(cfg, ord, cur, items[0]), items[1..])
  }

  /** The operands that are put aside; in RETURN_IN_ORDER they are replies instead. */
  function ItemOperands(ord: Ordering, item: Item): seq<string> {
    if item.Operand? && ord != ReturnInOrder then [item.text] else []
  }

  function ItemConsumed(ord: Ordering, item: Item): seq<string> {
    if item.Operand? && ord != ReturnInOrder then [] else Elements(item)
  }

  function Operands(ord: Ordering, items: seq<Item>): seq<string> {
    if items == [] then [] else ItemOperands(ord, items[0]) + Operands(ord, items[1..])
  }

  function Consumed(ord: Ordering, items: seq<Item>): seq<string> {
    if items == [] then [] else ItemConsumed(ord, items[0]) + Consumed(ord, items[1..])
  }

  /** The items are followed by nothing, by `--', or in REQUIRE_ORDER by an operand. */
  predicate Ends(ord: Ordering, rest: seq<string>) {
    rest == [] || rest[0] == "--" || (ord == RequireOrder && IsOperand(rest[0]))
  }

  /** The arguments xs are written as these items and this end. */
  ghost predicate Spells(cfg: Config, ord: Ordering, cur: string, items: seq<Item>, rest: seq<string>,
                         xs: seq<string>) {
    xs == AllElements(items) + rest && Fit(cfg, ord, cur, items, rest != []) && Ends(ord, rest)
  }

  /** What the written command line asks for. */
  ghost function Meant(cfg: Config, ord: Ordering, cur: string, items: seq<Item>, rest: seq<string>): Parse {
    var dashes := if rest != [] && rest[0] == "--" then 1 else 0;
    Parse(Consumed(ord, items) + rest[..dashes], Operands(ord, items) + rest[dashes..],
          Replies(cfg, ord, cur, items))
  }

  // ----- the decoder reads what was written

  lemma {:induction false} FirstMention(opts: string, c: char, k: nat)
    requires FirstAt(opts, c, k)
    ensures FromChar(opts, c) == Some(opts[k..])
  {
    if k > 0 {
      assert opts[0] == opts[..k][0] && opts[1..][..k - 1] == opts[..k][1..];
      FirstMention(opts[1..], c, k - 1);
    }
  }

  lemma {:induction false} Known(opts: string, c: char, n: nat)
    requires Knows(opts, c, n)
    ensures c != ':' && FromChar(opts, c).Some? && Colons(FromChar(opts, c).value) == n
  {
    var k: nat :| FirstAt(opts, c, k) && n == Colons(opts[k..]);
    FirstMention(opts, c, k);
  }

  /** Every letter of the option string other than the colon is known, in one way. */
  lemma {:induction false} KnownLetters(opts: string, c: char)
    ensures c != ':' && c in opts <==> Knows(opts, c, 0) || Knows(opts, c, 1) || Knows(opts, c, 2)
    ensures forall n: nat | Knows(opts, c, n) ::
      c != ':' && FromChar(opts, c).Some? && Colons(FromChar(opts, c).value) == n
  {
    var t := FromChar(opts, c);
    if c != ':' && t.Some? {
      var k := |opts| - |t.value|;
      assert FirstAt(opts, c, k) && opts[k..] == t.value;
      assert Knows(opts, c, Colons(t.value));
    }
    forall n: nat | Knows(opts, c, n)
      ensures c != ':' && FromChar(opts, c).Some? && Colons(FromChar(opts, c).value) == n
    {
      Known(opts, c, n);
    }
  }

  lemma {:induction false} NameIsCut(name: string, tail: string)
    requires '=' !in name && (tail == "" || tail[0] == '=')
    ensures NameOf(name + tail) == name
  {
    assert (name + tail)[..|name|] == name;
    NameEndsAt(name + tail, |name|);
  }

  lemma {:induction false} FlagIsDecoded(cfg: Config, cur: string, elem: string, c: char, tail: string,
                                         next: Option<string>)
    requires |elem| > 1 && tail != "" && LooksShort(cfg, cur, elem, [c] + tail)
    requires !Knows(cur, c, 1) && !Knows(cur, c, 2)
    ensures Decode(elem, [c] + tail, next, cfg, cur) == Step(FlagReply(cur, c), tail, 0)
  {
    var rest := [c] + tail;
    assert rest[1..] == tail;
    IsReadShort(cfg, cur, elem, rest, next);
    KnownLetters(cur, c);
  }

  lemma {:induction false} IsReadShort(cfg: Config, cur: string, elem: string, rest: string, next: Option<string>)
    requires |elem| > 1 && rest != "" && LooksShort(cfg, cur, elem, rest)
    ensures Decode(elem, rest, next, cfg, cur) == DecodeShort(rest, next, cur)
  {
    if LooksLong(cfg, cur, elem) {
      OutcomeIs(cfg.longopts.value, NameOf(rest), cfg.longOnly, NotFound);
    }
  }

  lemma {:induction false} ShortIsDecoded(cfg: Config, cur: string, elem: string, c: char, arg: Argument,
                                          next: Option<string>)
    requires |elem| > 1 && LastFits(cfg, cur, elem, Short(c, arg), next.Some?)
    requires arg.Separate? ==> next == Some(arg.value)
    ensures Decode(elem, LastText(Short(c, arg)), next, cfg, cur)
         == Step(LastReply(cfg, cur, Short(c, arg)), "", if arg.Separate? then 2 else 1)
  {
    hide Decode, Knows, FromChar, LooksShort;
    var rest := LastText(Short(c, arg));
    assert rest[1..] == if arg.Attached? then arg.value else "";
    IsReadShort(cfg, cur, elem, rest, next);
    KnownLetters(cur, c);
  }

  lemma {:induction false} LongIsDecoded(cfg: Config, cur: string, elem: string, name: string, found: Lookup,
                                         arg: Argument, next: Option<string>)
    requires |elem| > 1 && LastFits(cfg, cur, elem, Long(name, found, arg), next.Some?)
    requires arg.Separate? ==> next == Some(arg.value)
    ensures Decode(elem, LastText(Long(name, found, arg)), next, cfg, cur)
         == Step(LastReply(cfg, cur, Long(name, found, arg)), "", if arg.Separate? then 2 else 1)
  {
    var rest := LastText(Long(name, found, arg));
    var tail := if arg.Attached? then "=" + arg.value else "";
    assert rest == name + tail;
    NameIsCut(name, tail);
    assert arg.Attached? ==> rest[|name| + 1..] == arg.value;
    OutcomeIs(cfg.longopts.value, name, cfg.longOnly, found);
  }

  lemma {:induction false} LastIsDecoded(cfg: Config, cur: string, elem: string, last: Last, ys: seq<string>)
    requires |elem| > 1 && LastFits(cfg, cur, elem, last, ys != []) && LastText(last) != ""
    ensures var taken := Taken(elem, last);
      Decode(elem, LastText(last), Following(taken + ys), cfg, cur) == Step(LastReply(cfg, cur, last), "", |taken|)
  {
    hide Decode, LastReply;
    var taken := Taken(elem, last);
    assert (taken + ys)[|taken|..] == ys;
    match last {
      case Long(name, found, arg) => LongIsDecoded(cfg, cur, elem, name, found, arg, Following(taken + ys));
      case Short(c, arg) => ShortIsDecoded(cfg, cur, elem, c, arg, Following(taken + ys));
    }
  }

  /** The parse with more in front of each of its parts. */
  function Before(consumed: seq<string>, operands: seq<string>, replies: seq<Reply>, p: Parse): Parse {
    Parse(consumed + p.consumed, operands + p.operands, replies + p.replies)
  }

  lemma {:induction false} BeforeOne(taken: seq<string>, reply: Reply, p: Parse)
    ensures Before(taken, [], [reply], p) == Prepend(reply, Combine(taken, [], p))
  {
  }

  lemma {:induction false} BeforeMore(taken: seq<string>, reply: Reply, replies: seq<Reply>, p: Parse)
    ensures Before(taken, [], [reply] + replies, p) == Prepend(reply, Before(taken, [], replies, p))
  {
    assert ([reply] + replies) + p.replies == [reply] + (replies + p.replies);
  }

  lemma {:induction false} BeforeTwice(c: seq<string>, o: seq<string>, r: seq<Reply>, c': seq<string>, o': seq<string>,
                                       r': seq<Reply>, p: Parse)
    ensures Before(c, o, r, Before(c', o', r', p)) == Before(c + c', o + o', r + r', p)
  {
    assert c + (c' + p.consumed) == (c + c') + p.consumed;
    assert o + (o' + p.operands) == (o + o') + p.operands;
    assert r + (r' + p.replies) == (r + r') + p.replies;
  }

  lemma {:induction false} FirstFlagReplies(cfg: Config, cur: string, flags: string, last: Last)
    requires flags != ""
    ensures RestReplies(cfg, cur, flags, last)
         == [FlagReply(cur, flags[0])] + RestReplies(cfg, cfg.opts, flags[1..], last)
  {
    hide LastReply, FlagReply;
    assert FlagReplies(cfg, cur, flags) == [FlagReply(cur, flags[0])] + FlagReplies(cfg, cfg.opts, flags[1..]);
  }

  lemma {:induction false} FirstFits(cfg: Config, cur: string, elem: string, flags: string, tail: string)
    requires |elem| > 1 && flags != "" && FlagsFit(cfg, cur, elem, flags, tail)
    ensures LooksShort(cfg, cur, elem, flags + tail)
    ensures !Knows(cur, flags[0], 1) && !Knows(cur, flags[0], 2)
    ensures FlagsFit(cfg, cfg.opts, elem, flags[1..], tail)
  {
  }

  lemma {:induction false} LastIsRead(cfg: Config, ord: Ordering, cur: string, elem: string, last: Last,
                                      ys: seq<string>)
    requires IsOption(elem) && LastText(last) != "" && LastFits(cfg, cur, elem, last, ys != [])
    ensures var taken := Taken(elem, last);
      ScanWithin(cfg, ord, cur, taken + ys, LastText(last))
      == Before(taken, [], RestReplies(cfg, cur, "", last), Scan(cfg, ord, cfg.opts, ys))
  {
    hide Scan, ScanWithin, Decode, LastReply, LastFits;
    var taken := Taken(elem, last);
    var xs := taken + ys;
    WithinElement(cfg, ord, cur, xs, LastText(last));
    LastIsDecoded(cfg, cur, elem, last, ys);
    assert xs[..|taken|] == taken && xs[|taken|..] == ys;
    assert RestReplies(cfg, cur, "", last) == [LastReply(cfg, cur, last)];
    BeforeOne(taken, LastReply(cfg, cur, last), Scan(cfg, ord, cfg.opts, ys));
  }

  /** The rest of an element is read as it was written: the letters one by one, and the last
      option with its argument. */
  lemma {:induction false} RestIsRead(cfg: Config, ord: Ordering, cur: string, elem: string, flags: string, last: Last,
                                      ys: seq<string>)
    requires IsOption(elem) && LastText(last) != ""
    requires FlagsFit(cfg, cur, elem, flags, LastText(last))
    requires LastFits(cfg, if flags == "" then cur else cfg.opts, elem, last, ys != [])
    ensures var taken := Taken(elem, last);
      ScanWithin(cfg, ord, cur, taken + ys, flags + LastText(last))
      == Before(taken, [], RestReplies(cfg, cur, flags, last), Scan(cfg, ord, cfg.opts, ys))
    decreases |flags|
  {
    hide Scan, ScanWithin, Decode, LastReply, FlagReply, Before, RestReplies, LastFits, FlagsFit, LooksShort, Knows;
    var taken := Taken(elem, last);
    var xs := taken + ys;
    var text := flags + LastText(last);
    var q := Scan(cfg, ord, cfg.opts, ys);
    if flags == "" {
      assert text == LastText(last);
      LastIsRead(cfg, ord, cur, elem, last, ys);
    } else {
      var tail := flags[1..] + LastText(last);
      assert text == [flags[0]] + tail;
      FirstFits(cfg, cur, elem, flags, LastText(last));
      FlagIsDecoded(cfg, cur, elem, flags[0], tail, Following(xs));
      WithinElement(cfg, ord, cur, xs, text);
      RestIsRead(cfg, ord, cfg.opts, elem, flags[1..], last, ys);
      FirstFlagReplies(cfg, cur, flags, last);
      BeforeMore(taken, FlagReply(cur, flags[0]), RestReplies(cfg, cfg.opts, flags[1..], last), q);
    }
  }

  lemma {:induction false} ElementIsRead(cfg: Config, ord: Ordering, cur: string, item: Item, ys: seq<string>)
    requires item.Element? && ItemFits(cfg, ord, cur, item, ys != [])
    ensures Scan(cfg, ord, cur, Elements(item) + ys)
         == Before(Elements(item), [], ItemReplies(cfg, ord, cur, item), Scan(cfg, ord, cfg.opts, ys))
  {
    hide LastReply, FlagReplies, FlagsFit, Resolves, Knows, LooksShort, LooksLong, Before, ScanWithin, RestReplies;
    var Element(lead, flags, last) := item;
    var text := flags + LastText(last);
    var elem := lead + text;
    var xs := Taken(elem, last) + ys;
    assert xs[0] == elem && IsOption(elem) && elem != "--";
    assert OptionText(elem, cfg) == text;
    RestIsRead(cfg, ord, cur, elem, flags, last, ys);
  }

  lemma {:induction false} OperandIsRead(cfg: Config, ord: Ordering, cur: string, x: string, ys: seq<string>)
    requires ord != RequireOrder && IsOperand(x)
    ensures var item := Operand(x);
      Scan(cfg, ord, cur, [x] + ys)
      == Before(ItemConsumed(ord, item), ItemOperands(ord, item), ItemReplies(cfg, ord, cur, item),
                Scan(cfg, ord, After(cfg, ord, cur, item), ys))
  {
    var xs := [x] + ys;
    assert xs[0] == x && xs[1..] == ys && x != "--" && !IsOption(x);
    var q := Scan(cfg, ord, After(cfg, ord, cur, Operand(x)), ys);
    assert [] + q.replies == q.replies && [] + q.operands == q.operands && [] + q.consumed == q.consumed;
  }

  lemma {:induction false} ItemIsRead(cfg: Config, ord: Ordering, cur: string, item: Item, ys: seq<string>)
    requires ItemFits(cfg, ord, cur, item, ys != [])
    ensures Scan(cfg, ord, cur, Elements(item) + ys)
         == Before(ItemConsumed(ord, item), ItemOperands(ord, item), ItemReplies(cfg, ord, cur, item),
                   Scan(cfg, ord, After(cfg, ord, cur, item), ys))
  {
    hide Scan, Before, ItemReplies;
    if item.Operand? {
      OperandIsRead(cfg, ord, cur, item.text, ys);
    } else {
      ElementIsRead(cfg, ord, cur, item, ys);
    }
  }

  /** Written items are read one after the other, whatever follows them. */
  lemma {:induction false} ItemsAreRead(cfg: Config, ord: Ordering, cur: string, items: seq<Item>, rest: seq<string>)
    requires Fit(cfg, ord, cur, items, rest != [])
    ensures Scan(cfg, ord, cur, AllElements(items) + rest)
         == Before(Consumed(ord, items), Operands(ord, items), Replies(cfg, ord, cur, items),
                   Scan(cfg, ord, AfterAll(cfg, ord, cur, items), rest))
    decreases |items|
  {
    hide Scan, ItemReplies, ItemFits, ItemConsumed, ItemOperands, Elements, After;
    if items == [] {
      var q := Scan(cfg, ord, cur, rest);
      assert [] + rest == rest && [] + q.consumed == q.consumed && [] + q.operands == q.operands;
      assert [] + q.replies == q.replies;
    } else {
      ItemThenRest(cfg, ord, cur, items, rest);
    }
  }

  lemma {:induction false} ItemThenRest(cfg: Config, ord: Ordering, cur: string, items: seq<Item>, rest: seq<string>)
    requires items != [] && Fit(cfg, ord, cur, items, rest != [])
    ensures Scan(cfg, ord, cur, AllElements(items) + rest)
         == Before(Consumed(ord, items), Operands(ord, items), Replies(cfg, ord, cur, items),
                   Scan(cfg, ord, AfterAll(cfg, ord, cur, items), rest))
    decreases |items|, 0
  {
    hide Scan, ItemReplies, ItemFits, ItemConsumed, ItemOperands, Elements, After, Before;
    var item, next := items[0], After(cfg, ord, cur, items[0]);
    var ys := AllElements(items[1..]) + rest;
    assert AllElements(items) + rest == Elements(item) + ys;
    SomethingFollows(items[1..], rest);
    ItemIsRead(cfg, ord, cur, item, ys);
    ItemsAreRead(cfg, ord, next, items[1..], rest);
    BeforeTwice(ItemConsumed(ord, item), ItemOperands(ord, item), ItemReplies(cfg, ord, cur, item),
                Consumed(ord, items[1..]), Operands(ord, items[1..]), Replies(cfg, ord, next, items[1..]),
                Scan(cfg, ord, AfterAll(cfg, ord, cur, items), rest));
  }

  lemma {:induction false} SomethingFollows(items: seq<Item>, rest: seq<string>)
    ensures AllElements(items) + rest != [] <==> items != [] || rest != []
  {
    if items != [] {
      assert |Elements(items[0])| > 0;
    }
  }

  /** A command line is parsed into what it was written to ask for: its replies are those of its
      items, and its operands and consumed elements are told apart as they were written. */
  lemma {:induction false} WrittenIsRead(cfg: Config, ord: Ordering, cur: string, items: seq<Item>, rest: seq<string>,
                                         xs: seq<string>)
    requires Spells(cfg, ord, cur, items, rest, xs)
    ensures Scan(cfg, ord, cur, xs) == Meant(cfg, ord, cur, items, rest)
  {
    hide Fit, AllElements, Consumed, Operands, Replies, ScanWithin;
    ItemsAreRead(cfg, ord, cur, items, rest);
    var q := Scan(cfg, ord, AfterAll(cfg, ord, cur, items), rest);
    var dashes := if rest != [] && rest[0] == "--" then 1 else 0;
    assert q == Parse(rest[..dashes], rest[dashes..], []);
    assert Replies(cfg, ord, cur, items) + [] == Replies(cfg, ord, cur, items);
  }

  // ----- every command line is written so

  lemma {:induction false} TextIsWritten(cfg: Config, cur: string, elem: string, text: string, zs: seq<string>)
    returns (flags: string, last: Last, ys: seq<string>)
    requires |elem| > 1 && text != ""
    ensures flags + LastText(last) == text && FlagsFit(cfg, cur, elem, flags, LastText(last))
    ensures LastFits(cfg, if flags == "" then cur else cfg.opts, elem, last, ys != [])
    ensures [elem] + zs == Taken(elem, last) + ys
    decreases |text|
  {
    hide Knows, FromChar, NameOf, Resolves;
    flags := "";
    KnownLetters(cur, text[0]);
    if !LooksShort(cfg, cur, elem, text) {
      last, ys := LongIsWritten(cfg, cur, elem, text, zs);
    } else if Knows(cur, text[0], 1) || Knows(cur, text[0], 2) || |text| == 1 {
      last, ys := ShortIsWritten(cfg, cur, elem, text, zs);
    } else {
      var more;
      more, last, ys := TextIsWritten(cfg, cfg.opts, elem, text[1..], zs);
      flags := [text[0]] + more;
      assert flags + LastText(last) == text && flags[1..] == more;
    }
  }

  lemma {:induction false} LongIsWritten(cfg: Config, cur: string, elem: string, text: string, zs: seq<string>)
    returns (last: Last, ys: seq<string>)
    requires |elem| > 1 && text != "" && !LooksShort(cfg, cur, elem, text)
    ensures LastText(last) == text && LastFits(cfg, cur, elem, last, ys != [])
    ensures [elem] + zs == Taken(elem, last) + ys
  {
    hide Resolves, NameOf, Knows;
    var table, name := cfg.longopts.value, NameOf(text);
    var found := Resolve(table, name, cfg.longOnly);
    SomethingResolves(table, name, cfg.longOnly);
    ys := zs;
    if |name| < |text| {
      last := Long(name, found, Attached(text[|name| + 1..]));
    } else if found.Found? && table[found.index].hasArg == 1 && zs != [] {
      last, ys := Long(name, found, Separate(zs[0])), zs[1..];
    } else {
      last := Long(name, found, Absent);
    }
  }

  lemma {:induction false} ShortIsWritten(cfg: Config, cur: string, elem: string, text: string, zs: seq<string>)
    returns (last: Last, ys: seq<string>)
    requires |elem| > 1 && text != "" && LooksShort(cfg, cur, elem, text)
    requires Knows(cur, text[0], 1) || Knows(cur, text[0], 2) || |text| == 1
    ensures LastText(last) == text && LastFits(cfg, cur, elem, last, ys != [])
    ensures [elem] + zs == Taken(elem, last) + ys
  {
    hide Knows, LooksShort;
    ys := zs;
    if |text| > 1 {
      last := Short(text[0], Attached(text[1..]));
    } else if Knows(cur, text[0], 1) && zs != [] {
      last, ys := Short(text[0], Separate(zs[0])), zs[1..];
    } else {
      last := Short(text[0], Absent);
    }
    assert LastText(last) == text;
  }

  lemma {:induction false} ElementIsWritten(cfg: Config, ord: Ordering, cur: string, xs: seq<string>)
    returns (item: Item, ys: seq<string>)
    requires xs != [] && xs[0] != "--" && !IsOperand(xs[0])
    ensures ItemFits(cfg, ord, cur, item, ys != []) && item.Element? && xs == Elements(item) + ys
  {
    hide FlagsFit, LastFits, LastText;
    var elem := xs[0];
    var n := if cfg.longopts.Some? && elem[1] == '-' then 2 else 1;
    var flags, last;
    flags, last, ys := TextIsWritten(cfg, cur, elem, elem[n..], xs[1..]);
    assert elem == elem[..n] + elem[n..];
    item := Element(elem[..n], flags, last);
    assert Head(item) == elem && xs == [elem] + xs[1..];
  }

  lemma {:induction false} FirstIsWritten(cfg: Config, ord: Ordering, cur: string, xs: seq<string>)
    returns (item: Item, ys: seq<string>)
    requires !Ends(ord, xs)
    ensures ItemFits(cfg, ord, cur, item, ys != []) && xs == Elements(item) + ys && |ys| < |xs|
  {
    hide FlagsFit, LastFits, LastText, Head;
    if IsOperand(xs[0]) {
      item, ys := Operand(xs[0]), xs[1..];
    } else {
      item, ys := ElementIsWritten(cfg, ord, cur, xs);
    }
    assert Elements(item) != [];
  }

  /** Every command line can be written as items and an end, so the reading above covers all. */
  lemma {:induction false} EveryLineIsWritten(cfg: Config, ord: Ordering, cur: string, xs: seq<string>)
    returns (items: seq<Item>, rest: seq<string>)
    ensures Spells(cfg, ord, cur, items, rest, xs)
    decreases |xs|
  {
    hide ItemFits, Elements, After, Ends;
    if Ends(ord, xs) {
      assert [] + xs == xs;
      return [], xs;
    }
    var item, ys := FirstIsWritten(cfg, ord, cur, xs);
    var more;
    more, rest := EveryLineIsWritten(cfg, ord, After(cfg, ord, cur, item), ys);
    items := [item] + more;
    assert items[1..] == more;
    SomethingFollows(more, rest);
    assert Elements(item) + AllElements(more) + rest == Elements(item) + ys;
  }
}
