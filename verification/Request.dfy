/**
 The client's request on the wire (src/common/xmlcc.cc:267-299, 361-378, 416-458, 519-533), and
 the whole way of a wish from an FQAN to what the server understands.
 */
module Request {
  import opened Options
  import opened Strings
  import opened Xml
  import opened Fqan

  datatype Request = Request(order: string, targets: string, command: seq<string>, lifetime: int, base64: bool,
                             version: int)

  // ----- encoding

  const DECLARATION := "?xml version=\"1.0\" encoding=\"US-ASCII\"?"

  /** What repeated getline(s, ',') reads: the pieces, without an empty one at the very end. */
  function Lines(s: string): (r: seq<string>) {
    var pieces := Split(s, ',');
    if pieces[|pieces| - 1] == "" then pieces[..|pieces| - 1] else pieces
  }

  function CommandEvents(cs: seq<string>): seq<Event> {
    if cs == [] then [] else CommandEvents(cs[..|cs| - 1]) + Element("command", cs[|cs| - 1])
  }

  function OptionalElement(name: string, text: string): seq<Event> {
    if text == "" then [] else Element(name, text)
  }

  function LifetimeText(lifetime: int): string {
    if lifetime <= 0 then "" else Decimal(lifetime)
  }

  function RequestEvents(cs: seq<string>, order: string, targets: string, lifetime: int): seq<Event> {
    Ended(HeadEvents(cs, order, targets), lifetime)
  }

  function HeadEvents(cs: seq<string>, order: string, targets: string): seq<Event> {
    [Start("voms")] + CommandEvents(cs) + OptionalElement("order", order) + OptionalElement("targets", targets)
  }

  function Ended(evs: seq<Event>, lifetime: int): seq<Event> {
    evs + Element("base64", "1") + Element("version", "4") + Element("lifetime", LifetimeText(lifetime)) + [End("voms")]
  }

  function RequestText(cs: seq<string>, order: string, targets: string, lifetime: int): string {
    Open(DECLARATION) + Print(RequestEvents(cs, order, targets, lifetime))
  }

  method XmlReqEncode(command: string, order: string, targets: string, lifetime: int) returns (res: string)
    ensures res == RequestText(Lines(command), order, targets, lifetime)
  {
    hide Element, Open, Close, Print, DECLARATION;
    var cs := Lines(command);
    ghost var evs := [Start("voms")];
    PrintNothing();
    AppendEvent("", [], Start("voms"));
    assert [] + evs == evs && "" + Open("voms") == Open("voms");
    var body := Open("voms");
    assert evs + [] == evs;
    for i := 0 to |cs|
      invariant body == Print(evs + CommandEvents(cs[..i]))
    {
      AppendElement(body, evs + CommandEvents(cs[..i]), "command", cs[i]);
      body := body + Open("command") + cs[i] + Close("command");
      assert cs[..i + 1][..i] == cs[..i];
      assert evs + CommandEvents(cs[..i]) + Element("command", cs[i]) == evs + CommandEvents(cs[..i + 1]);
    }
    assert cs[..|cs|] == cs;
    evs := evs + CommandEvents(cs);
    if |order| > 0 {
      AppendElement(body, evs, "order", order);
      body := body + Open("order") + order + Close("order");
    }
    assert evs + [] == evs;
    evs := evs + OptionalElement("order", order);
    if |targets| > 0 {
      AppendElement(body, evs, "targets", targets);
      body := body + Open("targets") + targets + Close("targets");
    }
    assert evs + [] == evs;
    evs := evs + OptionalElement("targets", targets);
    AppendElement(body, evs, "base64", "1");
    body := body + Open("base64") + "1" + Close("base64");
    evs := evs + Element("base64", "1");
    AppendElement(body, evs, "version", "4");
    body := body + Open("version") + "4" + Close("version");
    evs := evs + Element("version", "4");
    AppendElement(body, evs, "lifetime", LifetimeText(lifetime));
    body := body + Open("lifetime") + LifetimeText(lifetime) + Close("lifetime");
    evs := evs + Element("lifetime", LifetimeText(lifetime));
    AppendEvent(body, evs, End("voms"));
    body := body + Close("voms");
    res := Open(DECLARATION) + body;
  }

  // ----- the handlers

  datatype Reading = Reading(request: Request, value: string, error: bool, depth: nat)

  function Finish(r: Reading, name: string): Reading {
    var q := r.request;
    if name == "order" then r.(request := q.(order := r.value))
    else if name == "targets" then r.(request := q.(targets := r.value))
    else if name == "command" then r.(request := q.(command := q.command + [r.value]))
    else if name == "lifetime" then r.(request := q.(lifetime := Atoi(r.value)))
    else if name == "base64" then r.(request := q.(base64 := true))
    else if name == "version" then r.(request := q.(version := Atoi(r.value)))
    else r
  }

  function Step(r: Reading, ev: Event): Reading {
    if r.error then r
    else
      match ev
      case Start(_) =>
        if r.depth == 2 then r.(error := true) else r.(depth := r.depth + 1, value := "")
      case Text(s) => r.(value := s)
      case End(name) =>
        if r.depth == 0 then r.(error := true)
        else Finish(r.(depth := r.depth - 1), name).(value := "")
  }

  function Run(r: Reading, evs: seq<Event>): Reading
    decreases |evs|
  {
    if evs == [] then r else Run(Step(r, evs[0]), evs[1..])
  }

  class Handler {
    var request: Request
    var value: string
    var error: bool
    var depth: nat

    /** The state with which XML_Req_Decode starts; `command` keeps what the caller had. */
    constructor (command: seq<string>)
      ensures State() == Fresh(command)
    {
      request := Request("", "", command, 0, false, 0);
      value, depth, error := "", 0, false;
    }

    ghost function State(): Reading
      reads this
    {
      Reading(request, value, error, depth)
    }

    method StartReq(name: string)
      modifies this
      ensures State() == Step(old(State()), Start(name))
    {
      if error {
        return;
      }
      if depth == 2 {
        error := true;
        return;
      }
      depth := depth + 1;
      value := "";
    }

    method HandlerReq(s: string)
      modifies this
      ensures State() == Step(old(State()), Text(s))
    {
      if error {
        return;
      }
      value := s;
    }

    method EndReq(name: string)
      modifies this
      ensures State() == Step(old(State()), End(name))
    {
      if error {
        return;
      }
      if depth == 0 {
        error := true;
        return;
      }
      depth := depth - 1;
      if name == "order" {
        request := request.(order := value);
      } else if name == "targets" {
        request := request.(targets := value);
      } else if name == "command" {
        request := request.(command := request.command + [value]);
      } else if name == "lifetime" {
        request := request.(lifetime := Atoi(value));
      } else if name == "base64" {
        request := request.(base64 := true);
      } else if name == "version" {
        request := request.(version := Atoi(value));
      }
      value := "";
    }

    method Feed(evs: seq<Event>)
      modifies this
      ensures State() == Run(old(State()), evs)
    {
      for i := 0 to |evs|
        invariant Run(State(), evs[i..]) == Run(old(State()), evs)
      {
        assert evs[i..][1..] == evs[i + 1..];
        match evs[i] {
          case Start(name) => StartReq(name);
          case Text(s) => HandlerReq(s);
          case End(name) => EndReq(name);
        }
      }
    }
  }

  function Fresh(command: seq<string>): Reading {
    Reading(Request("", "", command, 0, false, 0), "", false, 0)
  }

  // ----- the round trip of a request

  lemma {:induction false} RunAppend(r: Reading, a: seq<Event>, b: seq<Event>)
    ensures Run(r, a + b) == Run(Run(r, a), b)
    decreases |a|
  {
    hide Finish;
    if a == [] {
      assert a + b == b;
    } else {
      assert (a + b)[0] == a[0] && (a + b)[1..] == a[1..] + b;
      RunAppend(Step(r, a[0]), a[1..], b);
    }
  }

  lemma {:induction false} RunOne(r: Reading, ev: Event)
    ensures Run(r, [ev]) == Step(r, ev)
    ensures Run(r, []) == r
  {
    assert [ev][1..] == [];
  }

  /** Elements nest no deeper than two, and once something is wrong nothing more is read. */
  lemma {:induction false} NestingIsBounded(r: Reading, evs: seq<Event>)
    requires r.depth <= 2
    ensures Run(r, evs).depth <= 2 && (r.error ==> Run(r, evs) == r)
    decreases |evs|
  {
    if evs != [] {
      NestingIsBounded(Step(r, evs[0]), evs[1..]);
    }
  }

  lemma {:induction false} RunElement(r: Reading, name: string, text: string)
    requires !r.error && r.depth == 1
    ensures Run(r, Element(name, text)) == Finish(r.(value := text), name).(value := "")
  {
    hide Finish, Run;
    var r1 := r.(depth := 2, value := "");
    RunOne(r, Start(name));
    RunAppend(r, [Start(name)], [Text(text)]);
    RunOne(r1, Text(text));
    RunAppend(r, if text == "" then [Start(name)] else [Start(name)] + [Text(text)], [End(name)]);
    RunOne(r1.(value := text), End(name));
    assert text == "" ==> [Start(name)] + [] == [Start(name)];
  }

  lemma {:induction false} RunCommands(r: Reading, cs: seq<string>)
    requires !r.error && r.depth == 1 && r.value == ""
    ensures Run(r, CommandEvents(cs)) == r.(request := r.request.(command := r.request.command + cs))
    decreases |cs|
  {
    hide Run, Element;
    if cs == [] {
      RunOne(r, Start(""));
      assert r.request.command + cs == r.request.command;
    } else {
      var n := |cs| - 1;
      RunCommands(r, cs[..n]);
      RunAppend(r, CommandEvents(cs[..n]), Element("command", cs[n]));
      RunElement(r.(request := r.request.(command := r.request.command + cs[..n])), "command", cs[n]);
      assert r.request.command + cs[..n] + [cs[n]] == r.request.command + cs;
    }
  }

  lemma {:induction false} RunOptional(r: Reading, name: string, text: string)
    requires !r.error && r.depth == 1 && r.value == ""
    ensures Run(r, OptionalElement(name, text)) == if text == "" then r
        else Finish(r.(value := text), name).(value := "")
  {
    hide Run, Element, Finish;
    RunOne(r, Start(""));
    if text != "" {
      RunElement(r, name, text);
    }
  }

  /** Reported with its text in one portion each, a request is read back as it was made: the
      commands of the list, order and targets, and a lifetime if one was asked for. */
  lemma {:induction false} ReadingRecoversTheRequest(cs: seq<string>, order: string, targets: string, lifetime: int)
    ensures Run(Fresh([]), RequestEvents(cs, order, targets, lifetime))
         == Reading(Request(order, targets, cs, if lifetime <= 0 then 0 else lifetime, true, 4), "", false, 0)
  {
    hide Run, Element;
    var r := Fresh([]);
    var e1 := [Start("voms")];
    RunOne(r, Start("voms"));
    RunAppend(r, e1, CommandEvents(cs));
    RunCommands(r.(depth := 1), cs);
    assert [] + cs == cs;
    var e2 := e1 + CommandEvents(cs);
    RunAppend(r, e2, OptionalElement("order", order));
    RunOptional(Run(r, e2), "order", order);
    var e3 := e2 + OptionalElement("order", order);
    RunAppend(r, e3, OptionalElement("targets", targets));
    RunOptional(Run(r, e3), "targets", targets);
    var e4 := e3 + OptionalElement("targets", targets);
    RunAppend(r, e4, Element("base64", "1"));
    RunElement(Run(r, e4), "base64", "1");
    var e5 := e4 + Element("base64", "1");
    RunTail(r, e5, lifetime);
  }

  lemma {:induction false} RunTail(r: Reading, evs: seq<Event>, lifetime: int)
    requires var s := Run(r, evs); !s.error && s.depth == 1 && s.value == ""
    ensures Run(r, evs + Element("version", "4") + Element("lifetime", LifetimeText(lifetime)) + [End("voms")])
         == var s := Run(r, evs);
            s.(request := s.request.(version := 4, lifetime := if lifetime <= 0 then 0 else lifetime), depth := 0)
  {
    hide Run, Element;
    var s := Run(r, evs);
    AtoiOfDecimal(4);
    assert Decimal(4) == "4";
    AtoiOfDecimal(lifetime);
    RunAppend(r, evs, Element("version", "4"));
    RunElement(s, "version", "4");
    var e6 := evs + Element("version", "4");
    RunAppend(r, e6, Element("lifetime", LifetimeText(lifetime)));
    RunElement(Run(r, e6), "lifetime", LifetimeText(lifetime));
    var e7 := e6 + Element("lifetime", LifetimeText(lifetime));
    RunAppend(r, e7, [End("voms")]);
    RunOne(Run(r, e7), End("voms"));
  }

  // ----- portions of text

  function Portions(texts: seq<string>): seq<Event> {
    seq(|texts|, i requires 0 <= i < |texts| => Text(texts[i]))
  }

  function Concat(texts: seq<string>): (r: string) {
    if texts == [] then "" else Concat(texts[..|texts| - 1]) + texts[|texts| - 1]
  }

  /** An element whose text is reported in these portions. */
  function PortionedElement(name: string, texts: seq<string>): seq<Event> {
    [Start(name)] + Portions(texts) + [End(name)]
  }

  lemma {:induction false} RunPortions(r: Reading, texts: seq<string>)
    requires !r.error && texts != []
    ensures Run(r, Portions(texts)) == r.(value := texts[|texts| - 1])
    decreases |texts|
  {
    var evs := Portions(texts);
    if |texts| == 1 {
      assert evs[1..] == [];
    } else {
      assert evs[1..] == Portions(texts[1..]);
      RunPortions(r.(value := texts[0]), texts[1..]);
    }
  }

  /** Only the last portion counts. */
  lemma {:induction false} RunPortionedElement(r: Reading, name: string, texts: seq<string>)
    requires !r.error && r.depth == 1 && texts != []
    ensures Run(r, PortionedElement(name, texts)) == Finish(r.(value := texts[|texts| - 1]), name).(value := "")
  {
    hide Finish, Run;
    var r1 := r.(depth := 2, value := "");
    RunOne(r, Start(name));
    RunAppend(r, [Start(name)], Portions(texts));
    RunPortions(r1, texts);
    RunAppend(r, [Start(name)] + Portions(texts), [End(name)]);
    RunOne(r1.(value := texts[|texts| - 1]), End(name));
  }

  /** Unlike an answer, a request does depend on how expat portions the text of an element:
      commands, order and targets are read as they were sent if and only if nothing came before
      the last portion. */
  lemma {:induction false} RequestNeedsTextInOnePortion(r: Reading, name: string, texts: seq<string>)
    requires !r.error && r.depth == 1 && texts != []
    requires name == "command" || name == "order" || name == "targets"
    ensures Run(r, PortionedElement(name, texts)).request == Run(r, Element(name, Concat(texts))).request
            <==> Concat(texts[..|texts| - 1]) == ""
  {
    hide Run;
    var head, last := Concat(texts[..|texts| - 1]), texts[|texts| - 1];
    RunPortionedElement(r, name, texts);
    RunElement(r, name, Concat(texts));
    assert Concat(texts) == head + last;
    assert head == "" ==> head + last == last;
    assert (r.request.command + [last])[|r.request.command|] == last;
    assert (r.request.command + [head + last])[|r.request.command|] == head + last;
  }

  /** A command that is reported in two portions arrives without the first. */
  lemma {:induction false} FirstPortionIsLost()
    ensures Run(Fresh([]).(depth := 1), PortionedElement("command", ["G/vo", "/group"])).request.command == ["/group"]
  {
    hide Run;
    RunPortionedElement(Fresh([]).(depth := 1), "command", ["G/vo", "/group"]);
  }

  // ----- the text is a document

  lemma {:induction false} ElementStarts(name: string, text: string)
    requires IsName(name) && IsPlain(text)
    ensures Printable(Element(name, text)) && Element(name, text) != [] && !Element(name, text)[0].Text?
    ensures Printable(OptionalElement(name, text))
    ensures OptionalElement(name, text) != [] ==> !OptionalElement(name, text)[0].Text?
  {
    ElementIsPrintable(name, text);
  }

  lemma {:induction false} CommandsPrintable(cs: seq<string>)
    requires forall i :: 0 <= i < |cs| ==> IsPlain(cs[i])
    ensures Printable(CommandEvents(cs))
    ensures CommandEvents(cs) != [] ==> !CommandEvents(cs)[0].Text?
  {
    hide Printable, Element;
    if cs == [] {
      NothingPrintable();
    } else {
      var n := |cs| - 1;
      CommandsPrintable(cs[..n]);
      ElementStarts("command", cs[n]);
      PrintableAppend(CommandEvents(cs[..n]), Element("command", cs[n]));
    }
  }

  lemma {:induction false} CommandIsThere(cs: seq<string>, i: nat)
    requires i < |cs| && cs[i] != ""
    ensures Text(cs[i]) in CommandEvents(cs)
  {
    var n := |cs| - 1;
    if i < n {
      CommandIsThere(cs[..n], i);
    } else {
      assert Element("command", cs[n])[1] == Text(cs[n]);
    }
  }

  /** What the client writes is not escaped. The document has just the request's events if and
      only if commands, order and targets are plain text. */
  lemma {:induction false} RequestParsesIff(cs: seq<string>, order: string, targets: string, lifetime: int)
    ensures var doc := ParseDocument(RequestText(cs, order, targets, lifetime));
      doc == Some(RequestEvents(cs, order, targets, lifetime))
      <==> (forall i :: 0 <= i < |cs| ==> IsPlain(cs[i])) && IsPlain(order) && IsPlain(targets)
  {
    hide Parse, ParseDocument, Printable, HeadEvents, Ended, Print, IsClean, IsPlain;
    var evs := RequestEvents(cs, order, targets, lifetime);
    ParseBehindDeclaration(DECLARATION, Print(evs));
    if (forall i :: 0 <= i < |cs| ==> IsPlain(cs[i])) && IsPlain(order) && IsPlain(targets) {
      HeadPrintable(cs, order, targets);
      TailPrintable(HeadEvents(cs, order, targets), lifetime);
      ParseOfPrint(evs);
    } else if Parse(Print(evs)) == Some(evs) {
      ParsedIsClean(Print(evs));
      CleanRequestIsPlain(cs, order, targets, lifetime);
    }
  }

  lemma {:induction false} CleanRequestIsPlain(cs: seq<string>, order: string, targets: string, lifetime: int)
    requires IsClean(RequestEvents(cs, order, targets, lifetime))
    ensures (forall i :: 0 <= i < |cs| ==> IsPlain(cs[i])) && IsPlain(order) && IsPlain(targets)
  {
    hide IsClean, IsPlain, Element, LifetimeText, CommandEvents;
    var evs := RequestEvents(cs, order, targets, lifetime);
    var head := HeadEvents(cs, order, targets);
    forall i | 0 <= i < |cs| ensures IsPlain(cs[i]) {
      if cs[i] != "" {
        CommandIsThere(cs, i);
        assert Text(cs[i]) in head;
      }
      TextInHeadIsPlain(cs[i], head, evs);
    }
    forall text | text == order || text == targets ensures IsPlain(text) {
      if text != "" {
        OptionalIsThere(if text == order then "order" else "targets", text);
        assert Text(text) in head;
      }
      TextInHeadIsPlain(text, head, evs);
    }
  }

  lemma {:induction false} OptionalIsThere(name: string, text: string)
    requires text != ""
    ensures Text(text) in OptionalElement(name, text)
  {
    assert Element(name, text)[1] == Text(text);
  }

  lemma {:induction false} TextInHeadIsPlain(text: string, head: seq<Event>, evs: seq<Event>)
    requires IsClean(evs) && head <= evs && (text == "" || Text(text) in head)
    ensures IsPlain(text)
  {
    hide IsClean, IsPlain;
    if text == "" {
      PlainWithoutGreater("");
    } else {
      var k :| 0 <= k < |head| && head[k] == Text(text);
      assert evs[k] == head[k];
      CleanTextIsPlain(evs, k);
    }
  }

  lemma {:induction false} HeadPrintable(cs: seq<string>, order: string, targets: string)
    requires forall i :: 0 <= i < |cs| ==> IsPlain(cs[i])
    requires IsPlain(order) && IsPlain(targets)
    ensures Printable(HeadEvents(cs, order, targets))
  {
    hide Printable, Element, CommandEvents, OptionalElement;
    TagsPrintable("voms");
    CommandsPrintable(cs);
    ElementStarts("order", order);
    ElementStarts("targets", targets);
    var e := [Start("voms")];
    PrintableAppend(e, CommandEvents(cs));
    PrintableAppend(e + CommandEvents(cs), OptionalElement("order", order));
    PrintableAppend(e + CommandEvents(cs) + OptionalElement("order", order), OptionalElement("targets", targets));
  }

  lemma {:induction false} TailPrintable(e: seq<Event>, lifetime: int)
    requires Printable(e)
    ensures Printable(Ended(e, lifetime))
  {
    hide Printable, Element, IsPlain;
    TagsPrintable("voms");
    PlainWithoutGreater("1");
    PlainWithoutGreater("4");
    PlainWithoutGreater("");
    ElementStarts("base64", "1");
    ElementStarts("version", "4");
    DecimalIsPlain(lifetime);
    ElementStarts("lifetime", LifetimeText(lifetime));
    PrintableAppend(e, Element("base64", "1"));
    PrintableAppend(e + Element("base64", "1"), Element("version", "4"));
    PrintableAppend(e + Element("base64", "1") + Element("version", "4"), Element("lifetime", LifetimeText(lifetime)));
    PrintableAppend(e + Element("base64", "1") + Element("version", "4") + Element("lifetime", LifetimeText(lifetime)),
        [End("voms")]);
  }

  // ----- the text in full

  function CommandsText(cs: seq<string>): string {
    if cs == [] then "" else CommandsText(cs[..|cs| - 1]) + Tagged("command", cs[|cs| - 1])
  }

  lemma {:induction false} CommandsAreWritten(cs: seq<string>)
    ensures Print(CommandEvents(cs)) == CommandsText(cs)
    decreases |cs|
  {
    hide Print, Element, Tagged;
    if cs == [] {
      PrintNothing();
    } else {
      var n := |cs| - 1;
      CommandsAreWritten(cs[..n]);
      PrintAppend(CommandEvents(cs[..n]), Element("command", cs[n]));
      PrintElement("command", cs[n]);
    }
  }

  lemma {:induction false} OptionalIsWritten(name: string, text: string)
    ensures Print(OptionalElement(name, text)) == if text == "" then "" else Tagged(name, text)
  {
    hide Print, Element, Tagged;
    PrintNothing();
    PrintElement(name, text);
  }

  lemma {:induction false} TailIsWritten(lifetime: int)
    ensures Print(Element("base64", "1") + Element("version", "4") + Element("lifetime", LifetimeText(lifetime)))
         == Tagged("base64", "1") + Tagged("version", "4")
            + Tagged("lifetime", if lifetime <= 0 then "" else Decimal(lifetime))
  {
    hide Print, Element, Tagged, Decimal;
    PrintElement("base64", "1");
    PrintElement("version", "4");
    PrintElement("lifetime", LifetimeText(lifetime));
    PrintAppend(Element("base64", "1"), Element("version", "4"));
    PrintAppend(Element("base64", "1") + Element("version", "4"), Element("lifetime", LifetimeText(lifetime)));
  }

  /** The text of a request. */
  lemma {:induction false} RequestIsWritten(cs: seq<string>, order: string, targets: string, lifetime: int)
    ensures RequestText(cs, order, targets, lifetime)
         == "<" + "?xml version=\"1.0\" encoding=\"US-ASCII\"?" + ">"
            + Tagged("voms",
                     CommandsText(cs) + (if order == "" then "" else Tagged("order", order))
                     + (if targets == "" then "" else Tagged("targets", targets))
                     + (Tagged("base64", "1") + Tagged("version", "4")
                        + Tagged("lifetime", if lifetime <= 0 then "" else Decimal(lifetime))))
  {
    hide Print, Element, Tagged, CommandsText, CommandEvents, OptionalElement, Decimal, LifetimeText;
    CommandsAreWritten(cs);
    OptionalIsWritten("order", order);
    OptionalIsWritten("targets", targets);
    TailIsWritten(lifetime);
    var e1 := CommandEvents(cs);
    var e2 := e1 + OptionalElement("order", order);
    var e3 := e2 + OptionalElement("targets", targets);
    var tail := Element("base64", "1") + Element("version", "4") + Element("lifetime", LifetimeText(lifetime));
    PrintAppend(e1, OptionalElement("order", order));
    PrintAppend(e2, OptionalElement("targets", targets));
    PrintAppend(e3, tail);
    PrintTagged("voms", e3 + tail);
    assert RequestEvents(cs, order, targets, lifetime) == [Start("voms")] + (e3 + tail) + [End("voms")];
  }

  // ----- what arrives of a request

  /** What was read is plain text. */
  predicate IsPlainReading(r: Reading) {
    && IsPlain(r.value) && IsPlain(r.request.order) && IsPlain(r.request.targets)
    && forall i :: 0 <= i < |r.request.command| ==> IsPlain(r.request.command[i])
  }

  /** Reading a document never puts anything but plain text into a request. */
  lemma {:induction false} ReadingStaysPlain(r: Reading, evs: seq<Event>)
    requires IsPlainReading(r) && IsClean(evs)
    ensures IsPlainReading(Run(r, evs))
    decreases |evs|
  {
    hide IsPlain, Atoi, IsPlainReading;
    if evs != [] {
      StepKeepsPlain(r, evs[0]);
      ReadingStaysPlain(Step(r, evs[0]), evs[1..]);
    }
  }

  lemma {:induction false} StepKeepsPlain(r: Reading, ev: Event)
    requires IsPlainReading(r) && (ev.Text? ==> IsPlain(ev.text))
    ensures IsPlainReading(Step(r, ev))
  {
    hide IsPlain, Atoi;
    PlainWithoutGreater("");
  }

  /** The request that was asked for. */
  function Sent(cs: seq<string>, order: string, targets: string, lifetime: int): Request {
    Request(order, targets, cs, if lifetime <= 0 then 0 else lifetime, true, 4)
  }

  /** The server ends up with this request when it is reported with its text in one portion each. */
  predicate Arrives(text: string, got: Request) {
    var doc := ParseDocument(text);
    doc.Some? && Run(Fresh([]), doc.value).request == got
  }

  lemma {:induction false} ArrivingRequestIsPlain(body: string, got: Request)
    requires Arrives(Open(DECLARATION) + body, got)
    ensures IsPlain(got.order) && IsPlain(got.targets)
    ensures forall i :: 0 <= i < |got.command| ==> IsPlain(got.command[i])
  {
    hide Run, IsPlain, IsClean, Parse, ParseDocument;
    ParseBehindDeclaration(DECLARATION, body);
    ParsedIsClean(body);
    PlainWithoutGreater("");
    ReadingStaysPlain(Fresh([]), Parse(body).value);
  }

  /** A request arrives as it was sent if and only if commands, order and targets are plain. */
  lemma {:induction false} RequestArrivesIff(cs: seq<string>, order: string, targets: string, lifetime: int)
    ensures Arrives(RequestText(cs, order, targets, lifetime), Sent(cs, order, targets, lifetime))
            <==> (forall i :: 0 <= i < |cs| ==> IsPlain(cs[i])) && IsPlain(order) && IsPlain(targets)
  {
    hide Run, IsPlain, ParseDocument, Print, RequestEvents;
    var text, got := RequestText(cs, order, targets, lifetime), Sent(cs, order, targets, lifetime);
    if (forall i :: 0 <= i < |cs| ==> IsPlain(cs[i])) && IsPlain(order) && IsPlain(targets) {
      RequestParsesIff(cs, order, targets, lifetime);
      ReadingRecoversTheRequest(cs, order, targets, lifetime);
    } else if Arrives(text, got) {
      ArrivingRequestIsPlain(Print(RequestEvents(cs, order, targets, lifetime)), got);
    }
  }

  /** One that does not: a target with a '<'. */
  lemma {:induction false} RawTargetBreaksTheRequest()
    ensures !Arrives(RequestText(["A"], "", "a<b", 0), Sent(["A"], "", "a<b", 0))
  {
    hide Arrives, RequestText, Sent;
    RequestArrivesIff(["A"], "", "a<b", 0);
    assert !IsPlainChar("a<b"[1]);
    assert !IsPlain("a<b");
  }

  // ----- from a wish to what the server understands

  function FqansOf(ws: seq<Wish>): seq<string> {
    seq(|ws|, i requires 0 <= i < |ws| => FqanOf(ws[i]))
  }

  function CommandsOf(ws: seq<Wish>): (r: seq<string>)
    ensures |r| == |ws|
  {
    seq(|ws|, i requires 0 <= i < |ws| => CommandOf(ws[i]))
  }

  lemma {:induction false} CommandIsPlain(w: Wish)
    requires ValidWish(w)
    ensures IsPlain(CommandOf(w))
  {
    hide IsPlain;
    PlainWithoutGreater(CommandOf(w));
  }

  /** getline takes the joined commands apart again. */
  lemma {:induction false} LinesOfJoin(xs: seq<string>)
    requires forall i :: 0 <= i < |xs| ==> xs[i] != "" && ',' !in xs[i]
    ensures Lines(Join(xs, ',')) == xs
  {
    if xs == [] {
      SplitSingle("", ',');
    } else {
      SplitOfJoin(xs, ',');
    }
  }

  /** Every wish arrives: the client joins the commands of the FQANs, the request takes them
      apart into elements, the server reads the elements back, if and only if the order and the
      targets that go with them are plain, and understands each command as it was meant. */
  lemma {:induction false} WishesArrive(ws: seq<Wish>, order: string, targets: string, lifetime: int)
    requires forall i :: 0 <= i < |ws| ==> ValidWish(ws[i])
    ensures AllParse(FqansOf(ws), true)
    ensures var command := Join(Commands(FqansOf(ws), true), ',');
      Arrives(RequestText(Lines(command), order, targets, lifetime), Sent(CommandsOf(ws), order, targets, lifetime))
      <==> IsPlain(order) && IsPlain(targets)
    ensures forall i :: 0 <= i < |ws| ==> DetermineGroupAndRole(CommandsOf(ws)[i]) == Understood(ws[i])
  {
    hide FqanParse, DetermineGroupAndRole, CommandOf, FqanOf, ValidWish, Lines, IsPlain, Arrives, RequestText, Sent;
    forall i | 0 <= i < |ws|
      ensures FqanParse(FqansOf(ws)[i], true) == Some(CommandOf(ws[i]))
      ensures CommandOf(ws[i]) != "" && ',' !in CommandOf(ws[i]) && IsPlain(CommandOf(ws[i]))
      ensures DetermineGroupAndRole(CommandOf(ws[i])) == Understood(ws[i])
    {
      ClientCommand(ws[i]);
      CommandIsPlain(ws[i]);
      ServerUnderstands(ws[i]);
    }
    var xs := CommandsOf(ws);
    assert Commands(FqansOf(ws), true) == xs;
    LinesOfJoin(xs);
    RequestArrivesIff(xs, order, targets, lifetime);
  }
}
