/**
 Reading an answer (src/common/xmlcc.cc:148-168, 380-414, 460-550): the SAX handlers as a state
 machine over the events expat reports, and what they recover of an encoded answer.
 */
module AnswerReading {
  import opened Options
  import opened Strings
  import opened Xml
  import opened Codec
  import opened AnswerWriting

  /** The handlers' `struct ans`; `num` and `message` start out with whatever they hold. */
  datatype Reading = Reading(answer: Answer, value: string, error: bool, depth: nat, num: int, message: string)

  /** What decoding gives that is not modelled: of Base64 text by OpenSSL, and of bytes for which
      the table of the decoder has no entry; a US-ASCII document holds none of them. */
  type Base64 = string -> seq<Byte>

  /** `Decode`: text with a newline in it is taken for Base64. */
  function DecodeText(text: string, base64: Base64): seq<Byte> {
    if '\n' in text || !IsAscii(text) then base64(text) else Decoded(text)
  }

  function CodeNumber(code: string): int {
    if code == "NoSuchUser" then ERR_NOT_MEMBER
    else if code == "SuspendedUser" then ERR_SUSPENDED
    else if code == "BadRequest" then ERR_WITH_DB
    else ERR_UNEXPECTED_ERROR
  }

  function Append(a: Answer, e: ErrorP): Answer {
    a.(errs := a.errs + [e])
  }

  /** What the end tag of an element does with its text; the depth is already that outside. */
  function Finish(r: Reading, name: string, base64: Base64): Reading {
    if name == "ac" then
      var d := DecodeText(r.value, base64);
      r.(answer := r.answer.(ac := d), error := r.error || d == [])
    else if name == "bitstr" then
      var d := DecodeText(r.value, base64);
      r.(answer := r.answer.(data := d), error := r.error || d == [])
    else if name == "error" then r.(answer := Append(r.answer, ErrorP(r.num, r.message)))
    else if name == "number" && r.depth == 3 then r.(num := Atoi(r.value))
    else if name == "message" && r.depth == 3 then r.(message := r.value)
    else if name == "warning" then r.(answer := Append(r.answer, ErrorP(WARN_OFFSET, r.value)))
    else if name == "code" && r.depth == 3 then r.(num := CodeNumber(r.value))
    else if name == "version" then r.(answer := r.answer.(version := Atoi(r.value)))
    else r
  }

  function Step(r: Reading, ev: Event, base64: Base64): Reading {
    match ev
    case Start(_) =>
      if r.depth == 4 then r.(error := true) else r.(depth := r.depth + 1, value := "")
    case Text(s) =>
      if r.error then r else r.(value := r.value + s)
    case End(name) =>
      if r.error || r.depth == 0 then r.(error := true)
      else Finish(r.(depth := r.depth - 1), name, base64).(value := "")
  }

  function Run(r: Reading, evs: seq<Event>, base64: Base64): Reading
    decreases |evs|
  {
    if evs == [] then r else Run(Step(r, evs[0], base64), evs[1..], base64)
  }

  // ----- the handlers

  class Handler {
    const base64: Base64
    var answer: Answer
    var value: string
    var error: bool
    var depth: nat
    var num: int
    var message: string

    constructor (answer: Answer, num: int, message: string, base64: Base64)
      ensures State() == Fresh(answer, num, message) && this.base64 == base64
    {
      this.base64 := base64;
      this.answer, this.num, this.message := answer, num, message;
      value, depth, error := "", 0, false;
    }

    ghost function State(): Reading
      reads this
    {
      Reading(answer, value, error, depth, num, message)
    }

    method StartAns(name: string)
      modifies this
      ensures State() == Step(old(State()), Start(name), base64)
    {
      if depth == 4 {
        error := true;
      } else {
        depth := depth + 1;
        value := "";
      }
    }

    method HandlerAns(s: string)
      modifies this
      ensures State() == Step(old(State()), Text(s), base64)
    {
      if error {
        return;
      }
      if value == "" {
        value := s;
      } else {
        value := value + s;
      }
      // The C code would raise the error flag here if the text had been lost; it never is.
      assert !(value == "" && |s| > 0);
    }

    method EndAns(name: string)
      modifies this
      ensures State() == Step(old(State()), End(name), base64)
    {
      if error || depth == 0 {
        error := true;
        return;
      }
      depth := depth - 1;
      if name == "ac" {
        var d := DecodeText(value, base64);
        answer := answer.(ac := d);
        if |d| == 0 { error := true; }
      } else if name == "bitstr" {
        var d := DecodeText(value, base64);
        answer := answer.(data := d);
        if |d| == 0 { error := true; }
      } else if name == "error" {
        answer := answer.(errs := answer.errs + [ErrorP(num, message)]);
      } else if name == "number" && depth == 3 {
        num := Atoi(value);
      } else if name == "message" && depth == 3 {
        message := value;
      } else if name == "warning" {
        answer := answer.(errs := answer.errs + [ErrorP(WARN_OFFSET, value)]);
      } else if name == "code" && depth == 3 {
        if value == "NoSuchUser" {
          num := ERR_NOT_MEMBER;
        } else if value == "SuspendedUser" {
          num := ERR_SUSPENDED;
        } else if value == "BadRequest" {
          num := ERR_WITH_DB;
        } else {
          num := ERR_UNEXPECTED_ERROR;
        }
      } else if name == "version" {
        answer := answer.(version := Atoi(value));
      }
      value := "";
    }

    /** XML_Parse: the handlers are called for each event. */
    method Feed(evs: seq<Event>)
      modifies this
      ensures State() == Run(old(State()), evs, base64)
    {
      for i := 0 to |evs|
        invariant Run(State(), evs[i..], base64) == Run(old(State()), evs, base64)
      {
        assert evs[i..][1..] == evs[i + 1..];
        match evs[i] {
          case Start(name) => StartAns(name);
          case Text(s) => HandlerAns(s);
          case End(name) => EndAns(name);
        }
      }
    }
  }

  function Fresh(answer: Answer, num: int, message: string): Reading {
    Reading(answer, "", false, 0, num, message)
  }

  // ----- every event sequence

  lemma {:induction false} DepthStaysBounded(r: Reading, evs: seq<Event>, base64: Base64)
    requires r.depth <= 4
    ensures Run(r, evs, base64).depth <= 4
    decreases |evs|
  {
    if evs != [] {
      DepthStaysBounded(Step(r, evs[0], base64), evs[1..], base64);
    }
  }

  /** How the text was portioned makes no difference. */
  lemma {:induction false} RunJoined(r: Reading, evs: seq<Event>, base64: Base64)
    ensures Run(r, Joined(evs), base64) == Run(r, evs, base64)
    decreases |evs|
  {
    hide Finish, Step, Run;
    if evs == [] {
      RunNothing(r, base64);
    } else {
      var ev, j := evs[0], Joined(evs[1..]);
      RunFirst(r, ev, evs[1..], base64);
      assert [ev] + evs[1..] == evs;
      RunJoined(Step(r, ev, base64), evs[1..], base64);
      if !ev.Text? {
        RunFirst(r, ev, j, base64);
      } else if ev.text == "" {
        StepTexts(r, "", "", base64);
      } else if j != [] && j[0].Text? {
        RunFirst(Step(r, ev, base64), j[0], j[1..], base64);
        assert [j[0]] + j[1..] == j;
        StepTexts(r, ev.text, j[0].text, base64);
        RunFirst(r, Text(ev.text + j[0].text), j[1..], base64);
      } else {
        RunFirst(r, ev, j, base64);
      }
    }
  }

  lemma {:induction false} RunFirst(r: Reading, ev: Event, evs: seq<Event>, base64: Base64)
    ensures Run(r, [ev] + evs, base64) == Run(Step(r, ev, base64), evs, base64)
  {
    hide Step;
    assert ([ev] + evs)[1..] == evs;
  }

  /** Two texts in a row are one. */
  lemma {:induction false} StepTexts(r: Reading, s: string, t: string, base64: Base64)
    ensures Step(Step(r, Text(s), base64), Text(t), base64) == Step(r, Text(s + t), base64)
    ensures Step(r, Text(""), base64) == r
  {
    assert r.value + s + t == r.value + (s + t) && r.value + "" == r.value;
  }

  /** Any two portionings of the same events leave the same answer. */
  lemma {:induction false} PortionsDoNotMatter(r: Reading, a: seq<Event>, b: seq<Event>, base64: Base64)
    requires Rechunks(a, b)
    ensures Run(r, a, base64) == Run(r, b, base64)
  {
    RunJoined(r, a, base64);
    RunJoined(r, b, base64);
  }

  // ----- the round trip

  lemma {:induction false} RunAppend(r: Reading, a: seq<Event>, b: seq<Event>, base64: Base64)
    ensures Run(r, a + b, base64) == Run(Run(r, a, base64), b, base64)
    decreases |a|
  {
    hide Finish;
    if a == [] {
      assert a + b == b;
    } else {
      assert (a + b)[0] == a[0] && (a + b)[1..] == a[1..] + b;
      RunAppend(Step(r, a[0], base64), a[1..], b, base64);
    }
  }

  lemma {:induction false} RunElement(r: Reading, name: string, text: string, base64: Base64)
    requires !r.error && r.depth < 4
    ensures Run(r, Element(name, text), base64) == Finish(r.(value := text), name, base64).(value := "")
  {
    hide Finish, Run;
    var r1 := r.(depth := r.depth + 1, value := "");
    RunOne(r, Start(name), base64);
    assert r1.value + text == text;
    RunAppend(r, [Start(name)], [Text(text)], base64);
    RunOne(r1, Text(text), base64);
    RunAppend(r, if text == "" then [Start(name)] else [Start(name)] + [Text(text)], [End(name)], base64);
    RunOne(r1.(value := text), End(name), base64);
    assert text == "" ==> [Start(name)] + [] == [Start(name)];
  }

  lemma {:induction false} RunOne(r: Reading, ev: Event, base64: Base64)
    ensures Run(r, [ev], base64) == Step(r, ev, base64)
  {
    assert [ev][1..] == [];
  }

  lemma {:induction false} RunItem(r: Reading, e: ErrorP, base64: Base64)
    requires !r.error && r.depth == 2
    ensures Run(r, ItemEvents(e), base64) == r.(num := e.num, message := e.message, value := "")
  {
    hide Run;
    DecimalIsPlain(e.num);
    AtoiOfDecimal(e.num);
    var head := [Start("item")];
    var r1 := r.(depth := 3, value := "");
    RunOne(r, Start("item"), base64);
    RunAppend(r, head, NumberEvents(e), base64);
    RunElement(r1, "number", Decimal(e.num), base64);
    var r2 := r1.(num := e.num);
    RunAppend(r, head + NumberEvents(e), Element("message", e.message), base64);
    RunElement(r2, "message", e.message, base64);
    var r3 := r2.(message := e.message);
    RunAppend(r, head + NumberEvents(e) + Element("message", e.message), [End("item")], base64);
    RunOne(r3, End("item"), base64);
  }

  lemma {:induction false} RunItems(r: Reading, errs: seq<ErrorP>, base64: Base64)
    requires !r.error && r.depth == 2 && r.value == "" && errs != []
    ensures var last := errs[|errs| - 1];
      Run(r, ItemsEvents(errs), base64) == r.(num := last.num, message := last.message)
    decreases |errs|
  {
    hide Run, ItemEvents;
    var n := |errs| - 1;
    if n == 0 {
      assert ItemsEvents(errs[..0]) == [] && [] + ItemEvents(errs[0]) == ItemEvents(errs[0]);
      RunItem(r, errs[0], base64);
    } else {
      RunItems(r, errs[..n], base64);
      RunAppend(r, ItemsEvents(errs[..n]), ItemEvents(errs[n]), base64);
      RunItem(r.(num := errs[n - 1].num, message := errs[n - 1].message), errs[n], base64);
    }
  }

  /** The errors the handlers find in an answer that was sent with errs: all items of the one
      <error> element share a number and a message, so only the last one is reported. */
  function Reported(errs: seq<ErrorP>): seq<ErrorP> {
    if errs == [] then [] else [errs[|errs| - 1]]
  }

  lemma {:induction false} RunErrors(r: Reading, errs: seq<ErrorP>, base64: Base64)
    requires !r.error && r.depth == 1 && r.value == ""
    ensures var r' := Run(r, ErrorEvents(errs), base64);
      && r' == r.(answer := r.answer.(errs := r.answer.errs + Reported(errs)), num := r'.num, message := r'.message)
  {
    hide Run;
    if errs == [] {
      assert r.answer.errs + [] == r.answer.errs;
      RunNothing(r, base64);
    } else {
      var r1 := r.(depth := 2);
      RunOne(r, Start("error"), base64);
      RunAppend(r, [Start("error")], ItemsEvents(errs), base64);
      RunItems(r1, errs, base64);
      RunAppend(r, [Start("error")] + ItemsEvents(errs), [End("error")], base64);
      var last := errs[|errs| - 1];
      RunOne(r1.(num := last.num, message := last.message), End("error"), base64);
    }
  }

  lemma {:induction false} RunNothing(r: Reading, base64: Base64)
    ensures Run(r, [], base64) == r
  {
  }

  /** What is written with the codec is plain and decoded again. */
  ghost predicate IsCodec(enc: Coder, base64: Base64) {
    WritesPlain(enc) && forall d :: d != [] ==> DecodeText(enc(d), base64) == d
  }

  /** The 6-bit codec is one, whatever Base64 does. */
  lemma {:induction false} SixBitIsCodec(base64: Base64)
    ensures IsCodec(Encoded, base64)
  {
    hide Encoded, Decoded, IsPlain;
    SixBitWritesPlain();
    forall d: seq<Byte> | d != [] ensures DecodeText(Encoded(d), base64) == d {
      RoundTrip(d);
    }
  }

  /** And so is Base64, as long as each encoding has a newline: that is what tells the two apart. */
  lemma {:induction false} Base64IsCodec(enc: Coder, base64: Base64)
    requires WritesPlain(enc)
    requires forall d :: d != [] ==> '\n' in enc(d) && base64(enc(d)) == d
    ensures IsCodec(enc, base64)
  {
  }

  lemma {:induction false} RunBytes(r: Reading, name: string, d: seq<Byte>, enc: Coder, base64: Base64)
    requires IsCodec(enc, base64)
    requires !r.error && r.depth == 1 && r.value == "" && (name == "ac" || name == "bitstr")
    ensures Run(r, CodeEvents(name, enc(d)), base64)
         == if d == [] then r
            else if name == "ac" then r.(answer := r.answer.(ac := d))
            else r.(answer := r.answer.(data := d))
  {
    hide Run, DecodeText;
    if d == [] {
      RunNothing(r, base64);
    } else {
      RunElement(r, name, enc(d), base64);
    }
  }

  /** The answer as the caller has it, with these errors behind those it had before. */
  function Received(a: Answer, ac: seq<Byte>, data: seq<Byte>, errs: seq<ErrorP>): Answer {
    Answer(if ac == [] then a.ac else ac, if data == [] then a.data else data, a.errs + errs, 3)
  }

  /** What the handlers make of an encoded answer, starting from any state of the caller's
      variables and whatever portions the text comes in: the attribute certificate and the
      data byte for byte, and the reported errors. */
  lemma {:induction false} ReadingRecoversTheAnswer(a: Answer, num: int, message: string, ac: seq<Byte>,
                                                    data: seq<Byte>, errs: seq<ErrorP>, evs: seq<Event>,
                                                    enc: Coder, base64: Base64)
    requires IsCodec(enc, base64)
    requires Rechunks(AnswerEvents(ac, data, errs, enc), evs)
    ensures var r := Run(Fresh(a, num, message), evs, base64);
      && r.answer == Received(a, ac, data, Reported(errs))
      && !r.error && r.depth == 0
  {
    hide Run, Element;
    var r := Fresh(a, num, message);
    PortionsDoNotMatter(r, AnswerEvents(ac, data, errs, enc), evs, base64);
    var e1 := [Start("vomsans")];
    RunOne(r, Start("vomsans"), base64);
    var r1 := r.(depth := 1);
    var e2 := e1 + Element("version", "3");
    RunAppend(r, e1, Element("version", "3"), base64);
    RunElement(r1, "version", "3", base64);
    AtoiOfDecimal(3);
    var r2 := Run(r, e2, base64);
    var e3 := e2 + ErrorEvents(errs);
    RunAppend(r, e2, ErrorEvents(errs), base64);
    RunErrors(r2, errs, base64);
    var r3 := Run(r, e3, base64);
    RunAppend(r, e3, CodeEvents("bitstr", enc(data)), base64);
    RunBytes(r3, "bitstr", data, enc, base64);
    var e4 := e3 + CodeEvents("bitstr", enc(data));
    var r4 := Run(r, e4, base64);
    RunAppend(r, e4, CodeEvents("ac", enc(ac)), base64);
    RunBytes(r4, "ac", ac, enc, base64);
    var e5 := e4 + CodeEvents("ac", enc(ac));
    RunAppend(r, e5, [End("vomsans")], base64);
    RunOne(Run(r, e5, base64), End("vomsans"), base64);
  }

  /** However the text is portioned, the errors come back as they were sent just when there is
      at most one. */
  lemma {:induction false} ErrorsSurviveIff(a: Answer, num: int, message: string, ac: seq<Byte>, data: seq<Byte>,
                                            errs: seq<ErrorP>, evs: seq<Event>, enc: Coder, base64: Base64)
    requires IsCodec(enc, base64)
    requires Rechunks(AnswerEvents(ac, data, errs, enc), evs)
    ensures Run(Fresh(a, num, message), evs, base64).answer.errs == a.errs + errs <==> |errs| <= 1
  {
    hide Run, Rechunks, AnswerEvents;
    ReadingRecoversTheAnswer(a, num, message, ac, data, errs, evs, enc, base64);
    assert (a.errs + errs)[|a.errs|..] == errs && (a.errs + Reported(errs))[|a.errs|..] == Reported(errs);
    assert |errs| == 1 ==> errs == [errs[0]];
  }

  // ----- the whole way

  /** The message the handlers remember and those they have appended are plain. */
  predicate HasPlainMessages(r: Reading, known: nat) {
    && IsPlain(r.message)
    && known <= |r.answer.errs|
    && forall i :: known <= i < |r.answer.errs| ==> IsPlain(r.answer.errs[i].message)
  }

  /** Reading a document never puts anything but plain text into a message. */
  lemma {:induction false} MessagesStayPlain(r: Reading, evs: seq<Event>, base64: Base64, known: nat)
    requires HasPlainMessages(r, known) && IsPlain(r.value) && IsClean(evs)
    requires evs != [] && evs[0].Text? ==> r.error || r.value == ""
    ensures HasPlainMessages(Run(r, evs, base64), known)
    decreases |evs|
  {
    hide IsPlain, DecodeText, CodeNumber, Atoi;
    if evs != [] {
      PlainWithoutGreater("");
      var r1 := Step(r, evs[0], base64);
      StepKeepsMessagesPlain(r, evs[0], base64, known);
      MessagesStayPlain(r1, evs[1..], base64, known);
    }
  }

  lemma {:induction false} StepKeepsMessagesPlain(r: Reading, ev: Event, base64: Base64, known: nat)
    requires HasPlainMessages(r, known) && IsPlain(r.value) && IsPlain("")
    requires ev.Text? ==> (r.error || r.value == "") && IsPlain(ev.text)
    ensures var r1 := Step(r, ev, base64);
      HasPlainMessages(r1, known) && IsPlain(r1.value) && (!ev.Text? ==> r1.error || r1.value == "")
  {
    hide IsPlain, DecodeText, CodeNumber, Atoi;
    assert ev.Text? && r.value == "" ==> r.value + ev.text == ev.text;
  }

  /** The client ends up with this answer, however expat portions the text of the document. */
  ghost predicate Arrives(a: Answer, num: int, text: string, base64: Base64, got: Answer) {
    var doc := ParseDocument(text);
    && doc.Some?
    && forall evs :: Rechunks(doc.value, evs) ==> Run(Fresh(a, num, ""), evs, base64).answer == got
  }

  /** The whole way with plain messages: certificate and data arrive byte for byte, and of the
      errors the last one. */
  lemma {:induction false} PlainAnswerArrives(a: Answer, num: int, ac: seq<Byte>, data: seq<Byte>, errs: seq<ErrorP>,
                                              enc: Coder, base64: Base64)
    requires IsCodec(enc, base64) && (ac != [] || data != [])
    requires forall i :: 0 <= i < |errs| ==> IsPlain(errs[i].message)
    ensures Arrives(a, num, AnswerText(ac, data, errs, enc), base64, Received(a, ac, data, Reported(errs)))
  {
    hide Run, Rechunks, AnswerEvents, IsPlain, ParseDocument;
    AnswerParsesIff(ac, data, errs, enc);
    forall evs | Rechunks(AnswerEvents(ac, data, errs, enc), evs)
      ensures Run(Fresh(a, num, ""), evs, base64).answer == Received(a, ac, data, Reported(errs))
    {
      ReadingRecoversTheAnswer(a, num, "", ac, data, errs, evs, enc, base64);
    }
  }

  /** Whatever is read from a document, the messages that come with it are plain. */
  lemma {:induction false} ArrivingMessagesArePlain(a: Answer, num: int, text: string, base64: Base64, got: Answer,
                                                    i: nat)
    requires IsAnswerText(text) && Arrives(a, num, text, base64, got) && |a.errs| <= i < |got.errs|
    ensures IsPlain(got.errs[i].message)
  {
    hide Run, IsPlain, IsClean, Parse, ParseDocument;
    var evs := ParseDocument(text).value;
    var body :| text == Open(DECLARATION) + body;
    ParseBehindDeclaration(DECLARATION, body);
    ParsedIsClean(body);
    PlainWithoutGreater("");
    assert Rechunks(evs, evs);
    MessagesStayPlain(Fresh(a, num, ""), evs, base64, |a.errs|);
  }

  ghost predicate IsAnswerText(text: string) {
    exists body :: text == Open(DECLARATION) + body
  }

  /** An answer arrives as it was sent, with all its errors, if and only if there is at most one
      and its message is plain text. */
  lemma {:induction false} AnswerArrivesIff(a: Answer, num: int, ac: seq<Byte>, data: seq<Byte>, errs: seq<ErrorP>,
                                            enc: Coder, base64: Base64)
    requires IsCodec(enc, base64) && (ac != [] || data != [])
    ensures Arrives(a, num, AnswerText(ac, data, errs, enc), base64, Received(a, ac, data, errs))
            <==> |errs| <= 1 && forall i :: 0 <= i < |errs| ==> IsPlain(errs[i].message)
  {
    hide Run, AnswerEvents, IsPlain, ParseDocument, Print;
    var text, got := AnswerText(ac, data, errs, enc), Received(a, ac, data, errs);
    if forall i :: 0 <= i < |errs| ==> IsPlain(errs[i].message) {
      PlainAnswerArrives(a, num, ac, data, errs, enc, base64);
      assert Rechunks(ParseDocument(text).value, ParseDocument(text).value);
      assert Received(a, ac, data, errs) == Received(a, ac, data, Reported(errs)) <==> errs == Reported(errs) by {
        assert (a.errs + errs)[|a.errs|..] == errs && (a.errs + Reported(errs))[|a.errs|..] == Reported(errs);
      }
      assert |errs| == 1 ==> errs == [errs[0]];
    } else if Arrives(a, num, text, base64, got) {
      assert text == Open(DECLARATION) + Print(AnswerEvents(ac, data, errs, enc));
      forall i | 0 <= i < |errs| ensures IsPlain(errs[i].message) {
        ArrivingMessagesArePlain(a, num, text, base64, got, |a.errs| + i);
        assert got.errs[|a.errs| + i] == errs[i];
      }
    }
  }

  /** Errors that do not arrive: of two, the second comes alone. */
  lemma {:induction false} SecondErrorHidesTheFirst(a: Answer, num: int, enc: Coder, base64: Base64)
    requires IsCodec(enc, base64)
    ensures var errs := [ErrorP(1, "one"), ErrorP(2, "two")];
      && Arrives(a, num, AnswerText([], [0], errs, enc), base64, Received(a, [], [0], [ErrorP(2, "two")]))
      && !Arrives(a, num, AnswerText([], [0], errs, enc), base64, Received(a, [], [0], errs))
  {
    hide Arrives, IsPlain, Received;
    PlainWithoutGreater("one");
    PlainWithoutGreater("two");
    var errs := [ErrorP(1, "one"), ErrorP(2, "two")];
    PlainAnswerArrives(a, num, [], [0], errs, enc, base64);
    AnswerArrivesIff(a, num, [], [0], errs, enc, base64);
  }

  /** What the server sends in either codec arrives byte for byte. `base64Encode` and `base64` are
      OpenSSL's, of which the newline at the end of each line is what counts. */
  lemma {:induction false} EitherCodecArrives(a: Answer, num: int, ac: seq<Byte>, data: seq<Byte>, flag: bool,
                                              base64Encode: Coder, base64: Base64)
    requires ac != [] || data != []
    requires WritesPlain(base64Encode)
    requires forall d :: d != [] ==> '\n' in base64Encode(d) && base64(base64Encode(d)) == d
    ensures Arrives(a, num, AnswerText(ac, data, [], Coding(flag, base64Encode)), base64, Received(a, ac, data, []))
  {
    hide Arrives, AnswerText, IsCodec, WritesPlain;
    SixBitIsCodec(base64);
    Base64IsCodec(base64Encode, base64);
    AnswerArrivesIff(a, num, ac, data, [], Coding(flag, base64Encode), base64);
  }

  // ----- single elements, in any portions

  /** A certificate or data with a newline in its text is taken for Base64, and otherwise for the
      6-bit codec; an empty result is an error. */
  lemma {:induction false} NewlineMeansBase64(r: Reading, name: string, text: string, evs: seq<Event>, base64: Base64)
    requires !r.error && r.depth < 4 && Rechunks(Element(name, text), evs)
    requires IsAscii(text) && (name == "ac" || name == "bitstr")
    ensures var got := Run(r, evs, base64);
      var d := if '\n' in text then base64(text) else Decoded(text);
      && got.answer == (if name == "ac" then r.answer.(ac := d) else r.answer.(data := d))
      && (got.error <==> d == [])
  {
    hide Run, Decoded, Element;
    PortionsDoNotMatter(r, Element(name, text), evs, base64);
    RunElement(r, name, text, base64);
  }

  /** An error that comes with a code, and a warning, as the REST interface sends them. */
  lemma {:induction false} CodeMeansNumber(r: Reading, code: string, message: string, evs: seq<Event>, base64: Base64)
    requires !r.error && r.depth == 1
    requires Rechunks([Start("error"), Start("item")] + Element("code", code) + Element("message", message)
                      + [End("item")] + [End("error")], evs)
    ensures var number := if code == "NoSuchUser" then 1001 else if code == "SuspendedUser" then 1004
                          else if code == "BadRequest" then 1003 else 1006;
      Run(r, evs, base64).answer == r.answer.(errs := r.answer.errs + [ErrorP(number, message)])
  {
    hide Run, Element;
    var e1 := [Start("error"), Start("item")];
    var e2 := e1 + Element("code", code);
    var e3 := e2 + Element("message", message);
    PortionsDoNotMatter(r, e3 + [End("item")] + [End("error")], evs, base64);
    RunFirst(r, Start("error"), [Start("item")], base64);
    RunOne(r.(depth := 2, value := ""), Start("item"), base64);
    assert [Start("error")] + [Start("item")] == e1;
    var r1 := Run(r, e1, base64);
    RunAppend(r, e1, Element("code", code), base64);
    RunElement(r1, "code", code, base64);
    RunAppend(r, e2, Element("message", message), base64);
    RunElement(Run(r, e2, base64), "message", message, base64);
    RunAppend(r, e3, [End("item")], base64);
    RunOne(Run(r, e3, base64), End("item"), base64);
    RunAppend(r, e3 + [End("item")], [End("error")], base64);
    RunOne(Run(r, e3 + [End("item")], base64), End("error"), base64);
  }

  lemma {:induction false} WarningIsAppended(r: Reading, text: string, evs: seq<Event>, base64: Base64)
    requires !r.error && r.depth < 4 && Rechunks(Element("warning", text), evs)
    ensures Run(r, evs, base64).answer == r.answer.(errs := r.answer.errs + [ErrorP(0, text)])
  {
    hide Run, Element;
    PortionsDoNotMatter(r, Element("warning", text), evs, base64);
    RunElement(r, "warning", text, base64);
  }
}
