/**
 The server's answer on the wire (src/common/xmlcc.cc:320-359, 380-414, 460-550): the encoder
 that writes it, and the SAX handlers by which the client reads it back.
 */
module AnswerWriting {
  import opened Options
  import opened Strings
  import opened Xml
  import opened Codec

  datatype ErrorP = ErrorP(num: int, message: string)

  datatype Answer = Answer(ac: seq<Byte>, data: seq<Byte>, errs: seq<ErrorP>, version: int)

  const WARN_OFFSET := 0
  const ERR_NOT_MEMBER := 1001
  const ERR_WITH_DB := 1003
  const ERR_SUSPENDED := 1004
  const ERR_UNEXPECTED_ERROR := 1006

  // ----- encoding

  const DECLARATION := "?xml version=\"1.0\" encoding = \"US-ASCII\"?"

  function ItemEvents(e: ErrorP): seq<Event> {
    [Start("item")] + NumberEvents(e) + Element("message", e.message) + [End("item")]
  }

  function NumberEvents(e: ErrorP): seq<Event> {
    DecimalIsPlain(e.num);
    Element("number", Decimal(e.num))
  }

  function ItemsEvents(errs: seq<ErrorP>): seq<Event> {
    if errs == [] then [] else ItemsEvents(errs[..|errs| - 1]) + ItemEvents(errs[|errs| - 1])
  }

  function ErrorEvents(errs: seq<ErrorP>): seq<Event> {
    if errs == [] then [] else [Start("error")] + ItemsEvents(errs) + [End("error")]
  }

  /** A codec from bytes to text: `Encoded`, or the Base64 of OpenSSL. */
  type Coder = seq<Byte> -> string

  /** The codec turns something into something, and that into plain text. */
  ghost predicate WritesPlain(enc: Coder) {
    enc([]) == "" && forall d :: d != [] ==> enc(d) != "" && IsPlain(enc(d))
  }

  function CodeEvents(name: string, code: string): seq<Event> {
    if code == "" then [] else Element(name, code)
  }

  /** The document of an answer, as its events. */
  function AnswerEvents(ac: seq<Byte>, data: seq<Byte>, errs: seq<ErrorP>, enc: Coder): seq<Event> {
    [Start("vomsans")] + Element("version", "3") + ErrorEvents(errs)
    + CodeEvents("bitstr", enc(data)) + CodeEvents("ac", enc(ac)) + [End("vomsans")]
  }

  /** The codec that `Encode` uses. */
  function Coding(base64: bool, base64Encode: Coder): Coder {
    if base64 then base64Encode else Encoded
  }

  predicate NothingCoded(ac: seq<Byte>, data: seq<Byte>, enc: Coder) {
    || (ac == [] && data == [])
    || (ac != [] && enc(ac) == "" && data != [] && enc(data) == "")
  }

  /** What XML_Ans_Encode returns with this codec. */
  function AnswerText(ac: seq<Byte>, data: seq<Byte>, errs: seq<ErrorP>, enc: Coder): string {
    if NothingCoded(ac, data, enc) then "" else Open(DECLARATION) + Print(AnswerEvents(ac, data, errs, enc))
  }

  method XmlAnsEncode(ac: seq<Byte>, data: seq<Byte>, errs: seq<ErrorP>, base64: bool, base64Encode: Coder)
    returns (res: string)
    ensures res == AnswerText(ac, data, errs, Coding(base64, base64Encode))
  {
    hide Element, Open, Close, Print, DECLARATION;
    if |ac| == 0 && |data| == 0 {
      return "";
    }
    var codedac, codeddata;
    if base64 {
      codedac, codeddata := base64Encode(ac), base64Encode(data);
    } else {
      codedac := MyEncode(ac);
      codeddata := MyEncode(data);
    }
    ghost var enc := Coding(base64, base64Encode);
    assert codedac == enc(ac) && codeddata == enc(data);
    if |codedac| == 0 && |ac| > 0 && |codeddata| == 0 && |data| > 0 {
      return "";
    }
    var body := EncodeHead(errs);
    ghost var evs := [Start("vomsans")] + Element("version", "3") + ErrorEvents(errs);
    body := EncodeCode(body, "bitstr", codeddata, evs);
    evs := evs + CodeEvents("bitstr", codeddata);
    body := EncodeCode(body, "ac", codedac, evs);
    evs := evs + CodeEvents("ac", codedac);
    AppendEvent(body, evs, End("vomsans"));
    body := body + Close("vomsans");
    res := Open(DECLARATION) + body;
  }

  method EncodeCode(doc: string, name: string, code: string, ghost evs: seq<Event>) returns (res: string)
    requires doc == Print(evs)
    ensures res == Print(evs + CodeEvents(name, code))
  {
    hide Element, Open, Close, Print;
    res := doc;
    if |code| > 0 {
      AppendElement(doc, evs, name, code);
      res := res + Open(name) + code + Close(name);
    }
    assert evs + [] == evs;
  }

  method EncodeHead(errs: seq<ErrorP>) returns (res: string)
    ensures res == Print([Start("vomsans")] + Element("version", "3") + ErrorEvents(errs))
  {
    hide Element, Open, Close, ItemEvents, Print;
    PrintNothing();
    ghost var evs := [Start("vomsans")];
    AppendEvent("", [], Start("vomsans"));
    assert [] + evs == evs && "" + Open("vomsans") == Open("vomsans");
    res := Open("vomsans");
    AppendElement(res, evs, "version", "3");
    res := res + Open("version") + "3" + Close("version");
    evs := evs + Element("version", "3");
    res := EncodeErrors(res, errs, evs);
  }

  method EncodeErrors(doc: string, errs: seq<ErrorP>, ghost evs: seq<Event>) returns (res: string)
    requires doc == Print(evs)
    ensures res == Print(evs + ErrorEvents(errs))
  {
    hide Element, Open, Close, ItemEvents, ItemsEvents, Print;
    if |errs| == 0 {
      assert evs + [] == evs;
      return doc;
    }
    ghost var start := evs + [Start("error")];
    AppendEvent(doc, evs, Start("error"));
    res := doc + Open("error");
    ItemsSnoc(errs);
    assert start + [] == start;
    for i := 0 to |errs|
      invariant res == Print(start + ItemsEvents(errs[..i]))
    {
      ghost var before := start + ItemsEvents(errs[..i]);
      res := EncodeItem(res, errs[i], before);
      ItemsSnoc(errs[..i + 1]);
      assert errs[..i + 1][..i] == errs[..i];
      assert before + ItemEvents(errs[i]) == start + ItemsEvents(errs[..i + 1]);
    }
    assert errs[..|errs|] == errs;
    AppendEvent(res, start + ItemsEvents(errs), End("error"));
    res := res + Close("error");
    assert start + ItemsEvents(errs) + [End("error")] == evs + ErrorEvents(errs);
  }

  lemma {:induction false} ItemsSnoc(errs: seq<ErrorP>)
    ensures ItemsEvents([]) == []
    ensures errs != [] ==> ItemsEvents(errs) == ItemsEvents(errs[..|errs| - 1]) + ItemEvents(errs[|errs| - 1])
  {
    hide ItemEvents;
  }

  method EncodeItem(doc: string, e: ErrorP, ghost evs: seq<Event>) returns (res: string)
    requires doc == Print(evs)
    ensures res == Print(evs + ItemEvents(e))
  {
    hide Element, Open, Close, Print;
    DecimalIsPlain(e.num);
    AppendEvent(doc, evs, Start("item"));
    res := doc + Open("item");
    ghost var evs1 := evs + [Start("item")];
    var str := Decimal(e.num);
    AppendElement(res, evs1, "number", str);
    res := res + Open("number") + str + Close("number");
    ghost var evs2 := evs1 + Element("number", str);
    AppendElement(res, evs2, "message", e.message);
    res := res + Open("message") + e.message + Close("message");
    ghost var evs3 := evs2 + Element("message", e.message);
    AppendEvent(res, evs3, End("item"));
    res := res + Close("item");
    assert evs3 + [End("item")] == evs + ItemEvents(e);
  }

  // ----- the text is a document

  lemma {:induction false} ItemsPrintable(errs: seq<ErrorP>)
    requires forall i :: 0 <= i < |errs| ==> IsPlain(errs[i].message)
    ensures Printable(ItemsEvents(errs))
    ensures errs != [] ==> ItemsEvents(errs) != [] && ItemsEvents(errs)[0] == Start("item")
  {
    hide Element, Printable;
    if errs == [] {
      NothingPrintable();
    } else {
      var n := |errs| - 1;
      ItemsPrintable(errs[..n]);
      ItemPrintable(errs[n]);
      PrintableAppend(ItemsEvents(errs[..n]), ItemEvents(errs[n]));
    }
  }

  lemma {:induction false} ItemPrintable(e: ErrorP)
    requires IsPlain(e.message)
    ensures Printable(ItemEvents(e)) && ItemEvents(e) != [] && ItemEvents(e)[0] == Start("item")
  {
    hide Printable;
    DecimalIsPlain(e.num);
    TagsPrintable("item");
    ElementIsPrintable("number", Decimal(e.num));
    ElementIsPrintable("message", e.message);
    PrintableAppend([Start("item")], NumberEvents(e));
    PrintableAppend([Start("item")] + NumberEvents(e), Element("message", e.message));
    PrintableAppend([Start("item")] + NumberEvents(e) + Element("message", e.message), [End("item")]);
  }

  lemma {:induction false} ErrorsPrintable(errs: seq<ErrorP>)
    requires forall i :: 0 <= i < |errs| ==> IsPlain(errs[i].message)
    ensures Printable(ErrorEvents(errs))
    ensures ErrorEvents(errs) != [] ==> !ErrorEvents(errs)[0].Text?
  {
    hide Printable;
    NothingPrintable();
    if errs != [] {
      TagsPrintable("error");
      ItemsPrintable(errs);
      PrintableAppend([Start("error")], ItemsEvents(errs));
      PrintableAppend([Start("error")] + ItemsEvents(errs), [End("error")]);
    }
  }

  lemma {:induction false} CodePrintable(name: string, code: string)
    requires IsName(name) && IsPlain(code)
    ensures Printable(CodeEvents(name, code))
    ensures CodeEvents(name, code) != [] ==> !CodeEvents(name, code)[0].Text?
  {
    hide Printable, IsPlain;
    ElementIsPrintable(name, code);
    NothingPrintable();
  }

  lemma {:induction false} LettersArePlain(s: string)
    requires forall i :: 0 <= i < |s| ==> InAlphabet(s[i])
    ensures IsPlain(s)
  {
    PlainWithoutGreater(s);
  }

  lemma {:induction false} AnswerPrintable(ac: seq<Byte>, data: seq<Byte>, errs: seq<ErrorP>, enc: Coder)
    requires IsPlain(enc(ac)) && IsPlain(enc(data))
    requires forall i :: 0 <= i < |errs| ==> IsPlain(errs[i].message)
    ensures Printable(AnswerEvents(ac, data, errs, enc))
  {
    hide Printable, Element, ErrorEvents, CodeEvents, IsPlain;
    TagsPrintable("vomsans");
    PlainWithoutGreater("3");
    ElementIsPrintable("version", "3");
    ErrorsPrintable(errs);
    CodePrintable("bitstr", enc(data));
    CodePrintable("ac", enc(ac));
    StartsWithTag("version", "3");
    var e := [Start("vomsans")] + Element("version", "3");
    PrintableAppend([Start("vomsans")], Element("version", "3"));
    PrintableAppend(e, ErrorEvents(errs));
    PrintableAppend(e + ErrorEvents(errs), CodeEvents("bitstr", enc(data)));
    PrintableAppend(e + ErrorEvents(errs) + CodeEvents("bitstr", enc(data)), CodeEvents("ac", enc(ac)));
    PrintableAppend(e + ErrorEvents(errs) + CodeEvents("bitstr", enc(data)) + CodeEvents("ac", enc(ac)),
        [End("vomsans")]);
  }

  lemma {:induction false} MessageIsThere(errs: seq<ErrorP>, i: nat)
    requires i < |errs| && errs[i].message != ""
    ensures Text(errs[i].message) in ItemsEvents(errs)
  {
    var n := |errs| - 1;
    ItemsSnoc(errs);
    if i < n {
      MessageIsThere(errs[..n], i);
    } else {
      assert Element("message", errs[n].message)[1] == Text(errs[n].message);
      assert Text(errs[n].message) in ItemEvents(errs[n]);
    }
  }

  /** Messages are written as they are. The document has just the answer's events if and only
      if all of them are plain text; otherwise it has other events or is none. */
  lemma {:induction false} AnswerParsesIff(ac: seq<Byte>, data: seq<Byte>, errs: seq<ErrorP>, enc: Coder)
    requires WritesPlain(enc) && (ac != [] || data != [])
    ensures ParseDocument(AnswerText(ac, data, errs, enc)) == Some(AnswerEvents(ac, data, errs, enc))
            <==> forall i :: 0 <= i < |errs| ==> IsPlain(errs[i].message)
  {
    hide Parse, ParseDocument, Printable, AnswerEvents, Print, IsClean, IsPlain;
    var evs := AnswerEvents(ac, data, errs, enc);
    assert IsPlain(enc(ac)) && IsPlain(enc(data)) by { PlainWithoutGreater(""); }
    ParseBehindDeclaration(DECLARATION, Print(evs));
    if forall i :: 0 <= i < |errs| ==> IsPlain(errs[i].message) {
      AnswerPrintable(ac, data, errs, enc);
      ParseOfPrint(evs);
    } else if Parse(Print(evs)) == Some(evs) {
      ParsedIsClean(Print(evs));
      forall i | 0 <= i < |errs| ensures IsPlain(errs[i].message) {
        CleanAnswerHasPlainMessages(ac, data, errs, enc, i);
      }
    }
  }

  lemma {:induction false} CleanAnswerHasPlainMessages(ac: seq<Byte>, data: seq<Byte>, errs: seq<ErrorP>, enc: Coder,
                                                       i: nat)
    requires IsClean(AnswerEvents(ac, data, errs, enc)) && i < |errs|
    ensures IsPlain(errs[i].message)
  {
    hide IsClean, IsPlain, ItemsEvents, CodeEvents;
    if errs[i].message == "" {
      PlainWithoutGreater("");
    } else {
      MessageIsThere(errs, i);
      var text := Text(errs[i].message);
      assert text in ErrorEvents(errs);
      var evs := AnswerEvents(ac, data, errs, enc);
      assert text in evs;
      var k :| 0 <= k < |evs| && evs[k] == text;
      CleanTextIsPlain(evs, k);
    }
  }

  /** One that is not: a message with a '<' does not arrive. */
  lemma {:induction false} RawMessageBreaksTheAnswer(enc: Coder)
    requires WritesPlain(enc)
    ensures var errs := [ErrorP(1, "a<b")];
      ParseDocument(AnswerText([], [0], errs, enc)) != Some(AnswerEvents([], [0], errs, enc))
  {
    hide ParseDocument, AnswerText, AnswerEvents;
    var errs := [ErrorP(1, "a<b")];
    AnswerParsesIff([], [0], errs, enc);
    assert !IsPlainChar("a<b"[1]);
    assert !IsPlain(errs[0].message);
  }

  /** The 6-bit codec writes plain text. */
  lemma {:induction false} SixBitWritesPlain()
    ensures WritesPlain(Encoded)
  {
    hide Encoded, IsPlain;
    EncodedBits([]);
    assert Encoded([]) == "";
    forall d: seq<Byte> | d != [] ensures Encoded(d) != "" && IsPlain(Encoded(d)) {
      EncodedBits(d);
      RoundTrip(d);
      LettersArePlain(Encoded(d));
    }
  }

  // ----- the text in full

  /** The text of an answer with one error, data and a certificate. */
  lemma {:induction false} AnswerIsWritten(ac: seq<Byte>, data: seq<Byte>, e: ErrorP, enc: Coder)
    requires enc(ac) != "" && enc(data) != "" && (ac != [] || data != [])
    ensures AnswerText(ac, data, [e], enc)
         == "<" + "?xml version=\"1.0\" encoding = \"US-ASCII\"?" + ">"
            + Tagged("vomsans",
                     Tagged("version", "3")
                     + Tagged("error", Tagged("item", Tagged("number", Decimal(e.num)) + Tagged("message", e.message)))
                     + Tagged("bitstr", enc(data)) + Tagged("ac", enc(ac)))
  {
    hide Print, Element, Decimal, Tagged, ErrorEvents;
    ErrorIsWritten(e);
    PrintElement("version", "3");
    PrintElement("bitstr", enc(data));
    PrintElement("ac", enc(ac));
    var e2 := Element("version", "3");
    var e3 := e2 + ErrorEvents([e]);
    var e4 := e3 + Element("bitstr", enc(data));
    var e5 := e4 + Element("ac", enc(ac));
    PrintAppend(e2, ErrorEvents([e]));
    PrintAppend(e3, Element("bitstr", enc(data)));
    PrintAppend(e4, Element("ac", enc(ac)));
    PrintTagged("vomsans", e5);
    var all := [Start("vomsans")] + e2 + ErrorEvents([e]) + Element("bitstr", enc(data)) + Element("ac", enc(ac));
    assert all == [Start("vomsans")] + e5;
  }

  lemma {:induction false} ErrorIsWritten(e: ErrorP)
    ensures Print(ErrorEvents([e]))
         == Tagged("error", Tagged("item", Tagged("number", Decimal(e.num)) + Tagged("message", e.message)))
  {
    hide Print, Element, Decimal, Tagged;
    ItemsSnoc([e]);
    ItemsSnoc([]);
    assert [e][..0] == [] && [] + ItemEvents(e) == ItemEvents(e);
    var m := NumberEvents(e) + Element("message", e.message);
    PrintElement("number", Decimal(e.num));
    PrintElement("message", e.message);
    PrintAppend(NumberEvents(e), Element("message", e.message));
    PrintTagged("item", m);
    assert [Start("item")] + NumberEvents(e) + Element("message", e.message) == [Start("item")] + m;
    PrintTagged("error", ItemEvents(e));
  }

  lemma {:induction false} StartsWithTag(name: string, text: string)
    ensures Element(name, text) != [] && Element(name, text)[0] == Start(name)
  {
  }
}
