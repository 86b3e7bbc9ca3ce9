/**
 The part of XML the protocol uses: elements without attributes around plain US-ASCII text,
 and the events an expat parser reports for them. Expat may report a run of text in several
 events; documents are read here with one event per run, and Rechunks says when another event
 sequence is the same document reported in other portions.
 */
module Xml {
  import opened Options
  import opened Strings

  predicate IsAscii(s: string) {
    forall i :: 0 <= i < |s| ==> s[i] as int < 128
  }

  datatype Event = Start(name: string) | Text(text: string) | End(name: string)

  // ----- documents

  /** A character that stands for itself in text. A carriage return does not: it would be
      read back as a newline. */
  predicate IsPlainChar(c: char) {
    (' ' <= c <= '\U{7f}' || c == '\n' || c == '\t') && c != '<' && c != '&'
  }

  /** Text that a US-ASCII document may hold as it is; "]]>" may not stand in text. */
  predicate IsPlain(s: string) {
    (forall i :: 0 <= i < |s| ==> IsPlainChar(s[i])) && Find(s, "]]>").None?
  }

  lemma {:induction false} PlainWithoutGreater(s: string)
    requires '>' !in s && forall i :: 0 <= i < |s| ==> IsPlainChar(s[i])
    ensures IsPlain(s)
  {
    forall j: nat ensures !OccursAt(s, "]]>", j) {
      NotThere(s, "]]>", j, 2);
    }
  }

  /** The events of the content of a document, or None if it is not made of plain elements. */
  function Parse(doc: string): Option<seq<Event>>
    decreases |doc|
  {
    if doc == "" then Some([])
    else if doc[0] == '<' then
      var i := IndexOfChar(doc, '>');
      if i == |doc| || i == 1 || doc[1] == '?' || doc[1] == '!' then None
      else
        var rest := Parse(doc[i + 1..]);
        var tag := doc[1..i];
        if rest.None? then None
        else if tag[0] == '/' then Some([End(tag[1..])] + rest.value)
        else Some([Start(tag)] + rest.value)
    else
      var i := IndexOfChar(doc, '<');
      if !IsPlain(doc[..i]) then None
      else
        var rest := Parse(doc[i..]);
        if rest.None? then None else Some([Text(doc[..i])] + rest.value)
  }

  /** The events of a document, which may have an XML declaration in front. */
  function ParseDocument(doc: string): Option<seq<Event>> {
    if "<?" <= doc then
      var i := IndexOfChar(doc, '>');
      if i == |doc| then None else Parse(doc[i + 1..])
    else Parse(doc)
  }

  predicate IsName(s: string) {
    s != "" && s[0] != '/' && s[0] != '?' && s[0] != '!' && '>' !in s
  }

  /** The events can be written as a document: text is plain, not empty and not interrupted. */
  predicate Printable(evs: seq<Event>) {
    if evs == [] then true
    else
      && Printable(evs[1..])
      && match evs[0]
         case Start(name) => IsName(name)
         case End(name) => IsName(name)
         case Text(s) => s != "" && IsPlain(s) && (|evs| > 1 ==> !evs[1].Text?)
  }

  function Print(evs: seq<Event>): string {
    if evs == [] then ""
    else PrintEvent(evs[0]) + Print(evs[1..])
  }

  function Open(name: string): string {
    "<" + name + ">"
  }

  function Close(name: string): string {
    "</" + name + ">"
  }

  function PrintEvent(ev: Event): string {
    match ev
    case Start(name) => Open(name)
    case End(name) => Close(name)
    case Text(s) => s
  }

  lemma {:induction false} ParseOfPrint(evs: seq<Event>)
    requires Printable(evs)
    ensures Parse(Print(evs)) == Some(evs)
  {
    if evs != [] {
      hide Parse;
      ParseOfPrint(evs[1..]);
      ParseEvent(evs[0], Print(evs[1..]), evs[1..]);
      assert evs == [evs[0]] + evs[1..];
    } else {
      assert Parse("") == Some([]);
    }
  }

  lemma {:induction false} ParseEvent(ev: Event, rest: string, evs: seq<Event>)
    requires Printable([ev] + evs) && Print(evs) == rest && Parse(rest) == Some(evs)
    ensures Parse(PrintEvent(ev) + rest) == Some([ev] + evs)
  {
    hide Parse, Print, Printable, IsName, IsPlain;
    PrintableFirst(ev, evs);
    match ev {
      case Start(name) => ParseStart(name, rest);
      case End(name) => ParseEnd(name, rest);
      case Text(s) => ParseText(s, rest, evs);
    }
  }

  lemma {:induction false} PrintableFirst(ev: Event, evs: seq<Event>)
    requires Printable([ev] + evs)
    ensures match ev
            case Start(name) => IsName(name)
            case End(name) => IsName(name)
            case Text(s) => s != "" && IsPlain(s) && (evs != [] ==> !evs[0].Text?)
  {
  }

  lemma {:induction false} ParseStart(name: string, rest: string)
    requires IsName(name) && Parse(rest).Some?
    ensures Parse(Open(name) + rest) == Some([Start(name)] + Parse(rest).value)
  {
    hide Parse;
    ParseTag(Open(name) + rest, name, rest);
  }

  lemma {:induction false} ParseEnd(name: string, rest: string)
    requires IsName(name) && Parse(rest).Some?
    ensures Parse(Close(name) + rest) == Some([End(name)] + Parse(rest).value)
  {
    hide Parse;
    var tag := "/" + name;
    assert Close(name) == "<" + tag + ">" && tag[1..] == name;
    ParseTag(Close(name) + rest, tag, rest);
  }

  lemma {:induction false} ParseTag(doc: string, tag: string, rest: string)
    requires tag != "" && '>' !in tag && tag[0] != '?' && tag[0] != '!' && Parse(rest).Some?
    requires doc == "<" + tag + ">" + rest
    ensures Parse(doc) == Some([if tag[0] == '/' then End(tag[1..]) else Start(tag)] + Parse(rest).value)
  {
    assert doc[0] == '<' && doc[1..|tag| + 1] == tag && doc[|tag| + 1] == '>' && doc[|tag| + 2..] == rest;
    assert doc[1] == tag[0];
    FirstGreater(doc, tag);
  }

  /** A document is its content with the XML declaration `decl` in front. */
  lemma {:induction false} ParseBehindDeclaration(decl: string, rest: string)
    requires decl != "" && decl[0] == '?' && '>' !in decl
    ensures ParseDocument(Open(decl) + rest) == Parse(rest)
  {
    hide Parse;
    var doc := Open(decl) + rest;
    assert doc[0] == '<' && doc[1] == '?' && "<?" <= doc;
    assert doc[1..|decl| + 1] == decl && doc[|decl| + 1] == '>' && doc[|decl| + 2..] == rest;
    FirstGreater(doc, decl);
  }

  // ----- what a document may report

  /** Every text event holds plain text, some of it, and is not followed by another one. */
  predicate IsClean(evs: seq<Event>) {
    if evs == [] then true
    else
      && IsClean(evs[1..])
      && (evs[0].Text? ==> evs[0].text != "" && IsPlain(evs[0].text) && (|evs| > 1 ==> !evs[1].Text?))
  }

  lemma {:induction false} ParsedIsClean(doc: string)
    requires Parse(doc).Some?
    ensures IsClean(Parse(doc).value)
    ensures doc != "" && doc[0] == '<' ==> Parse(doc).value != [] && !Parse(doc).value[0].Text?
    decreases |doc|
  {
    hide IsPlain, Parse, IsClean;
    ParseUnfold(doc);
    if doc == "" {
      CleanCons(Start(""), []);
    } else {
      var i := IndexOfChar(doc, if doc[0] == '<' then '>' else '<');
      var rest := if doc[0] == '<' then doc[i + 1..] else doc[i..];
      ParsedIsClean(rest);
      ParseUnfold(rest);
      CleanCons(Parse(doc).value[0], Parse(rest).value);
    }
  }

  lemma {:induction false} CleanCons(ev: Event, evs: seq<Event>)
    requires evs != [] ==> IsClean(evs)
    requires ev.Text? ==> ev.text != "" && IsPlain(ev.text) && (evs != [] ==> !evs[0].Text?)
    ensures IsClean([ev] + evs) && IsClean([])
  {
    hide IsPlain;
    assert ([ev] + evs)[1..] == evs;
    assert IsClean([]);
  }

  /** The first event of a document is a tag or the text in front of the first tag. */
  lemma {:induction false} ParseUnfold(doc: string)
    requires Parse(doc).Some?
    ensures doc == "" ==> Parse(doc).value == []
    ensures doc != "" && doc[0] == '<' ==>
      var i := IndexOfChar(doc, '>');
      && i < |doc| && Parse(doc[i + 1..]).Some?
      && exists ev: Event :: !ev.Text? && Parse(doc).value == [ev] + Parse(doc[i + 1..]).value
    ensures doc != "" && doc[0] != '<' ==>
      var i := IndexOfChar(doc, '<');
      && i > 0 && IsPlain(doc[..i]) && Parse(doc[i..]).Some?
      && Parse(doc).value == [Text(doc[..i])] + Parse(doc[i..]).value
  {
    hide IsPlain;
  }

  lemma {:induction false} CleanTextIsPlain(evs: seq<Event>, i: nat)
    requires IsClean(evs) && i < |evs| && evs[i].Text?
    ensures IsPlain(evs[i].text)
  {
    if i > 0 {
      CleanTextIsPlain(evs[1..], i - 1);
    }
  }

  lemma {:induction false} FirstGreater(doc: string, tag: string)
    requires '>' !in tag && |doc| > |tag| + 1
    requires doc[0] == '<' && doc[1..|tag| + 1] == tag && doc[|tag| + 1] == '>'
    ensures IndexOfChar(doc, '>') == |tag| + 1
  {
    forall j | 0 <= j < |tag| + 1 ensures doc[j] != '>' {
      assert j > 0 ==> doc[j] == doc[1..|tag| + 1][j - 1];
    }
    IndexOfCharIs(doc, '>', |tag| + 1);
  }

  lemma {:induction false} ParseText(s: string, rest: string, evs: seq<Event>)
    requires s != "" && IsPlain(s) && Parse(rest) == Some(evs)
    requires Print(evs) == rest && (evs != [] ==> !evs[0].Text?)
    ensures Parse(s + rest) == Some([Text(s)] + evs)
  {
    var doc := s + rest;
    assert forall i :: 0 <= i < |s| ==> doc[i] == s[i];
    IndexOfCharIs(doc, '<', |s|);
    assert doc[..|s|] == s && doc[|s|..] == rest;
  }

  lemma {:induction false} PrintNothing()
    ensures Print([]) == ""
  {
  }

  lemma {:induction false} PrintAppend(a: seq<Event>, b: seq<Event>)
    ensures Print(a + b) == Print(a) + Print(b)
  {
    if a == [] {
      assert a + b == b;
    } else {
      assert (a + b)[1..] == a[1..] + b;
      PrintAppend(a[1..], b);
    }
  }

  lemma {:induction false} PrintableAppend(a: seq<Event>, b: seq<Event>)
    requires Printable(a) && Printable(b)
    requires a != [] && b != [] ==> !b[0].Text?
    ensures Printable(a + b)
  {
    if a == [] {
      assert a + b == b;
    } else {
      assert (a + b)[1..] == a[1..] + b;
      PrintableAppend(a[1..], b);
    }
  }

  /** A text element; the parser reports no text event when there is no text. */
  function Element(name: string, text: string): seq<Event> {
    [Start(name)] + (if text == "" then [] else [Text(text)]) + [End(name)]
  }

  lemma {:induction false} DecimalIsPlain(n: int)
    ensures IsPlain(Decimal(n))
  {
    var d := Digits(if n < 0 then -n else n);
    assert forall i :: 0 <= i < |d| ==> IsDigit(d[i]);
    PlainWithoutGreater(Decimal(n));
  }

  lemma {:induction false} NothingPrintable()
    ensures Printable([])
  {
  }

  lemma {:induction false} TagsPrintable(name: string)
    requires IsName(name)
    ensures Printable([Start(name)]) && Printable([End(name)])
  {
    assert [Start(name)][1..] == [] && [End(name)][1..] == [];
  }

  lemma {:induction false} ElementIsPrintable(name: string, text: string)
    requires IsName(name) && IsPlain(text)
    ensures Printable(Element(name, text))
  {
    if text == "" {
      assert Element(name, text) == [Start(name), End(name)];
    } else {
      assert Element(name, text) == [Start(name), Text(text), End(name)];
      assert [Text(text), End(name)][1..] == [End(name)];
      assert Element(name, text)[1..] == [Text(text), End(name)];
      assert Printable([End(name)]);
    }
  }

  lemma {:induction false} AppendEvent(doc: string, evs: seq<Event>, ev: Event)
    requires doc == Print(evs)
    ensures doc + PrintEvent(ev) == Print(evs + [ev])
  {
    PrintAppend(evs, [ev]);
    assert [ev][1..] == [];
    assert Print([ev]) == PrintEvent(ev) + "";
  }

  lemma {:induction false} AppendElement(doc: string, evs: seq<Event>, name: string, text: string)
    requires doc == Print(evs)
    ensures doc + Open(name) + text + Close(name) == Print(evs + Element(name, text))
  {
    hide Print, Open, Close;
    AppendEvent(doc, evs, Start(name));
    if text == "" {
      assert doc + Open(name) + text == doc + Open(name);
      AppendEvent(doc + Open(name), evs + [Start(name)], End(name));
      assert evs + [Start(name)] + [End(name)] == evs + Element(name, text);
    } else {
      AppendEvent(doc + Open(name), evs + [Start(name)], Text(text));
      AppendEvent(doc + Open(name) + text, evs + [Start(name)] + [Text(text)], End(name));
      assert evs + [Start(name)] + [Text(text)] + [End(name)] == evs + Element(name, text);
    }
  }

  /** Text in an element, as it is written. */
  function Tagged(name: string, content: string): string {
    "<" + name + ">" + content + "</" + name + ">"
  }

  lemma {:induction false} PrintTagged(name: string, evs: seq<Event>)
    ensures Print([Start(name)] + evs + [End(name)]) == Tagged(name, Print(evs))
  {
    hide Print;
    PrintTag(Start(name));
    PrintTag(End(name));
    PrintAppend([Start(name)], evs);
    PrintAppend([Start(name)] + evs, [End(name)]);
    assert Open(name) + Print(evs) + Close(name) == Tagged(name, Print(evs));
  }

  lemma {:induction false} PrintTag(ev: Event)
    ensures Print([ev]) == PrintEvent(ev)
  {
    assert [ev][1..] == [] && Print([ev]) == PrintEvent(ev) + "";
  }

  lemma {:induction false} PrintElement(name: string, text: string)
    ensures Print(Element(name, text)) == Tagged(name, text)
  {
    hide Print;
    PrintNothing();
    PrintTag(Text(text));
    PrintTagged(name, if text == "" then [] else [Text(text)]);
  }

  // ----- portions of text

  /** The event in front of others in which no text is empty or followed by text. */
  function InFront(ev: Event, evs: seq<Event>): seq<Event> {
    if !ev.Text? then [ev] + evs
    else if ev.text == "" then evs
    else if evs != [] && evs[0].Text? then [Text(ev.text + evs[0].text)] + evs[1..]
    else [ev] + evs
  }

  /** The events with neighbouring text events joined and empty ones dropped. */
  function Joined(evs: seq<Event>): (r: seq<Event>)
    ensures forall i :: 0 <= i < |r| && r[i].Text? ==> r[i].text != ""
  {
    if evs == [] then [] else InFront(evs[0], Joined(evs[1..]))
  }

  /** The same document, its text reported in other portions. */
  ghost predicate Rechunks(a: seq<Event>, b: seq<Event>) {
    Joined(a) == Joined(b)
  }
}
