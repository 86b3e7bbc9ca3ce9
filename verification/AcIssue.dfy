/** Issuing an attribute certificate (src/ac/write.c:58-347, src/ac/extensions.c:405-452, 512-535). */
module AcIssue {
  import opened Options
  import opened Sequences
  import opened Strings
  import opened AttributeCertificate
  import GenericAttributes

  /** The arguments of `writeac` that shape the certificate. `targets` is the comma-separated
      list, absent when no targets were asked for. */
  datatype Request = Request(fqans: seq<string>, targets: Option<string>, lines: seq<string>, vo: string, uri: string,
                             serial: Octets, valid: int, oldFormat: bool, startpast: int)

  /** What the server signs with: its certificate, the rest of its chain if it has one, its key. */
  datatype Signer = Signer(cert: X509, chain: Option<seq<X509>>, key: Octets)

  function PolicyAuthority(vo: string, uri: string): string {
    vo + "://" + uri
  }

  function ToAttribute(p: GenericAttributes.Parts): Attribute {
    Attribute(p.name, p.qualifier, p.value)
  }

  predicate Splittable(lines: seq<string>) {
    forall i :: 0 <= i < |lines| ==> Find(lines[i], "::").Some?
  }

  predicate AllSplit(lines: seq<string>, vo: string)
    requires Splittable(lines)
  {
    forall i :: 0 <= i < |lines| ==> GenericAttributes.SplitLine(lines[i], vo).Some?
  }

  /** The generic attributes of the lines. */
  function AttributesOf(lines: seq<string>, vo: string): seq<Attribute>
    requires Splittable(lines) && AllSplit(lines, vo)
  {
    seq(|lines|, i requires 0 <= i < |lines| => ToAttribute(GenericAttributes.SplitLine(lines[i], vo).value))
  }

  function TargetExtension(targets: Option<string>): seq<Extension> {
    if targets.None? then []
    else [Extension(Targets, true, TargetNames(UriNames(Split(targets.value, ','))))]
  }

  function UriNames(xs: seq<string>): (r: seq<GeneralName>)
    ensures |r| == |xs|
  {
    seq(|xs|, i requires 0 <= i < |xs| => Uri(xs[i]))
  }

  function Values(fqans: seq<string>): (r: seq<IetfValue>)
    ensures |r| == |fqans|
  {
    seq(|fqans|, i requires 0 <= i < |fqans| => IetfValue(true, fqans[i]))
  }

  function AttributesExtension(lines: seq<string>, vo: string, uri: string): seq<Extension>
    requires Splittable(lines) && AllSplit(lines, vo)
  {
    if lines == [] then []
    else [Extension(Attributes, false, FullAttributes([AttHolder(PolicyAuthority(vo, uri), AttributesOf(lines, vo))]))]
  }

  function CertificatesOf(issuer: Signer): seq<X509> {
    (if issuer.chain.Some? then issuer.chain.value else []) + [issuer.cert]
  }

  /** The counter the copying of the caller's own extensions goes by: it is left over from
      an earlier loop. */
  function StaleIndex(issuer: Signer, q: Request): nat {
    if issuer.chain.Some? then |issuer.chain.value| else |q.lines|
  }

  /** The copies of the caller's own extensions: the same one every time, or a failure. */
  function Copies(extra: seq<Extension>, index: nat): Option<seq<Extension>> {
    if extra == [] then Some([])
    else if index < |extra| then Some(seq(|extra|, i => extra[index]))
    else None
  }

  /** The unsigned certificate. */
  function InfoOf(c: Crypto, issuer: Signer, holder: X509, q: Request, extra: seq<Extension>, now: int): Info
    requires Splittable(q.lines) && AllSplit(q.lines, q.vo)
  {
    Info(1,
         Holder(Some(BaseId([DirName(if q.oldFormat then holder.subject else holder.issuer)], holder.serial, None)),
                None, false),
         Form([DirName(issuer.cert.subject)], false, false),
         q.serial,
         now - q.startpast,
         now + q.valid - q.startpast,
         [Attr(IdAtCap, [IetfAttr([Uri(PolicyAuthority(q.vo, q.uri))], Values(q.fqans))])],
         issuer.cert.issuerUID,
         AttributesExtension(q.lines, q.vo, q.uri)
         + [Extension(CertSeq, false, Certificates(CertificatesOf(issuer))),
            Extension(NoRevAvail, false, NullValue),
            Extension(AuthorityKeyId, false, KeyId(c.sha1(issuer.cert.publicKey)))]
         + TargetExtension(q.targets) + extra)
  }

  function Issued(c: Crypto, issuer: Signer, holder: X509, q: Request, extra: seq<Extension>, now: int): Result<AC>
    requires Splittable(q.lines)
  {
    if !AllSplit(q.lines, q.vo) then Err(AcErrParameters)
    else
      var copies := Copies(extra, StaleIndex(issuer, q));
      if copies.None? then Err(AcErrUnknown)
      else
        var info := InfoOf(c, issuer, holder, q, copies.value, now);
        Ok(AC(info, c.sign(info, issuer.key)))
  }

  /** The caller's own extensions stand at the end of the certificate as they were given, if and
      only if there are none, or the counter left over from the chain, or else from the attribute
      lines, is within them and all are like the one it points at. */
  lemma {:induction false} ExtraExtensionsArriveIff(c: Crypto, issuer: Signer, holder: X509, q: Request,
                                                    extra: seq<Extension>, now: int)
    requires Splittable(q.lines) && AllSplit(q.lines, q.vo)
    ensures var r := Issued(c, issuer, holder, q, extra, now);
            var n := if issuer.chain.Some? then |issuer.chain.value| else |q.lines|;
            r.Ok? && |r.value.info.exts| >= |extra| && r.value.info.exts[|r.value.info.exts| - |extra|..] == extra
            <==> extra == [] || (n < |extra| && forall i :: 0 <= i < |extra| ==> extra[i] == extra[n])
  {
    hide AttributesOf, AttributesExtension, TargetExtension, Splittable, AllSplit;
    var r := Issued(c, issuer, holder, q, extra, now);
    if r.Ok? {
      var copies := Copies(extra, StaleIndex(issuer, q)).value;
      var exts := r.value.info.exts;
      assert |copies| == |extra| && exts[|exts| - |extra|..] == copies;
      assert copies == extra <==> forall i :: 0 <= i < |extra| ==> copies[i] == extra[i];
    }
  }

  /** Two different extensions do not both arrive, whatever else is asked for. */
  lemma {:induction false} TwoExtensionsDoNotArrive(c: Crypto, issuer: Signer, holder: X509, q: Request,
                                                    a: Extension, b: Extension, now: int)
    requires Splittable(q.lines) && AllSplit(q.lines, q.vo) && a != b
    ensures var r := Issued(c, issuer, holder, q, [a, b], now);
            r.Err? || r.value.info.exts[|r.value.info.exts| - 2..] != [a, b]
  {
    hide InfoOf;
    ExtraExtensionsArriveIff(c, issuer, holder, q, [a, b], now);
    assert [a, b][0] == a && [a, b][1] == b;
    AtLeast(c, issuer, holder, q, [a, b], now);
  }

  lemma {:induction false} AtLeast(c: Crypto, issuer: Signer, holder: X509, q: Request, extra: seq<Extension>, now: int)
    requires Splittable(q.lines) && AllSplit(q.lines, q.vo)
    ensures var r := Issued(c, issuer, holder, q, extra, now);
            r.Ok? ==> |r.value.info.exts| >= |extra|
  {
  }

  /** `writeac`. It fails on a generic attribute without '=', and on extensions of the caller's
      when it counts past their end. */
  method WriteAc(c: Crypto, issuer: Signer, holder: X509, q: Request, extra: seq<Extension>, now: int)
    returns (r: Result<AC>)
    requires Splittable(q.lines)
    ensures r == Issued(c, issuer, holder, q, extra, now)
  {
    hide GenericAttributes.SplitLine;
    var values: seq<IetfValue> := [];
    var i := 0;
    while i < |q.fqans|
      invariant i <= |q.fqans| && values == Values(q.fqans)[..i]
    {
      values := values + [IetfValue(true, q.fqans[i])];
      i := i + 1;
    }
    assert values == Values(q.fqans);
    var capabilities := Attr(IdAtCap, [IetfAttr([Uri(PolicyAuthority(q.vo, q.uri))], values)]);
    var split := SplitLines(q.lines, q.vo);
    if split.Err? {
      return Err(split.error);
    }
    i := |q.lines|;
    var exts: seq<Extension> := [];
    if i > 0 {
      var provider := AttHolder(PolicyAuthority(q.vo, q.uri), split.value);
      exts := exts + [Extension(Attributes, false, FullAttributes([provider]))];
    }
    var certs: seq<X509> := [];
    if issuer.chain.Some? {
      i := 0;
      while i < |issuer.chain.value|
        invariant i <= |issuer.chain.value| && certs == issuer.chain.value[..i]
      {
        certs := certs + [issuer.chain.value[i]];
        i := i + 1;
      }
    }
    certs := certs + [issuer.cert];
    assert certs == CertificatesOf(issuer);
    exts := exts + [Extension(CertSeq, false, Certificates(certs)),
                    Extension(NoRevAvail, false, NullValue),
                    Extension(AuthorityKeyId, false, KeyId(c.sha1(issuer.cert.publicKey)))];
    if q.targets.Some? {
      var names := SplitTargets(q.targets.value);
      exts := exts + [Extension(Targets, true, TargetNames(names))];
    }
    assert i == StaleIndex(issuer, q);
    var copies := CopyExtensions(extra, i);
    if copies.None? {
      return Err(AcErrUnknown);
    }
    exts := exts + copies.value;
    assert exts == InfoOf(c, issuer, holder, q, copies.value, now).exts;
    var name2 := if q.oldFormat then holder.subject else holder.issuer;
    var info := Info(1, Holder(Some(BaseId([DirName(name2)], holder.serial, None)), None, false),
                     Form([DirName(issuer.cert.subject)], false, false), q.serial,
                     now - q.startpast, now + q.valid - q.startpast, [capabilities], issuer.cert.issuerUID, exts);
    assert info == InfoOf(c, issuer, holder, q, copies.value, now);
    r := Ok(AC(info, c.sign(info, issuer.key)));
  }

  method CopyExtensions(extra: seq<Extension>, i: nat) returns (r: Option<seq<Extension>>)
    ensures r == Copies(extra, i)
  {
    var copies: seq<Extension> := [];
    for proxyindex := 0 to |extra|
      invariant |copies| == proxyindex && (copies == [] || i < |extra|)
      invariant forall k :: 0 <= k < |copies| ==> copies[k] == extra[i]
    {
      if i >= |extra| {
        return None;
      }
      copies := copies + [extra[i]];
    }
    assert i < |extra| ==> copies == seq(|extra|, k => extra[i]);
    r := Some(copies);
  }

  method SplitLines(lines: seq<string>, vo: string) returns (r: Result<seq<Attribute>>)
    requires Splittable(lines)
    ensures r == if AllSplit(lines, vo) then Ok(AttributesOf(lines, vo)) else Err(AcErrParameters)
  {
    hide GenericAttributes.SplitLine;
    var attributes: seq<Attribute> := [];
    for i := 0 to |lines|
      invariant |attributes| == i
      invariant forall j :: 0 <= j < i ==>
        var parts := GenericAttributes.SplitLine(lines[j], vo);
        parts.Some? && attributes[j] == ToAttribute(parts.value)
    {
      var parts := GenericAttributes.SplitLine(lines[i], vo);
      if parts.None? {
        return Err(AcErrParameters);
      }
      attributes := attributes + [ToAttribute(parts.value)];
    }
    assert attributes == AttributesOf(lines, vo);
    r := Ok(attributes);
  }

  /** `targets_s2i`: cuts the list at its commas. */
  method SplitTargets(data: string) returns (names: seq<GeneralName>)
    ensures names == UriNames(Split(data, ','))
  {
    hide Split, UriNames;
    names := [];
    var list, more := data, true;
    ghost var target := UriNames(Split(data, ','));
    assert [] + target == target;
    while more
      invariant target == if more then names + UriNames(Split(list, ',')) else names
      decreases more, |list|
    {
      var pos := IndexOfChar(list, ',');
      SplitUnfold(list, ',');
      var name := Uri(list[..pos]);
      if pos < |list| {
        UriNamesCons(list[..pos], Split(list[pos + 1..], ','));
        OneFurther(names, name, UriNames(Split(list[pos + 1..], ',')));
        names := names + [name];
        list := list[pos + 1..];
      } else {
        assert list[..pos] == list;
        UriNamesCons(list, []);
        names := names + [name];
        more := false;
      }
    }
  }

  lemma {:induction false} UriNamesCons(x: string, xs: seq<string>)
    ensures UriNames([x] + xs) == [Uri(x)] + UriNames(xs)
    ensures xs == [] ==> UriNames([x]) == [Uri(x)]
  {
    assert xs == [] ==> [x] + xs == [x];
  }

  // ----- what the server puts in

  /** The lines of the server's generic attributes. */
  function LinesOf(attribs: seq<GenericAttributes.GAttrib>): (lines: seq<string>)
    ensures |lines| == |attribs|
  {
    seq(|attribs|, i requires 0 <= i < |attribs| => GenericAttributes.Str(attribs[i]))
  }

  /** The targets as `createac` hands them on. */
  method Complete(targets: seq<string>) returns (complete: Option<string>)
    ensures complete == if Join(targets, ',') == "" then None else Some(Join(targets, ','))
  {
    hide Join;
    var text := "";
    assert Join([], ',') == "" by { JoinOfNone(); }
    for i := 0 to |targets|
      invariant text == Join(targets[..i], ',')
    {
      JoinSnoc(targets[..i], targets[i], ',');
      assert targets[..i + 1] == targets[..i] + [targets[i]];
      text := if i == 0 then targets[i] else text + ("," + targets[i]);
    }
    assert targets[..|targets|] == targets;
    complete := if text == "" then None else Some(text);
  }

  lemma {:induction false} JoinOfNone()
    ensures Join([], ',') == ""
  {
  }

  /** The server's own lines always split, and the attributes come back just when each line
      splits where it was joined. */
  lemma {:induction false} ServerLinesSplitIff(attribs: seq<GenericAttributes.GAttrib>, vo: string)
    ensures Splittable(LinesOf(attribs)) && AllSplit(LinesOf(attribs), vo)
    ensures |AttributesOf(LinesOf(attribs), vo)| == |attribs|
    ensures forall i :: 0 <= i < |attribs| ==>
      (AttributesOf(LinesOf(attribs), vo)[i] == WithDefault(attribs[i], vo)
       <==> Find(attribs[i].qualifier + ":", "::").None? && '=' !in attribs[i].name)
  {
    hide GenericAttributes.SplitLine, GenericAttributes.Str, Find;
    forall i | 0 <= i < |attribs|
      ensures Find(LinesOf(attribs)[i], "::").Some? && GenericAttributes.SplitLine(LinesOf(attribs)[i], vo).Some?
    {
      GenericAttributes.FirstColons(attribs[i]);
      GenericAttributes.SplitLineWorks(attribs[i], vo);
    }
    forall i | 0 <= i < |attribs|
      ensures AttributesOf(LinesOf(attribs), vo)[i] == WithDefault(attribs[i], vo)
              <==> Find(attribs[i].qualifier + ":", "::").None? && '=' !in attribs[i].name
    {
      GenericAttributes.SplitLineRecoversIff(attribs[i], vo);
      assert GenericAttributes.SplitLine(LinesOf(attribs)[i], vo).Some?;
    }
  }

  /** The attribute with the VO for a missing qualifier. */
  function WithDefault(g: GenericAttributes.GAttrib, vo: string): Attribute {
    Attribute(g.name, if g.qualifier == "" then vo else g.qualifier, g.value)
  }
}
