/** Accepting an attribute certificate (src/ac/validate.cc:206-670; section 5 of RFC 5755). */
module AcValidation {
  import opened Options
  import opened Strings
  import opened AttributeCertificate

  /** The checks asked for; `rest` stands for the bits of the mask that `validate` does not
      look at one by one. */
  datatype Flags = Flags(date: bool, target: bool, key: bool, sign: bool, id: bool, rest: bool) {
    predicate Any() {
      date || target || key || sign || id || rest
    }
  }

  datatype FqanParts = FqanParts(group: string, role: string, cap: string)

  datatype Contents = Contents(voname: string, uri: string, fqans: seq<string>, std: seq<FqanParts>)

  /** What is handed to the caller; `attributes` goes into a fresh `realdata`. */
  datatype Voms = Voms(user: string, userca: string, server: string, serverca: string, serial: Octets,
                       notBefore: int, notAfter: int, contents: Contents, attributes: seq<AttHolder>)

  // ----- the holder

  function BaseVerdict(b: BaseId, cert: X509): Option<Error> {
    if b.serial != cert.serial then Some(AcErrHolderSerial)
    else if |b.issuer| != 1 || !b.issuer[0].DirName? then Some(AcErrHolder)
    else if b.issuer[0].name != cert.subject && b.issuer[0].name != cert.issuer then Some(AcErrHolder)
    else if b.uid != cert.issuerUID then Some(AcErrUidMismatch)
    else None
  }

  /** The comparison with the entity name looks at a first list only where there are two, and at
      a first name in it only where there are two: otherwise it uses variables it has not set. */
  function EntityVerdict(lists: seq<seq<GeneralName>>, cert: X509): Option<Error> {
    if lists == [] then None
    else if |lists| == 1 || |lists[0]| < 2 || !lists[0][0].DirName? then Some(Undefined)
    else if lists[0][0].name != cert.issuer then Some(AcErrUidMismatch)
    else None
  }

  function HolderVerdict(h: Holder, cert: X509): Option<Error> {
    if h.baseid.Some? then BaseVerdict(h.baseid.value, cert)
    else if h.entity.Some? then EntityVerdict(h.entity.value, cert)
    else None
  }

  // ----- the issuer and the serial number

  /** The name and the CA of the server; without its certificate the name is taken, unseen, from
      the form. */
  function ServerOf(info: Info, issuer: Option<X509>): Result<(string, string)> {
    var names := info.form.names;
    if issuer.Some? then Ok((issuer.value.subject, issuer.value.issuer))
    else if names == [] || !names[0].DirName? then Err(Undefined)
    else Ok((names[0].name, "Unable to determine CA"))
  }

  function IssuerVerdict(info: Info, issuer: Option<X509>, f: Flags): Option<Error> {
    var names := info.form.names;
    if |names| != 1 || !names[0].DirName? then Some(AcErrIssuerName)
    else if f.id && issuer.None? then Some(Undefined)
    else if f.id && names[0].name != issuer.value.subject then Some(AcErrIssuerName)
    else if |info.serial| > 20 then Some(AcErrSerial)
    else None
  }

  // ----- the dates, with five minutes of tolerance

  const TOLERANCE := 300

  function DatesVerdict(info: Info, vertime: int, now: int): Option<Error> {
    var t := if vertime == 0 then now else vertime;
    if info.notBefore > t + TOLERANCE then Some(AcErrDates)
    else if info.notAfter <= t - TOLERANCE then Some(AcErrDates2)
    else None
  }

  // ----- the extensions

  /** The position of the first of the object identifiers that is the one sought, or their number. */
  function FirstOid(oids: seq<Oid>, oid: Oid): (i: nat)
    ensures i <= |oids| && forall j :: 0 <= j < i ==> oids[j] != oid
    ensures i < |oids| ==> oids[i] == oid
  {
    if oids == [] || oids[0] == oid then 0 else 1 + FirstOid(oids[1..], oid)
  }

  function FirstExtension(exts: seq<Extension>, oid: Oid): (i: nat)
    ensures i <= |exts| && forall j :: 0 <= j < i ==> exts[j].oid != oid
    ensures i < |exts| ==> exts[i].oid == oid
  {
    var oids := seq(|exts|, i requires 0 <= i < |exts| => exts[i].oid);
    assert forall j :: 0 <= j < |exts| ==> oids[j] == exts[j].oid;
    FirstOid(oids, oid)
  }

  lemma {:induction false} FirstExtensionIs(exts: seq<Extension>, oid: Oid, i: nat)
    requires i < |exts| && exts[i].oid == oid && forall j :: 0 <= j < i ==> exts[j].oid != oid
    ensures FirstExtension(exts, oid) == i
  {
    var k := FirstExtension(exts, oid);
    assert !(k < i) && !(i < k);
  }

  function TargetVerdict(e: Extension, host: string): Option<Error> {
    if !e.value.TargetNames? then Some(AcErrExtTarget)
    else if Uri(host) !in e.value.targets then Some(AcErrTargetNoMatch)
    else None
  }

  /** What is wrong with one critical extension. Only the first list of targets may be critical. */
  function CriticalVerdict(exts: seq<Extension>, i: nat, host: string, f: Flags): Option<Error>
    requires i < |exts|
  {
    if i != FirstExtension(exts, Targets) then Some(AcErrExtCrit)
    else if f.target then TargetVerdict(exts[i], host)
    else None
  }

  /** The first complaint about a critical extension from position i on. */
  function CriticalsVerdict(exts: seq<Extension>, i: nat, host: string, f: Flags): Option<Error>
    requires i <= |exts|
    decreases |exts| - i
  {
    if i == |exts| then None
    else if exts[i].critical && CriticalVerdict(exts, i, host, f).Some? then CriticalVerdict(exts, i, host, f)
    else CriticalsVerdict(exts, i + 1, host, f)
  }

  /** Nothing is wrong with the critical extensions just when nothing is wrong with any of them. */
  lemma {:induction false} CriticalsPassIff(exts: seq<Extension>, i: nat, host: string, f: Flags)
    requires i <= |exts|
    ensures CriticalsVerdict(exts, i, host, f).None?
            <==> forall k :: i <= k < |exts| && exts[k].critical ==> CriticalVerdict(exts, k, host, f).None?
    decreases |exts| - i
  {
    hide CriticalVerdict;
    if i < |exts| {
      CriticalsPassIff(exts, i + 1, host, f);
    }
  }

  function KeyVerdict(c: Crypto, e: Extension, issuer: Option<X509>, f: Flags): Option<Error> {
    if !e.value.KeyId? then Some(AcErrExtKey)
    else if issuer.None? then if f.id then None else Some(AcErrExtKey)
    else if e.value.keyid != c.sha1(issuer.value.publicKey) && |e.value.keyid| == 20 then Some(AcErrExtKey)
    else None
  }

  function ExtensionsVerdict(c: Crypto, exts: seq<Extension>, issuer: Option<X509>, host: string,
                             f: Flags): Option<Error> {
    if FirstExtension(exts, NoRevAvail) == |exts| || FirstExtension(exts, AuthorityKeyId) == |exts|
    then Some(AcErrExtsAbsent)
    else if CriticalsVerdict(exts, 0, host, f).Some? then CriticalsVerdict(exts, 0, host, f)
    else if f.key then KeyVerdict(c, exts[FirstExtension(exts, AuthorityKeyId)], issuer, f)
    else None
  }

  /** The generic attributes the certificate carries. */
  function Provided(exts: seq<Extension>): seq<AttHolder> {
    var i := FirstExtension(exts, Attributes);
    if i < |exts| && exts[i].value.FullAttributes? then exts[i].value.providers else []
  }

  // ----- the attributes

  function OidsOf(atts: seq<Attr>): (oids: seq<Oid>)
    ensures |oids| == |atts| && forall j :: 0 <= j < |atts| ==> oids[j] == atts[j].oid
  {
    seq(|atts|, i requires 0 <= i < |atts| => atts[i].oid)
  }

  /** The parts of an FQAN. Where "/Capability=" comes before "/Role=" the length of the role
      wraps around, and the role is all that follows "/Role=". */
  function SplitFqan(s: string): FqanParts {
    var roleStart, capStart := Find(s, "/Role="), Find(s, "/Capability=");
    FqanParts(
      if roleStart.Some? then s[..roleStart.value] else if capStart.Some? then s[..capStart.value] else s,
      if roleStart.None? then ""
      else if capStart.Some? && roleStart.value + 6 <= capStart.value then s[roleStart.value + 6..capStart.value]
      else s[roleStart.value + 6..],
      if capStart.None? then "" else s[capStart.value + 12..])
  }

  predicate AllOctetStrings(values: seq<IetfValue>) {
    forall i :: 0 <= i < |values| ==> values[i].isOctetString
  }

  function FqansOf(values: seq<IetfValue>): seq<string> {
    seq(|values|, i requires 0 <= i < |values| => values[i].data)
  }

  function PartsOf(values: seq<IetfValue>): seq<FqanParts> {
    seq(|values|, i requires 0 <= i < |values| => SplitFqan(values[i].data))
  }

  function CapabilityContents(a: IetfAttr): Result<Contents> {
    if |a.names| != 1 || !a.names[0].Uri? then Err(AcErrAttribUri)
    else
      var authority := a.names[0].uri;
      var point := Find(authority, "://");
      if point.None? then Err(AcErrAttribUri)
      else if !AllOctetStrings(a.values) then Err(AcErrAttribFqan)
      else Ok(Contents(authority[..point.value], authority[point.value + 3..], FqansOf(a.values), PartsOf(a.values)))
  }

  function AttributesVerdict(atts: seq<Attr>): Result<Contents> {
    var pos := FirstOid(OidsOf(atts), IdAtCap);
    if pos == |atts| then Err(AcErrAttribs)
    else if |atts[pos].ietfattr| != 1 then Err(AcErrAttribUri)
    else CapabilityContents(atts[pos].ietfattr[0])
  }

  // ----- the whole certificate

  /** The checks of the signed part. They are made once it is known that there is a certificate
      of the holder where one is needed. */
  function InfoVerdict(c: Crypto, info: Info, cert: Option<X509>, issuer: Option<X509>, f: Flags,
                       vertime: int, now: int, host: string): Option<Error>
    requires f.id ==> cert.Some?
  {
    if f.id && HolderVerdict(info.holder, cert.value).Some? then HolderVerdict(info.holder, cert.value)
    else if f.Any() && IssuerVerdict(info, issuer, f).Some? then IssuerVerdict(info, issuer, f)
    else if f.date && DatesVerdict(info, vertime, now).Some? then DatesVerdict(info, vertime, now)
    else if f.Any() && info.attrib == [] then Some(AcErrAttribs)
    else ExtensionsVerdict(c, info.exts, issuer, host, f)
  }

  function SignatureVerdict(c: Crypto, ac: AC, issuer: Option<X509>, f: Flags): Option<Error> {
    if f.Any() && (ac.info.holder.hasDigest || ac.info.form.hasIs || ac.info.form.hasDigest) then Some(AcErrSet)
    else if f.sign && issuer.None? then Some(AcErrUnset)
    else if f.sign && !c.verify(ac.info, ac.signature, issuer.value.publicKey) then Some(AcErrSignature)
    else None
  }

  /** What becomes of a certificate; the holder's and the issuer's certificates may be missing. */
  function Verdict(c: Crypto, ac: AC, cert: Option<X509>, issuer: Option<X509>, f: Flags,
                   vertime: int, now: int, host: string): Result<Voms>
  {
    if SignatureVerdict(c, ac, issuer, f).Some? then Err(SignatureVerdict(c, ac, issuer, f).value)
    else if f.id && cert.None? then Err(AcErrHolder)
    else
      var server := ServerOf(ac.info, issuer);
      var wrong := InfoVerdict(c, ac.info, cert, issuer, f, vertime, now, host);
      var contents := AttributesVerdict(ac.info.attrib);
      if server.Err? then Err(server.error)
      else if wrong.Some? then Err(wrong.value)
      else if contents.Err? then Err(contents.error)
      else Ok(Voms(if cert.Some? then cert.value.subject else "", if cert.Some? then cert.value.issuer else "",
                   server.value.0, server.value.1, ac.info.serial, ac.info.notBefore, ac.info.notAfter,
                   contents.value, Provided(ac.info.exts)))
  }

  // ----- the code

  method CheckAttributes(atts: seq<Attr>) returns (r: Result<Contents>)
    ensures r == AttributesVerdict(atts)
  {
    hide SplitFqan;
    var pos := FirstOid(OidsOf(atts), IdAtCap);
    if pos == |atts| {
      return Err(AcErrAttribs);
    }
    if |atts[pos].ietfattr| != 1 {
      return Err(AcErrAttribUri);
    }
    var a := atts[pos].ietfattr[0];
    if |a.names| != 1 || !a.names[0].Uri? {
      return Err(AcErrAttribUri);
    }
    var voname := a.names[0].uri;
    var point := Find(voname, "://");
    if point.None? {
      return Err(AcErrAttribUri);
    }
    var uri := voname[point.value + 3..];
    voname := voname[..point.value];
    var fqans: seq<string>, std: seq<FqanParts> := [], [];
    for i := 0 to |a.values|
      invariant forall k :: 0 <= k < i ==> a.values[k].isOctetString
      invariant fqans == FqansOf(a.values)[..i] && std == PartsOf(a.values)[..i]
    {
      if !a.values[i].isOctetString {
        return Err(AcErrAttribFqan);
      }
      fqans := fqans + [a.values[i].data];
      std := std + [SplitFqan(a.values[i].data)];
    }
    assert fqans == FqansOf(a.values) && std == PartsOf(a.values);
    r := Ok(Contents(voname, uri, fqans, std));
  }

  method MatchTarget(e: Extension, host: string) returns (r: Option<Error>)
    ensures r == TargetVerdict(e, host)
  {
    if !e.value.TargetNames? {
      return Some(AcErrExtTarget);
    }
    for i := 0 to |e.value.targets|
      invariant Uri(host) !in e.value.targets[..i]
    {
      var name := e.value.targets[i];
      if name.Uri? && name.uri == host {
        return None;
      }
    }
    r := Some(AcErrTargetNoMatch);
  }

  method CheckExtensions(c: Crypto, exts: seq<Extension>, issuer: Option<X509>, host: string, f: Flags)
    returns (r: Option<Error>, attributes: seq<AttHolder>)
    ensures r == ExtensionsVerdict(c, exts, issuer, host, f)
    ensures r.None? ==> attributes == Provided(exts)
  {
    hide TargetVerdict;
    attributes := [];
    var pos1, pos2 := FirstExtension(exts, NoRevAvail), FirstExtension(exts, AuthorityKeyId);
    var pos4, pos5 := FirstExtension(exts, Targets), FirstExtension(exts, Attributes);
    if pos1 == |exts| || pos2 == |exts| {
      return Some(AcErrExtsAbsent), attributes;
    }
    var pos3 := NextCritical(exts, 0, host, f);
    while pos3 < |exts|
      invariant pos3 <= |exts| && (pos3 < |exts| ==> exts[pos3].critical)
      invariant CriticalsVerdict(exts, 0, host, f) == CriticalsVerdict(exts, pos3, host, f)
      decreases |exts| - pos3
    {
      if pos3 != pos4 {
        return Some(AcErrExtCrit), attributes;
      }
      if f.target {
        var bad := MatchTarget(exts[pos3], host);
        if bad.Some? {
          return bad, attributes;
        }
      }
      pos3 := NextCritical(exts, pos3 + 1, host, f);
    }
    if pos5 < |exts| && exts[pos5].value.FullAttributes? {
      attributes := InterpretAttributes(exts[pos5].value.providers);
    }
    if f.key {
      if !exts[pos2].value.KeyId? {
        return Some(AcErrExtKey), attributes;
      }
      if issuer.Some? {
        var hashed := c.sha1(issuer.value.publicKey);
        if exts[pos2].value.keyid != hashed && |exts[pos2].value.keyid| == 20 {
          return Some(AcErrExtKey), attributes;
        }
      } else if !f.id {
        return Some(AcErrExtKey), attributes;
      }
    }
    r := None;
  }

  /** The next critical extension from position i on; skipping the others changes no verdict. */
  method NextCritical(exts: seq<Extension>, i: nat, ghost host: string, ghost f: Flags) returns (k: nat)
    requires i <= |exts|
    ensures i <= k <= |exts| && (k < |exts| ==> exts[k].critical)
    ensures CriticalsVerdict(exts, i, host, f) == CriticalsVerdict(exts, k, host, f)
  {
    hide CriticalVerdict;
    k := i;
    while k < |exts| && !exts[k].critical
      invariant i <= k <= |exts| && CriticalsVerdict(exts, i, host, f) == CriticalsVerdict(exts, k, host, f)
    {
      k := k + 1;
    }
  }

  method InterpretAttributes(providers: seq<AttHolder>) returns (lists: seq<AttHolder>)
    ensures lists == providers
  {
    lists := [];
    for i := 0 to |providers|
      invariant lists == providers[..i]
    {
      var al: seq<Attribute> := [];
      var atts := providers[i].attributes;
      for j := 0 to |atts|
        invariant al == atts[..j]
      {
        al := al + [Attribute(atts[j].name, atts[j].qualifier, atts[j].value)];
      }
      assert al == atts;
      lists := lists + [AttHolder(providers[i].grantor, al)];
    }
  }

  method CheckHolder(h: Holder, cert: X509) returns (r: Option<Error>)
    ensures r == HolderVerdict(h, cert)
  {
    if h.baseid.Some? {
      var b := h.baseid.value;
      if b.serial != cert.serial {
        return Some(AcErrHolderSerial);
      }
      if |b.issuer| != 1 || !b.issuer[0].DirName?
         || (b.issuer[0].name != cert.subject && b.issuer[0].name != cert.issuer) {
        return Some(AcErrHolder);
      }
      if b.uid != cert.issuerUID {
        return Some(AcErrUidMismatch);
      }
    } else if h.entity.Some? {
      var gnames: seq<seq<GeneralName>> := h.entity.value;
      if |gnames| == 1 {
        return Some(Undefined);
      }
      if |gnames| > 0 {
        if |gnames[0]| < 2 || !gnames[0][0].DirName? {
          return Some(Undefined);
        }
        if gnames[0][0].name != cert.issuer {
          return Some(AcErrUidMismatch);
        }
      }
    }
    r := None;
  }

  method CheckIssuer(info: Info, issuer: Option<X509>, f: Flags) returns (r: Option<Error>)
    ensures r == IssuerVerdict(info, issuer, f)
  {
    var names := info.form.names;
    if |names| != 1 || !names[0].DirName? {
      return Some(AcErrIssuerName);
    }
    if f.id {
      if issuer.None? {
        return Some(Undefined);
      }
      if names[0].name != issuer.value.subject {
        return Some(AcErrIssuerName);
      }
    }
    if |info.serial| > 20 {
      return Some(AcErrSerial);
    }
    r := None;
  }

  method CheckDates(info: Info, vertime: int, now: int) returns (r: Option<Error>)
    ensures r == DatesVerdict(info, vertime, now)
  {
    var verificationTime := if vertime == 0 then now else vertime;
    var ctime := verificationTime + TOLERANCE;
    var dtime := ctime - 2 * TOLERANCE;
    if info.notBefore > verificationTime && info.notBefore > ctime {
      return Some(AcErrDates);
    }
    if info.notAfter <= dtime && info.notAfter <= dtime {
      return Some(AcErrDates2);
    }
    r := None;
  }

  /** `validate`. */
  method Validate(c: Crypto, cert: Option<X509>, issuer: Option<X509>, ac: AC, f: Flags,
                  vertime: int, now: int, host: string) returns (r: Result<Voms>)
    ensures r == Verdict(c, ac, cert, issuer, f, vertime, now, host)
  {
    hide AttributesVerdict, ExtensionsVerdict, Provided, HolderVerdict, IssuerVerdict, DatesVerdict;
    var info := ac.info;
    if f.Any() && (info.holder.hasDigest || info.form.hasIs || info.form.hasDigest) {
      return Err(AcErrSet);
    }
    if f.sign {
      if issuer.None? {
        return Err(AcErrUnset);
      }
      if !c.verify(info, ac.signature, issuer.value.publicKey) {
        return Err(AcErrSignature);
      }
    }
    var user, userca := "", "";
    if cert.Some? {
      user, userca := cert.value.subject, cert.value.issuer;
    } else if f.id {
      return Err(AcErrHolder);
    }
    var names := info.form.names;
    var server, serverca;
    if issuer.Some? {
      server, serverca := issuer.value.subject, issuer.value.issuer;
    } else {
      if |names| == 0 || !names[0].DirName? {
        return Err(Undefined);
      }
      server, serverca := names[0].name, "Unable to determine CA";
    }
    if f.id {
      var bad := CheckHolder(info.holder, cert.value);
      if bad.Some? {
        return Err(bad.value);
      }
    }
    if f.Any() {
      var bad := CheckIssuer(info, issuer, f);
      if bad.Some? {
        return Err(bad.value);
      }
    }
    if f.date {
      var bad := CheckDates(info, vertime, now);
      if bad.Some? {
        return Err(bad.value);
      }
    }
    if f.Any() && info.attrib == [] {
      return Err(AcErrAttribs);
    }
    var bad, attributes := CheckExtensions(c, info.exts, issuer, host, f);
    if bad.Some? {
      return Err(bad.value);
    }
    var contents := CheckAttributes(info.attrib);
    if contents.Err? {
      return Err(contents.error);
    }
    r := Ok(Voms(user, userca, server, serverca, info.serial, info.notBefore, info.notAfter, contents.value,
        attributes));
  }
}
