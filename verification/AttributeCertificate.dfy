/**
 Attribute certificates as values (src/include/newformat.h; sections 4.2 and 4.3 of RFC 5755).
 Signing, verifying and hashing are given from outside, by what they guarantee.
 */
module AttributeCertificate {
  import opened Options

  type Octets = seq<bv8>

  /** The error codes; and Undefined, which is none: the code then follows a pointer that is null
      or was never set. */
  datatype Error =
    | Undefined
    | AcErrUnset | AcErrSet | AcErrSignature | AcErrHolderSerial | AcErrHolder | AcErrUidMismatch
    | AcErrIssuerName | AcErrSerial | AcErrDates | AcErrDates2 | AcErrAttribs
    | AcErrAttribUri | AcErrAttribFqan | AcErrExtsAbsent | AcErrExtCrit
    | AcErrExtTarget | AcErrTargetNoMatch | AcErrExtKey | AcErrParameters | AcErrUnknown

  datatype Result<+T> = Ok(value: T) | Err(error: Error)

  /** What the code looks at in an X.509 certificate. */
  datatype X509 = X509(subject: string, issuer: string, serial: Octets, publicKey: Octets, issuerUID: Option<Octets>)

  datatype GeneralName = DirName(name: string) | Uri(uri: string) | OtherName

  /** The holder's certificate by its issuer and serial number. */
  datatype BaseId = BaseId(issuer: seq<GeneralName>, serial: Octets, uid: Option<Octets>)

  /** `entity` is the holder's `name`, a list of lists of names. */
  datatype Holder = Holder(baseid: Option<BaseId>, entity: Option<seq<seq<GeneralName>>>, hasDigest: bool)

  datatype Form = Form(names: seq<GeneralName>, hasIs: bool, hasDigest: bool)

  datatype IetfValue = IetfValue(isOctetString: bool, data: string)

  datatype IetfAttr = IetfAttr(names: seq<GeneralName>, values: seq<IetfValue>)

  datatype Oid = IdAtCap | NoRevAvail | AuthorityKeyId | Targets | Attributes | CertSeq | OtherOid(id: string)

  datatype Attr = Attr(oid: Oid, ietfattr: seq<IetfAttr>)

  datatype Attribute = Attribute(name: string, qualifier: string, value: string)

  datatype AttHolder = AttHolder(grantor: string, attributes: seq<Attribute>)

  /** The contents of the extensions that are read back, already decoded. */
  datatype ExtValue =
    | NullValue
    | KeyId(keyid: Octets)
    | TargetNames(targets: seq<GeneralName>)
    | FullAttributes(providers: seq<AttHolder>)
    | Certificates(certs: seq<X509>)

  datatype Extension = Extension(oid: Oid, critical: bool, value: ExtValue)

  datatype Info = Info(version: nat, holder: Holder, form: Form, serial: Octets, notBefore: int, notAfter: int,
                       attrib: seq<Attr>, id: Option<Octets>, exts: seq<Extension>)

  datatype AC = AC(info: Info, signature: Octets)

  /** The cryptography: signing with a private key, the public key that belongs to it,
      verifying, and SHA-1. */
  datatype Crypto = Crypto(sign: (Info, Octets) -> Octets, publicKeyOf: Octets -> Octets,
                           verify: (Info, Octets, Octets) -> bool, sha1: Octets -> Octets)

  /** What is signed with a private key verifies with its public key; a hash has 20 octets. */
  ghost predicate Lawful(c: Crypto) {
    && (forall info: Info, key: Octets :: c.verify(info, c.sign(info, key), c.publicKeyOf(key)))
    && (forall x: Octets :: |c.sha1(x)| == 20)
  }
}
