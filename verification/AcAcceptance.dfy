/** Issuing and accepting put together: what becomes of a certificate the server has just
    written when a verifier looks at it. */
module AcAcceptance {
  import opened Options
  import opened Strings
  import opened AttributeCertificate
  import opened AcIssue
  import opened AcValidation
  import GenericAttributes
  import Narrowing

  // ----- the policy authority

  /** The VO name and URI are told apart again just when the name has no "://" of its own. */
  lemma {:induction false} AuthorityIsSplitIff(vo: string, uri: string)
    ensures Find(PolicyAuthority(vo, uri), "://").Some?
    ensures var authority := PolicyAuthority(vo, uri);
            var point := Find(authority, "://").value;
            && (authority[..point] == vo <==> Find(vo, "://").None?)
            && (authority[..point] == vo ==> authority[point + 3..] == uri)
  {
    var s := PolicyAuthority(vo, uri);
    var rest := "://" + uri;
    assert s == vo + rest && rest[0..] == rest;
    FindIs(rest, "://", 0);
    FindInFront(vo, rest, "://");
    var point := Find(s, "://").value;
    assert |s[..point]| == point;
    if point == |vo| {
      assert s[..point] == vo && s[point + 3..] == uri;
    }
  }

  /** A pattern that does not have the first character of `rest` behind its own first one
      occurs before `rest` only inside `s`. */
  lemma {:induction false} OccurrenceBefore(s: string, rest: string, pat: string, j: nat)
    requires j < |s| && pat != "" && rest != "" && rest[0] !in pat[1..]
    ensures OccursAt(s + rest, pat, j) <==> OccursAt(s, pat, j)
  {
    var t := s + rest;
    if j + |pat| <= |s| {
      assert t[j..][..|pat|] == s[j..][..|pat|];
      assert pat <= t[j..] <==> t[j..][..|pat|] == pat;
      assert pat <= s[j..] <==> s[j..][..|pat|] == pat;
    } else {
      var d := |s| - j;
      assert pat[d] in pat[1..] by { assert pat[d] == pat[1..][d - 1]; }
      assert t[|s|] == rest[0];
      NotThere(t, pat, j, d);
      NotThere(s, pat, j, d);
    }
  }

  /** Where such a pattern is found for the first time in s followed by `rest`. */
  lemma {:induction false} FindInFront(s: string, rest: string, pat: string)
    requires pat != "" && rest != "" && rest[0] !in pat[1..]
    ensures var r := Find(s + rest, pat);
            if Find(s, pat).Some? then r == Find(s, pat)
            else if Find(rest, pat).Some? then r == Some(|s| + Find(rest, pat).value)
            else r.None?
  {
    var t := s + rest;
    forall j: nat
      ensures OccursAt(t, pat, j) <==> if j < |s| then OccursAt(s, pat, j) else OccursAt(rest, pat, j - |s|)
    {
      if j < |s| {
        OccurrenceBefore(s, rest, pat, j);
      } else if j <= |t| {
        assert t[j..] == rest[j - |s|..];
      }
    }
    forall j: nat | j >= |s| ensures !OccursAt(s, pat, j) {
      NotThere(s, pat, j, 0);
    }
    if Find(s, pat).Some? {
      FindIs(t, pat, Find(s, pat).value);
    } else if Find(rest, pat).Some? {
      var i := Find(rest, pat).value;
      assert OccursAt(t, pat, |s| + i);
      FindIs(t, pat, |s| + i);
    }
  }

  function RolePart(role: string): string {
    "/Role=" + role
  }

  function CapabilityPart(cap: string): string {
    "/Capability=" + cap
  }

  function LongForm(group: string, role: string, cap: string): string {
    group + RolePart(role) + CapabilityPart(cap)
  }

  lemma {:induction false} SeparatorsOfTheTail(role: string, cap: string)
    ensures Find(RolePart(role) + CapabilityPart(cap), "/Role=") == Some(0)
    ensures Find(RolePart(role) + CapabilityPart(cap), "/Capability=")
            == if Find(role, "/Capability=").Some? then Some(6 + Find(role, "/Capability=").value) else Some(6 + |role|)
  {
    hide Find, OccursAt;
    var tail := CapabilityPart(cap);
    var s := RolePart(role) + tail;
    assert s == "/Role=" + (role + tail);
    FoundAtOnce("/Role=", role + tail);
    FoundAtOnce("/Capability=", cap);
    FindInFront(role, tail, "/Capability=");
    NoCapabilityInRole(role + tail);
  }

  lemma {:induction false} FoundAtOnce(pat: string, rest: string)
    ensures Find(pat + rest, pat) == Some(0)
  {
    assert (pat + rest)[0..] == pat + rest;
    FindIs(pat + rest, pat, 0);
  }

  /** The capability is found only behind "/Role=". */
  lemma {:induction false} NoCapabilityInRole(t: string)
    requires Find(t, "/Capability=").Some?
    ensures Find("/Role=" + t, "/Capability=") == Some(6 + Find(t, "/Capability=").value)
  {
    var s, i := "/Role=" + t, Find(t, "/Capability=").value;
    forall j: nat | j < 6 ensures !OccursAt(s, "/Capability=", j) {
      NotThere(s, "/Capability=", j, if j == 0 then 1 else 0);
    }
    forall j: nat | 6 <= j <= 6 + i ensures OccursAt(s, "/Capability=", j) <==> OccursAt(t, "/Capability=", j - 6) {
      BehindPrefix("/Role=", t, j);
    }
    FindIs(s, "/Capability=", 6 + i);
  }

  lemma {:induction false} BehindPrefix(a: string, b: string, j: nat)
    requires |a| <= j <= |a| + |b|
    ensures (a + b)[j..] == b[j - |a|..]
  {
  }

  /** Where the separators of a long FQAN are found. */
  lemma {:induction false} SeparatorsOfTheLongForm(group: string, role: string, cap: string)
    ensures var s := LongForm(group, role, cap);
            && Find(s, "/Role=") == (if Find(group, "/Role=").Some? then Find(group, "/Role=") else Some(|group|))
            && Find(s, "/Capability=")
               == if Find(group, "/Capability=").Some? then Find(group, "/Capability=")
                  else if Find(role, "/Capability=").Some? then Some(|group| + 6 + Find(role, "/Capability=").value)
                  else Some(|group| + 6 + |role|)
  {
    hide Find;
    var middle := RolePart(role) + CapabilityPart(cap);
    assert LongForm(group, role, cap) == group + middle;
    FindInFront(group, middle, "/Role=");
    FindInFront(group, middle, "/Capability=");
    SeparatorsOfTheTail(role, cap);
  }

  /** Group, role and capability of a long FQAN are told apart again just when the names have
      no separators of their own where one is looked for. */
  lemma {:induction false} FqanIsSplitIff(group: string, role: string, cap: string)
    ensures SplitFqan(LongForm(group, role, cap)) == FqanParts(group, role, cap)
            <==> Find(group, "/Role=").None? && Find(group, "/Capability=").None? && Find(role, "/Capability=").None?
  {
    hide Find;
    var s := LongForm(group, role, cap);
    SeparatorsOfTheLongForm(group, role, cap);
    var r, c := Find(s, "/Role=").value, Find(s, "/Capability=").value;
    assert |s| == |group| + 6 + |role| + 12 + |cap|;
    var parts := SplitFqan(s);
    assert |parts.group| == r && |parts.cap| == |s| - c - 12;
    if r == |group| && c == |group| + 6 + |role| {
      LongFormSlices(group, role, cap);
    }
  }

  lemma {:induction false} LongFormSlices(group: string, role: string, cap: string)
    ensures var s, r, c := LongForm(group, role, cap), |group|, |group| + 6 + |role|;
            |s| == c + 12 + |cap| && s[..r] == group && s[r + 6..c] == role && s[c + 12..] == cap
  {
  }

  /** Without a capability the FQAN is group and role, and without a role the group alone. */
  lemma {:induction false} ShortFqanIsSplitIff(group: string, role: string)
    ensures SplitFqan(group + RolePart(role)) == FqanParts(group, role, "")
            <==> Find(group, "/Role=").None? && Find(group, "/Capability=").None? && Find(role, "/Capability=").None?
    ensures SplitFqan(group) == FqanParts(group, "", "")
            <==> Find(group, "/Role=").None? && Find(group, "/Capability=").None?
  {
    hide Find;
    var s := group + RolePart(role);
    FindInFront(group, RolePart(role), "/Role=");
    FindInFront(group, RolePart(role), "/Capability=");
    FoundAtOnce("/Role=", role);
    CapabilityBehindRole(role);
    assert |s| == |group| + 6 + |role|;
    if Find(s, "/Role=").value == |group| {
      assert s[..|group|] == group && s[|group| + 6..] == role;
    }
  }

  /** "/Capability=" is in front of a role only where the role has it. */
  lemma {:induction false} CapabilityBehindRole(role: string)
    ensures Find(RolePart(role), "/Capability=")
            == if Find(role, "/Capability=").Some? then Some(6 + Find(role, "/Capability=").value) else None
  {
    if Find(role, "/Capability=").Some? {
      NoCapabilityInRole(role);
    } else {
      var s := "/Role=" + role;
      forall j: nat ensures !OccursAt(s, "/Capability=", j) {
        if j < 6 {
          NotThere(s, "/Capability=", j, if j == 0 then 1 else 0);
        } else if j <= |s| {
          BehindPrefix("/Role=", role, j);
          assert !OccursAt(role, "/Capability=", j - 6);
        }
      }
    }
  }

  /** A capability without a role comes back. */
  lemma {:induction false} CapabilityIsSplit(group: string, cap: string)
    requires Find(group, "/Role=").None? && Find(group, "/Capability=").None? && Find(cap, "/Role=").None?
    ensures SplitFqan(group + CapabilityPart(cap)) == FqanParts(group, "", cap)
    ensures Find(group + CapabilityPart(cap), "/Role=").None?
  {
    hide Find;
    var s := group + CapabilityPart(cap);
    FoundAtOnce("/Capability=", cap);
    FindInFront(group, CapabilityPart(cap), "/Capability=");
    NoRoleInCapability(cap);
    FindInFront(group, CapabilityPart(cap), "/Role=");
    assert s[..|group|] == group && s[|group| + 12..] == cap;
  }

  /** A capability in front of a role is taken for a part of the group, and the role for a part of
      the capability. */
  lemma {:induction false} CapabilityInFront(group: string, cap: string, role: string)
    requires Find(group, "/Role=").None? && Find(group, "/Capability=").None? && Find(cap, "/Role=").None?
    ensures SplitFqan(group + CapabilityPart(cap) + RolePart(role))
            == FqanParts(group + CapabilityPart(cap), role, cap + RolePart(role))
  {
    hide Find, SplitFqan, CapabilityPart, RolePart;
    var front, tail := group + CapabilityPart(cap), RolePart(role);
    CapabilityIsSplit(group, cap);
    RoleBehind(front, role);
    CapabilityBehind(group, cap, tail);
    assert front + tail == group + (CapabilityPart(cap) + tail);
    InFrontSlices(group, cap, role);
    SplitAt(front + tail, |front|, |group|);
  }

  lemma {:induction false} CapabilityBehind(group: string, cap: string, tail: string)
    requires Find(group, "/Capability=").None?
    ensures Find(group + (CapabilityPart(cap) + tail), "/Capability=") == Some(|group|)
  {
    hide Find;
    FoundAtOnce("/Capability=", cap + tail);
    assert CapabilityPart(cap) + tail == "/Capability=" + (cap + tail);
    FindInFront(group, CapabilityPart(cap) + tail, "/Capability=");
  }

  lemma {:induction false} RoleBehind(front: string, role: string)
    requires Find(front, "/Role=").None?
    ensures Find(front + RolePart(role), "/Role=") == Some(|front|)
  {
    hide Find;
    FoundAtOnce("/Role=", role);
    FindInFront(front, RolePart(role), "/Role=");
  }

  lemma {:induction false} InFrontSlices(group: string, cap: string, role: string)
    ensures var front := group + CapabilityPart(cap);
            var s := front + RolePart(role);
            |s| == |front| + 6 + |role| && s[..|front|] == front && s[|front| + 6..] == role
            && |front| == |group| + 12 + |cap| && s[|group| + 12..] == cap + RolePart(role)
  {
  }

  lemma {:induction false} SplitAt(s: string, r: nat, c: nat)
    requires Find(s, "/Role=") == Some(r) && Find(s, "/Capability=") == Some(c) && c < r
    ensures SplitFqan(s) == FqanParts(s[..r], s[r + 6..], s[c + 12..])
  {
    hide Find;
  }

  lemma {:induction false} NoRoleInCapability(cap: string)
    requires Find(cap, "/Role=").None?
    ensures Find(CapabilityPart(cap), "/Role=").None?
  {
    var s := CapabilityPart(cap);
    forall j: nat ensures !OccursAt(s, "/Role=", j) {
      if j < 12 {
        NotThere(s, "/Role=", j, if j == 0 then 1 else 0);
      } else if j <= |s| {
        BehindPrefix("/Capability=", cap, j);
        assert !OccursAt(cap, "/Role=", j - 12);
      }
    }
  }

  /** In the long format, group and role come back, and what is not given is NULL. */
  lemma {:induction false} LongFormatIsSplit(group: string, role: string)
    requires Find(group, "/Role=").None? && Find(group, "/Capability=").None? && Find(role, "/Capability=").None?
    ensures SplitFqan(Narrowing.Formatted([group], false)[0]) == FqanParts(group, "NULL", "NULL")
    ensures SplitFqan(Narrowing.Formatted([group + "/Role=" + role], false)[0]) == FqanParts(group, role, "NULL")
    ensures Narrowing.Formatted([group, group + "/Role=" + role], true) == [group, group + "/Role=" + role]
  {
    hide Find, SplitFqan;
    forall j: nat ensures !OccursAt("NULL", "/Capability=", j) {
      NotThere("NULL", "/Capability=", j, 0);
    }
    assert Find("NULL", "/Capability=").None?;
    FqanIsSplitIff(group, "NULL", "NULL");
    assert group + "/Role=NULL/Capability=NULL" == LongForm(group, "NULL", "NULL") by {
      assert "/Role=NULL/Capability=NULL" == RolePart("NULL") + CapabilityPart("NULL");
    }
    FqanIsSplitIff(group, role, "NULL");
    var s := group + "/Role=" + role;
    assert s == group + RolePart(role);
    FindInFront(group, RolePart(role), "/Role=");
    FoundAtOnce("/Role=", role);
    assert s + "/Capability=NULL" == LongForm(group, role, "NULL") by {
      assert "/Capability=NULL" == CapabilityPart("NULL");
    }
  }

  // ----- the extensions of an issued certificate

  /** How many extensions an issued certificate has in front of the caller's own. */
  function OwnExtensions(q: Request): nat {
    (if q.lines == [] then 3 else 4) + (if q.targets.None? then 0 else 1)
  }

  /** Where the extensions of an issued certificate are, and which of them are critical. */
  lemma {:induction false} IssuedExtensions(c: Crypto, issuer: Signer, holder: X509, q: Request, extra: seq<Extension>,
                                            now: int)
    requires Splittable(q.lines) && AllSplit(q.lines, q.vo)
    ensures var exts := InfoOf(c, issuer, holder, q, extra, now).exts;
            var a, b := |AttributesExtension(q.lines, q.vo, q.uri)|, OwnExtensions(q);
            && b == a + 3 + (if q.targets.None? then 0 else 1)
            && |exts| == b + |extra| && exts[b..] == extra
            && FirstExtension(exts, NoRevAvail) == a + 1
            && FirstExtension(exts, AuthorityKeyId) == a + 2
            && exts[a + 2].value == KeyId(c.sha1(issuer.cert.publicKey))
            && (q.targets.Some? ==> FirstExtension(exts, Targets) == a + 3
                                    && exts[a + 3].value == TargetNames(UriNames(Split(q.targets.value, ','))))
            && (forall i :: 0 <= i < b ==> (exts[i].critical <==> q.targets.Some? && i == a + 3))
            && (q.targets.None? ==> forall i :: 0 <= i < b ==> exts[i].oid != Targets)
  {
    hide AttributesOf, Split, UriNames, FirstExtension, CertificatesOf;
    var own := AttributesExtension(q.lines, q.vo, q.uri);
    var certs := Extension(CertSeq, false, Certificates(CertificatesOf(issuer)));
    var key := Extension(AuthorityKeyId, false, KeyId(c.sha1(issuer.cert.publicKey)));
    Layout(own, certs, key, TargetExtension(q.targets), extra);
    assert InfoOf(c, issuer, holder, q, extra, now).exts
           == own + [certs, Extension(NoRevAvail, false, NullValue), key] + TargetExtension(q.targets) + extra;
  }

  lemma {:induction false} Layout(own: seq<Extension>, certs: Extension, key: Extension, targets: seq<Extension>,
                                  extra: seq<Extension>)
    requires certs.oid == CertSeq && !certs.critical && key.oid == AuthorityKeyId && !key.critical
    requires forall i :: 0 <= i < |own| ==> own[i].oid == Attributes && !own[i].critical
    requires |targets| <= 1 && (targets != [] ==> targets[0].oid == Targets && targets[0].critical)
    ensures var exts := own + [certs, Extension(NoRevAvail, false, NullValue), key] + targets + extra;
            var a, b := |own|, |own| + 3 + |targets|;
            && |exts| == b + |extra| && exts[b..] == extra
            && FirstExtension(exts, NoRevAvail) == a + 1
            && FirstExtension(exts, AuthorityKeyId) == a + 2 && exts[a + 2] == key
            && (targets != [] ==> FirstExtension(exts, Targets) == a + 3 && exts[a + 3] == targets[0])
            && (forall i :: 0 <= i < b ==> (exts[i].critical <==> targets != [] && i == a + 3))
            && (targets == [] ==> forall i :: 0 <= i < b ==> exts[i].oid != Targets)
  {
    hide FirstExtension;
    var exts := own + [certs, Extension(NoRevAvail, false, NullValue), key] + targets + extra;
    FirstExtensionIs(exts, NoRevAvail, |own| + 1);
    FirstExtensionIs(exts, AuthorityKeyId, |own| + 2);
    if targets != [] {
      FirstExtensionIs(exts, Targets, |own| + 3);
    }
  }

  /** Extensions that are not critical are passed over. */
  lemma {:induction false} PassOver(exts: seq<Extension>, i: nat, k: nat, host: string, f: Flags)
    requires i <= k <= |exts| && forall j :: i <= j < k ==> !exts[j].critical
    ensures CriticalsVerdict(exts, i, host, f) == CriticalsVerdict(exts, k, host, f)
    decreases k - i
  {
    if i < k {
      PassOver(exts, i + 1, k, host, f);
    }
  }

  predicate HostExcluded(targets: Option<string>, host: string) {
    targets.Some? && host !in Split(targets.value, ',')
  }

  lemma {:induction false} UriNamesHave(xs: seq<string>, x: string)
    ensures Uri(x) in UriNames(xs) <==> x in xs
  {
    var names := UriNames(xs);
    if x in xs {
      var i :| 0 <= i < |xs| && xs[i] == x;
      assert names[i] == Uri(x);
    }
  }

  /** What is wrong with n copies of an extension of the caller's own: they may be critical only
      if there is one, and it is the first list of targets. */
  function CopiesComplaint(q: Request, e: Extension, n: nat, f: Flags, host: string): Option<Error> {
    if n == 0 || !e.critical then None
    else if q.targets.Some? || e.oid != Targets then Some(AcErrExtCrit)
    else if f.target && TargetVerdict(e, host).Some? then TargetVerdict(e, host)
    else if n > 1 then Some(AcErrExtCrit)
    else None
  }

  lemma {:induction false} CriticalsStop(exts: seq<Extension>, i: nat, host: string, f: Flags)
    requires i < |exts| && exts[i].critical
    ensures CriticalsVerdict(exts, i, host, f)
            == if CriticalVerdict(exts, i, host, f).Some? then CriticalVerdict(exts, i, host, f)
               else CriticalsVerdict(exts, i + 1, host, f)
    ensures CriticalsVerdict(exts, |exts|, host, f).None?
  {
    hide CriticalVerdict;
  }

  /** The walk over the copies at the end of the extensions, from position b on. */
  lemma {:induction false} CopiesVerdict(exts: seq<Extension>, b: nat, q: Request, e: Extension, host: string, f: Flags)
    requires b <= |exts| && forall i :: b <= i < |exts| ==> exts[i] == e
    requires q.targets.Some? ==> FirstExtension(exts, Targets) < b
    requires q.targets.None? ==> forall i :: 0 <= i < b ==> exts[i].oid != Targets
    ensures CriticalsVerdict(exts, b, host, f) == CopiesComplaint(q, e, |exts| - b, f, host)
  {
    hide CriticalsVerdict, TargetVerdict, FirstExtension;
    if b == |exts| || !e.critical {
      PassOver(exts, b, |exts|, host, f);
      NothingLeft(exts, host, f);
    } else {
      CriticalsStop(exts, b, host, f);
      if q.targets.None? && e.oid == Targets {
        FirstExtensionIs(exts, Targets, b);
        if b + 1 < |exts| {
          CriticalsStop(exts, b + 1, host, f);
        }
      }
    }
  }

  lemma {:induction false} NothingLeft(exts: seq<Extension>, host: string, f: Flags)
    ensures CriticalsVerdict(exts, |exts|, host, f).None?
  {
  }

  lemma {:induction false} IssuedCriticals(c: Crypto, issuer: Signer, holder: X509, q: Request, extra: seq<Extension>,
                                           e: Extension, now: int, host: string, f: Flags)
    requires Splittable(q.lines) && AllSplit(q.lines, q.vo)
    requires forall i :: 0 <= i < |extra| ==> extra[i] == e
    ensures CriticalsVerdict(InfoOf(c, issuer, holder, q, extra, now).exts, 0, host, f)
            == if f.target && HostExcluded(q.targets, host) then Some(AcErrTargetNoMatch)
               else CopiesComplaint(q, e, |extra|, f, host)
  {
    hide InfoOf, Split, UriNames, CriticalsVerdict, FirstExtension;
    var exts := InfoOf(c, issuer, holder, q, extra, now).exts;
    var b := OwnExtensions(q);
    IssuedExtensions(c, issuer, holder, q, extra, now);
    assert forall i :: b <= i < |exts| ==> exts[i] == exts[b..][i - b];
    CopiesVerdict(exts, b, q, e, host, f);
    if q.targets.Some? {
      PassOver(exts, 0, b - 1, host, f);
      CriticalsStop(exts, b - 1, host, f);
      UriNamesHave(Split(q.targets.value, ','), host);
    } else {
      PassOver(exts, 0, b, host, f);
    }
  }

  lemma {:induction false} IssuedExtensionsVerdict(c: Crypto, issuer: Signer, holder: X509, q: Request,
                                                   extra: seq<Extension>, e: Extension, now: int,
                                                   host: string, f: Flags)
    requires Splittable(q.lines) && AllSplit(q.lines, q.vo)
    requires forall i :: 0 <= i < |extra| ==> extra[i] == e
    ensures ExtensionsVerdict(c, InfoOf(c, issuer, holder, q, extra, now).exts, Some(issuer.cert), host, f)
            == if f.target && HostExcluded(q.targets, host) then Some(AcErrTargetNoMatch)
               else CopiesComplaint(q, e, |extra|, f, host)
  {
    hide InfoOf, Split, UriNames, CriticalsVerdict, FirstExtension, CopiesComplaint, HostExcluded;
    IssuedExtensions(c, issuer, holder, q, extra, now);
    IssuedCriticals(c, issuer, holder, q, extra, e, now, host, f);
  }

  // ----- issue, then accept

  /** The one check that an issued certificate fails, if there is one. `t` is the time of
      verification, and `e` the extension of the caller's own of which there are n copies. */
  function Complaint(holder: X509, q: Request, e: Extension, n: nat, issued: int, f: Flags, t: int, host: string)
    : Option<Error>
  {
    if f.id && holder.issuerUID.Some? then Some(AcErrUidMismatch)
    else if f.Any() && |q.serial| > 20 then Some(AcErrSerial)
    else if f.date && issued - q.startpast > t + 300 then Some(AcErrDates)
    else if f.date && issued + q.valid - q.startpast <= t - 300 then Some(AcErrDates2)
    else if f.target && HostExcluded(q.targets, host) then Some(AcErrTargetNoMatch)
    else CopiesComplaint(q, e, n, f, host)
  }

  /** The generic attributes of a request, granted by the VO. */
  function ProviderOf(q: Request): AttHolder
    requires Splittable(q.lines) && AllSplit(q.lines, q.vo)
  {
    AttHolder(PolicyAuthority(q.vo, q.uri), AttributesOf(q.lines, q.vo))
  }

  /** Stands in where the caller has no extension of its own. */
  const OWN := Extension(NoRevAvail, false, NullValue)

  /** What `validate` says of a certificate that `writeac` wrote, for the holder and the issuer
      it was written for, under any flags and at any time. */
  lemma {:induction false} IssuedIsAcceptedIff(c: Crypto, issuer: Signer, holder: X509, q: Request,
                                               extra: seq<Extension>, issued: int,
                                               f: Flags, vertime: int, now: int, host: string)
    requires Lawful(c) && issuer.cert.publicKey == c.publicKeyOf(issuer.key)
    requires Splittable(q.lines) && Issued(c, issuer, holder, q, extra, issued).Ok?
    ensures extra != [] ==> StaleIndex(issuer, q) < |extra|
    ensures var ac := Issued(c, issuer, holder, q, extra, issued).value;
            var r := Verdict(c, ac, Some(holder), Some(issuer.cert), f, vertime, now, host);
            var e := if extra == [] then OWN else extra[StaleIndex(issuer, q)];
            var wrong := Complaint(holder, q, e, |extra|, issued, f, if vertime == 0 then now else vertime, host);
            && (r.Ok? <==> wrong.None?)
            && (r.Err? ==> wrong == Some(r.error))
            && (r.Ok? ==> && r.value.contents.fqans == q.fqans
                          && (r.value.contents.voname == q.vo <==> Find(q.vo, "://").None?)
                          && (r.value.contents.voname == q.vo ==> r.value.contents.uri == q.uri)
                          && r.value.user == holder.subject && r.value.server == issuer.cert.subject
                          && r.value.serial == q.serial
                          && (q.lines != [] ==> r.value.attributes == [ProviderOf(q)]))
  {
    hide InfoVerdict, AttributesVerdict, Provided, Copies, Find, Complaint, InfoOf, AttributesOf;
    var copies := Copies(extra, StaleIndex(issuer, q)).value;
    var info := InfoOf(c, issuer, holder, q, copies, issued);
    CopiesAlike(extra, StaleIndex(issuer, q));
    var e := if extra == [] then OWN else extra[StaleIndex(issuer, q)];
    IssuedSignature(c, issuer, holder, q, copies, issued, f);
    IssuedInfoVerdict(c, issuer, holder, q, copies, e, issued, f, vertime, now, host);
    IssuedContents(q);
    IssuedFields(c, issuer, holder, q, copies, issued);
  }

  lemma {:induction false} CopiesAlike(extra: seq<Extension>, index: nat)
    requires Copies(extra, index).Some?
    ensures var copies := Copies(extra, index).value;
            && |copies| == |extra|
            && (extra != [] ==> index < |extra| && forall i :: 0 <= i < |copies| ==> copies[i] == extra[index])
  {
  }

  lemma {:induction false} IssuedSignature(c: Crypto, issuer: Signer, holder: X509, q: Request, extra: seq<Extension>,
                                           issued: int, f: Flags)
    requires Lawful(c) && issuer.cert.publicKey == c.publicKeyOf(issuer.key)
    requires Splittable(q.lines) && AllSplit(q.lines, q.vo)
    ensures var info := InfoOf(c, issuer, holder, q, extra, issued);
            SignatureVerdict(c, AC(info, c.sign(info, issuer.key)), Some(issuer.cert), f).None?
  {
    hide AttributesOf;
  }

  /** What the issued certificate says of itself. */
  lemma {:induction false} IssuedFields(c: Crypto, issuer: Signer, holder: X509, q: Request, extra: seq<Extension>,
                                        issued: int)
    requires Splittable(q.lines) && AllSplit(q.lines, q.vo)
    ensures var info := InfoOf(c, issuer, holder, q, extra, issued);
            && info.serial == q.serial
            && info.attrib == [Attr(IdAtCap, [IetfAttr([Uri(PolicyAuthority(q.vo, q.uri))], Values(q.fqans))])]
            && (q.lines != [] ==> Provided(info.exts) == [ProviderOf(q)])
  {
    hide AttributesOf, PolicyAuthority, FirstExtension;
    if q.lines != [] {
      FirstExtensionIs(InfoOf(c, issuer, holder, q, extra, issued).exts, Attributes, 0);
    }
  }

  lemma {:induction false} IssuedInfoVerdict(c: Crypto, issuer: Signer, holder: X509, q: Request,
                                             extra: seq<Extension>, e: Extension, issued: int,
                                             f: Flags, vertime: int, now: int, host: string)
    requires Splittable(q.lines) && AllSplit(q.lines, q.vo)
    requires forall i :: 0 <= i < |extra| ==> extra[i] == e
    ensures var info := InfoOf(c, issuer, holder, q, extra, issued);
            InfoVerdict(c, info, Some(holder), Some(issuer.cert), f, vertime, now, host)
            == Complaint(holder, q, e, |extra|, issued, f, if vertime == 0 then now else vertime, host)
  {
    hide ExtensionsVerdict, HostExcluded, AttributesOf, TargetExtension, CopiesComplaint;
    IssuedExtensionsVerdict(c, issuer, holder, q, extra, e, issued, host, f);
  }

  lemma {:induction false} IssuedContents(q: Request)
    ensures var a := IetfAttr([Uri(PolicyAuthority(q.vo, q.uri))], Values(q.fqans));
            var r := AttributesVerdict([Attr(IdAtCap, [a])]);
            && r.Ok? && r.value.fqans == q.fqans
            && (r.value.voname == q.vo <==> Find(q.vo, "://").None?)
            && (r.value.voname == q.vo ==> r.value.uri == q.uri)
  {
    hide Find, SplitFqan, PolicyAuthority;
    AuthorityIsSplitIff(q.vo, q.uri);
    var values := Values(q.fqans);
    assert FqansOf(values) == q.fqans;
    var atts := [Attr(IdAtCap, [IetfAttr([Uri(PolicyAuthority(q.vo, q.uri))], values)])];
    assert FirstOid(OidsOf(atts), IdAtCap) == 0;
  }

  /** Whom a certificate is issued for: in the new format, the certificate of that issuer with that
      serial number, whatever its subject; in the old one, that of the holder's own name. */
  lemma {:induction false} IssuedForIff(c: Crypto, issuer: Signer, holder: X509, q: Request, extra: seq<Extension>,
                                        issued: int, other: X509)
    requires Splittable(q.lines) && Issued(c, issuer, holder, q, extra, issued).Ok?
    ensures var name := if q.oldFormat then holder.subject else holder.issuer;
            HolderVerdict(Issued(c, issuer, holder, q, extra, issued).value.info.holder, other).None?
            <==> (other.serial == holder.serial && other.issuerUID.None?
                  && (other.subject == name || other.issuer == name))
  {
    hide AttributesOf, AttributesExtension, TargetExtension, Copies;
  }

  /** The certificate is of version 1 and as long valid as was asked for, carries the issuer's UID,
      and the last of its certificates verifies it. */
  lemma {:induction false} IssuedProfile(c: Crypto, issuer: Signer, holder: X509, q: Request, extra: seq<Extension>,
                                         issued: int)
    requires Lawful(c) && issuer.cert.publicKey == c.publicKeyOf(issuer.key)
    requires Splittable(q.lines) && Issued(c, issuer, holder, q, extra, issued).Ok?
    ensures var ac := Issued(c, issuer, holder, q, extra, issued).value;
            && ac.info.version == 1 && ac.info.id == issuer.cert.issuerUID
            && ac.info.notBefore == issued - q.startpast && ac.info.notAfter - ac.info.notBefore == q.valid
            && exists i :: && 0 <= i < |ac.info.exts| && ac.info.exts[i].oid == CertSeq && !ac.info.exts[i].critical
                           && ac.info.exts[i].value.Certificates? && ac.info.exts[i].value.certs != []
                           && var certs := ac.info.exts[i].value.certs;
                              && certs[..|certs| - 1] == (if issuer.chain.Some? then issuer.chain.value else [])
                              && c.verify(ac.info, ac.signature, certs[|certs| - 1].publicKey)
  {
    hide AttributesOf, TargetExtension, Copies;
    var ac := Issued(c, issuer, holder, q, extra, issued).value;
    var i := |AttributesExtension(q.lines, q.vo, q.uri)|;
    assert ac.info.exts[i] == Extension(CertSeq, false, Certificates(CertificatesOf(issuer)));
    var chain := if issuer.chain.Some? then issuer.chain.value else [];
    assert CertificatesOf(issuer)[..|CertificatesOf(issuer)| - 1] == chain;
  }

  /** Issuing fails if and only if a line has no '=' behind its first "::", or there are extensions
      of the caller's own and the counter left over points behind them. */
  lemma {:induction false} IssuingFailsIff(c: Crypto, issuer: Signer, holder: X509, q: Request, extra: seq<Extension>,
                                           issued: int)
    requires Splittable(q.lines)
    ensures var r := Issued(c, issuer, holder, q, extra, issued);
            var bad := exists i :: 0 <= i < |q.lines| && '=' !in q.lines[i][Find(q.lines[i], "::").value + 2..];
            var n := if issuer.chain.Some? then |issuer.chain.value| else |q.lines|;
            && (r == Err(AcErrParameters) <==> bad)
            && (r == Err(AcErrUnknown) <==> !bad && extra != [] && n >= |extra|)
            && (r.Err? ==> r.error == AcErrParameters || r.error == AcErrUnknown)
  {
    hide InfoOf, Find;
  }

  /** The targets the server was asked for are the hosts a verifier may have. */
  lemma {:induction false} TargetsAreTheHosts(targets: seq<string>, host: string)
    requires forall i :: 0 <= i < |targets| ==> ',' !in targets[i]
    ensures var complete := if Join(targets, ',') == "" then None else Some(Join(targets, ','));
            HostExcluded(complete, host) <==> Join(targets, ',') != "" && host !in targets
  {
    hide Split;
    if Join(targets, ',') != "" {
      SplitOfJoin(targets, ',');
    }
  }

  /** The server verifies signatures only when it looks up what a holder was granted before. */
  const SIGNATURE_ONLY := Flags(false, false, false, true, false, false)

  /** What the narrowing part of the server sees of a certificate. */
  function GrantOf(v: Voms): Narrowing.Granted {
    Narrowing.Granted(v.contents.voname, v.contents.fqans)
  }

  /** The server finds in a certificate it issued just what it granted, however old it is, if and
      only if the serial number is not too long and the VO name has no "://". */
  lemma {:induction false} GrantIsReadBackIff(c: Crypto, issuer: Signer, holder: X509, q: Request,
                                              issued: int, now: int, host: string)
    requires Lawful(c) && issuer.cert.publicKey == c.publicKeyOf(issuer.key)
    requires Splittable(q.lines) && AllSplit(q.lines, q.vo)
    ensures var ac := Issued(c, issuer, holder, q, [], issued);
            && ac.Ok?
            && var r := Verdict(c, ac.value, Some(holder), Some(issuer.cert), SIGNATURE_ONLY, 0, now, host);
               (r.Ok? && GrantOf(r.value) == Narrowing.Granted(q.vo, q.fqans)
                <==> |q.serial| <= 20 && Find(q.vo, "://").None?)
  {
    hide Verdict, InfoOf, Find;
    IssuedIsAcceptedIff(c, issuer, holder, q, [], issued, SIGNATURE_ONLY, 0, now, host);
  }

  // ----- what acceptance means

  const FULL := Flags(true, true, true, true, true, true)

  /** The holder's certificate is the one named: by serial number and subject or issuer, or by
      its issuer where there are several entity names. */
  predicate HolderMatches(h: Holder, cert: X509) {
    if h.baseid.Some? then
      var b := h.baseid.value;
      && b.serial == cert.serial && b.uid == cert.issuerUID
      && (b.issuer == [DirName(cert.subject)] || b.issuer == [DirName(cert.issuer)])
    else if h.entity.None? || h.entity.value == [] then true
    else
      var lists := h.entity.value;
      |lists| > 1 && |lists[0]| > 1 && lists[0][0] == DirName(cert.issuer)
  }

  /** No list of targets is critical but the first, and the host is in it if it is checked. */
  ghost predicate TargetsFit(exts: seq<Extension>, host: string, f: Flags) {
    forall i :: 0 <= i < |exts| && exts[i].critical ==>
      && exts[i].oid == Targets && (forall j :: 0 <= j < i ==> exts[j].oid != Targets)
      && (f.target ==> exts[i].value.TargetNames? && Uri(host) in exts[i].value.targets)
  }

  /** The first key identifier is there, and that of the issuer if it is checked and has 20 octets. */
  ghost predicate KeyFits(c: Crypto, exts: seq<Extension>, issuer: Option<X509>, f: Flags) {
    exists i :: && 0 <= i < |exts| && exts[i].oid == AuthorityKeyId
                && (forall j :: 0 <= j < i ==> exts[j].oid != AuthorityKeyId)
                && (f.key ==> && exts[i].value.KeyId?
                              && (issuer.None? ==> f.id)
                              && (issuer.Some? && |exts[i].value.keyid| == 20 ==>
                                    exts[i].value.keyid == c.sha1(issuer.value.publicKey)))
  }

  ghost predicate ExtensionsFit(c: Crypto, exts: seq<Extension>, issuer: Option<X509>, host: string, f: Flags) {
    && (exists i :: 0 <= i < |exts| && exts[i].oid == NoRevAvail)
    && TargetsFit(exts, host, f)
    && KeyFits(c, exts, issuer, f)
  }

  ghost predicate AttributesFit(atts: seq<Attr>) {
    exists i :: && 0 <= i < |atts| && atts[i].oid == IdAtCap && |atts[i].ietfattr| == 1
                && |atts[i].ietfattr[0].names| == 1 && atts[i].ietfattr[0].names[0].Uri?
                && Find(atts[i].ietfattr[0].names[0].uri, "://").Some? && AllOctetStrings(atts[i].ietfattr[0].values)
                && forall j :: 0 <= j < i ==> atts[j].oid != IdAtCap
  }

  lemma {:induction false} CriticalsFitIff(exts: seq<Extension>, host: string, f: Flags)
    ensures CriticalsVerdict(exts, 0, host, f).None? <==> TargetsFit(exts, host, f)
  {
    hide CriticalsVerdict, FirstExtension;
    CriticalsPassIff(exts, 0, host, f);
    var first := FirstExtension(exts, Targets);
    forall i | 0 <= i < |exts|
      ensures CriticalVerdict(exts, i, host, f).None?
              <==> && exts[i].oid == Targets && (forall j :: 0 <= j < i ==> exts[j].oid != Targets)
                   && (f.target ==> exts[i].value.TargetNames? && Uri(host) in exts[i].value.targets)
    {
      if exts[i].oid == Targets && first < i {
        assert exts[first].oid == Targets;
      }
    }
  }

  lemma {:induction false} ExtensionsPassIff(c: Crypto, exts: seq<Extension>, issuer: Option<X509>, host: string,
                                             f: Flags)
    ensures ExtensionsVerdict(c, exts, issuer, host, f).None? <==> ExtensionsFit(c, exts, issuer, host, f)
  {
    hide CriticalsVerdict, FirstExtension, TargetsFit;
    CriticalsFitIff(exts, host, f);
    var key := FirstExtension(exts, AuthorityKeyId);
    forall i | 0 <= i < |exts| && exts[i].oid == AuthorityKeyId
        && (forall j :: 0 <= j < i ==> exts[j].oid != AuthorityKeyId)
      ensures i == key
    {
      FirstExtensionIs(exts, AuthorityKeyId, i);
    }
  }

  lemma {:induction false} AttributesPassIff(atts: seq<Attr>)
    ensures AttributesVerdict(atts).Ok? <==> AttributesFit(atts)
  {
    hide FirstOid, Find;
    var pos := FirstOid(OidsOf(atts), IdAtCap);
    forall i | 0 <= i < |atts| && atts[i].oid == IdAtCap && (forall j :: 0 <= j < i ==> atts[j].oid != IdAtCap)
      ensures i == pos
    {
      assert !(pos < i) && !(i < pos);
    }
  }

  /** Under any flags, a certificate is accepted exactly when what they ask for holds. */
  lemma {:induction false} AcceptedUnderIff(c: Crypto, ac: AC, cert: Option<X509>, issuer: Option<X509>, f: Flags,
                                            vertime: int, now: int, host: string)
    ensures var t := if vertime == 0 then now else vertime;
            var info, names := ac.info, ac.info.form.names;
            Verdict(c, ac, cert, issuer, f, vertime, now, host).Ok?
            <==> && (f.Any() ==> !info.holder.hasDigest && !info.form.hasIs && !info.form.hasDigest)
                 && (f.sign ==> issuer.Some? && c.verify(info, ac.signature, issuer.value.publicKey))
                 && (issuer.None? ==> names != [] && names[0].DirName?)
                 && (f.id ==> cert.Some? && HolderMatches(info.holder, cert.value))
                 && (f.Any() ==> |names| == 1 && names[0].DirName? && |info.serial| <= 20)
                 && (f.id ==> issuer.Some? && names[0].name == issuer.value.subject)
                 && (f.date ==> info.notBefore - 300 <= t < info.notAfter + 300)
                 && ExtensionsFit(c, info.exts, issuer, host, f)
                 && AttributesFit(info.attrib)
  {
    hide ExtensionsVerdict, ExtensionsFit, AttributesVerdict, AttributesFit, Provided, HolderVerdict, HolderMatches;
    AttributesPassIff(ac.info.attrib);
    if ac.info.attrib == [] {
      NoAttributes();
    }
    ExtensionsPassIff(c, ac.info.exts, issuer, host, f);
    if cert.Some? {
      HolderPassesIff(ac.info.holder, cert.value);
    }
  }

  /** A certificate passes the full verification exactly when the certificates of holder and
      issuer are there, and it is signed by the issuer it names, for the holder at hand, for this
      host if its targets are critical, and in time. */
  lemma {:induction false} AcceptedIff(c: Crypto, ac: AC, cert: Option<X509>, issuer: Option<X509>,
                                       vertime: int, now: int, host: string)
    ensures var t := if vertime == 0 then now else vertime;
            Verdict(c, ac, cert, issuer, FULL, vertime, now, host).Ok?
            <==> && cert.Some? && issuer.Some?
                 && !ac.info.holder.hasDigest && !ac.info.form.hasIs && !ac.info.form.hasDigest
                 && c.verify(ac.info, ac.signature, issuer.value.publicKey)
                 && HolderMatches(ac.info.holder, cert.value)
                 && ac.info.form.names == [DirName(issuer.value.subject)]
                 && |ac.info.serial| <= 20
                 && ac.info.notBefore - 300 <= t < ac.info.notAfter + 300
                 && ExtensionsFit(c, ac.info.exts, issuer, host, FULL)
                 && AttributesFit(ac.info.attrib)
  {
    hide Verdict, ExtensionsFit, AttributesFit, HolderMatches;
    AcceptedUnderIff(c, ac, cert, issuer, FULL, vertime, now, host);
  }

  lemma {:induction false} HolderPassesIff(h: Holder, cert: X509)
    ensures HolderVerdict(h, cert).None? <==> HolderMatches(h, cert)
  {
  }

  // ----- what is reported

  /** The report of an accepted certificate, field by field, under any flags and with the
      certificates of holder and issuer at hand or missing. */
  lemma {:induction false} ReportIsTrue(c: Crypto, ac: AC, cert: Option<X509>, issuer: Option<X509>, f: Flags,
                                        vertime: int, now: int, host: string)
    requires Verdict(c, ac, cert, issuer, f, vertime, now, host).Ok?
    ensures var v, info := Verdict(c, ac, cert, issuer, f, vertime, now, host).value, ac.info;
            && v.serial == info.serial && v.notBefore == info.notBefore && v.notAfter == info.notAfter
            && (cert.Some? ==> v.user == cert.value.subject && v.userca == cert.value.issuer)
            && (cert.None? ==> v.user == "" && v.userca == "")
            && (issuer.Some? ==> v.server == issuer.value.subject && v.serverca == issuer.value.issuer)
            && (issuer.None? ==> && info.form.names != [] && info.form.names[0] == DirName(v.server)
                                 && v.serverca == "Unable to determine CA")
            && IsReported(info.attrib, v.contents)
            && IsProvided(info.exts, v.attributes)
  {
    hide InfoVerdict, SignatureVerdict, AttributesVerdict, Provided, IsReported, IsProvided;
    AttributesAreReported(ac.info.attrib);
    ProvidersAreReported(ac.info.exts);
  }

  /** The first capability attribute, its authority cut at the first "://", its FQANs in order,
      each with its parts. */
  ghost predicate IsReported(atts: seq<Attr>, r: Contents) {
    exists i: nat :: IsReportedAt(atts, r, i)
  }

  /** The first attributes extension, if it can be read. */
  ghost predicate IsProvided(exts: seq<Extension>, attributes: seq<AttHolder>) {
    || ((forall j :: 0 <= j < |exts| ==> exts[j].oid != Attributes) && attributes == [])
    || exists i :: && 0 <= i < |exts| && exts[i].oid == Attributes
                   && (forall j :: 0 <= j < i ==> exts[j].oid != Attributes)
                   && attributes == if exts[i].value.FullAttributes? then exts[i].value.providers else []
  }

  lemma {:induction false} AttributesAreReported(atts: seq<Attr>)
    ensures AttributesVerdict(atts).Ok? ==> IsReported(atts, AttributesVerdict(atts).value)
  {
    hide FirstOid, Find, SplitFqan;
    if AttributesVerdict(atts).Ok? {
      var i := FirstOid(OidsOf(atts), IdAtCap);
      var a := atts[i].ietfattr[0];
      var s := a.names[0].uri;
      var point := Find(s, "://").value;
      assert s[point..][..3] == "://";
      assert s == s[..point] + "://" + s[point + 3..];
      assert IsReportedAt(atts, AttributesVerdict(atts).value, i);
    }
  }

  ghost predicate IsReportedAt(atts: seq<Attr>, r: Contents, i: nat) {
    && i < |atts| && atts[i].oid == IdAtCap && (forall j :: 0 <= j < i ==> atts[j].oid != IdAtCap)
    && |atts[i].ietfattr| == 1
    && var a := atts[i].ietfattr[0];
       && a.names == [Uri(r.voname + "://" + r.uri)]
       && (forall j: nat :: j < |r.voname| ==> !OccursAt(r.voname + "://" + r.uri, "://", j))
       && |r.fqans| == |r.std| == |a.values|
       && forall k :: 0 <= k < |a.values| ==>
            a.values[k] == IetfValue(true, r.fqans[k]) && r.std[k] == SplitFqan(r.fqans[k])
  }

  lemma {:induction false} ProvidersAreReported(exts: seq<Extension>)
    ensures IsProvided(exts, Provided(exts))
  {
    hide FirstOid;
    var i := FirstExtension(exts, Attributes);
    if i < |exts| {
      assert exts[i].oid == Attributes;
    }
  }

  // ----- what an error says

  /** What an error says of the certificate. */
  ghost predicate Holds(e: Error, c: Crypto, ac: AC, cert: Option<X509>, issuer: Option<X509>, f: Flags, t: int,
                        host: string)
  {
    var info := ac.info;
    match e
    case AcErrSet => f.Any() && (info.holder.hasDigest || info.form.hasIs || info.form.hasDigest)
    case AcErrUnset => f.sign && issuer.None?
    case AcErrSignature => f.sign && issuer.Some? && !c.verify(info, ac.signature, issuer.value.publicKey)
    case AcErrHolderSerial =>
      f.id && cert.Some? && info.holder.baseid.Some? && info.holder.baseid.value.serial != cert.value.serial
    case AcErrHolder =>
      f.id && (cert.None? || (info.holder.baseid.Some? && !NamesHolder(info.holder.baseid.value, cert.value)))
    case AcErrUidMismatch =>
      && f.id && cert.Some?
      && (if info.holder.baseid.Some? then info.holder.baseid.value.uid != cert.value.issuerUID
          else info.holder.entity.Some? && !HolderMatches(info.holder, cert.value))
    case AcErrIssuerName =>
      f.Any() && (|info.form.names| != 1 || !info.form.names[0].DirName?
                  || (f.id && issuer.Some? && info.form.names[0].name != issuer.value.subject))
    case AcErrSerial => f.Any() && |info.serial| > 20
    case AcErrDates => f.date && info.notBefore > t + 300
    case AcErrDates2 => f.date && info.notAfter <= t - 300
    case AcErrExtsAbsent =>
      (forall i :: 0 <= i < |info.exts| ==> info.exts[i].oid != NoRevAvail)
      || (forall i :: 0 <= i < |info.exts| ==> info.exts[i].oid != AuthorityKeyId)
    case AcErrExtCrit =>
      exists i :: && 0 <= i < |info.exts| && info.exts[i].critical
                  && (info.exts[i].oid != Targets || exists j :: 0 <= j < i && info.exts[j].oid == Targets)
    case AcErrTargetNoMatch => f.target && exists e :: e in info.exts && ExcludesHost(e, host)
    case AcErrExtTarget => f.target && exists e :: e in info.exts && IsMalformed(e)
    case AcErrExtKey => f.key && !KeyFits(c, info.exts, issuer, f)
    case AcErrAttribs => forall i :: 0 <= i < |info.attrib| ==> info.attrib[i].oid != IdAtCap
    case AcErrAttribUri => exists a :: a in info.attrib && a.oid == IdAtCap && !HasAuthority(a)
    case AcErrAttribFqan =>
      exists a :: && a in info.attrib && a.oid == IdAtCap
                  && HasAuthority(a) && !AllOctetStrings(a.ietfattr[0].values)
    case Undefined => issuer.None? || (f.id && !EntityComparable(info.holder))
    case AcErrParameters => false
    case AcErrUnknown => false
  }

  /** Every error tells what is wrong with the certificate: what it names is the case. */
  lemma {:induction false} ErrorsAreTrue(c: Crypto, ac: AC, cert: Option<X509>, issuer: Option<X509>, f: Flags,
                                         vertime: int, now: int, host: string)
    ensures var v := Verdict(c, ac, cert, issuer, f, vertime, now, host);
      v.Err? ==> Holds(v.error, c, ac, cert, issuer, f, if vertime == 0 then now else vertime, host)
  {
    hide InfoVerdict, AttributesVerdict, Provided, Holds, SignatureVerdict, ServerOf;
    FirstErrorsAreTrue(c, ac, cert, issuer, f, if vertime == 0 then now else vertime, host);
    if f.id ==> cert.Some? {
      InfoErrorsAreTrue(c, ac, cert, issuer, f, vertime, now, host);
    }
  }

  lemma {:induction false} FirstErrorsAreTrue(c: Crypto, ac: AC, cert: Option<X509>, issuer: Option<X509>, f: Flags,
                                              t: int, host: string)
    ensures SignatureVerdict(c, ac, issuer, f).Some? ==>
      Holds(SignatureVerdict(c, ac, issuer, f).value, c, ac, cert, issuer, f, t, host)
    ensures f.id && cert.None? ==> Holds(AcErrHolder, c, ac, cert, issuer, f, t, host)
    ensures ServerOf(ac.info, issuer).Err? ==> Holds(ServerOf(ac.info, issuer).error, c, ac, cert, issuer, f, t, host)
    ensures AttributesVerdict(ac.info.attrib).Err? ==>
      Holds(AttributesVerdict(ac.info.attrib).error, c, ac, cert, issuer, f, t, host)
  {
    hide AttributesVerdict, HolderMatches, KeyFits, HasAuthority, EntityComparable;
    AttributeErrorsAreTrue(ac.info.attrib);
  }

  lemma {:induction false} InfoErrorsAreTrue(c: Crypto, ac: AC, cert: Option<X509>, issuer: Option<X509>, f: Flags,
                                             vertime: int, now: int, host: string)
    requires f.id ==> cert.Some?
    ensures var e := InfoVerdict(c, ac.info, cert, issuer, f, vertime, now, host);
      e.Some? ==> Holds(e.value, c, ac, cert, issuer, f, if vertime == 0 then now else vertime, host)
  {
    hide ExtensionsVerdict, HolderVerdict, HolderMatches, KeyFits, HasAuthority, EntityComparable;
    ExtensionErrorsAreTrue(c, ac.info.exts, issuer, host, f);
    if cert.Some? {
      HolderErrorsAreTrue(ac.info.holder, cert.value);
    }
  }

  predicate IsMalformed(e: Extension) {
    e.critical && e.oid == Targets && !e.value.TargetNames?
  }

  predicate ExcludesHost(e: Extension, host: string) {
    e.critical && e.oid == Targets && e.value.TargetNames? && Uri(host) !in e.value.targets
  }

  predicate HasAuthority(a: Attr) {
    && |a.ietfattr| == 1 && |a.ietfattr[0].names| == 1 && a.ietfattr[0].names[0].Uri?
    && Find(a.ietfattr[0].names[0].uri, "://").Some?
  }

  lemma {:induction false} HolderErrorsAreTrue(h: Holder, cert: X509)
    ensures HolderVerdict(h, cert).Some? ==>
      match HolderVerdict(h, cert).value
      case AcErrHolderSerial => h.baseid.Some? && h.baseid.value.serial != cert.serial
      case AcErrHolder => h.baseid.Some? && !NamesHolder(h.baseid.value, cert)
      case AcErrUidMismatch =>
        if h.baseid.Some? then h.baseid.value.uid != cert.issuerUID else h.entity.Some? && !HolderMatches(h, cert)
      case Undefined => !EntityComparable(h)
      case _ => false
  {
  }

  lemma {:induction false} CriticalErrorsAreTrue(exts: seq<Extension>, i: nat, host: string, f: Flags)
    requires i <= |exts|
    ensures CriticalsVerdict(exts, i, host, f).Some? ==>
      match CriticalsVerdict(exts, i, host, f).value
      case AcErrExtCrit =>
        exists k :: && 0 <= k < |exts| && exts[k].critical
                    && (exts[k].oid != Targets || exists j :: 0 <= j < k && exts[j].oid == Targets)
      case AcErrTargetNoMatch => f.target && exists e :: e in exts && ExcludesHost(e, host)
      case AcErrExtTarget => f.target && exists e :: e in exts && IsMalformed(e)
      case _ => false
    decreases |exts| - i
  {
    hide FirstExtension;
    if i < |exts| {
      assert exts[i] in exts;
      CriticalErrorsAreTrue(exts, i + 1, host, f);
      var first := FirstExtension(exts, Targets);
      assert i != first && exts[i].oid == Targets ==> first < i && exts[first].oid == Targets;
    }
  }

  lemma {:induction false} ExtensionErrorsAreTrue(c: Crypto, exts: seq<Extension>, issuer: Option<X509>, host: string,
                                                  f: Flags)
    ensures ExtensionsVerdict(c, exts, issuer, host, f).Some? ==>
      match ExtensionsVerdict(c, exts, issuer, host, f).value
      case AcErrExtsAbsent =>
        (forall i :: 0 <= i < |exts| ==> exts[i].oid != NoRevAvail)
        || (forall i :: 0 <= i < |exts| ==> exts[i].oid != AuthorityKeyId)
      case AcErrExtCrit =>
        exists k :: && 0 <= k < |exts| && exts[k].critical
                    && (exts[k].oid != Targets || exists j :: 0 <= j < k && exts[j].oid == Targets)
      case AcErrTargetNoMatch => f.target && exists e :: e in exts && ExcludesHost(e, host)
      case AcErrExtTarget => f.target && exists e :: e in exts && IsMalformed(e)
      case AcErrExtKey => f.key && !KeyFits(c, exts, issuer, f)
      case _ => false
  {
    hide FirstExtension, CriticalsVerdict, KeyFits, TargetsFit;
    CriticalErrorsAreTrue(exts, 0, host, f);
    CriticalsFitIff(exts, host, f);
    ExtensionsPassIff(c, exts, issuer, host, f);
  }

  lemma {:induction false} AttributeErrorsAreTrue(atts: seq<Attr>)
    ensures AttributesVerdict(atts).Err? ==>
      match AttributesVerdict(atts).error
      case AcErrAttribs => forall i :: 0 <= i < |atts| ==> atts[i].oid != IdAtCap
      case AcErrAttribUri => exists a :: a in atts && a.oid == IdAtCap && !HasAuthority(a)
      case AcErrAttribFqan =>
        exists a :: a in atts && a.oid == IdAtCap && HasAuthority(a) && !AllOctetStrings(a.ietfattr[0].values)
      case _ => false
  {
    hide FirstOid, Find;
    var i := FirstOid(OidsOf(atts), IdAtCap);
    if i < |atts| {
      assert atts[i] in atts;
    }
  }

  predicate NamesHolder(b: BaseId, cert: X509) {
    b.issuer == [DirName(cert.subject)] || b.issuer == [DirName(cert.issuer)]
  }

  // ----- where the outcome is undefined

  /** The comparison with the holder goes by what was set: there is a base id, or no entity name
      to compare, or a first list of several, the first of several names, and that a directory
      name. */
  predicate EntityComparable(h: Holder) {
    h.baseid.Some? || h.entity.None? || h.entity.value == []
    || (|h.entity.value| > 1 && |h.entity.value[0]| > 1 && h.entity.value[0][0].DirName?)
  }

  /** The certificate gets past the checks that need no more than the signature. */
  predicate PastSignature(c: Crypto, ac: AC, issuer: Option<X509>, f: Flags) {
    && (f.Any() ==> !ac.info.holder.hasDigest && !ac.info.form.hasIs && !ac.info.form.hasDigest)
    && (f.sign ==> issuer.Some? && c.verify(ac.info, ac.signature, issuer.value.publicKey))
  }

  lemma {:induction false} CriticalsAreDefined(exts: seq<Extension>, i: nat, host: string, f: Flags)
    requires i <= |exts|
    ensures CriticalsVerdict(exts, i, host, f) != Some(Undefined)
    decreases |exts| - i
  {
    hide FirstExtension;
    if i < |exts| {
      CriticalsAreDefined(exts, i + 1, host, f);
    }
  }

  lemma {:induction false} ExtensionsAreDefined(c: Crypto, exts: seq<Extension>, issuer: Option<X509>,
                                                host: string, f: Flags)
    ensures ExtensionsVerdict(c, exts, issuer, host, f) != Some(Undefined)
  {
    hide FirstExtension, CriticalsVerdict;
    CriticalsAreDefined(exts, 0, host, f);
  }

  lemma {:induction false} AttributesAreDefined(atts: seq<Attr>)
    ensures AttributesVerdict(atts) != Err(Undefined)
  {
    hide FirstOid, Find, SplitFqan;
  }

  lemma {:induction false} HolderIsUndefinedIff(h: Holder, cert: X509)
    ensures HolderVerdict(h, cert) == Some(Undefined) <==> !EntityComparable(h)
  {
  }

  /** The outcome is undefined if and only if the certificate gets past its signature, the
      holder's certificate is there where the identity is to be checked, and
      - the issuer's is missing, and the form does not start with a directory name,
      - or the identity is to be checked, and the entity name is not one that can be compared,
      - or the identity is to be checked, the holder matches, and the form has just one name,
        which the code then compares with that of the missing issuer. */
  lemma {:induction false} UndefinedIff(c: Crypto, ac: AC, cert: Option<X509>, issuer: Option<X509>, f: Flags,
                                        vertime: int, now: int, host: string)
    ensures var holder, names := ac.info.holder, ac.info.form.names;
            Verdict(c, ac, cert, issuer, f, vertime, now, host) == Err(Undefined)
            <==> && PastSignature(c, ac, issuer, f)
                 && (f.id ==> cert.Some?)
                 && (|| (issuer.None? && (names == [] || !names[0].DirName?))
                     || (f.id && !EntityComparable(holder))
                     || (f.id && issuer.None? && HolderMatches(holder, cert.value) && |names| == 1))
  {
    hide ExtensionsVerdict, AttributesVerdict, Provided, HolderVerdict, HolderMatches, EntityComparable;
    ExtensionsAreDefined(c, ac.info.exts, issuer, host, f);
    AttributesAreDefined(ac.info.attrib);
    if cert.Some? {
      HolderIsUndefinedIff(ac.info.holder, cert.value);
      HolderPassesIff(ac.info.holder, cert.value);
    }
  }

  /** With both certificates at hand, it is undefined if and only if the identity of a holder
      that cannot be compared is checked. */
  lemma {:induction false} ComparisonIsUndefinedIff(c: Crypto, ac: AC, cert: X509, issuer: X509, f: Flags,
                                                    vertime: int, now: int, host: string)
    ensures Verdict(c, ac, Some(cert), Some(issuer), f, vertime, now, host) == Err(Undefined)
            <==> && f.id && !EntityComparable(ac.info.holder)
                 && !ac.info.holder.hasDigest && !ac.info.form.hasIs && !ac.info.form.hasDigest
                 && (f.sign ==> c.verify(ac.info, ac.signature, issuer.publicKey))
  {
    hide Verdict, EntityComparable, HolderMatches;
    UndefinedIff(c, ac, Some(cert), Some(issuer), f, vertime, now, host);
  }

  /** One entity name, the form that section 4.2.2 of RFC 5755 knows, is not compared: the code
      goes by a list it has not set. */
  lemma {:induction false} OneEntityNameIsUndefined(c: Crypto, ac: AC, cert: X509, issuer: X509, f: Flags,
                                                    names: seq<GeneralName>, vertime: int, now: int, host: string)
    requires ac.info.holder == Holder(None, Some([names]), false) && f.id
    requires !ac.info.form.hasIs && !ac.info.form.hasDigest
    requires f.sign ==> c.verify(ac.info, ac.signature, issuer.publicKey)
    ensures Verdict(c, ac, Some(cert), Some(issuer), f, vertime, now, host) == Err(Undefined)
  {
    hide Verdict;
    ComparisonIsUndefinedIff(c, ac, cert, issuer, f, vertime, now, host);
  }

  /** A certificate for "/CN=holder" by its entity name, and the holder's own certificate: when
      the identity is checked, what comes of it is undefined. */
  lemma {:induction false} OwnNameIsNotCompared(c: Crypto, now: int, host: string)
    ensures var holder := Holder(None, Some([[DirName("/CN=holder")]]), false);
            var info := Info(1, holder, Form([DirName("/CN=voms")], false, false), [1], now, now + 3600, [], None, []);
            var cert := X509("/CN=holder", "/CN=ca", [7], [], None);
            var issuer := X509("/CN=voms", "/CN=ca", [8], [], None);
            var identity := Flags(false, false, false, false, true, false);
            Verdict(c, AC(info, []), Some(cert), Some(issuer), identity, 0, now, host) == Err(Undefined)
  {
    hide Verdict;
    var holder := Holder(None, Some([[DirName("/CN=holder")]]), false);
    var info := Info(1, holder, Form([DirName("/CN=voms")], false, false), [1], now, now + 3600, [], None, []);
    var cert := X509("/CN=holder", "/CN=ca", [7], [], None);
    var issuer := X509("/CN=voms", "/CN=ca", [8], [], None);
    var identity := Flags(false, false, false, false, true, false);
    assert !EntityComparable(holder);
    ComparisonIsUndefinedIff(c, AC(info, []), cert, issuer, identity, 0, now, host);
  }

  lemma {:induction false} NoAttributes()
    ensures AttributesVerdict([]).Err?
  {
  }
}
