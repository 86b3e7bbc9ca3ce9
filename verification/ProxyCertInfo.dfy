/**
 The ProxyCertInfo extension (src/sslutils/proxycertinfo.c:130-174, 276-368; section 3.8 of
 RFC 3820): the two formats it is written in, and the decoder that finds out which one it reads.
 */
module ProxyCertInfo {
  import opened Options
  import opened Der

  /** The policy language by the content octets of its object identifier. */
  datatype ProxyPolicy = ProxyPolicy(language: seq<Byte>, policy: Option<seq<Byte>>)

  datatype Info = Info(version: int, pathLength: Option<int>, policy: ProxyPolicy)

  // ----- what is written

  function PolicyContent(p: ProxyPolicy): seq<Byte>
    requires Writable(p)
  {
    Object(OBJECT, p.language) + (if p.policy.Some? then Object(OCTET_STRING, p.policy.value) else [])
  }

  /** The parts are not too long for the C lengths. */
  predicate Writable(p: ProxyPolicy) {
    && |p.language| < 0x1000_0000
    && (p.policy.Some? ==> |p.policy.value| < 0x1000_0000)
  }

  lemma {:induction false} PolicyContentIsShort(p: ProxyPolicy)
    requires Writable(p)
    ensures |PolicyContent(p)| < 0x2000_0000 + 12
  {
    BigEndianIsShort(|p.language|);
    if p.policy.Some? {
      BigEndianIsShort(|p.policy.value|);
    }
  }

  function PolicyOctets(p: ProxyPolicy): seq<Byte>
    requires Writable(p)
  {
    PolicyContentIsShort(p);
    Object(SEQUENCE, PolicyContent(p))
  }

  predicate WritableInfo(x: Info) {
    Writable(x.policy) && (x.pathLength.Some? ==> |IntegerContent(x.pathLength.value)| < 0x1000_0000)
  }

  function IntegerObject(v: int): seq<Byte>
    requires |IntegerContent(v)| < 0x1000_0000
  {
    Object(INTEGER, IntegerContent(v))
  }

  lemma {:induction false} SizesFit(x: Info)
    requires WritableInfo(x)
    ensures |PolicyOctets(x.policy)| < 0x2000_0000 + 18
    ensures x.pathLength.Some? ==> |IntegerObject(x.pathLength.value)| < 0x1000_0000 + 6
  {
    PolicyContentIsShort(x.policy);
    BigEndianIsShort(|PolicyContent(x.policy)|);
    if x.pathLength.Some? {
      BigEndianIsShort(|IntegerContent(x.pathLength.value)|);
    }
  }

  function ExplicitPathLength(x: Info): seq<Byte>
    requires WritableInfo(x)
  {
    SizesFit(x);
    if x.pathLength.Some? then Object(EXPLICIT_1, IntegerObject(x.pathLength.value)) else []
  }

  function PlainPathLength(x: Info): seq<Byte>
    requires WritableInfo(x)
  {
    if x.pathLength.Some? then IntegerObject(x.pathLength.value) else []
  }

  lemma {:induction false} ContentsFit(x: Info)
    requires WritableInfo(x)
    ensures |PolicyOctets(x.policy)| + |ExplicitPathLength(x)| < 0x8000_0000
    ensures |PolicyOctets(x.policy)| + |PlainPathLength(x)| < 0x8000_0000
  {
    SizesFit(x);
    if x.pathLength.Some? {
      BigEndianIsShort(|IntegerObject(x.pathLength.value)|);
    }
  }

  /** The older format: the policy, then the path length with an explicit tag. */
  function V3Octets(x: Info): seq<Byte>
    requires WritableInfo(x)
  {
    ContentsFit(x);
    Object(SEQUENCE, PolicyOctets(x.policy) + ExplicitPathLength(x))
  }

  /** The format of RFC 3820: the path length, then the policy. */
  function V4Octets(x: Info): seq<Byte>
    requires WritableInfo(x)
  {
    ContentsFit(x);
    Object(SEQUENCE, PlainPathLength(x) + PolicyOctets(x.policy))
  }

  /** What i2d writes; nothing for a version it does not know. */
  function Octets(x: Info): Option<seq<Byte>>
    requires WritableInfo(x)
  {
    if x.version == 3 then Some(V3Octets(x))
    else if x.version == 4 then Some(V4Octets(x))
    else None
  }

  // ----- what is read

  /** A sequence at the front of s, as the macros find it: only the number of the tag counts. */
  function ReadSequence(s: seq<Byte>): Option<(seq<Byte>, seq<Byte>)> {
    var h := ReadHeader(s);
    if h.None? || h.value.tag % 32 != SEQUENCE % 32 then None
    else Some((s[h.value.start..h.value.end], s[h.value.end..]))
  }

  /** The tag at the front without its constructed bit. */
  function NextTag(s: seq<Byte>): Option<Byte> {
    if s == [] then None
    else Some(if s[0] / 32 % 2 == 1 then s[0] - 32 else s[0])
  }

  /** An octet string under the given primitive tag, if that is the next one. */
  function ReadOptionalString(tag: Byte, s: seq<Byte>, default: Option<seq<Byte>>)
    : Option<(Option<seq<Byte>>, seq<Byte>)>
  {
    if NextTag(s) != Some(tag) then Some((default, s))
    else
      var r := ReadPrimitive(tag, s);
      if r.None? then None else Some((Some(r.value.0), r.value.1))
  }

  /** d2i_myPROXYPOLICY: the policy and the octets behind it. */
  function ReadPolicy(s: seq<Byte>): Option<(ProxyPolicy, seq<Byte>)> {
    var q := ReadSequence(s);
    if q.None? then None
    else
      var language := ReadPrimitive(OBJECT, q.value.0);
      if language.None? then None
      else
        var first := ReadOptionalString(OCTET_STRING, language.value.1, None);
        if first.None? then None
        else
          var second := ReadOptionalString(CONTEXT_0, first.value.1, first.value.0);
          if second.None? || second.value.1 != [] then None
          else Some((ProxyPolicy(language.value.0, second.value.0), q.value.1))
  }

  /** An INTEGER; OpenSSL refuses one without content. */
  function ReadInteger(s: seq<Byte>): Option<(int, seq<Byte>)> {
    var r := ReadPrimitive(INTEGER, s);
    if r.None? || r.value.0 == [] then None else Some((IntegerValue(r.value.0), r.value.1))
  }

  /** An INTEGER inside an explicit tag [1], if that is next. What the tag holds beyond the
      INTEGER is left to be read. */
  function ReadExplicitInteger(s: seq<Byte>, default: Option<int>): Option<(Option<int>, seq<Byte>)> {
    if s == [] || s[0] != EXPLICIT_1 then Some((default, s))
    else
      var h := ReadHeader(s);
      if h.None? then None
      else
        var r := ReadInteger(s[h.value.start..h.value.end]);
        if r.None? then None else Some((Some(r.value.0), r.value.1 + s[h.value.end..]))
  }

  function ReadOptionalInteger(s: seq<Byte>, default: Option<int>): Option<(Option<int>, seq<Byte>)> {
    if NextTag(s) != Some(INTEGER) then Some((default, s))
    else
      var r := ReadInteger(s);
      if r.None? then None else Some((Some(r.value.0), r.value.1))
  }

  function ReadV3(s: seq<Byte>): Option<(Info, seq<Byte>)> {
    var q := ReadSequence(s);
    if q.None? then None
    else
      var policy := ReadPolicy(q.value.0);
      if policy.None? then None
      else
        var length := ReadExplicitInteger(policy.value.1, None);
        if length.None? || length.value.1 != [] then None
        else Some((Info(3, length.value.0, policy.value.0), q.value.1))
  }

  function ReadV4(s: seq<Byte>): Option<(Info, seq<Byte>)> {
    var q := ReadSequence(s);
    if q.None? then None
    else
      var first := ReadExplicitInteger(q.value.0, None);
      if first.None? then None
      else
        var length := ReadOptionalInteger(first.value.1, first.value.0);
        if length.None? then None
        else
          var policy := ReadPolicy(length.value.1);
          if policy.None? || policy.value.1 != [] then None
          else Some((Info(4, length.value.0, policy.value.0), q.value.1))
  }

  /** d2i_myPROXYCERTINFO: the older format is tried first. */
  function Read(s: seq<Byte>): Option<(Info, seq<Byte>)> {
    var r := ReadV3(s);
    if r.Some? then r else ReadV4(s)
  }

  // ----- the octets themselves

  /** What a short object identifier and a short policy, if any, are written as. */
  function ShortPolicy(p: ProxyPolicy): seq<int> {
    [0x06, |p.language|] + p.language + (if p.policy.Some? then [0x04, |p.policy.value|] + p.policy.value else [])
  }

  lemma {:induction false} ShortPolicyOctets(p: ProxyPolicy)
    requires |p.language| < 50 && (p.policy.Some? ==> |p.policy.value| < 50)
    ensures PolicyOctets(p) == [0x30, |ShortPolicy(p)|] + ShortPolicy(p)
    ensures |ShortPolicy(p)| < 104
  {
  }

  /** The octets of a small value: all four tags, and where each format puts the path length. */
  lemma {:induction false} ShortOctets(x: Info)
    requires |x.policy.language| < 50 && (x.policy.policy.Some? ==> |x.policy.policy.value| < 50)
    requires x.pathLength.Some? ==> 0 <= x.pathLength.value < 128
    ensures var p := [0x30, |ShortPolicy(x.policy)|] + ShortPolicy(x.policy);
      var plain := if x.pathLength.Some? then [0x02, 1, x.pathLength.value] else [];
      var tagged := if x.pathLength.Some? then [0xA1, 3, 0x02, 1, x.pathLength.value] else [];
      && WritableInfo(x)
      && (x.version == 4 ==> Octets(x) == Some([0x30, |plain + p|] + (plain + p)))
      && (x.version == 3 ==> Octets(x) == Some([0x30, |p + tagged|] + (p + tagged)))
      && (x.version != 3 && x.version != 4 ==> Octets(x) == None)
  {
    hide PolicyOctets, ShortPolicy, PolicyContent, Object;
    ShortPolicyOctets(x.policy);
    var p := PolicyOctets(x.policy);
    assert p + [] == p == [] + p;
    if x.pathLength.Some? {
      IntegerForms(x.pathLength.value);
      ShortObject(INTEGER, [x.pathLength.value]);
      ShortObject(EXPLICIT_1, IntegerObject(x.pathLength.value));
    }
    ContentsFit(x);
    ShortObject(SEQUENCE, p + ExplicitPathLength(x));
    ShortObject(SEQUENCE, PlainPathLength(x) + p);
    assert ExplicitPathLength(x) == if x.pathLength.Some? then [0xA1, 3, 0x02, 1, x.pathLength.value] else [];
    assert PlainPathLength(x) == if x.pathLength.Some? then [0x02, 1, x.pathLength.value] else [];
  }

  // ----- the round trip

  lemma {:induction false} ReadSequenceOfObject(content: seq<Byte>, rest: seq<Byte>)
    requires |content| < 0x8000_0000
    ensures ReadSequence(Object(SEQUENCE, content) + rest) == Some((content, rest))
  {
    hide Object;
    ReadHeaderOfObject(SEQUENCE, content, rest);
  }

  lemma {:induction false} ReadPolicyOfOctets(p: ProxyPolicy, rest: seq<Byte>)
    requires Writable(p)
    ensures ReadPolicy(PolicyOctets(p) + rest) == Some((p, rest))
  {
    hide Object, ReadPrimitive, ReadSequence;
    PolicyContentIsShort(p);
    ReadSequenceOfObject(PolicyContent(p), rest);
    if p.policy.None? {
      ReadPrimitiveOfObject(OBJECT, p.language, []);
    } else {
      ReadPrimitiveOfObject(OBJECT, p.language, Object(OCTET_STRING, p.policy.value));
      ReadPrimitiveOfObject(OCTET_STRING, p.policy.value, []);
      assert Object(OCTET_STRING, p.policy.value) + [] == Object(OCTET_STRING, p.policy.value);
    }
  }

  lemma {:induction false} ReadIntegerOfObject(v: int, rest: seq<Byte>)
    requires |IntegerContent(v)| < 0x1000_0000
    ensures ReadInteger(IntegerObject(v) + rest) == Some((v, rest))
    ensures (IntegerObject(v) + rest)[0] == INTEGER
  {
    ReadPrimitiveOfObject(INTEGER, IntegerContent(v), rest);
    IntegerRoundTrip(v);
  }

  lemma {:induction false} ReadV3OfOctets(x: Info, rest: seq<Byte>)
    requires WritableInfo(x)
    ensures ReadV3(V3Octets(x) + rest) == Some((x.(version := 3), rest))
  {
    hide Object, ReadPrimitive, ReadSequence, ReadPolicy, ReadInteger, PolicyOctets, IntegerObject;
    ContentsFit(x);
    SizesFit(x);
    ReadSequenceOfObject(PolicyOctets(x.policy) + ExplicitPathLength(x), rest);
    ReadPolicyOfOctets(x.policy, ExplicitPathLength(x));
    if x.pathLength.Some? {
      var v := IntegerObject(x.pathLength.value);
      ReadHeaderOfObject(EXPLICIT_1, v, []);
      assert Object(EXPLICIT_1, v) + [] == Object(EXPLICIT_1, v);
      ReadPrimitiveOfObject(EXPLICIT_1, v, []);
      ReadIntegerOfObject(x.pathLength.value, []);
      assert v + [] == v;
    }
  }

  lemma {:induction false} PolicyStartsASequence(p: ProxyPolicy, rest: seq<Byte>)
    requires Writable(p)
    ensures (PolicyOctets(p) + rest)[0] == SEQUENCE
  {
  }

  lemma {:induction false} ReadV4OfOctets(x: Info, rest: seq<Byte>)
    requires WritableInfo(x)
    ensures ReadV4(V4Octets(x) + rest) == Some((x.(version := 4), rest))
  {
    hide Object, ReadPrimitive, ReadSequence, ReadPolicy, ReadInteger, PolicyOctets, IntegerObject;
    ContentsFit(x);
    var p := PolicyOctets(x.policy);
    ReadSequenceOfObject(PlainPathLength(x) + p, rest);
    ReadPolicyOfOctets(x.policy, []);
    PolicyStartsASequence(x.policy, []);
    assert p + [] == p;
    if x.pathLength.Some? {
      ReadIntegerOfObject(x.pathLength.value, p);
    } else {
      assert [] + p == p;
    }
  }

  /** Two forms that are read and never written: a policy under the implicit tag [0], and a path
      length with its explicit tag in front of the policy. */
  lemma {:induction false} OtherFormsAreRead(language: seq<Byte>, policy: seq<Byte>, v: int, x: Info, rest: seq<Byte>)
    requires |language| < 0x1000_0000 && |policy| < 0x1000_0000
    requires WritableInfo(x) && x.pathLength.Some?
    ensures var content := Object(0x06, language) + Object(0x80, policy);
      |content| < 0x8000_0000
      && ReadPolicy(Object(0x30, content) + rest) == Some((ProxyPolicy(language, Some(policy)), rest))
    ensures var content := ExplicitPathLength(x) + PolicyOctets(x.policy);
      |content| < 0x8000_0000 && Read(Object(0x30, content) + rest) == Some((x.(version := 4), rest))
  {
    ImplicitPolicyIsRead(language, policy, rest);
    ExplicitPathLengthIsRead(x, rest);
  }

  lemma {:induction false} ImplicitPolicyIsRead(language: seq<Byte>, policy: seq<Byte>, rest: seq<Byte>)
    requires |language| < 0x1000_0000 && |policy| < 0x1000_0000
    ensures var content := Object(0x06, language) + Object(0x80, policy);
      |content| < 0x8000_0000
      && ReadPolicy(Object(0x30, content) + rest) == Some((ProxyPolicy(language, Some(policy)), rest))
  {
    hide Object, ReadPrimitive, ReadSequence;
    BigEndianIsShort(|language|);
    BigEndianIsShort(|policy|);
    var p := Object(0x80, policy);
    ReadSequenceOfObject(Object(0x06, language) + p, rest);
    ReadPrimitiveOfObject(0x06, language, p);
    ReadPrimitiveOfObject(0x80, policy, []);
    assert p + [] == p;
  }

  lemma {:induction false} ExplicitPathLengthIsRead(x: Info, rest: seq<Byte>)
    requires WritableInfo(x) && x.pathLength.Some?
    ensures var content := ExplicitPathLength(x) + PolicyOctets(x.policy);
      |content| < 0x8000_0000 && Read(Object(0x30, content) + rest) == Some((x.(version := 4), rest))
  {
    hide Object, ReadPrimitive, ReadSequence, ReadPolicy, ReadExplicitInteger, PolicyOctets, IntegerObject;
    ContentsFit(x);
    SizesFit(x);
    var p := PolicyOctets(x.policy);
    var v := IntegerObject(x.pathLength.value);
    ReadSequenceOfObject(Object(EXPLICIT_1, v) + p, rest);
    ReadExplicitOfObject(x.pathLength.value, p);
    ReadPolicyOfOctets(x.policy, []);
    assert p + [] == p;
    PolicyStartsASequence(x.policy, []);
    NoPolicyThere(Object(EXPLICIT_1, v) + p);
  }

  lemma {:induction false} ReadExplicitOfObject(v: int, rest: seq<Byte>)
    requires |IntegerContent(v)| < 0x1000_0000 && |IntegerObject(v)| < 0x8000_0000
    ensures var s := Object(EXPLICIT_1, IntegerObject(v)) + rest;
      s[0] == EXPLICIT_1 && ReadExplicitInteger(s, None) == Some((Some(v), rest))
  {
    hide Object, ReadPrimitive, ReadInteger, IntegerObject;
    ReadHeaderOfObject(EXPLICIT_1, IntegerObject(v), rest);
    ReadPrimitiveOfObject(EXPLICIT_1, IntegerObject(v), rest);
    ReadIntegerOfObject(v, []);
    assert IntegerObject(v) + [] == IntegerObject(v) && [] + rest == rest;
  }

  /** How tags are compared: of a sequence only the number, 16, in any class and form; of an optional
      octet string all but the constructed bit, and then that bit too. */
  lemma {:induction false} TagsCompared(tag: Byte, content: seq<Byte>, rest: seq<Byte>)
    requires |content| < 0x8000_0000
    ensures var s := Object(tag, content) + rest;
      && ReadSequence(s) == (if tag % 32 == 16 then Some((content, rest)) else None)
      && ReadOptionalString(0x04, s, None)
         == if tag == 0x04 then Some((Some(content), rest)) else if tag == 0x24 then None else Some((None, s))
  {
    hide Object;
    ReadHeaderOfObject(tag, content, rest);
  }

  /** An explicit tag [1] is not the sequence of a policy. */
  lemma {:induction false} NoPolicyThere(s: seq<Byte>)
    requires s != [] && s[0] == EXPLICIT_1
    ensures ReadPolicy(s) == None
  {
  }

  /** The decoder for the older format refuses a path length in front. */
  lemma {:induction false} V3RefusesV4(x: Info, rest: seq<Byte>)
    requires WritableInfo(x) && x.pathLength.Some?
    ensures ReadV3(V4Octets(x) + rest) == None
  {
    hide Object, ReadPrimitive, PolicyOctets;
    ContentsFit(x);
    var p := PolicyOctets(x.policy);
    var s := PlainPathLength(x) + p;
    ReadSequenceOfObject(s, rest);
    ReadIntegerOfObject(x.pathLength.value, p);
    assert s[0] == INTEGER;
    assert ReadSequence(s).None?;
  }

  /** Reading gives back path length and policy, whatever follows; and the version as well,
      just unless it was 4 and no path length was there to show it. */
  lemma {:induction false} RoundTrip(x: Info, rest: seq<Byte>)
    requires WritableInfo(x) && Octets(x).Some?
    ensures var r := Read(Octets(x).value + rest);
      && r.Some?
      && r.value.1 == rest
      && r.value.0.pathLength == x.pathLength
      && r.value.0.policy == x.policy
      && (r.value.0.version == x.version <==> !(x.version == 4 && x.pathLength.None?))
  {
    hide ReadV3, ReadV4, PolicyOctets, Object, IntegerObject;
    if x.version == 3 {
      ReadV3OfOctets(x, rest);
    } else if x.pathLength.Some? {
      V3RefusesV4(x, rest);
      ReadV4OfOctets(x, rest);
    } else {
      assert PlainPathLength(x) + PolicyOctets(x.policy) == PolicyOctets(x.policy) + ExplicitPathLength(x);
      ReadV3OfOctets(x, rest);
    }
  }

  // ----- writing into a buffer

  /** The octets x were written at position p, and nothing else was. */
  ghost predicate Wrote(before: seq<Byte>, after: seq<Byte>, p: nat, x: seq<Byte>) {
    p + |x| <= |before| && after == before[..p] + x + before[p + |x|..]
  }

  lemma {:induction false} WroteTwice(s: seq<Byte>, t: seq<Byte>, u: seq<Byte>, p: nat, x: seq<Byte>, y: seq<Byte>)
    requires Wrote(s, t, p, x) && p + |x| + |y| <= |s| && Wrote(t, u, p + |x|, y)
    ensures Wrote(s, u, p, x + y)
  {
    assert t[..p + |x|] == s[..p] + x;
    assert t[p + |x| + |y|..] == s[p + |x| + |y|..];
    assert s[..p] + x + y == s[..p] + (x + y);
  }

  lemma {:induction false} NothingWritten(s: seq<Byte>, p: nat)
    requires p <= |s|
    ensures Wrote(s, s, p, [])
  {
    assert s == s[..p] + [] + s[p..];
  }

  lemma {:induction false} WroteOneMore(s: seq<Byte>, t: seq<Byte>, p: nat, x: seq<Byte>, i: nat)
    requires i < |x| && p + |x| <= |s| && Wrote(s, t, p, x[..i])
    ensures |t| == |s| && Wrote(s, t[p + i := x[i]], p, x[..i + 1])
  {
    assert t == s[..p] + x[..i] + [s[p + i]] + s[p + i + 1..];
    assert t[p + i := x[i]] == s[..p] + x[..i] + [x[i]] + s[p + i + 1..];
    assert x[..i + 1] == x[..i] + [x[i]];
  }

  method Put(x: seq<Byte>, buf: array<Byte>, p: nat) returns (p': nat)
    requires p + |x| <= buf.Length
    modifies buf
    ensures p' == p + |x| && Wrote(old(buf[..]), buf[..], p, x)
  {
    hide Wrote;
    ghost var start := buf[..];
    NothingWritten(start, p);
    assert x[..0] == [];
    for i := 0 to |x|
      invariant Wrote(start, buf[..], p, x[..i])
    {
      WroteOneMore(start, buf[..], p, x, i);
      buf[p + i] := x[i];
    }
    assert x[..|x|] == x;
    p' := p + |x|;
  }

  /** ASN1_put_object: tag and length of an object. */
  function HeaderOctets(tag: Byte, length: Length): seq<Byte> {
    [tag] + LengthOctets(length)
  }

  lemma {:induction false} HeaderThenContent(tag: Byte, content: seq<Byte>)
    requires |content| < 0x8000_0000
    ensures Object(tag, content) == HeaderOctets(tag, |content|) + content
    ensures |HeaderOctets(tag, |content|)| + |content| == ObjectSize(|content|)
  {
  }

  /** i2d_myPROXYPOLICY: without a buffer it only counts; with one it writes just as many
      octets as it counts. */
  method I2dPolicy(a: ProxyPolicy, buf: array?<Byte>, p: nat) returns (r: nat)
    requires Writable(a)
    requires buf != null ==> p + |PolicyOctets(a)| <= buf.Length
    modifies buf
    ensures r == |PolicyOctets(a)|
    ensures buf != null ==> Wrote(old(buf[..]), buf[..], p, PolicyOctets(a))
  {
    hide Object, Wrote, HeaderOctets;
    PolicyContentIsShort(a);
    var ret := ObjectSize(|a.language|);
    if a.policy.Some? {
      ret := ret + ObjectSize(|a.policy.value|);
    }
    r := ObjectSize(ret);
    if buf == null {
      return;
    }
    HeaderThenContent(SEQUENCE, PolicyContent(a));
    WritePolicy(a, ret, buf, p);
  }

  /** Puts y behind the octets x that have been written since the buffer held s0. */
  method PutMore(y: seq<Byte>, buf: array<Byte>, q: nat, ghost p: nat, ghost s0: seq<Byte>, ghost x: seq<Byte>)
    returns (q': nat)
    requires Wrote(s0, buf[..], p, x) && q == p + |x| && q + |y| <= buf.Length
    modifies buf
    ensures q' == q + |y| && Wrote(s0, buf[..], p, x + y)
  {
    hide Wrote;
    ghost var s1 := buf[..];
    SameSize(s0, s1, p, x);
    q' := Put(y, buf, q);
    WroteTwice(s0, s1, buf[..], p, x, y);
  }

  lemma {:induction false} SameSize(s: seq<Byte>, t: seq<Byte>, p: nat, x: seq<Byte>)
    requires Wrote(s, t, p, x)
    ensures |s| == |t|
  {
  }

  method WritePolicy(a: ProxyPolicy, ret: Length, buf: array<Byte>, p: nat)
    requires Writable(a) && ret == |PolicyContent(a)|
    requires PolicyOctets(a) == HeaderOctets(SEQUENCE, ret) + PolicyContent(a)
    requires p + |PolicyOctets(a)| <= buf.Length
    modifies buf
    ensures Wrote(old(buf[..]), buf[..], p, PolicyOctets(a))
  {
    hide *;
    PolicyParts(a);
    ghost var s0 := buf[..];
    ghost var x, y := HeaderOctets(SEQUENCE, ret), Object(OBJECT, a.language);
    var q := Put(HeaderOctets(SEQUENCE, ret), buf, p);
    q := PutMore(Object(OBJECT, a.language), buf, q, p, s0, x);
    if a.policy.Some? {
      ghost var z := Object(OCTET_STRING, a.policy.value);
      Regroup(x, y, z);
      q := PutMore(Object(OCTET_STRING, a.policy.value), buf, q, p, s0, x + y);
    }
  }

  lemma {:induction false} PolicyParts(a: ProxyPolicy)
    requires Writable(a)
    ensures |a.language| < 0x8000_0000 && (a.policy.Some? ==> |a.policy.value| < 0x8000_0000)
    ensures PolicyContent(a) == if a.policy.Some? then Object(OBJECT, a.language) + Object(OCTET_STRING, a.policy.value)
                                else Object(OBJECT, a.language)
  {
  }

  /** Puts a policy behind the octets x that have been written since the buffer held s0. */
  method PutPolicy(a: ProxyPolicy, buf: array<Byte>, q: nat, ghost p: nat, ghost s0: seq<Byte>, ghost x: seq<Byte>)
    returns (q': nat)
    requires Writable(a) && Wrote(s0, buf[..], p, x) && q == p + |x| && q + |PolicyOctets(a)| <= buf.Length
    modifies buf
    ensures q' == q + |PolicyOctets(a)| && Wrote(s0, buf[..], p, x + PolicyOctets(a))
  {
    hide *;
    ghost var s1 := buf[..];
    SameSize(s0, s1, p, x);
    var n := I2dPolicy(a, buf, q);
    WroteTwice(s0, s1, buf[..], p, x, PolicyOctets(a));
    q' := q + n;
  }

  method I2dV3(a: Info, buf: array?<Byte>, p: nat) returns (r: nat)
    requires WritableInfo(a)
    requires buf != null ==> p + |V3Octets(a)| <= buf.Length
    modifies buf
    ensures r == |V3Octets(a)|
    ensures buf != null ==> Wrote(old(buf[..]), buf[..], p, V3Octets(a))
  {
    hide Object, Wrote, HeaderOctets, PolicyOctets, IntegerObject, WritableInfo, Writable;
    MayWrite(a);
    SizesFit(a);
    ContentsFit(a);
    var ret := I2dPolicy(a.policy, null, 0);
    if a.pathLength.Some? {
      ret := ret + ObjectSize(|IntegerObject(a.pathLength.value)|);
    }
    r := ObjectSize(ret);
    if buf == null {
      return;
    }
    HeaderThenContent(SEQUENCE, PolicyOctets(a.policy) + ExplicitPathLength(a));
    WriteV3(a, ret, buf, p);
  }

  method WriteV3(a: Info, ret: Length, buf: array<Byte>, p: nat)
    requires WritableInfo(a) && ret == |PolicyOctets(a.policy)| + |ExplicitPathLength(a)|
    requires V3Octets(a) == HeaderOctets(SEQUENCE, ret) + (PolicyOctets(a.policy) + ExplicitPathLength(a))
    requires p + |V3Octets(a)| <= buf.Length
    modifies buf
    ensures Wrote(old(buf[..]), buf[..], p, V3Octets(a))
  {
    hide *;
    MayWrite(a);
    PathLengthOctets(a);
    ghost var s0 := buf[..];
    ghost var x, y := HeaderOctets(SEQUENCE, ret), PolicyOctets(a.policy);
    Regroup(x, y, ExplicitPathLength(a));
    var q := Put(HeaderOctets(SEQUENCE, ret), buf, p);
    q := PutPolicy(a.policy, buf, q, p, s0, x);
    if a.pathLength.Some? {
      q := PutMore(Object(EXPLICIT_1, IntegerObject(a.pathLength.value)), buf, q, p, s0, x + y);
    }
  }

  method I2dV4(a: Info, buf: array?<Byte>, p: nat) returns (r: nat)
    requires WritableInfo(a)
    requires buf != null ==> p + |V4Octets(a)| <= buf.Length
    modifies buf
    ensures r == |V4Octets(a)|
    ensures buf != null ==> Wrote(old(buf[..]), buf[..], p, V4Octets(a))
  {
    hide Object, Wrote, HeaderOctets, PolicyOctets, IntegerObject, WritableInfo, Writable;
    MayWrite(a);
    SizesFit(a);
    ContentsFit(a);
    var ret := 0;
    if a.pathLength.Some? {
      ret := ret + |IntegerObject(a.pathLength.value)|;
    }
    var n := I2dPolicy(a.policy, null, 0);
    ret := ret + n;
    r := ObjectSize(ret);
    if buf == null {
      return;
    }
    HeaderThenContent(SEQUENCE, PlainPathLength(a) + PolicyOctets(a.policy));
    WriteV4(a, ret, buf, p);
  }

  /** The writing pass, once the length of the content is known. */
  method WriteV4(a: Info, ret: Length, buf: array<Byte>, p: nat)
    requires WritableInfo(a) && ret == |PlainPathLength(a)| + |PolicyOctets(a.policy)|
    requires V4Octets(a) == HeaderOctets(SEQUENCE, ret) + (PlainPathLength(a) + PolicyOctets(a.policy))
    requires p + |V4Octets(a)| <= buf.Length
    modifies buf
    ensures Wrote(old(buf[..]), buf[..], p, V4Octets(a))
  {
    hide *;
    MayWrite(a);
    PathLengthOctets(a);
    ghost var s0 := buf[..];
    ghost var x := HeaderOctets(SEQUENCE, ret);
    Regroup(x, PlainPathLength(a), PolicyOctets(a.policy));
    var q := Put(HeaderOctets(SEQUENCE, ret), buf, p);
    if a.pathLength.Some? {
      q := PutMore(IntegerObject(a.pathLength.value), buf, q, p, s0, x);
    }
    q := PutPolicy(a.policy, buf, q, p, s0, x + PlainPathLength(a));
  }

  lemma {:induction false} PathLengthOctets(a: Info)
    requires WritableInfo(a)
    ensures PlainPathLength(a) == if a.pathLength.Some? then IntegerObject(a.pathLength.value) else []
    ensures a.pathLength.None? ==> ExplicitPathLength(a) == []
    ensures a.pathLength.Some? ==> |IntegerObject(a.pathLength.value)| < 0x8000_0000
                                   && ExplicitPathLength(a) == Object(EXPLICIT_1, IntegerObject(a.pathLength.value))
  {
    SizesFit(a);
  }

  lemma {:induction false} Regroup(x: seq<Byte>, y: seq<Byte>, z: seq<Byte>)
    ensures x + (y + z) == x + y + z
    ensures y == [] ==> x + y == x
    ensures z == [] ==> x + y + z == x + y
  {
  }

  lemma {:induction false} MayWrite(a: Info)
    requires WritableInfo(a)
    ensures Writable(a.policy)
    ensures a.pathLength.Some? ==> |IntegerContent(a.pathLength.value)| < 0x1000_0000
  {
  }

  /** i2d_myPROXYCERTINFO: -1 for an unknown version, and otherwise the number of octets, which
      are written if there is a buffer. */
  method I2d(a: Info, buf: array?<Byte>, p: nat) returns (r: int)
    requires WritableInfo(a)
    requires buf != null && Octets(a).Some? ==> p + |Octets(a).value| <= buf.Length
    modifies buf
    ensures Octets(a).None? ==> r == -1 && (buf != null ==> buf[..] == old(buf[..]))
    ensures Octets(a).Some? ==> r == |Octets(a).value|
    ensures Octets(a).Some? && buf != null ==> Wrote(old(buf[..]), buf[..], p, Octets(a).value)
  {
    hide WritableInfo, V3Octets, V4Octets, Wrote;
    if a.version == 3 {
      r := I2dV3(a, buf, p);
    } else if a.version == 4 {
      r := I2dV4(a, buf, p);
    } else {
      r := -1;
    }
  }
}
