/** The decoders of the ProxyCertInfo extension as they run: over a buffer, with a position that
    moves (src/sslutils/proxycertinfo.c:153-174, 325-368). */
module ProxyCertInfoReading {
  import opened Options
  import opened Der
  import opened ProxyCertInfo

  /** What lies between two positions of the buffer is `s`. */
  ghost predicate Left(buf: array<Byte>, p: nat, stop: nat, s: seq<Byte>)
    reads buf
  {
    p <= stop <= buf.Length && buf[p..stop] == s
  }

  /** A header at position p, in positions of the buffer. */
  method GetHeader(buf: array<Byte>, p: nat, stop: nat) returns (tag: Byte, start: nat, end: nat, ok: bool)
    requires p <= stop <= buf.Length
    ensures ok <==> ReadHeader(buf[p..stop]).Some?
    ensures ok ==> p < start <= end <= stop && ReadHeader(buf[p..stop]) == Some(Header(tag, start - p, end - p))
  {
    var h := ReadHeader(buf[p..stop]);
    if h.None? {
      return 0, p, p, false;
    }
    return h.value.tag, p + h.value.start, p + h.value.end, true;
  }

  method GetPrimitive(tag: Byte, buf: array<Byte>, p: nat, stop: nat) returns (content: Option<seq<Byte>>, p': nat)
    requires p <= stop <= buf.Length
    ensures content.Some? <==> ReadPrimitive(tag, buf[p..stop]).Some?
    ensures content.Some? ==> content.value == ReadPrimitive(tag, buf[p..stop]).value.0
                              && Left(buf, p', stop, ReadPrimitive(tag, buf[p..stop]).value.1)
  {
    var found, start, end, ok := GetHeader(buf, p, stop);
    if !ok || found != tag {
      return None, p;
    }
    return Some(buf[start..end]), end;
  }

  method GetOptionalString(tag: Byte, default: Option<seq<Byte>>, buf: array<Byte>, p: nat, stop: nat)
    returns (content: Option<seq<Byte>>, p': nat, ok: bool)
    requires p <= stop <= buf.Length
    ensures ok <==> ReadOptionalString(tag, buf[p..stop], default).Some?
    ensures ok ==> content == ReadOptionalString(tag, buf[p..stop], default).value.0
                   && Left(buf, p', stop, ReadOptionalString(tag, buf[p..stop], default).value.1)
  {
    hide ReadPrimitive;
    if p == stop || (if buf[p] / 32 % 2 == 1 then buf[p] - 32 else buf[p]) != tag {
      return default, p, true;
    }
    content, p' := GetPrimitive(tag, buf, p, stop);
    ok := content.Some?;
  }

  method GetInteger(buf: array<Byte>, p: nat, stop: nat) returns (v: Option<int>, p': nat)
    requires p <= stop <= buf.Length
    ensures v.Some? <==> ReadInteger(buf[p..stop]).Some?
    ensures v.Some? ==> v.value == ReadInteger(buf[p..stop]).value.0
                        && Left(buf, p', stop, ReadInteger(buf[p..stop]).value.1)
  {
    hide ReadPrimitive;
    var content, q := GetPrimitive(INTEGER, buf, p, stop);
    if content.None? || content.value == [] {
      return None, p;
    }
    return Some(IntegerValue(content.value)), q;
  }

  /** The macro for an explicit tag leaves the position behind the INTEGER it read. */
  method GetExplicitInteger(default: Option<int>, buf: array<Byte>, p: nat, stop: nat)
    returns (v: Option<int>, p': nat, ok: bool)
    requires p <= stop <= buf.Length
    ensures ok <==> ReadExplicitInteger(buf[p..stop], default).Some?
    ensures ok ==> v == ReadExplicitInteger(buf[p..stop], default).value.0
                   && Left(buf, p', stop, ReadExplicitInteger(buf[p..stop], default).value.1)
  {
    hide ReadInteger;
    if p == stop || buf[p] != EXPLICIT_1 {
      return default, p, true;
    }
    var _, start, end, found := GetHeader(buf, p, stop);
    if !found {
      return default, p, false;
    }
    v, p' := GetInteger(buf, start, end);
    assert buf[p..stop][start - p..end - p] == buf[start..end];
    ok := v.Some?;
    assert ok ==> buf[p'..stop] == buf[p'..end] + buf[p..stop][end - p..];
  }

  method GetOptionalInteger(default: Option<int>, buf: array<Byte>, p: nat, stop: nat)
    returns (v: Option<int>, p': nat, ok: bool)
    requires p <= stop <= buf.Length
    ensures ok <==> ReadOptionalInteger(buf[p..stop], default).Some?
    ensures ok ==> v == ReadOptionalInteger(buf[p..stop], default).value.0
                   && Left(buf, p', stop, ReadOptionalInteger(buf[p..stop], default).value.1)
  {
    hide ReadInteger;
    if p == stop || (if buf[p] / 32 % 2 == 1 then buf[p] - 32 else buf[p]) != INTEGER {
      return default, p, true;
    }
    v, p' := GetInteger(buf, p, stop);
    ok := v.Some?;
  }

  /** M_ASN1_D2I_start_sequence: where the content of a sequence starts and ends. */
  method StartSequence(buf: array<Byte>, p: nat, stop: nat) returns (start: nat, end: nat, ok: bool)
    requires p <= stop <= buf.Length
    ensures ok <==> ReadSequence(buf[p..stop]).Some?
    ensures ok ==> p <= start <= end <= stop
                   && buf[start..end] == ReadSequence(buf[p..stop]).value.0
                   && buf[end..stop] == ReadSequence(buf[p..stop]).value.1
  {
    var tag: Byte;
    tag, start, end, ok := GetHeader(buf, p, stop);
    if ok {
      assert buf[p..stop][start - p..end - p] == buf[start..end];
      assert buf[p..stop][end - p..] == buf[end..stop];
      ok := tag % 32 == SEQUENCE % 32;
    }
  }

  /** d2i_myPROXYPOLICY. */
  method D2iPolicy(buf: array<Byte>, p: nat, stop: nat) returns (ret: Option<ProxyPolicy>, p': nat)
    requires p <= stop <= buf.Length
    ensures ret.Some? <==> ReadPolicy(buf[p..stop]).Some?
    ensures ret.None? ==> p' == p
    ensures ret.Some? ==> ret.value == ReadPolicy(buf[p..stop]).value.0
                          && Left(buf, p', stop, ReadPolicy(buf[p..stop]).value.1)
  {
    hide ReadSequence, ReadPrimitive, ReadOptionalString;
    var start, end, ok := StartSequence(buf, p, stop);
    if !ok {
      return None, p;
    }
    var language, q := GetPrimitive(OBJECT, buf, start, end);
    if language.None? {
      return None, p;
    }
    var policy: Option<seq<Byte>>;
    policy, q, ok := GetOptionalString(OCTET_STRING, None, buf, q, end);
    if !ok {
      return None, p;
    }
    policy, q, ok := GetOptionalString(CONTEXT_0, policy, buf, q, end);
    if !ok || q != end {
      return None, p;
    }
    return Some(ProxyPolicy(language.value, policy)), end;
  }

  /** d2i_myPROXYCERTINFO_v3. */
  method D2iV3(buf: array<Byte>, p: nat, stop: nat) returns (ret: Option<Info>, p': nat)
    requires p <= stop <= buf.Length
    ensures ret.Some? <==> ReadV3(buf[p..stop]).Some?
    ensures ret.None? ==> p' == p
    ensures ret.Some? ==> ret.value == ReadV3(buf[p..stop]).value.0 && Left(buf, p', stop, ReadV3(buf[p..stop]).value.1)
  {
    hide ReadSequence, ReadPolicy, ReadExplicitInteger;
    var start, end, ok := StartSequence(buf, p, stop);
    if !ok {
      return None, p;
    }
    var policy, q := D2iPolicy(buf, start, end);
    if policy.None? {
      return None, p;
    }
    var length: Option<int>;
    length, q, ok := GetExplicitInteger(None, buf, q, end);
    if !ok || q != end {
      return None, p;
    }
    return Some(Info(3, length, policy.value)), end;
  }

  /** d2i_myPROXYCERTINFO_v4. */
  method D2iV4(buf: array<Byte>, p: nat, stop: nat) returns (ret: Option<Info>, p': nat)
    requires p <= stop <= buf.Length
    ensures ret.Some? <==> ReadV4(buf[p..stop]).Some?
    ensures ret.None? ==> p' == p
    ensures ret.Some? ==> ret.value == ReadV4(buf[p..stop]).value.0 && Left(buf, p', stop, ReadV4(buf[p..stop]).value.1)
  {
    hide ReadSequence, ReadPolicy, ReadExplicitInteger, ReadOptionalInteger;
    var start, end, ok := StartSequence(buf, p, stop);
    if !ok {
      return None, p;
    }
    var length, q;
    length, q, ok := GetExplicitInteger(None, buf, start, end);
    if !ok {
      return None, p;
    }
    length, q, ok := GetOptionalInteger(length, buf, q, end);
    if !ok {
      return None, p;
    }
    var policy: Option<ProxyPolicy>;
    policy, q := D2iPolicy(buf, q, end);
    if policy.None? || q != end {
      return None, p;
    }
    return Some(Info(4, length, policy.value)), end;
  }

  /** d2i_myPROXYCERTINFO. */
  method D2i(buf: array<Byte>, p: nat, stop: nat) returns (ret: Option<Info>, p': nat)
    requires p <= stop <= buf.Length
    ensures ret.Some? <==> Read(buf[p..stop]).Some?
    ensures ret.None? ==> p' == p
    ensures ret.Some? ==> ret.value == Read(buf[p..stop]).value.0 && Left(buf, p', stop, Read(buf[p..stop]).value.1)
  {
    hide ReadV3, ReadV4;
    ret, p' := D2iV3(buf, p, stop);
    if ret.None? {
      ret, p' := D2iV4(buf, p, stop);
    }
  }

  /** Written into a buffer and read from it, path length and policy come back, and the position
      is behind what was written; the version comes back unless it was 4 without a path length. */
  method WriteThenRead(a: Info, buf: array<Byte>, p: nat) returns (ret: Option<Info>, p': nat)
    requires WritableInfo(a) && Octets(a).Some? && p + |Octets(a).value| <= buf.Length
    modifies buf
    ensures ret.Some? && ret.value.pathLength == a.pathLength && ret.value.policy == a.policy
    ensures ret.value.version == a.version <==> !(a.version == 4 && a.pathLength.None?)
    ensures p' == p + |Octets(a).value|
  {
    hide Octets, Read, WritableInfo;
    ghost var octets := Octets(a).value;
    var n := I2d(a, buf, p);
    RoundTrip(a, buf[p + n..]);
    assert buf[p..buf.Length] == octets + buf[p + n..];
    ret, p' := D2i(buf, p, buf.Length);
  }
}
