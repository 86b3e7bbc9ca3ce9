/**
 The distinguished encoding rules the ASN.1 code relies on: tag, definite length and contents
 (ITU-T X.690, sections 8.1 and 10.1), with the contents of INTEGER in two's complement
 (section 8.3).
 */
module Der {
  import opened Options

  type Byte = b: int | 0 <= b < 256

  const INTEGER: Byte := 0x02
  const OCTET_STRING: Byte := 0x04
  const OBJECT: Byte := 0x06
  const SEQUENCE: Byte := 0x30
  const CONTEXT_0: Byte := 0x80
  const EXPLICIT_1: Byte := 0xA1

  /** A length, in the range of a C int. */
  type Length = n: nat | n < 0x8000_0000

  // ----- lengths

  function BigEndian(n: nat): (r: seq<Byte>)
    ensures r != []
  {
    if n < 256 then [n] else BigEndian(n / 256) + [n % 256]
  }

  function BigEndianValue(s: seq<Byte>): nat {
    if s == [] then 0 else 256 * BigEndianValue(s[..|s| - 1]) + s[|s| - 1]
  }

  lemma {:induction false} BigEndianRoundTrip(n: nat)
    ensures BigEndianValue(BigEndian(n)) == n
  {
    if n >= 256 {
      BigEndianRoundTrip(n / 256);
      assert BigEndian(n)[..|BigEndian(n)| - 1] == BigEndian(n / 256);
    } else {
      assert [n][..0] == [];
    }
  }

  lemma {:induction false} BigEndianIsShort(n: Length)
    ensures |BigEndian(n)| <= 4
  {
    var n1 := n / 256;
    var n2 := n1 / 256;
    var n3 := n2 / 256;
    assert n3 < 256 && |BigEndian(n3)| == 1;
    assert |BigEndian(n2)| <= 2;
    assert |BigEndian(n1)| <= 3;
  }

  function LengthOctets(n: Length): (r: seq<Byte>) {
    BigEndianIsShort(n);
    if n < 128 then [n] else [128 + |BigEndian(n)|] + BigEndian(n)
  }

  /** The two forms of a length: one octet below 128, and otherwise the number of octets that
      follow, most significant first. */
  lemma {:induction false} LengthForms(n: Length)
    ensures n < 128 ==> LengthOctets(n) == [n]
    ensures 128 <= n < 0x100 ==> LengthOctets(n) == [0x81, n]
    ensures 0x100 <= n < 0x1_0000 ==> LengthOctets(n) == [0x82, n / 0x100, n % 0x100]
  {
    if 0x100 <= n < 0x1_0000 {
      assert BigEndian(n) == BigEndian(n / 256) + [n % 256] == [n / 256, n % 256];
    }
  }

  /** How many octets an object with n content octets takes. */
  function ObjectSize(n: Length): nat {
    1 + |LengthOctets(n)| + n
  }

  // ----- objects

  function Object(tag: Byte, content: seq<Byte>): (r: seq<Byte>)
    requires |content| < 0x8000_0000
    ensures |r| == ObjectSize(|content|)
  {
    [tag] + LengthOctets(|content|) + content
  }

  lemma {:induction false} ShortObject(tag: Byte, content: seq<Byte>)
    requires |content| < 128
    ensures Object(tag, content) == [tag, |content|] + content
  {
    LengthForms(|content|);
  }

  /** An object at the front of some octets: its tag, where its content starts and ends. */
  datatype Header = Header(tag: Byte, start: nat, end: nat)

  /** Reads a tag and a definite length of at most eight octets; None when the octets do not
      hold a whole object. */
  function ReadHeader(s: seq<Byte>): (h: Option<Header>)
    ensures h.Some? ==> 2 <= h.value.start <= h.value.end <= |s| && h.value.tag == s[0]
  {
    if |s| < 2 || s[1] == 128 then None
    else
      var k := if s[1] < 128 then 0 else s[1] - 128;
      if k > 8 || |s| < 2 + k then None
      else
        var len := if s[1] < 128 then s[1] else BigEndianValue(s[2..2 + k]);
        if 2 + k + len > |s| then None else Some(Header(s[0], 2 + k, 2 + k + len))
  }

  lemma {:induction false} ReadHeaderOfObject(tag: Byte, content: seq<Byte>, rest: seq<Byte>)
    requires |content| < 0x8000_0000
    ensures var s := Object(tag, content) + rest;
      var n := ObjectSize(|content|);
      ReadHeader(s) == Some(Header(tag, n - |content|, n)) && s[n - |content|..n] == content && s[n..] == rest
  {
    var s := Object(tag, content) + rest;
    var be := BigEndian(|content|);
    BigEndianIsShort(|content|);
    if |content| >= 128 {
      assert s[1] == 128 + |be| && s[2..2 + |be|] == be;
      BigEndianRoundTrip(|content|);
    }
  }

  /** A primitive object with the given tag at the front of s: its content and what follows. */
  function ReadPrimitive(tag: Byte, s: seq<Byte>): Option<(seq<Byte>, seq<Byte>)> {
    var h := ReadHeader(s);
    if h.None? || h.value.tag != tag then None
    else Some((s[h.value.start..h.value.end], s[h.value.end..]))
  }

  lemma {:induction false} ReadPrimitiveOfObject(tag: Byte, content: seq<Byte>, rest: seq<Byte>)
    requires |content| < 0x8000_0000
    ensures ReadPrimitive(tag, Object(tag, content) + rest) == Some((content, rest))
    ensures (Object(tag, content) + rest)[0] == tag
  {
    ReadHeaderOfObject(tag, content, rest);
  }

  // ----- integers

  function IntegerContent(v: int): (r: seq<Byte>)
    ensures r != []
    decreases if v < 0 then -v else v
  {
    if -128 <= v < 128 then [v % 256] else IntegerContent(v / 256) + [v % 256]
  }

  function IntegerValue(s: seq<Byte>): int
    requires s != []
  {
    if |s| == 1 then (if s[0] < 128 then s[0] else s[0] - 256)
    else 256 * IntegerValue(s[..|s| - 1]) + s[|s| - 1]
  }

  lemma {:induction false} IntegerRoundTrip(v: int)
    ensures IntegerValue(IntegerContent(v)) == v
    decreases if v < 0 then -v else v
  {
    if !(-128 <= v < 128) {
      IntegerRoundTrip(v / 256);
      assert IntegerContent(v)[..|IntegerContent(v)| - 1] == IntegerContent(v / 256);
    }
  }

  /** Two's complement, in as few octets as the sign allows (sections 8.3.2 and 8.3.3). */
  lemma {:induction false} IntegerForms(v: int)
    ensures 0 <= v < 0x80 ==> IntegerContent(v) == [v]
    ensures 0x80 <= v < 0x8000 ==> IntegerContent(v) == [v / 0x100, v % 0x100]
    ensures -0x80 <= v < 0 ==> IntegerContent(v) == [v + 0x100]
    ensures -0x8000 <= v < -0x80 ==> IntegerContent(v) == [v / 0x100 + 0x100, v % 0x100]
  {
    if -0x8000 <= v < 0x8000 && !(-128 <= v < 128) {
      assert IntegerContent(v) == IntegerContent(v / 256) + [v % 256];
    }
  }
}
