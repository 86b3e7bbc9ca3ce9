/**
 The 6-bit text codec of the answers (src/common/xmlcc.cc:66-85, 148-265, 301-318). Bytes are
 the values 0..255 that the C masks select from a char; shifts and masks by powers of two are
 written with / and %.
 */
module Codec {
  import opened Xml

  type Byte = b: int | 0 <= b < 256
  type Sextet = b: int | 0 <= b < 64

  // ----- the alphabet

  /** The table `trans`. */
  function Trans(k: Sextet): (c: char)
    ensures InAlphabet(c)
  {
    if k < 26 then ('a' as int + k) as char
    else if k < 52 then ('A' as int + (k - 26)) as char
    else if k < 62 then ('0' as int + (k - 52)) as char
    else if k == 62 then '['
    else ']'
  }

  predicate InAlphabet(c: char) {
    'a' <= c <= 'z' || 'A' <= c <= 'Z' || '0' <= c <= '9' || c == '[' || c == ']'
  }

  /** The table `trans2`, which has an entry for each of the 128 ASCII characters. */
  function Trans2(c: char): Sextet
    requires c as int < 128
  {
    if 'a' <= c <= 'z' then c as int - 'a' as int
    else if 'A' <= c <= 'Z' then c as int - 'A' as int + 26
    else if '0' <= c <= '9' then c as int - '0' as int + 52
    else if c == '[' then 62
    else if c == ']' then 63
    else 0
  }

  function Letters(v: seq<Sextet>): (s: string)
    ensures |s| == |v|
    ensures forall i :: 0 <= i < |s| ==> InAlphabet(s[i])
  {
    seq(|v|, i requires 0 <= i < |v| => Trans(v[i]))
  }

  function Values(s: string): (v: seq<Sextet>)
    requires IsAscii(s)
    ensures |v| == |s|
  {
    seq(|s|, i requires 0 <= i < |s| => Trans2(s[i]))
  }

  lemma {:induction false} ValuesOfLetters(v: seq<Sextet>)
    ensures IsAscii(Letters(v)) && Values(Letters(v)) == v
  {
    forall i | 0 <= i < |v| ensures Trans2(Trans(v[i])) == v[i] {}
  }

  /** The order of the alphabet: three runs of consecutive characters and two brackets. Any other
      character counts as zero. */
  lemma {:induction false} AlphabetOrder(k: Sextet, c: char)
    ensures Letters([0, 25, 26, 51, 52, 61, 62, 63]) == "azAZ09[]"
    ensures k !in [25, 51, 61, 62, 63] ==> Trans(k + 1) as int == Trans(k) as int + 1
    ensures c as int < 128 && (forall j: Sextet :: c != Trans(j)) ==> Trans2(c) == 0
  {
    if c as int < 128 && Trans2(c) != 0 {
      assert c == Trans(Trans2(c));
    }
    var v: seq<Sextet> := [0, 25, 26, 51, 52, 61, 62, 63];
    assert Letters(v) == [Trans(0), Trans(25), Trans(26), Trans(51), Trans(52), Trans(61), Trans(62), Trans(63)];
  }

  // ----- what the codec means: the bits of the data, most significant first

  function Pow2(n: nat): (p: nat)
    ensures p > 0
  {
    if n == 0 then 1 else 2 * Pow2(n - 1)
  }

  /** The n low-order bits of v. */
  function Bits(v: nat, n: nat): (r: seq<bool>)
    ensures |r| == n
  {
    if n == 0 then [] else Bits(v / 2, n - 1) + [v % 2 == 1]
  }

  lemma {:induction false} Halve(x: nat, p: nat, y: nat)
    ensures (x * (2 * p) + y) / 2 == x * p + y / 2 && (x * (2 * p) + y) % 2 == y % 2
  {
    assert x * (2 * p) == 2 * (x * p);
  }

  lemma {:induction false} BitsJoin(x: nat, m: nat, y: nat, k: nat)
    requires y < Pow2(k)
    ensures Bits(x * Pow2(k) + y, m + k) == Bits(x, m) + Bits(y, k)
  {
    if k > 0 {
      BitsJoin(x, m, y / 2, k - 1);
      Halve(x, Pow2(k - 1), y);
      assert Bits(x, m) + Bits(y, k) == Bits(x, m) + Bits(y / 2, k - 1) + [y % 2 == 1];
    }
  }

  lemma {:induction false} BitsInjective(a: nat, b: nat, n: nat)
    requires a < Pow2(n) && b < Pow2(n) && Bits(a, n) == Bits(b, n)
    ensures a == b
  {
    if n > 0 {
      assert Bits(a, n)[..n - 1] == Bits(a / 2, n - 1) && Bits(b, n)[..n - 1] == Bits(b / 2, n - 1);
      assert Bits(a, n)[n - 1] == (a % 2 == 1) && Bits(b, n)[n - 1] == (b % 2 == 1);
      BitsInjective(a / 2, b / 2, n - 1);
    }
  }

  function ByteBits(d: seq<Byte>): (r: seq<bool>)
    ensures |r| == 8 * |d|
  {
    if d == [] then [] else Bits(d[0], 8) + ByteBits(d[1..])
  }

  function SextetBits(v: seq<Sextet>): (r: seq<bool>)
    ensures |r| == 6 * |v|
  {
    if v == [] then [] else Bits(v[0], 6) + SextetBits(v[1..])
  }

  function Zeros(n: nat): (r: seq<bool>)
    ensures |r| == n
  {
    seq(n, _ => false)
  }

  /** Filled up with zeros to a multiple of six bits. */
  function Padded(bits: seq<bool>): seq<bool> {
    bits + Zeros((6 - |bits| % 6) % 6)
  }

  /** Cut down to a multiple of eight bits. */
  function WholeBytes(bits: seq<bool>): seq<bool> {
    bits[..|bits| / 8 * 8]
  }

  lemma {:induction false} ByteBitsInjective(d: seq<Byte>, e: seq<Byte>)
    requires ByteBits(d) == ByteBits(e)
    ensures d == e
  {
    if d != [] {
      assert ByteBits(d)[..8] == Bits(d[0], 8) && ByteBits(e)[..8] == Bits(e[0], 8);
      BitsInjective(d[0], e[0], 8);
      assert ByteBits(d)[8..] == ByteBits(d[1..]) && ByteBits(e)[8..] == ByteBits(e[1..]);
      ByteBitsInjective(d[1..], e[1..]);
    }
  }

  // ----- the two state machines

  datatype Phase = P0 | P2 | P4 | P6

  function NextPhase(bit: Phase): Phase {
    match bit case P0 => P2 case P2 => P4 case P4 => P6 case P6 => P0
  }

  /** The sextet made of what the phase leaves of c and the first bits of c2. */
  function SextetOf(bit: Phase, c: Byte, c2: Byte): Sextet {
    match bit
    case P0 => c / 4
    case P2 => c % 4 * 16 + c2 / 16
    case P4 => c % 16 * 4 + c2 / 64
    case P6 => c % 64
  }

  /** The sextet the encoder writes when `rest` is left in front of it and it has already
      used the bits of the first byte before the phase. */
  function SextetAt(bit: Phase, rest: seq<Byte>): Sextet
    requires rest != []
  {
    SextetOf(bit, rest[0], if |rest| > 1 then rest[1] else 0)
  }

  /** What is left in front of the encoder after that. */
  function Advanced(bit: Phase, rest: seq<Byte>): seq<Byte>
    requires rest != []
  {
    if bit == P0 then rest else rest[1..]
  }

  function SextetsFrom(bit: Phase, rest: seq<Byte>): seq<Sextet>
    decreases |rest|, if bit == P0 then 1 else 0
  {
    if rest == [] then []
    else [SextetAt(bit, rest)] + SextetsFrom(NextPhase(bit), Advanced(bit, rest))
  }

  function LowBits(bit: Phase, b: Byte): seq<bool> {
    match bit
    case P0 => Bits(b, 8)
    case P2 => Bits(b % 4, 2)
    case P4 => Bits(b % 16, 4)
    case P6 => Bits(b % 64, 6)
  }

  /** The data bits the encoder has not written yet. */
  function Unwritten(bit: Phase, rest: seq<Byte>): seq<bool> {
    if rest == [] then [] else LowBits(bit, rest[0]) + ByteBits(rest[1..])
  }

  /** How the bits of a byte divide, and how two parts make a sextet. */
  lemma {:induction false} SplitByte(c: Byte)
    ensures Bits(c, 8) == Bits(c / 4, 6) + Bits(c % 4, 2)
    ensures Bits(c, 8) == Bits(c / 16, 4) + Bits(c % 16, 4)
    ensures Bits(c, 8) == Bits(c / 64, 2) + Bits(c % 64, 6)
  {
    hide Bits;
    SmallPowers();
    BitsJoin(c / 4, 6, c % 4, 2);
    BitsJoin(c / 16, 4, c % 16, 4);
    BitsJoin(c / 64, 2, c % 64, 6);
  }

  lemma {:induction false} JoinSextet(c: Byte, c2: Byte)
    ensures Bits(c % 4 * 16 + c2 / 16, 6) == Bits(c % 4, 2) + Bits(c2 / 16, 4)
    ensures Bits(c % 16 * 4 + c2 / 64, 6) == Bits(c % 16, 4) + Bits(c2 / 64, 2)
  {
    hide Bits;
    SmallPowers();
    BitsJoin(c % 4, 2, c2 / 16, 4);
    BitsJoin(c % 16, 4, c2 / 64, 2);
  }

  lemma {:induction false} SmallPowers()
    ensures Pow2(2) == 4 && Pow2(4) == 16 && Pow2(6) == 64 && Pow2(8) == 256
  {
    assert Pow2(3) == 8 && Pow2(5) == 32 && Pow2(7) == 128;
  }

  lemma {:induction false} ZeroBits(n: nat)
    ensures Bits(0, n) == Zeros(n)
  {
    if n > 0 {
      ZeroBits(n - 1);
    }
  }

  /** One turn of the encoder writes the next six bits, or the last few and zeros. */
  lemma {:induction false} SextetWritesTheBits(bit: Phase, rest: seq<Byte>)
    requires rest != []
    ensures var w, u := Bits(SextetAt(bit, rest), 6), Unwritten(NextPhase(bit), Advanced(bit, rest));
      if Advanced(bit, rest) == [] then w == Padded(Unwritten(bit, rest)) else Unwritten(bit, rest) == w + u
  {
    hide Bits, Padded, Unwritten, ByteBits, SextetOf, LowBits;
    UnwrittenIs(bit, rest);
    if Advanced(bit, rest) == [] {
      LastSextet(bit, rest[0]);
      assert rest == [rest[0]];
    } else if bit == P0 {
      UnwrittenIs(P2, rest);
      SextetAndRest(P0, rest[0], if |rest| > 1 then rest[1] else 0);
    } else {
      UnwrittenIs(NextPhase(bit), rest[1..]);
      SextetAndRest(bit, rest[0], rest[1]);
      var low, b, t := LowBits(bit, rest[0]), Bits(rest[1], 8), ByteBits(rest[1..][1..]);
      assert low + (b + t) == low + b + t;
    }
  }

  /** The bits still unwritten are those of the first byte and of the bytes behind it. */
  lemma {:induction false} UnwrittenIs(bit: Phase, rest: seq<Byte>)
    requires rest != []
    ensures Unwritten(bit, rest) == LowBits(bit, rest[0]) + ByteBits(rest[1..])
    ensures |rest| == 1 ==> Unwritten(bit, rest) == LowBits(bit, rest[0])
    ensures |rest| > 1 ==> ByteBits(rest[1..]) == Bits(rest[1], 8) + ByteBits(rest[1..][1..])
  {
  }

  /** A sextet takes what is left of one byte and the first bits of the next. */
  lemma {:induction false} SextetAndRest(bit: Phase, c: Byte, c2: Byte)
    ensures bit == P0 ==> LowBits(P0, c) == Bits(SextetOf(P0, c, c2), 6) + LowBits(P2, c)
    ensures bit == P2 || bit == P4 ==>
      LowBits(bit, c) + Bits(c2, 8) == Bits(SextetOf(bit, c, c2), 6) + LowBits(NextPhase(bit), c2)
    ensures bit == P6 ==> LowBits(P6, c) == Bits(SextetOf(P6, c, c2), 6) && LowBits(P0, c2) == Bits(c2, 8)
  {
    hide Bits;
    SplitByte(c);
    SplitByte(c2);
    JoinSextet(c, c2);
  }

  lemma {:induction false} LastSextet(bit: Phase, c: Byte)
    requires bit != P0
    ensures Bits(SextetAt(bit, [c]), 6) == Padded(LowBits(bit, c))
  {
    hide Bits;
    JoinSextet(c, 0);
    ZeroBits(4);
    ZeroBits(2);
  }

  /** The encoder writes the data bits in order, and fills up the last sextet with zeros. */
  lemma {:induction false} EncoderWritesTheBits(bit: Phase, rest: seq<Byte>)
    ensures SextetBits(SextetsFrom(bit, rest)) == Padded(Unwritten(bit, rest))
    decreases |rest|, if bit == P0 then 1 else 0
  {
    hide Bits, Unwritten, SextetsFrom, Padded, SextetBits, SextetAt;
    if rest != [] {
      var rest', next := Advanced(bit, rest), NextPhase(bit);
      SextetsStep(bit, rest);
      SextetBitsCons(SextetAt(bit, rest), SextetsFrom(next, rest'));
      SextetWritesTheBits(bit, rest);
      EncoderWritesTheBits(next, rest');
      NothingUnwritten(next);
      if rest' != [] {
        PaddedBehind(Bits(SextetAt(bit, rest), 6), Unwritten(next, rest'));
      }
    } else {
      NothingUnwritten(bit);
    }
  }

  lemma {:induction false} SextetBitsCons(k: Sextet, v: seq<Sextet>)
    ensures SextetBits([k] + v) == Bits(k, 6) + SextetBits(v)
  {
  }

  /** Six bits in front do not change the padding. */
  lemma {:induction false} PaddedBehind(w: seq<bool>, u: seq<bool>)
    requires |w| == 6
    ensures Padded(w + u) == w + Padded(u)
  {
    hide Zeros;
    assert |w + u| % 6 == (6 + |u|) % 6 == |u| % 6;
    var z := Zeros((6 - |u| % 6) % 6);
    assert (w + u) + z == w + (u + z);
  }

  lemma {:induction false} SextetsStep(bit: Phase, rest: seq<Byte>)
    requires rest != []
    ensures SextetsFrom(bit, rest) == [SextetAt(bit, rest)] + SextetsFrom(NextPhase(bit), Advanced(bit, rest))
  {
  }

  lemma {:induction false} NothingUnwritten(bit: Phase)
    ensures Unwritten(bit, []) == [] && SextetsFrom(bit, []) == []
    ensures SextetBits([]) == [] && Padded([]) == []
  {
  }

  // ----- decoding

  /** The decoder's variable `bit`, in the order its values follow each other: 0, 4, 2. */
  datatype DPhase = D0 | D4 | D2

  function NextDPhase(bit: DPhase): DPhase {
    match bit case D0 => D4 case D4 => D2 case D2 => D0
  }

  /** The byte made of what the phase leaves of c and the first bits of c2. */
  function ByteOf(bit: DPhase, c: int, c2: int): Byte
    requires 0 <= c < 64 && 0 <= c2 < 64
  {
    match bit
    case D0 => c * 4 + c2 / 16
    case D4 => c % 16 * 16 + c2 / 4
    case D2 => c % 4 * 64 + c2
  }

  /** The byte the decoder writes when the values `rest` are left in front of it. */
  function ByteAt(bit: DPhase, rest: seq<Sextet>): Byte
    requires rest != []
  {
    ByteOf(bit, rest[0], if |rest| > 1 then rest[1] else 0)
  }

  function DAdvanced(bit: DPhase, rest: seq<Sextet>): seq<Sextet>
    requires rest != []
  {
    if bit == D2 && |rest| > 1 then rest[2..] else rest[1..]
  }

  /** The bytes still to come. The last one written does not count unless a second value was
      there to complete it. */
  function BytesFrom(bit: DPhase, rest: seq<Sextet>): seq<Byte>
    decreases |rest|
  {
    if rest == [] then []
    else (if |rest| > 1 then [ByteAt(bit, rest)] else []) + BytesFrom(NextDPhase(bit), DAdvanced(bit, rest))
  }

  function DLowBits(bit: DPhase, v: Sextet): seq<bool> {
    match bit
    case D0 => Bits(v, 6)
    case D4 => Bits(v % 16, 4)
    case D2 => Bits(v % 4, 2)
  }

  /** The bits the decoder has not used yet. */
  function Unread(bit: DPhase, rest: seq<Sextet>): seq<bool> {
    if rest == [] then [] else DLowBits(bit, rest[0]) + SextetBits(rest[1..])
  }

  lemma {:induction false} SplitSextet(c: Sextet)
    ensures Bits(c, 6) == Bits(c / 16, 2) + Bits(c % 16, 4)
    ensures Bits(c, 6) == Bits(c / 4, 4) + Bits(c % 4, 2)
  {
    hide Bits;
    SmallPowers();
    BitsJoin(c / 16, 2, c % 16, 4);
    BitsJoin(c / 4, 4, c % 4, 2);
  }

  lemma {:induction false} JoinByte(c: Sextet, c2: Sextet)
    ensures Bits(c * 4 + c2 / 16, 8) == Bits(c, 6) + Bits(c2 / 16, 2)
    ensures Bits(c % 16 * 16 + c2 / 4, 8) == Bits(c % 16, 4) + Bits(c2 / 4, 4)
    ensures Bits(c % 4 * 64 + c2, 8) == Bits(c % 4, 2) + Bits(c2, 6)
  {
    hide Bits;
    SmallPowers();
    BitsJoin(c, 6, c2 / 16, 2);
    BitsJoin(c % 16, 4, c2 / 4, 4);
    BitsJoin(c % 4, 2, c2, 6);
  }

  lemma {:induction false} ByteReadsTheBits(bit: DPhase, rest: seq<Sextet>)
    requires |rest| > 1
    ensures Unread(bit, rest) == Bits(ByteAt(bit, rest), 8) + Unread(NextDPhase(bit), DAdvanced(bit, rest))
  {
    hide Bits, Unread, SextetBits, ByteOf, DLowBits;
    UnreadIs(bit, rest);
    ByteAndRest(bit, rest[0], rest[1]);
    assert rest[1..][0] == rest[1] && rest[1..][1..] == rest[2..];
    var low, b, t := DLowBits(bit, rest[0]), Bits(rest[1], 6), SextetBits(rest[2..]);
    assert low + (b + t) == low + b + t;
    if bit == D2 {
      UnreadAtD0(rest[2..]);
    } else {
      UnreadIs(NextDPhase(bit), rest[1..]);
    }
  }

  lemma {:induction false} UnreadIs(bit: DPhase, rest: seq<Sextet>)
    requires rest != []
    ensures Unread(bit, rest) == DLowBits(bit, rest[0]) + SextetBits(rest[1..])
    ensures |rest| > 1 ==> SextetBits(rest[1..]) == Bits(rest[1], 6) + SextetBits(rest[1..][1..])
  {
  }

  lemma {:induction false} UnreadAtD0(rest: seq<Sextet>)
    ensures Unread(D0, rest) == SextetBits(rest)
  {
  }

  /** A byte takes what is left of one value and the first bits of the next, or all of it. */
  lemma {:induction false} ByteAndRest(bit: DPhase, c: Sextet, c2: Sextet)
    ensures DLowBits(bit, c) + Bits(c2, 6)
         == Bits(ByteOf(bit, c, c2), 8) + (if bit == D2 then [] else DLowBits(NextDPhase(bit), c2))
  {
    hide Bits;
    JoinByte(c, c2);
    SplitSextet(c2);
  }

  /** The decoder reads the bits in order and drops an incomplete byte at the end. */
  lemma {:induction false} DecoderReadsTheBits(bit: DPhase, rest: seq<Sextet>)
    ensures ByteBits(BytesFrom(bit, rest)) == WholeBytes(Unread(bit, rest))
    decreases |rest|
  {
    hide Bits, Unread, ByteAt, ByteBits, BytesFrom;
    if |rest| > 1 {
      var rest' := DAdvanced(bit, rest);
      ByteReadsTheBits(bit, rest);
      DecoderReadsTheBits(NextDPhase(bit), rest');
      BytesStep(bit, rest);
      ByteBitsCons(ByteAt(bit, rest), BytesFrom(NextDPhase(bit), rest'));
      WholeBytesBehind(Bits(ByteAt(bit, rest), 8), Unread(NextDPhase(bit), rest'));
    } else {
      ByteBitsOfNone();
      FewUnread(bit, rest);
    }
  }

  lemma {:induction false} ByteBitsCons(b: Byte, d: seq<Byte>)
    ensures ByteBits([b] + d) == Bits(b, 8) + ByteBits(d)
  {
    assert ([b] + d)[1..] == d;
  }

  lemma {:induction false} ByteBitsOfNone()
    ensures ByteBits([]) == []
  {
  }

  lemma {:induction false} WholeBytesBehind(w: seq<bool>, u: seq<bool>)
    requires |w| == 8
    ensures WholeBytes(w + u) == w + WholeBytes(u)
  {
    var n := |u| / 8 * 8;
    assert (8 + |u|) / 8 * 8 == 8 + n;
    assert (w + u)[..8 + n] == w + u[..n];
  }

  lemma {:induction false} FewUnread(bit: DPhase, rest: seq<Sextet>)
    requires |rest| <= 1
    ensures |Unread(bit, rest)| < 8 && BytesFrom(bit, rest) == []
  {
  }

  // ----- the codec as functions, and its round trip

  function Encoded(data: seq<Byte>): string {
    Letters(SextetsFrom(P0, data))
  }

  function Decoded(text: string): seq<Byte>
    requires IsAscii(text)
  {
    BytesFrom(D0, Values(text))
  }

  /** The letters spell the data bits in groups of six, the last group filled with zeros. */
  lemma {:induction false} EncodedBits(data: seq<Byte>)
    ensures SextetBits(SextetsFrom(P0, data)) == Padded(ByteBits(data))
    ensures |Encoded(data)| == (4 * |data| + 2) / 3
  {
    EncoderWritesTheBits(P0, data);
    assert Unwritten(P0, data) == ByteBits(data);
  }

  /** Decoding gives the whole bytes among the bits spelled by the letters. */
  lemma {:induction false} DecodedBits(text: string)
    requires IsAscii(text)
    ensures ByteBits(Decoded(text)) == WholeBytes(SextetBits(Values(text)))
    ensures |Decoded(text)| == 3 * |text| / 4
  {
    DecoderReadsTheBits(D0, Values(text));
    assert Unread(D0, Values(text)) == SextetBits(Values(text));
  }

  lemma {:induction false} PaddingIsCutOff(bits: seq<bool>)
    requires |bits| % 8 == 0
    ensures WholeBytes(Padded(bits)) == bits
  {
    hide Zeros;
    var n, z := |bits| / 8, (6 - |bits| % 6) % 6;
    assert |bits| == 8 * n && |Padded(bits)| == 8 * n + z;
    CutOff(n, z);
    assert Padded(bits)[..|bits|] == bits;
  }

  lemma {:induction false} CutOff(n: nat, z: nat)
    requires z < 8
    ensures (8 * n + z) / 8 * 8 == 8 * n
  {
  }

  /** What was encoded is decoded byte for byte, and the encoding is plain letters: ASCII and
      without the newline that would make `Decode` take it for Base64. */
  lemma {:induction false} RoundTrip(data: seq<Byte>)
    ensures IsAscii(Encoded(data)) && '\n' !in Encoded(data)
    ensures forall i :: 0 <= i < |Encoded(data)| ==> InAlphabet(Encoded(data)[i])
    ensures Decoded(Encoded(data)) == data
  {
    hide SextetsFrom, BytesFrom, SextetBits, ByteBits, Values, Padded, WholeBytes;
    var v := SextetsFrom(P0, data);
    ValuesOfLetters(v);
    EncodedBits(data);
    DecodedBits(Letters(v));
    PaddingIsCutOff(ByteBits(data));
    ByteBitsInjective(Decoded(Encoded(data)), data);
  }

  // ----- the C loops

  /** The letters still to be written in a phase with these bytes left. */
  function LettersFrom(bit: Phase, rest: seq<Byte>): string {
    Letters(SextetsFrom(bit, rest))
  }

  /** `MyEncode` with `Encode(data, 0)`: the buffer never overflows and holds the encoding. */
  method MyEncode(data: seq<Byte>) returns (out: string)
    ensures out == Encoded(data)
  {
    hide LettersFrom, SextetOf, Encoded, Trans;
    EncodedLength(data);
    NothingEncoded();
    EncodedIs(data);
    if |data| == 0 {
      return "";
    }
    var res := new char[|data| * 4 / 3 + 2](_ => '\0');
    var i, j, bit := 0, 0, P0;
    ghost var done := "";
    assert data[0..] == data && done + Encoded(data) == Encoded(data);
    while i < |data|
      invariant i <= |data| && 0 <= j == |done| < res.Length && res[..j] == done
      invariant Encoded(data) == done + LettersFrom(bit, data[i..])
      decreases |data| - i, if bit == P0 then 1 else 0
    {
      var c := data[i];
      var c2 := if i < |data| - 1 then data[i + 1] else 0;
      var k := SextetOf(bit, c, c2);
      EncoderStep(data, i, bit, done);
      assert |done| + 1 <= |Encoded(data)|;
      if bit != P0 {
        i := i + 1;
      }
      bit := NextPhase(bit);
      res[j] := Trans(k);
      j := j + 1;
      done := done + [Trans(k)];
    }
    assert data[i..] == [] && Encoded(data) == done;
    res[j] := '\0';
    return res[..j];
  }

  lemma {:induction false} EncoderStep(data: seq<Byte>, i: nat, bit: Phase, done: string)
    requires i < |data|
    ensures var k := SextetOf(bit, data[i], if i < |data| - 1 then data[i + 1] else 0);
      done + LettersFrom(bit, data[i..])
      == (done + [Trans(k)]) + LettersFrom(NextPhase(bit), data[if bit == P0 then i else i + 1..])
  {
    hide SextetsFrom, SextetOf, Trans, Letters;
    var rest := data[i..];
    assert rest[1..] == data[i + 1..];
    SextetsStep(bit, rest);
    LettersCons(SextetAt(bit, rest), SextetsFrom(NextPhase(bit), Advanced(bit, rest)));
  }

  lemma {:induction false} NothingEncoded()
    ensures forall bit :: LettersFrom(bit, []) == ""
  {
  }

  lemma {:induction false} EncodedLength(data: seq<Byte>)
    ensures |Encoded(data)| == (4 * |data| + 2) / 3
  {
    EncodedBits(data);
  }

  lemma {:induction false} EncodedIs(data: seq<Byte>)
    ensures Encoded(data) == LettersFrom(P0, data)
  {
  }

  lemma {:induction false} LettersCons(k: Sextet, v: seq<Sextet>)
    ensures Letters([k] + v) == [Trans(k)] + Letters(v)
  {
  }

  /** `MyDecode` with the first branch of `Decode`: the buffer never overflows. */
  method MyDecode(data: string) returns (out: seq<Byte>)
    requires IsAscii(data)
    ensures out == Decoded(data)
  {
    hide BytesFrom, ByteOf, Trans2, Decoded, DAdvanced;
    DecodedLength(data);
    NothingDecoded();
    DecodedIs(data);
    if |data| == 0 {
      return [];
    }
    ghost var v := Values(data);
    ghost var done: seq<Byte> := [];
    var res := new Byte[|data| * 3 / 4 + 2](_ => 0);
    var bit, i, n := D0, 0, 0;
    assert v[0..] == v && done + Decoded(data) == Decoded(data);
    while i < |data|
      invariant 0 <= i && 0 <= n == |done| < res.Length && res[..n] == done
      invariant Decoded(data) == done + BytesFrom(bit, LeftFrom(v, i))
    {
      var c: int := Trans2(data[i]);
      var c2: int := if i + 1 < |data| then Trans2(data[i + 1]) else 0;
      DecoderStep(v, i, bit, done);
      res[n] := ByteOf(bit, c, c2);
      if i + 1 < |data| {
        done := done + [ByteOf(bit, c, c2)];
        n := n + 1;
      }
      assert |done| <= |Decoded(data)|;
      i := if bit == D2 then i + 2 else i + 1;
      bit := NextDPhase(bit);
    }
    return res[..n];
  }

  function LeftFrom(v: seq<Sextet>, i: nat): seq<Sextet> {
    if i < |v| then v[i..] else []
  }

  lemma {:induction false} DecoderStep(v: seq<Sextet>, i: nat, bit: DPhase, done: seq<Byte>)
    requires i < |v|
    ensures var b := ByteOf(bit, v[i], if i + 1 < |v| then v[i + 1] else 0);
      done + BytesFrom(bit, LeftFrom(v, i))
      == (if i + 1 < |v| then done + [b] else done)
         + BytesFrom(NextDPhase(bit), LeftFrom(v, if bit == D2 then i + 2 else i + 1))
  {
    hide BytesFrom, ByteOf;
    RestAdvances(bit, v, i);
    BytesStep(bit, v[i..]);
    assert [] + BytesFrom(NextDPhase(bit), DAdvanced(bit, v[i..]))
        == BytesFrom(NextDPhase(bit), DAdvanced(bit, v[i..]));
  }

  lemma {:induction false} DecodedLength(text: string)
    requires IsAscii(text)
    ensures |Decoded(text)| == 3 * |text| / 4
  {
    DecodedBits(text);
  }

  lemma {:induction false} RestAdvances(bit: DPhase, v: seq<Sextet>, i: nat)
    requires i < |v|
    ensures DAdvanced(bit, v[i..]) == LeftFrom(v, if bit == D2 then i + 2 else i + 1)
  {
  }

  lemma {:induction false} DecodedIs(data: string)
    requires IsAscii(data)
    ensures Decoded(data) == BytesFrom(D0, Values(data))
  {
  }

  lemma {:induction false} NothingDecoded()
    ensures forall bit :: BytesFrom(bit, []) == []
  {
  }

  lemma {:induction false} BytesStep(bit: DPhase, rest: seq<Sextet>)
    requires rest != []
    ensures BytesFrom(bit, rest)
         == (if |rest| > 1 then [ByteAt(bit, rest)] else []) + BytesFrom(NextDPhase(bit), DAdvanced(bit, rest))
  {
  }
}
