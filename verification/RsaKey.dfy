/** Reading an RSA public key (rsa_key_parser and parse_rsa_pubkey in
    libraries/eosiolib/core/eosio/crypto_utils.hpp): an armoured, base64 encoded
    SubjectPublicKeyInfo in DER, of which modulus and exponent are returned in
    hexadecimal. */
module RsaKey {
  import opened Words
  import opened Base64
  import opened BigEndianBytes

  // ----- DER: tag, length, content (sections 8.1 and 10.1 of X.690)

  function LengthBytes(n: u32): (k: nat)
    ensures k <= 4
  {
    if n < 0x100 then 1 else if n < 0x1_0000 then 2 else if n < 0x100_0000 then 3 else 4
  }

  /** The shortest form of a length. */
  function DerLength(n: u32): (s: seq<byte>)
    ensures 0 < |s| <= 5
  {
    if n < 0x80 then [n] else [0x80 + LengthBytes(n)] + BigEndian(n, LengthBytes(n))
  }

  lemma LengthFits(n: u32)
    ensures Fits(n, LengthBytes(n))
  {
    var a := n / 256;
    var b := a / 256;
    var c := b / 256;
    assert Fits(0, 0);
    assert c / 256 == 0 && Fits(c, 1);
    if n < 0x100 {
      assert a == 0 && Fits(n, 1);
    } else if n < 0x1_0000 {
      assert b == 0 && Fits(a, 1) && Fits(n, 2);
    } else if n < 0x100_0000 {
      assert c == 0 && Fits(b, 1) && Fits(a, 2) && Fits(n, 3);
    } else {
      assert Fits(b, 2) && Fits(a, 3) && Fits(n, 4);
    }
  }

  function Tlv(tag: byte, content: seq<byte>): (s: seq<byte>)
    requires |content| < B32
    ensures |content| < |s| <= |content| + 6
  {
    [tag] + DerLength(|content|) + content
  }

  // ----- what the parser reads at a position

  /** One byte on, but never past the last one. */
  function Next(key: seq<byte>, p: nat): (q: nat)
    requires p < |key|
    ensures q < |key|
  {
    if p + 1 < |key| then p + 1 else p
  }

  function Skip(key: seq<byte>, p: nat, k: nat): (q: nat)
    requires p < |key|
    ensures q < |key|
  {
    if k == 0 then p else Next(key, Skip(key, p, k - 1))
  }

  function DigitsAt(key: seq<byte>, p: nat, k: nat): (s: seq<byte>)
    requires p < |key|
    ensures |s| == k
  {
    if k == 0 then [] else DigitsAt(key, p, k - 1) + [key[Skip(key, p, k - 1)]]
  }

  /** Whether `len` bytes can be passed, and where that ends, in 32-bit words: at the end of
      the key the position stays. */
  predicate CanPass(size: nat, p: nat, len: u32) { p == (size - len) % B32 || (p + len) % B32 < size }

  function Passed(size: nat, p: nat, len: u32): (q: nat)
    requires p < size
    ensures q < size
  {
    if p == (size - len) % B32 || (p + len) % B32 >= size then p else (p + len) % B32
  }

  /** A length, how many bytes its long form takes after the first, and where the content
      starts; zero for the forms that are not read. */
  datatype Field = Field(len: u32, bytes: nat, from: nat)

  function LengthAt(key: seq<byte>, p: nat): (f: Field)
    requires p < |key|
    ensures f.from < |key|
  {
    var first, q := key[p], Next(key, p);
    if first < 0x80 then Field(first, 0, q)
    else if 0x80 < first <= 0x84 then
      FewDigits(DigitsAt(key, q, first - 0x80));
      Field(FromBig(DigitsAt(key, q, first - 0x80)), first - 0x80, Skip(key, q, first - 0x80))
    else Field(0, 0, q)
  }

  /** The length behind the tag at p. */
  function FieldAt(key: seq<byte>, p: nat): (f: Field)
    requires p < |key|
    ensures f.from < |key|
  {
    LengthAt(key, Next(key, p))
  }

  /** The content, or as much of it as there is. */
  function ContentOf(key: seq<byte>, f: Field): seq<byte>
    requires f.from < |key|
  {
    if f.from + f.len <= |key| then key[f.from..f.from + f.len] else key[f.from..]
  }

  predicate HasContent(key: seq<byte>, p: nat, tag: byte)
    requires p < |key|
  {
    var f := FieldAt(key, p);
    key[p] == tag && f.len != 0 && CanPass(|key|, f.from, f.len)
  }

  /** Behind the content. */
  function End(key: seq<byte>, p: nat): (q: nat)
    requires p < |key|
    ensures q < |key|
  {
    var f := FieldAt(key, p);
    Passed(|key|, f.from, f.len)
  }

  /** An integer's content without the zero byte in front; empty when there is none. */
  function IntegerAt(key: seq<byte>, p: nat): seq<byte>
    requires p < |key|
  {
    if HasContent(key, p, 0x02) then Stripped(ContentOf(key, FieldAt(key, p))) else []
  }

  // The parts of a key, by where they start.

  /** The outer sequence has the length of the key, in 32-bit words. */
  predicate IsTop(key: seq<byte>)
    requires key != []
  {
    var top := FieldAt(key, 0);
    key[0] == 0x30 && top.len != 0 && (|key| - 2 - top.bytes) % B32 == top.len
  }

  predicate IsNull(key: seq<byte>, p: nat)
    requires p < |key|
  {
    key[p] == 0x05 && key[Next(key, p)] == 0x00
  }

  /** A sequence of the identifier of rsaEncryption and null. */
  predicate IsAlgorithm(key: seq<byte>, p: nat)
    requires p < |key|
  {
    key[p] == 0x30 && FieldAt(key, p).len != 0 && IsRsaEncryption(key, FieldAt(key, p).from)
  }
  predicate IsRsaEncryption(key: seq<byte>, p: nat)
    requires p < |key|
  {
    HasContent(key, p, 0x06) && ContentOf(key, FieldAt(key, p)) == OID && IsNull(key, End(key, p))
  }
  function AfterAlgorithm(key: seq<byte>, p: nat): (q: nat)
    requires p < |key|
    ensures q < |key|
  {
    Skip(key, End(key, FieldAt(key, p).from), 2)
  }

  /** A bit string with a sequence in it; the count of unused bits is skipped. */
  predicate IsBits(key: seq<byte>, p: nat)
    requires p < |key|
  {
    var f := FieldAt(key, p);
    var q := Next(key, f.from);
    key[p] == 0x03 && f.len != 0 && key[q] == 0x30 && FieldAt(key, q).len != 0
  }
  function InBits(key: seq<byte>, p: nat): (q: nat)
    requires p < |key|
    ensures q < |key|
  {
    FieldAt(key, Next(key, FieldAt(key, p).from)).from
  }

  function AlgorithmAt(key: seq<byte>): (p: nat)
    requires key != []
    ensures p < |key|
  {
    FieldAt(key, 0).from
  }
  function BitsAt(key: seq<byte>): (p: nat)
    requires key != []
    ensures p < |key|
  {
    AfterAlgorithm(key, AlgorithmAt(key))
  }
  function ModulusAt(key: seq<byte>): (p: nat)
    requires key != []
    ensures p < |key|
  {
    InBits(key, BitsAt(key))
  }
  function ExponentAt(key: seq<byte>): (p: nat)
    requires key != []
    ensures p < |key|
  {
    End(key, ModulusAt(key))
  }

  /** A key of the RSA algorithm with a modulus and an exponent. */
  predicate IsKey(key: seq<byte>) {
    && |key| >= 2 && IsTop(key) && IsAlgorithm(key, AlgorithmAt(key)) && IsBits(key, BitsAt(key))
    && IntegerAt(key, ModulusAt(key)) != [] && IntegerAt(key, ExponentAt(key)) != []
  }

  /** At most four bytes make 32 bits. */
  lemma FewDigits(s: seq<byte>)
    requires |s| <= 4
    ensures FromBig(s) < B32
  {
    if s != [] {
      var a := s[..|s| - 1];
      if a != [] {
        var b := a[..|a| - 1];
        if b != [] {
          var c := b[..|b| - 1];
          assert FromBig(c) < 256;
        }
        assert FromBig(b) < 65536;
      }
      assert FromBig(a) < 16777216;
    }
  }

  /** The identifier is nine bytes of the key, and so the outer length is that of the key:
      the difference of 32 bits is not negative. */
  lemma WholeKey(key: seq<byte>)
    requires 2 <= |key| < B32 && IsTop(key) && IsAlgorithm(key, AlgorithmAt(key))
    ensures FieldAt(key, 0).len == |key| - 2 - FieldAt(key, 0).bytes
  {
    LongEnough(key, AlgorithmAt(key));
    FewBytes(key, 0);
    NotNegative(|key|, FieldAt(key, 0).bytes);
  }

  lemma NotNegative(n: nat, k: nat)
    requires 9 <= n < B32 && k <= 4
    ensures (n - 2 - k) % B32 == n - 2 - k
  {
    ModSmall(n - 2 - k, B32);
  }

  lemma LongEnough(key: seq<byte>, p: nat)
    requires p < |key| && IsAlgorithm(key, p)
    ensures |key| >= 9
  {
    OidInKey(key, FieldAt(key, p).from);
  }

  lemma OidInKey(key: seq<byte>, p: nat)
    requires p < |key| && IsRsaEncryption(key, p)
    ensures |key| >= 9
  {
    assert |ContentOf(key, FieldAt(key, p))| == 9;
  }

  lemma FewBytes(key: seq<byte>, p: nat)
    requires p < |key|
    ensures FieldAt(key, p).bytes <= 4
  {
  }

  // ----- the parser

  class RsaKeyParser {
    const key: seq<byte>
    var pos: nat
    var curByte: byte

    ghost predicate Valid()
      reads this
    {
      0 < |key| < B32 && pos < |key|
    }

    constructor (k: seq<byte>)
      requires 0 < |k| < B32
      ensures Valid() && key == k && pos == 0
    {
      key, pos, curByte := k, 0, 0;
    }

    /** Read the byte at the position and go `step` on, but never past the last byte. */
    method GetNext(step: u32) returns (ok: bool)
      requires Valid()
      modifies this
      ensures Valid() && curByte == key[old(pos)] && ok == CanPass(|key|, old(pos), step)
      ensures pos == Passed(|key|, old(pos), step)
    {
      curByte := key[pos];
      if pos != (|key| - step) % B32 {
        if (pos + step) % B32 >= |key| {
          return false;
        }
        pos := (pos + step) % B32;
      }
      ok := true;
    }

    /** A single step never fails, since the key is not empty; what the source does if it
        failed is never done. */
    method Byte()
      requires Valid()
      modifies this
      ensures Valid() && curByte == key[old(pos)] && pos == Next(key, old(pos))
    {
      OneOn(|key|, pos);
      var ok := GetNext(1);
    }

    /** The digits of a long length. */
    method ReadDigits(count: nat) returns (len: u32)
      requires Valid() && count <= 4
      modifies this
      ensures Valid() && len == FromBig(DigitsAt(key, old(pos), count)) && pos == Skip(key, old(pos), count)
    {
      ghost var p := pos;
      len := 0;
      for i := 0 to count
        invariant Valid() && pos == Skip(key, p, i) && len == FromBig(DigitsAt(key, p, i))
      {
        Byte();
        DigitTaken(key, p, i);
        len := (len * 256 + curByte) % B32;
      }
    }

    /** A length, and how many bytes the long form takes after the first; zero where there
        is none. */
    method ReadLen() returns (len: u32, lenBytes: nat)
      requires Valid()
      modifies this
      ensures Valid() && Field(len, lenBytes, pos) == LengthAt(key, old(pos))
    {
      Byte();
      var lenByte := curByte;
      if lenByte < 0x80 {
        return lenByte, 0;
      }
      len, lenBytes := 0, 0;
      if lenByte > 0x80 && lenByte <= 0x84 {
        len := ReadDigits(lenByte - 0x80);
        lenBytes := lenByte - 0x80;
      }
    }

    /** The tag expected, or not. */
    method ReadTag(tag: byte) returns (ok: bool)
      requires Valid()
      modifies this
      ensures Valid() && ok == (key[old(pos)] == tag) && pos == Next(key, old(pos))
    {
      Byte();
      ok := curByte == tag;
    }

    /** Tag and length of a sequence. */
    method ReadSeqLen() returns (len: u32, lenBytes: nat)
      requires Valid()
      modifies this
      ensures Valid()
      ensures key[old(pos)] == 0x30 ==> Field(len, lenBytes, pos) == FieldAt(key, old(pos))
      ensures key[old(pos)] != 0x30 ==> len == lenBytes == 0
    {
      var ok := ReadTag(0x30);
      if !ok {
        return 0, 0;
      }
      len, lenBytes := ReadLen();
    }

    /** `len` bytes, or as many as there are. */
    method ReadContent(len: u32) returns (ok: bool, r: seq<byte>)
      requires Valid() && len > 0
      modifies this
      ensures Valid() && r == ContentOf(key, Field(len, 0, old(pos))) && r != []
      ensures ok == CanPass(|key|, old(pos), len) && pos == Passed(|key|, old(pos), len)
    {
      r := if pos + len <= |key| then key[pos..pos + len] else key[pos..];
      ok := GetNext(len);
    }

    method ReadOid() returns (r: seq<byte>)
      requires Valid()
      modifies this
      ensures Valid() && (r != [] ==> pos == End(key, old(pos)))
      ensures r == if HasContent(key, old(pos), 0x06) then ContentOf(key, FieldAt(key, old(pos))) else []
    {
      var ok := ReadTag(0x06);
      if !ok {
        return [];
      }
      var len, lenBytes := ReadLen();
      if len == 0 {
        return [];
      }
      ok, r := ReadContent(len);
      if !ok {
        r := [];
      }
    }

    method GetNull() returns (ok: bool)
      requires Valid()
      modifies this
      ensures Valid() && ok == IsNull(key, old(pos)) && (ok ==> pos == Skip(key, old(pos), 2))
    {
      ghost var p := pos;
      ok := ReadTag(0x05);
      if ok {
        ok := ReadTag(0x00);
      }
      assert Skip(key, p, 2) == Next(key, Skip(key, p, 1)) == Next(key, Next(key, p));
    }

    /** Tag and length of a bit string, and its count of unused bits. */
    method ReadBitStr() returns (len: u32)
      requires Valid()
      modifies this
      ensures Valid() && len == if key[old(pos)] == 0x03 then FieldAt(key, old(pos)).len else 0
      ensures len != 0 ==> pos == Next(key, FieldAt(key, old(pos)).from)
    {
      var ok := ReadTag(0x03);
      if !ok {
        return 0;
      }
      var lenBytes;
      len, lenBytes := ReadLen();
      Byte();
    }

    /** An integer without the zero byte in front. */
    method ReadInt() returns (r: seq<byte>)
      requires Valid()
      modifies this
      ensures Valid() && r == IntegerAt(key, old(pos)) && (r != [] ==> pos == End(key, old(pos)))
    {
      var ok := ReadTag(0x02);
      if !ok {
        return [];
      }
      var len, lenBytes := ReadLen();
      if len == 0 {
        return [];
      }
      ok, r := ReadContent(len);
      if r[0] == 0x00 {
        r := r[1..];
      }
      if !ok {
        return [];
      }
    }
  }

  lemma OneOn(size: nat, p: nat)
    requires p < size < B32
    ensures CanPass(size, p, 1) && Passed(size, p, 1) == if p + 1 < size then p + 1 else p
  {
    Wrap(size, p, 1);
  }

  lemma DigitTaken(key: seq<byte>, p: nat, i: nat)
    requires p < |key| && i < 4
    ensures var d, len := key[Skip(key, p, i)], FromBig(DigitsAt(key, p, i));
      (len * 256 + d) % B32 == FromBig(DigitsAt(key, p, i + 1))
  {
    var s := DigitsAt(key, p, i + 1);
    assert s[..i] == DigitsAt(key, p, i);
    FewDigits(s);
    ModSmall(FromBig(s), B32);
  }

  /** The unsigned arithmetic does not wrap while a step stays inside the key. */
  lemma Wrap(size: nat, pos: nat, step: u32)
    requires pos < size < B32 && step <= size - pos
    ensures (size - step) % B32 == size - step && (pos + step) % B32 == pos + step
  {
    ModSmall(size - step, B32);
    ModSmall(pos + step, B32);
  }

  ghost predicate Parts(n: u32, first: byte, digits: seq<byte>) {
    if n < 0x80 then first == n && digits == []
    else 0x80 < first <= 0x84 && |digits| == first - 0x80 && FromBig(digits) == n
  }

  ghost predicate IsLength(n: u32, s: seq<byte>) { s != [] && Parts(n, s[0], s[1..]) }

  /** A length is its first byte and then its digits, if it has any. */
  lemma LengthParts(n: u32)
    ensures IsLength(n, DerLength(n))
  {
    if n >= 0x80 {
      LengthFits(n);
      FromBigEndian(n, LengthBytes(n));
      assert DerLength(n)[1..] == BigEndian(n, LengthBytes(n));
    }
  }

  function Stripped(c: seq<byte>): seq<byte> {
    if c != [] && c[0] == 0 then c[1..] else c
  }

  lemma ContentAt(key: seq<byte>, p: nat, c: seq<byte>, rest: seq<byte>)
    requires p <= |key| && key[p..] == c + rest
    ensures p + |c| <= |key| && key[p..p + |c|] == c && key[p + |c|..] == rest
    ensures rest != [] ==> p + |c| < |key|
  {
    assert |key| - p == |c| + |rest|;
    assert key[p..p + |c|] == key[p..][..|c|] == c;
    assert key[p + |c|..] == key[p..][|c|..] == rest;
  }

  // ----- the key in DER (appendix A.1.1 of RFC 8017)

  /** The object identifier of rsaEncryption. */
  const OID: seq<byte> := [0x2a, 0x86, 0x48, 0x86, 0xf7, 0x0d, 0x01, 0x01, 0x01]

  /** The bytes of a positive number, without leading zeros. */
  ghost predicate Positive(m: seq<byte>) { m != [] && m[0] != 0 }

  /** An integer's content: a zero byte in front keeps the sign positive. */
  function Content(m: seq<byte>): seq<byte>
    requires m != []
  {
    if m[0] >= 0x80 then [0] + m else m
  }

  lemma StrippedContent(m: seq<byte>)
    requires Positive(m)
    ensures Content(m) != [] && Stripped(Content(m)) == m
  {
  }

  ghost predicate Sized(m: seq<byte>, e: seq<byte>) { Positive(m) && Positive(e) && |m| + |e| < B31 }

  function RsaPublicKey(m: seq<byte>, e: seq<byte>): (s: seq<byte>)
    requires m != [] && e != [] && |m| + |e| < B31
    ensures |s| <= |m| + |e| + 20
  {
    Tlv(0x30, Tlv(0x02, Content(m)) + Tlv(0x02, Content(e)))
  }

  function Algorithm(): (s: seq<byte>)
    ensures |s| < 100
  {
    Tlv(0x30, Tlv(0x06, OID) + [0x05, 0x00])
  }

  function PublicKeyInfo(m: seq<byte>, e: seq<byte>): seq<byte>
    requires m != [] && e != [] && |m| + |e| < B31
  {
    Tlv(0x30, Algorithm() + Tlv(0x03, [0x00] + RsaPublicKey(m, e)))
  }

  /** A length and its bytes. */
  datatype Len = Len(n: u32, s: seq<byte>) {
    ghost predicate Good() { IsLength(n, s) && n > 0 }
  }

  /** A key as the parser meets it: what is left to read before every step, and the lengths. */
  datatype Layout = Layout(
    alg: seq<byte>, oid: seq<byte>, nul: seq<byte>, bits: seq<byte>, keys: seq<byte>, first: seq<byte>,
      second: seq<byte>,
    top: Len, algLen: Len, oidLen: Len, bitLen: Len, keyLen: Len, firstLen: Len, secondLen: Len)

  ghost predicate IsLayout(x: Layout, key: seq<byte>, cm: seq<byte>, ce: seq<byte>) {
    && x.top.Good() && x.algLen.Good() && x.oidLen.Good() && x.bitLen.Good() && x.keyLen.Good() &&
      x.firstLen.Good() && x.secondLen.Good()
    && key == [0x30] + (x.top.s + x.alg) && x.top.n == |x.alg|
    && x.alg == [0x30] + (x.algLen.s + x.oid)
    && x.oid == [0x06] + (x.oidLen.s + (OID + x.nul)) && x.oidLen.n == 9
    && x.nul == [0x05] + ([0x00] + x.bits)
    && x.bits == [0x03] + (x.bitLen.s + ([0x00] + x.keys))
    && x.keys == [0x30] + (x.keyLen.s + x.first)
    && x.first == [0x02] + (x.firstLen.s + (cm + x.second)) && x.firstLen.n == |cm|
    && x.second == [0x02] + (x.secondLen.s + (ce + [])) && x.secondLen.n == |ce|
  }

  /** A value followed by others. */
  lemma TlvThen(tag: byte, content: seq<byte>, rest: seq<byte>) returns (l: Len)
    requires 0 < |content| < B32
    ensures l.Good() && l.n == |content| && Tlv(tag, content) + rest == [tag] + (l.s + (content + rest))
    ensures |content| < |Tlv(tag, content)| <= |content| + 6
  {
    l := LengthOf(|content|);
    Reassociate(tag, l.s, content, rest);
  }

  lemma LengthOf(n: u32) returns (l: Len)
    ensures l == Len(n, DerLength(n)) && IsLength(n, l.s) && |l.s| <= 5
  {
    LengthParts(n);
    l := Len(n, DerLength(n));
  }

  lemma Reassociate(tag: byte, a: seq<byte>, b: seq<byte>, c: seq<byte>)
    ensures ([tag] + a + b) + c == [tag] + (a + (b + c))
  {
  }

  lemma TlvAlone(tag: byte, content: seq<byte>) returns (l: Len)
    requires 0 < |content| < B32
    ensures l.Good() && l.n == |content| && Tlv(tag, content) == [tag] + (l.s + content)
    ensures |content| < |Tlv(tag, content)| <= |content| + 6
  {
    l := TlvThen(tag, content, []);
    assert content + [] == content && Tlv(tag, content) + [] == Tlv(tag, content);
  }

  /** The two integers of a key. */
  lemma IntegersLayout(cm: seq<byte>, ce: seq<byte>) returns (first: seq<byte>, second: seq<byte>, l1: Len, l2: Len)
    requires cm != [] && ce != [] && |cm| + |ce| <= B31 + 2
    ensures first == Tlv(0x02, cm) + Tlv(0x02, ce) && 0 < |first| <= |cm| + |ce| + 12
    ensures first == [0x02] + (l1.s + (cm + second)) && second == [0x02] + (l2.s + (ce + []))
    ensures l1.Good() && l2.Good() && l1.n == |cm| && l2.n == |ce|
  {
    second := Tlv(0x02, ce);
    first := Tlv(0x02, cm) + second;
    l2 := TlvThen(0x02, ce, []);
    assert second + [] == second;
    l1 := TlvThen(0x02, cm, second);
  }

  /** The algorithm and what follows it. */
  lemma AlgorithmLayout(bits: seq<byte>) returns (oid: seq<byte>, nul: seq<byte>, l1: Len, l2: Len)
    ensures nul == [0x05] + ([0x00] + bits) && oid == [0x06] + (l2.s + (OID + nul)) && l2.n == 9
    ensures Algorithm() + bits == [0x30] + (l1.s + oid) && 0 < |Algorithm()| < 100 && l1.Good() && l2.Good()
  {
    var content := Tlv(0x06, OID) + [0x05, 0x00];
    nul := [0x05] + ([0x00] + bits);
    assert nul == [0x05, 0x00] + bits;
    l2 := TlvThen(0x06, OID, nul);
    oid := Tlv(0x06, OID) + nul;
    l1 := TlvThen(0x30, content, bits);
    assert content + bits == oid;
  }

  /** The bit string with the key in it. */
  lemma KeyBits(m: seq<byte>, e: seq<byte>, first: seq<byte>)
      returns (keys: seq<byte>, bits: seq<byte>, l1: Len, l2: Len)
    requires Sized(m, e) && first == Tlv(0x02, Content(m)) + Tlv(0x02, Content(e)) && 0 < |first| <= |m| + |e| + 14
    ensures keys == RsaPublicKey(m, e) == [0x30] + (l2.s + first) &&
      bits == Tlv(0x03, [0x00] + keys) == [0x03] + (l1.s + ([0x00] + keys))
    ensures l1.Good() && l2.Good() && |bits| < |m| + |e| + 40
  {
    keys := RsaPublicKey(m, e);
    l2 := TlvAlone(0x30, first);
    bits := Tlv(0x03, [0x00] + keys);
    l1 := TlvAlone(0x03, [0x00] + keys);
  }

  lemma KeyLayout(m: seq<byte>, e: seq<byte>) returns (x: Layout)
    requires Sized(m, e)
    ensures IsLayout(x, PublicKeyInfo(m, e), Content(m), Content(e)) && |PublicKeyInfo(m, e)| > 2
  {
    var first, second, firstLen, secondLen := IntegersLayout(Content(m), Content(e));
    var keys, bits, bitLen, keyLen := KeyBits(m, e, first);
    var oid, nul, algLen, oidLen := AlgorithmLayout(bits);
    var alg := Algorithm() + bits;
    var top := TlvAlone(0x30, alg);
    x := Layout(alg, oid, nul, bits, keys, first, second, top, algLen, oidLen, bitLen, keyLen, firstLen, secondLen);
  }

  // ----- reading a key

  /** The key's own sequences and its algorithm; the integers are next. */
  method ReadPrelude(parser: RsaKeyParser) returns (ok: bool)
    requires parser.Valid() && parser.pos == 0 && |parser.key| >= 2
    modifies parser
    ensures parser.Valid() && (ok ==> parser.pos == ModulusAt(parser.key))
    ensures ok == (IsTop(parser.key) && IsAlgorithm(parser.key, AlgorithmAt(parser.key)) &&
      IsBits(parser.key, BitsAt(parser.key)))
  {
    ok := ReadTop(parser);
    if ok {
      ok := ReadAlgorithm(parser);
    }
    if ok {
      ok := ReadBits(parser);
    }
  }

  method ReadTop(parser: RsaKeyParser) returns (ok: bool)
    requires parser.Valid() && parser.pos == 0
    modifies parser
    ensures parser.Valid() && ok == IsTop(parser.key) && (ok ==> parser.pos == AlgorithmAt(parser.key))
  {
    var keySeqLen, lenBytesNum := parser.ReadSeqLen();
    ok := keySeqLen != 0 && (|parser.key| - 2 - lenBytesNum) % B32 == keySeqLen;
  }

  method ReadAlgorithm(parser: RsaKeyParser) returns (ok: bool)
    requires parser.Valid()
    modifies parser
    ensures parser.Valid() && ok == IsAlgorithm(parser.key, old(parser.pos))
    ensures ok ==> parser.pos == AfterAlgorithm(parser.key, old(parser.pos))
  {
    var len, unused := parser.ReadSeqLen();
    if len == 0 {
      return false;
    }
    var oidChars := parser.ReadOid();
    if oidChars != OID {
      return false;
    }
    ok := parser.GetNull();
  }

  method ReadBits(parser: RsaKeyParser) returns (ok: bool)
    requires parser.Valid()
    modifies parser
    ensures parser.Valid() && ok == IsBits(parser.key, old(parser.pos))
    ensures ok ==> parser.pos == InBits(parser.key, old(parser.pos))
  {
    var len := parser.ReadBitStr();
    if len == 0 {
      return false;
    }
    var unused;
    len, unused := parser.ReadSeqLen();
    ok := len != 0;
  }

  /** Modulus and exponent of a decoded key; there is a modulus before the exponent fails. */
  method ReadKey(key: seq<byte>) returns (ok: bool, mod: seq<byte>, exp: seq<byte>)
    requires 2 <= |key| < B32
    ensures ok == IsKey(key)
    ensures ok ==> mod == IntegerAt(key, ModulusAt(key)) && exp == IntegerAt(key, ExponentAt(key))
  {
    var parser := new RsaKeyParser(key);
    mod, exp := [], [];
    ok := ReadPrelude(parser);
    if !ok {
      return;
    }
    mod := parser.ReadInt();
    if mod == [] {
      return false, [], [];
    }
    exp := parser.ReadInt();
    ok := exp != [];
  }

  // ----- what the standard encodes is read

  /** What is left from a position on. */
  ghost predicate From(key: seq<byte>, p: nat, s: seq<byte>) { p < |key| && key[p..] == s }

  lemma NextFrom(key: seq<byte>, p: nat, b: byte, rest: seq<byte>)
    requires From(key, p, [b] + rest) && rest != []
    ensures key[p] == b && From(key, Next(key, p), rest)
  {
    assert key[p] == key[p..][0] && key[p + 1..] == key[p..][1..];
  }

  lemma {:induction false} DigitsFrom(key: seq<byte>, p: nat, digits: seq<byte>, rest: seq<byte>)
    requires From(key, p, digits + rest) && rest != []
    ensures DigitsAt(key, p, |digits|) == digits && From(key, Skip(key, p, |digits|), rest)
  {
    if digits == [] {
      assert digits + rest == rest;
    } else {
      var n := |digits| - 1;
      var last := [digits[n]] + rest;
      assert digits + rest == digits[..n] + last;
      DigitsFrom(key, p, digits[..n], last);
      NextFrom(key, Skip(key, p, n), digits[n], rest);
      assert digits == digits[..n] + [digits[n]];
    }
  }

  /** A tag and a length, with something behind them. */
  lemma FieldFrom(key: seq<byte>, p: nat, tag: byte, n: u32, s: seq<byte>, rest: seq<byte>)
    requires From(key, p, [tag] + (s + rest)) && rest != [] && IsLength(n, s)
    ensures key[p] == tag && FieldAt(key, p).len == n && FieldAt(key, p).bytes == |s| - 1
    ensures From(key, FieldAt(key, p).from, rest)
  {
    var digits := s[1..];
    NextFrom(key, p, tag, s + rest);
    var q := Next(key, p);
    assert s + rest == [s[0]] + (digits + rest);
    NextFrom(key, q, s[0], digits + rest);
    DigitsFrom(key, Next(key, q), digits, rest);
    assert n < 0x80 ==> digits + rest == rest;
  }

  lemma ContentFrom(key: seq<byte>, f: Field, c: seq<byte>, rest: seq<byte>)
    requires From(key, f.from, c + rest) && f.len == |c| > 0 && |key| < B32
    ensures CanPass(|key|, f.from, f.len) && ContentOf(key, f) == c
    ensures rest != [] ==> From(key, Passed(|key|, f.from, f.len), rest)
  {
    ContentAt(key, f.from, c, rest);
    Wrap(|key|, f.from, f.len);
  }

  /** A tag, a length and the content. */
  lemma ValueFrom(key: seq<byte>, p: nat, tag: byte, n: u32, s: seq<byte>, c: seq<byte>, rest: seq<byte>)
    requires From(key, p, [tag] + (s + (c + rest))) && IsLength(n, s) && n == |c| > 0 && |key| < B32
    ensures HasContent(key, p, tag) && ContentOf(key, FieldAt(key, p)) == c
    ensures rest != [] ==> From(key, End(key, p), rest)
  {
    FieldFrom(key, p, tag, n, s, c + rest);
    ContentFrom(key, FieldAt(key, p), c, rest);
  }

  /** A key laid out as the standard says is read, with its modulus and exponent. */
  lemma LayoutIsKey(x: Layout, key: seq<byte>, cm: seq<byte>, ce: seq<byte>)
    requires IsLayout(x, key, cm, ce) && 2 <= |key| < B32 && Stripped(cm) != [] && Stripped(ce) != []
    ensures IsKey(key)
    ensures IntegerAt(key, ModulusAt(key)) == Stripped(cm) && IntegerAt(key, ExponentAt(key)) == Stripped(ce)
  {
    TopFrom(x, key, cm, ce);
    AlgorithmFrom(x, key, cm, ce, AlgorithmAt(key));
    BitsFrom(x, key, cm, ce, BitsAt(key));
    IntegersFrom(x, key, cm, ce, ModulusAt(key));
  }

  lemma TopFrom(x: Layout, key: seq<byte>, cm: seq<byte>, ce: seq<byte>)
    requires IsLayout(x, key, cm, ce) && 2 <= |key| < B32
    ensures IsTop(key) && From(key, AlgorithmAt(key), x.alg)
  {
    assert key[0..] == key;
    FieldFrom(key, 0, 0x30, x.top.n, x.top.s, x.alg);
    TopLength(key, x.top.s, x.alg);
  }

  lemma TopLength(key: seq<byte>, s: seq<byte>, rest: seq<byte>)
    requires key == [0x30] + (s + rest) && s != [] && |key| < B32
    ensures (|key| - 2 - (|s| - 1)) % B32 == |rest|
  {
    assert |key| == 1 + |s| + |rest|;
    ModSmall(|rest|, B32);
  }

  lemma AlgorithmFrom(x: Layout, key: seq<byte>, cm: seq<byte>, ce: seq<byte>, p: nat)
    requires IsLayout(x, key, cm, ce) && |key| < B32 && From(key, p, x.alg)
    ensures IsAlgorithm(key, p) && From(key, AfterAlgorithm(key, p), x.bits)
  {
    FieldFrom(key, p, 0x30, x.algLen.n, x.algLen.s, x.oid);
    OidFrom(x, key, cm, ce, FieldAt(key, p).from);
  }

  lemma OidFrom(x: Layout, key: seq<byte>, cm: seq<byte>, ce: seq<byte>, p: nat)
    requires IsLayout(x, key, cm, ce) && |key| < B32 && From(key, p, x.oid)
    ensures IsRsaEncryption(key, p) && From(key, Skip(key, End(key, p), 2), x.bits)
  {
    ValueFrom(key, p, 0x06, x.oidLen.n, x.oidLen.s, OID, x.nul);
    NullFrom(x, key, cm, ce, End(key, p));
  }

  lemma NullFrom(x: Layout, key: seq<byte>, cm: seq<byte>, ce: seq<byte>, p: nat)
    requires IsLayout(x, key, cm, ce) && From(key, p, x.nul)
    ensures IsNull(key, p) && From(key, Skip(key, p, 2), x.bits)
  {
    NextFrom(key, p, 0x05, [0x00] + x.bits);
    NextFrom(key, Next(key, p), 0x00, x.bits);
    assert Skip(key, p, 2) == Next(key, Skip(key, p, 1));
  }

  lemma BitsFrom(x: Layout, key: seq<byte>, cm: seq<byte>, ce: seq<byte>, p: nat)
    requires IsLayout(x, key, cm, ce) && From(key, p, x.bits)
    ensures IsBits(key, p) && From(key, InBits(key, p), x.first)
  {
    FieldFrom(key, p, 0x03, x.bitLen.n, x.bitLen.s, [0x00] + x.keys);
    var q := FieldAt(key, p).from;
    NextFrom(key, q, 0x00, x.keys);
    FieldFrom(key, Next(key, q), 0x30, x.keyLen.n, x.keyLen.s, x.first);
  }

  lemma IntegersFrom(x: Layout, key: seq<byte>, cm: seq<byte>, ce: seq<byte>, p: nat)
    requires IsLayout(x, key, cm, ce) && |key| < B32 && From(key, p, x.first) && cm != [] && ce != []
    ensures IntegerAt(key, p) == Stripped(cm) && IntegerAt(key, End(key, p)) == Stripped(ce)
  {
    ValueFrom(key, p, 0x02, x.firstLen.n, x.firstLen.s, cm, x.second);
    ValueFrom(key, End(key, p), 0x02, x.secondLen.n, x.secondLen.s, ce, []);
  }

  // ----- the armour

  const NEWLINE: byte := 10

  function Header(): (s: seq<byte>)
    ensures |s| == 26
  {
    [45, 45, 45, 45, 45, 66, 69, 71, 73, 78, 32, 80, 85, 66, 76, 73, 67, 32, 75, 69, 89, 45, 45, 45, 45, 45]
  }

  function Trailer(): (s: seq<byte>)
    ensures |s| == 24
  {
    [45, 45, 45, 45, 45, 69, 78, 68, 32, 80, 85, 66, 76, 73, 67, 32, 75, 69, 89, 45, 45, 45, 45, 45]
  }

  function Lines(s: seq<byte>): (r: seq<byte>)
    ensures |r| <= |s|
  {
    if s == [] then [] else if s[0] == NEWLINE then Lines(s[1..]) else [s[0]] + Lines(s[1..])
  }

  method StripNewline(s: seq<byte>) returns (r: seq<byte>)
    ensures r == Lines(s)
  {
    r := [];
    for i := 0 to |s|
      invariant r + Lines(s[i..]) == Lines(s)
    {
      assert s[i..][0] == s[i] && s[i..][1..] == s[i + 1..];
      if s[i] != NEWLINE {
        assert r + ([s[i]] + Lines(s[i + 1..])) == (r + [s[i]]) + Lines(s[i + 1..]);
        r := r + [s[i]];
      }
    }
  }

  predicate HasArmour(s: seq<byte>) {
    |s| >= 26 && s[..26] == Header() && s[|s| - 24..] == Trailer()
  }

  /** Header and trailer share characters. */
  predicate Overlap(s: seq<byte>) { HasArmour(s) && |s| < 50 }

  /** What is between header and trailer.  Where they overlap the second erase starts
      before the beginning of what the first has left, which is undefined. */
  method StripHeaderTrailer(s: seq<byte>) returns (defined: bool, r: seq<byte>)
    ensures defined <==> !Overlap(s)
    ensures defined ==> r == if HasArmour(s) then s[26..|s| - 24] else []
  {
    if |s| < 26 || s[..26] != Header() || s[|s| - 24..] != Trailer() {
      return true, [];
    }
    r := s[26..];
    if |r| < 24 {
      return false, [];
    }
    return true, r[..|r| - 24];
  }

  /** The five hyphens between them once: 45 characters for which parsing is undefined. */
  lemma OverlapReal()
    ensures Overlap(Header() + Trailer()[5..])
  {
    var h, t := Header(), Trailer();
    var s := h + t[5..];
    assert |h| == 26 && |t| == 24 && s[..26] == h;
    assert h[21..] == t[..5] by {
      assert forall i :: 0 <= i < 5 ==> h[21 + i] == 45 && t[i] == 45;
    }
    assert s[21..] == h[21..] + t[5..] == t;
  }

  // ----- hexadecimal

  function HexDigit(x: nat): byte
    requires x < 16
  {
    if x < 10 then x + 48 else x + 87
  }

  function Hex(d: seq<byte>): seq<byte> {
    if d == [] then [] else Hex(d[..|d| - 1]) + [HexDigit(d[|d| - 1] / 16), HexDigit(d[|d| - 1] % 16)]
  }

  method ToHex(d: seq<byte>) returns (r: seq<byte>)
    ensures r == Hex(d)
  {
    r := [];
    for i := 0 to |d|
      invariant r == Hex(d[..i])
    {
      assert d[..i + 1][..i] == d[..i];
      r := r + [HexDigit(d[i] / 16), HexDigit(d[i] % 16)];
    }
    assert d[..|d|] == d;
  }

  /** The value of a hexadecimal digit. */
  function DigitValue(c: byte): (x: nat)
    ensures x < 16
  {
    if 48 <= c <= 57 then c - 48 else if 97 <= c <= 102 then c - 87 else 0
  }

  /** Hexadecimal text read back. */
  function Unhex(s: seq<byte>): seq<byte> {
    if |s| < 2 then [] else Unhex(s[..|s| - 2]) + [16 * DigitValue(s[|s| - 2]) + DigitValue(s[|s| - 1])]
  }

  lemma {:induction false} UnhexHex(d: seq<byte>)
    ensures Unhex(Hex(d)) == d
  {
    if d != [] {
      var m := |d| - 1;
      UnhexHex(d[..m]);
      UnhexPair(Hex(d[..m]), d[m]);
      assert d == d[..m] + [d[m]];
    }
  }

  lemma UnhexPair(s: seq<byte>, x: byte)
    ensures Unhex(s + [HexDigit(x / 16), HexDigit(x % 16)]) == Unhex(s) + [x]
  {
    var t := s + [HexDigit(x / 16), HexDigit(x % 16)];
    assert t[..|t| - 2] == s;
    assert 16 * (x / 16) + x % 16 == x;
  }

  /** Hexadecimal text tells the bytes. */
  lemma HexInjective(a: seq<byte>, b: seq<byte>)
    requires Hex(a) == Hex(b)
    ensures a == b
  {
    UnhexHex(a);
    UnhexHex(b);
  }

  /** A text that is, but for line breaks, the armoured encoding of a key. */
  ghost predicate IsArmoured(text: seq<byte>, m: seq<byte>, e: seq<byte>)
    requires Sized(m, e)
  {
    Lines(text) == Header() + (Encode(PublicKeyInfo(m, e)) + Trailer())
  }

  /** What is between the armour, decoded; nothing where there is no armour or no base64. */
  ghost function Decoded(text: seq<byte>): (key: seq<byte>)
    requires !Overlap(Lines(text))
    ensures |key| <= |text|
  {
    var s := Lines(text);
    if !HasArmour(s) then [] else
      DecodedLength(s[26..|s| - 24]);
      var body := Body(s[26..|s| - 24]);
      if AllBase64(body) then Bytes(body) else []
  }

  /** A text is accepted, with 0, exactly if it is an armoured key of the RSA algorithm, and
      then its modulus and exponent are returned in hexadecimal; all others are refused,
      with -1. */
  method ParseRsaPubkey(pubkey: seq<byte>) returns (defined: bool, code: int, mod: seq<byte>, exp: seq<byte>)
    requires |pubkey| < B32
    ensures defined <==> !Overlap(Lines(pubkey))
    ensures defined ==> code == if IsKey(Decoded(pubkey)) then 0 else -1
    ensures defined && code == 0 ==> var key := Decoded(pubkey);
      HasArmour(Lines(pubkey)) && mod == Hex(IntegerAt(key, ModulusAt(key))) &&
      exp == Hex(IntegerAt(key, ExponentAt(key)))
  {
    code, mod, exp := -1, [], [];
    var key;
    defined, key := Unwrap(pubkey);
    if !defined || |key| < 2 {
      return;
    }
    var ok, modBytes, expBytes := ReadKey(key);
    mod := ToHex(modBytes);
    if !ok {
      return;
    }
    exp := ToHex(expBytes);
    code := 0;
  }

  /** Of the armoured encoding of any key the modulus and the exponent are returned. */
  lemma ArmouredAccepted(text: seq<byte>, m: seq<byte>, e: seq<byte>)
    requires |text| < B32 && Sized(m, e) && IsArmoured(text, m, e)
    ensures !Overlap(Lines(text)) && IsKey(Decoded(text))
    ensures var key := Decoded(text); IntegerAt(key, ModulusAt(key)) == m && IntegerAt(key, ExponentAt(key)) == e
  {
    var der := PublicKeyInfo(m, e);
    var x := KeyLayout(m, e);
    DecodeEncode(der);
    Unarmoured(Lines(text), Encode(der));
    StrippedContent(m);
    StrippedContent(e);
    LayoutIsKey(x, Decoded(text), Content(m), Content(e));
  }

  /** Take the armour and the base64 encoding off. */
  method Unwrap(pubkey: seq<byte>) returns (defined: bool, key: seq<byte>)
    ensures defined <==> !Overlap(Lines(pubkey))
    ensures defined ==> key == Decoded(pubkey)
  {
    var stripped := StripNewline(pubkey);
    if stripped == [] {
      return true, [];
    }
    defined, stripped := StripHeaderTrailer(stripped);
    if !defined || stripped == [] {
      return defined, [];
    }
    key := Decode(stripped);
  }

  lemma Unarmoured(s: seq<byte>, body: seq<byte>)
    requires s == Header() + (body + Trailer())
    ensures HasArmour(s) && |s| == |body| + 50 && s[26..|s| - 24] == body
  {
    assert s[..26] == Header();
    assert s[|s| - 24..] == Trailer();
  }

  lemma DecodedLength(s: seq<byte>)
    ensures |Bytes(Body(s))| <= |s|
  {
    BodyPrefix(s);
    BytesLength(Body(s));
  }

  lemma {:induction false} BytesLength(s: seq<byte>)
    ensures |Bytes(s)| <= |s|
  {
    if |s| >= 4 { BytesLength(s[4..]); }
  }
}
