/** Base64 (section 4 of RFC 4648) as libraries/eosiolib/core/eosio/crypto_utils.hpp decodes
    it, and hexadecimal output.  Masks and shifts are written as remainders and quotients. */
module Base64 {
  import opened Words

  const PAD: byte := 61

  predicate IsBase64Char(c: byte) {
    48 <= c <= 57 || 65 <= c <= 90 || 97 <= c <= 122 || c == 43 || c == 47
  }

  /** The lookup table: 255 for what is no base64 character. */
  function Lookup(c: byte): byte {
    if 65 <= c <= 90 then c - 65
    else if 97 <= c <= 122 then c - 71
    else if 48 <= c <= 57 then c + 4
    else if c == 43 then 62
    else if c == 47 then 63
    else 255
  }

  /** The character for six bits. */
  function CharOf(x: nat): (c: byte)
    requires x < 64
    ensures IsBase64Char(c) && Lookup(c) == x
  {
    if x < 26 then x + 65 else if x < 52 then x + 71 else if x < 62 then x - 4 else if x == 62 then 43 else 47
  }

  /** The alphabet has no other characters. */
  lemma Alphabet(c: byte)
    ensures IsBase64Char(c) <==> exists x: nat :: x < 64 && CharOf(x) == c
  {
    if IsBase64Char(c) { assert CharOf(Lookup(c)) == c; }
  }

  // ----- encoding, as the RFC has it

  /** The characters for bytes: four for three of them, one more than there are for a rest. */
  function Chars(x: seq<byte>): seq<byte> {
    if x == [] then []
    else if |x| == 1 then [CharOf(x[0] / 4), CharOf(x[0] % 4 * 16)]
    else if |x| == 2 then [CharOf(x[0] / 4), CharOf(x[0] % 4 * 16 + x[1] / 16), CharOf(x[1] % 16 * 4)]
    else FourChars(x[0], x[1], x[2]) + Chars(x[3..])
  }

  function FourChars(x: byte, y: byte, z: byte): (s: seq<byte>)
    ensures |s| == 4
  {
    [CharOf(x / 4), CharOf(x % 4 * 16 + y / 16), CharOf(y % 16 * 4 + z / 64), CharOf(z % 64)]
  }

  function Padding(n: nat): seq<byte> { if n % 3 == 1 then [PAD, PAD] else if n % 3 == 2 then [PAD] else [] }

  function Encode(x: seq<byte>): seq<byte> { Chars(x) + Padding(|x|) }

  // ----- decoding

  /** The three bytes of four looked-up characters. */
  function Triple(a: byte, b: byte, c: byte, d: byte): (t: seq<byte>)
    ensures |t| == 3
  {
    [(a * 4 + b / 16 % 4) % 256, (b % 16 * 16 + c / 4 % 16) % 256, (c % 4 * 64 + d) % 256]
  }

  /** The character at j, or 0, looked up. */
  function At(q: seq<byte>, j: nat): byte { if j < |q| then Lookup(q[j]) else Lookup(0) }

  function Quad(q: seq<byte>): (t: seq<byte>)
    ensures |t| == 3
  {
    Triple(At(q, 0), At(q, 1), At(q, 2), At(q, 3))
  }

  /** What a string of base64 characters stands for: three bytes for four characters, and
      one fewer than the characters left over. */
  function Bytes(s: seq<byte>): seq<byte> {
    if s == [] then [] else if |s| < 4 then Quad(s)[..|s| - 1] else Quad(s[..4]) + Bytes(s[4..])
  }

  /** The characters before the first padding. */
  function Body(s: seq<byte>): seq<byte> {
    if s == [] || s[0] == PAD then [] else [s[0]] + Body(s[1..])
  }

  ghost predicate AllBase64(s: seq<byte>) { forall i :: 0 <= i < |s| ==> IsBase64Char(s[i]) }

  lemma {:induction false} BodyIs(s: seq<byte>, n: nat)
    requires n <= |s| && (n == |s| || s[n] == PAD) && forall i :: 0 <= i < n ==> s[i] != PAD
    ensures Body(s) == s[..n]
  {
    if n > 0 {
      BodyIs(s[1..], n - 1);
      assert s[..n] == [s[0]] + s[1..][..n - 1];
    }
  }

  lemma {:induction false} BodyPrefix(s: seq<byte>)
    ensures var n := |Body(s)|; n <= |s| && Body(s) == s[..n] && (n < |s| ==> s[n] == PAD)
    ensures forall i :: 0 <= i < |Body(s)| ==> s[i] != PAD
  {
    if s != [] && s[0] != PAD {
      BodyPrefix(s[1..]);
      var n := |Body(s[1..])|;
      assert s[..n + 1] == [s[0]] + s[1..][..n];
    }
  }

  /** What is decoded, what waits for a full quad, and what is still to come. */
  ghost predicate Decoding(body: seq<byte>, r: seq<byte>, quad: seq<byte>, i: nat, at: nat) {
    i <= |quad| == 4 && at <= |body| && Bytes(body) == r + Bytes(quad[..i] + body[at..])
  }

  lemma TakeChar(body: seq<byte>, r: seq<byte>, quad: seq<byte>, i: nat, at: nat)
    requires Decoding(body, r, quad, i, at) && i < 4 && at < |body|
    ensures Decoding(body, r, quad[i := body[at]], i + 1, at + 1)
  {
    assert quad[..i] + body[at..] == quad[i := body[at]][..i + 1] + body[at + 1..];
  }

  lemma TakeQuad(body: seq<byte>, r: seq<byte>, quad: seq<byte>, at: nat)
    requires Decoding(body, r, quad, 4, at)
    ensures Decoding(body, r + Quad(quad), quad, 0, at)
  {
    var rest := body[at..];
    assert quad[..4] == quad && (quad + rest)[..4] == quad && (quad + rest)[4..] == rest;
    assert quad[..0] + rest == rest;
    assert r + (Quad(quad) + Bytes(rest)) == (r + Quad(quad)) + Bytes(rest);
  }

  method Decode(s: seq<byte>) returns (r: seq<byte>)
    ensures r == if AllBase64(Body(s)) then Bytes(Body(s)) else []
  {
    ghost var body := Body(s);
    BodyPrefix(s);
    var inLen, at, i, quad: seq<byte> := |s|, 0, 0, [0, 0, 0, 0];
    r := [];
    assert quad[..0] + body[0..] == body;
    while inLen > 0 && s[at] != PAD
      invariant at <= |body| && inLen == |s| - at && i < 4 && forall k :: 0 <= k < at ==> IsBase64Char(body[k])
      invariant Decoding(body, r, quad, i, at)
      decreases inLen
    {
      if !IsBase64Char(s[at]) {
        assert !IsBase64Char(body[at]);
        return [];
      }
      r, quad, i := Push(s[at], body, r, quad, i, at);
      at, inLen := at + 1, inLen - 1;
    }
    assert at == |body|;
    r := DecodeRest(body, r, quad, i);
  }

  /** One more character; four of them give three bytes. */
  method Push(c: byte, ghost body: seq<byte>, r0: seq<byte>, quad0: seq<byte>, i0: nat, ghost at: nat)
    returns (r: seq<byte>, quad: seq<byte>, i: nat)
    requires Decoding(body, r0, quad0, i0, at) && i0 < 4 && at < |body| && c == body[at]
    ensures Decoding(body, r, quad, i, at + 1) && i < 4
  {
    TakeChar(body, r0, quad0, i0, at);
    r, quad, i := r0, quad0[i0 := c], i0 + 1;
    if i == 4 {
      TakeQuad(body, r, quad, at + 1);
      r := r + Quad(quad);
      i := 0;
    }
  }

  /** One to three characters are left: they are filled up with zeros. */
  method DecodeRest(ghost body: seq<byte>, r0: seq<byte>, quad0: seq<byte>, i: nat) returns (r: seq<byte>)
    requires i < 4 && Decoding(body, r0, quad0, i, |body|)
    ensures r == Bytes(body)
  {
    r := r0;
    var quad := quad0;
    ghost var left := quad[..i];
    assert left + body[|body|..] == left;
    if i != 0 {
      for j := i to 4
        invariant |quad| == 4 && quad[..i] == left && forall k :: i <= k < j ==> quad[k] == 0
      {
        quad := quad[j := 0];
      }
      Padded(left, quad);
      r := r + Quad(quad)[..i - 1];
    }
  }

  lemma Padded(left: seq<byte>, quad: seq<byte>)
    requires 0 < |left| < 4 == |quad| && quad[..|left|] == left && forall k :: |left| <= k < 4 ==> quad[k] == 0
    ensures Quad(quad) == Quad(left)
  {
    assert forall j :: 0 <= j < |left| ==> quad[j] == left[j];
    assert At(quad, 0) == At(left, 0) && At(quad, 1) == At(left, 1) && At(quad, 2) == At(left, 2) &&
      At(quad, 3) == At(left, 3);
  }

  // ----- decoding inverts encoding

  lemma ThreeBytes(x: byte, y: byte, z: byte)
    ensures Triple(x / 4, x % 4 * 16 + y / 16, y % 16 * 4 + z / 64, z % 64) == [x, y, z]
  {
    FirstByte(x, y / 16);
    SecondByte(x % 4, y, z / 64);
    assert (y % 16 * 4 + z / 64) % 4 == z / 64;
  }

  lemma FirstByte(x: byte, h: nat)
    requires h < 16
    ensures (x / 4 * 4 + (x % 4 * 16 + h) / 16 % 4) % 256 == x
  {
  }

  lemma SecondByte(l: nat, y: byte, h: nat)
    requires l < 4 && h < 4
    ensures ((l * 16 + y / 16) % 16 * 16 + (y % 16 * 4 + h) / 4 % 16) % 256 == y
  {
    assert (l * 16 + y / 16) % 16 == y / 16;
    assert (y % 16 * 4 + h) / 4 == y % 16;
  }

  lemma OneChars(x: byte)
    ensures Quad(Chars([x]))[..1] == [x]
  {
    FirstByte(x, 0);
  }

  lemma TwoChars(x: byte, y: byte)
    ensures Quad(Chars([x, y]))[..2] == [x, y]
  {
    FirstByte(x, y / 16);
    SecondByte(x % 4, y, 0);
  }

  lemma ThreeChars(x: byte, y: byte, z: byte)
    ensures var q := FourChars(x, y, z); Quad(q) == [x, y, z] && AllBase64(q)
  {
    ThreeBytes(x, y, z);
  }

  lemma {:induction false} CharsDecode(x: seq<byte>)
    ensures Bytes(Chars(x)) == x && AllBase64(Chars(x))
  {
    if |x| == 1 {
      assert x == [x[0]];
      OneChars(x[0]);
    } else if |x| == 2 {
      assert x == [x[0], x[1]];
      TwoChars(x[0], x[1]);
    } else if |x| >= 3 {
      var q := FourChars(x[0], x[1], x[2]);
      CharsDecode(x[3..]);
      ThreeChars(x[0], x[1], x[2]);
      BytesJoin(q, Chars(x[3..]));
      assert x == [x[0], x[1], x[2]] + x[3..];
    }
  }

  lemma BytesJoin(q: seq<byte>, more: seq<byte>)
    requires |q| == 4
    ensures Bytes(q + more) == Quad(q) + Bytes(more)
    ensures AllBase64(q) && AllBase64(more) ==> AllBase64(q + more)
  {
    assert (q + more)[..4] == q && (q + more)[4..] == more;
  }

  /** Decoding an encoding gives the bytes back. */
  lemma DecodeEncode(x: seq<byte>)
    ensures AllBase64(Body(Encode(x))) && Bytes(Body(Encode(x))) == x
  {
    CharsDecode(x);
    var s, n := Encode(x), |Chars(x)|;
    assert forall i :: 0 <= i < n ==> s[i] == Chars(x)[i] && IsBase64Char(s[i]);
    BodyIs(s, n);
    assert s[..n] == Chars(x);
  }
}
