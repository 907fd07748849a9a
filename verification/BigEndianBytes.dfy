/** Numbers as bytes, the most significant first. */
module BigEndianBytes {
  import opened Words

  /** The k low bytes of n, the most significant first. */
  function BigEndian(n: nat, k: nat): (s: seq<byte>)
    ensures |s| == k
  {
    if k == 0 then [] else BigEndian(n / 256, k - 1) + [n % 256]
  }

  ghost predicate Fits(n: nat, k: nat) { if k == 0 then n == 0 else Fits(n / 256, k - 1) }

  lemma FitsEight(n: u64)
    ensures Fits(n, 8)
  {
    var a := n / 0x1_0000_0000;
    assert n / 256 / 256 / 256 / 256 == a && a < 0x1_0000_0000;
    assert a / 256 / 256 / 256 / 256 == 0;
    assert Fits(a / 256 / 256 / 256, 1);
    assert Fits(a / 256 / 256, 2);
    assert Fits(a, 4) by { assert Fits(a / 256, 3); }
    assert Fits(n / 256 / 256, 6) by { assert Fits(n / 256 / 256 / 256, 5); }
    assert Fits(n / 256, 7);
  }

  lemma {:induction false} BigEndianInjective(m: nat, n: nat, k: nat)
    requires Fits(m, k) && Fits(n, k) && BigEndian(m, k) == BigEndian(n, k)
    ensures m == n
  {
    if k > 0 {
      var s, t := BigEndian(m, k), BigEndian(n, k);
      assert s[..k - 1] == BigEndian(m / 256, k - 1) && t[..k - 1] == BigEndian(n / 256, k - 1);
      assert s[k - 1] == m % 256 && t[k - 1] == n % 256;
      BigEndianInjective(m / 256, n / 256, k - 1);
    }
  }

  /** The number bytes stand for. */
  function FromBig(s: seq<byte>): nat {
    if s == [] then 0 else FromBig(s[..|s| - 1]) * 256 + s[|s| - 1]
  }

  lemma {:induction false} FromBigEndian(n: nat, k: nat)
    requires Fits(n, k)
    ensures FromBig(BigEndian(n, k)) == n
  {
    if k > 0 {
      FromBigEndian(n / 256, k - 1);
      assert BigEndian(n, k)[..k - 1] == BigEndian(n / 256, k - 1);
    }
  }
}
