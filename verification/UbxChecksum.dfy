// The two-byte checksum of the UBX protocol, as computed by do_checksum.
module UbxChecksum {
  import opened Common

  // CK_A: the plain sum of the first n bytes.
  function SumA(s: seq<u8>, n: nat): nat
    requires n <= |s|
  {
    if n == 0 then 0 else SumA(s, n - 1) + s[n - 1]
  }

  // CK_B: every byte weighted by how many bytes of the first n follow it, itself included.
  function SumB(s: seq<u8>, n: nat): nat
    requires n <= |s|
  {
    if n == 0 then 0 else SumB(s, n - 1) + SumA(s, n)
  }

  // The last two bytes are the checksum of those before them.
  predicate ChecksumOk(s: seq<u8>)
    requires 2 <= |s|
  {
    SumA(s, |s| - 2) % 256 == s[|s| - 2] && SumB(s, |s| - 2) % 256 == s[|s| - 1]
  }

  // The sums look at the first n bytes only.
  lemma {:induction false} SumsPrefix(s: seq<u8>, t: seq<u8>, n: nat)
    requires n <= |s|
    ensures SumA(s + t, n) == SumA(s, n) && SumB(s + t, n) == SumB(s, n)
    decreases n
  {
    if n > 0 { SumsPrefix(s, t, n - 1); }
  }

  lemma ModPlus(a: int, b: int)
    ensures (a % 256 + b) % 256 == (a + b) % 256
  {}

  method DoChecksum(buf: seq<u8>) returns (ret: bool)
    requires 2 <= |buf|
    ensures ret == ChecksumOk(buf)
  {
    var len := |buf|;
    var ckA: u8, ckB: u8 := 0, 0;
    var i := 0;
    while i < len - 2
      invariant 0 <= i <= len - 2
      invariant ckA == SumA(buf, i) % 256 && ckB == SumB(buf, i) % 256
    {
      ModPlus(SumA(buf, i), buf[i]);
      ckA := (ckA + buf[i]) % 256;
      ModPlus(SumB(buf, i), ckA);
      ModPlus(SumA(buf, i + 1), SumB(buf, i));
      ckB := (ckB + ckA) % 256;
      i := i + 1;
    }
    ret := ckA == buf[len - 2] && ckB == buf[len - 1];
  }

  // ----- the sums in closed form

  function Weighted(s: seq<u8>, n: nat, k: nat): nat
    requires k <= n <= |s|
  {
    if k == 0 then 0 else Weighted(s, n, k - 1) + (n - (k - 1)) * s[k - 1]
  }

  lemma {:induction false} WeightedNext(s: seq<u8>, n: nat, k: nat)
    requires k <= n < |s|
    ensures Weighted(s, n + 1, k) == Weighted(s, n, k) + SumA(s, k)
    decreases k
  {
    if k > 0 {
      WeightedNext(s, n, k - 1);
      assert (n + 1 - (k - 1)) * s[k - 1] == (n - (k - 1)) * s[k - 1] + s[k - 1];
    }
  }

  // CK_B is the position-weighted sum.
  lemma {:induction false} SumBIsWeighted(s: seq<u8>, n: nat)
    requires n <= |s|
    ensures SumB(s, n) == Weighted(s, n, n)
    decreases n
  {
    if n > 0 {
      SumBIsWeighted(s, n - 1);
      WeightedNext(s, n - 1, n - 1);
    }
  }

  // ----- what it detects

  lemma {:induction false} SumAChange(s: seq<u8>, k: nat, x: u8, n: nat)
    requires k < |s| && n <= |s|
    ensures SumA(s[k := x], n) == SumA(s, n) + (if k < n then x - s[k] else 0)
    decreases n
  {
    if n > 0 { SumAChange(s, k, x, n - 1); }
  }

  lemma {:induction false} SumBChange(s: seq<u8>, k: nat, x: u8, n: nat)
    requires k < |s| && n <= |s|
    ensures SumB(s[k := x], n) == SumB(s, n) + (if k < n then (n - k) * (x - s[k]) else 0)
    decreases n
  {
    if n > 0 {
      SumBChange(s, k, x, n - 1);
      SumAChange(s, k, x, n);
      if k < n {
        assert (n - k) * (x - s[k]) == (n - 1 - k) * (x - s[k]) + (x - s[k]);
      }
    }
  }

  lemma NotCongruent(a: int, b: int)
    requires a % 256 == b % 256 && -256 < a - b < 256
    ensures a == b
  {}

  lemma SplitWeight(n: int, k: int, m: int, d: int)
    ensures (n - k) * d + (n - m) * (-d) == (m - k) * d
  {}

  // Changing one covered byte of a good message is always noticed.
  lemma SingleByteDetected(s: seq<u8>, k: nat, x: u8)
    requires 2 <= |s| && ChecksumOk(s) && k < |s| - 2 && x != s[k]
    ensures !ChecksumOk(s[k := x])
  {
    var n := |s| - 2;
    SumAChange(s, k, x, n);
    if ChecksumOk(s[k := x]) {
      NotCongruent(SumA(s[k := x], n), SumA(s, n));
    }
  }

  // Exactly which exchanges of two covered bytes go unnoticed.
  lemma SwapDetected(s: seq<u8>, k: nat, m: nat)
    requires 2 <= |s| && ChecksumOk(s) && k < m < |s| - 2
    ensures ChecksumOk(s[k := s[m]][m := s[k]]) <==> ((m - k) * (s[m] as int - s[k] as int)) % 256 == 0
  {
    var n := |s| - 2;
    var t := s[k := s[m]];
    var d: int := s[m] as int - s[k] as int;
    SumAChange(s, k, s[m], n);
    SumAChange(t, m, s[k], n);
    SumBChange(s, k, s[m], n);
    SumBChange(t, m, s[k], n);
    SplitWeight(n, k, m, d);
    SwapJudged(s, t[m := s[k]], (m - k) * d);
  }

  lemma SwapJudged(s: seq<u8>, r: seq<u8>, e: int)
    requires 2 <= |s| == |r| && ChecksumOk(s)
    requires r[|s| - 2] == s[|s| - 2] && r[|s| - 1] == s[|s| - 1]
    requires SumA(r, |s| - 2) == SumA(s, |s| - 2) && SumB(r, |s| - 2) == SumB(s, |s| - 2) + e
    ensures ChecksumOk(r) <==> e % 256 == 0
  {
    ModAdd(SumB(s, |s| - 2), e);
  }

  lemma ModAdd(a: int, e: int)
    ensures (a + e) % 256 == a % 256 <==> e % 256 == 0
  {}

  // So exchanging two neighbouring unequal covered bytes is always noticed.
  lemma NeighbourSwapDetected(s: seq<u8>, k: nat)
    requires 2 <= |s| && ChecksumOk(s) && k + 1 < |s| - 2 && s[k] != s[k + 1]
    ensures !ChecksumOk(s[k := s[k + 1]][k + 1 := s[k]])
  {
    hide ChecksumOk;
    SwapDetected(s, k, k + 1);
    NotMultiple(s[k + 1] as int - s[k] as int);
  }

  lemma NotMultiple(d: int)
    requires -256 < d < 256 && d != 0
    ensures d % 256 != 0
  {}
}
