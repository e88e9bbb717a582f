/** Big-endian amounts and the checked byte loops of src/utils.cpp, for arrays of any length. */
module Amounts {

  type byte = x: int | 0 <= x < 256
  type uint16 = x: int | 0 <= x < 0x1_0000
  type bit = x: int | 0 <= x < 2

  /** Number of values an n-byte amount can take. */
  function Pow256(n: nat): (p: nat)
    ensures p > 0
  {
    if n == 0 then 1 else 256 * Pow256(n - 1)
  }

  /** The number a big-endian byte string stands for. */
  function Value(s: seq<byte>): nat {
    if s == [] then 0 else 256 * Value(s[..|s| - 1]) + s[|s| - 1]
  }

  /** The low n bytes of v, most significant first. */
  function Bytes(v: nat, n: nat): (s: seq<byte>)
    ensures |s| == n
  {
    if n == 0 then [] else Bytes(v / 256, n - 1) + [v % 256]
  }

  function Zeros(n: nat): (s: seq<byte>)
    ensures |s| == n && forall i :: 0 <= i < n ==> s[i] == 0
  {
    seq(n, _ => 0)
  }

  /** Is every byte zero? Stated as the comparison the source makes against a zero block. */
  predicate IsZero(s: seq<byte>) {
    s == Zeros(|s|)
  }

  // ---------- arithmetic ----------

  lemma MulLe(x: int, y: int, p: nat)
    requires x <= y
    ensures x * p <= y * p
  {
  }

  lemma LeadingDigit(x: int, y: int, p: nat, u: nat, v: nat)
    requires x < y && u < p
    ensures x * p + u < y * p + v
  {
    MulLe(x + 1, y, p);
    assert (x + 1) * p == x * p + p;
  }

  /** Euclidean division is determined by its defining equation. */
  lemma ModUnique(v: int, p: nat, k: int, r: nat)
    requires r < p && v == k * p + r
    ensures v % p == r && v / p == k
  {
    var q, m := v / p, v % p;
    assert v == q * p + m;
    if q < k {
      LeadingDigit(q, k, p, m, r);
    } else if k < q {
      LeadingDigit(k, q, p, r, m);
    }
  }

  lemma DigitMod(v: nat, p: nat)
    requires p > 0
    ensures 256 * ((v / 256) % p) + v % 256 == v % (256 * p)
  {
    var q, d := v / 256, v % 256;
    var m, k := q % p, q / p;
    assert q == k * p + m;
    assert 256 * (k * p) == k * (256 * p);
    ModUnique(v, 256 * p, k, 256 * m + d);
  }

  // ---------- what a byte string is worth ----------

  lemma {:induction false} ValueBound(s: seq<byte>)
    ensures Value(s) < Pow256(|s|)
  {
    if s != [] {
      ValueBound(s[..|s| - 1]);
    }
  }

  /** Two amounts of the same width are the same bytes exactly when they are the same number. */
  lemma {:induction false} ValueInjective(s: seq<byte>, t: seq<byte>)
    requires |s| == |t|
    ensures Value(s) == Value(t) <==> s == t
  {
    if s != [] {
      var n := |s| - 1;
      ValueInjective(s[..n], t[..n]);
      assert s == s[..n] + [s[n]] && t == t[..n] + [t[n]];
    }
  }

  /** Writing a number and reading it back keeps it, modulo the width. */
  lemma {:induction false} BytesRoundTrip(v: nat, n: nat)
    ensures Value(Bytes(v, n)) == v % Pow256(n)
  {
    if n > 0 {
      BytesRoundTrip(v / 256, n - 1);
      DigitMod(v, Pow256(n - 1));
      assert Bytes(v, n)[..n - 1] == Bytes(v / 256, n - 1);
    }
  }

  /** is_zero compares bytes; it decides whether the amount is the number zero. */
  lemma {:induction false} IsZeroMeansZero(s: seq<byte>)
    ensures IsZero(s) <==> Value(s) == 0
  {
    if s != [] {
      var n := |s| - 1;
      IsZeroMeansZero(s[..n]);
      assert s == s[..n] + [s[n]];
      if IsZero(s) {
        assert s[..n] == Zeros(n);
      }
      if Value(s) == 0 {
        assert s == Zeros(|s|);
      }
    }
  }

  /** What digit x is worth when n digits follow it. */
  function Weight(x: nat, n: nat): nat {
    if n == 0 then x else 256 * Weight(x, n - 1)
  }

  /** Prepending a digit: the weight of the most significant byte. */
  lemma {:induction false} ValueCons(x: byte, s: seq<byte>)
    ensures Value([x] + s) == Weight(x, |s|) + Value(s)
  {
    if s == [] {
      assert Value([x]) == 256 * Value([x][..0]) + x;
    } else {
      var n := |s| - 1;
      ValueCons(x, s[..n]);
      assert ([x] + s)[..|s|] == [x] + s[..n];
    }
  }

  // ---------- one digit of the loops ----------

  function Top(c: bit, n: nat): nat {
    if c == 1 then Pow256(n) else 0
  }

  lemma {:induction false} AddWeights(x: nat, y: nat, c: bit, n: nat, c': bit, d: nat)
    requires c + x + y == 256 * c' + d
    ensures Top(c, n) + Weight(x, n) + Weight(y, n) == Top(c', n + 1) + Weight(d, n)
  {
    if n > 0 {
      AddWeights(x, y, c, n - 1, c', d);
    }
  }

  /** What the addition loop knows after the low |r| bytes: r and the carry hold the sum of xs and ys. */
  ghost predicate Added(xs: seq<byte>, ys: seq<byte>, r: seq<byte>, c: int) {
    |xs| == |ys| == |r| && 0 <= c < 2 && Top(c, |r|) + Value(r) == Value(xs) + Value(ys)
  }

  /** What the subtraction loop knows: r and ys make up xs and the borrow. */
  ghost predicate Subtracted(xs: seq<byte>, ys: seq<byte>, r: seq<byte>, c: int) {
    |xs| == |ys| == |r| && 0 <= c < 2 && Value(r) + Value(ys) == Value(xs) + Top(c, |r|)
  }

  lemma AddDigit(xs: seq<byte>, ys: seq<byte>, rs: seq<byte>, c: bit, c': bit)
    requires |xs| == |ys| == |rs| > 0
    requires Added(xs[1..], ys[1..], rs[1..], c)
    requires c + xs[0] + ys[0] == 256 * c' + rs[0]
    ensures Added(xs, ys, rs, c')
  {
    ValueCons(xs[0], xs[1..]);
    ValueCons(ys[0], ys[1..]);
    ValueCons(rs[0], rs[1..]);
    assert xs == [xs[0]] + xs[1..] && ys == [ys[0]] + ys[1..] && rs == [rs[0]] + rs[1..];
    AddWeights(xs[0], ys[0], c, |xs| - 1, c', rs[0]);
  }

  lemma SubDigit(xs: seq<byte>, ys: seq<byte>, rs: seq<byte>, c: bit, c': bit)
    requires |xs| == |ys| == |rs| > 0
    requires Subtracted(xs[1..], ys[1..], rs[1..], c)
    requires rs[0] + ys[0] + c == xs[0] + 256 * c'
    ensures Subtracted(xs, ys, rs, c')
  {
    ValueCons(xs[0], xs[1..]);
    ValueCons(ys[0], ys[1..]);
    ValueCons(rs[0], rs[1..]);
    assert xs == [xs[0]] + xs[1..] && ys == [ys[0]] + ys[1..] && rs == [rs[0]] + rs[1..];
    AddWeights(rs[0], ys[0], c, |xs| - 1, c', xs[0]);
  }

  /** v reduced into [0, p) when it is off by at most one p: the value a carry or borrow leaves behind. */
  function Wrapped(v: int, p: nat): (r: int)
    requires p > 0 && 0 <= v + p < 3 * p
    ensures 0 <= r < p
  {
    if v < 0 then v + p else if v < p then v else v - p
  }

  function WrappedSum(a: seq<byte>, b: seq<byte>): (r: nat)
    requires |a| == |b|
    ensures r < Pow256(|a|)
  {
    ValueBound(a);
    ValueBound(b);
    Wrapped(Value(a) + Value(b), Pow256(|a|))
  }

  function WrappedDifference(a: seq<byte>, b: seq<byte>): (r: nat)
    requires |a| == |b|
    ensures r < Pow256(|a|)
  {
    ValueBound(a);
    ValueBound(b);
    Wrapped(Value(a) - Value(b), Pow256(|a|))
  }

  lemma WrappedIsModulo(v: int, p: nat)
    requires p > 0 && 0 <= v + p < 3 * p
    ensures Wrapped(v, p) == v % p
  {
    ModUnique(v, p, if v < 0 then -1 else if v < p then 0 else 1, Wrapped(v, p));
  }

  /** The two wrapped results are the sum and the difference modulo 256^n. */
  lemma WrappedResultsAreModulo(a: seq<byte>, b: seq<byte>)
    requires |a| == |b|
    ensures WrappedSum(a, b) == (Value(a) + Value(b)) % Pow256(|a|)
    ensures WrappedDifference(a, b) == (Value(a) - Value(b)) % Pow256(|a|)
  {
    ValueBound(a);
    ValueBound(b);
    WrappedIsModulo(Value(a) + Value(b), Pow256(|a|));
    WrappedIsModulo(Value(a) - Value(b), Pow256(|a|));
  }

  lemma AddExit(a: seq<byte>, b: seq<byte>, r: seq<byte>, c: bit)
    requires Added(a, b, r, c)
    ensures c == 0 <==> Value(a) + Value(b) < Pow256(|a|)
    ensures Value(r) == WrappedSum(a, b)
  {
    ValueBound(r);
  }

  lemma SubExit(a: seq<byte>, b: seq<byte>, r: seq<byte>, c: bit)
    requires Subtracted(a, b, r, c)
    ensures c == 0 <==> Value(a) >= Value(b)
    ensures Value(r) == WrappedDifference(a, b)
  {
    ValueBound(r);
    ValueBound(a);
    ValueBound(b);
  }

  // ---------- the loops ----------

  /** amount_checked_add. The result may be one of the operands: each byte is read before it is written. */
  method CheckedAdd(res: array<byte>, a: array<byte>, b: array<byte>) returns (ok: bool)
    requires res.Length == a.Length == b.Length
    modifies res
    ensures ok <==> Value(old(a[..])) + Value(old(b[..])) < Pow256(res.Length)
    ensures Value(res[..]) == WrappedSum(old(a[..]), old(b[..]))
  {
    ghost var a0, b0 := a[..], b[..];
    var n := res.Length;
    var carry: uint16 := 0;
    for i := 0 to n
      invariant carry <= 1
      invariant forall k :: 0 <= k < n - i ==> a[k] == a0[k] && b[k] == b0[k]
      invariant Added(a0[n - i..], b0[n - i..], res[n - i..], carry)
    {
      var j := n - i - 1;
      ghost var tail, before := res[j + 1..], carry;
      var aj: uint16 := a[j];
      var bj: uint16 := b[j];
      var tmp: uint16 := carry + aj + bj;
      res[j] := tmp % 256;
      carry := tmp / 256;
      assert res[j..][1..] == tail;
      assert Added(a0[j..], b0[j..], res[j..], carry) by {
        assert a0[j..][1..] == a0[j + 1..] && b0[j..][1..] == b0[j + 1..];
        AddDigit(a0[j..], b0[j..], res[j..], before, carry);
      }
    }
    ok := carry == 0;
    assert res[0..] == res[..] && a0[0..] == a0 && b0[0..] == b0;
    AddExit(a0, b0, res[..], carry);
  }

  /** The body of the subtraction loop: one digit and the borrow it leaves. */
  method SubByte(aj: uint16, bj: uint16, borrow: uint16) returns (digit: byte, borrow': uint16)
    requires aj < 256 && bj < 256 && borrow <= 1
    ensures borrow' <= 1 && digit + bj + borrow == aj + 256 * borrow'
  {
    var tmp: uint16;
    if borrow + bj > aj {
      tmp := aj + 256 - borrow - bj;
      borrow' := 1;
    } else {
      tmp := aj - borrow - bj;
      borrow' := 0;
    }
    digit := tmp % 256;
  }

  /** amount_checked_sub: the difference modulo the width, and whether there was no borrow. */
  method CheckedSub(res: array<byte>, a: array<byte>, b: array<byte>) returns (ok: bool)
    requires res.Length == a.Length == b.Length
    modifies res
    ensures ok <==> Value(old(a[..])) >= Value(old(b[..]))
    ensures Value(res[..]) == WrappedDifference(old(a[..]), old(b[..]))
  {
    ghost var a0, b0 := a[..], b[..];
    var n := res.Length;
    var borrow: uint16 := 0;
    for i := 0 to n
      invariant borrow <= 1
      invariant forall k :: 0 <= k < n - i ==> a[k] == a0[k] && b[k] == b0[k]
      invariant Subtracted(a0[n - i..], b0[n - i..], res[n - i..], borrow)
    {
      var j := n - i - 1;
      ghost var tail, before: bit := res[j + 1..], borrow;
      var tmp: byte;
      tmp, borrow := SubByte(a[j], b[j], borrow);
      res[j] := tmp;
      assert res[j..][1..] == tail && res[j..][0] == tmp;
      assert Subtracted(a0[j..], b0[j..], res[j..], borrow) by {
        assert a0[j..][1..] == a0[j + 1..] && b0[j..][1..] == b0[j + 1..];
        SubDigit(a0[j..], b0[j..], res[j..], before, borrow);
      }
    }
    ok := borrow == 0;
    assert res[0..] == res[..] && a0[0..] == a0 && b0[0..] == b0;
    SubExit(a0, b0, res[..], borrow);
  }

  /** A checked addition that succeeds is undone, byte for byte, by the checked subtraction. */
  lemma AddUndoneBySub(a: seq<byte>, b: seq<byte>, sum: seq<byte>, diff: seq<byte>)
    requires |a| == |b| == |sum| == |diff|
    requires Value(a) + Value(b) < Pow256(|a|)
    requires Value(sum) == WrappedSum(a, b)
    requires Value(diff) == WrappedDifference(sum, b)
    ensures Value(sum) >= Value(b) && diff == a
  {
    assert Value(sum) == Value(a) + Value(b);
    assert Value(diff) == Value(a);
    ValueInjective(diff, a);
  }
}
