/** Big-endian byte-array addresses: copy, carry increment and comparison. */
module Ip {

  import opened Wrappers
  import opened Text

  function Pow256(n: nat): (r: nat)
    ensures r > 0
  {
    if n == 0 then 1 else 256 * Pow256(n - 1)
  }

  /** The number the first `n` bytes denote, most significant first. */
  function Prefix(s: seq<byte>, n: nat): nat
    requires n <= |s|
  {
    if n == 0 then 0 else Prefix(s, n - 1) * 256 + s[n - 1] as nat
  }

  /** The number a big-endian byte string denotes. */
  function Value(s: seq<byte>): nat { Prefix(s, |s|) }

  lemma {:induction false} PrefixBound(s: seq<byte>, n: nat)
    requires n <= |s|
    ensures Prefix(s, n) < Pow256(n)
  {
    if n > 0 {
      PrefixBound(s, n - 1);
    }
  }

  lemma {:induction false} PrefixInjective(a: seq<byte>, b: seq<byte>, n: nat)
    requires n <= |a| && n <= |b| && Prefix(a, n) == Prefix(b, n)
    ensures a[..n] == b[..n]
  {
    if n > 0 {
      assert a[n - 1] == b[n - 1];
      PrefixInjective(a, b, n - 1);
      assert a[..n] == a[..n - 1] + [a[n - 1]] && b[..n] == b[..n - 1] + [b[n - 1]];
    }
  }

  /** Among addresses of one length the bytes are determined by the number. */
  lemma {:induction false} ValueInjective(a: seq<byte>, b: seq<byte>)
    requires |a| == |b| && Value(a) == Value(b)
    ensures a == b
  {
    PrefixInjective(a, b, |a|);
    assert a == a[..|a|] && b == b[..|b|];
  }

  lemma {:induction false} PrefixAgrees(a: seq<byte>, b: seq<byte>, n: nat)
    requires n <= |a| && n <= |b| && a[..n] == b[..n]
    ensures Prefix(a, n) == Prefix(b, n)
  {
    if n > 0 {
      assert a[n - 1] == a[..n][n - 1] == b[n - 1] && a[..n - 1] == a[..n][..n - 1] == b[..n - 1];
      PrefixAgrees(a, b, n - 1);
    }
  }

  /** The first differing byte decides the numeric order, whatever follows it. */
  lemma {:induction false} FirstDifferenceDecides(a: seq<byte>, b: seq<byte>, i: nat, n: nat)
    requires i < n <= |a| == |b| && a[..i] == b[..i] && a[i] < b[i]
    ensures Prefix(a, n) < Prefix(b, n)
  {
    if n == i + 1 {
      PrefixAgrees(a, b, i);
    } else {
      FirstDifferenceDecides(a, b, i, n - 1);
    }
  }

  // Increment -----------------------------------------------------------------

  /** From `i` on, 255 bytes of `s` have become 0 bytes of `r`. */
  ghost predicate CarriedFrom(s: seq<byte>, r: seq<byte>, i: nat) {
    |s| == |r| && forall j | i <= j < |s| :: s[j] == 255 && r[j] == 0
  }

  lemma {:induction false} CarryStops(s: seq<byte>, r: seq<byte>, i: nat, n: nat)
    requires i < n <= |s| && CarriedFrom(s, r, i + 1)
    requires r[..i] == s[..i] && s[i] < 255 && r[i] == s[i] + 1
    ensures Prefix(r, n) == Prefix(s, n) + 1
  {
    if n == i + 1 {
      PrefixAgrees(r, s, i);
    } else {
      CarryStops(s, r, i, n - 1);
    }
  }

  lemma {:induction false} CarryDropsOut(s: seq<byte>, r: seq<byte>, n: nat)
    requires n <= |s| && CarriedFrom(s, r, 0)
    ensures Prefix(r, n) == 0 && Prefix(s, n) + 1 == Pow256(n)
  {
    if n > 0 {
      CarryDropsOut(s, r, n - 1);
    }
  }

  lemma {:induction false} ModuloStep(x: nat, m: nat)
    requires x < m
    ensures (x + 1) % m == if x + 1 == m then 0 else x + 1
  {
  }

  method CloneIP(ip: array?<byte>) returns (dup: array?<byte>)
    ensures ip == null <==> dup == null
    ensures dup != null ==> fresh(dup) && dup[..] == ip[..]
  {
    if ip == null {
      return null;
    }
    var copy := new byte[ip.Length];
    var i := 0;
    while i < ip.Length
      invariant 0 <= i <= ip.Length && copy[..i] == ip[..i]
    {
      copy[i] := ip[i];
      i := i + 1;
    }
    dup := copy;
  }

  method IncrementIP(ip: array?<byte>) returns (res: array?<byte>)
    ensures ip == null <==> res == null
    ensures res != null ==> fresh(res) && res.Length == ip.Length
    ensures res != null ==> Value(res[..]) == (Value(ip[..]) + 1) % Pow256(ip.Length)
    ensures ip != null ==> ip[..] == old(ip[..])
  {
    if ip == null {
      return null;
    }
    var next := CloneIP(ip);
    res := next;
    ghost var s := ip[..];
    PrefixBound(s, |s|);
    ModuloStep(Value(s), Pow256(|s|));
    var i := next.Length - 1;
    while i >= 0
      invariant -1 <= i < next.Length == |s|
      invariant next[..i + 1] == s[..i + 1] && CarriedFrom(s, next[..], i + 1)
    {
      assert next[i] == next[..i + 1][i] == s[i];
      next[i] := if next[i] == 255 then 0 else next[i] + 1;
      assert next[..i] == s[..i + 1][..i] == s[..i];
      if next[i] != 0 {
        CarryStops(s, next[..], i, |s|);
        PrefixBound(next[..], |s|);
        return;
      }
      i := i - 1;
    }
    CarryDropsOut(s, next[..], |s|);
  }

  // Comparison ----------------------------------------------------------------

  function Sign(n: int): int {
    if n < 0 then -1 else if n > 0 then 1 else 0
  }

  /** The four address bytes of an IPv4 address or of an IPv4-mapped IPv6 one. */
  function To4(s: seq<byte>): Option<seq<byte>> {
    if |s| == 4 then Some(s)
    else if |s| == 16 && (forall i | 0 <= i < 10 :: s[i] == 0) && s[10] == 255 && s[11] == 255 then Some(s[12..])
    else None
  }

  /** Whether two addresses are the same, the IPv4 and mapped forms identified. */
  predicate Equal(a: seq<byte>, b: seq<byte>) {
    if |a| == |b| then a == b
    else (|a| == 4 || |a| == 16) && (|b| == 4 || |b| == 16) && To4(a).Some? && To4(a) == To4(b)
  }

  function CompareText(a: string, b: string): int {
    if a == [] || b == [] then Sign(|a| - |b|)
    else if a[0] != b[0] then (if a[0] < b[0] then -1 else 1)
    else CompareText(a[1..], b[1..])
  }

  /** The textual comparison is that of strings: lexicographic, and zero for equal ones only. */
  lemma {:induction false} CompareTextIsLexicographic(a: string, b: string)
    ensures CompareText(a, b) < 0 <==> Less(a, b)
    ensures CompareText(a, b) == 0 <==> a == b
  {
    if a != [] && b != [] {
      assert a == [a[0]] + a[1..] && b == [b[0]] + b[1..];
      if a[0] == b[0] {
        CompareTextIsLexicographic(a[1..], b[1..]);
      }
    }
  }

  lemma {:induction false} CompareTextBounds(a: string, b: string)
    ensures -1 <= CompareText(a, b) <= 1
  {
    if a != [] && b != [] && a[0] == b[0] {
      CompareTextBounds(a[1..], b[1..]);
    }
  }

  /** An IPv4-mapped IPv6 address, ten zero bytes and two of 255 before it, stands for its last four. */
  lemma {:induction false} MappedIsIPv4(four: seq<byte>, s: seq<byte>)
    requires |four| == 4
    ensures To4(four) == Some(four)
    ensures |s| == 16 ==> (To4(s) == Some(four) <==> s == [0, 0, 0, 0, 0, 0, 0, 0, 0, 0, 255, 255] + four)
  {
    if |s| == 16 {
      assert s == s[..12] + s[12..];
      if s == [0, 0, 0, 0, 0, 0, 0, 0, 0, 0, 255, 255] + four {
        assert s[12..] == four;
      }
      if To4(s) == Some(four) {
        assert s[..12] == [0, 0, 0, 0, 0, 0, 0, 0, 0, 0, 255, 255];
      }
    }
  }

  /** `text` renders an address; it matters only when one side is not IPv4. */
  method CompareIP(a: array?<byte>, b: array?<byte>, text: seq<byte> -> string) returns (r: int)
    ensures a == null && b == null ==> r == 0
    ensures a == null && b != null ==> r == -1
    ensures a != null && b == null ==> r == 1
    ensures a != null && b != null ==>
              match (To4(a[..]), To4(b[..]))
              case (Some(aa), Some(bb)) => r == Sign(Value(aa) - Value(bb))
              case _ => r == CompareText(text(a[..]), text(b[..]))
    ensures -1 <= r <= 1
    ensures a != null && b != null && a.Length == b.Length == 4 ==>
              (r < 0 <==> Value(a[..]) < Value(b[..])) && (r == 0 <==> a[..] == b[..])
  {
    if a == null && b == null {
      return 0;
    }
    if a == null {
      return -1;
    }
    if b == null {
      return 1;
    }
    var aa, bb := To4(a[..]), To4(b[..]);
    if aa.None? || bb.None? {
      CompareTextBounds(text(a[..]), text(b[..]));
      return CompareText(text(a[..]), text(b[..]));
    }
    var i := 0;
    while i < |aa.value|
      invariant 0 <= i <= |aa.value| == |bb.value| == 4
      invariant aa.value[..i] == bb.value[..i]
    {
      if aa.value[i] < bb.value[i] {
        FirstDifferenceDecides(aa.value, bb.value, i, 4);
        return -1;
      }
      if aa.value[i] > bb.value[i] {
        FirstDifferenceDecides(bb.value, aa.value, i, 4);
        return 1;
      }
      i := i + 1;
    }
    assert aa.value == bb.value;
    return 0;
  }
}
