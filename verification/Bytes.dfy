/** Octets, the big-endian words of RFC 4506 sections 4.1 to 4.5, and zero padding. */
module Bytes {

  const TWO8 := 0x100
  const TWO16 := 0x1_0000
  const TWO24 := 0x100_0000
  const TWO32 := 0x1_0000_0000
  const TWO64 := 0x1_0000_0000_0000_0000

  type byte = x: int | 0 <= x < TWO8
  type u32 = x: int | 0 <= x < TWO32
  type u64 = x: int | 0 <= x < TWO64

  datatype Option<+T> = None | Some(value: T)

  function Put32(n: u32): (b: seq<byte>)
    ensures |b| == 4
  {
    [n / TWO24, n / TWO16 % TWO8, n / TWO8 % TWO8, n % TWO8]
  }

  function Get32(b: seq<byte>): (n: u32)
    requires |b| >= 4
  {
    b[0] * TWO24 + b[1] * TWO16 + b[2] * TWO8 + b[3]
  }

  function Put64(n: u64): (b: seq<byte>)
    ensures |b| == 8
  {
    Put32(n / TWO32) + Put32(n % TWO32)
  }

  function Get64(b: seq<byte>): (n: u64)
    requires |b| >= 8
  {
    Get32(b) * TWO32 + Get32(b[4..])
  }

  /** Octets of zero fill after n octets of data (RFC 4506 section 3). */
  function Pad(n: nat): (k: nat)
    ensures k < 4 && (n + k) % 4 == 0
  {
    (4 - n % 4) % 4
  }

  function Zeros(n: nat): (b: seq<byte>)
    ensures |b| == n && forall i :: 0 <= i < n ==> b[i] == 0
  {
    seq(n, _ => 0)
  }

  lemma Get32Put32(n: u32, s: seq<byte>)
    ensures Get32(Put32(n) + s) == n && (Put32(n) + s)[4..] == s
  {
    assert n == n / TWO8 * TWO8 + n % TWO8;
    assert n / TWO8 == n / TWO16 * TWO8 + n / TWO8 % TWO8;
    assert n / TWO16 == n / TWO24 * TWO8 + n / TWO16 % TWO8;
  }

  lemma Put32Get32(b: seq<byte>)
    requires |b| >= 4
    ensures Put32(Get32(b)) == b[..4]
  {
    var n := Get32(b);
    assert n / TWO8 == b[0] * TWO16 + b[1] * TWO8 + b[2];
    assert n / TWO16 == b[0] * TWO8 + b[1];
    assert n / TWO24 == b[0];
  }

  lemma Get64Put64(n: u64, s: seq<byte>)
    ensures Get64(Put64(n) + s) == n && (Put64(n) + s)[8..] == s
  {
    var hi, lo := n / TWO32, n % TWO32;
    assert Put64(n) + s == Put32(hi) + (Put32(lo) + s);
    Get32Put32(hi, Put32(lo) + s);
    Get32Put32(lo, s);
  }

  lemma Put64Get64(b: seq<byte>)
    requires |b| >= 8
    ensures Put64(Get64(b)) == b[..8]
  {
    var hi, lo := Get32(b), Get32(b[4..]);
    assert Get64(b) / TWO32 == hi && Get64(b) % TWO32 == lo;
    Put32Get32(b);
    Put32Get32(b[4..]);
  }

  /** Lexicographic order. */
  ghost predicate Before(a: seq<byte>, b: seq<byte>) {
    exists k :: 0 <= k < |a| && k < |b| && a[..k] == b[..k] && a[k] < b[k]
  }

  /** Words are big-endian: their octets are in the order of the numbers. */
  lemma Put32Order(n: u32, m: u32)
    requires n < m
    ensures Before(Put32(n), Put32(m))
  {
    var a, b := Put32(n), Put32(m);
    assert n == a[0] * TWO24 + a[1] * TWO16 + a[2] * TWO8 + a[3] by { Digits(n); }
    assert m == b[0] * TWO24 + b[1] * TWO16 + b[2] * TWO8 + b[3] by { Digits(m); }
    var k := if a[0] != b[0] then 0 else if a[1] != b[1] then 1 else if a[2] != b[2] then 2 else 3;
    hide Put32;
    assert a[..k] == b[..k] && a[k] < b[k];
  }

  lemma Digits(n: u32)
    ensures Get32(Put32(n)) == n
  {
    Get32Put32(n, []);
    assert Put32(n) + [] == Put32(n);
  }

  lemma BeforeFront(a: seq<byte>, b: seq<byte>, s: seq<byte>, t: seq<byte>)
    requires Before(a, b)
    ensures Before(a + s, b + t)
  {
    var k :| 0 <= k < |a| && k < |b| && a[..k] == b[..k] && a[k] < b[k];
    assert (a + s)[..k] == a[..k] && (b + t)[..k] == b[..k];
    assert (a + s)[k] < (b + t)[k];
  }

  lemma BeforeBack(a: seq<byte>, s: seq<byte>, t: seq<byte>)
    requires Before(s, t)
    ensures Before(a + s, a + t)
  {
    var k :| 0 <= k < |s| && k < |t| && s[..k] == t[..k] && s[k] < t[k];
    assert (a + s)[..|a| + k] == a + s[..k] && (a + t)[..|a| + k] == a + t[..k];
    assert (a + s)[|a| + k] < (a + t)[|a| + k];
  }

  lemma Put64Order(n: u64, m: u64)
    requires n < m
    ensures Before(Put64(n), Put64(m))
  {
    hide Before, Put32;
    assert n == n / TWO32 * TWO32 + n % TWO32 && m == m / TWO32 * TWO32 + m % TWO32;
    if n / TWO32 < m / TWO32 {
      Put32Order(n / TWO32, m / TWO32);
      BeforeFront(Put32(n / TWO32), Put32(m / TWO32), Put32(n % TWO32), Put32(m % TWO32));
    } else {
      Put32Order(n % TWO32, m % TWO32);
      BeforeBack(Put32(n / TWO32), Put32(n % TWO32), Put32(m % TWO32));
    }
  }

  /** The first octet of a word has its top bit. */
  lemma TopBit(n: u32)
    ensures Put32(n)[0] >= 0x80 <==> n >= 0x8000_0000
  {
  }
}
