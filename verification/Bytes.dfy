/** Machine words as the kernel lays them out: bytes, little-endian 32-bit words and C strings. */
module Bytes {

  type byte = b: int | 0 <= b < 256

  type u32 = x: int | 0 <= x < 0x1_0000_0000

  datatype Option<+T> = None | Some(value: T)

  /** Reduction of an arithmetic result to an unsigned 32-bit register. */
  function Wrap(x: int): u32 {
    x % 0x1_0000_0000
  }

  lemma WrapSmall(x: u32)
    ensures Wrap(x) == x
  {
  }

  function Le32(x: u32): (s: seq<byte>)
    ensures |s| == 4
  {
    [x % 256, x / 256 % 256, x / 65536 % 256, x / 16777216]
  }

  /** The low byte comes first. */
  lemma LittleEndian()
    ensures Le32(0x01020304) == [4, 3, 2, 1] && Get32([4, 3, 2, 1], 0) == 0x01020304
  {
  }

  function Word(b0: int, b1: int, b2: int, b3: int): int {
    b0 + 256 * b1 + 65536 * b2 + 16777216 * b3
  }

  function Get32(m: seq<byte>, a: nat): u32
    requires a + 4 <= |m|
  {
    Word(m[a], m[a + 1], m[a + 2], m[a + 3])
  }

  function Get16(m: seq<byte>, a: nat): nat
    requires a + 2 <= |m|
  {
    m[a] as int + 256 * m[a + 1] as int
  }

  function Put32(m: seq<byte>, a: nat, x: u32): (r: seq<byte>)
    requires a + 4 <= |m|
    ensures |r| == |m|
    ensures forall k :: 0 <= k < |m| && !(a <= k < a + 4) ==> r[k] == m[k]
    ensures Get32(r, a) == x
  {
    var w := Le32(x);
    LeDigits(x);
    m[a := w[0]][a + 1 := w[1]][a + 2 := w[2]][a + 3 := w[3]]
  }

  /** A 32-bit store, little-endian. */
  method StoreWord(mem: array<byte>, a: nat, x: u32)
    requires a + 4 <= mem.Length
    modifies mem
    ensures mem[..] == Put32(old(mem[..]), a, x)
  {
    var w := Le32(x);
    mem[a], mem[a + 1], mem[a + 2], mem[a + 3] := w[0], w[1], w[2], w[3];
  }

  /** Memory after storing `text` from address `a` on; what falls outside is dropped. */
  function StoreBytes(m: seq<byte>, a: int, text: seq<byte>): (r: seq<byte>)
    ensures |r| == |m|
    ensures forall x :: 0 <= x < |m| ==> r[x] == if a <= x < a + |text| then text[x - a] else m[x]
  {
    seq(|m|, x requires 0 <= x < |m| => if a <= x < a + |text| then text[x - a] else m[x])
  }

  lemma Put32Bytes(m: seq<byte>, a: nat, x: u32)
    requires a + 4 <= |m|
    ensures Put32(m, a, x) == StoreBytes(m, a, Le32(x))
  {
  }

  /** Writing a word leaves the words it does not overlap. */
  lemma Put32Other(m: seq<byte>, a: nat, x: u32, b: nat)
    requires a + 4 <= |m| && b + 4 <= |m| && (a + 4 <= b || b + 4 <= a)
    ensures Get32(Put32(m, a, x), b) == Get32(m, b)
  {
    var r := Put32(m, a, x);
    assert r[b] == m[b] && r[b + 1] == m[b + 1] && r[b + 2] == m[b + 2] && r[b + 3] == m[b + 3];
  }

  /** Reading back a word stored in little-endian order. */
  lemma LeGet(m: seq<byte>, a: nat, x: u32)
    requires a + 4 <= |m| && m[a..a + 4] == Le32(x)
    ensures Get32(m, a) == x
  {
    LeDigits(x);
    var w := m[a..a + 4];
    assert w[0] == m[a] && w[1] == m[a + 1] && w[2] == m[a + 2] && w[3] == m[a + 3];
  }

  lemma LeDigits(x: u32)
    ensures Word(x % 256, x / 256 % 256, x / 65536 % 256, x / 16777216) == x
  {
    var a := x / 256;
    var b := a / 256;
    var c := b / 256;
    assert x == 256 * a + x % 256 && a == 256 * b + a % 256 && b == 256 * c + b % 256;
    assert x / 65536 == b && x / 16777216 == c;
  }

  lemma SliceOfSlice(m: seq<byte>, a: nat, b: nat, c: nat, d: nat)
    requires a <= b <= |m| && c <= d <= b - a
    ensures m[a..b][c..d] == m[a + c..a + d]
  {
    var s, t := m[a..b][c..d], m[a + c..a + d];
    assert forall k :: 0 <= k < d - c ==> s[k] == m[a..b][c + k] == t[k];
  }

  /** A word determines its four bytes. */
  lemma WordBytes(m: seq<byte>, n: seq<byte>, a: nat, b: nat)
    requires a + 4 <= |m| && b + 4 <= |n|
    requires Get32(m, a) == Get32(n, b)
    ensures m[a..a + 4] == n[b..b + 4]
  {
    var (c0, c1, c2, c3) := (m[a], m[a + 1], m[a + 2], m[a + 3]);
    var (d0, d1, d2, d3) := (n[b], n[b + 1], n[b + 2], n[b + 3]);
    Digits(c0, c1, c2, c3, d0, d1, d2, d3);
  }

  lemma Digits(c0: int, c1: int, c2: int, c3: int, d0: int, d1: int, d2: int, d3: int)
    requires 0 <= c0 < 256 && 0 <= c1 < 256 && 0 <= c2 < 256 && 0 <= c3 < 256
    requires 0 <= d0 < 256 && 0 <= d1 < 256 && 0 <= d2 < 256 && 0 <= d3 < 256
    requires Word(c0, c1, c2, c3) == Word(d0, d1, d2, d3)
    ensures c0 == d0 && c1 == d1 && c2 == d2 && c3 == d3
  {
    assert c3 == d3;
    assert c2 == d2;
  }

  /** The C string held in a buffer: everything before the first NUL. */
  function CStr(s: seq<byte>): seq<byte>
  {
    if s == [] || s[0] == 0 then [] else [s[0]] + CStr(s[1..])
  }

  lemma {:induction false} CStrShape(s: seq<byte>)
    ensures 0 !in CStr(s) && CStr(s) <= s
    ensures |CStr(s)| < |s| ==> s[|CStr(s)|] == 0
  {
    if s != [] && s[0] != 0 {
      CStrShape(s[1..]);
    }
  }

  lemma {:induction false} CStrPrefix(n: seq<byte>, s: seq<byte>)
    requires n <= s && 0 !in n
    requires |n| < |s| ==> s[|n|] == 0
    ensures CStr(s) == n
  {
    if n != [] {
      assert s[0] == n[0];
      CStrPrefix(n[1..], s[1..]);
    }
  }

  function Min(a: int, b: int): int {
    if a < b then a else b
  }
}
