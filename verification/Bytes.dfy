/** Bytes, 32-bit words and the little-endian field accesses the firmware makes by casting struct pointers. */
module Bytes {

  type byte = b: int | 0 <= b < 256

  type word32 = w: int | 0 <= w < 0x1_0000_0000

  datatype Option<+T> = None | Some(value: T)

  function Word(a: int, b: int, c: int, d: int): (w: int) {
    a + 0x100 * b + 0x1_0000 * c + 0x100_0000 * d
  }

  lemma WordDigits(a: byte, b: byte, c: byte, d: byte)
    ensures var w := Word(a, b, c, d);
            w % 0x100 == a && w / 0x100 % 0x100 == b && w / 0x1_0000 % 0x100 == c && w / 0x100_0000 == d
  {
    var w := Word(a, b, c, d);
    assert w / 0x100_0000 == d;
    assert w / 0x1_0000 == c + 0x100 * d;
    assert w / 0x100 == b + 0x100 * c + 0x1_0000 * d;
    assert w / 0x1_0000 % 0x100 == c by { assert (c + 0x100 * d) % 0x100 == c; }
    assert w / 0x100 % 0x100 == b by { assert (b + 0x100 * (c + 0x100 * d)) % 0x100 == b; }
    assert w % 0x100 == a by { assert w == a + 0x100 * (b + 0x100 * c + 0x1_0000 * d); }
  }

  /** The uint32 stored at byte `i`, least significant byte first. */
  function Le32(s: seq<byte>, i: nat): (w: word32)
    requires i + 4 <= |s|
  {
    Word(s[i], s[i + 1], s[i + 2], s[i + 3])
  }

  /** The low `n` bytes of `w`, least significant first. */
  function LeBytes(w: nat, n: nat): (s: seq<byte>)
    ensures |s| == n
  {
    if n == 0 then [] else [w % 0x100] + LeBytes(w / 0x100, n - 1)
  }

  /** The four bytes a little-endian core stores for `w`. */
  function Put32(w: word32): (s: seq<byte>)
    ensures |s| == 4
  {
    LeBytes(w, 4)
  }

  /** Storing and loading are inverse. */
  lemma LoadStored(w: word32)
    ensures Le32(Put32(w), 0) == w
  {
    var b, c, d := w / 0x100, w / 0x100 / 0x100, w / 0x100 / 0x100 / 0x100;
    assert LeBytes(d, 1) == [d % 0x100];
    assert LeBytes(c, 2) == [c % 0x100, d % 0x100];
    assert LeBytes(b, 3) == [b % 0x100, c % 0x100, d % 0x100];
    assert Put32(w) == [w % 0x100, b % 0x100, c % 0x100, d % 0x100];
  }

  lemma StoreLoaded(s: seq<byte>, i: nat)
    requires i + 4 <= |s|
    ensures Put32(Le32(s, i)) == s[i..i + 4]
  {
    WordDigits(s[i], s[i + 1], s[i + 2], s[i + 3]);
    var w := Le32(s, i);
    var b, c, d := w / 0x100, w / 0x100 / 0x100, w / 0x100 / 0x100 / 0x100;
    assert c == w / 0x1_0000 && d == w / 0x100_0000;
    assert LeBytes(d, 1) == [d % 0x100];
    assert LeBytes(c, 2) == [c % 0x100, d % 0x100];
    assert LeBytes(b, 3) == [b % 0x100, c % 0x100, d % 0x100];
  }

  /** A field keeps its value when its four bytes do. */
  lemma Le32Same(a: seq<byte>, i: nat, b: seq<byte>, j: nat)
    requires i + 4 <= |a| && j + 4 <= |b|
    requires a[i..i + 4] == b[j..j + 4]
    ensures Le32(a, i) == Le32(b, j)
  {
    var x, y := a[i..i + 4], b[j..j + 4];
    assert x[0] == y[0] && x[1] == y[1] && x[2] == y[2] && x[3] == y[3];
  }

  /** uint32 addition, which wraps. */
  function Add32(a: word32, b: word32): (r: word32) {
    if a as int + b < 0x1_0000_0000 then a as int + b else a as int + b - 0x1_0000_0000
  }

  lemma Add32IsModular(a: word32, b: word32)
    ensures Add32(a, b) == (a as int + b) % 0x1_0000_0000
  {
  }

  lemma Add32Assoc(a: word32, b: word32, c: word32)
    ensures Add32(Add32(a, b), c) == Add32(a, Add32(b, c))
  {
  }

  /** What a uint32 keeps of a count. */
  function Low32(n: nat): (w: word32) {
    n % 0x1_0000_0000
  }

  lemma Low32Next(n: nat)
    ensures Low32(n + 1) == Add32(1, Low32(n))
  {
  }

  /** Conversion of a uint32 to the 32-bit int of the target. */
  function ToInt32(w: word32): (i: int) {
    if w < 0x8000_0000 then w else w - 0x1_0000_0000
  }

  function Zeros(n: nat): (s: seq<byte>)
    ensures |s| == n && forall k | 0 <= k < n :: s[k] == 0
  {
    seq(n, _ => 0)
  }

  lemma SliceOfSlice<T>(s: seq<T>, a: nat, b: nat, i: nat, j: nat)
    requires i <= j && a + j <= b <= |s|
    ensures s[a..b][i..j] == s[a + i..a + j]
  {
    var x, y := s[a..b][i..j], s[a + i..a + j];
    forall k | 0 <= k < j - i ensures x[k] == y[k] {
      assert x[k] == s[a..b][i + k] == s[a + (i + k)];
    }
  }

  /** `s` stands at `at` in `msg`. */
  predicate Stands(msg: seq<byte>, at: nat, s: seq<byte>) {
    at + |s| <= |msg| && msg[at..at + |s|] == s
  }

  lemma StandsParts(msg: seq<byte>, at: nat, a: seq<byte>, b: seq<byte>)
    ensures Stands(msg, at, a + b) <==> Stands(msg, at, a) && Stands(msg, at + |a|, b)
  {
    var ab := a + b;
    if at + |ab| <= |msg| {
      SliceOfSlice(msg, at, at + |ab|, 0, |a|);
      SliceOfSlice(msg, at, at + |ab|, |a|, |ab|);
      assert ab[0..|a|] == a && ab[|a|..|ab|] == b;
      var m := msg[at..at + |ab|];
      assert m == m[0..|a|] + m[|a|..|ab|];
    }
  }

  lemma StandsAt(msg: seq<byte>, at: nat, s: seq<byte>)
    requires Stands(msg, at, s)
    ensures forall k | 0 <= k < |s| :: msg[at + k] == s[k]
  {
    forall k | 0 <= k < |s| ensures msg[at + k] == s[k] {
      assert msg[at..at + |s|][k] == s[k];
    }
  }

  lemma DropOfDrop<T>(s: seq<T>, a: nat, b: nat)
    requires a + b <= |s|
    ensures s[a..][b..] == s[a + b..]
  {
    var x, y := s[a..][b..], s[a + b..];
    forall k | 0 <= k < |y| ensures x[k] == y[k] {
      assert x[k] == s[a..][b + k] == s[a + (b + k)];
    }
  }

  /** What is left around the `n` bytes behind `front`. */
  lemma Around(front: seq<byte>, back: seq<byte>, n: nat)
    requires n <= |back|
    ensures (front + back)[..|front|] == front && (front + back)[|front| + n..] == back[n..]
  {
  }

  /** Overwriting with `src` at `i`, behind a front that is already written. */
  lemma PatchedAt(front: seq<byte>, src: seq<byte>, r: seq<byte>, i: nat, j: nat)
    requires |front| == i && i + |src| <= j <= |r|
    ensures (front + r[i..])[..i] == front
    ensures front + src + (front + r[i..])[i + |src|..] == front + src + r[i + |src|..j] + r[j..]
  {
    var k := i + |src|;
    Around(front, r[i..], |src|);
    DropOfDrop(r, i, |src|);
    assert r[k..] == r[k..j] + r[j..];
  }

  lemma Assoc(a: seq<byte>, b: seq<byte>, c: seq<byte>)
    ensures (a + b) + c == a + (b + c)
  {
  }

  function Concat(ss: seq<seq<byte>>): (s: seq<byte>) {
    if ss == [] then [] else ss[0] + Concat(ss[1..])
  }

  lemma {:induction false} ConcatAppend(a: seq<seq<byte>>, b: seq<seq<byte>>)
    ensures Concat(a + b) == Concat(a) + Concat(b)
  {
    if a == [] {
      assert a + b == b;
    } else {
      assert (a + b)[1..] == a[1..] + b;
      ConcatAppend(a[1..], b);
    }
  }

  /** memcpy of `src` to `a + i`. */
  method CopyTo(a: array<byte>, i: nat, src: seq<byte>)
    requires i + |src| <= a.Length
    modifies a
    ensures a[..] == old(a[..i]) + src + old(a[i + |src|..])
  {
    forall k | 0 <= k < |src| {
      a[i + k] := src[k];
    }
  }
}
