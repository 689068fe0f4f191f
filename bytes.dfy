/** Byte strings and the handful of Go `strings` functions the relay uses on them.
    A Go `string` is an immutable sequence of bytes, so it is modelled as `seq<byte>`. */
module Bytes {

  newtype byte = x: int | 0 <= x < 256

  /** The outcome of Go code that can panic (an out-of-range index, a failed match). */
  datatype Outcome<T> = Done(value: T) | Panicked

  /** `prefix` written before what a computation that may panic produced. */
  function Prepend(prefix: seq<byte>, r: Outcome<seq<byte>>): Outcome<seq<byte>>
  {
    match r
    case Panicked => Panicked
    case Done(s) => Done(prefix + s)
  }

  lemma PrependAssoc(a: seq<byte>, b: seq<byte>, r: Outcome<seq<byte>>)
    ensures Prepend(a, Prepend(b, r)) == Prepend(a + b, r)
    ensures Prepend([], r) == r
  {
    if r.Done? {
      assert a + (b + r.value) == (a + b) + r.value;
      assert [] + r.value == r.value;
    }
  }

  /** The bytes of a string literal whose characters are all below U+0100
      (used to write constants and test vectors). */
  function Lit(s: string): (r: seq<byte>)
    requires forall i :: 0 <= i < |s| ==> s[i] as int < 256
    ensures |r| == |s|
    ensures forall i :: 0 <= i < |s| ==> r[i] as int == s[i] as int
  {
    if s == [] then [] else [s[0] as int as byte] + Lit(s[1..])
  }

  /** UTF-8 encoding of U+FEFF (zero width no-break space). */
  const Feff: seq<byte> := [0xEF, 0xBB, 0xBF]

  const Space: byte := 0x20
  const Newline: byte := 0x0A

  predicate IsDigit(b: byte) { 0x30 <= b <= 0x39 }

  predicate IsAsciiAlnum(b: byte)
  {
    IsDigit(b) || (0x41 <= b <= 0x5A) || (0x61 <= b <= 0x7A)
  }

  /** Go's `strings.HasPrefix`. */
  predicate HasPrefix(s: seq<byte>, p: seq<byte>)
  {
    |p| <= |s| && s[..|p|] == p
  }

  /** `strings.Split(s, sep)` for a one-byte separator: the pieces between separators,
      one more piece than there are separators. */
  function Split(s: seq<byte>, sep: byte): (r: seq<seq<byte>>)
    ensures |r| >= 1
    ensures forall i :: 0 <= i < |r| ==> sep !in r[i]
    decreases |s|
  {
    if s == [] then [[]]
    else
      var rest := Split(s[1..], sep);
      if s[0] == sep then [[]] + rest else [[s[0]] + rest[0]] + rest[1..]
  }

  /** `strings.Join(parts, sep)` for a one-byte separator. */
  function Join(parts: seq<seq<byte>>, sep: byte): seq<byte>
    decreases |parts|
  {
    if parts == [] then []
    else if |parts| == 1 then parts[0]
    else parts[0] + [sep] + Join(parts[1..], sep)
  }

  /** Joining what `Split` cut reproduces the string. */
  lemma {:induction false} JoinSplit(s: seq<byte>, sep: byte)
    ensures Join(Split(s, sep), sep) == s
    decreases |s|
  {
    if s != [] {
      JoinSplit(s[1..], sep);
      var rest := Split(s[1..], sep);
      if s[0] != sep {
        if |rest| == 1 {
          assert Split(s, sep) == [[s[0]] + rest[0]];
        } else {
          assert Split(s, sep)[1..] == rest[1..];
        }
      }
    }
  }

  /** And cutting what `Join` glued gives back the pieces, when none holds the separator. */
  lemma {:induction false} SplitJoin(parts: seq<seq<byte>>, sep: byte)
    requires |parts| >= 1
    requires forall i :: 0 <= i < |parts| ==> sep !in parts[i]
    ensures Split(Join(parts, sep), sep) == parts
    decreases |parts|, |parts[0]|
  {
    if |parts| == 1 {
      SplitNoSeparator(parts[0], sep);
    } else if parts[0] == [] {
      SplitJoin(parts[1..], sep);
      assert Join(parts, sep) == [sep] + Join(parts[1..], sep);
      assert ([sep] + Join(parts[1..], sep))[1..] == Join(parts[1..], sep);
    } else {
      var tail := [parts[0][1..]] + parts[1..];
      assert tail[1..] == parts[1..];
      SplitJoin(tail, sep);
      assert Join(parts, sep) == [parts[0][0]] + Join(tail, sep);
      assert ([parts[0][0]] + Join(tail, sep))[1..] == Join(tail, sep);
      assert [parts[0][0]] + parts[0][1..] == parts[0];
    }
  }

  lemma {:induction false} SplitNoSeparator(s: seq<byte>, sep: byte)
    requires sep !in s
    ensures Split(s, sep) == [s]
    decreases |s|
  {
    if s != [] {
      SplitNoSeparator(s[1..], sep);
      assert [s[0]] + s[1..] == s;
    }
  }

  /** `s` has `f` at position `p`. */
  predicate OccursAt(s: seq<byte>, f: seq<byte>, p: nat)
  {
    p + |f| <= |s| && s[p..p + |f|] == f
  }

  /** `strings.Replace(s, f, r, -1)` for a non-empty `f`: every leftmost,
      non-overlapping occurrence of `f` is replaced by `r`. */
  function ReplaceAll(s: seq<byte>, f: seq<byte>, r: seq<byte>): seq<byte>
    requires |f| > 0
    decreases |s|
  {
    if |s| < |f| then s
    else if s[..|f|] == f then r + ReplaceAll(s[|f|..], f, r)
    else [s[0]] + ReplaceAll(s[1..], f, r)
  }

  /** A string in which `f` does not occur is left alone. */
  lemma {:induction false} ReplaceAllAbsent(s: seq<byte>, f: seq<byte>, r: seq<byte>)
    requires |f| > 0
    requires forall p :: 0 <= p <= |s| ==> !OccursAt(s, f, p)
    ensures ReplaceAll(s, f, r) == s
    decreases |s|
  {
    if |s| >= |f| {
      assert !OccursAt(s, f, 0);
      assert s[..|f|] == s[0..0 + |f|];
      forall p | 0 <= p <= |s[1..]| ensures !OccursAt(s[1..], f, p) {
        assert !OccursAt(s, f, p + 1);
        if p + |f| <= |s[1..]| {
          assert s[1..][p..p + |f|] == s[p + 1..p + 1 + |f|];
        }
      }
      ReplaceAllAbsent(s[1..], f, r);
      assert [s[0]] + s[1..] == s;
    }
  }

  /** In particular, when the first byte of `f` never appears. */
  lemma ReplaceAllMissingLead(s: seq<byte>, f: seq<byte>, r: seq<byte>)
    requires |f| > 0 && f[0] !in s
    ensures ReplaceAll(s, f, r) == s
  {
    ReplaceAllAbsent(s, f, r);
  }

  /** Deleting all occurrences of a one-byte string leaves none behind. */
  lemma {:induction false} ReplaceAllDeletes(s: seq<byte>, b: byte)
    ensures b !in ReplaceAll(s, [b], [])
    decreases |s|
  {
    if |s| >= 1 {
      ReplaceAllDeletes(s[1..], b);
    }
  }

  // ----- `string(c)` for a byte `c` -----

  /** Every byte is below 0x80. */
  predicate Ascii(t: seq<byte>)
  {
    forall k :: 0 <= k < |t| ==> t[k] < 0x80
  }

  /** Go's `string(c)` for a byte `c`: the UTF-8 encoding of the code point `c`, which is
      `c` itself below 0x80 and a two-byte sequence from 0x80 on. */
  function RuneBytes(c: byte): (r: seq<byte>)
    ensures |r| == 1 <==> c < 0x80
    ensures c < 0x80 ==> r == [c]
    ensures c >= 0x80 ==>
              |r| == 2 && 0xC2 <= r[0] <= 0xC3 && 0x80 <= r[1] <= 0xBF
              && (r[0] as int - 0xC0) * 64 + (r[1] as int - 0x80) == c as int
  {
    if c < 0x80 then [c]
    else [(0xC0 + c as int / 64) as byte, (0x80 + c as int % 64) as byte]
  }

  /** A string rebuilt by appending `string(c)` for each of its bytes `c`. */
  function Reencode(t: seq<byte>): (r: seq<byte>)
    ensures |r| >= |t|
    ensures r == [] <==> t == []
    decreases |t|
  {
    if t == [] then [] else RuneBytes(t[0]) + Reencode(t[1..])
  }

  lemma {:induction false} ReencodeAppend(a: seq<byte>, b: seq<byte>)
    ensures Reencode(a + b) == Reencode(a) + Reencode(b)
    decreases |a|
  {
    if a != [] {
      assert (a + b)[0] == a[0] && (a + b)[1..] == a[1..] + b;
      var h := RuneBytes(a[0]);
      calc {
        Reencode(a + b);
        h + Reencode(a[1..] + b);
        { ReencodeAppend(a[1..], b); }
        h + (Reencode(a[1..]) + Reencode(b));
        (h + Reencode(a[1..])) + Reencode(b);
      }
    } else {
      assert a + b == b;
    }
  }

  /** Re-encoding changes nothing exactly on ASCII strings, and otherwise lengthens them. */
  lemma {:induction false} ReencodeIdentity(t: seq<byte>)
    ensures Reencode(t) == t <==> Ascii(t)
    ensures !Ascii(t) ==> |Reencode(t)| > |t|
    decreases |t|
  {
    if t != [] {
      ReencodeIdentity(t[1..]);
      assert Ascii(t) <==> t[0] < 0x80 && Ascii(t[1..]) by {
        if t[0] < 0x80 && Ascii(t[1..]) {
          forall k | 0 <= k < |t| ensures t[k] < 0x80 {
            if k > 0 {
              assert t[k] == t[1..][k - 1];
            }
          }
        }
      }
      if Reencode(t) == t {
        assert |Reencode(t)| == |t|;
      }
    }
  }

  /** An ASCII byte occurs in the re-encoded string exactly when it occurs in the string:
      the bytes written for a code point from 0x80 on are all 0x80 or above. */
  lemma {:induction false} ReencodeAsciiBytes(t: seq<byte>, b: byte)
    requires b < 0x80
    ensures b in Reencode(t) <==> b in t
    decreases |t|
  {
    if t != [] {
      ReencodeAsciiBytes(t[1..], b);
      assert b in t <==> b == t[0] || b in t[1..] by {
        assert t == [t[0]] + t[1..];
      }
    }
  }
}
