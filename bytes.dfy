/**
 * Byte strings as the engine sees them: a C++ `std::string` or `char` buffer is a
 * sequence of bytes; `c_str()` buffers and fixed fields are NUL-padded, and an
 * implicit `char*` -> `std::string` conversion stops at the first NUL.
 */
module ByteStrings {

  newtype byte = x: int | 0 <= x < 256

  type Bytes = seq<byte>

  const NUL: byte := 0

  /** `n` NUL bytes. */
  function Zeros(n: nat): (z: Bytes)
    ensures |z| == n
    ensures forall i :: 0 <= i < n ==> z[i] == NUL
  {
    seq(n, _ => NUL)
  }

  /** `s` right-padded with NUL bytes to width `w`, as the engine pads strings with `append`. */
  function PadNul(s: Bytes, w: nat): (p: Bytes)
    requires |s| <= w
    ensures |p| == w && p[..|s|] == s
    ensures forall i :: |s| <= i < w ==> p[i] == NUL
  {
    s + Zeros(w - |s|)
  }

  /**
   * The string a `char*` buffer denotes: the bytes before the first NUL, or the
   * whole buffer when it holds no NUL.
   */
  function CStr(s: Bytes): (r: Bytes)
    ensures |r| <= |s| && r == s[..|r|]
    ensures NUL !in r
    ensures |r| < |s| ==> s[|r|] == NUL
  {
    if s == [] || s[0] == NUL then [] else [s[0]] + CStr(s[1..])
  }

  /** A NUL-free string followed by a NUL (or by nothing) reads back as itself. */
  lemma {:induction false} CStrOfTerminated(s: Bytes, rest: Bytes)
    requires NUL !in s
    requires rest == [] || rest[0] == NUL
    ensures CStr(s + rest) == s
  {
    if s != [] {
      assert s[0] in s;
      assert (s + rest)[1..] == s[1..] + rest;
      CStrOfTerminated(s[1..], rest);
    }
  }

  /** Padding a NUL-free string with at least one NUL is undone by reading it back. */
  lemma CStrOfPadded(s: Bytes, w: nat)
    requires NUL !in s && |s| <= w
    ensures CStr(PadNul(s, w)) == s
  {
    CStrOfTerminated(s, Zeros(w - |s|));
  }

  /**
   * `Overwrite(d, at, data)` is the device image `d` after writing `data` at offset
   * `at`: the bytes of `data` in `[at, at + |data|)`, the old bytes everywhere else.
   */
  function Overwrite(d: Bytes, at: nat, data: Bytes): (r: Bytes)
    requires at + |data| <= |d|
    ensures |r| == |d|
    ensures forall i :: 0 <= i < |d| ==> r[i] == if at <= i < at + |data| then data[i - at] else d[i]
  {
    d[..at] + data + d[at + |data|..]
  }

  /** Reading back the region just written yields the data. */
  lemma OverwriteReadBack(d: Bytes, at: nat, data: Bytes)
    requires at + |data| <= |d|
    ensures Overwrite(d, at, data)[at..at + |data|] == data
  {
  }

  /** A second write of the same length at the same place hides the first. */
  lemma OverwriteTwice(d: Bytes, at: nat, first: Bytes, second: Bytes)
    requires at + |first| <= |d| && |second| == |first|
    ensures Overwrite(Overwrite(d, at, first), at, second) == Overwrite(d, at, second)
  {
    assert forall i :: 0 <= i < |d| ==>
      Overwrite(Overwrite(d, at, first), at, second)[i] == Overwrite(d, at, second)[i];
  }

  /** A region disjoint from the written one keeps its old bytes. */
  lemma OverwriteFrame(d: Bytes, at: nat, data: Bytes, lo: nat, hi: nat)
    requires at + |data| <= |d|
    requires lo <= hi <= |d|
    requires hi <= at || at + |data| <= lo
    ensures Overwrite(d, at, data)[lo..hi] == d[lo..hi]
  {
  }
}
