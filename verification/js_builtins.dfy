/**
 * The few JavaScript built-ins the image utilities lean on, stated as pure functions:
 * typed-array `slice`, string `split` (with `join` as its inverse) and the left-most
 * scan that `RegExp.prototype.exec` performs for a non-global pattern.
 */
module JsBuiltins {
  import opened Arith

  /** An element of a `Uint8Array` / `Uint8ClampedArray`. */
  type Byte = b: int | 0 <= b < 256

  /** `null`/`undefined` versus a value. */
  datatype Option<+T> = None | Some(value: T)

  /** `len + i` for a negative `i`, `i` otherwise, clamped into `[0, len]`: how `slice` reads its arguments. */
  function RelativeIndex(i: int, len: nat): (r: nat)
    ensures r <= len
    ensures 0 <= i <= len ==> r == i
    ensures -(len as int) <= i < 0 ==> r == len + i
    ensures i < -(len as int) ==> r == 0
    ensures i > len ==> r == len
  {
    if i < 0 then (if len + i < 0 then 0 else len + i)
    else if i < len then i else len
  }

  /** `TypedArray.prototype.slice(start, end)`: a copy of the elements from `start` up to `end`. */
  function Slice<T>(s: seq<T>, start: int, end: int): (r: seq<T>)
    ensures |r| <= |s|
    ensures 0 <= start <= end <= |s| ==> r == s[start..end]
    ensures start >= |s| ==> r == []
    ensures 0 <= start <= |s| <= end ==> r == s[start..]
    ensures -(|s| as int) <= start <= end < 0 ==> r == s[|s| + start..|s| + end]
  {
    var from, to := RelativeIndex(start, |s|), RelativeIndex(end, |s|);
    if from < to then s[from..to] else []
  }

  /** `parts.join(sep)`. */
  function Join(parts: seq<string>, sep: char): string
  {
    if |parts| == 0 then ""
    else if |parts| == 1 then parts[0]
    else parts[0] + [sep] + Join(parts[1..], sep)
  }

  /** `s.split(sep)` for a one-character separator: the maximal separator-free pieces, in order. */
  function Split(s: string, sep: char): (parts: seq<string>)
    ensures |parts| >= 1
    ensures forall p :: p in parts ==> sep !in p
    decreases |s|
  {
    if |s| == 0 then [""]
    else
      var rest := Split(s[1..], sep);
      if s[0] == sep then [""] + rest
      else [[s[0]] + rest[0]] + rest[1..]
  }

  /** Joining the pieces with the separator gives the string back. */
  lemma {:induction false} JoinSplit(s: string, sep: char)
    ensures Join(Split(s, sep), sep) == s
    decreases |s|
  {
    if |s| > 0 {
      var rest := Split(s[1..], sep);
      JoinSplit(s[1..], sep);
      if s[0] == sep {
        JoinCons("", rest, sep);
      } else {
        JoinPrepend(s[0], rest, sep);
      }
      assert s == [s[0]] + s[1..];
    }
  }

  /** Joining a first piece in front of at least one more puts one separator between them. */
  lemma JoinCons(first: string, rest: seq<string>, sep: char)
    requires |rest| >= 1
    ensures Join([first] + rest, sep) == first + [sep] + Join(rest, sep)
  {
    assert ([first] + rest)[1..] == rest;
  }

  /** A character added to the front of the first piece comes out at the front of the joined string. */
  lemma JoinPrepend(c: char, parts: seq<string>, sep: char)
    requires |parts| >= 1
    ensures Join([[c] + parts[0]] + parts[1..], sep) == [c] + Join(parts, sep)
  {
    if |parts| > 1 {
      JoinCons([c] + parts[0], parts[1..], sep);
      JoinCons(parts[0], parts[1..], sep);
      assert parts == [parts[0]] + parts[1..];
    }
  }

  /** There is a single piece exactly when the separator does not occur. */
  lemma {:induction false} SplitSingle(s: string, sep: char)
    ensures |Split(s, sep)| == 1 <==> sep !in s
    decreases |s|
  {
    if |s| > 0 {
      SplitSingle(s[1..], sep);
      assert s == [s[0]] + s[1..];
    }
  }

  /** Splitting a joined list of separator-free pieces gives the pieces back. */
  lemma {:induction false} SplitJoin(parts: seq<string>, sep: char)
    requires |parts| >= 1
    requires forall p :: p in parts ==> sep !in p
    ensures Split(Join(parts, sep), sep) == parts
    decreases |parts|, |parts[0]|
  {
    var p0 := parts[0];
    if |p0| == 0 && |parts| > 1 {
      var tail := parts[1..];
      JoinCons(p0, tail, sep);
      assert parts == [p0] + tail;
      SplitJoin(tail, sep);
      assert Join(parts, sep)[1..] == Join(tail, sep);
    } else if |p0| > 0 {
      var shorter := [p0[1..]] + parts[1..];
      assert p0 in parts && p0 == [p0[0]] + p0[1..];
      assert forall p :: p in shorter ==> p == p0[1..] || p in parts;
      JoinPrepend(p0[0], shorter, sep);
      assert [[p0[0]] + shorter[0]] + shorter[1..] == parts;
      SplitJoin(shorter, sep);
      assert Join(parts, sep)[1..] == Join(shorter, sep);
    }
  }

  /** The left-most position from `from` on where `matchAt` succeeds, with what it matched. */
  function Exec<T>(s: string, matchAt: (string, nat) -> Option<T>, from: nat): (r: Option<(nat, T)>)
    ensures r.Some? ==> from <= r.value.0 < |s| && matchAt(s, r.value.0) == Some(r.value.1)
    ensures r.Some? ==> forall j :: from <= j < r.value.0 ==> matchAt(s, j).None?
    ensures r.None? ==> forall j :: from <= j < |s| ==> matchAt(s, j).None?
    decreases |s| - from
  {
    if from >= |s| then None
    else match matchAt(s, from)
      case Some(m) => Some((from, m))
      case None => Exec(s, matchAt, from + 1)
  }

  /** A match at `i` with none between `from` and `i` is what the scan from `from` returns. */
  lemma ExecAt<T>(s: string, matchAt: (string, nat) -> Option<T>, from: nat, i: nat)
    requires from <= i < |s| && matchAt(s, i).Some?
    requires forall j :: from <= j < i ==> matchAt(s, j).None?
    ensures Exec(s, matchAt, from) == Some((i, matchAt(s, i).value))
  {
    var r := Exec(s, matchAt, from);
    assert r.Some? && r.value.0 == i;
  }

  /** `s` holds `lit` starting at index `i`. */
  predicate HasAt(s: string, i: nat, lit: string)
  {
    i + |lit| <= |s| && s[i..i + |lit|] == lit
  }

  function Pow2(k: nat): (p: nat)
    ensures p >= 1
  {
    if k == 0 then 1 else 2 * Pow2(k - 1)
  }

  /** The `&` operator on non-negative operands: bit by bit, from the lowest bit up. */
  function BitAnd(a: nat, b: nat): (r: nat)
    ensures r <= a && r <= b
  {
    if a == 0 || b == 0 then 0
    else 2 * BitAnd(a / 2, b / 2) + (if a % 2 == 1 && b % 2 == 1 then 1 else 0)
  }

  /** Masking with `k` one-bits keeps the remainder modulo `2^k`. */
  lemma {:induction false} BitAndLowMask(a: nat, k: nat)
    ensures BitAnd(a, Pow2(k) - 1) == a % Pow2(k)
    decreases k
  {
    if k > 0 {
      var m := Pow2(k - 1);
      assert Pow2(k) - 1 == 2 * m - 1;
      HalfMask(m);
      BitAndOdd(a, 2 * m - 1);
      BitAndLowMask(a / 2, k - 1);
      ModDouble(a, m);
    }
  }

  /** Against an odd mask, the lowest bit of `a` is kept and the rest is masked with the mask's upper bits. */
  lemma BitAndOdd(a: nat, b: nat)
    requires b % 2 == 1
    ensures BitAnd(a, b) == 2 * BitAnd(a / 2, b / 2) + a % 2
  {
    if a == 0 {
      assert a / 2 == 0 && a % 2 == 0;
    }
  }

  /** `2m - 1` is odd, and its upper bits are `m - 1`. */
  lemma HalfMask(m: nat)
    requires m >= 1
    ensures (2 * m - 1) / 2 == m - 1 && (2 * m - 1) % 2 == 1
  {
    DivModUnique(2 * m - 1, 2, m - 1, 1);
  }
}
