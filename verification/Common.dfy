/** Bytes, options, results, and the substring search of Rust's `str::find`. */
module Common {
  newtype byte = b: int | 0 <= b < 256

  type Bytes = seq<byte>

  const LF: byte := 10
  const CR: byte := 13
  const SPACE: byte := 32

  datatype Option<+T> = None | Some(value: T)

  datatype Result<+T, +E> = Ok(value: T) | Err(error: E)

  predicate IsAscii(s: string) {
    forall i :: 0 <= i < |s| ==> s[i] as int < 128
  }

  /** The bytes of an ASCII text. */
  function Ascii(s: string): (b: Bytes)
    requires IsAscii(s)
    ensures |b| == |s| && forall i :: 0 <= i < |s| ==> b[i] as int == s[i] as int
  {
    seq(|s|, i requires 0 <= i < |s| => (s[i] as int) as byte)
  }

  /** The control bytes of the line-based formats. */
  lemma ControlCodes()
    ensures [LF] == Ascii("\n") && [CR] == Ascii("\r") && [SPACE] == Ascii(" ")
  {
  }

  function Flatten<T>(parts: seq<seq<T>>): seq<T> {
    if parts == [] then [] else parts[0] + Flatten(parts[1..])
  }

  lemma {:induction false} FlattenAppend<T>(a: seq<seq<T>>, b: seq<seq<T>>)
    ensures Flatten(a + b) == Flatten(a) + Flatten(b)
  {
    if a == [] {
      assert a + b == b;
    } else {
      FlattenAppend(a[1..], b);
      assert (a + b)[0] == a[0] && (a + b)[1..] == a[1..] + b;
      Associate(a[0], Flatten(a[1..]), Flatten(b));
    }
  }

  // ----- Byte streams ----------------------------------------------------------------------

  /** All bytes delivered before the first error. */
  function Received<E>(items: seq<Result<Bytes, E>>): Bytes {
    if items == [] || items[0].Err? then [] else items[0].value + Received(items[1..])
  }

  /** The first error. */
  function Fault<E>(items: seq<Result<Bytes, E>>): Option<E> {
    if items == [] then None else if items[0].Err? then Some(items[0].error) else Fault(items[1..])
  }

  /** What a consumer that buffers the whole stream ends up with. */
  function Collect<E>(items: seq<Result<Bytes, E>>): Result<Bytes, E> {
    match Fault(items) {
      case None => Ok(Received(items))
      case Some(e) => Err(e)
    }
  }

  /** The items of a stream that yields the given values without an error. */
  function Oks<T, E>(values: seq<T>): (items: seq<Result<T, E>>)
    ensures |items| == |values| && forall i :: 0 <= i < |values| ==> items[i] == Ok(values[i])
  {
    seq(|values|, i requires 0 <= i < |values| => Ok(values[i]))
  }

  lemma OksAppend<T, E>(a: seq<T>, b: seq<T>)
    ensures Oks<T, E>(a + b) == Oks<T, E>(a) + Oks<T, E>(b)
  {
  }

  lemma OksCons<T, E>(x: T, values: seq<T>)
    ensures Oks<T, E>([x] + values) == [Ok(x)] + Oks<T, E>(values)
  {
  }

  // ----- Sequences -------------------------------------------------------------------------

  lemma Associate<T>(a: seq<T>, b: seq<T>, c: seq<T>)
    ensures a + (b + c) == a + b + c
  {
  }

  lemma NothingBefore<T>(s: seq<T>)
    ensures [] + s == s
  {
  }

  lemma NothingAfter<T>(s: seq<T>)
    ensures s + [] == s
  {
  }

  lemma HeadAndTail<T>(s: seq<T>)
    requires s != []
    ensures [s[0]] + s[1..] == s
  {
  }

  lemma DropAppend<T>(a: seq<T>, b: seq<T>, n: nat)
    requires n <= |a|
    ensures (a + b)[n..] == a[n..] + b
  {
  }

  lemma TakeAndDrop<T>(s: seq<T>, k: nat)
    requires k <= |s|
    ensures s[..k] + s[k..] == s
  {
  }

  lemma ThreeParts<T>(s: seq<T>, n: nat, q: nat)
    requires n <= q <= |s|
    ensures s[..n] + s[n..q] + s[q..] == s
  {
  }

  lemma TakeTake<T>(s: seq<T>, k: nat, n: nat)
    requires n <= k <= |s|
    ensures s[..k][..n] == s[..n]
  {
  }

  lemma TakeDrop<T>(s: seq<T>, k: nat, n: nat)
    requires n <= k <= |s|
    ensures s[..k][n..] == s[n..][..k - n]
  {
  }

  lemma DropDrop<T>(s: seq<T>, n: nat, m: nat)
    requires n + m <= |s|
    ensures s[n..][m..] == s[n + m..]
  {
  }

  function Map<A, B>(f: A -> B, s: seq<A>): (r: seq<B>)
    ensures |r| == |s| && forall i :: 0 <= i < |s| ==> r[i] == f(s[i])
  {
    seq(|s|, i requires 0 <= i < |s| => f(s[i]))
  }

  lemma MapCons<A, B>(f: A -> B, s: seq<A>)
    requires s != []
    ensures Map(f, s) == [f(s[0])] + Map(f, s[1..])
  {
  }

  lemma MapTake<A, B>(f: A -> B, s: seq<A>, k: nat)
    requires k <= |s|
    ensures Map(f, s[..k]) == Map(f, s)[..k]
  {
  }

  /** `pat` occurs in `s` at offset `p`. */
  ghost predicate OccursAt<T>(s: seq<T>, pat: seq<T>, p: int) {
    0 <= p && p + |pat| <= |s| && s[p..p + |pat|] == pat
  }

  lemma DiffersAt<T>(s: seq<T>, pat: seq<T>, q: nat, k: nat)
    requires k < |pat| && q + k < |s| && s[q + k] != pat[k]
    ensures !OccursAt(s, pat, q)
  {
    if q + |pat| <= |s| {
      assert s[q..q + |pat|][k] == s[q + k];
    }
  }

  /** Offset of the first occurrence of `pat` in `s`. */
  function Find<T(==)>(s: seq<T>, pat: seq<T>): (r: Option<nat>)
    ensures r.Some? ==> OccursAt(s, pat, r.value) && forall q :: 0 <= q < r.value ==> !OccursAt(s, pat, q)
    ensures r.None? ==> forall q :: !OccursAt(s, pat, q)
  {
    FindFrom(s, pat, 0)
  }

  function FindFrom<T(==)>(s: seq<T>, pat: seq<T>, from: nat): (r: Option<nat>)
    requires from <= |s|
    ensures r.Some? ==> from <= r.value && OccursAt(s, pat, r.value)
    ensures r.Some? ==> forall q :: from <= q < r.value ==> !OccursAt(s, pat, q)
    ensures r.None? ==> forall q :: from <= q ==> !OccursAt(s, pat, q)
    decreases |s| - from
  {
    if from + |pat| <= |s| && s[from..from + |pat|] == pat then Some(from)
    else if from == |s| then None
    else FindFrom(s, pat, from + 1)
  }

  /** Offset of the first `x` in `s`: `str::find` with a character, `iter().position` with an equality. */
  function IndexOf<T(==)>(s: seq<T>, x: T): (r: Option<nat>)
    ensures r.Some? ==> r.value < |s| && s[r.value] == x && forall i :: 0 <= i < r.value ==> s[i] != x
    ensures r.None? ==> x !in s
  {
    if s == [] then None
    else if s[0] == x then Some(0)
    else match IndexOf(s[1..], x) {
      case Some(i) => Some(i + 1)
      case None => None
    }
  }

  lemma IndexOfAppend<T>(s: seq<T>, x: T, t: seq<T>)
    requires x !in s
    ensures IndexOf(s + [x] + t, x) == Some(|s|)
  {
    var u := s + [x] + t;
    assert u[|s|] == x;
    forall i | 0 <= i < |s|
      ensures u[i] != x
    {
      assert u[i] == s[i];
    }
  }
}
