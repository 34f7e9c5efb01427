/** The two array operations the shop's lookups are built on: `Array.prototype.find`
    and the split of a flat key list into consecutive slices of two. */
module Lists {
  import opened Options

  /** `s.find(p)`: the first element satisfying `p`, in sequence order. */
  function Find<T>(s: seq<T>, p: T -> bool): (r: Option<T>)
    ensures r.None? <==> forall i | 0 <= i < |s| :: !p(s[i])
    ensures r.Some? ==> p(r.value) && r.value in s
  {
    if s == [] then None
    else if p(s[0]) then Some(s[0])
    else Find(s[1..], p)
  }

  /** The element `Find` returns is the first one that matches: nothing before it does. */
  lemma {:induction false} FindFirst<T>(s: seq<T>, p: T -> bool, i: int)
    requires 0 <= i < |s| && p(s[i])
    requires forall j | 0 <= j < i :: !p(s[j])
    ensures Find(s, p) == Some(s[i])
  {
    if i > 0 {
      assert !p(s[0]);
      FindFirst(s[1..], p, i - 1);
    }
  }

  /** The position `Find` stops at: every earlier element fails the test. */
  lemma {:induction false} FindPosition<T>(s: seq<T>, p: T -> bool) returns (i: int)
    requires Find(s, p).Some?
    ensures 0 <= i < |s| && s[i] == Find(s, p).value && p(s[i])
    ensures forall j | 0 <= j < i :: !p(s[j])
  {
    if p(s[0]) {
      i := 0;
    } else {
      var k := FindPosition(s[1..], p);
      i := k + 1;
    }
  }

  /** The end of the slice of two that starts at `2 * i`, cut short at the end of `s`. */
  function SliceEnd(n: int, i: int): int
  {
    if 2 * i + 2 <= n then 2 * i + 2 else n
  }

  /** `keys.reduce` pushing `array.slice(index, index + 2)` at every even index. */
  function Chunks<T>(s: seq<T>): (r: seq<seq<T>>)
    ensures |r| == (|s| + 1) / 2
    ensures forall i | 0 <= i < |r| :: 2 * i < SliceEnd(|s|, i) <= |s| && r[i] == s[2 * i..SliceEnd(|s|, i)]
    decreases |s|
  {
    if |s| <= 2 then (if s == [] then [] else [s])
    else
      var rest := Chunks(s[2..]);
      ChunksOfTail(s, rest);
      [s[..2]] + rest
  }

  /** Slices of the tail after the first two elements are slices of the whole,
      shifted by one position. */
  lemma ChunksOfTail<T>(s: seq<T>, rest: seq<seq<T>>)
    requires |s| > 2 && |rest| == (|s| - 1) / 2
    requires forall i | 0 <= i < |rest| ::
      2 * i < SliceEnd(|s| - 2, i) <= |s| - 2 && rest[i] == s[2..][2 * i..SliceEnd(|s| - 2, i)]
    ensures forall i | 0 <= i < |rest| + 1 ::
      2 * i < SliceEnd(|s|, i) <= |s| && ([s[..2]] + rest)[i] == s[2 * i..SliceEnd(|s|, i)]
  {
    forall i | 0 <= i < |rest| + 1
      ensures 2 * i < SliceEnd(|s|, i) <= |s| && ([s[..2]] + rest)[i] == s[2 * i..SliceEnd(|s|, i)]
    {
      if i > 0 {
        assert SliceEnd(|s|, i) == SliceEnd(|s| - 2, i - 1) + 2;
        assert rest[i - 1] == s[2..][2 * (i - 1)..SliceEnd(|s| - 2, i - 1)];
      }
    }
  }

  function Flatten<T>(chunks: seq<seq<T>>): seq<T>
  {
    if chunks == [] then [] else chunks[0] + Flatten(chunks[1..])
  }

  /** Concatenating the slices gives back the key list. */
  lemma {:induction false} FlattenChunks<T>(s: seq<T>)
    ensures Flatten(Chunks(s)) == s
    decreases |s|
  {
    if |s| > 2 {
      FlattenChunks(s[2..]);
      assert Chunks(s)[1..] == Chunks(s[2..]);
      assert s == s[..2] + s[2..];
    }
  }
}
