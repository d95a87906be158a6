/** The bounded selection of the largest blobs, and the in-place sort by descending area. */
module TopBlobs {

  const BLOB_MAX_COUNT := 8

  datatype Blob = Blob(x: nat, y: nat, w: nat, h: nat, area: nat, intensitySum: nat, score: real)

  /** The mean mask value of a blob, normalised by the largest byte. */
  function Score(intensity: nat, area: nat): real {
    if area > 0 then intensity as real / (area as real * 255.0) else 0.0
  }

  /** The score of a blob is the mean intensity of its pixels as a part of 255; without pixels it is 0. */
  ghost predicate Scored(b: Blob) {
    if b.area == 0 then b.score == 0.0 else b.score * (b.area as real * 255.0) == b.intensitySum as real
  }

  lemma {:induction false} ScoreIsMean(b: Blob)
    requires b.score == Score(b.intensitySum, b.area)
    ensures Scored(b)
  {
  }

  /** Area and intensity determine the score. */
  lemma {:induction false} ScoredUnique(b: Blob, c: Blob)
    requires Scored(b) && Scored(c) && b.area == c.area && b.intensitySum == c.intensitySum
    ensures b.score == c.score
  {
    if b.area > 0 {
      SameFactor(b.score, c.score, b.area as real * 255.0);
    }
  }

  lemma SameFactor(a: real, b: real, d: real)
    requires d > 0.0 && a * d == b * d
    ensures a == b
  {
    assert (a - b) * d == 0.0;
  }

  /** `kept` are the largest of `offered`: everything left out is at most everything kept, and
      something is left out only when the buffer is full. */
  ghost predicate LargestOf(offered: seq<Blob>, kept: seq<Blob>, rest: seq<Blob>) {
    && multiset(offered) == multiset(kept) + multiset(rest)
    && (forall r, b :: r in rest && b in kept ==> r.area <= b.area)
    && |kept| <= BLOB_MAX_COUNT
    && (rest != [] ==> |kept| == BLOB_MAX_COUNT)
  }

  /** How many are kept. */
  lemma {:induction false} KeptCount(offered: seq<Blob>, kept: seq<Blob>, rest: seq<Blob>)
    requires LargestOf(offered, kept, rest)
    ensures |kept| == if |offered| <= 8 then |offered| else 8
  {
    assert |multiset(offered)| == |multiset(kept)| + |multiset(rest)|;
  }

  lemma {:induction false} MultisetReplace(s: seq<Blob>, i: nat, b: Blob)
    requires i < |s|
    ensures multiset(s[i := b]) + multiset{s[i]} == multiset(s) + multiset{b}
  {
  }

  lemma {:induction false} MemberOfReplaced(s: seq<Blob>, i: nat, b: Blob, c: Blob)
    requires i < |s| && c in s[i := b]
    ensures c == b || c in s
  {
  }

  /** Replacing the smallest kept blob by a larger newcomer. */
  lemma {:induction false} ReplaceSmallest(offered: seq<Blob>, kept: seq<Blob>, rest: seq<Blob>, i: nat, b: Blob)
    requires LargestOf(offered, kept, rest) && i < |kept| == BLOB_MAX_COUNT
    requires forall c :: c in kept ==> kept[i].area <= c.area
    requires b.area > kept[i].area
    ensures LargestOf(offered + [b], kept[i := b], rest + [kept[i]])
  {
    MultisetReplace(kept, i, b);
    forall r, c | r in rest + [kept[i]] && c in kept[i := b]
      ensures r.area <= c.area
    {
      MemberOfReplaced(kept, i, b, c);
      assert kept[i] in kept;
    }
  }

  lemma {:induction false} RejectNewcomer(offered: seq<Blob>, kept: seq<Blob>, rest: seq<Blob>, i: nat, b: Blob)
    requires LargestOf(offered, kept, rest) && i < |kept| == BLOB_MAX_COUNT
    requires forall c :: c in kept ==> kept[i].area <= c.area
    requires b.area <= kept[i].area
    ensures LargestOf(offered + [b], kept, rest + [b])
  {
  }

  lemma {:induction false} AcceptNewcomer(offered: seq<Blob>, kept: seq<Blob>, rest: seq<Blob>, b: Blob)
    requires LargestOf(offered, kept, rest) && |kept| < BLOB_MAX_COUNT
    ensures LargestOf(offered + [b], kept + [b], rest)
  {
    assert rest == [];
  }

  /** The index of the first smallest entry of the full buffer. */
  method SmallestIndex(collected: array<Blob>) returns (minIdx: nat)
    requires collected.Length == BLOB_MAX_COUNT
    ensures minIdx < BLOB_MAX_COUNT
    ensures forall c :: c in collected[..] ==> collected[minIdx].area <= c.area
  {
    minIdx := 0;
    for i := 1 to BLOB_MAX_COUNT
      invariant minIdx < BLOB_MAX_COUNT
      invariant forall j :: 0 <= j < i ==> collected[minIdx].area <= collected[j].area
    {
      if collected[i].area < collected[minIdx].area {
        minIdx := i;
      }
    }
  }

  /** Offer one blob to the buffer `collected`, of which the first `n` entries are in use. */
  method Offer(collected: array<Blob>, n: nat, b: Blob, ghost offered: seq<Blob>, ghost rest: seq<Blob>)
    returns (n': nat, ghost rest': seq<Blob>)
    requires collected.Length == BLOB_MAX_COUNT && n <= BLOB_MAX_COUNT
    requires LargestOf(offered, collected[..n], rest)
    modifies collected
    ensures n' <= BLOB_MAX_COUNT && LargestOf(offered + [b], collected[..n'], rest')
  {
    ghost var kept := collected[..n];
    if n < BLOB_MAX_COUNT {
      AcceptNewcomer(offered, kept, rest, b);
      collected[n] := b;
      n', rest' := n + 1, rest;
      assert collected[..n'] == kept + [b];
      return;
    }
    n' := n;
    assert kept == collected[..];
    var minIdx := SmallestIndex(collected);
    if b.area > collected[minIdx].area {
      ReplaceSmallest(offered, kept, rest, minIdx, b);
      rest' := rest + [collected[minIdx]];
      collected[minIdx] := b;
      assert collected[..n] == kept[minIdx := b];
    } else {
      RejectNewcomer(offered, kept, rest, minIdx, b);
      rest' := rest + [b];
    }
  }

  /** `s` with entry `i` moved down to position `j`. */
  ghost function Inserted(s: seq<Blob>, i: nat, j: nat): (r: seq<Blob>)
    requires j <= i < |s|
    ensures |r| == |s|
  {
    s[..j] + [s[i]] + s[j..i] + s[i + 1..]
  }

  lemma {:induction false} InsertedPermutes(s: seq<Blob>, i: nat, j: nat)
    requires j <= i < |s|
    ensures multiset(Inserted(s, i, j)) == multiset(s)
  {
    assert s == s[..j] + s[j..i] + [s[i]] + s[i + 1..];
  }

  /** Insertion within the first `n` entries permutes them and leaves the others alone. */
  lemma {:induction false} PrefixPermutes(s: seq<Blob>, n: nat, i: nat, j: nat)
    requires j <= i < n <= |s|
    ensures multiset(Inserted(s, i, j)[..n]) == multiset(s[..n])
    ensures Inserted(s, i, j)[n..] == s[n..]
  {
    InsertedPermutes(s[..n], i, j);
    assert Inserted(s, i, j)[..n] == Inserted(s[..n], i, j);
  }

  ghost predicate DescendingTo(s: seq<Blob>, n: nat) {
    n <= |s| && forall i, j :: 0 <= i < j < n ==> s[i].area >= s[j].area
  }

  lemma {:induction false} InsertedDescends(s: seq<Blob>, i: nat, j: nat)
    requires j <= i < |s| && DescendingTo(s, i)
    requires forall k :: j <= k < i ==> s[i].area > s[k].area
    requires j > 0 ==> s[j - 1].area >= s[i].area
    ensures DescendingTo(Inserted(s, i, j), i + 1)
  {
    var r := Inserted(s, i, j);
    forall a, b | 0 <= a < b < i + 1
      ensures r[a].area >= r[b].area
    {
      assert r[a] == if a < j then s[a] else if a == j then s[i] else s[a - 1];
      assert r[b] == if b < j then s[b] else if b == j then s[i] else s[b - 1];
    }
  }

  /** The inner loop of the sort: shift larger entries up, then place entry `i`. */
  method InsertEntry(arr: array<Blob>, i: nat) returns (ghost j: nat)
    requires 1 <= i < arr.Length
    modifies arr
    ensures j <= i && arr[..] == Inserted(old(arr[..]), i, j)
    ensures forall k :: j <= k < i ==> old(arr[i].area > arr[k].area)
    ensures j > 0 ==> old(arr[j - 1].area >= arr[i].area)
  {
    ghost var s := arr[..];
    var tmp := arr[i];
    var at := i - 1;
    while at >= 0 && tmp.area > arr[at].area
      invariant -1 <= at < i
      invariant forall k :: 0 <= k <= at ==> arr[k] == s[k]
      invariant forall k :: at + 1 < k <= i ==> arr[k] == s[k - 1]
      invariant forall k :: i < k < arr.Length ==> arr[k] == s[k]
      invariant forall k :: at < k < i ==> tmp.area > s[k].area
    {
      arr[at + 1] := arr[at];
      at := at - 1;
    }
    arr[at + 1] := tmp;
    j := at + 1;
    assert arr[..] == Inserted(s, i, j);
  }

  /** Insertion sort of the first `n` entries by descending area. */
  method SortByArea(arr: array<Blob>, n: nat)
    requires n <= arr.Length
    modifies arr
    ensures DescendingTo(arr[..], n) && multiset(arr[..n]) == multiset(old(arr[..n]))
    ensures arr[n..] == old(arr[n..])
  {
    var i := 1;
    while i < n
      invariant 1 <= i && (i <= n || n == 0)
      invariant DescendingTo(arr[..], if i <= n then i else n)
      invariant multiset(arr[..n]) == multiset(old(arr[..n]))
      invariant arr[n..] == old(arr[n..])
    {
      ghost var s := arr[..];
      assert arr[..n] == s[..n] && arr[n..] == s[n..];
      ghost var j := InsertEntry(arr, i);
      InsertedDescends(s, i, j);
      PrefixPermutes(s, n, i, j);
      assert arr[..n] == arr[..][..n] && arr[n..] == arr[..][n..];
      i := i + 1;
    }
  }
}
