/** The value behind class Hash: a table is a sequence of buckets (one per
    slot of hashTable), each bucket the words stored in that slot, in the
    order they were appended. The hash function is a parameter `h`; the
    functions here are what the methods of class Hash are proved against. */
module Buckets {

  type Table = seq<seq<string>>

  /** `h` sends every word to a slot of a table with `n` buckets. */
  ghost predicate InRange(h: string -> nat, n: nat)
  {
    forall w :: h(w) < n
  }

  /** Every stored word sits in the bucket that its hash selects. */
  ghost predicate Placed(h: string -> nat, b: Table)
  {
    forall i, j :: 0 <= i < |b| && 0 <= j < |b[i]| ==> h(b[i][j]) == i
  }

  /** A freshly constructed table: `n` empty buckets. */
  function Empty(n: nat): (b: Table)
    ensures |b| == n
    ensures forall k :: 0 <= k < n ==> b[k] == []
  {
    seq(n, _ => [])
  }

  // ---------------------------------------------------------------------
  // Insertion (the per-token body of processFile)
  // ---------------------------------------------------------------------

  /** Append `w` to the end of bucket `h(w)`; every other bucket stays. */
  function InsertInto(h: string -> nat, b: Table, w: string): (r: Table)
    requires h(w) < |b|
    ensures |r| == |b|
    ensures r[h(w)] == b[h(w)] + [w]
    ensures forall k :: 0 <= k < |b| && k != h(w) ==> r[k] == b[k]
  {
    b[h(w) := b[h(w)] + [w]]
  }

  /** The table after inserting the tokens of `ws` one by one, in order. */
  function Load(h: string -> nat, b: Table, ws: seq<string>): (r: Table)
    requires InRange(h, |b|)
    ensures |r| == |b|
    decreases |ws|
  {
    if ws == [] then b
    else InsertInto(h, Load(h, b, ws[..|ws| - 1]), ws[|ws| - 1])
  }

  /** How many of the tokens of `ws` land in a bucket that is already
      non-empty: the amount by which loading `ws` raises `collisions`. */
  function LoadCollisions(h: string -> nat, b: Table, ws: seq<string>): (r: nat)
    requires InRange(h, |b|)
    ensures r <= |ws|
    decreases |ws|
  {
    if ws == [] then 0
    else
      var before := Load(h, b, ws[..|ws| - 1]);
      LoadCollisions(h, b, ws[..|ws| - 1]) + (if before[h(ws[|ws| - 1])] != [] then 1 else 0)
  }

  /** The tokens of `ws` that hash to slot `k`, in input order, duplicates kept. */
  function Routed(h: string -> nat, ws: seq<string>, k: nat): (r: seq<string>)
    ensures |r| <= |ws|
    ensures forall w :: w in r ==> w in ws && h(w) == k
    decreases |ws|
  {
    if ws == [] then []
    else Routed(h, ws[..|ws| - 1], k) + (if h(ws[|ws| - 1]) == k then [ws[|ws| - 1]] else [])
  }

  lemma {:induction false} InsertPreservesPlaced(h: string -> nat, b: Table, w: string)
    requires h(w) < |b| && Placed(h, b)
    ensures Placed(h, InsertInto(h, b, w))
  {
    var r := InsertInto(h, b, w);
    forall i, j | 0 <= i < |r| && 0 <= j < |r[i]|
      ensures h(r[i][j]) == i
    {
      if i == h(w) && j == |b[i]| {
        assert r[i][j] == w;
      } else {
        assert r[i][j] == b[i][j];
      }
    }
  }

  lemma {:induction false} LoadPreservesPlaced(h: string -> nat, b: Table, ws: seq<string>)
    requires InRange(h, |b|) && Placed(h, b)
    ensures Placed(h, Load(h, b, ws))
    decreases |ws|
  {
    if ws != [] {
      LoadPreservesPlaced(h, b, ws[..|ws| - 1]);
      InsertPreservesPlaced(h, Load(h, b, ws[..|ws| - 1]), ws[|ws| - 1]);
    }
  }

  /** After loading `ws`, bucket `k` is its old contents followed by exactly
      the tokens routed to `k`, in input order. */
  lemma {:induction false} LoadBucket(h: string -> nat, b: Table, ws: seq<string>, k: nat)
    requires InRange(h, |b|) && k < |b|
    ensures Load(h, b, ws)[k] == b[k] + Routed(h, ws, k)
    decreases |ws|
  {
    if ws != [] {
      var init, w := ws[..|ws| - 1], ws[|ws| - 1];
      LoadBucket(h, b, init, k);
      if h(w) == k {
        assert Load(h, b, ws)[k] == (b[k] + Routed(h, init, k)) + [w];
      } else {
        assert Load(h, b, ws)[k] == b[k] + Routed(h, init, k);
      }
    }
  }

  /** Loading into a fresh table: bucket `k` is exactly the subsequence of
      tokens that hash to `k`. */
  lemma FreshLoadBuckets(h: string -> nat, n: nat, ws: seq<string>)
    requires InRange(h, n)
    ensures forall k :: 0 <= k < n ==> Load(h, Empty(n), ws)[k] == Routed(h, ws, k)
  {
    forall k | 0 <= k < n
      ensures Load(h, Empty(n), ws)[k] == Routed(h, ws, k)
    {
      LoadBucket(h, Empty(n), ws, k);
    }
  }

  /** Loading one more token is one more insertion. */
  lemma LoadSnoc(h: string -> nat, b: Table, ws: seq<string>, w: string)
    requires InRange(h, |b|)
    ensures Load(h, b, ws + [w]) == InsertInto(h, Load(h, b, ws), w)
    ensures LoadCollisions(h, b, ws + [w])
         == LoadCollisions(h, b, ws) + (if Load(h, b, ws)[h(w)] != [] then 1 else 0)
  {
    assert (ws + [w])[..|ws|] == ws;
  }

  /** Loading x, y, x, z into four buckets with x and y hashing to 1 and z
      to 3: bucket 1 holds x, y, x; bucket 3 holds z; the second and third
      tokens are collisions. */
  lemma LoadScenario(h: string -> nat)
    requires InRange(h, 4) && h("x") == 1 && h("y") == 1 && h("z") == 3
    ensures Load(h, Empty(4), ["x", "y", "x", "z"]) == [[], ["x", "y", "x"], [], ["z"]]
    ensures LoadCollisions(h, Empty(4), ["x", "y", "x", "z"]) == 2
  {
    var e := Empty(4);
    assert e == [[], [], [], []];
    LoadSnoc(h, e, [], "x");
    assert [] + ["x"] == ["x"];
    assert Load(h, e, ["x"]) == [[], ["x"], [], []];
    LoadSnoc(h, e, ["x"], "y");
    assert ["x"] + ["y"] == ["x", "y"];
    assert Load(h, e, ["x", "y"]) == [[], ["x", "y"], [], []];
    LoadSnoc(h, e, ["x", "y"], "x");
    assert ["x", "y"] + ["x"] == ["x", "y", "x"];
    assert Load(h, e, ["x", "y", "x"]) == [[], ["x", "y", "x"], [], []];
    LoadSnoc(h, e, ["x", "y", "x"], "z");
    assert ["x", "y", "x"] + ["z"] == ["x", "y", "x", "z"];
    assert [] + ["z"] == ["z"];
    assert Load(h, e, ["x", "y", "x", "z"]) == [[], ["x", "y", "x"], [], ["z"]];
  }

  // ---------------------------------------------------------------------
  // Sizes: the numerator of loadFactor and the inputs of avgListLength
  // ---------------------------------------------------------------------

  /** Sum of all bucket sizes. */
  function TotalSize(b: Table): (r: nat)
    decreases |b|
  {
    if b == [] then 0 else TotalSize(b[..|b| - 1]) + |b[|b| - 1]|
  }

  /** Number of non-empty buckets. */
  function Occupied(b: Table): (r: nat)
    ensures r <= |b|
    decreases |b|
  {
    if b == [] then 0 else Occupied(b[..|b| - 1]) + (if b[|b| - 1] != [] then 1 else 0)
  }

  /** Replacing one bucket changes the total by the difference in its size. */
  lemma {:induction false} TotalSizeUpdate(b: Table, k: nat, x: seq<string>)
    requires k < |b|
    ensures TotalSize(b[k := x]) == TotalSize(b) - |b[k]| + |x|
    decreases |b|
  {
    var last := |b| - 1;
    if k == last {
      assert b[k := x][..last] == b[..last];
    } else {
      assert b[k := x][..last] == b[..last][k := x];
      TotalSizeUpdate(b[..last], k, x);
    }
  }

  /** Replacing one bucket changes the number of non-empty buckets by at
      most the change in that bucket's emptiness. */
  lemma {:induction false} OccupiedUpdate(b: Table, k: nat, x: seq<string>)
    requires k < |b|
    ensures Occupied(b[k := x]) + (if b[k] != [] then 1 else 0)
         == Occupied(b) + (if x != [] then 1 else 0)
    decreases |b|
  {
    var last := |b| - 1;
    if k == last {
      assert b[k := x][..last] == b[..last];
    } else {
      assert b[k := x][..last] == b[..last][k := x];
      OccupiedUpdate(b[..last], k, x);
    }
  }

  lemma {:induction false} EmptyHasNothing(n: nat)
    ensures TotalSize(Empty(n)) == 0 && Occupied(Empty(n)) == 0
  {
    if n > 0 {
      assert Empty(n)[..n - 1] == Empty(n - 1);
      EmptyHasNothing(n - 1);
    }
  }

  /** Every token loaded adds exactly one element to the table. */
  lemma {:induction false} LoadSize(h: string -> nat, b: Table, ws: seq<string>)
    requires InRange(h, |b|)
    ensures TotalSize(Load(h, b, ws)) == TotalSize(b) + |ws|
    decreases |ws|
  {
    if ws != [] {
      var before, w := Load(h, b, ws[..|ws| - 1]), ws[|ws| - 1];
      LoadSize(h, b, ws[..|ws| - 1]);
      TotalSizeUpdate(before, h(w), before[h(w)] + [w]);
    }
  }

  /** A token is a collision exactly when it does not open a new bucket:
      collisions plus newly occupied buckets account for every token. */
  lemma {:induction false} CollisionsAccount(h: string -> nat, b: Table, ws: seq<string>)
    requires InRange(h, |b|)
    ensures LoadCollisions(h, b, ws) + Occupied(Load(h, b, ws)) == Occupied(b) + |ws|
    decreases |ws|
  {
    if ws != [] {
      var before, w := Load(h, b, ws[..|ws| - 1]), ws[|ws| - 1];
      CollisionsAccount(h, b, ws[..|ws| - 1]);
      OccupiedUpdate(before, h(w), before[h(w)] + [w]);
    }
  }

  /** Loading `ws` into a fresh table stores |ws| words, and the collision
      count is the number of tokens minus the number of buckets used. */
  lemma FreshLoadCounts(h: string -> nat, n: nat, ws: seq<string>)
    requires InRange(h, n)
    ensures TotalSize(Load(h, Empty(n), ws)) == |ws|
    ensures LoadCollisions(h, Empty(n), ws) == |ws| - Occupied(Load(h, Empty(n), ws))
  {
    EmptyHasNothing(n);
    LoadSize(h, Empty(n), ws);
    CollisionsAccount(h, Empty(n), ws);
  }

  /** The two integers avgListLength divides: there are never more non-empty
      buckets than elements, and the divisor is zero exactly when the
      table holds nothing. */
  lemma {:induction false} OccupiedBounds(b: Table)
    ensures Occupied(b) <= TotalSize(b)
    ensures Occupied(b) == 0 <==> TotalSize(b) == 0
    decreases |b|
  {
    if b != [] {
      OccupiedBounds(b[..|b| - 1]);
    }
  }

  // ---------------------------------------------------------------------
  // Search
  // ---------------------------------------------------------------------

  /** What search reports: `w` occurs in its home bucket `h(w)`. */
  function Contains(h: string -> nat, b: Table, w: string): bool
    requires h(w) < |b|
  {
    w in b[h(w)]
  }

  /** On a table whose words sit in their home buckets, scanning only the
      home bucket finds a word exactly when it is stored anywhere. */
  lemma ContainsIffStored(h: string -> nat, b: Table, w: string)
    requires h(w) < |b| && Placed(h, b)
    ensures Contains(h, b, w) <==> exists i :: 0 <= i < |b| && w in b[i]
  {
    if i :| 0 <= i < |b| && w in b[i] {
      PlacedHome(h, b, w, i);
    }
  }

  /** On a placed table, a word found in bucket `k` has `k` as its home. */
  lemma PlacedHome(h: string -> nat, b: Table, w: string, k: nat)
    requires Placed(h, b) && k < |b| && w in b[k]
    ensures h(w) == k
  {
    var j :| 0 <= j < |b[k]| && b[k][j] == w;
    assert h(b[k][j]) == k;
  }

  /** Inserting `w` makes `w` found and changes the answer for no other word. */
  lemma ContainsAfterInsert(h: string -> nat, b: Table, w: string, v: string)
    requires h(w) < |b| && h(v) < |b|
    ensures Contains(h, InsertInto(h, b, w), v) <==> Contains(h, b, v) || v == w
  {
    if h(v) == h(w) {
      assert InsertInto(h, b, w)[h(v)] == b[h(v)] + [w];
    }
  }

  /** After loading `ws` into a fresh table, search finds exactly the
      tokens of `ws`. */
  lemma FreshLoadContains(h: string -> nat, n: nat, ws: seq<string>, w: string)
    requires InRange(h, n)
    ensures Contains(h, Load(h, Empty(n), ws), w) <==> w in ws
  {
    LoadBucket(h, Empty(n), ws, h(w));
    RoutedKeeps(h, ws, w);
  }

  /** Every token routed to its own home slot is kept by Routed. */
  lemma {:induction false} RoutedKeeps(h: string -> nat, ws: seq<string>, w: string)
    ensures w in Routed(h, ws, h(w)) <==> w in ws
    decreases |ws|
  {
    if ws != [] {
      var init := ws[..|ws| - 1];
      RoutedKeeps(h, init, w);
      assert ws == init + [ws[|ws| - 1]];
    }
  }

  // ---------------------------------------------------------------------
  // Removal
  // ---------------------------------------------------------------------

  /** What std::list::remove leaves: `s` with every element equal to `w`
      dropped, the rest in their original order. */
  function Without(s: seq<string>, w: string): (r: seq<string>)
    ensures w !in r
    ensures forall x :: x in r ==> x in s
    decreases |s|
  {
    if s == [] then []
    else Without(s[..|s| - 1], w) + (if s[|s| - 1] == w then [] else [s[|s| - 1]])
  }

  /** Dropping `w` distributes over concatenation, so relative order is kept. */
  lemma {:induction false} WithoutConcat(s: seq<string>, t: seq<string>, w: string)
    ensures Without(s + t, w) == Without(s, w) + Without(t, w)
    decreases |t|
  {
    if t == [] {
      assert s + t == s;
    } else {
      var t' := t[..|t| - 1];
      assert (s + t)[..|s + t| - 1] == s + t';
      WithoutConcat(s, t', w);
    }
  }

  /** Only copies of `w` go: every other word keeps its multiplicity. */
  lemma {:induction false} WithoutMultiset(s: seq<string>, w: string)
    ensures multiset(Without(s, w)) == multiset(s)[w := 0]
    ensures |Without(s, w)| == |s| - multiset(s)[w]
    decreases |s|
  {
    if s != [] {
      var init := s[..|s| - 1];
      WithoutMultiset(init, w);
      assert s == init + [s[|s| - 1]];
    }
  }

  /** Removing a word that is not there leaves the sequence as it was. */
  lemma {:induction false} WithoutAbsent(s: seq<string>, w: string)
    requires w !in s
    ensures Without(s, w) == s
    decreases |s|
  {
    if s != [] {
      var init := s[..|s| - 1];
      assert s == init + [s[|s| - 1]];
      WithoutAbsent(init, w);
    }
  }

  /** The lowest bucket index holding `w`, or |b| when no bucket does. */
  function FirstHolding(b: Table, w: string): (i: nat)
    ensures i <= |b|
    ensures i < |b| ==> w in b[i]
    ensures forall k :: 0 <= k < i ==> w !in b[k]
    decreases |b|
  {
    if b == [] then 0
    else if w in b[0] then 0
    else 1 + FirstHolding(b[1..], w)
  }

  /** What remove does: in the lowest-indexed bucket holding `w`, drop
      every copy of `w`; leave the table alone when no bucket holds it. */
  function RemoveFrom(b: Table, w: string): (r: Table)
    ensures |r| == |b|
  {
    var i := FirstHolding(b, w);
    if i == |b| then b else b[i := Without(b[i], w)]
  }

  /** A miss changes nothing. */
  lemma RemoveAbsent(b: Table, w: string)
    requires forall k :: 0 <= k < |b| ==> w !in b[k]
    ensures RemoveFrom(b, w) == b
  {
  }

  /** A hit: bucket `i`, the first holding `w`, loses all its copies of `w`
      and keeps the rest in order; all other buckets are untouched. */
  lemma RemoveHit(b: Table, w: string, i: nat)
    requires i < |b| && w in b[i]
    requires forall k :: 0 <= k < i ==> w !in b[k]
    ensures RemoveFrom(b, w)[i] == Without(b[i], w)
    ensures forall k :: 0 <= k < |b| && k != i ==> RemoveFrom(b, w)[k] == b[k]
  {
  }

  lemma RemovePreservesPlaced(h: string -> nat, b: Table, w: string)
    requires Placed(h, b)
    ensures Placed(h, RemoveFrom(b, w))
  {
    var r := RemoveFrom(b, w);
    forall i, j | 0 <= i < |r| && 0 <= j < |r[i]|
      ensures h(r[i][j]) == i
    {
      assert r[i][j] in r[i];
      var j' :| 0 <= j' < |b[i]| && b[i][j'] == r[i][j];
    }
  }

  /** On a placed table, one remove deletes `w` from the whole table, so a
      following search misses it. */
  lemma RemoveThenMissing(h: string -> nat, b: Table, w: string)
    requires h(w) < |b| && Placed(h, b)
    ensures forall k :: 0 <= k < |b| ==> w !in RemoveFrom(b, w)[k]
    ensures !Contains(h, RemoveFrom(b, w), w)
  {
    forall k | 0 <= k < |b| && w in b[k]
      ensures k == h(w)
    {
      PlacedHome(h, b, w, k);
    }
  }

  /** On a placed table, remove shrinks the total by the number of copies
      of `w` in its home bucket. */
  lemma RemoveSize(h: string -> nat, b: Table, w: string)
    requires h(w) < |b| && Placed(h, b)
    ensures TotalSize(RemoveFrom(b, w)) == TotalSize(b) - multiset(b[h(w)])[w]
  {
    var i := FirstHolding(b, w);
    if i < |b| {
      PlacedHome(h, b, w, i);
      WithoutMultiset(b[i], w);
      TotalSizeUpdate(b, i, Without(b[i], w));
    } else {
      assert w !in b[h(w)];
    }
  }

  // ---------------------------------------------------------------------
  // Longest list
  // ---------------------------------------------------------------------

  /** longest_List's loop as written, from bucket `i` on, with its two
      accumulators `mx` (max) and `mn` (min). */
  function LongestScan(b: Table, i: nat, mx: nat, mn: nat): nat
    requires i <= |b|
    decreases |b| - i
  {
    if i == |b| then mx
    else if mx < mn then LongestScan(b, i + 1, mn, |b[i]|)
    else LongestScan(b, i + 1, mx, mn)
  }

  /** Once `mn <= mx`, the update branch is never taken again and the scan
      returns `mx` unchanged. */
  lemma {:induction false} LongestScanStuck(b: Table, i: nat, mx: nat, mn: nat)
    requires i <= |b| && mn <= mx
    ensures LongestScan(b, i, mx, mn) == mx
    decreases |b| - i
  {
    if i < |b| {
      LongestScanStuck(b, i + 1, mx, mn);
    }
  }

  /** The longest bucket's length: what longest_List is documented to return. */
  function MaxBucketLen(b: Table): (r: nat)
    ensures forall k :: 0 <= k < |b| ==> |b[k]| <= r
    ensures b != [] ==> exists k :: 0 <= k < |b| && |b[k]| == r
    ensures b == [] ==> r == 0
    decreases |b|
  {
    if b == [] then 0
    else
      var m := MaxBucketLen(b[..|b| - 1]);
      if |b[|b| - 1]| > m then |b[|b| - 1]| else m
  }

  /** As written, longest_List reports 0 for every table that holds a word,
      although its longest bucket is at least 1 long. */
  lemma LongestListMissesLongest(b: Table)
    requires TotalSize(b) > 0
    ensures LongestScan(b, 0, 0, 0) == 0 < MaxBucketLen(b)
  {
    LongestScanStuck(b, 0, 0, 0);
    OccupiedBounds(b);
    NonEmptyBucket(b);
  }

  /** A table holding a word has a non-empty bucket. */
  lemma {:induction false} NonEmptyBucket(b: Table)
    requires TotalSize(b) > 0
    ensures exists k :: 0 <= k < |b| && b[k] != []
    decreases |b|
  {
    var last := |b| - 1;
    if b[last] == [] {
      NonEmptyBucket(b[..last]);
      var k :| 0 <= k < last && b[..last][k] != [];
      assert b[k] != [];
    }
  }
}
