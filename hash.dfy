/** Class Hash of HashTable/hash.cpp: a fixed array of buckets with separate
    chaining, a collision counter and the recorded longest list length. */
module HashTable {
  import opened Buckets

  class Hash {
    /** HASH_TABLE_SIZE: the number of buckets, fixed for the table's life. */
    const size: nat
    /** hf: the hash function; only its range [0, size) is relied on. */
    const hf: string -> nat
    /** hashTable: bucket i holds the words stored in slot i, in order. */
    const table: array<seq<string>>
    /** Number of insertions that landed in an already non-empty bucket. */
    var collisions: int
    /** The value longest_List last returned. */
    var longestList: nat

    ghost predicate Valid()
      reads this, table
    {
      size >= 1 && table.Length == size && InRange(hf, size) && Placed(hf, table[..])
    }

    /** The buckets as a value. */
    function Contents(): (b: Table)
      reads this, table
      ensures |b| == table.Length
    {
      table[..]
    }

    /** Hash(): every bucket empty, both counters zero. */
    constructor (n: nat, h: string -> nat)
      requires n >= 1 && InRange(h, n)
      ensures Valid() && fresh(table)
      ensures size == n && hf == h
      ensures Contents() == Empty(n)
      ensures collisions == 0 && longestList == 0
    {
      size, hf := n, h;
      table := new seq<string>[n](_ => []);
      collisions, longestList := 0, 0;
      new;
      assert table[..] == Empty(n);
    }

    /** One pass of processFile's read loop: append `word` to bucket
        hf(word), counting a collision when that bucket already held a word. */
    method Insert(word: string)
      requires Valid()
      modifies this`collisions, table
      ensures Valid()
      ensures Contents() == InsertInto(hf, old(Contents()), word)
      ensures collisions == old(collisions) + (if old(table[hf(word)]) != [] then 1 else 0)
    {
      var key := hf(word);
      ghost var before := table[..];
      if table[key] != [] {
        table[key] := table[key] + [word];
        collisions := collisions + 1;
      } else {
        table[key] := table[key] + [word];
      }
      assert table[..] == InsertInto(hf, before, word);
      InsertPreservesPlaced(hf, before, word);
    }

    /** processFile: insert every token in order, then record longest_List,
        which as written always yields 0. A file that cannot be opened
        behaves as an empty token sequence. */
    method ProcessFile(tokens: seq<string>)
      requires Valid()
      modifies this`collisions, this`longestList, table
      ensures Valid()
      ensures Contents() == Load(hf, old(Contents()), tokens)
      ensures collisions == old(collisions) + LoadCollisions(hf, old(Contents()), tokens)
      ensures longestList == 0
    {
      var i := 0;
      while i < |tokens|
        invariant 0 <= i <= |tokens|
        invariant Valid()
        invariant Contents() == Load(hf, old(Contents()), tokens[..i])
        invariant collisions == old(collisions) + LoadCollisions(hf, old(Contents()), tokens[..i])
      {
        assert tokens[..i + 1][..i] == tokens[..i];
        Insert(tokens[i]);
        i := i + 1;
      }
      assert tokens[..i] == tokens;
      longestList := LongestScan(table[..], 0, 0, 0);
      LongestScanStuck(table[..], 0, 0, 0);
    }

    /** search: the outer loop repeats the same scan of bucket hf(word)
        once per slot; the first match returns true. */
    method Search(word: string) returns (found: bool)
      requires Valid()
      ensures found == Contains(hf, Contents(), word)
    {
      var key := hf(word);
      var i := 0;
      while i < size
        invariant 0 <= i <= size
        invariant i > 0 ==> word !in table[key]
      {
        var j := 0;
        while j < |table[key]|
          invariant 0 <= j <= |table[key]|
          invariant word !in table[key][..j]
        {
          if table[key][j] == word {
            return true;
          }
          assert table[key][..j + 1] == table[key][..j] + [table[key][j]];
          j := j + 1;
        }
        assert table[key][..j] == table[key];
        i := i + 1;
      }
      return false;
    }

    /** remove: scan the buckets in index order; in the first bucket holding
        `word`, drop every copy of it (std::list::remove) and stop. */
    method Remove(word: string)
      requires Valid()
      modifies table
      ensures Valid()
      ensures Contents() == RemoveFrom(old(Contents()), word)
      ensures collisions == old(collisions) && longestList == old(longestList)
    {
      ghost var before := table[..];
      RemovePreservesPlaced(hf, before, word);
      var i := 0;
      while i < table.Length
        invariant 0 <= i <= table.Length
        invariant table[..] == before
        invariant forall k :: 0 <= k < i ==> word !in table[k]
      {
        var j := 0;
        while j < |table[i]|
          invariant 0 <= j <= |table[i]|
          invariant word !in table[i][..j]
        {
          if table[i][j] == word {
            RemoveHit(before, word, i);
            table[i] := Without(table[i], word);
            assert table[..] == RemoveFrom(before, word);
            return;
          }
          assert table[i][..j + 1] == table[i][..j] + [table[i][j]];
          j := j + 1;
        }
        assert table[i][..j] == table[i];
        i := i + 1;
      }
      RemoveAbsent(before, word);
    }

    /** The integer numerator of loadFactor: the sum of all bucket sizes. */
    method LoadTotal() returns (total: nat)
      requires Valid()
      ensures total == TotalSize(Contents())
    {
      total := 0;
      var i := 0;
      while i < table.Length
        invariant 0 <= i <= table.Length
        invariant total == TotalSize(table[..i])
      {
        assert table[..i + 1][..i] == table[..i];
        total := total + |table[i]|;
        i := i + 1;
      }
      assert table[..i] == table[..];
    }

    /** The two integers avgListLength divides: the sum of all bucket sizes
        and the number of non-empty buckets. */
    method AvgListInputs() returns (total: nat, occupied: nat)
      requires Valid()
      ensures total == TotalSize(Contents())
      ensures occupied == Occupied(Contents())
    {
      total, occupied := 0, 0;
      var i := 0;
      while i < table.Length
        invariant 0 <= i <= table.Length
        invariant total == TotalSize(table[..i])
        invariant occupied == Occupied(table[..i])
      {
        assert table[..i + 1][..i] == table[..i];
        total := total + |table[i]|;
        if table[i] != [] {
          occupied := occupied + 1;
        }
        i := i + 1;
      }
      assert table[..i] == table[..];
    }
  }
}
