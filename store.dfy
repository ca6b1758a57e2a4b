/** The bounded record store that plans.c, equipment.c and member.c each
    write out once: a fixed-capacity array with a count, an id allocator
    that scans for the highest id, a linear lookup, an append refused when
    full, a delete that shifts the later records left, and the load/save
    pair over the count-line file format. */
module RecordStore {
  import opened Format
  import Codec

  /** The highest id in a non-empty sequence, found by the same left-to-right
      scan with a strict `>` that get_next_*_id uses. */
  function MaxId<T>(idOf: T -> int, s: seq<T>): (m: int)
    requires |s| > 0
    ensures forall i :: 0 <= i < |s| ==> idOf(s[i]) <= m
    ensures exists i :: 0 <= i < |s| && idOf(s[i]) == m
  {
    if |s| == 1 then idOf(s[0])
    else
      var m := MaxId(idOf, s[..|s| - 1]);
      assert forall i :: 0 <= i < |s| - 1 ==> s[..|s| - 1][i] == s[i];
      if idOf(s[|s| - 1]) > m then idOf(s[|s| - 1]) else m
  }

  /** The id get_next_*_id hands out: 1 for an empty store, else one more
      than the highest stored id. */
  function NextIdOf<T>(idOf: T -> int, s: seq<T>): (id: int)
    ensures |s| == 0 ==> id == 1
    ensures forall i :: 0 <= i < |s| ==> idOf(s[i]) < id
    ensures |s| > 0 ==> exists i :: 0 <= i < |s| && idOf(s[i]) == id - 1
  {
    if |s| == 0 then 1 else MaxId(idOf, s) + 1
  }

  /** The index the linear lookup returns: the first record whose key is k,
      or -1 when there is none. */
  function IndexOf<T, K(==)>(key: T -> K, s: seq<T>, k: K): (r: int)
    ensures -1 <= r < |s|
    ensures r == -1 <==> forall i :: 0 <= i < |s| ==> key(s[i]) != k
    ensures r >= 0 ==> key(s[r]) == k && forall i :: 0 <= i < r ==> key(s[i]) != k
  {
    if |s| == 0 then -1
    else if key(s[0]) == k then 0
    else
      var r := IndexOf(key, s[1..], k);
      assert forall i :: 1 <= i < |s| ==> s[i] == s[1..][i - 1];
      if r == -1 then -1 else r + 1
  }

  /** The records left after the one at index i is removed. */
  function Without<T>(s: seq<T>, i: nat): seq<T>
    requires i < |s|
  {
    s[..i] + s[i + 1..]
  }

  ghost predicate DistinctKeys<T, K>(key: T -> K, s: seq<T>) {
    forall i, j :: 0 <= i < j < |s| ==> key(s[i]) != key(s[j])
  }

  /** Removing a record shifts exactly the later ones down by one place. */
  lemma WithoutIndices<T>(s: seq<T>, i: nat)
    requires i < |s|
    ensures |Without(s, i)| == |s| - 1
    ensures forall j :: 0 <= j < i ==> Without(s, i)[j] == s[j]
    ensures forall j :: i <= j < |s| - 1 ==> Without(s, i)[j] == s[j + 1]
  {
  }

  /** Appending a record that carries the next id keeps the ids pairwise
      distinct. */
  lemma {:induction false} AppendNextIdKeepsDistinct<T>(idOf: T -> int, s: seq<T>, x: T)
    requires DistinctKeys(idOf, s) && idOf(x) == NextIdOf(idOf, s)
    ensures DistinctKeys(idOf, s + [x])
  {
    forall i, j | 0 <= i < j < |s + [x]|
      ensures idOf((s + [x])[i]) != idOf((s + [x])[j])
    {
      if j == |s| {
        assert (s + [x])[i] == s[i];
      } else {
        assert (s + [x])[i] == s[i] && (s + [x])[j] == s[j];
      }
    }
  }

  /** Removing a record keeps the keys of the others pairwise distinct. */
  lemma {:induction false} WithoutKeepsDistinct<T, K>(key: T -> K, s: seq<T>, i: nat)
    requires i < |s| && DistinctKeys(key, s)
    ensures DistinctKeys(key, Without(s, i))
  {
    WithoutIndices(s, i);
    var w := Without(s, i);
    forall a, b | 0 <= a < b < |w| ensures key(w[a]) != key(w[b]) {
      var a' := if a < i then a else a + 1;
      var b' := if b < i then b else b + 1;
      assert w[a] == s[a'] && w[b] == s[b'] && a' < b';
    }
  }

  /** With distinct keys, removing the record found for k leaves no record
      with key k, and every other record is still there. */
  lemma {:induction false} WithoutRemovesKey<T, K>(key: T -> K, s: seq<T>, k: K)
    requires DistinctKeys(key, s) && IndexOf(key, s, k) >= 0
    ensures IndexOf(key, Without(s, IndexOf(key, s, k)), k) == -1
    ensures forall x :: x in s && key(x) != k ==> x in Without(s, IndexOf(key, s, k))
  {
    var i := IndexOf(key, s, k);
    var w := Without(s, i);
    WithoutIndices(s, i);
    forall j | 0 <= j < |w| ensures key(w[j]) != k {
      var j' := if j < i then j else j + 1;
      assert w[j] == s[j'] && j' != i;
    }
    forall x | x in s && key(x) != k ensures x in w {
      var j :| 0 <= j < |s| && s[j] == x;
      assert j != i;
      if j < i { assert w[j] == x; } else { assert w[j - 1] == x; }
    }
  }

  /** Replacing a record by one with the same key keeps the keys pairwise
      distinct. */
  lemma {:induction false} UpdateKeepingKeyKeepsDistinct<T, K>(key: T -> K, s: seq<T>, i: nat, x: T)
    requires i < |s| && DistinctKeys(key, s) && key(x) == key(s[i])
    ensures DistinctKeys(key, s[i := x])
  {
    var u := s[i := x];
    forall a, b | 0 <= a < b < |u| ensures key(u[a]) != key(u[b]) {
      assert key(u[a]) == key(s[a]) && key(u[b]) == key(s[b]);
    }
  }

  /** Deleting a record that does not hold the highest id leaves the next
      id unchanged. */
  lemma {:induction false} NextIdAfterDeletingBelowMax<T>(idOf: T -> int, s: seq<T>, i: nat)
    requires i < |s| && idOf(s[i]) < MaxId(idOf, s)
    ensures NextIdOf(idOf, Without(s, i)) == NextIdOf(idOf, s)
  {
    var w := Without(s, i);
    WithoutIndices(s, i);
    var j :| 0 <= j < |s| && idOf(s[j]) == MaxId(idOf, s);
    var j' := if j < i then j else j - 1;
    assert w[j'] == s[j];
    var n := NextIdOf(idOf, w);
    var k :| 0 <= k < |w| && idOf(w[k]) == n - 1;
    var k' := if k < i then k else k + 1;
    assert w[k] == s[k'];
  }

  /** Deleting the record that holds the highest id, when the ids are
      distinct and another record remains, lowers the next id to at most
      that id: the deleted id is handed out again or skipped over by a
      lower one. */
  lemma {:induction false} NextIdAfterDeletingMax<T>(idOf: T -> int, s: seq<T>, i: nat)
    requires i < |s| && 1 < |s| && DistinctKeys(idOf, s) && idOf(s[i]) == MaxId(idOf, s)
    ensures NextIdOf(idOf, Without(s, i)) <= idOf(s[i])
  {
    var w := Without(s, i);
    WithoutIndices(s, i);
    var k :| 0 <= k < |w| && idOf(w[k]) == NextIdOf(idOf, w) - 1;
    var k' := if k < i then k else k + 1;
    assert w[k] == s[k'] && k' != i;
    assert idOf(s[k']) != idOf(s[i]) by {
      if k' < i { } else { }
    }
  }

  /** When the id just below the highest one is still held by another
      record, deleting the record with the highest id hands that same id
      out again. */
  lemma {:induction false} NextIdReusesDeletedMax<T>(idOf: T -> int, s: seq<T>, i: nat, j: nat)
    requires i < |s| && j < |s| && i != j && DistinctKeys(idOf, s)
    requires idOf(s[i]) == MaxId(idOf, s) && idOf(s[j]) == idOf(s[i]) - 1
    ensures NextIdOf(idOf, Without(s, i)) == idOf(s[i])
  {
    NextIdAfterDeletingMax(idOf, s, i);
    WithoutIndices(s, i);
    var j' := if j < i then j else j - 1;
    assert Without(s, i)[j'] == s[j];
  }

  /** A fixed-capacity array of records with a count: the `T items[MAX]` and
      `int count` pair that each module keeps. */
  class Store<T(0)> {
    const capacity: nat
    const idOf: T -> int
    const items: array<T>
    var count: nat

    ghost predicate Valid()
      reads this
    {
      items.Length == capacity && count <= capacity
    }

    /** The stored records, items[0..count). */
    function Contents(): seq<T>
      reads this, items
      requires Valid()
    {
      items[..count]
    }

    constructor (capacity: nat, idOf: T -> int)
      ensures Valid() && fresh(items)
      ensures this.capacity == capacity && this.idOf == idOf
      ensures Contents() == []
    {
      this.capacity := capacity;
      this.idOf := idOf;
      items := new T[capacity];
      count := 0;
    }

    /** get_next_*_id: the scan for the highest id. */
    method NextId() returns (id: int)
      requires Valid()
      ensures id == NextIdOf(idOf, Contents())
    {
      if count == 0 {
        return 1;
      }
      var maxId := idOf(items[0]);
      assert items[..1] == [items[0]];
      for i := 1 to count
        invariant maxId == MaxId(idOf, items[..i])
      {
        assert items[..i + 1][..i] == items[..i];
        if idOf(items[i]) > maxId {
          maxId := idOf(items[i]);
        }
      }
      assert items[..count] == Contents();
      return maxId + 1;
    }

    /** find_*_by_*: the first index whose key is k, or -1. */
    method FindFirst<K(==)>(key: T -> K, k: K) returns (index: int)
      requires Valid()
      ensures index == IndexOf(key, Contents(), k)
    {
      for i := 0 to count
        invariant forall j :: 0 <= j < i ==> key(items[j]) != k
      {
        if key(items[i]) == k {
          assert Contents()[i] == items[i];
          return i;
        }
      }
      return -1;
    }

    /** Writes x into slot count and increments count. */
    method Append(x: T)
      requires Valid() && count < capacity
      modifies this, items
      ensures Valid() && count == old(count) + 1
      ensures Contents() == old(Contents()) + [x]
    {
      items[count] := x;
      count := count + 1;
      assert Contents() == old(Contents()) + [x];
    }

    /** Overwrites the record at index i in place. */
    method Put(i: nat, x: T)
      requires Valid() && i < count
      modifies items
      ensures Valid() && Contents() == old(Contents())[i := x]
    {
      items[i] := x;
    }

    /** The delete loop: moves items[i+1..count) down by one and decrements
        count. */
    method RemoveAt(i: nat)
      requires Valid() && i < count
      modifies this, items
      ensures Valid() && count == old(count) - 1
      ensures Contents() == Without(old(Contents()), i)
    {
      ghost var before := items[..count];
      var j := i;
      while j < count - 1
        invariant Valid() && count == |before|
        invariant i <= j <= count - 1
        invariant forall k :: 0 <= k < i ==> items[k] == before[k]
        invariant forall k :: i <= k < j ==> items[k] == before[k + 1]
        invariant forall k :: j <= k < count ==> items[k] == before[k]
      {
        items[j] := items[j + 1];
        j := j + 1;
      }
      count := count - 1;
      WithoutIndices(before, i);
      assert Contents() == Without(before, i);
    }

    /** save_*_to_file: the count line, then one encoded record per stored
        record, in store order. */
    method Save(encode: T -> string) returns (text: string)
      requires Valid()
      ensures text == Codec.FileText(encode, Contents())
    {
      text := IntToString(count) + "\n";
      for i := 0 to count
        invariant text == IntToString(count) + "\n" + Codec.Concat(encode, items[..i])
      {
        Codec.ConcatSnoc(encode, items[..i], items[i]);
        assert items[..i + 1] == items[..i] + [items[i]];
        text := text + encode(items[i]);
      }
      assert items[..count] == Contents();
    }

    /** load_*_from_file with its count corrected: reads the count line,
        then at most min(count, capacity) records, stops at the first one
        that does not parse, and keeps the records read so far. A missing
        file is None. */
    method Load(parse: string -> Option<(T, string)>, file: Option<string>) returns (n: nat)
      requires Valid()
      modifies this, items
      ensures Valid() && n == count
      ensures Codec.Load(parse, capacity, file) == Codec.Loaded(n, Contents())
    {
      count := 0;
      if file.None? {
        Codec.LoadMissingFile<T>(parse, capacity);
        return 0;
      }
      var header := ScanInt(file.value);
      if header.None? {
        Codec.LoadBadCountLine<T>(parse, capacity, file.value);
        return 0;
      }
      var (declared, afterHeader) := header.value;
      Codec.LoadReads(parse, capacity, file.value, declared, afterHeader);
      n := ReadInto(parse, SkipSpace(afterHeader), Codec.ReadLimit(declared, capacity));
      count := n;
    }

    /** The read loop of load_*_from_file: parses up to limit records from
        text into items[0..), stopping at the first that does not parse. */
    method ReadInto(parse: string -> Option<(T, string)>, text: string, limit: nat) returns (n: nat)
      requires Valid() && limit <= capacity
      modifies items
      ensures n <= limit
      ensures items[..n] == Codec.ReadRecords(parse, text, limit).records
    {
      ghost var all := Codec.ReadRecords(parse, text, limit).records;
      ghost var got: seq<T> := [];
      var rest := text;
      n := 0;
      while n < limit
        invariant n <= limit && |got| == n
        invariant items[..n] == got
        invariant all == got + Codec.ReadRecords(parse, rest, limit - n).records
      {
        var next := parse(rest);
        if next.None? {
          Codec.ReadStops(parse, rest, limit - n);
          break;
        }
        var (x, after) := next.value;
        Codec.ReadStep(parse, rest, x, after, limit - n);
        ghost var later := Codec.ReadRecords(parse, after, limit - n - 1).records;
        assert Codec.ReadRecords(parse, rest, limit - n).records == [x] + later;
        assert got + ([x] + later) == (got + [x]) + later;
        items[n] := x;
        assert items[..n + 1] == items[..n] + [x];
        got := got + [x];
        rest := after;
        n := n + 1;
      }
      assert all == got + [];
    }
  }
}
