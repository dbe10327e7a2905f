/**
 * The observable behaviour of the ordered index (google/btree with items
 * ordered by `Less`): insert-or-replace, point lookup and ascending
 * traversal. The entries are kept as a strictly ascending sequence; the
 * ghost map `contents` is the abstract view that callers reason about.
 */
module BTree {
  import opened Common

  class OrderedIndex {
    var entries: seq<IndexRecord>
    ghost var contents: map<Int32, Int64>

    ghost predicate Valid()
      reads this
    {
      StrictlyAscending(entries) && Represents(entries, contents)
    }

    /** btree.New: an empty index. */
    constructor ()
      ensures Valid() && contents == map[] && entries == []
    {
      entries := [];
      contents := map[];
    }

    /** btree.Len: one entry per key. */
    function Len(): (n: nat)
      reads this
      requires Valid()
      ensures n == |contents|
    {
      AscendingKeysOfSize(entries);
      |entries|
    }

    /**
     * Binary search for `key`: `pos` is the number of entries with a smaller
     * key, and `found` says whether the entry at `pos` has the key itself.
     */
    method Search(key: Int32) returns (pos: nat, found: bool)
      requires Valid()
      ensures pos <= |entries|
      ensures forall i :: 0 <= i < pos ==> entries[i].key < key
      ensures found <==> key in contents
      ensures found ==> pos < |entries| && entries[pos].key == key
      ensures !found ==> forall i :: pos <= i < |entries| ==> key < entries[i].key
    {
      var lo, hi := 0, |entries|;
      while lo < hi
        invariant 0 <= lo <= hi <= |entries|
        invariant forall i :: 0 <= i < lo ==> entries[i].key < key
        invariant forall i :: hi <= i < |entries| ==> key <= entries[i].key
      {
        var mid := (lo + hi) / 2;
        if entries[mid].key < key {
          forall i | 0 <= i <= mid ensures entries[i].key < key {
            if i < mid { assert Less(entries[i], entries[mid]); }
          }
          lo := mid + 1;
        } else {
          forall i | mid <= i < |entries| ensures key <= entries[i].key {
            if mid < i { assert Less(entries[mid], entries[i]); }
          }
          hi := mid;
        }
      }
      pos := lo;
      found := lo < |entries| && entries[lo].key == key;
      if key in contents {
        assert key in KeysOf(entries);
        var j :| 0 <= j < |entries| && entries[j].key == key;
      }
    }

    /** btree.Get: the offset stored for `key`, or None when it is absent. */
    method Get(key: Int32) returns (r: Option<Int64>)
      requires Valid()
      ensures r.Some? <==> key in contents
      ensures r.Some? ==> r.value == contents[key]
    {
      var pos, found := Search(key);
      if found {
        r := Some(entries[pos].value);
      } else {
        r := None;
      }
    }

    /**
     * btree.ReplaceOrInsert: afterwards `item.key` maps to `item.value` and
     * every other key is untouched. A present key is replaced (the entry
     * count stays) and its previous entry is returned; a new key adds exactly
     * one entry.
     */
    method ReplaceOrInsert(item: IndexRecord) returns (replaced: Option<IndexRecord>)
      requires Valid()
      modifies this
      ensures Valid()
      ensures contents == old(contents)[item.key := item.value]
      ensures replaced == if item.key in old(contents)
                          then Some(IndexRecord(item.key, old(contents)[item.key]))
                          else None
      ensures |entries| == |old(entries)| + (if item.key in old(contents) then 0 else 1)
    {
      var pos, found := Search(item.key);
      if found {
        replaced := Some(entries[pos]);
        ReplaceKeepsOrder(entries, contents, pos, item);
        entries := entries[..pos] + [item] + entries[pos + 1..];
      } else {
        replaced := None;
        InsertKeepsOrder(entries, contents, pos, item);
        entries := entries[..pos] + [item] + entries[pos..];
      }
      contents := contents[item.key := item.value];
    }

    /**
     * btree.Ascend with a callback that always continues: visits every entry
     * exactly once, in strictly ascending key order.
     */
    method Ascend() returns (items: seq<IndexRecord>)
      requires Valid()
      ensures StrictlyAscending(items) && Represents(items, contents)
    {
      items := [];
      var i := 0;
      while i < |entries|
        invariant 0 <= i <= |entries|
        invariant items == entries[..i]
      {
        items := items + [entries[i]];
        i := i + 1;
      }
      assert entries[..i] == entries;
    }
  }

  /** Overwriting the entry at `pos` with one of the same key keeps the listing valid. */
  lemma ReplaceKeepsOrder(s: seq<IndexRecord>, m: map<Int32, Int64>, pos: nat, e: IndexRecord)
    requires StrictlyAscending(s) && Represents(s, m)
    requires pos < |s| && s[pos].key == e.key
    ensures StrictlyAscending(s[..pos] + [e] + s[pos + 1..])
    ensures Represents(s[..pos] + [e] + s[pos + 1..], m[e.key := e.value])
  {
    var t := s[..pos] + [e] + s[pos + 1..];
    assert |t| == |s|;
    forall i | 0 <= i < |t| ensures t[i] == if i == pos then e else s[i] {
    }
    forall i, j | 0 <= i < j < |t| ensures Less(t[i], t[j]) {
      assert Less(s[i], s[j]);
    }
    var m' := m[e.key := e.value];
    forall k | k in m' ensures k in KeysOf(t) {
      if k == e.key {
        assert t[pos].key == k;
      } else {
        assert k in KeysOf(s);
        var i :| 0 <= i < |s| && s[i].key == k;
        assert t[i].key == k;
      }
    }
    forall i | 0 <= i < |t| ensures t[i].key in m' && m'[t[i].key] == t[i].value {
      if i != pos {
        assert Less(s[i], s[pos]) || Less(s[pos], s[i]);
      }
    }
  }

  /** The elements of `s` with `e` inserted at `pos`. */
  lemma InsertedAt(s: seq<IndexRecord>, pos: nat, e: IndexRecord)
    requires pos <= |s|
    ensures |s[..pos] + [e] + s[pos..]| == |s| + 1
    ensures forall i :: 0 <= i < pos ==> (s[..pos] + [e] + s[pos..])[i] == s[i]
    ensures (s[..pos] + [e] + s[pos..])[pos] == e
    ensures forall i :: pos < i <= |s| ==> (s[..pos] + [e] + s[pos..])[i] == s[i - 1]
  {
  }

  lemma InsertAscending(s: seq<IndexRecord>, pos: nat, e: IndexRecord)
    requires StrictlyAscending(s)
    requires pos <= |s|
    requires forall i :: 0 <= i < pos ==> s[i].key < e.key
    requires forall i :: pos <= i < |s| ==> e.key < s[i].key
    ensures StrictlyAscending(s[..pos] + [e] + s[pos..])
  {
    var t := s[..pos] + [e] + s[pos..];
    InsertedAt(s, pos, e);
    forall i, j | 0 <= i < j < |t| ensures Less(t[i], t[j]) {
      if i < pos && j > pos {
        assert Less(s[i], s[j - 1]);
      } else if i > pos {
        assert Less(s[i - 1], s[j - 1]);
      } else if j < pos {
        assert Less(s[i], s[j]);
      }
    }
  }

  lemma InsertRepresents(s: seq<IndexRecord>, m: map<Int32, Int64>, pos: nat, e: IndexRecord)
    requires Represents(s, m) && e.key !in m
    requires pos <= |s|
    ensures Represents(s[..pos] + [e] + s[pos..], m[e.key := e.value])
  {
    var t := s[..pos] + [e] + s[pos..];
    InsertedAt(s, pos, e);
    var m' := m[e.key := e.value];
    forall k | k in m' ensures k in KeysOf(t) {
      if k == e.key {
        assert t[pos].key == k;
      } else {
        assert k in KeysOf(s);
        var i :| 0 <= i < |s| && s[i].key == k;
        if i < pos { assert t[i].key == k; } else { assert t[i + 1].key == k; }
      }
    }
    forall k | k in KeysOf(t) ensures k in m' {
      var i :| 0 <= i < |t| && t[i].key == k;
      if i < pos { assert s[i].key == k; } else if i > pos { assert s[i - 1].key == k; }
    }
    forall i | 0 <= i < |t| ensures t[i].key in m' && m'[t[i].key] == t[i].value {
      if i < pos { assert t[i] == s[i]; } else if i > pos { assert t[i] == s[i - 1]; }
    }
  }

  /** Inserting a new key at its sorted position keeps the listing valid. */
  lemma InsertKeepsOrder(s: seq<IndexRecord>, m: map<Int32, Int64>, pos: nat, e: IndexRecord)
    requires StrictlyAscending(s) && Represents(s, m)
    requires pos <= |s|
    requires forall i :: 0 <= i < pos ==> s[i].key < e.key
    requires forall i :: pos <= i < |s| ==> e.key < s[i].key
    ensures StrictlyAscending(s[..pos] + [e] + s[pos..])
    ensures Represents(s[..pos] + [e] + s[pos..], m[e.key := e.value])
  {
    InsertAscending(s, pos, e);
    forall i | 0 <= i < |s| ensures s[i].key != e.key {
      assert i < pos || pos <= i;
    }
    assert e.key !in KeysOf(s);
    InsertRepresents(s, m, pos, e);
  }
}
