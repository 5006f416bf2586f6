/** A Bolt bucket as its entries in cursor order: strictly ascending byte-string keys. */
module Bucket {
  import opened ByteStrings

  datatype Entry = Entry(key: Bytes, value: Bytes)

  ghost predicate Sorted(b: seq<Entry>) {
    forall i, j :: 0 <= i < j < |b| ==> Less(b[i].key, b[j].key)
  }

  /** Where `Cursor.Seek` lands: the first entry whose key is not below `key`; |b| past the end. */
  function Seek(b: seq<Entry>, key: Bytes): (i: nat)
    ensures i <= |b|
    ensures forall j :: 0 <= j < i ==> Less(b[j].key, key)
    ensures i < |b| ==> !Less(b[i].key, key)
  {
    if b == [] || !Less(b[0].key, key) then 0 else 1 + Seek(b[1..], key)
  }

  predicate HasAt(b: seq<Entry>, i: nat, key: Bytes) { i < |b| && b[i].key == key }

  /** The entries below `key`, at `key` (none or one) and above it. */
  function Below(b: seq<Entry>, key: Bytes): seq<Entry> { b[..Seek(b, key)] }

  function At(b: seq<Entry>, key: Bytes): seq<Entry> {
    var i := Seek(b, key);
    if HasAt(b, i, key) then [b[i]] else []
  }

  function Above(b: seq<Entry>, key: Bytes): seq<Entry> {
    var i := Seek(b, key);
    if HasAt(b, i, key) then b[i + 1..] else b[i..]
  }

  function Put(b: seq<Entry>, key: Bytes, value: Bytes): seq<Entry> {
    Below(b, key) + [Entry(key, value)] + Above(b, key)
  }

  function Delete(b: seq<Entry>, key: Bytes): seq<Entry> {
    Below(b, key) + Above(b, key)
  }

  function TotalBytes(b: seq<Entry>): nat {
    if b == [] then 0 else |b[0].value| + TotalBytes(b[1..])
  }

  function KeyBytes(b: seq<Entry>): nat {
    if b == [] then 0 else |b[0].key| + KeyBytes(b[1..])
  }

  // ---------- Positions ----------

  /** In a sorted bucket everything from the seek position on is at or above the key. */
  lemma SeekSplits(b: seq<Entry>, key: Bytes)
    requires Sorted(b)
    ensures forall j :: Seek(b, key) <= j < |b| ==> !Less(b[j].key, key)
    ensures forall j :: Seek(b, key) < j < |b| ==> Less(key, b[j].key)
  {
    var i := Seek(b, key);
    if i < |b| {
      forall j | i < j < |b| ensures Less(key, b[j].key) && !Less(b[j].key, key) {
        LessTotal(b[i].key, key);
        if b[i].key != key { LessTransitive(key, b[i].key, b[j].key); }
        LessAsymmetric(key, b[j].key);
      }
    }
  }

  lemma SeekIsUnique(b: seq<Entry>, key: Bytes, i: nat)
    requires i <= |b|
    requires forall j :: 0 <= j < i ==> Less(b[j].key, key)
    requires i < |b| ==> !Less(b[i].key, key)
    ensures Seek(b, key) == i
  {}

  /** Seeking the key of an entry finds that entry. */
  lemma SeekFinds(b: seq<Entry>, i: nat)
    requires Sorted(b) && i < |b|
    ensures Seek(b, b[i].key) == i
  {
    LessIrreflexive(b[i].key);
    SeekIsUnique(b, b[i].key, i);
  }

  // ---------- Put and Delete keep the order and act as on a map ----------

  lemma Parts(b: seq<Entry>, key: Bytes)
    requires Sorted(b)
    ensures b == Below(b, key) + At(b, key) + Above(b, key)
    ensures forall e :: e in Below(b, key) ==> Less(e.key, key) && e.key != key
    ensures forall e :: e in At(b, key) ==> e.key == key
    ensures forall e :: e in Above(b, key) ==> Less(key, e.key) && e.key != key
  {
    AboveIsAbove(b, key);
    LessIrreflexive(key);
    PartsJoin(b, key);
  }

  lemma PartsJoin(b: seq<Entry>, key: Bytes)
    ensures b == Below(b, key) + At(b, key) + Above(b, key)
  {}

  lemma AboveIsAbove(b: seq<Entry>, key: Bytes)
    requires Sorted(b)
    ensures forall e :: e in Above(b, key) ==> Less(key, e.key)
  {
    var i := Seek(b, key);
    forall e | e in Above(b, key) ensures Less(key, e.key) {
      var j :| i <= j < |b| && b[j] == e;
      SeekSplits(b, key);
      if j == i { LessTotal(e.key, key); }
    }
  }

  lemma SortedJoin(lo: seq<Entry>, key: Bytes, value: Bytes, hi: seq<Entry>)
    requires Sorted(lo) && Sorted(hi)
    requires (forall e :: e in lo ==> Less(e.key, key)) && (forall e :: e in hi ==> Less(key, e.key))
    ensures Sorted(lo + hi) && Sorted(lo + [Entry(key, value)] + hi)
  {
    forall i, j | 0 <= i < |lo| && 0 <= j < |hi| ensures Less(lo[i].key, hi[j].key) {
      LessTransitive(lo[i].key, key, hi[j].key);
    }
  }

  lemma PutSorted(b: seq<Entry>, key: Bytes, value: Bytes)
    requires Sorted(b)
    ensures Sorted(Put(b, key, value)) && Sorted(Delete(b, key))
  {
    Parts(b, key);
    var lo, hi := Below(b, key), Above(b, key);
    assert Sorted(lo) && Sorted(hi);
    SortedJoin(lo, key, value, hi);
  }

  /** Put keeps the order and replaces or adds exactly the entry for `key`. */
  lemma PutIsMapUpdate(b: seq<Entry>, key: Bytes, value: Bytes)
    requires Sorted(b)
    ensures Sorted(Put(b, key, value))
    ensures forall e :: e in Put(b, key, value) <==> e == Entry(key, value) || (e in b && e.key != key)
  {
    Parts(b, key);
    PutSorted(b, key, value);
  }

  /** Delete keeps the order and removes exactly the entry for `key`. */
  lemma DeleteIsMapRemoval(b: seq<Entry>, key: Bytes)
    requires Sorted(b)
    ensures Sorted(Delete(b, key))
    ensures forall e :: e in Delete(b, key) <==> e in b && e.key != key
  {
    Parts(b, key);
    PutSorted(b, key, []);
  }

  // ---------- Byte counts ----------

  lemma {:induction false} TotalBytesConcat(a: seq<Entry>, b: seq<Entry>)
    ensures TotalBytes(a + b) == TotalBytes(a) + TotalBytes(b)
  {
    if a == [] {
      assert a + b == b;
    } else {
      TotalBytesConcat(a[1..], b);
      assert (a + b)[1..] == a[1..] + b;
    }
  }

  /** A Put adds its value's bytes less those it overwrites. */
  lemma PutBytes(b: seq<Entry>, key: Bytes, value: Bytes)
    requires Sorted(b)
    ensures TotalBytes(Put(b, key, value)) == TotalBytes(b) + |value| - TotalBytes(At(b, key))
    ensures |Put(b, key, value)| == |b| + 1 - |At(b, key)|
  {
    Parts(b, key);
    var lo, at, hi, e := Below(b, key), At(b, key), Above(b, key), [Entry(key, value)];
    TotalBytesConcat(lo + at, hi);
    TotalBytesConcat(lo, at);
    TotalBytesConcat(lo + e, hi);
    TotalBytesConcat(lo, e);
    assert TotalBytes(e) == |value|;
  }
}
