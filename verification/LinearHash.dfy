/** The incrementally resized hash tables of the node cache: `struct node_table` with
    `hash_*`, `unhash_*`, `rehash_*`, `remerge_*`, `node_table_resize` and `node_table_reduce`
    (tagfs/FUSE_driver/libfuse/lib/fuse.c, lines 513-545, 574-686, 688-813 and 849-861).

    The id table and the name table run the same algorithm over different keys and hashes, so
    one class models both. A bucket chain is a sequence whose head is the bucket's pointer. */
module LinearHash {
  import opened Options

  const NODE_TABLE_MIN_SIZE: nat := 8192

  datatype Entry<K, V> = Entry(key: K, value: V)

  /** Table sizes are the minimum doubled some number of times. */
  ghost predicate PowerSize(size: nat) {
    size == NODE_TABLE_MIN_SIZE
    || (size > NODE_TABLE_MIN_SIZE && size % 2 == 0 && PowerSize(size / 2))
  }

  /** The bucket of hash value `h`: the first `split` buckets of the lower half have already been
      split in two, the others still hold what will later move to the upper half. */
  function Slot(h: nat, size: nat, split: nat): (i: nat)
    requires size >= 2 && size % 2 == 0
  {
    var hash := h % size;
    var oldhash := hash % (size / 2);
    if oldhash >= split then oldhash else hash
  }

  /** `id_hash` before reduction to a bucket: a 32-bit multiplication. */
  function IdHash(ino: nat): nat {
    (ino % 0x1_0000_0000) * 2654435761 % 0x1_0000_0000
  }

  /** `name_hash` before reduction to a bucket: 64-bit arithmetic over the bytes of the name. */
  function NameHash(parent: nat, name: string): nat {
    if name == "" then parent % 0x1_0000_0000_0000_0000
    else (NameHash(parent, name[..|name| - 1]) * 31 + name[|name| - 1] as nat % 256) % 0x1_0000_0000_0000_0000
  }

  /** `name_hash`: the loop over the name, then the bucket. */
  method NameBucket(parent: nat, name: string, size: nat, split: nat) returns (i: nat)
    requires size >= 2 && size % 2 == 0
    ensures i == Slot(NameHash(parent, name), size, split)
  {
    var h := parent % 0x1_0000_0000_0000_0000;
    var k: nat := 0;
    while k < |name|
      invariant k <= |name| && h == NameHash(parent, name[..k])
    {
      h := (h * 31 + name[k] as nat % 256) % 0x1_0000_0000_0000_0000;
      k := k + 1;
      assert name[..k][..k - 1] == name[..k - 1];
    }
    assert name[..k] == name;
    i := Slot(h, size, split);
  }

  // ---------------------------------------------------------------------------
  // Where hash values go when the table is reshaped

  lemma MulAtLeast(d: int, s: int)
    requires d >= 1 && s > 0
    ensures d * s >= s
  {
    assert d * s == (d - 1) * s + s;
  }

  lemma ModUnique(h: int, s: int, q: int, r: int)
    requires 0 <= r < s && h == q * s + r
    ensures h % s == r
  {
    var q', r' := h / s, h % s;
    assert (q - q') * s == r' - r && (q' - q) * s == r - r';
    if q > q' {
      MulAtLeast(q - q', s);
    } else if q' > q {
      MulAtLeast(q' - q, s);
    }
  }

  lemma ModMod(h: nat, s: nat)
    requires s > 0
    ensures (h % (2 * s)) % s == h % s
  {
    var q, r := h / (2 * s), h % (2 * s);
    assert h == q * (2 * s) + r;
    assert q * (2 * s) == (2 * q) * s;
    var a := if r < s then 0 else 1;
    assert (2 * q + a) * s == (2 * q) * s + a * s;
    ModUnique(r, s, a, r - a * s);
    ModUnique(h, s, 2 * q + a, r - a * s);
  }

  // A slot is always an active bucket, so the buckets above size/2 + split stay empty.
  lemma SlotActive(h: nat, size: nat, split: nat)
    requires size >= 2 && size % 2 == 0 && split <= size / 2
    ensures Slot(h, size, split) < size / 2 + split
  {
    var hash := h % size;
    ModUnique(hash, size / 2, if hash < size / 2 then 0 else 1, if hash < size / 2 then hash else hash - size / 2);
  }

  /** Advancing the split pointer moves values of bucket `split` only, and only to its upper twin. */
  lemma SlotSplit(h: nat, size: nat, split: nat)
    requires size >= 2 && size % 2 == 0 && split < size / 2
    ensures Slot(h, size, split) == split ==> Slot(h, size, split + 1) in {split, split + size / 2}
    ensures Slot(h, size, split) != split ==> Slot(h, size, split + 1) == Slot(h, size, split)
    ensures Slot(h, size, split + 1) in {split, split + size / 2} ==> Slot(h, size, split) == split
  {
    var hash := h % size;
    ModUnique(hash, size / 2, if hash < size / 2 then 0 else 1, if hash < size / 2 then hash else hash - size / 2);
  }

  /** Doubling a fully split table and halving an unsplit one change no value's bucket. */
  lemma SlotReshape(h: nat, size: nat)
    requires size >= 2 && size % 2 == 0
    ensures Slot(h, 2 * size, 0) == Slot(h, size, size / 2) == h % size
  {
    ModMod(h, size);
    assert h % size % (size / 2) < size / 2;
  }

  // ---------------------------------------------------------------------------

  /** Bucket `i` of a table for `m`: a chain of exactly the entries of `m` whose slot is `i`. */
  ghost predicate Bucket<K(!new), V(!new)>(c: seq<Entry<K, V>>, i: nat, hash: K -> nat, size: nat, split: nat, m: map<K, V>)
    requires size >= 2 && size % 2 == 0
  {
    && (forall j, k :: 0 <= j < k < |c| ==> c[j] != c[k])
    && (forall e :: e in c <==> e.key in m && m[e.key] == e.value && Slot(hash(e.key), size, split) == i)
  }

  ghost predicate Represents<K(!new), V(!new)>(buckets: seq<seq<Entry<K, V>>>, hash: K -> nat, size: nat, split: nat, m: map<K, V>) {
    && PowerSize(size) && size >= 2 && size % 2 == 0 && split <= size / 2
    && |buckets| == size
    && forall i :: 0 <= i < size ==> Bucket(buckets[i], i, hash, size, split, m)
  }

  /** No more entries than active buckets, and the next split is always possible. */
  predicate LoadBound(use: int, size: nat, split: nat) {
    use <= size / 2 + split && split < size / 2
  }

  lemma TableShape<K(!new), V(!new)>(b: seq<seq<Entry<K, V>>>, hash: K -> nat, size: nat, split: nat, m: map<K, V>)
    requires Represents(b, hash, size, split, m)
    ensures PowerSize(size) && size % 2 == 0 && split <= size / 2 && |b| == size
  {
  }

  lemma {:induction false} PowerSizeEven(size: nat)
    requires PowerSize(size)
    ensures size >= NODE_TABLE_MIN_SIZE && size % 4 == 0
    ensures PowerSize(2 * size)
    ensures size / 2 >= NODE_TABLE_MIN_SIZE ==> PowerSize(size / 2) && size >= 2 * NODE_TABLE_MIN_SIZE
    ensures size / 2 < NODE_TABLE_MIN_SIZE ==> size == NODE_TABLE_MIN_SIZE
  {
    if size > NODE_TABLE_MIN_SIZE {
      PowerSizeEven(size / 2);
      assert size % 4 == 0;
    }
    var d := 2 * size;
    assert d / 2 == size && d % 2 == 0 && d > NODE_TABLE_MIN_SIZE;
  }

  class Table<K(==, !new), V(==, !new)> {
    const hash: K -> nat
    var buckets: seq<seq<Entry<K, V>>>
    var use: int
    var size: nat
    var split: nat
    ghost var contents: map<K, V>

    ghost predicate Valid()
      reads this
    {
      Represents(buckets, hash, size, split, contents) && use == |contents|
    }

    /** The buckets in use: those a key's slot can name. */
    function Active(): nat
      reads this
    {
      size / 2 + split
    }

    /** `node_table_init`. */
    constructor (hash: K -> nat)
      ensures Valid() && contents == map[] && LoadBound(use, size, split)
      ensures this.hash == hash
    {
      this.hash := hash;
      buckets := seq(NODE_TABLE_MIN_SIZE, _ => []);
      use, size, split, contents := 0, NODE_TABLE_MIN_SIZE, 0, map[];
    }

    /** `get_node_nocheck` and `lookup_node`: walk the chain of the key's bucket. */
    method Lookup(k: K) returns (r: Option<V>)
      requires Valid()
      ensures r == if k in contents then Some(contents[k]) else None
    {
      SlotActive(hash(k), size, split);
      var chain := buckets[Slot(hash(k), size, split)];
      assert Bucket(chain, Slot(hash(k), size, split), hash, size, split, contents);
      assert k in contents ==> Entry(k, contents[k]) in chain;
      for i := 0 to |chain|
        invariant forall j :: 0 <= j < i ==> chain[j].key != k
      {
        if chain[i].key == k {
          assert chain[i] in chain;
          return Some(chain[i].value);
        }
      }
      return None;
    }

    /** `hash_id` and the table part of `hash_name`: push on the chain's head, then maybe split
        one bucket. `reallocOk` says whether a doubling, if it comes to that, finds memory. */
    method Insert(k: K, v: V, reallocOk: bool)
      requires Valid() && k !in contents
      modifies this
      ensures Valid() && contents == old(contents)[k := v]
      ensures reallocOk && LoadBound(old(use), old(size), old(split)) ==> LoadBound(use, size, split)
      ensures use == old(use) + 1
      ensures Active() == old(Active()) + if use >= old(size) / 2 && old(split) < old(size) / 2 then 1 else 0
    {
      var i := Slot(hash(k), size, split);
      SlotActive(hash(k), size, split);
      PushBucket(buckets, hash, size, split, contents, k, v);
      buckets := buckets[i := [Entry(k, v)] + buckets[i]];
      contents := contents[k := v];
      use := use + 1;
      PowerSizeEven(size);
      if use >= size / 2 {
        Rehash(reallocOk);
      }
    }

    /** `rehash_*`: split the next bucket; once all are split, double the table. */
    method Rehash(reallocOk: bool)
      requires Valid()
      modifies this
      ensures Valid() && contents == old(contents) && use == old(use)
      ensures reallocOk && old(split) < old(size) / 2 ==>
                split < size / 2 && size / 2 + split == old(size) / 2 + old(split) + 1
      ensures Active() == old(Active()) + if old(split) < old(size) / 2 then 1 else 0
    {
      PowerSizeEven(size);
      if split == size / 2 {
        return;
      }
      SplitBucket();
      if split == size / 2 {
        Resize(reallocOk);
      }
    }

    // The loop of `rehash_*`: entries of bucket `split` whose slot changed move to the twin.
    method SplitBucket()
      requires Valid() && split < size / 2
      modifies this
      ensures Valid() && contents == old(contents) && use == old(use)
      ensures size == old(size) && split == old(split) + 1
    {
      hide Slot, Bucket, SplitSoFar;
      var hash0 := split;
      split := split + 1;
      var i := 0;
      ghost var b0 := buckets;
      ghost var twin := hash0 + size / 2;
      InactiveEmpty(b0, hash, size, hash0, contents, twin);
      SplitStart(b0, hash, size, hash0, contents);
      while i < |buckets[hash0]|
        invariant size == old(size) && split == hash0 + 1 && contents == old(contents) && use == old(use)
        invariant |buckets| == size && i <= |buckets[hash0]|
        invariant forall j :: 0 <= j < size && j != hash0 && j != twin ==> buckets[j] == b0[j]
        invariant SplitSoFar(b0[hash0], buckets[hash0], i, buckets[twin], hash, size, hash0)
        decreases |buckets[hash0]| - i
      {
        var node := buckets[hash0][i];
        var newhash := Slot(hash(node.key), size, split);
        StillThere(b0[hash0], buckets[hash0], i, buckets[twin], hash, size, hash0);
        OnlyTwin(b0, hash, size, hash0, contents, node);
        if newhash != hash0 {
          MoveEntry(b0[hash0], buckets[hash0], i, buckets[twin], hash, size, hash0);
          buckets := buckets[hash0 := buckets[hash0][..i] + buckets[hash0][i + 1..]];
          buckets := buckets[newhash := [node] + buckets[newhash]];
        } else {
          StayEntry(b0[hash0], buckets[hash0], i, buckets[twin], hash, size, hash0);
          i := i + 1;
        }
      }
      SplitDone(b0, buckets, hash, size, hash0, contents);
    }

    /** `node_table_resize`. */
    method Resize(reallocOk: bool)
      requires Valid() && split == size / 2
      modifies this
      ensures Valid() && contents == old(contents) && use == old(use)
      ensures reallocOk ==> size == 2 * old(size) && split == 0
      ensures !reallocOk ==> size == old(size) && split == old(split)
    {
      if !reallocOk {
        return;
      }
      DoubledBuckets(buckets, hash, size, contents);
      buckets := buckets + seq(size, _ => []);
      size := 2 * size;
      split := 0;
    }

    /** `unhash_*`: unlink the entry if it is on its chain, then maybe merge buckets back. */
    method Remove(k: K, v: V)
      requires Valid()
      modifies this
      ensures Valid()
      ensures contents == if k in old(contents) && old(contents)[k] == v then old(contents) - {k} else old(contents)
      ensures LoadBound(old(use), old(size), old(split)) ==> LoadBound(use, size, split)
      ensures use == |contents|
      ensures use == old(use) || use >= old(size) / 4 ==> Active() == old(Active())
      ensures use < old(use) && use < old(size) / 4 ==>
                old(Active()) - 8 <= Active() <= old(Active()) && (Active() == old(Active()) <==> old(Active()) == NODE_TABLE_MIN_SIZE / 2)
    {
      var i := Slot(hash(k), size, split);
      SlotActive(hash(k), size, split);
      assert Bucket(buckets[i], i, hash, size, split, contents);
      var j := 0;
      while j < |buckets[i]|
        invariant j <= |buckets[i]|
        invariant forall n :: 0 <= n < j ==> buckets[i][n] != Entry(k, v)
      {
        if buckets[i][j] == Entry(k, v) {
          assert Entry(k, v) in buckets[i];
          PopBucket(buckets, hash, size, split, contents, k, j);
          assert |contents - {k}| == |contents| - 1 by {
            assert (contents - {k}).Keys == contents.Keys - {k};
          }
          buckets := buckets[i := buckets[i][..j] + buckets[i][j + 1..]];
          contents := contents - {k};
          use := use - 1;
          PowerSizeEven(size);
          if use < size / 4 {
            Remerge();
          }
          return;
        }
        j := j + 1;
      }
      assert Entry(k, v) !in buckets[i];
    }

    /** `node_table_reduce`. A failed shrinking realloc leaves the longer array in use. */
    method Reduce()
      requires Valid() && split == 0
      modifies this
      ensures Valid() && contents == old(contents) && use == old(use)
      ensures if old(size) / 2 < NODE_TABLE_MIN_SIZE then size == old(size) && split == 0
              else size == old(size) / 2 && split == size / 2 && size >= NODE_TABLE_MIN_SIZE
      ensures size <= |old(buckets)| && buckets == old(buckets)[..size] && Active() == old(Active())
    {
      PowerSizeEven(size);
      var newsize := size / 2;
      if newsize < NODE_TABLE_MIN_SIZE {
        return;
      }
      HalvedBuckets(buckets, hash, size, contents);
      buckets := buckets[..newsize];
      size := newsize;
      split := size / 2;
    }

    /** `remerge_*`: undo up to eight splits, stopping at the first that had entries to merge. Every
        bucket given up but the last was empty, and only the smallest table gives up none. */
    method Remerge()
      requires Valid()
      modifies this
      ensures Valid() && contents == old(contents) && use == old(use)
      ensures use < old(size) / 4 && LoadBound(use, old(size), old(split)) ==> LoadBound(use, size, split)
      ensures old(Active()) - 8 <= Active() <= old(Active())
      ensures Active() == old(Active()) <==> old(Active()) == NODE_TABLE_MIN_SIZE / 2
      ensures old(Active()) <= |old(buckets)|
      ensures forall i :: Active() < i < old(Active()) ==> old(buckets)[i] == []
      ensures old(Active()) - 8 < Active() < old(Active()) && split > 0 ==> old(buckets)[Active()] != []
    {
      hide Represents;
      TableShape(buckets, hash, size, split, contents);
      PowerSizeEven(size);
      if split == 0 {
        Reduce();
      }
      MergeBack();
    }

    // The loop of `remerge_*`.
    method MergeBack()
      requires Valid()
      modifies this
      ensures Valid() && contents == old(contents) && use == old(use) && size == old(size)
      ensures old(split) - 8 <= split <= old(split) && (split == old(split) <==> old(split) == 0)
      ensures old(Active()) <= |old(buckets)|
      ensures forall i :: Active() < i < old(Active()) ==> old(buckets)[i] == []
      ensures old(Active()) - 8 < Active() < old(Active()) && split > 0 ==> old(buckets)[Active()] != []
    {
      hide Represents;
      TableShape(buckets, hash, size, split, contents);
      ghost var a0 := Active();
      var iter := 8;
      while split > 0 && iter > 0
        invariant Valid() && contents == old(contents) && use == old(use) && size == old(size)
        invariant 0 <= iter <= 8 && old(split) - split == 8 - iter
        invariant buckets == old(buckets) && forall i :: Active() <= i < a0 ==> old(buckets)[i] == []
      {
        var merged := UnsplitBucket();
        if merged {
          break;
        }
        iter := iter - 1;
      }
    }

    // One round of the loop of `remerge_*`: the last split bucket rejoins its twin.
    method UnsplitBucket() returns (merged: bool)
      requires Valid() && split > 0
      modifies this
      ensures Valid() && contents == old(contents) && use == old(use)
      ensures size == old(size) && split == old(split) - 1 && Active() < |old(buckets)|
      ensures merged <==> old(buckets)[Active()] != []
      ensures !merged ==> buckets == old(buckets)
    {
      MergedBuckets(buckets, hash, size, split - 1, contents);
      split := split - 1;
      var upper := split + size / 2;
      merged := buckets[upper] != [];
      if merged {
        buckets := Merge(buckets, split, upper);
      }
    }
  }

  // ---------------------------------------------------------------------------
  // What each change of shape does to the buckets

  /** Buckets from size/2 + split upward are empty: a key's bucket is always below. */
  lemma InactiveEmpty<K(!new), V(!new)>(b: seq<seq<Entry<K, V>>>, hash: K -> nat, size: nat, split: nat, m: map<K, V>, i: nat)
    requires Represents(b, hash, size, split, m) && size / 2 + split <= i < size
    ensures b[i] == []
  {
    assert Bucket(b[i], i, hash, size, split, m);
    if b[i] != [] {
      var e := b[i][0];
      assert e in b[i];
      SlotActive(hash(e.key), size, split);
    }
  }

  // Splitting sends an entry of the split bucket nowhere but to the twin.
  lemma OnlyTwin<K(!new), V(!new)>(b: seq<seq<Entry<K, V>>>, hash: K -> nat, size: nat, split: nat, m: map<K, V>, e: Entry<K, V>)
    requires Represents(b, hash, size, split, m) && split < size / 2 && e in b[split]
    ensures Slot(hash(e.key), size, split + 1) in {split, split + size / 2}
  {
    assert Bucket(b[split], split, hash, size, split, m);
    SlotSplit(hash(e.key), size, split);
  }

  lemma PushBucket<K(!new), V(!new)>(b: seq<seq<Entry<K, V>>>, hash: K -> nat, size: nat, split: nat, m: map<K, V>, k: K, v: V)
    requires Represents(b, hash, size, split, m) && k !in m
    ensures var i := Slot(hash(k), size, split);
            i < |b| && Represents(b[i := [Entry(k, v)] + b[i]], hash, size, split, m[k := v])
  {
    SlotActive(hash(k), size, split);
    var s := Slot(hash(k), size, split);
    var b' := b[s := [Entry(k, v)] + b[s]];
    forall i | 0 <= i < size ensures Bucket(b'[i], i, hash, size, split, m[k := v]) {
      assert Bucket(b[i], i, hash, size, split, m);
    }
  }

  lemma PopBucket<K(!new), V(!new)>(b: seq<seq<Entry<K, V>>>, hash: K -> nat, size: nat, split: nat, m: map<K, V>, k: K, j: nat)
    requires Represents(b, hash, size, split, m) && k in m && Slot(hash(k), size, split) < |b|
    requires j < |b[Slot(hash(k), size, split)]| && b[Slot(hash(k), size, split)][j] == Entry(k, m[k])
    ensures var i := Slot(hash(k), size, split);
            Represents(b[i := b[i][..j] + b[i][j + 1..]], hash, size, split, m - {k})
  {
    var s := Slot(hash(k), size, split);
    var c := b[s][..j] + b[s][j + 1..];
    var b' := b[s := c];
    forall i | 0 <= i < size ensures Bucket(b'[i], i, hash, size, split, m - {k}) {
      assert Bucket(b[i], i, hash, size, split, m);
      if i == s {
        assert b[s] == b[s][..j] + [b[s][j]] + b[s][j + 1..];
        assert forall e :: e in b[s] <==> e in c || e == Entry(k, m[k]);
        assert Entry(k, m[k]) !in c;
      }
    }
  }

  /** Part-way through splitting chain `c0`: `low` is what is left of it, of which the first `i`
      entries stay, and `high` is what has moved. */
  ghost predicate SplitSoFar<K(!new), V(!new)>(c0: seq<Entry<K, V>>, low: seq<Entry<K, V>>, i: nat, high: seq<Entry<K, V>>,
                                              hash: K -> nat, size: nat, split: nat)
    requires size >= 2 && size % 2 == 0
  {
    && i <= |low|
    && (forall j, k :: 0 <= j < k < |low| ==> low[j] != low[k])
    && (forall j, k :: 0 <= j < k < |high| ==> high[j] != high[k])
    && (forall e :: e in c0 <==> e in low || e in high)
    && (forall e :: e in high ==> e !in low)
    && (forall j :: 0 <= j < i ==> Slot(hash(low[j].key), size, split + 1) == split)
    && (forall e :: e in high ==> Slot(hash(e.key), size, split + 1) != split)
  }

  lemma SplitStart<K(!new), V(!new)>(b: seq<seq<Entry<K, V>>>, hash: K -> nat, size: nat, split: nat, m: map<K, V>)
    requires Represents(b, hash, size, split, m) && split < size / 2
    ensures SplitSoFar(b[split], b[split], 0, [], hash, size, split)
  {
    hide Slot;
    assert Bucket(b[split], split, hash, size, split, m);
  }

  lemma StillThere<K(!new), V(!new)>(c0: seq<Entry<K, V>>, low: seq<Entry<K, V>>, i: nat, high: seq<Entry<K, V>>,
                                     hash: K -> nat, size: nat, split: nat)
    requires size >= 2 && size % 2 == 0
    requires SplitSoFar(c0, low, i, high, hash, size, split) && i < |low|
    ensures low[i] in c0
  {
    hide Slot;
    assert low[i] in low;
  }

  lemma StayEntry<K(!new), V(!new)>(c0: seq<Entry<K, V>>, low: seq<Entry<K, V>>, i: nat, high: seq<Entry<K, V>>,
                                    hash: K -> nat, size: nat, split: nat)
    requires size >= 2 && size % 2 == 0
    requires SplitSoFar(c0, low, i, high, hash, size, split) && i < |low|
    requires Slot(hash(low[i].key), size, split + 1) == split
    ensures SplitSoFar(c0, low, i + 1, high, hash, size, split)
  {
    hide Slot;
  }

  lemma MoveEntry<K(!new), V(!new)>(c0: seq<Entry<K, V>>, low: seq<Entry<K, V>>, i: nat, high: seq<Entry<K, V>>,
                                    hash: K -> nat, size: nat, split: nat)
    requires size >= 2 && size % 2 == 0
    requires SplitSoFar(c0, low, i, high, hash, size, split) && i < |low|
    requires Slot(hash(low[i].key), size, split + 1) != split
    ensures SplitSoFar(c0, low[..i] + low[i + 1..], i, [low[i]] + high, hash, size, split)
  {
    var low' := low[..i] + low[i + 1..];
    assert low == low[..i] + [low[i]] + low[i + 1..];
    assert forall e :: e in low <==> e in low' || e == low[i];
    assert low[i] !in low';
    assert low[i] !in high;
  }

  lemma SplitDone<K(!new), V(!new)>(b0: seq<seq<Entry<K, V>>>, b: seq<seq<Entry<K, V>>>, hash: K -> nat, size: nat, split: nat, m: map<K, V>)
    requires Represents(b0, hash, size, split, m) && split < size / 2 && |b| == size
    requires forall j :: 0 <= j < size && j != split && j != split + size / 2 ==> b[j] == b0[j]
    requires SplitSoFar(b0[split], b[split], |b[split]|, b[split + size / 2], hash, size, split)
    ensures Represents(b, hash, size, split + 1, m)
  {
    forall i | 0 <= i < size ensures Bucket(b[i], i, hash, size, split + 1, m) {
      assert Bucket(b0[i], i, hash, size, split, m);
      assert Bucket(b0[split], split, hash, size, split, m);
      forall e: Entry<K, V>
        ensures Slot(hash(e.key), size, split) == split ==> Slot(hash(e.key), size, split + 1) in {split, split + size / 2}
        ensures Slot(hash(e.key), size, split) != split ==> Slot(hash(e.key), size, split + 1) == Slot(hash(e.key), size, split)
        ensures Slot(hash(e.key), size, split + 1) in {split, split + size / 2} ==> Slot(hash(e.key), size, split) == split
      {
        SlotSplit(hash(e.key), size, split);
      }
    }
  }

  /** Hang bucket `upper` on the end of chain `lower`. */
  function Merge<E>(b: seq<seq<E>>, lower: nat, upper: nat): seq<seq<E>>
    requires lower < |b| && upper < |b|
  {
    b[lower := b[lower] + b[upper]][upper := []]
  }

  lemma MergedBuckets<K(!new), V(!new)>(b: seq<seq<Entry<K, V>>>, hash: K -> nat, size: nat, split: nat, m: map<K, V>)
    requires Represents(b, hash, size, split + 1, m) && split < size / 2
    ensures Represents(Merge(b, split, split + size / 2), hash, size, split, m)
    ensures b[split + size / 2] == [] ==> Represents(b, hash, size, split, m)
  {
    var twin := split + size / 2;
    var b' := Merge(b, split, twin);
    assert b[twin] == [] ==> b' == b by {
      assert b[twin] == [] ==> b[split] + b[twin] == b[split];
    }
    forall i | 0 <= i < size ensures Bucket(b'[i], i, hash, size, split, m) {
      assert Bucket(b[i], i, hash, size, split + 1, m);
      assert Bucket(b[split], split, hash, size, split + 1, m);
      assert Bucket(b[twin], twin, hash, size, split + 1, m);
      forall e: Entry<K, V>
        ensures Slot(hash(e.key), size, split) != twin
        ensures Slot(hash(e.key), size, split) == split ==> Slot(hash(e.key), size, split + 1) in {split, twin}
        ensures Slot(hash(e.key), size, split) != split ==> Slot(hash(e.key), size, split + 1) == Slot(hash(e.key), size, split)
        ensures Slot(hash(e.key), size, split + 1) in {split, twin} ==> Slot(hash(e.key), size, split) == split
      {
        SlotSplit(hash(e.key), size, split);
        SlotActive(hash(e.key), size, split);
      }
      if i == split {
        forall j, k | 0 <= j < k < |b'[i]| ensures b'[i][j] != b'[i][k] {
          if j < |b[split]| <= k {
            assert b'[i][j] in b[split] && b'[i][k] in b[twin];
          }
        }
      }
    }
  }

  lemma DoubledBuckets<K(!new), V(!new)>(b: seq<seq<Entry<K, V>>>, hash: K -> nat, size: nat, m: map<K, V>)
    requires Represents(b, hash, size, size / 2, m)
    ensures Represents(b + seq(size, _ => []), hash, 2 * size, 0, m)
  {
    PowerSizeEven(size);
    var b' := b + seq(size, _ => []);
    forall i | 0 <= i < 2 * size ensures Bucket(b'[i], i, hash, 2 * size, 0, m) {
      forall e: Entry<K, V> ensures Slot(hash(e.key), 2 * size, 0) == Slot(hash(e.key), size, size / 2) < size {
        SlotReshape(hash(e.key), size);
      }
      if i < size {
        assert Bucket(b[i], i, hash, size, size / 2, m);
      }
    }
  }

  lemma HalvedBuckets<K(!new), V(!new)>(b: seq<seq<Entry<K, V>>>, hash: K -> nat, size: nat, m: map<K, V>)
    requires Represents(b, hash, size, 0, m) && size / 2 >= NODE_TABLE_MIN_SIZE
    ensures Represents(b[..size / 2], hash, size / 2, size / 4, m)
  {
    PowerSizeEven(size);
    PowerSizeEven(size / 2);
    forall i | 0 <= i < size / 2 ensures Bucket(b[i], i, hash, size / 2, size / 4, m) {
      assert Bucket(b[i], i, hash, size, 0, m);
      forall e: Entry<K, V> ensures Slot(hash(e.key), size / 2, size / 4) == Slot(hash(e.key), size, 0) {
        SlotReshape(hash(e.key), size / 2);
      }
    }
  }

  /** The id table and the name table as `fuse_new` sets them up. */
  method NewTables<V(==, !new)>() returns (ids: Table<nat, V>, named: Table<(nat, string), V>)
    ensures ids.Valid() && ids.contents == map[] && named.Valid() && named.contents == map[]
    ensures forall ino :: ids.hash(ino) == IdHash(ino)
    ensures forall parent, name :: named.hash((parent, name)) == NameHash(parent, name)
  {
    named := new Table((k: (nat, string)) => NameHash(k.0, k.1));
    ids := new Table(IdHash);
  }
}
