/**
 The eBPF hash map: a flat byte vector of slots, each a used flag, a key and a value,
 searched from the front. It implements a finite map of bounded size.
 */
module EbpfMap {
  import opened Options
  import opened Bytes
  import opened Ebpf

  type Key = seq<u8>
  type Value = seq<u8>

  datatype Slot = Slot(used: bool, key: Key, value: Value)

  /** Slots with distinct keys, and the map they represent. */
  ghost predicate Represents(slots: seq<Slot>, m: map<Key, Value>) {
    && (forall i {:trigger slots[i]} | 0 <= i < |slots| && slots[i].used ::
          slots[i].key in m && m[slots[i].key] == slots[i].value)
    && (forall k {:trigger k in m} | k in m :: exists i :: 0 <= i < |slots| && slots[i].used && slots[i].key == k)
    && (forall i, j {:trigger slots[i], slots[j]} | 0 <= i < j < |slots| && slots[i].used && slots[j].used ::
          slots[i].key != slots[j].key)
  }

  function UsedCount(slots: seq<Slot>): nat {
    if slots == [] then 0 else UsedCount(slots[..|slots| - 1]) + if slots[|slots| - 1].used then 1 else 0
  }

  lemma FrontRepresents(slots: seq<Slot>, m: map<Key, Value>)
    requires Represents(slots, m) && slots != []
    ensures var n := |slots| - 1;
            && (slots[n].used ==> slots[n].key in m)
            && Represents(slots[..n], if slots[n].used then m - {slots[n].key} else m)
  {
    var n := |slots| - 1;
    var rest, r := slots[..n], if slots[n].used then m - {slots[n].key} else m;
    forall k | k in r
      ensures exists i :: 0 <= i < |rest| && rest[i].used && rest[i].key == k
    {
      var i :| 0 <= i < |slots| && slots[i].used && slots[i].key == k;
      assert rest[i] == slots[i];
    }
  }

  lemma EmptyRepresents(m: map<Key, Value>)
    requires Represents([], m)
    ensures |m| == 0
  {
    assert m == map[];
  }

  lemma SizeWithout(m: map<Key, Value>, k: Key)
    requires k in m
    ensures |m| == |m - {k}| + 1
  {
    assert m.Keys == (m - {k}).Keys + {k};
  }

  /** The map has as many keys as there are used slots. */
  lemma {:induction false} SizeIsUsedCount(slots: seq<Slot>, m: map<Key, Value>)
    requires Represents(slots, m)
    ensures |m| == UsedCount(slots)
    decreases |slots|
  {
    if slots == [] {
      EmptyRepresents(m);
    } else {
      var last := slots[|slots| - 1];
      FrontRepresents(slots, m);
      SizeIsUsedCount(slots[..|slots| - 1], if last.used then m - {last.key} else m);
      if last.used {
        SizeWithout(m, last.key);
      }
    }
  }

  lemma {:induction false} AllUsedCount(slots: seq<Slot>)
    ensures UsedCount(slots) <= |slots|
    ensures UsedCount(slots) == |slots| <==> forall i {:trigger slots[i]} | 0 <= i < |slots| :: slots[i].used
    decreases |slots|
  {
    if slots != [] {
      var n := |slots| - 1;
      AllUsedCount(slots[..n]);
      assert forall i | 0 <= i < n :: slots[..n][i] == slots[i];
    }
  }

  lemma PutSlot(slots: seq<Slot>, m: map<Key, Value>, i: nat, k: Key, v: Value)
    requires Represents(slots, m) && i < |slots|
    requires if slots[i].used then slots[i].key == k else k !in m
    ensures Represents(slots[i := Slot(true, k, v)], m[k := v])
  {
    var s, n := slots[i := Slot(true, k, v)], m[k := v];
    forall x | x in n
      ensures exists j :: 0 <= j < |s| && s[j].used && s[j].key == x
    {
      if x == k {
        assert s[i].key == k;
      } else {
        var j :| 0 <= j < |slots| && slots[j].used && slots[j].key == x;
        assert s[j] == slots[j];
      }
    }
  }

  lemma DropSlot(slots: seq<Slot>, m: map<Key, Value>, i: nat)
    requires Represents(slots, m) && i < |slots| && slots[i].used
    ensures Represents(slots[i := slots[i].(used := false)], m - {slots[i].key})
  {
    var s, n := slots[i := slots[i].(used := false)], m - {slots[i].key};
    forall x | x in n
      ensures exists j :: 0 <= j < |s| && s[j].used && s[j].key == x
    {
      var j :| 0 <= j < |slots| && slots[j].used && slots[j].key == x;
      assert s[j] == slots[j];
    }
  }

  // ---------- the bytes ----------

  lemma Spaced(i: nat, d: nat, e: nat)
    ensures (i + d + 1) * e == i * e + d * e + e >= i * e + e
  {
  }

  datatype Shape = Shape(keySize: nat, valueSize: nat, maxEntries: nat) {
    function EntrySize(): nat {
      1 + keySize + valueSize
    }

    function Offset(i: nat): nat {
      i * EntrySize()
    }

    /** The bytes allocated: a saturating slot size, times the slots unless that overflows. */
    function TotalSize(): nat {
      var size := if EntrySize() < TWO32 then EntrySize() else TWO32 - 1;
      if size * maxEntries < TWO32 then size * maxEntries else 0
    }

    lemma TotalSizeExact()
      ensures Offset(maxEntries) < TWO32 ==> TotalSize() == Offset(maxEntries)
      ensures Offset(maxEntries) >= TWO32 ==> TotalSize() < EntrySize() <= Offset(maxEntries)
    {
      if maxEntries > 0 {
        Apart(0, maxEntries);
        Spaced(0, maxEntries - 1, EntrySize());
        if maxEntries > 1 {
          Spaced(1, maxEntries - 2, TWO32 - 1);
        }
      }
    }

    lemma Apart(i: nat, j: nat)
      requires i < j
      ensures Offset(i) + EntrySize() <= Offset(j)
    {
      Spaced(i, j - i - 1, EntrySize());
    }

    /** The bytes of one slot encode it. */
    ghost predicate Encodes(data: seq<u8>, off: nat, s: Slot) {
      && off + EntrySize() <= |data|
      && data[off] == (if s.used then 1 else 0)
      && data[off + 1..off + 1 + keySize] == s.key
      && data[off + 1 + keySize..off + EntrySize()] == s.value
    }

    ghost predicate Laid(data: seq<u8>, slots: seq<Slot>) {
      && |slots| == maxEntries
      && |data| == Offset(maxEntries)
      && forall i: nat {:trigger Encodes(data, Offset(i), slots[i])} | i < maxEntries ::
           Encodes(data, Offset(i), slots[i])
    }

    /** Overwriting bytes inside one slot leaves the others. */
    lemma LaidAfter(data: seq<u8>, slots: seq<Slot>, i: nat, now: seq<u8>, s: Slot)
      requires Laid(data, slots) && i < maxEntries && |now| == |data|
      requires forall x: nat {:trigger now[x]} | x < |data| && !(Offset(i) <= x < Offset(i) + EntrySize()) ::
              now[x] == data[x]
      requires Encodes(now, Offset(i), s)
      ensures Laid(now, slots[i := s])
    {
      forall j: nat | j < maxEntries
        ensures Encodes(now, Offset(j), slots[i := s][j])
      {
        if j != i {
          assert Encodes(data, Offset(j), slots[j]);
          if i < j {
            Apart(i, j);
          } else {
            Apart(j, i);
          }
          EncodesSame(data, now, Offset(j), slots[j]);
        }
      }
    }

    lemma EncodesSame(data: seq<u8>, now: seq<u8>, off: nat, s: Slot)
      requires Encodes(data, off, s) && |now| == |data|
      requires forall x: nat {:trigger now[x]} | off <= x < off + EntrySize() :: now[x] == data[x]
      ensures Encodes(now, off, s)
    {
      assert now[off + 1..off + 1 + keySize] == data[off + 1..off + 1 + keySize];
      assert now[off + 1 + keySize..off + EntrySize()] == data[off + 1 + keySize..off + EntrySize()];
    }
  }

  class BpfHashMap {
    const shape: Shape
    var data: seq<u8>
    ghost var slots: seq<Slot>
    ghost var contents: map<Key, Value>

    ghost predicate Valid()
      reads this
    {
      shape.Laid(data, slots) && Represents(slots, contents)
    }

    /** An empty map if and only if its slots fit in 32 bits; otherwise not even one slot has room. */
    constructor (keySize: nat, valueSize: nat, maxEntries: nat)
      ensures shape == Shape(keySize, valueSize, maxEntries)
      ensures data == Zeros(shape.TotalSize()) && contents == map[]
      ensures Valid() <==> shape.Offset(maxEntries) < TWO32
      ensures shape.Offset(maxEntries) >= TWO32 ==> |data| < shape.EntrySize()
    {
      var sh := Shape(keySize, valueSize, maxEntries);
      shape := sh;
      data := Zeros(sh.TotalSize());
      slots := seq(maxEntries, _ => Slot(false, Zeros(keySize), Zeros(valueSize)));
      contents := map[];
      new;
      shape.TotalSizeExact();
      if shape.Offset(maxEntries) < TWO32 {
        forall i: nat | i < maxEntries
          ensures shape.Encodes(data, shape.Offset(i), slots[i])
        {
          shape.Apart(i, maxEntries);
          var off := shape.Offset(i);
          assert data[off + 1..off + 1 + keySize] == Zeros(keySize);
          assert data[off + 1 + keySize..off + shape.EntrySize()] == Zeros(valueSize);
        }
      }
    }

    /** The slot that holds a key. */
    method FindKey(key: Key) returns (r: Option<nat>)
      requires Valid() && |key| == shape.keySize
      ensures r.Some? <==> key in contents
      ensures r.Some? ==> r.value < |slots| && slots[r.value].used && slots[r.value].key == key
    {
      for i := 0 to shape.maxEntries
        invariant forall j {:trigger slots[j]} | 0 <= j < i :: !(slots[j].used && slots[j].key == key)
      {
        var off := shape.Offset(i);
        assert shape.Encodes(data, shape.Offset(i), slots[i]);
        if data[off] == 1 && data[off + 1..off + 1 + shape.keySize] == key {
          return Some(i);
        }
      }
      r := None;
    }

    method FindEmpty() returns (r: Option<nat>)
      requires Valid()
      ensures r.Some? ==> r.value < |slots| && !slots[r.value].used
      ensures r.None? ==> forall j {:trigger slots[j]} | 0 <= j < |slots| :: slots[j].used
    {
      for i := 0 to shape.maxEntries
        invariant forall j {:trigger slots[j]} | 0 <= j < i :: slots[j].used
      {
        assert shape.Encodes(data, shape.Offset(i), slots[i]);
        if data[shape.Offset(i)] == 0 {
          return Some(i);
        }
      }
      r := None;
    }

    /** The position of the value last written for the key, or none. */
    method Lookup(key: Key) returns (r: Option<nat>)
      requires Valid() && |key| == shape.keySize
      ensures r.Some? <==> key in contents
      ensures r.Some? ==>
                && r.value + shape.valueSize <= |data|
                && data[r.value..r.value + shape.valueSize] == contents[key]
    {
      var i := FindKey(key);
      if i.None? {
        return None;
      }
      assert shape.Encodes(data, shape.Offset(i.value), slots[i.value]);
      r := Some(shape.Offset(i.value) + 1 + shape.keySize);
    }

    /** Fails exactly when the key is new and the map is full. */
    method Update(key: Key, value: Value) returns (ok: bool)
      requires Valid() && |key| == shape.keySize && |value| == shape.valueSize
      modifies this
      ensures Valid()
      ensures ok <==> key in old(contents) || |old(contents)| < shape.maxEntries
      ensures contents == if ok then old(contents)[key := value] else old(contents)
    {
      SizeIsUsedCount(slots, contents);
      AllUsedCount(slots);
      var i := FindKey(key);
      if i.Some? {
        WriteSlot(i.value, key, value);
        return true;
      }
      i := FindEmpty();
      if i.Some? {
        WriteSlot(i.value, key, value);
        return true;
      }
      return false;
    }

    /** Writes flag, key and value of one slot; the flag and key may be there already. */
    method WriteSlot(i: nat, key: Key, value: Value)
      requires Valid() && i < |slots| && |key| == shape.keySize && |value| == shape.valueSize
      requires if slots[i].used then slots[i].key == key else key !in contents
      modifies this
      ensures Valid() && contents == old(contents)[key := value]
    {
      var off := shape.Offset(i);
      assert shape.Encodes(data, shape.Offset(i), slots[i]);
      PutSlot(slots, contents, i, key, value);
      var now := Splice(data, off, [1] + key + value);
      assert now[off + 1..off + 1 + shape.keySize] == key;
      assert now[off + 1 + shape.keySize..off + shape.EntrySize()] == value;
      shape.LaidAfter(data, slots, i, now, Slot(true, key, value));
      data := now;
      slots := slots[i := Slot(true, key, value)];
      contents := contents[key := value];
    }

    /** Removes the key alone; fails exactly when it is absent. */
    method Delete(key: Key) returns (ok: bool)
      requires Valid() && |key| == shape.keySize
      modifies this
      ensures Valid()
      ensures ok <==> key in old(contents)
      ensures contents == old(contents) - {key}
    {
      var r := FindKey(key);
      if r.None? {
        assert contents == contents - {key};
        return false;
      }
      var i := r.value;
      var off := shape.Offset(i);
      assert shape.Encodes(data, shape.Offset(i), slots[i]);
      DropSlot(slots, contents, i);
      var now := data[off := 0];
      ghost var s := slots[i].(used := false);
      assert now[off + 1..off + 1 + shape.keySize] == s.key;
      assert now[off + 1 + shape.keySize..off + shape.EntrySize()] == s.value;
      shape.LaidAfter(data, slots, i, now, s);
      data := now;
      slots := slots[i := s];
      contents := contents - {key};
      return true;
    }
  }
}
