/** The packed free-slot bitmap: one bit per slot, eight slots per byte. */
module SwapBitmap {
  import opened Options

  // ---------- one byte ----------

  function Mask(k: nat): bv8
    requires k < 8
  {
    if k == 0 then 1 else if k == 1 then 2 else if k == 2 then 4 else if k == 3 then 8
    else if k == 4 then 16 else if k == 5 then 32 else if k == 6 then 64 else 128
  }

  /** The byte shifted right by `k`. */
  function Shifted(b: bv8, k: nat): bv8
    requires k < 8
  {
    if k == 0 then b else if k == 1 then b >> 1 else if k == 2 then b >> 2 else if k == 3 then b >> 3
    else if k == 4 then b >> 4 else if k == 5 then b >> 5 else if k == 6 then b >> 6 else b >> 7
  }

  predicate BitAt(b: bv8, k: nat)
    requires k < 8
  {
    Shifted(b, k) & 1 == 1
  }

  lemma BitIsMasked(b: bv8, k: nat)
    requires k < 8
    ensures BitAt(b, k) <==> b & Mask(k) != 0
  {
  }

  lemma BitSet(b: bv8, k: nat, j: nat)
    requires k < 8 && j < 8
    ensures BitAt(b | Mask(k), j) <==> j == k || BitAt(b, j)
  {
    BitIsMasked(b, j);
    BitIsMasked(b | Mask(k), j);
  }

  lemma BitCleared(b: bv8, k: nat, j: nat)
    requires k < 8 && j < 8
    ensures BitAt(b & !Mask(k), j) <==> j != k && BitAt(b, j)
  {
    BitIsMasked(b, j);
    BitIsMasked(b & !Mask(k), j);
  }

  function Put(b: bv8, k: nat, val: bool): bv8
    requires k < 8
  {
    if val then b | Mask(k) else b & !Mask(k)
  }

  lemma PutBit(b: bv8, k: nat, val: bool, j: nat)
    requires k < 8 && j < 8
    ensures BitAt(Put(b, k, val), j) <==> if j == k then val else BitAt(b, j)
  {
    if val {
      BitSet(b, k, j);
    } else {
      BitCleared(b, k, j);
    }
  }

  lemma PutBack(b: bv8, k: nat)
    requires k < 8 && BitAt(b, k)
    ensures Put(Put(b, k, false), k, true) == b
  {
    BitIsMasked(b, k);
  }

  lemma NonZeroByte(b: bv8)
    ensures b != 0 <==> exists k: nat :: k < 8 && BitAt(b, k)
  {
    if b != 0 {
      assert BitAt(b, 0) || BitAt(b, 1) || BitAt(b, 2) || BitAt(b, 3) || BitAt(b, 4) || BitAt(b, 5) || BitAt(b, 6)
        || BitAt(b, 7);
    }
  }

  function TrailingZeros(b: bv8): (k: nat)
    requires b != 0
    ensures k < 8 && BitAt(b, k) && forall j: nat :: j < k ==> !BitAt(b, j)
  {
    if BitAt(b, 0) then 0 else if BitAt(b, 1) then 1 else if BitAt(b, 2) then 2 else if BitAt(b, 3) then 3
    else if BitAt(b, 4) then 4 else if BitAt(b, 5) then 5 else if BitAt(b, 6) then 6 else 7
  }

  lemma LowBits(t: nat, j: nat)
    requires 0 < t < 8 && j < 8
    ensures BitAt(0xFF & (Mask(t) - 1), j) <==> j < t
  {
  }

  lemma AllBits(j: nat)
    requires j < 8
    ensures BitAt(0xFF, j) && !BitAt(0, j)
  {
  }

  // ---------- the bitmap ----------

  datatype Bitmap = Bitmap(bytes: seq<bv8>, len: nat) {
    predicate Bit(i: nat)
      requires i / 8 < |bytes|
    {
      BitAt(bytes[i / 8], i % 8)
    }

    /** Enough bytes for the slots, and every bit past them clear. */
    ghost predicate Valid() {
      && |bytes| == (len + 7) / 8
      && forall i: nat {:trigger Bit(i)} | len <= i < 8 * |bytes| :: !Bit(i)
    }

    predicate Get(i: nat)
      requires |bytes| == (len + 7) / 8
    {
      i < len && Bit(i)
    }

    function Set(i: nat, val: bool): Bitmap
      requires |bytes| == (len + 7) / 8
    {
      if i >= len then this
      else
        this.(bytes := bytes[i / 8 := Put(bytes[i / 8], i % 8, val)])
    }

    /** The free slots. */
    ghost function Free(): set<nat>
      requires Valid()
    {
      set i: nat {:trigger Get(i)} | i < len && Get(i)
    }

    lemma SetBit(i: nat, val: bool, j: nat)
      requires |bytes| == (len + 7) / 8 && i < len && j / 8 < |bytes|
      ensures Set(i, val).Bit(j) <==> if j == i then val else Bit(j)
    {
      if j / 8 == i / 8 {
        PutBit(bytes[i / 8], i % 8, val, j % 8);
        assert j % 8 == i % 8 ==> j == i;
      }
    }

    /** Setting a bit changes that slot only and keeps the tail clear. */
    lemma SetFree(i: nat, val: bool)
      requires Valid()
      ensures Set(i, val).Valid() && Set(i, val).len == len
      ensures Set(i, val).Free() == if i >= len then Free() else if val then Free() + {i} else Free() - {i}
    {
      var s := Set(i, val);
      if i < len {
        forall j: nat | j / 8 < |bytes|
          ensures s.Bit(j) <==> if j == i then val else Bit(j)
        {
          SetBit(i, val, j);
        }
      }
    }
  }

  /** All slots free or none, with the tail bits of the last byte clear. */
  method NewBitmap(len: nat, fill: bool) returns (bm: Bitmap)
    ensures bm.len == len && bm.Valid()
    ensures forall i: nat {:trigger bm.Get(i)} | i < len :: bm.Get(i) <==> fill
  {
    var nbytes := (len + 7) / 8;
    var bytes: seq<bv8> := seq(nbytes, _ => 0);
    if fill {
      bytes := seq(nbytes, _ => 0xFF);
      var tail := len % 8;
      if tail != 0 {
        bytes := bytes[nbytes - 1 := bytes[nbytes - 1] & (Mask(tail) - 1)];
      }
    }
    bm := Bitmap(bytes, len);
    forall i: nat | i / 8 < nbytes
      ensures bm.Bit(i) <==> fill && i < len
    {
      AllBits(i % 8);
      if len % 8 != 0 {
        LowBits(len % 8, i % 8);
      }
    }
  }

  /** The lowest free slot. */
  method FindFirstSet(bm: Bitmap) returns (r: Option<nat>)
    requires bm.Valid()
    ensures r.None? <==> bm.Free() == {}
    ensures r.Some? ==> r.value in bm.Free() && forall i | i in bm.Free() :: r.value <= i
  {
    for k := 0 to |bm.bytes|
      invariant forall i: nat {:trigger bm.Bit(i)} | i < 8 * k :: !bm.Bit(i)
    {
      var byte := bm.bytes[k];
      NonZeroByte(byte);
      if byte != 0 {
        var idx := k * 8 + TrailingZeros(byte);
        assert idx / 8 == k && idx % 8 == TrailingZeros(byte);
        assert bm.Bit(idx);
        if idx < bm.len {
          assert bm.Get(idx) && idx in bm.Free();
          return Some(idx);
        }
      }
      forall i: nat | 8 * k <= i < 8 * (k + 1)
        ensures !bm.Bit(i)
      {
        assert i / 8 == k;
      }
    }
    r := None;
  }
}
