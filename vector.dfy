/** The growable vector that the VECTOR_DEF_SRC_ macro of src/vector.h expands
    to (`Vector_t##_init_auto`, `_resize`, `_append`, `_free_auto`).  The
    library instantiates it for the backreference list of a replacement
    template.  `realloc` is the only call that can fail; whether it succeeds
    for a given byte count is the oracle `canAlloc`. */
module Vector {

  /** VECTOR_GROWTH_FACTOR */
  const GROWTH_FACTOR: nat := 2

  /** The capacity a full vector grows to: `n * VECTOR_GROWTH_FACTOR + 1`. */
  function GrownSize(n: nat): (r: nat)
    ensures r > n && r >= 1
  {
    n * GROWTH_FACTOR + 1
  }

  class Vec<T(0)> {
    /** `sizeof(Entry_t)`, fixed by the instantiation. */
    const entrySize: nat
    /** `entry` is NULL until the first successful resize. */
    var entry: array?<T>
    /** Number of stored entries. */
    var n: nat
    /** Capacity of `entry`. */
    var size: nat

    ghost predicate Valid()
      reads this
    {
      && (entry == null ==> size == 0)
      && (entry != null ==> entry.Length == size)
      && n <= size
    }

    /** The entries 0..n-1, in order. */
    ghost function Contents(): (s: seq<T>)
      reads this, entry
      requires Valid()
      ensures |s| == n
    {
      if entry == null then [] else entry[..n]
    }

    /** `Vector_t##_init_auto`: `{ NULL, 0, 0 }`. */
    constructor InitAuto(entrySize: nat)
      ensures this.entrySize == entrySize
      ensures Valid()
      ensures entry == null && n == 0 && size == 0
      ensures Contents() == []
    {
      this.entrySize := entrySize;
      entry := null;
      n := 0;
      size := 0;
    }

    /** `Vector_t##_resize`: reallocate the entry storage to `newSize`
        entries, which asks `realloc` for `newSize * sizeof(Entry_t)`
        bytes.  On failure nothing changes; on success the first
        min(size, newSize) entries are carried over and `size` becomes
        `newSize`. */
    method Resize(newSize: nat, canAlloc: nat -> bool) returns (ok: bool)
      requires Valid()
      requires n <= newSize
      modifies this
      ensures Valid()
      ensures ok == canAlloc(newSize * entrySize)
      ensures n == old(n)
      ensures ok ==> entry != null && fresh(entry) && size == newSize
      ensures !ok ==> entry == old(entry) && size == old(size)
      ensures Contents() == old(Contents())
    {
      if !canAlloc(newSize * entrySize) {
        return false;
      }
      var tmp := new T[newSize];
      var keep := if size < newSize then size else newSize;
      var k := 0;
      while k < keep
        modifies tmp
        invariant 0 <= k <= keep
        invariant entry != null ==> tmp[..k] == entry[..k]
        invariant keep <= size && keep <= newSize
      {
        tmp[k] := entry[k];
        k := k + 1;
      }
      assert n <= keep;
      assert entry != null ==> tmp[..n] == entry[..n] by {
        if entry != null {
          assert tmp[..n] == tmp[..keep][..n];
          assert entry[..n] == entry[..keep][..n];
        }
      }
      entry := tmp;
      size := newSize;
      ok := true;
    }

    /** `Vector_t##_append`: a full vector (`n == size`) first grows to
        `n * 2 + 1` entries; if that fails the call returns -1 and changes
        nothing.  Otherwise the entry is stored at index `n` and `n` grows
        by one, returning 0. */
    method Append(e: T, canAlloc: nat -> bool) returns (rc: int)
      requires Valid()
      modifies this, entry
      ensures Valid()
      ensures entry == old(entry) || fresh(entry)
      ensures old(n) < old(size) ==> entry == old(entry) && size == old(size)
      ensures old(n) == old(size) ==> (rc == 0 <==> canAlloc(GrownSize(old(n)) * entrySize))
      ensures old(n) == old(size) && rc == 0 ==> size == GrownSize(old(n))
      ensures rc == 0 || rc == -1
      ensures rc == 0 ==> n == old(n) + 1 && Contents() == old(Contents()) + [e]
      ensures rc == -1 ==> old(n) == old(size) && entry == old(entry) && n == old(n)
                           && size == old(size) && Contents() == old(Contents())
    {
      if n == size {
        var ok := Resize(GrownSize(n), canAlloc);
        if !ok {
          return -1;
        }
      }
      entry[n] := e;
      n := n + 1;
      rc := 0;
    }

    /** `Vector_t##_free_auto`: when `free_entry` is given (`hasFreeEntry`),
        it is called once on each of the entries 0..n-1, in order; the
        result is the sequence of arguments of those calls.  Releasing the
        storage itself is not modelled. */
    method FreeAuto(hasFreeEntry: bool) returns (freed: seq<T>)
      requires Valid()
      ensures freed == if hasFreeEntry then Contents() else []
    {
      freed := [];
      if hasFreeEntry {
        var i := 0;
        while i < n
          invariant 0 <= i <= n
          invariant entry != null ==> freed == entry[..i]
          invariant entry == null ==> freed == []
        {
          freed := freed + [entry[i]];
          i := i + 1;
        }
        assert entry != null ==> entry[..i] == entry[..n];
      }
    }
  }
}
