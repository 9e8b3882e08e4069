/** The chained hash table: a fixed number of buckets, each an ordered set,
    and an optional hash function. Every operation but get_size raises a
    runtime_error when no hash function was given. */
module HashTables {
  import opened Common

  class Hash {
    /** The template parameter Size: the number of buckets. */
    const size: nat
    /** The hash function, when one was supplied. */
    const hf: Option<int -> nat>
    /** The buckets; bucket `i` holds the values whose hash is `i` modulo `size`. */
    const table: array<set<int>>
    /** The stored values. */
    ghost var elems: set<int>

    ghost predicate Valid()
      reads this, table
    {
      size > 0 && table.Length == size &&
      (hf.None? ==> elems == {} && forall i :: 0 <= i < table.Length ==> table[i] == {}) &&
      (hf.Some? ==> forall i, x :: 0 <= i < table.Length && x in table[i] ==> Slot(x) == i) &&
      (hf.Some? ==> forall x :: x in elems <==> x in table[Slot(x)])
    }

    /** The bucket a value belongs in. */
    function Slot(x: int): (i: nat)
      requires hf.Some? && size > 0
      ensures i < size
    {
      hf.value(x) % size
    }

    /** The empty table with `size` buckets and the hash function `hf`, if any. */
    constructor (size: nat, hf: Option<int -> nat>)
      requires size > 0
      ensures Valid() && fresh(table)
      ensures this.size == size && this.hf == hf && elems == {}
    {
      this.size := size;
      this.hf := hf;
      table := new set<int>[size](_ => {});
      elems := {};
    }

    /** Stores `x` in its bucket; Ok(true) when it was not stored yet. */
    method Add(x: int) returns (r: Result<bool>)
      requires Valid()
      modifies this, table
      ensures Valid()
      ensures hf.None? ==> r == Err(RuntimeError) && elems == old(elems) && unchanged(table)
      ensures hf.Some? ==> r == Ok(x !in old(elems)) && elems == old(elems) + {x}
      ensures hf.Some? ==> forall i :: 0 <= i < table.Length ==>
        table[i] == if i == Slot(x) then old(table[i]) + {x} else old(table[i])
    {
      if hf.None? {
        return Err(RuntimeError);
      }
      var i := Slot(x);
      r := Ok(x !in table[i]);
      table[i] := table[i] + {x};
      elems := elems + {x};
    }

    /** Erases `x` from its bucket; Ok(true) when it was stored. */
    method Remove(x: int) returns (r: Result<bool>)
      requires Valid()
      modifies this, table
      ensures Valid()
      ensures hf.None? ==> r == Err(RuntimeError) && elems == old(elems) && unchanged(table)
      ensures hf.Some? ==> r == Ok(x in old(elems)) && elems == old(elems) - {x}
      ensures hf.Some? ==> forall i :: 0 <= i < table.Length ==>
        table[i] == if i == Slot(x) then old(table[i]) - {x} else old(table[i])
    {
      if hf.None? {
        return Err(RuntimeError);
      }
      var i := Slot(x);
      if x !in table[i] {
        assert table[i] - {x} == table[i];
        return Ok(false);
      }
      table[i] := table[i] - {x};
      elems := elems - {x};
      return Ok(true);
    }

    /** The stored value equal to `x`; a runtime_error when it is absent. */
    method Find(x: int) returns (r: Result<int>)
      requires Valid()
      ensures r.Ok? <==> x in elems
      ensures r.Ok? ==> r.value == x
      ensures r.Err? ==> r.error == RuntimeError
    {
      if hf.None? {
        return Err(RuntimeError);
      }
      var i := Slot(x);
      if x !in table[i] {
        return Err(RuntimeError);
      }
      return Ok(x);
    }

    /** Replaces `oldest` by `newest`. Ok(false), with nothing changed, when
        `oldest` is absent, or when `newest` is already stored apart from
        `oldest` (which is then stored again). */
    method Update(oldest: int, newest: int) returns (r: Result<bool>)
      requires Valid()
      modifies this, table
      ensures Valid()
      ensures hf.None? <==> r.Err?
      ensures r.Err? ==> r.error == RuntimeError && elems == old(elems)
      ensures r.Ok? ==> (r.value <==> oldest in old(elems) && (newest !in old(elems) || newest == oldest))
      ensures r == Ok(true) ==> elems == old(elems) - {oldest} + {newest}
      ensures r == Ok(false) ==> elems == old(elems)
    {
      var removed := Remove(oldest);
      if removed.Err? {
        return removed;
      }
      if !removed.value {
        return Ok(false);
      }
      var added := Add(newest);
      if !added.value {
        var readded := Add(oldest);
        return Ok(false);
      }
      return Ok(true);
    }

    /** The number of buckets. */
    method GetSize() returns (n: nat)
      requires Valid()
      ensures n == table.Length
    {
      n := size;
    }
  }

  /** Two's complement shifts on 32-bit int, then the conversion to size_t:
      the hash function `(a << 2) >> 1` the table is exercised with. */
  function ShiftHash(a: int): (h: nat)
    ensures h < SIZE_MOD
    ensures 0 <= a < 0x2000_0000 ==> h == 2 * a
  {
    var w := (a * 4) % 0x1_0000_0000;
    var s := if w >= 0x8000_0000 then w - 0x1_0000_0000 else w;
    (s / 2) % SIZE_MOD
  }

  /** Adds the values of `xs` in turn. */
  method AddAll(h: Hash, xs: seq<int>)
    requires h.Valid() && h.hf.Some?
    modifies h, h.table
    ensures h.Valid() && h.elems == old(h.elems) + set x | x in xs
  {
    for i := 0 to |xs|
      invariant h.Valid() && h.elems == old(h.elems) + set x | x in xs[..i]
    {
      assert xs[..i + 1] == xs[..i] + [xs[i]];
      var b := h.Add(xs[i]);
    }
    assert xs[..|xs|] == xs;
  }

  lemma {:induction false} FiveValues()
    ensures (set x | x in [2312, 123, 1246, 231664, 784]) == {2312, 123, 1246, 231664, 784}
  {
  }

  lemma {:induction false} Remaining(e: set<int>)
    requires e == {2312, 123, 1246, 231664, 784}
    ensures e - {123} - {1246} + {1249} == {2312, 231664, 784, 1249}
  {
  }

  /** Seven buckets: five values added, 123 removed, 1246 updated to 1249.
      The outcome is the same whatever the hash function, ShiftHash included. */
  method UpdateScenario(hf: int -> nat) returns (removed: Result<bool>, updated: Result<bool>, h: Hash)
    ensures removed == Ok(true) && updated == Ok(true)
    ensures h.Valid() && h.size == 7 && h.elems == {2312, 231664, 784, 1249}
  {
    h := new Hash(7, Some(hf));
    AddAll(h, [2312, 123, 1246, 231664, 784]);
    FiveValues();
    ghost var e := h.elems;
    removed := h.Remove(123);
    updated := h.Update(1246, 1249);
    Remaining(e);
  }
}
