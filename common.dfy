/** Shared vocabulary of the containers: the exceptions they throw and the
    optional/erroneous results that stand for them. */
module Common {

  /** The standard exception classes the library throws. `Exception` is a
      plain std::exception, which is what a `catch (std::exception& e) { throw e; }`
      re-throws after slicing the original object.  `Undefined` is no
      exception: it marks a call on which the code dereferences a null
      pointer or an `end()` iterator, whose behaviour C++ leaves undefined. */
  datatype Error = RuntimeError | LogicError | OutOfRange | Exception | Undefined

  datatype Option<T> = None | Some(value: T)

  /** The value a throwing operation yields: its result, or the exception it raises. */
  datatype Result<T> = Ok(value: T) | Err(error: Error)

  /** Unsigned 64-bit arithmetic (std::size_t). */
  const SIZE_MOD: int := 0x1_0000_0000_0000_0000

  function SizeDec(n: int): (r: int)
    requires 0 <= n < SIZE_MOD
    ensures 0 <= r < SIZE_MOD
    ensures n > 0 ==> r == n - 1
    ensures n == 0 ==> r == SIZE_MOD - 1
  {
    (n - 1) % SIZE_MOD
  }

  /** 2^k, used both for the node bound of a tree of a given height and
      for the size of a binomial tree of a given degree. */
  function Pow2(k: nat): (p: nat)
    ensures p >= 1
  {
    if k == 0 then 1 else 2 * Pow2(k - 1)
  }

  lemma {:induction false} Pow2Grows(j: nat, k: nat)
    requires j <= k
    ensures Pow2(j) <= Pow2(k)
    decreases k
  {
    if j < k {
      Pow2Grows(j, k - 1);
    }
  }
}

/** Strictly ascending integer sequences: the in-order view of the sorted
    lists and of the search trees. */
module Sorted {

  ghost predicate Ascending(s: seq<int>)
  {
    forall i, j :: 0 <= i < j < |s| ==> s[i] < s[j]
  }

  /** Number of leading elements smaller than `x`: where a scan that stops at
      the first element >= x stops. */
  function Before(s: seq<int>, x: int): (k: nat)
    ensures k <= |s|
  {
    if s == [] || s[0] >= x then 0 else 1 + Before(s[1..], x)
  }

  lemma {:induction false} BeforeBounds(s: seq<int>, x: int)
    ensures forall i :: 0 <= i < Before(s, x) ==> s[i] < x
    ensures Before(s, x) < |s| ==> s[Before(s, x)] >= x
  {
    if s != [] && s[0] < x {
      BeforeBounds(s[1..], x);
    }
  }

  /** Sorted insertion that keeps a present value once: the element is put
      before the first element that is not smaller than it. */
  function Insert(s: seq<int>, x: int): seq<int>
  {
    if s == [] || s[0] > x then [x] + s
    else if s[0] == x then s
    else [s[0]] + Insert(s[1..], x)
  }

  /** Deletion of the first element equal to `x` met before a larger one. */
  function Delete(s: seq<int>, x: int): seq<int>
  {
    if s == [] || s[0] > x then s
    else if s[0] == x then s[1..]
    else [s[0]] + Delete(s[1..], x)
  }

  lemma {:induction false} BeforeFinds(s: seq<int>, x: int)
    requires Ascending(s)
    ensures x in s <==> (Before(s, x) < |s| && s[Before(s, x)] == x)
  {
    var k := Before(s, x);
    BeforeBounds(s, x);
    if x in s {
      var j :| 0 <= j < |s| && s[j] == x;
      assert k <= j < |s|;
      assert s[k] <= s[j];
    }
  }

  /** Insert places the new value where a scan stopping at the first element
      >= x stops. */
  lemma {:induction false} InsertAt(s: seq<int>, x: int)
    ensures var k := Before(s, x);
      Insert(s, x) == if k < |s| && s[k] == x then s else s[..k] + [x] + s[k..]
  {
    if s != [] && s[0] < x {
      InsertAt(s[1..], x);
      assert s[1..][..Before(s, x) - 1] == s[1..Before(s, x)];
    }
  }

  lemma {:induction false} DeleteAt(s: seq<int>, x: int)
    ensures var k := Before(s, x);
      Delete(s, x) == if k < |s| && s[k] == x then s[..k] + s[k + 1..] else s
  {
    if s != [] && s[0] < x {
      var t := s[1..];
      DeleteAt(t, x);
      var k := Before(t, x);
      assert Before(s, x) == k + 1;
      if k < |t| && t[k] == x {
        calc {
          Delete(s, x);
          [s[0]] + Delete(t, x);
          [s[0]] + (t[..k] + t[k + 1..]);
          { assert [s[0]] + t[..k] == s[..k + 1]; assert t[k + 1..] == s[k + 2..]; }
          s[..k + 1] + s[k + 2..];
        }
      }
    }
  }

  lemma {:induction false} InsertMembers(s: seq<int>, x: int)
    ensures forall y :: y in Insert(s, x) <==> y in s || y == x
    ensures x !in s ==> |Insert(s, x)| == |s| + 1
  {
    if s != [] && s[0] < x {
      InsertMembers(s[1..], x);
      assert s == [s[0]] + s[1..];
    }
  }

  lemma {:induction false} InsertAscending(s: seq<int>, x: int)
    requires Ascending(s)
    ensures Ascending(Insert(s, x))
  {
    if s != [] && s[0] < x {
      InsertAscending(s[1..], x);
      InsertMembers(s[1..], x);
      var r := Insert(s[1..], x);
      forall i | 0 <= i < |r| ensures s[0] < r[i] {
        assert r[i] in r;
        if r[i] != x {
          var j :| 0 <= j < |s[1..]| && s[1..][j] == r[i];
          assert s[0] < s[j + 1];
        }
      }
    }
  }

  lemma {:induction false} InsertSpec(s: seq<int>, x: int)
    requires Ascending(s)
    ensures Ascending(Insert(s, x))
    ensures forall y :: y in Insert(s, x) <==> y in s || y == x
    ensures x in s ==> Insert(s, x) == s
    ensures x !in s ==> |Insert(s, x)| == |s| + 1
  {
    InsertAscending(s, x);
    InsertMembers(s, x);
    if x in s {
      InsertPresent(s, x);
    }
  }

  lemma {:induction false} DeleteMembers(s: seq<int>, x: int)
    requires Ascending(s)
    ensures forall y :: y in Delete(s, x) <==> y in s && y != x
  {
    if s != [] {
      assert s == [s[0]] + s[1..];
      if s[0] < x {
        DeleteMembers(s[1..], x);
      } else if s[0] == x {
        assert forall i :: 0 <= i < |s[1..]| ==> s[0] < s[1..][i] by {
          forall i | 0 <= i < |s[1..]| ensures s[0] < s[1..][i] {
            assert s[1..][i] == s[i + 1];
          }
        }
      } else {
        assert forall i :: 0 <= i < |s| ==> s[0] <= s[i];
      }
    }
  }

  lemma {:induction false} DeleteAscending(s: seq<int>, x: int)
    requires Ascending(s)
    ensures Ascending(Delete(s, x))
  {
    if s != [] && s[0] < x {
      DeleteAscending(s[1..], x);
      DeleteMembers(s[1..], x);
      var r := Delete(s[1..], x);
      forall i | 0 <= i < |r| ensures s[0] < r[i] {
        assert r[i] in r;
        var j :| 0 <= j < |s[1..]| && s[1..][j] == r[i];
        assert s[0] < s[j + 1];
      }
    }
  }

  lemma {:induction false} DeleteSize(s: seq<int>, x: int)
    requires Ascending(s)
    ensures x in s ==> |Delete(s, x)| == |s| - 1
    ensures x !in s ==> Delete(s, x) == s
  {
    if s != [] {
      assert s == [s[0]] + s[1..];
      if s[0] < x {
        DeleteSize(s[1..], x);
      } else if s[0] > x {
        assert forall i :: 0 <= i < |s| ==> s[0] <= s[i];
      }
    }
  }

  lemma {:induction false} DeleteSpec(s: seq<int>, x: int)
    requires Ascending(s)
    ensures Ascending(Delete(s, x))
    ensures forall y :: y in Delete(s, x) <==> y in s && y != x
    ensures x in s ==> |Delete(s, x)| == |s| - 1
    ensures x !in s ==> Delete(s, x) == s
  {
    DeleteAscending(s, x);
    DeleteMembers(s, x);
    DeleteSize(s, x);
  }

  /** Any position with only smaller values before it and no smaller value at
      it is the one Before computes. */
  lemma {:induction false} BeforeUnique(s: seq<int>, x: int, k: nat)
    requires k <= |s|
    requires forall i :: 0 <= i < k ==> s[i] < x
    requires k < |s| ==> s[k] >= x
    ensures k == Before(s, x)
  {
    if k > 0 {
      assert s[0] < x;
      BeforeUnique(s[1..], x, k - 1);
    }
  }

  /** The two outcomes of Insert, in the form the linked structures use. */
  lemma {:induction false} InsertPresent(s: seq<int>, x: int)
    requires Ascending(s) && x in s
    ensures Insert(s, x) == s
  {
    if s[0] < x {
      assert x in s[1..] by { assert s == [s[0]] + s[1..]; }
      InsertPresent(s[1..], x);
    } else {
      assert s[0] == x by {
        var j :| 0 <= j < |s| && s[j] == x;
        assert s[0] <= s[j];
      }
    }
  }

  lemma {:induction false} InsertAbsent(s: seq<int>, x: int)
    requires Ascending(s) && x !in s
    ensures var k := Before(s, x);
      Insert(s, x) == s[..k] + [x] + s[k..] && Ascending(Insert(s, x))
  {
    InsertAt(s, x);
    BeforeFinds(s, x);
    InsertAscending(s, x);
  }

  lemma {:induction false} DeleteAbsent(s: seq<int>, x: int)
    requires Ascending(s) && x !in s
    ensures Delete(s, x) == s
  {
    DeleteSize(s, x);
  }

  lemma {:induction false} DeletePresent(s: seq<int>, x: int)
    requires Ascending(s) && x in s
    ensures var k := Before(s, x);
      k < |s| && Delete(s, x) == s[..k] + s[k + 1..] && Ascending(Delete(s, x))
  {
    DeleteAt(s, x);
    BeforeFinds(s, x);
    DeleteAscending(s, x);
  }

  /** Inserting the values of `xs` one after the other, first to last. */
  function InsertAll(s: seq<int>, xs: seq<int>): seq<int>
    decreases |xs|
  {
    if xs == [] then s else InsertAll(Insert(s, xs[0]), xs[1..])
  }

  /** Deleting the values of `xs` one after the other, first to last. */
  function DeleteAll(s: seq<int>, xs: seq<int>): seq<int>
    decreases |xs|
  {
    if xs == [] then s else DeleteAll(Delete(s, xs[0]), xs[1..])
  }
}
