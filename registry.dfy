/**
 * The matrix store of the web front end: matrices are kept under letter
 * IDs (A, B, ..., Z, AA, AB, ...) handed out by a counter, and the IDs of
 * deleted matrices go to a free list, kept in string order, from which new
 * matrices take their ID first.
 */
module Registry {
  import opened Matrices

  /** An ID: one or two upper-case letters. */
  predicate IsId(id: string) {
    (|id| == 1 || |id| == 2) && forall k :: 0 <= k < |id| ==> 'A' <= id[k] <= 'Z'
  }

  /** The ID the counter value `c` is turned into: one letter below 26, two letters from 26 to 701. */
  function Mint(c: nat): (id: string)
    requires c < 702
    ensures IsId(id)
    ensures |id| == 1 <==> c < 26
  {
    if c < 26 then [(65 + c) as char]
    else [(65 + c / 26 - 1) as char, (65 + c % 26) as char]
  }

  /** The counter value an ID was minted from. */
  function Index(id: string): (c: nat)
    requires IsId(id)
    ensures c < 702
    ensures |id| == 1 <==> c < 26
  {
    if |id| == 1 then id[0] as int - 65
    else (id[0] as int - 65 + 1) * 26 + (id[1] as int - 65)
  }

  /** Minting then reading back the counter gives the counter. */
  lemma IndexOfMint(c: nat)
    requires c < 702
    ensures Index(Mint(c)) == c
  {
    if c >= 26 {
      var id := Mint(c);
      assert id[0] as int - 65 + 1 == c / 26;
      assert id[1] as int - 65 == c % 26;
    }
  }

  /** Every ID is the one minted from its counter value: the two functions are inverse. */
  lemma MintOfIndex(id: string)
    requires IsId(id)
    ensures Mint(Index(id)) == id
  {
    var c := Index(id);
    if |id| == 2 {
      var hi, lo := id[0] as int - 65, id[1] as int - 65;
      assert c == (hi + 1) * 26 + lo && 0 <= lo < 26;
      assert c / 26 == hi + 1 && c % 26 == lo;
      assert Mint(c)[0] == id[0] && Mint(c)[1] == id[1];
    }
  }

  /** Distinct counter values below 702 give distinct IDs. */
  lemma MintInjective(c: nat, d: nat)
    requires c < 702 && d < 702 && c != d
    ensures Mint(c) != Mint(d)
  {
    IndexOfMint(c);
    IndexOfMint(d);
  }

  /** Python's `<` on strings: code point by code point, a proper prefix first. */
  predicate LexLess(a: string, b: string)
    decreases |a|
  {
    if |a| == 0 then |b| > 0
    else if |b| == 0 then false
    else if a[0] != b[0] then a[0] < b[0]
    else LexLess(a[1..], b[1..])
  }

  /**
   * The order stated without recursion: `a` sorts first iff `b` goes on past
   * their common prefix and either `a` ends there or has the smaller character there.
   */
  lemma {:induction false} LexLessIsFirstDifference(a: string, b: string)
    ensures LexLess(a, b) <==> var k := CommonPrefix(a, b); k < |b| && (k == |a| || a[k] < b[k])
    decreases |a|
  {
    if |a| > 0 && |b| > 0 && a[0] == b[0] {
      LexLessIsFirstDifference(a[1..], b[1..]);
    }
  }

  /** The length of the longest common prefix: the first position where `a` and `b` differ, if any. */
  function CommonPrefix(a: string, b: string): (k: nat)
    ensures k <= |a| && k <= |b| && a[..k] == b[..k]
    ensures k < |a| && k < |b| ==> a[k] != b[k]
    decreases |a|
  {
    if |a| == 0 || |b| == 0 || a[0] != b[0] then 0
    else
      var k' := CommonPrefix(a[1..], b[1..]);
      assert a[..k' + 1] == [a[0]] + a[1..][..k'] && b[..k' + 1] == [b[0]] + b[1..][..k'];
      k' + 1
  }

  lemma {:induction false} LexLessIrreflexive(a: string)
    ensures !LexLess(a, a)
    decreases |a|
  {
    if |a| > 0 {
      LexLessIrreflexive(a[1..]);
    }
  }

  lemma {:induction false} LexLessTransitive(a: string, b: string, c: string)
    requires LexLess(a, b) && LexLess(b, c)
    ensures LexLess(a, c)
    decreases |a|
  {
    if |a| > 0 && a[0] == b[0] && b[0] == c[0] {
      LexLessTransitive(a[1..], b[1..], c[1..]);
    }
  }

  lemma {:induction false} LexLessTotal(a: string, b: string)
    ensures a == b || LexLess(a, b) || LexLess(b, a)
    decreases |a|
  {
    if |a| > 0 && |b| > 0 && a[0] == b[0] {
      LexLessTotal(a[1..], b[1..]);
      if a[1..] == b[1..] {
        assert a == [a[0]] + a[1..] && b == [b[0]] + b[1..];
      }
    }
  }

  /** String order is not counter order: "AA" (counter 26) sorts before "B" (counter 1). */
  lemma TwoLettersBeforeLaterSingle()
    ensures Mint(26) == "AA" && Mint(1) == "B" && LexLess(Mint(26), Mint(1))
  {
    assert Mint(26) == "AA";
    assert LexLess("AA", "B");
  }

  /** Strictly increasing in string order, so also free of duplicates. */
  predicate Sorted(s: seq<string>) {
    forall i, j :: 0 <= i < j < |s| ==> LexLess(s[i], s[j])
  }

  /**
   * `freed.append(id); freed.sort()` on a sorted list without `id`: the ID
   * goes in front of the first larger one.
   */
  function Insert(s: seq<string>, x: string): (r: seq<string>)
    requires Sorted(s) && x !in s
    ensures Sorted(r)
    ensures multiset(r) == multiset(s) + multiset{x}
    ensures forall y :: y in r <==> y == x || y in s
    decreases |s|
  {
    if s == [] then [x]
    else if LexLess(x, s[0]) then
      assert forall j :: 0 <= j < |s| ==> LexLess(x, s[j]) by {
        forall j | 0 < j < |s| ensures LexLess(x, s[j]) {
          LexLessTransitive(x, s[0], s[j]);
        }
      }
      [x] + s
    else
      var rest := Insert(s[1..], x);
      assert s == [s[0]] + s[1..];
      assert LexLess(s[0], x) by {
        LexLessTotal(x, s[0]);
      }
      assert forall j :: 0 <= j < |rest| ==> LexLess(s[0], rest[j]) by {
        forall j | 0 <= j < |rest| ensures LexLess(s[0], rest[j]) {
          assert rest[j] in rest;
        }
      }
      [s[0]] + rest
  }

  /** A sorted list is determined by its elements: whatever sorts them gives the same list. */
  lemma {:induction false} SortedUnique(s: seq<string>, t: seq<string>)
    requires Sorted(s) && Sorted(t)
    requires forall y :: y in s <==> y in t
    ensures s == t
    decreases |s|
  {
    SameMembersEmpty(s, t);
    if s != [] {
      if s[0] != t[0] {
        assert s[0] in t && t[0] in s;
        var i :| 0 <= i < |t| && t[i] == s[0];
        var j :| 0 <= j < |s| && s[j] == t[0];
        assert LexLess(t[0], s[0]) && LexLess(s[0], t[0]);
        LexLessTransitive(s[0], t[0], s[0]);
        LexLessIrreflexive(s[0]);
      }
      forall y ensures y in s[1..] <==> y in t[1..] {
        if y in s[1..] {
          assert y != s[0] by {
            var k :| 1 <= k < |s| && s[k] == y;
            LexLessIrreflexive(y);
          }
        }
        if y in t[1..] {
          assert y != t[0] by {
            var k :| 1 <= k < |t| && t[k] == y;
            LexLessIrreflexive(y);
          }
        }
        assert y in s <==> y == s[0] || y in s[1..];
        assert y in t <==> y == t[0] || y in t[1..];
      }
      SortedUnique(s[1..], t[1..]);
      assert s == [s[0]] + s[1..] && t == [t[0]] + t[1..];
    }
  }

  /** Two lists with the same members are both empty or both not. */
  lemma SameMembersEmpty(s: seq<string>, t: seq<string>)
    requires forall y :: y in s <==> y in t
    ensures s == [] <==> t == []
  {
    if s != [] {
      assert s[0] in s;
    }
    if t != [] {
      assert t[0] in t;
    }
  }

  /** `Insert` gives exactly what appending and sorting gives: the one sorted list of those IDs. */
  lemma InsertIsSort(s: seq<string>, x: string, sorted: seq<string>)
    requires Sorted(s) && x !in s
    requires Sorted(sorted) && multiset(sorted) == multiset(s + [x])
    ensures sorted == Insert(s, x)
  {
    var r := Insert(s, x);
    forall y ensures y in sorted <==> y in r {
      calc {
        y in sorted;
        y in multiset(sorted);
        y in multiset(s + [x]);
        y in s + [x];
      }
    }
    SortedUnique(sorted, r);
  }

  /** The smallest element of a sorted list is at its head. */
  lemma HeadIsLeast(s: seq<string>)
    requires Sorted(s) && s != []
    ensures forall y :: y in s[1..] ==> LexLess(s[0], y)
  {
    forall y | y in s[1..] ensures LexLess(s[0], y) {
      var k :| 0 <= k < |s[1..]| && s[1..][k] == y;
      assert s[k + 1] == y;
    }
  }

  /**
   * The module state of the web front end: `next_matrix_id`,
   * `freed_matrix_ids` and `stored_matrices`.
   */
  class Store {
    var next: nat
    var freed: seq<string>
    var stored: map<string, Matrix>

    /**
     * Every ID in use or free was minted from a counter value already
     * passed; the free list is sorted and shares no ID with the store.
     */
    predicate Valid()
      reads this
    {
      && next <= 702
      && Sorted(freed)
      && (forall id :: id in freed ==> IsId(id) && Index(id) < next && id !in stored)
      && (forall id :: id in stored ==> IsId(id) && Index(id) < next)
    }

    /**
     * No ID is lost: every counter value already passed names a stored
     * matrix or a free ID. Every route that takes an ID stores a matrix
     * under it straight away, so this holds between requests.
     */
    predicate Accounted()
      reads this
    {
      next <= 702 && forall c :: 0 <= c < next ==> Mint(c) in stored || Mint(c) in freed
    }

    /** Together the two invariants say the IDs in use or free are exactly the IDs minted so far. */
    lemma InUseOrFree(id: string)
      requires Valid() && Accounted()
      ensures id in stored || id in freed <==> IsId(id) && Index(id) < next
    {
      if IsId(id) && Index(id) < next {
        MintOfIndex(id);
      }
    }

    constructor ()
      ensures Valid() && Accounted()
      ensures next == 0 && freed == [] && stored == map[]
    {
      next, freed, stored := 0, [], map[];
    }

    /**
     * `get_next_matrix_id`: the head of the free list (the smallest freed ID)
     * if there is one, otherwise the ID minted from the counter, which then
     * advances. The ID returned is not a key of the store.
     */
    method NextId() returns (id: string)
      requires Valid() && (freed != [] || next < 702)
      modifies this
      ensures Valid()
      ensures stored == old(stored)
      ensures id !in stored && IsId(id)
      ensures old(freed) != [] ==> id == old(freed)[0] && freed == old(freed)[1..] && next == old(next)
      ensures old(freed) != [] ==> forall y :: y in freed ==> LexLess(id, y)
      ensures old(freed) == [] ==> id == Mint(old(next)) && next == old(next) + 1 && freed == []
      ensures id !in freed
    {
      if freed != [] {
        id := freed[0];
        HeadIsLeast(freed);
        LexLessIrreflexive(id);
        freed := freed[1..];
      } else {
        id := Mint(next);
        IndexOfMint(next);
        next := next + 1;
      }
    }

    /** `create_matrix` (and every route that keeps a result): store `m` under a fresh ID. */
    method Create(m: Matrix) returns (id: string)
      requires Valid() && Accounted() && (freed != [] || next < 702)
      modifies this
      ensures Valid() && Accounted()
      ensures id !in old(stored) && stored == old(stored)[id := m]
      ensures old(freed) != [] ==> id == old(freed)[0] && freed == old(freed)[1..] && next == old(next)
      ensures old(freed) == [] ==> id == Mint(old(next)) && next == old(next) + 1 && freed == []
    {
      ghost var oldFreed := freed;
      id := NextId();
      stored := stored[id := m];
      forall c | 0 <= c < next ensures Mint(c) in stored || Mint(c) in freed {
        if Mint(c) in oldFreed && Mint(c) != id {
          assert Mint(c) in oldFreed[1..];
        }
      }
    }

    /**
     * `delete_matrix`: an unknown ID fails and changes nothing; a known ID
     * leaves the store and joins the free list at its sorted position.
     */
    method Delete(id: string) returns (ok: bool)
      requires Valid() && Accounted()
      modifies this
      ensures Valid() && Accounted()
      ensures ok <==> id in old(stored)
      ensures !ok ==> stored == old(stored) && freed == old(freed) && next == old(next)
      ensures ok ==> stored == old(stored) - {id} && freed == Insert(old(freed), id) && next == old(next)
    {
      if id !in stored {
        return false;
      }
      stored := stored - {id};
      freed := Insert(freed, id);
      ok := true;
    }
  }
}
