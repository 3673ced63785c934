/** The table of known Carmichael numbers: filled once from an ascending data
    source (`load_carmichael`) into a buffer that doubles when full, then
    queried by binary search (`is_carmichael`). */
module Carmichael {
  import opened Numbers

  /** Capacity of the buffer before the first value is stored. */
  const INITIAL_CAP: nat := 1024

  predicate Sorted(s: seq<u64>)
  {
    forall i, j :: 0 <= i < j < |s| ==> s[i] <= s[j]
  }

  /** The values the loader keeps from its input: it reads values in order and
      stops at the first one above maxVal, keeping nothing from there on. */
  function LoadedPrefix(input: seq<u64>, maxVal: u64): (r: seq<u64>)
    ensures |r| <= |input| && r == input[..|r|]
    ensures forall i :: 0 <= i < |r| ==> r[i] <= maxVal
    ensures |r| < |input| ==> input[|r|] > maxVal
  {
    if input == [] || input[0] > maxVal then []
    else [input[0]] + LoadedPrefix(input[1..], maxVal)
  }

  /** The prefix the loader keeps is determined by where the first value
      above maxVal sits. */
  lemma LoadedPrefixAt(input: seq<u64>, maxVal: u64, i: nat)
    requires i <= |input|
    requires forall j :: 0 <= j < i ==> input[j] <= maxVal
    requires i < |input| ==> input[i] > maxVal
    ensures LoadedPrefix(input, maxVal) == input[..i]
  {
  }

  /** A sorted source loses nothing at or below the bound and keeps
      nothing above it: membership in the table is bound-scoped. */
  lemma LoadedPrefixBoundScoped(input: seq<u64>, maxVal: u64, v: u64)
    requires Sorted(input)
    ensures v in LoadedPrefix(input, maxVal) <==> v in input && v <= maxVal
  {
  }

  /** A sorted source yields a sorted table. */
  lemma LoadedPrefixSorted(input: seq<u64>, maxVal: u64)
    requires Sorted(input)
    ensures Sorted(LoadedPrefix(input, maxVal))
  {
  }

  /** The capacities the buffer can have: INITIAL_CAP, doubled some number of times. */
  ghost predicate IsDoubledCap(c: nat)
    decreases c
  {
    c == INITIAL_CAP || (c > INITIAL_CAP && c % 2 == 0 && IsDoubledCap(c / 2))
  }

  /** The capacity of the buffer once it holds n values: the smallest doubling
      of INITIAL_CAP that is at least n. */
  function CapacityFor(n: nat): (c: nat)
    ensures IsDoubledCap(c)
    ensures n <= c
    ensures c == INITIAL_CAP || c / 2 < n
    decreases n
  {
    if n <= INITIAL_CAP then INITIAL_CAP else 2 * CapacityFor((n + 1) / 2)
  }

  /** Storing one more value keeps the capacity unless the buffer was exactly
      full, in which case the capacity doubles. */
  lemma {:induction false} CapacityStep(n: nat)
    ensures n <= CapacityFor(n)
    ensures n < CapacityFor(n) ==> CapacityFor(n + 1) == CapacityFor(n)
    ensures n == CapacityFor(n) ==> CapacityFor(n + 1) == 2 * CapacityFor(n)
    decreases n
  {
    if n > INITIAL_CAP && n % 2 == 0 {
      CapacityStep(n / 2);
      assert (n + 1) / 2 == n / 2 && (n + 2) / 2 == n / 2 + 1;
    }
  }

  class CarmichaelTable {
    /** The global buffer (`carmichael_list`) and the number of values stored
        (`carmichael_count`), with the loader's local capacity `cap` kept
        beside them. */
    var list: array<u64>
    var count: nat
    var cap: nat

    ghost predicate Valid()
      reads this
    {
      count <= cap && list.Length == cap
    }

    /** The values stored so far, in storage order. */
    ghost function Contents(): seq<u64>
      reads this, list
      requires Valid()
    {
      list[..count]
    }

    /** The zero-initialised globals: no buffer (an empty array of capacity 0)
        and no values. */
    constructor ()
      ensures Valid() && count == 0 && cap == 0
    {
      list := new u64[0];
      count := 0;
      cap := 0;
    }

    /** Doubles the buffer of a full table, keeping every stored value (the `realloc`). */
    method Grow()
      requires Valid() && count == cap
      modifies this
      ensures Valid() && fresh(list)
      ensures cap == 2 * old(cap) && count == old(count)
      ensures Contents() == old(Contents())
    {
      var bigger := new u64[2 * cap];
      forall i | 0 <= i < count {
        bigger[i] := list[i];
      }
      list := bigger;
      cap := 2 * cap;
    }

    /** Appends one value, doubling the buffer first when it is full
        (main.c:26-30). */
    method Store(x: u64)
      requires Valid() && cap == CapacityFor(count)
      modifies this, list
      ensures Valid() && (list == old(list) || fresh(list))
      ensures count == old(count) + 1 && cap == CapacityFor(count)
      ensures Contents() == old(Contents()) + [x]
    {
      CapacityStep(count);
      if count >= cap {
        Grow();
      }
      list[count] := x;
      count := count + 1;
    }

    /** Reads the source in order and stores each value until the first one
        above maxVal. */
    method Load(input: seq<u64>, maxVal: u64)
      requires Valid() && count == 0
      modifies this
      ensures Valid() && fresh(list)
      ensures Contents() == LoadedPrefix(input, maxVal)
      ensures cap == CapacityFor(count)
    {
      cap := INITIAL_CAP;
      list := new u64[cap];
      var i := 0;
      while i < |input|
        invariant 0 <= i <= |input|
        invariant Valid() && fresh(list)
        invariant count == i
        invariant Contents() == input[..i]
        invariant forall j :: 0 <= j < i ==> input[j] <= maxVal
        invariant cap == CapacityFor(count)
      {
        var x := input[i];
        if x > maxVal {
          break;
        }
        Store(x);
        assert input[..i + 1] == input[..i] + [x];
        i := i + 1;
      }
      LoadedPrefixAt(input, maxVal, i);
    }

    /** Lower-bound binary search: true exactly when n is one of the stored
        values, given that they are stored in ascending order. */
    method IsCarmichael(n: u64) returns (found: bool)
      requires Valid() && Sorted(Contents())
      ensures found <==> n in Contents()
    {
      var lo, hi := 0, count;
      while lo < hi
        invariant 0 <= lo <= hi <= count
        invariant forall i :: 0 <= i < lo ==> list[i] < n
        invariant forall i :: hi <= i < count ==> list[i] >= n
        decreases hi - lo
      {
        var mid := (lo + hi) / 2;
        if list[mid] < n {
          lo := mid + 1;
        } else {
          hi := mid;
        }
      }
      found := lo < count && list[lo] == n;
    }
  }
}
