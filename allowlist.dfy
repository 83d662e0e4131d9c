/**
  `Allowlist<n>`: an immutable, strictly sorted list of string views plus two
  independent flag bits, answering "is this name allowed?" with a lower-bound
  binary search, an exact-hit test and an optional prefix test against the
  entry just before the bound.
 */
module Allowlists {
  import opened ByteStrings

  datatype Option<T> = None | Some(value: T)

  /** `AllowlistFlags`: an `unsigned int` enum whose values are combined as bits. */
  type AllowlistFlags = bv32

  const NoFlags: AllowlistFlags := 0
  const MatchPrefix: AllowlistFlags := 1 << 1
  const AllowAllInOss: AllowlistFlags := 1 << 2

  /** `flags & flag` converted to `bool`: for the two named flags, whether
      bit 1 (prefix matching) or bit 2 (allow-all) of `flags` is set. */
  predicate HasFlag(flags: AllowlistFlags, flag: AllowlistFlags)
    ensures !HasFlag(NoFlags, flag)
    ensures flag == MatchPrefix ==> (HasFlag(flags, flag) <==> (flags >> 1) % 2 == 1)
    ensures flag == AllowAllInOss ==> (HasFlag(flags, flag) <==> (flags >> 2) % 2 == 1)
  {
    flags & flag != 0
  }

  /** What the constructor asserts: every entry sorts strictly after the one
      before it. */
  ghost predicate Sorted(s: seq<Bytes>)
  {
    forall i | 0 < i < |s| :: Less(s[i - 1], s[i])
  }

  /** Adjacent order is enough: any earlier entry sorts strictly before any
      later one. */
  lemma {:induction false} SortedPairwise(s: seq<Bytes>, i: int, j: int)
    requires Sorted(s)
    requires 0 <= i < j < |s|
    ensures Less(s[i], s[j])
    decreases j - i
  {
    if i + 1 < j {
      SortedPairwise(s, i, j - 1);
      LessTransitive(s[i], s[j - 1], s[j]);
    }
  }

  /** `b` is where `std::lower_bound` lands: every entry before it sorts
      before `x`, none from it on does. */
  ghost predicate IsLowerBound(s: seq<Bytes>, x: Bytes, b: int)
  {
    && 0 <= b <= |s|
    && (forall i | 0 <= i < b :: Less(s[i], x))
    && (forall i | b <= i < |s| :: !Less(s[i], x))
  }

  /** `i` is the last index whose entry is at most `x` (for a sorted list, the
      greatest entry not above `x`). */
  ghost predicate IsFloor(s: seq<Bytes>, x: Bytes, i: int)
  {
    && 0 <= i < |s|
    && LessEq(s[i], x)
    && (forall j | 0 <= j < |s| && LessEq(s[j], x) :: j <= i)
  }

  /** Reference definition of the floor, by a scan from the back that needs no
      sortedness. */
  function Floor(s: seq<Bytes>, x: Bytes): (r: Option<nat>)
    ensures r.Some? ==> IsFloor(s, x, r.value)
    ensures r.None? ==> forall j | 0 <= j < |s| :: !LessEq(s[j], x)
    decreases |s|
  {
    if |s| == 0 then None
    else if LessEq(s[|s| - 1], x) then Some(|s| - 1)
    else
      var r := Floor(s[..|s| - 1], x);
      assert forall j | 0 <= j < |s| - 1 :: s[..|s| - 1][j] == s[j];
      r
  }

  lemma FloorUnique(s: seq<Bytes>, x: Bytes, i: int, j: int)
    requires IsFloor(s, x, i) && IsFloor(s, x, j)
    ensures i == j
  {
  }

  /** What `Allows(name)` answers, stated without the search: everything when
      allow-all is set; otherwise an exact entry, or, with prefix matching, a
      name that starts with the greatest entry not above it. */
  function Admits(entries: seq<Bytes>, flags: AllowlistFlags, name: Bytes): (r: bool)
    ensures HasFlag(flags, AllowAllInOss) ==> r
    ensures !HasFlag(flags, MatchPrefix) ==> (r <==> HasFlag(flags, AllowAllInOss) || name in entries)
    ensures r ==> HasFlag(flags, AllowAllInOss)
                  || exists i | 0 <= i < |entries| :: StartsWith(name, entries[i])
  {
    || HasFlag(flags, AllowAllInOss)
    || name in entries
    || (HasFlag(flags, MatchPrefix) && Floor(entries, name).Some?
        && StartsWith(name, entries[Floor(entries, name).value]))
  }

  /** `absl::c_lower_bound(list, name)`, written as `std::lower_bound`'s loop:
      halve the window `[first, first + count)` until it is empty. */
  method LowerBound(list: array<Bytes>, name: Bytes) returns (bound: nat)
    requires Sorted(list[..])
    ensures IsLowerBound(list[..], name, bound)
  {
    var first: nat, count: nat := 0, list.Length;
    while count > 0
      invariant first + count <= list.Length
      invariant forall i | 0 <= i < first :: Less(list[i], name)
      invariant forall i | first + count <= i < list.Length :: !Less(list[i], name)
    {
      var step := count / 2;
      var it := first + step;
      if Less(list[it], name) {
        forall i | 0 <= i < it
          ensures Less(list[i], name)
        {
          SortedPairwise(list[..], i, it);
          LessTransitive(list[i], list[it], name);
        }
        first := it + 1;
        count := count - step - 1;
      } else {
        forall i | it < i < list.Length
          ensures !Less(list[i], name)
        {
          SortedPairwise(list[..], it, i);
          NotLessAfter(list[it], list[i], name);
        }
        count := step;
      }
    }
    bound := first;
  }

  lemma NotLessAfter(a: Bytes, b: Bytes, x: Bytes)
    requires Less(a, b) && !Less(a, x)
    ensures !Less(b, x)
  {
    if Less(b, x) {
      LessTransitive(a, b, x);
    }
  }

  /** The exact-hit test at the bound finds `name` exactly when it is an entry. */
  lemma ExactHitAtBound(s: seq<Bytes>, x: Bytes, b: int)
    requires Sorted(s) && IsLowerBound(s, x, b)
    ensures (b < |s| && s[b] == x) <==> x in s
  {
    if x in s {
      var k :| 0 <= k < |s| && s[k] == x;
      LessIrreflexive(x);
      if k > b {
        SortedPairwise(s, b, k);
      }
    }
  }

  /** Without an exact hit, the entry just before the bound is the floor of
      `name`, whether the bound is inside the list (`bound[-1]`) or at its
      end (`list.back()`); at the beginning there is none. */
  lemma {:induction false} PredecessorOfBoundIsFloor(s: seq<Bytes>, x: Bytes, b: int)
    requires Sorted(s) && IsLowerBound(s, x, b)
    requires !(b < |s| && s[b] == x)
    ensures Floor(s, x) == if b == 0 then None else Some(b - 1)
  {
    forall j | b <= j < |s|
      ensures !LessEq(s[j], x)
    {
      if j > b {
        SortedPairwise(s, b, j);
        LessAsymmetric(s[b], s[j]);
      }
    }
    if b > 0 {
      assert IsFloor(s, x, b - 1);
      FloorUnique(s, x, b - 1, Floor(s, x).value);
    }
  }

  /** `Allowlist<n>`: the entries live in an array filled once by the
      constructor; no member of the model writes them after construction. */
  class Allowlist {
    const list: array<Bytes>
    const flags: AllowlistFlags

    ghost predicate Valid()
      reads list
    {
      Sorted(list[..])
    }

    /** The non-empty constructor: copy the entries one by one, asserting
        that each sorts after the one before it. */
    constructor (entries: seq<Bytes>, flags: AllowlistFlags)
      requires Sorted(entries)
      ensures Valid()
      ensures fresh(list)
      ensures list[..] == entries && this.flags == flags
    {
      this.flags := flags;
      list := new Bytes[|entries|];
      new;
      for i := 0 to |entries|
        invariant list[..i] == entries[..i]
        invariant Sorted(list[..i])
      {
        list[i] := entries[i];
        if i != 0 {
          assert Less(list[i - 1], list[i]);
        }
        assert list[..i + 1] == list[..i] + [list[i]];
      }
      assert list[..] == list[..|entries|];
    }

    /** The zero-size constructor: no entries, only flags. */
    constructor Empty(flags: AllowlistFlags)
      ensures Valid()
      ensures fresh(list)
      ensures list[..] == [] && this.flags == flags
    {
      this.flags := flags;
      list := new Bytes[0];
    }

    /** `Allows(name)`, branch for branch. */
    method Allows(name: Bytes) returns (allowed: bool)
      requires Valid()
      ensures allowed == Admits(list[..], flags, name)
    {
      if flags & AllowAllInOss != 0 {
        return true;
      }
      var bound := LowerBound(list, name);
      ExactHitAtBound(list[..], name, bound);
      if bound == list.Length {
        PredecessorOfBoundIsFloor(list[..], name, bound);
        if flags & MatchPrefix != 0 && list.Length != 0 {
          return StartsWith(name, list[list.Length - 1]);
        }
        return false;
      }
      if name == list[bound] {
        return true;
      }
      PredecessorOfBoundIsFloor(list[..], name, bound);
      if flags & MatchPrefix != 0 && bound != 0 {
        return StartsWith(name, list[bound - 1]);
      }
      return false;
    }
  }

  /** `MakeAllowlist(list, flags = kNone)`. */
  method MakeAllowlist(entries: seq<Bytes>, flags: AllowlistFlags := NoFlags) returns (a: Allowlist)
    requires Sorted(entries)
    ensures fresh(a) && a.Valid()
    ensures a.list[..] == entries && a.flags == flags
  {
    a := new Allowlist(entries, flags);
  }

  /** `MakeAllowlist({}, flags = kNone)`. */
  method MakeEmptyAllowlist(flags: AllowlistFlags := NoFlags) returns (a: Allowlist)
    ensures fresh(a) && a.Valid()
    ensures a.list[..] == [] && a.flags == flags
  {
    a := new Allowlist.Empty(flags);
  }
}
