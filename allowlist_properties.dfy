/**
  What `Allows` promises, stated on `Admits` (which `Allowlist.Allows` is
  proved to compute): the allow-all override, exact membership, the
  predecessor characterisation of prefix matching and its limits, the empty
  list, and the effect of adding a flag.
 */
module AllowlistProperties {
  import opened ByteStrings
  import opened Allowlists

  /** Allow-all accepts every name, whatever the entries and the other flag. */
  lemma AllowAllAcceptsEverything(entries: seq<Bytes>, flags: AllowlistFlags, name: Bytes)
    requires HasFlag(flags, AllowAllInOss)
    ensures Admits(entries, flags, name)
  {
  }

  /** With neither flag, a name is allowed exactly when it is an entry. */
  lemma ExactModeIsMembership(entries: seq<Bytes>, flags: AllowlistFlags, name: Bytes)
    requires !HasFlag(flags, AllowAllInOss) && !HasFlag(flags, MatchPrefix)
    ensures Admits(entries, flags, name) <==> name in entries
  {
  }

  /** With prefix matching and without allow-all, a name is allowed exactly
      when the greatest entry not above it exists and is a prefix of it. */
  lemma PrefixModeIsFloorPrefix(entries: seq<Bytes>, flags: AllowlistFlags, name: Bytes)
    requires Sorted(entries)
    requires !HasFlag(flags, AllowAllInOss) && HasFlag(flags, MatchPrefix)
    ensures Admits(entries, flags, name) <==>
            exists i :: IsFloor(entries, name, i) && StartsWith(name, entries[i])
  {
    if name in entries {
      var k :| 0 <= k < |entries| && entries[k] == name;
      forall j | 0 <= j < |entries| && LessEq(entries[j], name)
        ensures j <= k
      {
        if j > k {
          SortedPairwise(entries, k, j);
          LessAsymmetric(entries[k], entries[j]);
        }
      }
      assert IsFloor(entries, name, k) && StartsWith(name, entries[k]);
    }
    if exists i :: IsFloor(entries, name, i) && StartsWith(name, entries[i]) {
      var i :| IsFloor(entries, name, i) && StartsWith(name, entries[i]);
      FloorUnique(entries, name, i, Floor(entries, name).value);
    }
  }

  /** Every entry is allowed, with or without prefix matching. */
  lemma EntriesAreAllowed(entries: seq<Bytes>, flags: AllowlistFlags, name: Bytes)
    requires name in entries
    ensures Admits(entries, flags, name)
  {
  }

  /** Prefix matching only ever accepts entries and extensions of entries. */
  lemma PrefixMatchIsSound(entries: seq<Bytes>, flags: AllowlistFlags, name: Bytes)
    requires !HasFlag(flags, AllowAllInOss)
    requires Admits(entries, flags, name)
    ensures name in entries || exists i :: 0 <= i < |entries| && StartsWith(name, entries[i])
  {
  }

  /** An empty list accepts nothing unless allow-all is set, even with prefix
      matching on. */
  lemma EmptyListRejects(flags: AllowlistFlags, name: Bytes)
    requires !HasFlag(flags, AllowAllInOss)
    ensures !Admits([], flags, name)
  {
  }

  /** Prefix matching does not accept every name that extends some entry: with
      entries "a" and "ac", the name "ad" extends "a", but the entry before its
      bound is "ac", which it does not extend. */
  lemma PrefixMatchIsNotAnyPrefix()
    ensures var entries: seq<Bytes> := [[97], [97, 99]];
            var name: Bytes := [97, 100];
            && Sorted(entries)
            && StartsWith(name, entries[0])
            && !Admits(entries, MatchPrefix, name)
  {
  }

  /** No entry is a prefix of another. */
  ghost predicate PrefixFree(s: seq<Bytes>)
  {
    forall i, j | 0 <= i < |s| && 0 <= j < |s| && i != j :: !StartsWith(s[j], s[i])
  }

  /** When no entry extends another, prefix matching accepts exactly the names
      that extend some entry. */
  lemma PrefixFreeMatchIsComplete(entries: seq<Bytes>, flags: AllowlistFlags, name: Bytes)
    requires Sorted(entries) && PrefixFree(entries)
    requires !HasFlag(flags, AllowAllInOss) && HasFlag(flags, MatchPrefix)
    ensures Admits(entries, flags, name) <==>
            exists i :: 0 <= i < |entries| && StartsWith(name, entries[i])
  {
    if exists i :: 0 <= i < |entries| && StartsWith(name, entries[i]) {
      var i :| 0 <= i < |entries| && StartsWith(name, entries[i]);
      PrefixIsLessEq(name, entries[i]);
      var f := Floor(entries, name);
      assert f.Some?;
      var k := f.value;
      assert i <= k;
      if i < k {
        SortedPairwise(entries, i, k);
        PrefixBetween(entries[i], entries[k], name);
        assert false;
      }
    }
  }

  /** Setting either flag never withdraws an acceptance. */
  lemma AddingFlagOnlyWidens(entries: seq<Bytes>, flags: AllowlistFlags, name: Bytes)
    requires Admits(entries, flags, name)
    ensures Admits(entries, flags | MatchPrefix, name)
    ensures Admits(entries, flags | AllowAllInOss, name)
  {
  }
}
