/**
  Clients of `Allowlist`: what a caller can conclude from the contracts of
  the factories and of `Allows` alone, on small concrete lists.
 */
module AllowlistExamples {
  import opened ByteStrings
  import opened Allowlists

  const Foo: Bytes := [102, 111, 111]        // "foo"
  const FooUpper: Bytes := [70, 111, 111]    // "Foo"
  const Zzz: Bytes := [122, 122, 122]        // "zzz"

  /** Out-of-order and duplicated entries do not meet the constructor's
      precondition. */
  lemma UnsortedListsAreRefused()
    ensures !Sorted([[98], [97]])              // { "b", "a" }
    ensures !Sorted([[97], [97]])              // { "a", "a" }
    ensures Sorted([Foo, Zzz])
  {
    var down: seq<Bytes> := [[98], [97]];
    assert !Less(down[0], down[1]);
    var twice: seq<Bytes> := [[97], [97]];
    LessIrreflexive(twice[0]);
    assert !Less(twice[0], twice[1]);
  }

  /** Entries "foo" and "zzz" with prefix matching. */
  method PrefixMatching()
  {
    var list := MakeAllowlist([Foo, Zzz], MatchPrefix);
    var fooBar := Foo + [47, 98, 97, 114];              // "foo/bar"
    assert StartsWith(fooBar, Foo) && Less(Foo, fooBar);
    assert !LessEq(Zzz, fooBar);
    assert [Foo, Zzz][..1] == [Foo];
    assert Floor([Foo, Zzz], fooBar) == Some(0);
    var r := list.Allows(fooBar);
    assert r;
    r := list.Allows(Zzz + [122]);                      // "zzzz": the last entry
    assert r;
    r := list.Allows([102, 111]);                       // "fo"
    assert !r;
    r := list.Allows([97]);                             // "a"
    assert !r;
    r := list.Allows(Zzz);
    assert r;
  }

  /** Exact matching compares bytes: "foo" is not "Foo". */
  method ExactMatching()
  {
    var list := MakeAllowlist([FooUpper]);
    var r := list.Allows(Foo);
    assert !r;
    r := list.Allows(FooUpper);
    assert r;
    r := list.Allows(FooUpper + [47]);                  // "Foo/" needs prefix matching
    assert !r;
  }

  /** The empty list: everything with allow-all, nothing otherwise. */
  method EmptyLists()
  {
    var none := MakeEmptyAllowlist();
    var r := none.Allows([]);
    assert !r;
    var prefix := MakeEmptyAllowlist(MatchPrefix);
    r := prefix.Allows(Foo);
    assert !r;
    var all := MakeEmptyAllowlist(AllowAllInOss);
    r := all.Allows([]);
    assert r;
    var both := MakeEmptyAllowlist(MatchPrefix | AllowAllInOss);
    r := both.Allows(Zzz);
    assert r;
  }
}
