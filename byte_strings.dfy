/**
  Byte strings as `absl::string_view` sees them: a sequence of bytes, ordered
  byte by byte (`memcmp` over the common length, then the shorter string
  first), and the `StartsWith` test used for prefix matching.
 */
module ByteStrings {

  newtype byte = b: int | 0 <= b < 256

  type Bytes = seq<byte>

  /** `a < b` for string views: the first differing byte decides; if one string
      is a prefix of the other, the shorter one is smaller. */
  predicate Less(a: Bytes, b: Bytes)
    ensures Less(a, b) ==> a != b
    ensures StartsWith(b, a) ==> (Less(a, b) <==> |a| < |b|)
    decreases |a|
  {
    if |a| == 0 then |b| != 0
    else if |b| == 0 then false
    else if a[0] != b[0] then a[0] < b[0]
    else Less(a[1..], b[1..])
  }

  predicate LessEq(a: Bytes, b: Bytes)
  {
    a == b || Less(a, b)
  }

  /** `absl::StartsWith(text, prefix)`. */
  predicate StartsWith(text: Bytes, prefix: Bytes)
    ensures StartsWith(text, prefix) <==> |prefix| <= |text| && text == prefix + text[|prefix|..]
  {
    |prefix| <= |text| && text[..|prefix|] == prefix
  }

  lemma {:induction false} LessIrreflexive(a: Bytes)
    ensures !Less(a, a)
    decreases |a|
  {
    if |a| != 0 {
      LessIrreflexive(a[1..]);
    }
  }

  lemma {:induction false} LessTransitive(a: Bytes, b: Bytes, c: Bytes)
    requires Less(a, b) && Less(b, c)
    ensures Less(a, c)
    decreases |a|
  {
    if |a| != 0 && a[0] == b[0] && b[0] == c[0] {
      LessTransitive(a[1..], b[1..], c[1..]);
    }
  }

  /** The order is total: any two distinct strings are comparable. */
  lemma {:induction false} LessTotal(a: Bytes, b: Bytes)
    ensures a == b || Less(a, b) || Less(b, a)
    decreases |a|
  {
    if |a| != 0 && |b| != 0 && a[0] == b[0] {
      LessTotal(a[1..], b[1..]);
      if a[1..] == b[1..] {
        assert a == [a[0]] + a[1..] && b == [b[0]] + b[1..];
      }
    }
  }

  lemma LessAsymmetric(a: Bytes, b: Bytes)
    requires Less(a, b)
    ensures !Less(b, a)
  {
    LessIrreflexive(a);
    if Less(b, a) {
      LessTransitive(a, b, a);
    }
  }

  /** A prefix of a string never sorts after it. */
  lemma {:induction false} PrefixIsLessEq(text: Bytes, prefix: Bytes)
    requires StartsWith(text, prefix)
    ensures LessEq(prefix, text)
    decreases |prefix|
  {
    if |prefix| != 0 {
      assert text[0] == prefix[0];
      assert text[1..][..|prefix| - 1] == prefix[1..];
      PrefixIsLessEq(text[1..], prefix[1..]);
      if prefix[1..] == text[1..] {
        assert prefix == [prefix[0]] + prefix[1..] && text == [text[0]] + text[1..];
      }
    }
  }

  /** Every string that sorts between a string and one of its extensions
      extends it too: if `p` is a prefix of `x` and `p <= f <= x`, then
      `f` starts with `p`. */
  lemma {:induction false} PrefixBetween(p: Bytes, f: Bytes, x: Bytes)
    requires StartsWith(x, p)
    requires LessEq(p, f) && LessEq(f, x)
    ensures StartsWith(f, p)
    decreases |p|
  {
    if |p| != 0 && p != f && f != x {
      assert x[0] == p[0];
      assert f[0] == p[0];
      assert x[1..][..|p| - 1] == p[1..];
      PrefixBetween(p[1..], f[1..], x[1..]);
      assert f[..|p|] == [f[0]] + f[1..][..|p| - 1];
    }
  }
}
