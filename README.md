# Allowlist: a verified model

This project models protobuf's compiler allowlist, `Allowlist<n>`, and its
`MakeAllowlist` factories (`src/google/protobuf/compiler/allowlists/allowlist.h`).
An allowlist is an immutable list of string views. The entries are in strictly
increasing byte-wise order. There are two independent flag bits:

- `kMatchPrefix` (2) turns on prefix matching.
- `kAllowAllInOss` (4) accepts everything.

Its one query, `Allows(name)`, works in four steps:

1. If allow-all is set, it answers true.
2. Otherwise it finds the lower bound of `name` by binary search.
3. It accepts an exact hit at the bound.
4. With prefix matching, it also accepts `name` when `name` starts with the entry just before the bound. That entry is `list.back()` when the bound is the end of the list.

Files:

- `byte_strings.dfy` (module `ByteStrings`): bytes, the string-view order
  `Less` (a byte-wise comparison with a length tie-break, as `memcmp` then
  size gives), `StartsWith`, and the order's laws. It also proves the two
  facts about prefixes that explain prefix matching.
- `allowlist.dfy` (module `Allowlists`): the flags as a 32-bit bit set, and
  sortedness as the constructor checks it (adjacent pairs). It has
  `LowerBound`, which is `std::lower_bound`'s halving loop over the array.
  The reference answer is `Admits`. It is written without the search and uses
  `Floor`, the last entry not above the name. The class `Allowlist` has
  an array field filled by the constructor's copy loop, and `flags`. Its
  method `Allows` follows the source branch for branch and is proved to
  return `Admits`. The module ends with the two factories.
- `allowlist_properties.dfy` (module `AllowlistProperties`): what `Admits`
  promises.
- `allowlist_examples.dfy` (module `AllowlistExamples`): client methods that
  build small lists and check answers using only the contracts.

How the model relates to the code:

- Strings are `seq<byte>`, and a list entry is copied by value.
- The C++ `unsigned int` flags are a `bv32`. The model tests them with `&`, as the source does.
- The constructor's `ABSL_ASSERT` ordering check is a precondition, `Sorted`. Inside the loop it is an `assert` that the verifier discharges.

Prefix matching does not accept every name that has some entry as a prefix.
The code behaves as follows:

- With prefix matching on and allow-all off, a name is accepted exactly when the greatest entry not above it exists and the name starts with that entry (`PrefixModeIsFloorPrefix`).
- With entries `"a"`, `"ac"` the name `"ad"` is refused, although it starts with `"a"` (`PrefixMatchIsNotAnyPrefix`).
- The simpler description ("accepted iff some entry is a prefix of the name") holds for lists in which no entry is a prefix of another (`PrefixFreeMatchIsComplete`).

The entry that matches need not be a proper prefix: `StartsWith` accepts
the entry itself, so an entry always matches itself.

## Model

| member | source | states |
|---|---|---|
| `ByteStrings.Less` | src/google/protobuf/compiler/allowlists/allowlist.h:71 | the string-view `<` (used by the constructor's assert and by the lower bound at line 88): never holds between equal strings, and a prefix sorts before a string exactly when it is strictly shorter |
| `ByteStrings.StartsWith` | src/google/protobuf/compiler/allowlists/allowlist.h:98 | `absl::StartsWith` (also at line 107): holds exactly when the text is the prefix followed by some rest |
| `Allowlists.HasFlag` | src/google/protobuf/compiler/allowlists/allowlist.h:47-51 | the `flags_ & kX` tests at lines 82, 97 and 106, with `MatchPrefix` = 2 and `AllowAllInOss` = 4: no flag is set in `NoFlags`; prefix matching is bit 1 and allow-all is bit 2, independently |
| `Allowlists.Admits` | src/google/protobuf/compiler/allowlists/allowlist.h:81-111 | the reference answer, written without the search: allow-all accepts all; without prefix matching the answer is allow-all or membership; anything accepted without allow-all extends some entry |
| `ByteStrings.LessTransitive` | src/google/protobuf/compiler/allowlists/allowlist.h:71 | the string-view `<` used to order entries is transitive |
| `ByteStrings.LessTotal` | src/google/protobuf/compiler/allowlists/allowlist.h:88 | any two strings are equal or ordered one way, so the lower bound splits the list into "below name" and "not below name" |
| `ByteStrings.LessAsymmetric` | src/google/protobuf/compiler/allowlists/allowlist.h:71 | `a < b` rules out `b < a` (so duplicates and reversed pairs violate the order) |
| `ByteStrings.PrefixIsLessEq` | src/google/protobuf/compiler/allowlists/allowlist.h:106-107 | an entry that is a prefix of `name` never sorts after `name`, so it lies before the lower bound or is `name` itself |
| `ByteStrings.PrefixBetween` | src/google/protobuf/compiler/allowlists/allowlist.h:89-92 | if `p` is a prefix of `x`, every string between `p` and `x` in the order starts with `p` |
| `Allowlists.SortedPairwise` | src/google/protobuf/compiler/allowlists/allowlist.h:68-73 | the adjacent-pair check the constructor asserts makes every earlier entry strictly smaller than every later one |
| `Allowlists.Floor` | src/google/protobuf/compiler/allowlists/allowlist.h:104-108 | returns the last index whose entry is at most the name (every later entry is above it), or none when every entry is above the name |
| `Allowlists.LowerBound` | src/google/protobuf/compiler/allowlists/allowlist.h:88 | on a sorted array, returns `b` with `0 <= b <= length`, every entry below `b` less than `name`, and no entry from `b` on less than `name` |
| `Allowlists.ExactHitAtBound` | src/google/protobuf/compiler/allowlists/allowlist.h:104 | on a sorted list, the entry at the lower bound equals `name` if and only if `name` is an entry |
| `Allowlists.PredecessorOfBoundIsFloor` | src/google/protobuf/compiler/allowlists/allowlist.h:89-108 | without an exact hit, the entry before the bound, which is `list.back()` when the bound is the end, is the greatest entry not above `name`; a bound at the start means there is no such entry |
| `Allowlists.Allowlist.constructor` | src/google/protobuf/compiler/allowlists/allowlist.h:66-74 | requires strictly increasing input; afterwards the stored list equals the input element for element, and the flags equal the argument; the copy loop keeps the copied prefix equal and sorted |
| `Allowlists.Allowlist.Empty` | src/google/protobuf/compiler/allowlists/allowlist.h:76-78 | the zero-size list has no entries and keeps the given flags |
| `Allowlists.Allowlist.Allows` | src/google/protobuf/compiler/allowlists/allowlist.h:81-111 | on a valid list, the answer equals `Admits(list, flags, name)`: allow-all, exact membership, or (with prefix matching) the name starts with the greatest entry not above it |
| `Allowlists.MakeAllowlist` | src/google/protobuf/compiler/allowlists/allowlist.h:136-141 | builds a fresh valid allowlist holding exactly the given entries and flags, flags defaulting to none |
| `Allowlists.MakeEmptyAllowlist` | src/google/protobuf/compiler/allowlists/allowlist.h:130-134 | builds a fresh valid allowlist with no entries and the given flags, defaulting to none |
| `AllowlistProperties.AllowAllAcceptsEverything` | src/google/protobuf/compiler/allowlists/allowlist.h:82 | with allow-all set, every name (the empty one included) is accepted, whatever the list and the other flag |
| `AllowlistProperties.ExactModeIsMembership` | src/google/protobuf/compiler/allowlists/allowlist.h:88-110 | with neither flag set, a name is accepted if and only if it is an entry |
| `AllowlistProperties.PrefixModeIsFloorPrefix` | src/google/protobuf/compiler/allowlists/allowlist.h:89-108 | with prefix matching and without allow-all, on a sorted list a name is accepted if and only if the greatest entry not above it exists and is a prefix of it |
| `AllowlistProperties.EntriesAreAllowed` | src/google/protobuf/compiler/allowlists/allowlist.h:104 | every entry is accepted, whatever the flags |
| `AllowlistProperties.PrefixMatchIsSound` | src/google/protobuf/compiler/allowlists/allowlist.h:97-108 | without allow-all, an accepted name is an entry or starts with some entry |
| `AllowlistProperties.EmptyListRejects` | src/google/protobuf/compiler/allowlists/allowlist.h:97 | an empty list accepts no name unless allow-all is set, even with prefix matching |
| `AllowlistProperties.PrefixMatchIsNotAnyPrefix` | src/google/protobuf/compiler/allowlists/allowlist.h:89-108 | entries "a", "ac" are sorted, and "ad" starts with "a", yet "ad" is refused with prefix matching on |
| `AllowlistProperties.PrefixFreeMatchIsComplete` | src/google/protobuf/compiler/allowlists/allowlist.h:97-108 | when no entry is a prefix of another, prefix matching accepts exactly the names that start with some entry |
| `AllowlistProperties.AddingFlagOnlyWidens` | src/google/protobuf/compiler/allowlists/allowlist.h:47-51 | setting either flag bit never turns an accepted name into a refused one |
| `AllowlistExamples.UnsortedListsAreRefused` | src/google/protobuf/compiler/allowlists/allowlist.h:71 | `{"b", "a"}` and `{"a", "a"}` fail the constructor's ordering requirement; `{"foo", "zzz"}` meets it |

## Left out

- Template selection (`std::enable_if_t`) and the zero-size storage trick (`std::conditional_t` with a null `Span`). One array type of any length covers both cases, and the two constructors stay separate so that both forms of the source are modelled.
- `ABSL_ASSERT` aborting only in debug builds. Sortedness is a precondition, so the model has no behaviour for unsorted input.
- `absl::Span`, `absl::c_lower_bound` and `absl::StartsWith` are modelled by what they mean: an array, a lower-bound loop, and a sequence-prefix test.
- The private `list()` accessor (line 114) is not modelled. Nothing in the header calls it.
- The entries are copied by value. In the source, a `string_view` borrows storage from outside the allowlist. That storage lifetime and any aliasing are not modelled.
- `static const` use, compile-time (`constexpr`) evaluation and concurrent reads are not modelled. `Allows` changes nothing, so there is nothing to prove about concurrency.
- The comment at lines 94-96 about firing "spuriously" for names that sort before every entry is not modelled. Such a name gets a bound at the start of the list, not the end, so the comment describes no behaviour.
- The flags are modelled as a 32-bit `unsigned int`. Only the two named bits affect any answer.
- `Allowlist.list` is a public `const` array. Dafny does not stop a client that holds `modifies a.list` from overwriting entries and breaking `Valid()`. No member of the model writes the entries after construction, but immutability is not enforced the way C++'s `const` member function and private field enforce it.
