# ministr in Dafny

A verified model of the two components of the `ministr` string-utility crate:

- **FNV-1a string hashes** (`str_hash_fnv1a`, `str_hash_fnv1a_64`). Each hash is
  specified as a left fold of the FNV-1a step over the string's bytes. The step
  xors in the zero-extended byte, then multiplies by the prime. The fold starts
  from the offset basis. The constants come from sections 2.1 and 2.2 of the
  Internet-Draft "The FNV Non-Cryptographic Hash Algorithm" (draft-eastlake-fnv).
  Each source function keeps a mutable `hash` that a loop over the bytes
  overwrites. Each one is a method with that loop, proved equal to its fold.
  `bv32`/`bv64` arithmetic is modulo 2^32/2^64, which is what Rust's
  `wrapping_mul` computes on `u32`/`u64`.
- **The non-empty string pair**: the borrowed `NonEmptyStr` and the owned
  `NonEmptyString`. Each is a one-field datatype with a subset type for the
  invariant "byte length at least one". The model covers:
  - the validating constructors (returning `Option`);
  - the unchecked constructors (a `requires` for the caller's guarantee);
  - the accessors, `len_nonzero` (as a `NonZeroUsize` subset type) and the
    `TryFrom`/`From` conversions, including `Cow`;
  - the `PartialEq` matrix against `str`, `String` and each other;
  - the derived `Ord`.

Text is modelled as bytes (`seq<bv8>`). The crate never checks UTF-8
well-formedness and never relies on it. Its lengths are byte lengths and it
hashes `as_bytes()`. A `&str` is `Text.Str`. An owned `String` is the one-field
datatype `Text.String`, so the `str` and `String` rows of the equality matrix
stay distinct. `Cow<B, O>` is a two-arm datatype. Rust's `Ord for str` is
`Text.Compare`: byte-lexicographic order, where a proper prefix is smaller. It
is proved equal, in both directions, to a reference definition (`LexLess`) and
proved to be a total order.

Files: `wrappers.dfy` (`Option`, `Result`), `text.dfy` (`Text`: bytes,
`String`, `Cow`, ordering), `hash.dfy` (`Fnv`), `non_empty_str.dfy`
(`NonEmptyStr`), `non_empty_string.dfy` (`NonEmptyString`). Dafny modules
cannot import each other cyclically. So the impls in `src/non_empty_str.rs`
that mention `NonEmptyString` live in module `NonEmptyString`:
`ToOwned` is `NonEmptyString.From`, `From<&NonEmptyString>` is
`NonEmptyString.AsNeStr`, and `PartialEq<NonEmptyString>` is
`NonEmptyString.NeStrEq`.

The crate derives `Ord` only within each type (`NonEmptyStr` with
`NonEmptyStr`, `NonEmptyString` with `NonEmptyString`); across types it
implements `PartialEq` only. The model has the per-type `Cmp` functions and
proves that an owned value orders as its view does (`NonEmptyString.CmpAsNeStr`).

## Model

| member | source | states |
|---|---|---|
| `Fnv.StrHashFnv1a` | src/hash.rs:14-25 | the loop over the bytes returns the 32-bit FNV-1a fold of the input from seed 0x811c9dc5 with prime 0x01000193 |
| `Fnv.StrHashFnv1a64` | src/hash.rs:28-39 | the loop over the bytes returns the 64-bit FNV-1a fold of the input from seed 0xcbf29ce484222325 with prime 0x100000001B3 |
| `Fnv.Fold32Concat` | src/hash.rs:20-22 | hashing `a` then continuing over `b` equals hashing `a + b`: the 32-bit loop is a left fold over the bytes, in order |
| `Fnv.Fnv1a32Append` | src/hash.rs:20-22 | the 32-bit hash of `s + [b]` is one more step, `(h ^ b) * prime mod 2^32`, applied to the hash of `s` |
| `Fnv.Fnv1a32Empty` | src/hash.rs:16-24 | the 32-bit hash of the empty string is the seed 0x811c9dc5 (the loop runs zero times) |
| `Fnv.Fnv1a32Vectors` | src/hash.rs:14-25 | the 32-bit hash matches the published FNV-1a vectors for "a" (0xe40c292c) and "foo" (0xa9f37ed7) |
| `Fnv.Step32XorLowByte` | src/hash.rs:21 | xoring the zero-extended byte changes only the low 8 bits of the 32-bit hash before the multiply |
| `Fnv.Fold64Concat` | src/hash.rs:34-36 | hashing `a` then continuing over `b` equals hashing `a + b`: the 64-bit loop is a left fold over the bytes, in order |
| `Fnv.Fnv1a64Append` | src/hash.rs:34-36 | the 64-bit hash of `s + [b]` is one more step, `(h ^ b) * prime mod 2^64`, applied to the hash of `s` |
| `Fnv.Fnv1a64Empty` | src/hash.rs:30-38 | the 64-bit hash of the empty string is the seed 0xcbf29ce484222325 |
| `Fnv.Fnv1a64Vectors` | src/hash.rs:28-39 | the 64-bit hash matches the published FNV-1a vectors for "a" (0xaf63dc4c8601ec8c) and "foo" (0xdcb27518fed9d577) |
| `Fnv.Step64XorLowByte` | src/hash.rs:35 | xoring the zero-extended byte changes only the low 8 bits of the 64-bit hash before the multiply |
| `Text.CompareEqual` | src/non_empty_string.rs:17 | the byte-lexicographic comparison under the derived `Ord` reports `Equal` exactly on equal text |
| `Text.CompareAntisymmetric` | src/non_empty_string.rs:17 | swapping the operands of the comparison reverses its outcome |
| `Text.CompareTransitive` | src/non_empty_string.rs:17 | `Less` is transitive |
| `Text.CompareLessIsLexLess` | src/non_empty_string.rs:17 | `Less` holds exactly when the first text is a proper prefix of the second or is smaller at their first differing byte |
| `NonEmptyStr.AsStr` | src/non_empty_str.rs:51-53 | the text of a view is never empty and wrapping it again gives the view |
| `NonEmptyStr.New` | src/non_empty_str.rs:24-30 | `None` exactly when the text is empty; otherwise the view's text is the input |
| `NonEmptyStr.NewUnchecked` | src/non_empty_str.rs:43-49 | for text the caller guarantees non-empty, the view's text is the input |
| `NonEmptyStr.NewUncheckedIsNew` | src/non_empty_str.rs:24-49 | on non-empty text the unchecked constructor returns what the validating one does |
| `NonEmptyStr.NewAsStr` | src/non_empty_str.rs:24-53 | validating a view's text gives back that view |
| `NonEmptyStr.LenNonZero` | src/non_empty_str.rs:55-60 | the length is a non-zero count equal to the byte length of the view's text |
| `NonEmptyStr.TryFromStr` | src/non_empty_str.rs:93-99 | fails with `()` exactly on empty text, otherwise a view of the same text |
| `NonEmptyStr.TryFromString` | src/non_empty_str.rs:101-107 | fails with `()` exactly on an empty buffer, otherwise a view of the buffer's text |
| `NonEmptyStr.IntoString` | src/non_empty_str.rs:128-132 | the `String` holds the view's bytes, and converting it back gives the view |
| `NonEmptyStr.IntoCowStr` | src/non_empty_str.rs:134-138 | a borrowed `Cow` whose text is the view's text |
| `NonEmptyStr.Eq` | src/non_empty_str.rs:17 | the derived equality on views holds exactly when the values are equal, that is, when their texts are |
| `NonEmptyStr.Cmp` | src/non_empty_str.rs:17 | the derived order on views reports `Equal` exactly on equal views, and `Less` exactly when the text is lexicographically smaller |
| `NonEmptyStr.CmpTotalOrder` | src/non_empty_str.rs:17 | the derived order on views is antisymmetric and transitive |
| `NonEmptyStr.EqStr` | src/non_empty_str.rs:169-185 | view == str holds exactly when validating the str yields this view |
| `NonEmptyStr.StrEq` | src/non_empty_str.rs:189-205 | str == view holds exactly when validating the str yields this view, and agrees with view == str (symmetry) |
| `NonEmptyStr.EqString` | src/non_empty_str.rs:213-229 | view == String holds exactly when the buffer validates to this view, and exactly when it is the view's own `String` |
| `NonEmptyStr.StringEq` | src/non_empty_str.rs:233-249 | String == view holds exactly when the buffer validates to this view, and agrees with view == String (symmetry) |
| `NonEmptyString.IntoInner` | src/non_empty_string.rs:77-79 | the inner buffer is never empty and wrapping it again gives the value |
| `NonEmptyString.AsStr` | src/non_empty_string.rs:65-67 | the text is never empty and is the inner buffer's bytes |
| `NonEmptyString.New` | src/non_empty_string.rs:24-26 | `None` exactly when the buffer is empty; otherwise the wrapped buffer is the input |
| `NonEmptyString.NewUnchecked` | src/non_empty_string.rs:39-45 | for a buffer the caller guarantees non-empty, the result is what `new` returns |
| `NonEmptyString.FromUnchecked` | src/non_empty_string.rs:61-63 | for a slice the caller guarantees non-empty, the result owns the same text, as `new` of its copy would |
| `NonEmptyString.From` | src/non_empty_string.rs:48-50 | copying a view gives an owned value with the view's text |
| `NonEmptyString.AsNeStr` | src/non_empty_string.rs:69-71 | the view of an owned value has the owned value's text |
| `NonEmptyString.LenNonZero` | src/non_empty_string.rs:81-86 | the length is a non-zero count equal to the inner buffer's byte length and to the length of its view |
| `NonEmptyString.TryFromStr` | src/non_empty_string.rs:123-129 | fails with `()` exactly on empty text, otherwise owns the same text |
| `NonEmptyString.TryFromString` | src/non_empty_string.rs:131-137 | fails with `()` exactly on an empty buffer, otherwise wraps the buffer unchanged |
| `NonEmptyString.TryFromCow` | src/non_empty_string.rs:139-148 | for both the `Borrowed` and `Owned` arms: fails exactly on empty text, otherwise keeps the text |
| `NonEmptyString.IntoCowOwned` | src/non_empty_string.rs:174-178 | an owned `Cow`, which converts back to the same value |
| `NonEmptyString.IntoCowBorrowed` | src/non_empty_string.rs:180-184 | a borrowed `Cow`, which converts back to the same value |
| `NonEmptyString.IntoCowNeStr` | src/non_empty_string.rs:186-190 | a borrowed `Cow` of the view, whose owned copy is the value again |
| `NonEmptyString.Eq` | src/non_empty_string.rs:17 | the derived equality holds exactly when the values are equal, that is, when their texts are |
| `NonEmptyString.Cmp` | src/non_empty_string.rs:17 | the derived order reports `Equal` exactly on equal values, and `Less` exactly when the inner text is lexicographically smaller |
| `NonEmptyString.CmpTotalOrder` | src/non_empty_string.rs:17 | the derived order is antisymmetric and transitive |
| `NonEmptyString.CmpAsNeStr` | src/non_empty_string.rs:17 | owned values are ordered as their views are |
| `NonEmptyString.EqStr` | src/non_empty_string.rs:215-231 | owned == str holds exactly when converting the str yields this value |
| `NonEmptyString.StrEq` | src/non_empty_string.rs:235-251 | str == owned holds exactly when converting the str yields this value, and agrees with owned == str (symmetry) |
| `NonEmptyString.EqString` | src/non_empty_string.rs:259-275 | owned == String holds exactly when `new` of the buffer yields this value, and exactly when it is the inner buffer |
| `NonEmptyString.StringEq` | src/non_empty_string.rs:279-295 | String == owned holds exactly when `new` of the buffer yields this value, and agrees with owned == String (symmetry) |
| `NonEmptyString.EqNeStr` | src/non_empty_string.rs:300-316 | owned == view holds exactly when copying the view gives this value, and exactly when the texts are equal |
| `NonEmptyString.NeStrEq` | src/non_empty_str.rs:254-270 | view == owned holds exactly when copying the view gives this value, and agrees with owned == view (symmetry) |
| `NonEmptyString.NewIntoInner` | src/non_empty_string.rs:24-26 | for a non-empty buffer, `new(s).unwrap().into_inner() == s` |
| `NonEmptyString.FromAsNeStr` | src/non_empty_string.rs:48-50 | owned to borrowed to owned is the identity: `from(x.as_ne_str()) == x` |
| `NonEmptyString.AsNeStrFrom` | src/non_empty_string.rs:69-71 | borrowed to owned to borrowed is the identity |
| `NonEmptyString.ViewEqualsOwner` | src/non_empty_str.rs:112-116 | a view obtained from an owned value compares equal to it, in both directions |
| `NonEmptyString.EqualityAcrossRepresentations` | src/non_empty_string.rs:330-343 | an owned value, its view, its text and an owned copy of the text all compare equal to each other, in both directions |

## Left out

- `str_hash_default` (src/hash.rs:7-11): it calls std's `DefaultHasher`, whose algorithm is not part of this model and is documented as unstable.
- `Fnv.Fnv1a32Append`, `Fnv.Fnv1a64Append`: the wrap-around is not restated over unbounded integers (no lemma says `(h * p) as int == (h as int * p) % 2^32`). It rests on the definition of `bv32`/`bv64` multiplication, and a lemma through integer conversion is beyond the solver here.
- Conversions identical to a modelled member are not modelled twice:
  - `From<&NonEmptyStr> for &str` (src/non_empty_str.rs:122-126) is `NonEmptyStr.AsStr`;
  - `ToOwned for NonEmptyStr` (src/non_empty_str.rs:83-89) and `From<&NonEmptyStr> for NonEmptyString` (src/non_empty_string.rs:153-157) are `NonEmptyString.From`;
  - `From<&NonEmptyString> for &NonEmptyStr` (src/non_empty_str.rs:112-116) is `NonEmptyString.AsNeStr`;
  - `inner` (src/non_empty_string.rs:73-75) and `From<NonEmptyString> for String` (src/non_empty_string.rs:168-172) are `NonEmptyString.IntoInner`;
  - `From<&NonEmptyString> for &str` (src/non_empty_string.rs:162-166) is `NonEmptyString.AsStr`.
- `From<&NonEmptyStr> for Cow<NonEmptyStr>` (src/non_empty_str.rs:140-144): it only wraps the view in `Cow::Borrowed`, with no content of its own.
- The by-reference copies of every `PartialEq` impl (`&T` against `T`, e.g. src/non_empty_str.rs:151-161 and src/non_empty_string.rs:197-207, which call the derived equality), and `Deref`, `AsRef` and `Borrow`: in a value model each of these is the same comparison or accessor as the modelled one.
- `Display` (src/non_empty_str.rs:273-277, src/non_empty_string.rs:319-323): formatter output is not modelled. It renders the inner text unchanged.
- Lifetimes, `#[repr(transparent)]`, the pointer cast in `new_unchecked`, and the borrowed-versus-owned storage and copy cost: both types are values over the same bytes.
- The debug-build assertion (and its panic message) in the unchecked constructors, and release-mode undefined behaviour: both become a `requires` that the text is non-empty. The same holds for the `unwrap_unchecked_dbg_msg` in `len_nonzero`, which is covered by the non-zero result type.
- UTF-8 well-formedness: text is raw bytes, since the crate neither checks nor relies on it. The `usize` bound on lengths is not modelled either.
- `Hash` and `Debug` derives: not part of this model.
