/** The borrowed non-empty string slice of `non_empty_str.rs`.

    `NonEmptyStr` is a one-field newtype around `str`; here it is a datatype over
    the slice's bytes, restricted by a subset type to byte length at least one.
    The borrow itself (lifetimes, the pointer cast behind `new_unchecked`) is not
    modelled: a view is the value of the text it views. The impls of
    `non_empty_str.rs` that mention the owned `NonEmptyString` live in module
    `NonEmptyString`, because Dafny modules cannot import each other in a cycle. */
module NonEmptyStr {
  import opened Text
  import opened Wrappers

  datatype RawStr = RawStr(inner: Str)

  /** The type's invariant: the wrapped slice is never empty. */
  type NonEmptyStr = v: RawStr | |v.inner| > 0 witness RawStr([0])

  /** `NonZeroUsize`: a length that cannot be zero. */
  type NonZeroUsize = n: nat | n > 0 witness 1

  /** `NonEmptyStr::as_str`: the wrapped text, which is never empty. */
  function AsStr(v: NonEmptyStr): (s: Str)
    ensures |s| > 0
    ensures RawStr(s) == v
  {
    v.inner
  }

  /** `NonEmptyStr::new`: `None` exactly on empty text, otherwise a view of it. */
  function New(s: Str): (r: Option<NonEmptyStr>)
    ensures r.None? <==> |s| == 0
    ensures r.Some? ==> AsStr(r.value) == s
  {
    if |s| == 0 then None else Some(NewUnchecked(s))
  }

  /** `NonEmptyStr::new_unchecked`: the caller guarantees non-empty text (a debug
      build asserts it); the view then is what `New` would have returned. */
  function NewUnchecked(s: Str): (r: NonEmptyStr)
    requires |s| > 0
    ensures AsStr(r) == s
  {
    RawStr(s)
  }

  /** `NonEmptyStr::len_nonzero`: the byte length, which is never zero. */
  function LenNonZero(v: NonEmptyStr): (n: NonZeroUsize)
    ensures n == |AsStr(v)|
    ensures n >= 1
  {
    |v.inner|
  }

  /** `TryFrom<&str> for &NonEmptyStr`: fails with `()` exactly on empty text. */
  function TryFromStr(s: Str): (r: Result<NonEmptyStr, ()>)
    ensures r.Err? <==> |s| == 0
    ensures r.Ok? ==> AsStr(r.value) == s
  {
    New(s).OkOr(())
  }

  /** `TryFrom<&String> for &NonEmptyStr`: fails with `()` exactly on an empty buffer. */
  function TryFromString(s: String): (r: Result<NonEmptyStr, ()>)
    ensures r.Err? <==> |s.bytes| == 0
    ensures r.Ok? ==> AsStr(r.value) == s.bytes
  {
    New(Text.AsStr(s)).OkOr(())
  }

  /** `From<&NonEmptyStr> for String`: a buffer with the same bytes. */
  function IntoString(v: NonEmptyStr): (r: String)
    ensures r.bytes == AsStr(v)
    ensures TryFromString(r) == Ok(v)
  {
    Text.ToOwned(AsStr(v))
  }

  /** `From<&NonEmptyStr> for Cow<str>`: a borrowed `Cow` of the same text. */
  function IntoCowStr(v: NonEmptyStr): (r: Cow<Str, String>)
    ensures r.Borrowed?
    ensures CowText(r) == AsStr(v)
  {
    Borrowed(AsStr(v))
  }

  /** Derived `PartialEq for NonEmptyStr` (and the `&NonEmptyStr` forms): equal
      exactly when the wrapped text is equal, that is, when the values are. */
  function Eq(a: NonEmptyStr, b: NonEmptyStr): (r: bool)
    ensures r <==> a == b
    ensures r <==> AsStr(a) == AsStr(b)
  {
    a.inner == b.inner
  }

  /** Derived `Ord for NonEmptyStr`: the order of the wrapped text. */
  function Cmp(a: NonEmptyStr, b: NonEmptyStr): (o: Ordering)
    ensures o == Equal <==> a == b
    ensures o == Less <==> LexLess(AsStr(a), AsStr(b))
  {
    CompareEqual(a.inner, b.inner);
    CompareLessIsLexLess(a.inner, b.inner);
    Compare(a.inner, b.inner)
  }

  /** `Cmp` is a total order: swapping the operands reverses it, and `Less` chains. */
  lemma CmpTotalOrder(a: NonEmptyStr, b: NonEmptyStr, c: NonEmptyStr)
    ensures Cmp(b, a) == Cmp(a, b).Reverse()
    ensures Cmp(a, b) == Less && Cmp(b, c) == Less ==> Cmp(a, c) == Less
  {
    CompareAntisymmetric(a.inner, b.inner);
    if Cmp(a, b) == Less && Cmp(b, c) == Less {
      CompareTransitive(a.inner, b.inner, c.inner);
    }
  }

  /** `PartialEq<str> for NonEmptyStr`: holds exactly when validating the slice
      yields this very view. */
  function EqStr(a: NonEmptyStr, b: Str): (r: bool)
    ensures r <==> New(b) == Some(a)
  {
    AsStr(a) == b
  }

  /** `PartialEq<NonEmptyStr> for str`: the same relation read the other way. */
  function StrEq(a: Str, b: NonEmptyStr): (r: bool)
    ensures r <==> New(a) == Some(b)
    ensures r == EqStr(b, a)
  {
    a == AsStr(b)
  }

  /** `PartialEq<String> for NonEmptyStr`: holds exactly when the buffer
      validates to this very view. */
  function EqString(a: NonEmptyStr, b: String): (r: bool)
    ensures r <==> TryFromString(b) == Ok(a)
    ensures r <==> IntoString(a) == b
  {
    AsStr(a) == Text.AsStr(b)
  }

  /** `PartialEq<NonEmptyStr> for String`: the same relation read the other way. */
  function StringEq(a: String, b: NonEmptyStr): (r: bool)
    ensures r <==> TryFromString(a) == Ok(b)
    ensures r == EqString(b, a)
  {
    Text.AsStr(a) == AsStr(b)
  }

  /** Validating the text of a view gives back the view. */
  lemma NewAsStr(v: NonEmptyStr)
    ensures New(AsStr(v)) == Some(v)
  {
  }

  /** The unchecked constructor agrees with the validating one where it may be used. */
  lemma NewUncheckedIsNew(s: Str)
    requires |s| > 0
    ensures New(s) == Some(NewUnchecked(s))
  {
  }
}
