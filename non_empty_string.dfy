/** The owned non-empty string of `non_empty_string.rs`, and the impls of
    `non_empty_str.rs` that connect the borrowed view to it.

    `NonEmptyString` is a one-field newtype around `String`; here it is a
    datatype over an owned buffer, restricted by a subset type to a buffer of
    byte length at least one. Ownership and the cost of copying are not
    modelled: the owned value and a view of it stand for the same bytes. */
module NonEmptyString {
  import opened Text
  import opened Wrappers
  import NonEmptyStr

  datatype RawString = RawString(inner: String)

  /** The type's invariant: the wrapped buffer is never empty. */
  type NonEmptyString = x: RawString | |x.inner.bytes| > 0 witness RawString(String([0]))

  /** `NonEmptyString::into_inner` (also `inner` and `From<NonEmptyString> for
      String`): the wrapped buffer, which is never empty. */
  function IntoInner(x: NonEmptyString): (s: String)
    ensures |s.bytes| > 0
    ensures RawString(s) == x
  {
    x.inner
  }

  /** `NonEmptyString::as_str`: the wrapped buffer's text. */
  function AsStr(x: NonEmptyString): (s: Str)
    ensures |s| > 0
    ensures s == IntoInner(x).bytes
  {
    Text.AsStr(x.inner)
  }

  /** `NonEmptyString::new`: `None` exactly on an empty buffer, otherwise the
      buffer wrapped unchanged. */
  function New(s: String): (r: Option<NonEmptyString>)
    ensures r.None? <==> |s.bytes| == 0
    ensures r.Some? ==> IntoInner(r.value) == s
  {
    if |s.bytes| == 0 then None else Some(RawString(s))
  }

  /** `NonEmptyString::new_unchecked`: the caller guarantees a non-empty buffer
      (a debug build asserts it); the result is what `New` would have returned. */
  function NewUnchecked(s: String): (r: NonEmptyString)
    requires |s.bytes| > 0
    ensures New(s) == Some(r)
  {
    RawString(s)
  }

  /** `NonEmptyString::from_unchecked`: copies a slice the caller guarantees is
      non-empty into a new buffer. */
  function FromUnchecked(s: Str): (r: NonEmptyString)
    requires |s| > 0
    ensures AsStr(r) == s
    ensures New(ToOwned(s)) == Some(r)
  {
    NewUnchecked(ToOwned(s))
  }

  /** `NonEmptyString::from` (also `From<&NonEmptyStr> for NonEmptyString` and,
      in `non_empty_str.rs`, `ToOwned for NonEmptyStr`): copies the view's text. */
  function From(v: NonEmptyStr.NonEmptyStr): (r: NonEmptyString)
    ensures AsStr(r) == NonEmptyStr.AsStr(v)
  {
    NewUnchecked(ToOwned(NonEmptyStr.AsStr(v)))
  }

  /** `NonEmptyString::as_ne_str` (also `From<&NonEmptyString> for &NonEmptyStr`
      in `non_empty_str.rs`): a view of the same text. */
  function AsNeStr(x: NonEmptyString): (v: NonEmptyStr.NonEmptyStr)
    ensures NonEmptyStr.AsStr(v) == AsStr(x)
  {
    NonEmptyStr.NewUnchecked(Text.AsStr(x.inner))
  }

  /** `NonEmptyString::len_nonzero`: the byte length of the inner buffer, never zero. */
  function LenNonZero(x: NonEmptyString): (n: NonEmptyStr.NonZeroUsize)
    ensures n == |IntoInner(x).bytes|
    ensures n == NonEmptyStr.LenNonZero(AsNeStr(x))
  {
    |x.inner.bytes|
  }

  /** `TryFrom<&str> for NonEmptyString`: fails with `()` exactly on empty text,
      otherwise owns a copy of it. */
  function TryFromStr(s: Str): (r: Result<NonEmptyString, ()>)
    ensures r.Err? <==> |s| == 0
    ensures r.Ok? ==> AsStr(r.value) == s
  {
    New(ToOwned(s)).OkOr(())
  }

  /** `TryFrom<String> for NonEmptyString`: fails with `()` exactly on an empty
      buffer, otherwise wraps it unchanged. */
  function TryFromString(s: String): (r: Result<NonEmptyString, ()>)
    ensures r.Err? <==> |s.bytes| == 0
    ensures r.Ok? ==> IntoInner(r.value) == s
  {
    New(s).OkOr(())
  }

  /** `TryFrom<Cow<str>> for NonEmptyString`: either arm fails exactly on empty
      text and otherwise keeps the text. */
  function TryFromCow(c: Cow<Str, String>): (r: Result<NonEmptyString, ()>)
    ensures r.Err? <==> |CowText(c)| == 0
    ensures r.Ok? ==> AsStr(r.value) == CowText(c)
  {
    match c
    case Borrowed(s) => TryFromStr(s)
    case Owned(s) => TryFromString(s)
  }

  /** `From<NonEmptyString> for Cow<str>`: an owned `Cow` holding the buffer. */
  function IntoCowOwned(x: NonEmptyString): (r: Cow<Str, String>)
    ensures r.Owned?
    ensures TryFromCow(r) == Ok(x)
  {
    Owned(IntoInner(x))
  }

  /** `From<&NonEmptyString> for Cow<str>`: a borrowed `Cow` of the text. */
  function IntoCowBorrowed(x: NonEmptyString): (r: Cow<Str, String>)
    ensures r.Borrowed?
    ensures TryFromCow(r) == Ok(x)
  {
    Borrowed(AsStr(x))
  }

  /** `From<&NonEmptyString> for Cow<NonEmptyStr>`: a borrowed `Cow` of the view,
      whose owned form (`Cow::into_owned`) is the value again. */
  function IntoCowNeStr(x: NonEmptyString): (r: Cow<NonEmptyStr.NonEmptyStr, NonEmptyString>)
    ensures r.Borrowed?
    ensures From(r.borrowed) == x
  {
    Borrowed(AsNeStr(x))
  }

  // ------------------------------------------------------------ comparisons

  /** Derived `PartialEq for NonEmptyString` (and the `&NonEmptyString` forms):
      equal exactly when the inner buffers are, that is, when the values are. */
  function Eq(a: NonEmptyString, b: NonEmptyString): (r: bool)
    ensures r <==> a == b
    ensures r <==> AsStr(a) == AsStr(b)
  {
    a.inner == b.inner
  }

  /** Derived `Ord for NonEmptyString`: the order of the inner text. */
  function Cmp(a: NonEmptyString, b: NonEmptyString): (o: Ordering)
    ensures o == Equal <==> a == b
    ensures o == Less <==> LexLess(AsStr(a), AsStr(b))
  {
    CompareEqual(AsStr(a), AsStr(b));
    CompareLessIsLexLess(AsStr(a), AsStr(b));
    Compare(Text.AsStr(a.inner), Text.AsStr(b.inner))
  }

  /** `Cmp` is a total order: swapping the operands reverses it, and `Less` chains. */
  lemma CmpTotalOrder(a: NonEmptyString, b: NonEmptyString, c: NonEmptyString)
    ensures Cmp(b, a) == Cmp(a, b).Reverse()
    ensures Cmp(a, b) == Less && Cmp(b, c) == Less ==> Cmp(a, c) == Less
  {
    CompareAntisymmetric(AsStr(a), AsStr(b));
    if Cmp(a, b) == Less && Cmp(b, c) == Less {
      CompareTransitive(AsStr(a), AsStr(b), AsStr(c));
    }
  }

  /** Owned values are ordered as their views are. */
  lemma CmpAsNeStr(a: NonEmptyString, b: NonEmptyString)
    ensures Cmp(a, b) == NonEmptyStr.Cmp(AsNeStr(a), AsNeStr(b))
  {
  }

  /** `PartialEq<str> for NonEmptyString`: holds exactly when validating the
      slice yields this very value. */
  function EqStr(a: NonEmptyString, b: Str): (r: bool)
    ensures r <==> TryFromStr(b) == Ok(a)
  {
    AsStr(a) == b
  }

  /** `PartialEq<NonEmptyString> for str`: the same relation read the other way. */
  function StrEq(a: Str, b: NonEmptyString): (r: bool)
    ensures r <==> TryFromStr(a) == Ok(b)
    ensures r == EqStr(b, a)
  {
    a == AsStr(b)
  }

  /** `PartialEq<String> for NonEmptyString`: holds exactly when the buffer is
      the one this value wraps. */
  function EqString(a: NonEmptyString, b: String): (r: bool)
    ensures r <==> New(b) == Some(a)
    ensures r <==> IntoInner(a) == b
  {
    AsStr(a) == Text.AsStr(b)
  }

  /** `PartialEq<NonEmptyString> for String`: the same relation read the other way. */
  function StringEq(a: String, b: NonEmptyString): (r: bool)
    ensures r <==> New(a) == Some(b)
    ensures r == EqString(b, a)
  {
    Text.AsStr(a) == AsStr(b)
  }

  /** `PartialEq<NonEmptyStr> for NonEmptyString`: compares this value's view
      with the other view, so it holds exactly when copying the view gives back
      this value. */
  function EqNeStr(a: NonEmptyString, b: NonEmptyStr.NonEmptyStr): (r: bool)
    ensures r <==> From(b) == a
    ensures r <==> AsStr(a) == NonEmptyStr.AsStr(b)
  {
    NonEmptyStr.Eq(AsNeStr(a), b)
  }

  /** `PartialEq<NonEmptyString> for NonEmptyStr` (in `non_empty_str.rs`): the
      same relation read the other way. */
  function NeStrEq(a: NonEmptyStr.NonEmptyStr, b: NonEmptyString): (r: bool)
    ensures r <==> From(a) == b
    ensures r == EqNeStr(b, a)
  {
    NonEmptyStr.Eq(a, AsNeStr(b))
  }

  // ------------------------------------------------------------- round trips

  /** Validating a non-empty buffer and unwrapping it gives the buffer back. */
  lemma NewIntoInner(s: String)
    requires |s.bytes| > 0
    ensures New(s).Some? && IntoInner(New(s).value) == s
  {
  }

  /** Owned to borrowed to owned is the identity. */
  lemma FromAsNeStr(x: NonEmptyString)
    ensures From(AsNeStr(x)) == x
  {
  }

  /** Borrowed to owned to borrowed is the identity. */
  lemma AsNeStrFrom(v: NonEmptyStr.NonEmptyStr)
    ensures AsNeStr(From(v)) == v
  {
  }

  /** A view taken from an owned value compares equal to it, in both directions. */
  lemma ViewEqualsOwner(x: NonEmptyString)
    ensures NeStrEq(AsNeStr(x), x) && EqNeStr(x, AsNeStr(x))
  {
  }

  /** Every representation of the same text compares equal to every other. */
  lemma EqualityAcrossRepresentations(x: NonEmptyString, s: Str)
    requires AsStr(x) == s
    ensures EqStr(x, s) && StrEq(s, x)
    ensures EqString(x, ToOwned(s)) && StringEq(ToOwned(s), x)
    ensures NonEmptyStr.EqStr(AsNeStr(x), s) && NonEmptyStr.StrEq(s, AsNeStr(x))
    ensures NonEmptyStr.EqString(AsNeStr(x), ToOwned(s)) && NonEmptyStr.StringEq(ToOwned(s), AsNeStr(x))
    ensures NeStrEq(AsNeStr(x), x) && EqNeStr(x, AsNeStr(x))
  {
  }
}
