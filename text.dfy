/** Plain text as the crate sees it: a string slice is its UTF-8 bytes, an owned
    `String` is a buffer holding such bytes, and `Cow` is either of the two.
    UTF-8 well-formedness is never checked or relied on by the crate, so text is
    modelled as raw bytes; lengths are byte lengths. */
module Text {

  type Byte = bv8

  /** A string slice (`&str`), as its bytes. */
  type Str = seq<Byte>

  /** An owned string buffer (`String`). */
  datatype String = String(bytes: Str)

  /** `Cow<'_, B>`: borrowed `B` or owned `O`. */
  datatype Cow<B, O> = Borrowed(borrowed: B) | Owned(owned: O)

  /** `String::as_str`. */
  function AsStr(s: String): Str {
    s.bytes
  }

  /** `str::to_owned`: a fresh buffer with the same bytes. */
  function ToOwned(s: Str): String {
    String(s)
  }

  /** The text a `Cow<str>` stands for, whichever arm it is. */
  function CowText(c: Cow<Str, String>): Str {
    match c
    case Borrowed(s) => s
    case Owned(s) => AsStr(s)
  }

  datatype Ordering = Less | Equal | Greater {
    function Reverse(): Ordering {
      match this
      case Less => Greater
      case Equal => Equal
      case Greater => Less
    }
  }

  /** `Ord for str`: byte-wise lexicographic comparison, a proper prefix being
      the smaller. */
  function Compare(a: Str, b: Str): Ordering
    decreases |a|
  {
    if |a| == 0 then (if |b| == 0 then Equal else Less)
    else if |b| == 0 then Greater
    else if a[0] < b[0] then Less
    else if a[0] > b[0] then Greater
    else Compare(a[1..], b[1..])
  }

  /** `a` is a proper prefix of `b`. */
  ghost predicate ProperPrefix(a: Str, b: Str) {
    |a| < |b| && a == b[..|a|]
  }

  /** `a` and `b` agree before position `k` and `a` holds the smaller byte there. */
  ghost predicate FirstLowerAt(a: Str, b: Str, k: nat) {
    k < |a| && k < |b| && a[..k] == b[..k] && a[k] < b[k]
  }

  /** Reference definition of `a < b` in lexicographic order. */
  ghost predicate LexLess(a: Str, b: Str) {
    ProperPrefix(a, b) || exists k: nat :: FirstLowerAt(a, b, k)
  }

  /** Comparison reports `Equal` exactly on equal text. */
  lemma {:induction false} CompareEqual(a: Str, b: Str)
    ensures Compare(a, b) == Equal <==> a == b
    decreases |a|
  {
    if |a| > 0 && |b| > 0 && a[0] == b[0] {
      CompareEqual(a[1..], b[1..]);
      if a[1..] == b[1..] {
        assert a == [a[0]] + a[1..] && b == [b[0]] + b[1..];
      }
    }
  }

  /** Swapping the operands reverses the outcome. */
  lemma {:induction false} CompareAntisymmetric(a: Str, b: Str)
    ensures Compare(b, a) == Compare(a, b).Reverse()
    decreases |a|
  {
    if |a| > 0 && |b| > 0 && a[0] == b[0] {
      CompareAntisymmetric(a[1..], b[1..]);
    }
  }

  /** `Less` is transitive. */
  lemma {:induction false} CompareTransitive(a: Str, b: Str, c: Str)
    requires Compare(a, b) == Less && Compare(b, c) == Less
    ensures Compare(a, c) == Less
    decreases |a|
  {
    if |a| > 0 && |b| > 0 && |c| > 0 && a[0] == b[0] && b[0] == c[0] {
      CompareTransitive(a[1..], b[1..], c[1..]);
    }
  }

  /** `Compare` agrees with the reference lexicographic order, both ways. */
  lemma {:induction false} CompareLessIsLexLess(a: Str, b: Str)
    ensures Compare(a, b) == Less <==> LexLess(a, b)
    decreases |a|
  {
    if |a| == 0 {
      if |b| > 0 {
        assert a == b[..0];
      } else {
        assert !LexLess(a, b);
      }
    } else if |b| == 0 {
      assert !LexLess(a, b);
    } else if a[0] < b[0] {
      assert FirstLowerAt(a, b, 0);
    } else if a[0] > b[0] {
      assert !LexLess(a, b);
    } else {
      CompareLessIsLexLess(a[1..], b[1..]);
      LexLessTail(a, b);
    }
  }

  /** Text with the same first byte is lexicographically ordered as its tails. */
  lemma LexLessTail(a: Str, b: Str)
    requires |a| > 0 && |b| > 0 && a[0] == b[0]
    ensures LexLess(a, b) <==> LexLess(a[1..], b[1..])
  {
    ProperPrefixTail(a, b);
    if k: nat :| FirstLowerAt(a[1..], b[1..], k) {
      FirstLowerAtTail(a, b, k + 1);
    }
    if k: nat :| FirstLowerAt(a, b, k) {
      FirstLowerAtTail(a, b, k);
    }
  }

  lemma ProperPrefixTail(a: Str, b: Str)
    requires |a| > 0 && |b| > 0 && a[0] == b[0]
    ensures ProperPrefix(a, b) <==> ProperPrefix(a[1..], b[1..])
  {
  }

  lemma FirstLowerAtTail(a: Str, b: Str, k: nat)
    requires |a| > 0 && |b| > 0 && a[0] == b[0]
    ensures k > 0 ==> (FirstLowerAt(a, b, k) <==> FirstLowerAt(a[1..], b[1..], k - 1))
    ensures !FirstLowerAt(a, b, 0)
  {
  }
}
