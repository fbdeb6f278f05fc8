/**
 * Byte strings (Node's `Buffer`), the lexicographic order of
 * `Buffer.compare`, sorting, adjacent de-duplication and the
 * `0x`-prefixed lower-case hex rendering of `Buffer.toString('hex')`.
 */
module ByteOrder {
  import opened Wrappers

  newtype Byte = b: int | 0 <= b < 256

  type Bytes = seq<Byte>

  // ---------------------------------------------------------------------
  // Buffer.compare
  // ---------------------------------------------------------------------

  /** `Buffer.compare(a, b)`: byte-wise comparison, a proper prefix sorts first. */
  function Compare(a: Bytes, b: Bytes): (c: int)
    ensures -1 <= c <= 1
    decreases |a|
  {
    if |a| == 0 && |b| == 0 then 0
    else if |a| == 0 then -1
    else if |b| == 0 then 1
    else if a[0] < b[0] then -1
    else if a[0] > b[0] then 1
    else Compare(a[1..], b[1..])
  }

  predicate Le(a: Bytes, b: Bytes) { Compare(a, b) <= 0 }

  predicate Lt(a: Bytes, b: Bytes) { Compare(a, b) < 0 }

  /** Swapping the operands negates the comparison. */
  lemma {:induction false} CompareAntisymmetric(a: Bytes, b: Bytes)
    ensures Compare(b, a) == -Compare(a, b)
    decreases |a|
  {
    if |a| > 0 && |b| > 0 && a[0] == b[0] {
      CompareAntisymmetric(a[1..], b[1..]);
    }
  }

  /** Two buffers compare equal exactly when they hold the same bytes. */
  lemma {:induction false} CompareZeroIffEqual(a: Bytes, b: Bytes)
    ensures Compare(a, b) == 0 <==> a == b
    decreases |a|
  {
    if |a| > 0 && |b| > 0 && a[0] == b[0] {
      CompareZeroIffEqual(a[1..], b[1..]);
      assert a == [a[0]] + a[1..] && b == [b[0]] + b[1..];
    }
  }

  /** The order is transitive. */
  lemma {:induction false} LeTransitive(a: Bytes, b: Bytes, c: Bytes)
    requires Le(a, b) && Le(b, c)
    ensures Le(a, c)
    ensures Lt(a, b) || Lt(b, c) ==> Lt(a, c)
    decreases |a|
  {
    if |a| > 0 && |b| > 0 && |c| > 0 && a[0] == b[0] && b[0] == c[0] {
      LeTransitive(a[1..], b[1..], c[1..]);
    }
  }

  /** Any two buffers are ordered one way or the other. */
  lemma LeTotal(a: Bytes, b: Bytes)
    ensures Le(a, b) || Le(b, a)
  {
    CompareAntisymmetric(a, b);
  }

  /** `Le` without `Lt` means equality. */
  lemma LeNotLtIsEqual(a: Bytes, b: Bytes)
    ensures Le(a, b) && !Lt(a, b) <==> a == b
  {
    CompareZeroIffEqual(a, b);
  }

  // ---------------------------------------------------------------------
  // Sorting (Array.prototype.sort with Buffer.compare)
  // ---------------------------------------------------------------------

  ghost predicate Sorted(s: seq<Bytes>)
  {
    forall i, j :: 0 <= i < j < |s| ==> Le(s[i], s[j])
  }

  ghost predicate StrictlySorted(s: seq<Bytes>)
  {
    forall i, j :: 0 <= i < j < |s| ==> Lt(s[i], s[j])
  }

  /** Places `x` into the sorted sequence `s` before the first element not below it. */
  function Insert(x: Bytes, s: seq<Bytes>): (r: seq<Bytes>)
    requires Sorted(s)
    ensures Sorted(r)
    ensures multiset(r) == multiset(s) + multiset{x}
  {
    if s == [] then [x]
    else if Le(x, s[0]) then
      PrependLeast(x, s);
      [x] + s
    else
      var t := Insert(x, s[1..]);
      PrependHead(x, s, t);
      [s[0]] + t
  }

  /** An element not above the head of a sorted sequence can go in front of it. */
  lemma PrependLeast(x: Bytes, s: seq<Bytes>)
    requires Sorted(s) && s != [] && Le(x, s[0])
    ensures Sorted([x] + s)
  {
    forall j | 0 < j < |s| ensures Le(x, s[j]) {
      LeTransitive(x, s[0], s[j]);
    }
  }

  /**
   * When `x` goes above the head, the head stays in front of `t`, the rest
   * with `x` inserted.
   */
  lemma PrependHead(x: Bytes, s: seq<Bytes>, t: seq<Bytes>)
    requires Sorted(s) && s != [] && !Le(x, s[0])
    requires Sorted(t) && multiset(t) == multiset(s[1..]) + multiset{x}
    ensures Sorted([s[0]] + t)
    ensures multiset([s[0]] + t) == multiset(s) + multiset{x}
  {
    LeTotal(x, s[0]);
    assert s == [s[0]] + s[1..];
    forall j | 0 <= j < |t| ensures Le(s[0], t[j]) {
      assert t[j] in multiset(t);
      if t[j] != x {
        assert t[j] in multiset(s[1..]);
        var k :| 0 <= k < |s[1..]| && s[1..][k] == t[j];
        assert s[k + 1] == t[j];
      }
    }
  }

  /**
   * The buffers of `s` in ascending `Buffer.compare` order; equal buffers
   * are adjacent.
   */
  function Sort(s: seq<Bytes>): (r: seq<Bytes>)
    ensures Sorted(r)
    ensures multiset(r) == multiset(s)
  {
    if s == [] then []
    else
      assert s == [s[0]] + s[1..];
      Insert(s[0], Sort(s[1..]))
  }

  /** The head of a sorted sequence is not above any of its elements. */
  lemma SortedHeadIsLeast(s: seq<Bytes>, x: Bytes)
    requires Sorted(s) && x in s
    ensures Le(s[0], x)
  {
    CompareZeroIffEqual(s[0], s[0]);
    var k :| 0 <= k < |s| && s[k] == x;
    if k > 0 {
      assert Le(s[0], s[k]);
    }
  }

  /** Two sorted permutations of each other start with the same element. */
  lemma SortedPermutationsShareHead(a: seq<Bytes>, b: seq<Bytes>)
    requires Sorted(a) && Sorted(b) && a != []
    requires multiset(a) == multiset(b)
    ensures b != [] && a[0] == b[0]
  {
    assert a[0] in multiset(b);
    assert b[0] in multiset(a);
    SortedHeadIsLeast(b, a[0]);
    SortedHeadIsLeast(a, b[0]);
    CompareAntisymmetric(a[0], b[0]);
    CompareZeroIffEqual(a[0], b[0]);
  }

  /**
   * A sorted permutation is unique: whatever algorithm the JavaScript engine
   * uses, sorting by `Buffer.compare` yields exactly `Sort(s)`.
   */
  lemma {:induction false} SortedPermutationUnique(a: seq<Bytes>, b: seq<Bytes>)
    requires Sorted(a) && Sorted(b)
    requires multiset(a) == multiset(b)
    ensures a == b
    decreases |a|
  {
    if a != [] {
      SortedPermutationsShareHead(a, b);
      assert a == [a[0]] + a[1..] && b == [b[0]] + b[1..];
      assert multiset(a[1..]) == multiset(a) - multiset{a[0]};
      assert multiset(b[1..]) == multiset(b) - multiset{b[0]};
      SortedPermutationUnique(a[1..], b[1..]);
    } else {
      assert |b| == |multiset(b)| == 0;
    }
  }

  // ---------------------------------------------------------------------
  // De-duplication of neighbours (MerkleTree.bufDedup)
  // ---------------------------------------------------------------------

  /** Keeps index `i` exactly when it is the first index or differs from its predecessor. */
  predicate KeptAt(s: seq<Bytes>, i: nat)
    requires i < |s|
  {
    i == 0 || s[i - 1] != s[i]
  }

  /** The kept elements of `s` from index `i` on, in order. */
  function DedupFrom(s: seq<Bytes>, i: nat): (r: seq<Bytes>)
    requires i <= |s|
    ensures |r| <= |s| - i
    decreases |s| - i
  {
    if i == |s| then []
    else (if KeptAt(s, i) then [s[i]] else []) + DedupFrom(s, i + 1)
  }

  /**
   * `bufDedup`: keeps the first element and every element that differs from
   * the one just before it, in order. It never lengthens the list, and a
   * non-empty list keeps its first element.
   */
  function Dedup(s: seq<Bytes>): (r: seq<Bytes>)
    ensures |r| <= |s|
    ensures s != [] ==> r != [] && r[0] == s[0]
  {
    DedupFrom(s, 0)
  }

  /**
   * From index `i` on, the filter outputs only values of `s[i..]`, and every
   * such value is output unless it equals the element just before `i`.
   */
  lemma {:induction false} DedupFromValues(s: seq<Bytes>, i: nat)
    requires i <= |s|
    ensures forall x :: x in DedupFrom(s, i) ==> x in s[i..]
    ensures forall x :: x in s[i..] ==> x in DedupFrom(s, i) || (0 < i && x == s[i - 1])
    decreases |s| - i
  {
    if i < |s| {
      DedupFromValues(s, i + 1);
      assert s[i..] == [s[i]] + s[i + 1..];
    }
  }

  /** De-duplication keeps exactly the values of its input. */
  lemma DedupSameValues(s: seq<Bytes>)
    ensures forall x :: x in Dedup(s) <==> x in s
  {
    DedupFromValues(s, 0);
  }

  /**
   * On sorted input, everything the filter outputs from `i` on lies strictly
   * above the element before `i`.
   */
  lemma {:induction false} DedupFromAbove(s: seq<Bytes>, i: nat)
    requires Sorted(s) && 0 < i <= |s|
    ensures forall x :: x in DedupFrom(s, i) ==> Lt(s[i - 1], x)
    decreases |s| - i
  {
    if i < |s| {
      DedupFromAbove(s, i + 1);
      assert Le(s[i - 1], s[i]);
      LeNotLtIsEqual(s[i - 1], s[i]);
      forall x | x in DedupFrom(s, i) ensures Lt(s[i - 1], x) {
        if x in DedupFrom(s, i + 1) {
          LeTransitive(s[i - 1], s[i], x);
        }
      }
    }
  }

  /** On sorted input the filter's output is strictly ascending. */
  lemma {:induction false} DedupFromStrictlySorted(s: seq<Bytes>, i: nat)
    requires Sorted(s) && i <= |s|
    ensures StrictlySorted(DedupFrom(s, i))
    decreases |s| - i
  {
    if i < |s| {
      DedupFromStrictlySorted(s, i + 1);
      var rest := DedupFrom(s, i + 1);
      if KeptAt(s, i) {
        var out := DedupFrom(s, i);
        assert out == [s[i]] + rest;
        DedupFromAbove(s, i + 1);
        forall a, b | 0 <= a < b < |out| ensures Lt(out[a], out[b]) {
          assert out[b] == rest[b - 1];
          if a == 0 {
            assert rest[b - 1] in rest;
          } else {
            assert out[a] == rest[a - 1];
          }
        }
      }
    }
  }

  /** Sorting then de-duplicating gives a strictly ascending list of the same values. */
  lemma DedupSorted(s: seq<Bytes>)
    requires Sorted(s)
    ensures StrictlySorted(Dedup(s))
    ensures forall x :: x in Dedup(s) <==> x in s
  {
    DedupFromStrictlySorted(s, 0);
    DedupSameValues(s);
  }

  // ---------------------------------------------------------------------
  // Hex rendering ('0x' + buf.toString('hex'))
  // ---------------------------------------------------------------------

  const HexAlphabet: string := "0123456789abcdef"

  /** The lower-case hex digit for the value `n` (below 16). */
  function HexDigit(n: int): char
    requires 0 <= n < 16
  {
    HexAlphabet[n]
  }

  /** The value of a lower-case hex digit, if `c` is one. */
  function DigitValue(c: char): (r: Option<int>)
    ensures r.Some? ==> 0 <= r.value < 16 && HexDigit(r.value) == c
  {
    if '0' <= c <= '9' then Some(c as int - '0' as int)
    else if 'a' <= c <= 'f' then Some(c as int - 'a' as int + 10)
    else None
  }

  /** Every hex digit reads back as the value it renders. */
  lemma DigitValueOfHexDigit(n: int)
    requires 0 <= n < 16
    ensures DigitValue(HexDigit(n)) == Some(n)
  {
    assert HexAlphabet == ['0','1','2','3','4','5','6','7','8','9','a','b','c','d','e','f'];
  }

  /** `buf.toString('hex')`: two lower-case digits per byte, high nibble first. */
  function HexDigits(b: Bytes): (r: string)
    ensures |r| == 2 * |b|
    ensures forall i :: 0 <= i < |r| ==> DigitValue(r[i]).Some?
  {
    if b == [] then []
    else [HexDigit(b[0] as int / 16), HexDigit(b[0] as int % 16)] + HexDigits(b[1..])
  }

  /** `'0x' + buf.toString('hex')` (`bufferToHex`, `bufArrToHexArr`). */
  function ToHex(b: Bytes): (r: string)
    ensures |r| == 2 + 2 * |b| && r[..2] == "0x"
  {
    "0x" + HexDigits(b)
  }

  /** Reads pairs of lower-case hex digits back into bytes. */
  function ParseHexDigits(t: string): Option<Bytes>
  {
    if t == [] then Some([])
    else if |t| == 1 then None
    else match (DigitValue(t[0]), DigitValue(t[1]), ParseHexDigits(t[2..]))
      case (Some(hi), Some(lo), Some(rest)) => Some([(hi * 16 + lo) as Byte] + rest)
      case _ => None
  }

  /** Reads a `0x`-prefixed lower-case hex string back into bytes. */
  function ParseHex(s: string): Option<Bytes>
  {
    if |s| < 2 || s[..2] != "0x" then None else ParseHexDigits(s[2..])
  }

  /** A byte is its high nibble times 16 plus its low nibble. */
  lemma NibblesRecombine(x: Byte)
    ensures (x as int / 16 * 16 + x as int % 16) as Byte == x
  {
  }

  /** Two hex digits in front of a parsable rest parse to one more byte. */
  lemma ParseHexDigitsCons(hi: int, lo: int, t: string, rest: Bytes)
    requires 0 <= hi < 16 && 0 <= lo < 16
    requires ParseHexDigits(t) == Some(rest)
    ensures ParseHexDigits([HexDigit(hi), HexDigit(lo)] + t) == Some([(hi * 16 + lo) as Byte] + rest)
  {
    DigitValueOfHexDigit(hi);
    DigitValueOfHexDigit(lo);
    var u := [HexDigit(hi), HexDigit(lo)] + t;
    assert u[0] == HexDigit(hi) && u[1] == HexDigit(lo) && u[2..] == t;
  }

  lemma {:induction false} ParseHexDigitsRoundTrip(b: Bytes)
    ensures ParseHexDigits(HexDigits(b)) == Some(b)
  {
    if b != [] {
      var hi, lo := b[0] as int / 16, b[0] as int % 16;
      ParseHexDigitsRoundTrip(b[1..]);
      ParseHexDigitsCons(hi, lo, HexDigits(b[1..]), b[1..]);
      NibblesRecombine(b[0]);
      assert HexDigits(b) == [HexDigit(hi), HexDigit(lo)] + HexDigits(b[1..]);
      assert b == [b[0]] + b[1..];
    }
  }

  /** The hex rendering loses nothing: parsing it gives back the buffer. */
  lemma ToHexRoundTrip(b: Bytes)
    ensures ParseHex(ToHex(b)) == Some(b)
  {
    assert ToHex(b)[2..] == HexDigits(b);
    ParseHexDigitsRoundTrip(b);
  }
}
