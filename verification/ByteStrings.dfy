/** Byte strings, big-endian numbers and separator-delimited lists: the vocabulary shared by the
    parsers and printers of the other modules. */
module ByteStrings {

  type u8 = x: int | 0 <= x < 256
  type bytes = seq<u8>

  datatype Option<+T> = None | Some(value: T)

  datatype Result<+T, +E> = Ok(value: T) | Err(error: E)

  const SLASH: u8 := 47
  const NEWLINE: u8 := 10
  const RETURN: u8 := 13

  /** The bytes of an ASCII (or Latin-1) literal. */
  function Ascii(text: string): (b: bytes)
    requires forall i | 0 <= i < |text| :: text[i] < 256 as char
    ensures |b| == |text| && forall i | 0 <= i < |b| :: b[i] == text[i] as int
  {
    seq(|text|, i requires 0 <= i < |text| => text[i] as int)
  }

  // ----- Big-endian numbers -------------------------------------------------------------

  function Pow256(k: nat): (p: nat)
    ensures p > 0
  {
    if k == 0 then 1 else 256 * Pow256(k - 1)
  }

  /** `from_be_bytes`, for any width. */
  function FromBe(b: bytes): (n: nat)
    ensures n < Pow256(|b|)
  {
    if b == [] then 0 else 256 * FromBe(b[..|b| - 1]) + b[|b| - 1]
  }

  /** `to_be_bytes`, for a width of `k` bytes. */
  function ToBe(n: nat, k: nat): (b: bytes)
    ensures |b| == k
  {
    if k == 0 then [] else ToBe(n / 256, k - 1) + [n % 256]
  }

  lemma {:induction false} FromBeToBe(n: nat, k: nat)
    requires n < Pow256(k)
    ensures FromBe(ToBe(n, k)) == n
  {
    if k > 0 {
      FromBeToBe(n / 256, k - 1);
      assert ToBe(n, k)[..k - 1] == ToBe(n / 256, k - 1);
    }
  }

  lemma {:induction false} ToBeFromBe(b: bytes)
    ensures ToBe(FromBe(b), |b|) == b
  {
    if b != [] {
      ToBeFromBe(b[..|b| - 1]);
      assert FromBe(b) / 256 == FromBe(b[..|b| - 1]);
      assert b == b[..|b| - 1] + [b[|b| - 1]];
    }
  }

  // ----- Separated lists ----------------------------------------------------------------

  /** The pieces of `s` between occurrences of `sep`: one more piece than separators. */
  function Split<T(==)>(s: seq<T>, sep: T): (parts: seq<seq<T>>)
    ensures |parts| >= 1
    ensures forall i | 0 <= i < |parts| :: sep !in parts[i]
  {
    if s == [] then [[]]
    else Prepend(s[0], sep, Split(s[1..], sep))
  }

  function Join<T>(parts: seq<seq<T>>, sep: T): seq<T>
  {
    if |parts| == 0 then []
    else if |parts| == 1 then parts[0]
    else parts[0] + [sep] + Join(parts[1..], sep)
  }

  /** Concatenation without separators. */
  function Concat<T>(parts: seq<seq<T>>): seq<T>
  {
    if parts == [] then [] else parts[0] + Concat(parts[1..])
  }

  lemma {:induction false} JoinAcross<T>(a: seq<seq<T>>, b: seq<seq<T>>, sep: T)
    requires a != [] && b != []
    ensures Join(a + b, sep) == Join(a, sep) + [sep] + Join(b, sep)
  {
    assert (a + b)[1..] == a[1..] + b;
    if |a| > 1 { JoinAcross(a[1..], b, sep); }
  }

  lemma {:induction false} SplitWithout<T>(s: seq<T>, sep: T)
    requires sep !in s
    ensures Split(s, sep) == [s]
  {
    if s != [] {
      SplitWithout(s[1..], sep);
      assert [s[0]] + s[1..] == s;
    }
  }

  /** Splitting is a homomorphism: a separator between two texts separates their pieces. */
  lemma {:induction false} SplitAcross<T>(a: seq<T>, sep: T, b: seq<T>)
    ensures Split(a + [sep] + b, sep) == Split(a, sep) + Split(b, sep)
  {
    var s := a + [sep] + b;
    if a == [] {
      assert s[1..] == b;
    } else {
      SplitAcross(a[1..], sep, b);
      assert s[1..] == a[1..] + [sep] + b;
      PrependAcross(a[0], sep, Split(a[1..], sep), Split(b, sep));
    }
  }

  /** What one more leading element does to the pieces of the rest. */
  function Prepend<T(==)>(x: T, sep: T, parts: seq<seq<T>>): seq<seq<T>>
    requires |parts| >= 1
  {
    if x == sep then [[]] + parts else [[x] + parts[0]] + parts[1..]
  }

  lemma PrependAcross<T>(x: T, sep: T, left: seq<seq<T>>, right: seq<seq<T>>)
    requires |left| >= 1
    ensures Prepend(x, sep, left + right) == Prepend(x, sep, left) + right
  {
    assert (left + right)[1..] == left[1..] + right;
  }

  lemma {:induction false} JoinSplit<T>(s: seq<T>, sep: T)
    ensures Join(Split(s, sep), sep) == s
  {
    if s != [] {
      var rest := Split(s[1..], sep);
      JoinSplit(s[1..], sep);
      if s[0] == sep {
        assert ([[]] + rest)[1..] == rest;
        assert s == [] + [sep] + s[1..];
      } else {
        var parts := [[s[0]] + rest[0]] + rest[1..];
        assert parts[1..] == rest[1..];
        assert s == [s[0]] + s[1..];
      }
    }
  }

  lemma {:induction false} SplitJoin<T>(parts: seq<seq<T>>, sep: T)
    requires |parts| >= 1
    requires forall i | 0 <= i < |parts| :: sep !in parts[i]
    ensures Split(Join(parts, sep), sep) == parts
  {
    SplitWithout(parts[0], sep);
    if |parts| > 1 {
      SplitJoin(parts[1..], sep);
      SplitAcross(parts[0], sep, Join(parts[1..], sep));
      assert [parts[0]] + parts[1..] == parts;
    } else {
      assert parts == [parts[0]];
    }
  }

  // ----- Lexicographic order ------------------------------------------------------------

  /** The order of `Vec<u8>` and of Python strings: at the first difference, or by length. */
  predicate LexLess(a: seq<int>, b: seq<int>)
  {
    b != [] && (a == [] || a[0] < b[0] || (a[0] == b[0] && LexLess(a[1..], b[1..])))
  }

  predicate LexLeq(a: seq<int>, b: seq<int>)
  {
    !LexLess(b, a)
  }

  lemma {:induction false} LexIrreflexive(a: seq<int>)
    ensures !LexLess(a, a)
  {
    if a != [] { LexIrreflexive(a[1..]); }
  }

  lemma {:induction false} LexTransitive(a: seq<int>, b: seq<int>, c: seq<int>)
    requires LexLess(a, b) && LexLess(b, c)
    ensures LexLess(a, c)
  {
    if a != [] && a[0] == b[0] && b[0] == c[0] {
      LexTransitive(a[1..], b[1..], c[1..]);
    }
  }

  lemma LexAsymmetric(a: seq<int>, b: seq<int>)
    requires LexLess(a, b)
    ensures !LexLess(b, a)
  {
    LexIrreflexive(a);
    if LexLess(b, a) { LexTransitive(a, b, a); }
  }

  lemma {:induction false} LexTrichotomy(a: seq<int>, b: seq<int>)
    ensures LexLess(a, b) || a == b || LexLess(b, a)
  {
    if a != [] && b != [] {
      LexTrichotomy(a[1..], b[1..]);
      assert a == [a[0]] + a[1..] && b == [b[0]] + b[1..];
    }
  }

  /** Comparisons may be chained through a weak and a strict step, either way round. */
  lemma LexMixed(a: seq<int>, b: seq<int>, c: seq<int>)
    ensures LexLeq(a, b) && LexLess(b, c) ==> LexLess(a, c)
    ensures LexLess(a, b) && LexLeq(b, c) ==> LexLess(a, c)
    ensures LexLeq(a, b) && LexLeq(b, c) ==> LexLeq(a, c)
  {
    LexTrichotomy(a, b);
    LexTrichotomy(b, c);
    LexTrichotomy(a, c);
    if LexLess(a, b) && LexLess(b, c) { LexTransitive(a, b, c); }
    if LexLess(c, a) && LexLess(a, b) { LexTransitive(c, a, b); }
    if LexLess(b, c) && LexLess(c, a) { LexTransitive(b, c, a); }
    LexIrreflexive(a);
    LexIrreflexive(b);
    LexIrreflexive(c);
  }
}
