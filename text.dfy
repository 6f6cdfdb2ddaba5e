/**
 * String and sequence helpers shared by the backend and the dashboard:
 * Python's str.lower(), str.isspace() and str.strip(), the `in` test on
 * strings, list slicing, and the subsequence order used to state filters.
 */
module Text {

  /** str.lower() on one character; only the ASCII letters are folded. */
  function LowerChar(c: char): char {
    if 'A' <= c <= 'Z' then (c as int + 32) as char else c
  }

  /** str.lower(), character by character. */
  function Lower(s: string): (r: string)
    ensures |r| == |s|
    ensures forall i | 0 <= i < |s| :: r[i] == LowerChar(s[i])
  {
    seq(|s|, i requires 0 <= i < |s| => LowerChar(s[i]))
  }

  lemma LowerIdempotent(s: string)
    ensures Lower(Lower(s)) == Lower(s)
  {
  }

  /** Lowercasing works piece by piece. */
  lemma LowerAppend(a: string, b: string)
    ensures Lower(a + b) == Lower(a) + Lower(b)
  {
    var l, r := Lower(a + b), Lower(a) + Lower(b);
    forall i | 0 <= i < |l| ensures l[i] == r[i] {
      if i < |a| {
        assert (a + b)[i] == a[i];
      } else {
        assert (a + b)[i] == b[i - |a|];
      }
    }
  }

  /** The characters str.isspace() accepts; `\s` and str.strip() use the same set. */
  predicate IsSpace(c: char) {
    || c == ' '
    || '\t' <= c <= '\r'
    || '\U{1C}' <= c <= '\U{1F}'
    || c == '\U{85}' || c == '\U{A0}' || c == '\U{1680}'
    || '\U{2000}' <= c <= '\U{200A}'
    || c == '\U{2028}' || c == '\U{2029}' || c == '\U{202F}' || c == '\U{205F}' || c == '\U{3000}'
  }

  /** Length of the whitespace run that starts `s`. */
  function LeadingSpaces(s: string): (n: nat)
    ensures n <= |s|
    ensures forall i | 0 <= i < n :: IsSpace(s[i])
    ensures n < |s| ==> !IsSpace(s[n])
  {
    if s == [] || !IsSpace(s[0]) then 0 else 1 + LeadingSpaces(s[1..])
  }

  /** Length of the whitespace run that ends `s`. */
  function TrailingSpaces(s: string): (n: nat)
    ensures n <= |s|
    ensures forall i | |s| - n <= i < |s| :: IsSpace(s[i])
    ensures n < |s| ==> !IsSpace(s[|s| - 1 - n])
  {
    if s == [] || !IsSpace(s[|s| - 1]) then 0 else 1 + TrailingSpaces(s[..|s| - 1])
  }

  /** Neither end of `s` is whitespace. */
  predicate IsStripped(s: string) {
    s == [] || (!IsSpace(s[0]) && !IsSpace(s[|s| - 1]))
  }

  /** str.strip(): the text between the leading and the trailing whitespace. */
  function Strip(s: string): (r: string)
    ensures IsStripped(r)
    ensures |r| <= |s|
    ensures forall i | 0 <= i < |r| :: r[i] in s
    ensures r == [] <==> forall i | 0 <= i < |s| :: IsSpace(s[i])
    ensures IsStripped(s) ==> r == s
  {
    var lead := LeadingSpaces(s);
    var a := s[lead..];
    var r := a[..|a| - TrailingSpaces(a)];
    assert forall i | 0 <= i < |r| :: r[i] == s[lead + i];
    r
  }

  /** Stripping removes whitespace at the two ends and nothing else. */
  lemma StripRemovesOnlyEnds(s: string)
    ensures exists i, j | 0 <= i <= j <= |s| ::
      && Strip(s) == s[i..j]
      && (forall k | 0 <= k < i :: IsSpace(s[k]))
      && (forall k | j <= k < |s| :: IsSpace(s[k]))
  {
    var lead := LeadingSpaces(s);
    var a := s[lead..];
    var trail := TrailingSpaces(a);
    var j := lead + |a| - trail;
    assert Strip(s) == s[lead..j] by {
      assert Strip(s) == a[..|a| - trail];
    }
    assert forall k | j <= k < |s| :: IsSpace(s[k]) by {
      forall k | j <= k < |s| ensures IsSpace(s[k]) {
        assert s[k] == a[k - lead];
      }
    }
  }

  /** Slicing a concatenation inside its first part. */
  lemma SliceAppend<T>(a: seq<T>, b: seq<T>, n: nat)
    requires n <= |a|
    ensures (a + b)[..n] == a[..n]
    ensures (a + b)[n..] == a[n..] + b
  {
  }

  /** All but the last element, and the last element, of a non-empty sequence with one element put in front. */
  lemma ConsLast<T>(h: T, ws: seq<T>)
    requires ws != []
    ensures ([h] + ws)[..|ws|] == [h] + ws[..|ws| - 1]
    ensures ([h] + ws)[|ws|] == ws[|ws| - 1]
  {
  }

  /** `p` occurs in `s` at offset `i`. */
  predicate OccursAt(p: string, s: string, i: int) {
    0 <= i && i + |p| <= |s| && s[i..i + |p|] == p
  }

  /** Python's `p in s` for strings: `p` occurs in `s` at some offset. */
  predicate IsSubstring(p: string, s: string) {
    exists i | 0 <= i <= |s| :: OccursAt(p, s, i)
  }

  /** Python's `s[:n]`. */
  function Take<T>(s: seq<T>, n: nat): (r: seq<T>)
    ensures |r| == if |s| <= n then |s| else n
    ensures r == s[..|r|]
  {
    if |s| <= n then s else s[..n]
  }

  /** `a` is `b` with some elements left out, order kept. */
  predicate IsSubseq<T(==)>(a: seq<T>, b: seq<T>)
    decreases |b|
  {
    if a == [] then true
    else if b == [] then false
    else if a[|a| - 1] == b[|b| - 1] then IsSubseq(a[..|a| - 1], b[..|b| - 1])
    else IsSubseq(a, b[..|b| - 1])
  }

  lemma {:induction false} SubseqLength<T>(a: seq<T>, b: seq<T>)
    requires IsSubseq(a, b)
    ensures |a| <= |b|
    decreases |b|
  {
    if a != [] {
      if a[|a| - 1] == b[|b| - 1] {
        SubseqLength(a[..|a| - 1], b[..|b| - 1]);
      } else {
        SubseqLength(a, b[..|b| - 1]);
      }
    }
  }

  lemma {:induction false} SubseqElements<T>(a: seq<T>, b: seq<T>)
    requires IsSubseq(a, b)
    ensures forall x | x in a :: x in b
    decreases |b|
  {
    if a != [] {
      if a[|a| - 1] == b[|b| - 1] {
        SubseqElements(a[..|a| - 1], b[..|b| - 1]);
        assert a == a[..|a| - 1] + [a[|a| - 1]];
        assert b == b[..|b| - 1] + [b[|b| - 1]];
      } else {
        SubseqElements(a, b[..|b| - 1]);
      }
    }
  }

  lemma {:induction false} SubseqPrefix<T>(a: seq<T>, b: seq<T>, n: nat)
    requires IsSubseq(a, b)
    requires n <= |a|
    ensures IsSubseq(a[..n], b)
    decreases |a| - n
  {
    if n < |a| {
      SubseqInit(a, b);
      SubseqPrefix(a[..|a| - 1], b, n);
      assert a[..|a| - 1][..n] == a[..n];
    } else {
      assert a[..n] == a;
    }
  }

  /** Appending to the larger sequence keeps a subsequence. */
  lemma {:induction false} SubseqDropLast<T>(a: seq<T>, b: seq<T>)
    requires b != [] && IsSubseq(a, b[..|b| - 1])
    ensures IsSubseq(a, b)
    decreases |b|, 0
  {
    if a != [] && a[|a| - 1] == b[|b| - 1] {
      SubseqInit(a, b[..|b| - 1]);
    }
  }

  /** Dropping the last element of a subsequence keeps a subsequence. */
  lemma {:induction false} SubseqInit<T>(a: seq<T>, b: seq<T>)
    requires a != [] && IsSubseq(a, b)
    ensures IsSubseq(a[..|a| - 1], b)
    decreases |b|, 1
  {
    if a[|a| - 1] == b[|b| - 1] {
      SubseqDropLast(a[..|a| - 1], b);
    } else {
      SubseqInit(a, b[..|b| - 1]);
      SubseqDropLast(a[..|a| - 1], b);
    }
  }
}
