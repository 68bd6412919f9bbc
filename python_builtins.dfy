/** Models of the Python built-ins the retrieval core relies on: slicing,
    subscripting, `str.strip()` and `str.join()`, together with the
    Option/Result wrappers that stand for raised exceptions. */
module PyBuiltins {

  datatype Option<+T> = None | Some(value: T)

  /** A value, or the exception a Python call would raise instead. */
  datatype Result<+T, +E> = Ok(value: T) | Err(error: E)

  function Min(a: int, b: int): int
  {
    if a <= b then a else b
  }

  /** How Python clamps a slice bound `i` against a sequence of length `n`:
      a negative bound counts from the end, and the result lies in `[0, n]`. */
  function SliceBound(i: int, n: nat): (b: nat)
    ensures b <= n
  {
    if i < 0 then (if n + i < 0 then 0 else n + i)
    else if i > n then n
    else i
  }

  /** `s[i:j]` in Python (step 1). It never fails; an empty range gives `[]`. */
  function Slice<T>(s: seq<T>, i: int, j: int): (r: seq<T>)
    ensures |r| <= |s|
    ensures 0 <= i <= j <= |s| ==> r == s[i..j]
  {
    var lo, hi := SliceBound(i, |s|), SliceBound(j, |s|);
    if lo < hi then s[lo..hi] else []
  }

  /** `s[i]` in Python: a negative `i` counts from the end, and an index
      outside `[-len(s), len(s))` raises IndexError (`None` here). */
  function Subscript<T>(s: seq<T>, i: int): (r: Option<T>)
    ensures r.Some? <==> -|s| <= i < |s|
    ensures 0 <= i < |s| ==> r == Some(s[i])
    ensures -|s| <= i < 0 ==> r == Some(s[|s| + i])
  {
    if 0 <= i < |s| then Some(s[i])
    else if -|s| <= i < 0 then Some(s[|s| + i])
    else None
  }

  // ---------------------------------------------------------------------
  // str.join
  // ---------------------------------------------------------------------

  /** `sep.join(parts)`. */
  function Join(sep: string, parts: seq<string>): string
    decreases |parts|
  {
    if |parts| == 0 then ""
    else if |parts| == 1 then parts[0]
    else Join(sep, parts[..|parts| - 1]) + sep + parts[|parts| - 1]
  }

  /** Where `parts[j]` begins in `sep.join(parts)`: every earlier part and
      one separator after each of them come first. */
  function JoinOffset(sep: string, parts: seq<string>, j: nat): nat
    requires j <= |parts|
  {
    if j == 0 then 0 else JoinOffset(sep, parts, j - 1) + |parts[j - 1]| + |sep|
  }

  /** The length of `sep.join(parts)`: every part, plus one separator
      between each two neighbours. */
  lemma {:induction false} JoinLength(sep: string, parts: seq<string>)
    requires |parts| > 0
    ensures |Join(sep, parts)| + |sep| == JoinOffset(sep, parts, |parts|)
  {
    var n := |parts|;
    if n > 1 {
      JoinLength(sep, parts[..n - 1]);
      JoinOffsetPrefix(sep, parts, n - 1, n - 1);
    }
  }

  /** Part `j` of `sep.join(parts)` appears verbatim at `JoinOffset(j)`. */
  lemma {:induction false} JoinPartAt(sep: string, parts: seq<string>, j: nat)
    requires j < |parts|
    ensures JoinOffset(sep, parts, j) + |parts[j]| <= |Join(sep, parts)|
    ensures Join(sep, parts)[JoinOffset(sep, parts, j)..JoinOffset(sep, parts, j) + |parts[j]|] == parts[j]
  {
    var n := |parts|;
    var s := Join(sep, parts);
    var o := JoinOffset(sep, parts, j);
    if n == 1 {
      assert s == parts[0] && o == 0;
    } else {
      var init := parts[..n - 1];
      var t := Join(sep, init);
      JoinSnoc(sep, parts);
      if j < n - 1 {
        JoinPartAt(sep, init, j);
        JoinOffsetPrefix(sep, parts, n - 1, j);
        assert init[j] == parts[j];
        SliceOfPrefix(t, sep + parts[n - 1], o, o + |parts[j]|);
        assert s[o..o + |parts[j]|] == t[o..o + |parts[j]|] == parts[j];
      } else {
        SliceOfSuffix(t + sep, parts[n - 1]);
        assert o == |t + sep| && s == (t + sep) + parts[n - 1];
      }
    }
  }

  /** Just before every part but the first, `sep.join(parts)` holds one
      separator. */
  lemma {:induction false} JoinSepBefore(sep: string, parts: seq<string>, j: nat)
    requires 0 < j < |parts|
    ensures |sep| <= JoinOffset(sep, parts, j) <= |Join(sep, parts)|
    ensures Join(sep, parts)[JoinOffset(sep, parts, j) - |sep|..JoinOffset(sep, parts, j)] == sep
  {
    var n := |parts|;
    var init := parts[..n - 1];
    var t := Join(sep, init);
    JoinSnoc(sep, parts);
    if j < n - 1 {
      JoinSepBefore(sep, init, j);
      JoinOffsetPrefix(sep, parts, n - 1, j);
      var o := JoinOffset(sep, parts, j);
      SliceOfPrefix(t, sep + parts[n - 1], o - |sep|, o);
    } else {
      JoinOffsetPrefix(sep, parts, n - 1, n - 1);
      SliceOfSuffix(t, sep + parts[n - 1]);
      SliceOfPrefix(sep, parts[n - 1], 0, |sep|);
    }
  }

  /** Joining one more part appends a separator and the part, right after
      the offset of the last part's end. */
  lemma JoinSnoc(sep: string, parts: seq<string>)
    requires |parts| > 1
    ensures var init := parts[..|parts| - 1];
      Join(sep, parts) == Join(sep, init) + (sep + parts[|parts| - 1]) &&
      |Join(sep, init)| + |sep| == JoinOffset(sep, parts, |parts| - 1)
  {
    var n := |parts|;
    var init := parts[..n - 1];
    assert Join(sep, parts) == Join(sep, init) + sep + parts[n - 1];
    JoinLength(sep, init);
    JoinOffsetPrefix(sep, parts, n - 1, n - 1);
  }

  lemma SliceOfPrefix<T>(a: seq<T>, b: seq<T>, lo: int, hi: int)
    requires 0 <= lo <= hi <= |a|
    ensures (a + b)[lo..hi] == a[lo..hi]
  {
  }

  lemma SliceOfSuffix<T>(a: seq<T>, b: seq<T>)
    ensures (a + b)[|a|..|a| + |b|] == b
  {
  }

  /** Offsets into `parts` up to `j` depend only on the first `m` parts. */
  lemma {:induction false} JoinOffsetPrefix(sep: string, parts: seq<string>, m: nat, j: nat)
    requires j <= m <= |parts|
    ensures JoinOffset(sep, parts[..m], j) == JoinOffset(sep, parts, j)
  {
    if j > 0 {
      JoinOffsetPrefix(sep, parts, m, j - 1);
    }
  }

  // ---------------------------------------------------------------------
  // str.strip
  // ---------------------------------------------------------------------

  /** The characters Python's `str.isspace()` accepts, which are the ones
      `str.strip()` with no argument removes. */
  const Whitespace: set<char> := {
    '\t', '\n', '\U{0B}', '\U{0C}', '\r', '\U{1C}', '\U{1D}', '\U{1E}', '\U{1F}', ' ',
    '\U{85}', '\U{A0}', '\U{1680}',
    '\U{2000}', '\U{2001}', '\U{2002}', '\U{2003}', '\U{2004}', '\U{2005}',
    '\U{2006}', '\U{2007}', '\U{2008}', '\U{2009}', '\U{200A}',
    '\U{2028}', '\U{2029}', '\U{202F}', '\U{205F}', '\U{3000}'
  }

  predicate IsSpace(c: char)
  {
    c in Whitespace
  }

  /** The number of whitespace characters that open `s`. */
  function LeadingSpaces(s: string): (n: nat)
    ensures n <= |s|
  {
    if |s| == 0 || !IsSpace(s[0]) then 0 else 1 + LeadingSpaces(s[1..])
  }

  /** The number of whitespace characters that close `s`. */
  function TrailingSpaces(s: string): (n: nat)
    ensures n <= |s|
  {
    if |s| == 0 || !IsSpace(s[|s| - 1]) then 0 else 1 + TrailingSpaces(s[..|s| - 1])
  }

  /** `LeadingSpaces(s)` counts whitespace only, and stops at the first
      other character. */
  lemma {:induction false} LeadingSpacesShape(s: string)
    ensures forall i :: 0 <= i < LeadingSpaces(s) ==> IsSpace(s[i])
    ensures LeadingSpaces(s) < |s| ==> !IsSpace(s[LeadingSpaces(s)])
    decreases |s|
  {
    if |s| > 0 && IsSpace(s[0]) {
      LeadingSpacesShape(s[1..]);
    }
  }

  /** `TrailingSpaces(s)` counts whitespace only, and stops at the last
      other character. */
  lemma {:induction false} TrailingSpacesShape(s: string)
    ensures forall i :: |s| - TrailingSpaces(s) <= i < |s| ==> IsSpace(s[i])
    ensures TrailingSpaces(s) < |s| ==> !IsSpace(s[|s| - 1 - TrailingSpaces(s)])
    decreases |s|
  {
    if |s| > 0 && IsSpace(s[|s| - 1]) {
      TrailingSpacesShape(s[..|s| - 1]);
    }
  }

  /** `s.strip()`: the part of `s` between its leading and its trailing
      whitespace. */
  function Strip(s: string): (r: string)
    ensures |r| <= |s|
  {
    var t := s[LeadingSpaces(s)..];
    t[..|t| - TrailingSpaces(t)]
  }

  /** The stripped string is a contiguous piece of `s` that starts at
      `LeadingSpaces(s)`; only whitespace is cut away on either side, and a
      non-empty result neither starts nor ends with whitespace. */
  lemma StripShape(s: string)
    ensures LeadingSpaces(s) + |Strip(s)| <= |s|
    ensures Strip(s) == s[LeadingSpaces(s)..LeadingSpaces(s) + |Strip(s)|]
    ensures forall i :: 0 <= i < LeadingSpaces(s) ==> IsSpace(s[i])
    ensures forall i :: LeadingSpaces(s) + |Strip(s)| <= i < |s| ==> IsSpace(s[i])
    ensures Strip(s) != [] ==> !IsSpace(Strip(s)[0]) && !IsSpace(Strip(s)[|Strip(s)| - 1])
  {
    StripSlice(s);
    LeadingSpacesShape(s);
    StripTail(s);
    StripEnds(s);
  }

  lemma StripSlice(s: string)
    ensures LeadingSpaces(s) + |Strip(s)| <= |s|
    ensures Strip(s) == s[LeadingSpaces(s)..LeadingSpaces(s) + |Strip(s)|]
  {
    var n := LeadingSpaces(s);
    var t := s[n..];
    assert Strip(s) == t[..|t| - TrailingSpaces(t)];
  }

  lemma StripTail(s: string)
    ensures forall i :: LeadingSpaces(s) + |Strip(s)| <= i < |s| ==> IsSpace(s[i])
  {
    var n := LeadingSpaces(s);
    var t := s[n..];
    var k := |Strip(s)|;
    assert k == |t| - TrailingSpaces(t);
    TrailingSpacesShape(t);
    forall i | n + k <= i < |s|
      ensures IsSpace(s[i])
    {
      assert s[i] == t[i - n];
    }
  }

  lemma StripEnds(s: string)
    ensures Strip(s) != [] ==> !IsSpace(Strip(s)[0]) && !IsSpace(Strip(s)[|Strip(s)| - 1])
  {
    var n := LeadingSpaces(s);
    var t := s[n..];
    var m := TrailingSpaces(t);
    var r := Strip(s);
    assert r == t[..|t| - m];
    if r != [] {
      LeadingSpacesShape(s);
      TrailingSpacesShape(t);
      assert r[0] == t[0] == s[n];
      assert r[|r| - 1] == t[|t| - 1 - m];
    }
  }

  /** A string strips to nothing exactly when it is all whitespace. */
  lemma StripEmptyIff(s: string)
    ensures Strip(s) == [] <==> forall i :: 0 <= i < |s| ==> IsSpace(s[i])
  {
    StripShape(s);
    if Strip(s) != [] {
      assert !IsSpace(s[LeadingSpaces(s)]);
    }
  }

  /** A string that neither starts nor ends with whitespace is its own
      strip. */
  lemma StripPlain(s: string)
    requires s != [] ==> !IsSpace(s[0]) && !IsSpace(s[|s| - 1])
    ensures Strip(s) == s
  {
    if s != [] {
      assert LeadingSpaces(s) == 0;
      assert TrailingSpaces(s) == 0;
    }
  }

  /** Stripping twice changes nothing more. */
  lemma StripIdempotent(s: string)
    ensures Strip(Strip(s)) == Strip(s)
  {
    var r := Strip(s);
    StripShape(s);
    if r != [] {
      assert LeadingSpaces(r) == 0;
      assert TrailingSpaces(r) == 0;
    }
  }
}
