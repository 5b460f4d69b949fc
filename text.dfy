/** String operations of Python's `str` that the scraper relies on:
    `strip()`, the `in` substring test, and `split(sep)[0]` / `split(sep)[-1]`.
    Whitespace is six of the ASCII whitespace characters: space, tab, newline, carriage
    return, vertical tab and form feed. */
module Text {

  datatype Option<T> = None | Some(value: T)

  /** Six of the ASCII whitespace characters; `str.strip()` and the regex class `\s` remove and
      match these, and some further characters the model leaves out. */
  predicate IsSpace(c: char) {
    c == ' ' || c == '\t' || c == '\n' || c == '\r' || c == '\U{0B}' || c == '\U{0C}'
  }

  /** `s` with leading whitespace removed. */
  function TrimStart(s: string): (r: string)
    ensures |r| <= |s| && r == s[|s| - |r|..]
    ensures r == [] || !IsSpace(r[0])
    ensures forall i :: 0 <= i < |s| - |r| ==> IsSpace(s[i])
  {
    if s != [] && IsSpace(s[0]) then TrimStart(s[1..]) else s
  }

  /** `s` with trailing whitespace removed. */
  function TrimEnd(s: string): (r: string)
    ensures |r| <= |s| && r == s[..|r|]
    ensures r == [] || !IsSpace(r[|r| - 1])
    ensures forall i :: |r| <= i < |s| ==> IsSpace(s[i])
  {
    if s != [] && IsSpace(s[|s| - 1]) then TrimEnd(s[..|s| - 1]) else s
  }

  /** How many whitespace characters `s` starts with. */
  function LeadingSpaces(s: string): (n: nat)
    ensures n <= |s|
  {
    |s| - |TrimStart(s)|
  }

  /** Python's `s.strip()`: the infix of `s` left once whitespace is cut from both ends. */
  function Strip(s: string): (r: string)
    ensures LeadingSpaces(s) + |r| <= |s|
    ensures r == s[LeadingSpaces(s)..LeadingSpaces(s) + |r|]
    ensures r == [] || (!IsSpace(r[0]) && !IsSpace(r[|r| - 1]))
  {
    var t := TrimStart(s);
    var r := TrimEnd(t);
    assert r == s[|s| - |t|..|s| - |t| + |r|];
    r
  }

  /** What `Strip` cuts off at either end is whitespace. */
  lemma StripCuts(s: string)
    ensures forall i :: 0 <= i < LeadingSpaces(s) ==> IsSpace(s[i])
    ensures forall i :: LeadingSpaces(s) + |Strip(s)| <= i < |s| ==> IsSpace(s[i])
  {
    var t := TrimStart(s);
    var a := |s| - |t|;
    var r := Strip(s);
    assert r == TrimEnd(t);
    forall i | a + |r| <= i < |s|
      ensures IsSpace(s[i])
    {
      assert s[i] == t[i - a];
    }
  }

  /** When `s` opens with blanks up to position `p`, and positions `p` and `q` are not
      blanks, what `Strip` keeps starts with the characters of `s` from `p` to `q`. */
  lemma StripFront(s: string, p: nat, q: nat)
    requires p <= q < |s|
    requires forall i :: 0 <= i < p ==> IsSpace(s[i])
    requires !IsSpace(s[p]) && !IsSpace(s[q])
    ensures q - p < |Strip(s)| && forall j :: 0 <= j <= q - p ==> Strip(s)[j] == s[p + j]
  {
    var r := Strip(s);
    var a := LeadingSpaces(s);
    StripCuts(s);
    assert a <= p;
    assert q < a + |r|;
    assert r[0] == s[a];
    assert a == p;
  }

  /** `p` occurs in `s` at position `i`. */
  predicate OccursAt(s: string, p: string, i: int) {
    0 <= i && i + |p| <= |s| && s[i..i + |p|] == p
  }

  /** The leftmost position at or after `from` where `p` occurs in `s` (Python's `s.find(p, from)`). */
  function IndexFrom(s: string, p: string, from: nat): (r: Option<nat>)
    decreases |s| - from
    ensures r.Some? ==> from <= r.value && OccursAt(s, p, r.value)
    ensures r.Some? ==> forall k :: from <= k < r.value ==> !OccursAt(s, p, k)
    ensures r.None? ==> forall k :: from <= k ==> !OccursAt(s, p, k)
  {
    if from + |p| > |s| then None
    else if s[from..from + |p|] == p then Some(from)
    else IndexFrom(s, p, from + 1)
  }

  /** Python's `p in s`. */
  predicate Contains(s: string, p: string) {
    IndexFrom(s, p, 0).Some?
  }

  /** `Contains` is the existence of an occurrence. */
  lemma ContainsIff(s: string, p: string)
    ensures Contains(s, p) <==> exists i :: OccursAt(s, p, i)
  {
    if !Contains(s, p) {
      forall i ensures !OccursAt(s, p, i) {
        if i >= 0 { assert !OccursAt(s, p, i); }
      }
    }
  }

  /** An occurrence inside a slice of `s` is an occurrence in `s`. */
  lemma {:induction false} SliceContains(s: string, a: nat, b: nat, p: string)
    requires a <= b <= |s|
    requires Contains(s[a..b], p)
    ensures Contains(s, p)
  {
    var t := s[a..b];
    var i := IndexFrom(t, p, 0).value;
    assert OccursAt(t, p, i);
    assert forall k :: 0 <= k < |p| ==> s[a + i + k] == t[i + k] == p[k];
    assert s[a + i..a + i + |p|] == p;
    assert OccursAt(s, p, a + i);
    ContainsIff(s, p);
  }

  /** Stripping a string without `p` leaves a string without `p`. */
  lemma StripAvoids(s: string, p: string)
    requires !Contains(s, p)
    ensures !Contains(Strip(s), p)
  {
    var a := LeadingSpaces(s);
    var r := Strip(s);
    if Contains(r, p) {
      SliceContains(s, a, a + |r|, p);
    }
  }

  /** Python's `s.split(sep)[0]`: the text before the first occurrence of `sep`, or all of `s`. */
  function SplitFirst(s: string, sep: string): (r: string)
    ensures |r| <= |s| && r == s[..|r|]
    ensures Contains(s, sep) ==> OccursAt(s, sep, |r|)
    ensures !Contains(s, sep) ==> r == s
    ensures sep != [] ==> !Contains(r, sep)
  {
    match IndexFrom(s, sep, 0)
    case None => s
    case Some(i) =>
      var r := s[..i];
      assert sep != [] ==> !Contains(r, sep) by {
        if sep != [] && Contains(r, sep) {
          var k := IndexFrom(r, sep, 0).value;
          assert r[k..k + |sep|] == s[k..k + |sep|];
          assert OccursAt(s, sep, k);
          assert false;
        }
      }
      r
  }

  /** Where the piece after the last separator starts, scanning `s` from `from` on for
      non-overlapping occurrences of `sep`. */
  function LastPieceStart(s: string, sep: string, from: nat): (k: nat)
    requires sep != [] && from <= |s|
    decreases |s| - from
    ensures from <= k <= |s|
    ensures IndexFrom(s, sep, k).None?
    ensures k == from || (k >= |sep| && OccursAt(s, sep, k - |sep|))
    ensures IndexFrom(s, sep, from).None? ==> k == from
  {
    match IndexFrom(s, sep, from)
    case None => from
    case Some(i) => LastPieceStart(s, sep, i + |sep|)
  }

  /** An occurrence in a suffix of `s` is an occurrence in `s`, shifted. */
  lemma SuffixOccurs(s: string, p: string, k: nat, j: int)
    requires k <= |s|
    ensures OccursAt(s[k..], p, j) <==> j >= 0 && OccursAt(s, p, k + j)
  {
    if 0 <= j && j + |p| <= |s| - k {
      assert s[k..][j..j + |p|] == s[k + j..k + j + |p|];
    }
  }

  /** Python's `s.split(sep)[-1]`: scanning from the left for non-overlapping occurrences of
      `sep`, the text after the last one found, or all of `s` when there is none. */
  function SplitLast(s: string, sep: string): (r: string)
    requires sep != []
    ensures |r| <= |s| && r == s[|s| - |r|..]
    ensures !Contains(r, sep)
    ensures !Contains(s, sep) ==> r == s
    ensures Contains(s, sep) ==> |r| + |sep| <= |s| && OccursAt(s, sep, |s| - |r| - |sep|)
  {
    var k := LastPieceStart(s, sep, 0);
    var r := s[k..];
    assert !Contains(r, sep) by {
      if Contains(r, sep) {
        var j := IndexFrom(r, sep, 0).value;
        SuffixOccurs(s, sep, k, j);
        assert false;
      }
    }
    r
  }

  /** With a one-character separator that does not occur in `b`, `(a + [c] + b).split(c)[-1]`
      is `b`, whatever `a` holds. */
  lemma SplitLastAfterChar(a: string, c: char, b: string)
    requires c !in b
    ensures SplitLast(a + [c] + b, [c]) == b
  {
    var s := a + [c] + b;
    var k := LastPieceStart(s, [c], 0);
    assert OccursAt(s, [c], |a|);
    assert forall j :: |a| < j < |s| ==> s[j] == b[j - |a| - 1];
    assert k > |a| && s[k - 1] == c;
    assert s[k..] == b;
  }
}
