/** Small string facts shared by the rest of the model: Python's `None`,
    a literal occurring at a position, and Python's substring test `sub in s`. */
module Text {

  /** Python's optional value: `None` or a present value. */
  datatype Option<+T> = None | Some(value: T)

  /** The literal `lit` occurs in `s` starting exactly at position `p`. */
  predicate LiteralAt(s: string, p: int, lit: string)
  {
    0 <= p && p + |lit| <= |s| && s[p..p + |lit|] == lit
  }

  /** Python's `sub in s` on strings, scanning start positions from `i` on. */
  function ContainsFrom(s: string, sub: string, i: nat): (r: bool)
    ensures r <==> exists j :: i <= j && LiteralAt(s, j, sub)
    decreases |s| - i
  {
    if i + |sub| > |s| then
      assert forall j :: i <= j ==> !LiteralAt(s, j, sub);
      false
    else if LiteralAt(s, i, sub) then true
    else ContainsFrom(s, sub, i + 1)
  }

  /** Python's `sub in s`: true iff `sub` occurs somewhere in `s`. */
  function Contains(s: string, sub: string): (r: bool)
    ensures r <==> exists j :: 0 <= j && LiteralAt(s, j, sub)
  {
    ContainsFrom(s, sub, 0)
  }

  /** A concatenation occurs at `p` exactly when its two parts occur one
      after the other from `p`. */
  lemma LiteralAtConcat(s: string, p: int, a: string, b: string)
    ensures LiteralAt(s, p, a + b) <==> LiteralAt(s, p, a) && LiteralAt(s, p + |a|, b)
  {
    var n := |a| + |b|;
    if 0 <= p && p + n <= |s| {
      var w := s[p..p + n];
      assert w[..|a|] == s[p..p + |a|];
      assert w[|a|..] == s[p + |a|..p + n];
      assert w == w[..|a|] + w[|a|..];
      if w == a + b {
        assert (a + b)[..|a|] == a;
        assert (a + b)[|a|..] == b;
      }
    }
  }

  /** A literal inside a literal that occurs at `p` occurs in `s` too. */
  lemma LiteralWithin(s: string, p: int, w: string, j: int, x: string)
    requires LiteralAt(s, p, w) && LiteralAt(w, j, x)
    ensures LiteralAt(s, p + j, x)
  {
    SliceOfSlice(s, p, p + |w|, j, j + |x|);
  }

  /** A slice of a slice is a slice of the original. */
  lemma SliceOfSlice(s: string, lo: int, hi: int, a: int, b: int)
    requires 0 <= lo <= hi <= |s| && 0 <= a <= b <= hi - lo
    ensures s[lo..hi][a..b] == s[lo + a..lo + b]
  {
    assert forall j :: 0 <= j < b - a ==> s[lo..hi][a..b][j] == s[lo + a..lo + b][j];
  }
}
