/** `re.search` for the one regular-expression shape the extraction uses:
    a literal prefix, a lazy non-empty capture `(.+?)` and a literal suffix.
    Python's engine tries start positions from left to right and, at each
    start, lets the lazy capture grow one character at a time; `.` never
    matches a newline. The result is group 1 of the first match found. */
module LazySearch {
  import opened Text

  /** The regex `prefix(.+?)suffix` matches at start `i` with a capture of
      length `k`: the capture is non-empty, newline-free and sits between the
      two literals. */
  ghost predicate MatchAt(text: string, prefix: string, suffix: string, i: int, k: int)
  {
    && LiteralAt(text, i, prefix)
    && 1 <= k
    && CaptureAt(text, i + |prefix|, k, suffix)
  }

  /** The `k` characters from position `c` are newline-free and `suffix`
      follows them. */
  ghost predicate CaptureAt(text: string, c: int, k: int, suffix: string)
  {
    && 0 <= c && 0 <= k && c + k <= |text|
    && '\n' !in text[c..c + k]
    && LiteralAt(text, c + k, suffix)
  }

  /** The pattern matches at start `i` with group 1 equal to `run`: `run` is
      non-empty and newline-free, and `prefix + run + suffix` occurs at `i`. */
  ghost predicate Occurs(text: string, prefix: string, suffix: string, i: int, run: string)
  {
    |run| >= 1 && '\n' !in run && LiteralAt(text, i, prefix + run + suffix)
  }

  /** The match Python reports: no match starts further left, and at this
      start no shorter capture completes the pattern. */
  ghost predicate FirstOccurrence(text: string, prefix: string, suffix: string, i: int, run: string)
  {
    && Occurs(text, prefix, suffix, i, run)
    && (forall i', run' :: 0 <= i' < i ==> !Occurs(text, prefix, suffix, i', run'))
    && (forall run' :: |run'| < |run| ==> !Occurs(text, prefix, suffix, i, run'))
  }

  /** Group 1 of a match at `i` with capture length `k`. */
  function Group(text: string, prefix: string, i: int, k: int): string
    requires 0 <= i && 0 <= k && i + |prefix| + k <= |text|
  {
    text[i + |prefix|..i + |prefix| + k]
  }

  /** The lazy capture starting at `c`: tries lengths `k`, `k + 1`, ... and
      stops at the first one followed by `suffix`, at a newline, or at the
      end of the text. The first `k - 1` characters are known newline-free. */
  function LazyCapture(text: string, c: nat, k: nat, suffix: string): (r: Option<nat>)
    requires 1 <= k && c + k <= |text| + 1
    requires '\n' !in text[c..c + k - 1]
    ensures r.Some? ==> k <= r.value && CaptureAt(text, c, r.value, suffix)
    ensures r.Some? ==> forall k' :: k <= k' < r.value ==> !CaptureAt(text, c, k', suffix)
    ensures r.None? ==> forall k' :: k <= k' ==> !CaptureAt(text, c, k', suffix)
    decreases |text| + 1 - (c + k)
  {
    if c + k > |text| then None
    else if text[c + k - 1] == '\n' then
      forall k' | k <= k'
        ensures !CaptureAt(text, c, k', suffix)
      {
        if c + k' <= |text| {
          assert text[c..c + k'][k - 1] == '\n';
        }
      }
      None
    else
      assert text[c..c + k] == text[c..c + k - 1] + [text[c + k - 1]];
      if LiteralAt(text, c + k, suffix) then Some(k)
      else LazyCapture(text, c, k + 1, suffix)
  }

  /** `re.search` restricted to start positions `i` and later. */
  function SearchFrom(text: string, prefix: string, suffix: string, i: nat): (r: Option<(nat, nat)>)
    ensures r.Some? ==> i <= r.value.0 && MatchAt(text, prefix, suffix, r.value.0, r.value.1)
    ensures r.Some? ==> forall i', k' :: i <= i' < r.value.0 ==> !MatchAt(text, prefix, suffix, i', k')
    ensures r.Some? ==> forall k' :: k' < r.value.1 ==> !MatchAt(text, prefix, suffix, r.value.0, k')
    ensures r.None? ==> forall i', k' :: i <= i' ==> !MatchAt(text, prefix, suffix, i', k')
    decreases |text| - i
  {
    if i + |prefix| >= |text| then
      assert forall i', k' :: i <= i' ==> !MatchAt(text, prefix, suffix, i', k');
      None
    else if !LiteralAt(text, i, prefix) then
      assert forall k' :: !MatchAt(text, prefix, suffix, i, k');
      SearchFrom(text, prefix, suffix, i + 1)
    else
      var capture := LazyCapture(text, i + |prefix|, 1, suffix);
      if capture.Some? then Some((i, capture.value))
      else
        assert forall k' :: !MatchAt(text, prefix, suffix, i, k');
        SearchFrom(text, prefix, suffix, i + 1)
  }

  /** An occurrence is a match whose capture is the run. */
  lemma OccursIsMatch(text: string, prefix: string, suffix: string, i: int, run: string)
    requires Occurs(text, prefix, suffix, i, run)
    ensures MatchAt(text, prefix, suffix, i, |run|) && Group(text, prefix, i, |run|) == run
  {
    LiteralAtConcat(text, i, prefix + run, suffix);
    LiteralAtConcat(text, i, prefix, run);
  }

  /** A match is an occurrence of its capture. */
  lemma MatchIsOccurrence(text: string, prefix: string, suffix: string, i: int, k: int)
    requires MatchAt(text, prefix, suffix, i, k)
    ensures Occurs(text, prefix, suffix, i, Group(text, prefix, i, k))
  {
  }

  /** Cutting an occurrence's run where the suffix first reappears inside
      it gives a shorter occurrence at the same start. */
  lemma ShorterRunOccurs(text: string, prefix: string, suffix: string, i: int, run: string, j: int)
    requires Occurs(text, prefix, suffix, i, run)
    requires 1 <= j < |run| && LiteralAt(run + suffix, j, suffix)
    ensures Occurs(text, prefix, suffix, i, run[..j])
  {
    var p := i + |prefix|;
    var shorter := run[..j];
    LiteralAtConcat(text, i, prefix + run, suffix);
    LiteralAtConcat(text, i, prefix, run);
    LiteralAtConcat(text, p, run, suffix);
    LiteralWithin(text, p, run + suffix, j, suffix);
    SliceOfSlice(text, p, p + |run|, 0, j);
    assert LiteralAt(text, p, shorter);
    LiteralAtConcat(text, i, prefix, shorter);
    LiteralAtConcat(text, i, prefix + shorter, suffix);
    assert shorter <= run;
  }

  /** The reported run is lazy: the suffix does not reappear anywhere inside
      it after its first character. */
  lemma FirstOccurrenceIsLazy(text: string, prefix: string, suffix: string, i: int, run: string)
    requires FirstOccurrence(text, prefix, suffix, i, run)
    ensures forall j :: 1 <= j < |run| ==> !LiteralAt(run + suffix, j, suffix)
  {
    forall j | 1 <= j < |run| ensures !LiteralAt(run + suffix, j, suffix) {
      if LiteralAt(run + suffix, j, suffix) {
        ShorterRunOccurs(text, prefix, suffix, i, run, j);
      }
    }
  }

  /** The run `Search` reports occurs in the text between the two literals
      and is lazy. */
  lemma SearchIsLazy(text: string, prefix: string, suffix: string) returns (i: int)
    requires Search(text, prefix, suffix).Some?
    ensures var run := Search(text, prefix, suffix).value;
      && LiteralAt(text, i, prefix + run + suffix)
      && forall j :: 1 <= j < |run| ==> !LiteralAt(run + suffix, j, suffix)
  {
    var run := Search(text, prefix, suffix).value;
    i :| FirstOccurrence(text, prefix, suffix, i, run);
    FirstOccurrenceIsLazy(text, prefix, suffix, i, run);
  }

  /** At most one occurrence is the first, so the contract of `Search`
      determines its result. */
  lemma FirstOccurrenceUnique(text: string, prefix: string, suffix: string,
                              i: int, run: string, i2: int, run2: string)
    requires FirstOccurrence(text, prefix, suffix, i, run)
    requires FirstOccurrence(text, prefix, suffix, i2, run2)
    ensures i == i2 && run == run2
  {
    OccursIsMatch(text, prefix, suffix, i, run);
    OccursIsMatch(text, prefix, suffix, i2, run2);
    assert !(i < i2) && !(i2 < i);
    assert !(|run| < |run2|) && !(|run2| < |run|);
  }

  /** `m.group(1) if (m := re.search(prefix(.+?)suffix, text)) else None`:
      absent exactly when the pattern occurs nowhere; otherwise the capture
      of the leftmost start, shortest at that start. */
  function Search(text: string, prefix: string, suffix: string): (r: Option<string>)
    ensures r.None? <==> forall i, run :: !Occurs(text, prefix, suffix, i, run)
    ensures r.Some? ==> exists i :: FirstOccurrence(text, prefix, suffix, i, r.value)
  {
    match SearchFrom(text, prefix, suffix, 0)
    case None =>
      assert forall i, run :: !Occurs(text, prefix, suffix, i, run) by {
        forall i, run | Occurs(text, prefix, suffix, i, run) ensures false {
          OccursIsMatch(text, prefix, suffix, i, run);
        }
      }
      None
    case Some((i, k)) =>
      var run := Group(text, prefix, i, k);
      MatchIsOccurrence(text, prefix, suffix, i, k);
      assert FirstOccurrence(text, prefix, suffix, i, run) by {
        forall i', run' | 0 <= i' < i || (i' == i && |run'| < |run|)
          ensures !Occurs(text, prefix, suffix, i', run')
        {
          if Occurs(text, prefix, suffix, i', run') {
            OccursIsMatch(text, prefix, suffix, i', run');
          }
        }
      }
      Some(run)
  }
}
