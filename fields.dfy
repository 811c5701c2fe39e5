/** The two field parsers applied to the text of a row's "IPO" cell
    (api/index.py:37-40): `re.search(r'(.+?)Open', text)` for the company
    name and `re.search(r'Sub:(.+?)\)', text)` for the subscription ratio,
    each giving group 1 of the match or `None`. */
module Fields {
  import opened Text
  import opened LazySearch

  const OPEN_MARKER: string := "Open"
  const SUB_MARKER: string := "Sub:"
  const SUB_END: string := ")"

  /** Group 1 of `(.+?)Open`: the leftmost newline-free non-empty run that
      "Open" follows, as short as possible at that start; `None` when no
      such run exists anywhere in the text. */
  function CompanyName(text: string): (r: Option<string>)
    ensures r.None? <==> forall i, run :: !Occurs(text, "", OPEN_MARKER, i, run)
    ensures r.Some? ==> |r.value| >= 1 && '\n' !in r.value
    ensures r.Some? ==> exists i :: FirstOccurrence(text, "", OPEN_MARKER, i, r.value)
  {
    Search(text, "", OPEN_MARKER)
  }

  /** Group 1 of `Sub:(.+?)\)`: the newline-free non-empty run after the
      leftmost "Sub:" that a ")" closes, up to the first ")" at least one
      character in; `None` when no "Sub:" is closed that way. */
  function SubscriptionRatio(text: string): (r: Option<string>)
    ensures r.None? <==> forall i, run :: !Occurs(text, SUB_MARKER, SUB_END, i, run)
    ensures r.Some? ==> |r.value| >= 1 && '\n' !in r.value
    ensures r.Some? ==> exists i :: FirstOccurrence(text, SUB_MARKER, SUB_END, i, r.value)
  {
    Search(text, SUB_MARKER, SUB_END)
  }

  /** The company name is followed by "Open" in the text, and "Open" does not
      start anywhere inside it after its first character: the lazy capture
      stops at the first "Open" it can. */
  lemma CompanyNameStopsAtFirstOpen(text: string)
    ensures CompanyName(text).Some? ==> var name := CompanyName(text).value;
      && (exists i :: LiteralAt(text, i, name + OPEN_MARKER))
      && forall j :: 1 <= j < |name| ==> !LiteralAt(name + OPEN_MARKER, j, OPEN_MARKER)
  {
    if CompanyName(text).Some? {
      var name := CompanyName(text).value;
      var i := SearchIsLazy(text, "", OPEN_MARKER);
      assert "" + name == name;
    }
  }

  /** The subscription ratio follows "Sub:" and ends just before a ")", and
      no ")" occurs in it after its first character: the capture ends at the
      first ")" at least one character after "Sub:". */
  lemma SubscriptionRatioStopsAtFirstParen(text: string)
    ensures SubscriptionRatio(text).Some? ==> var ratio := SubscriptionRatio(text).value;
      && (exists i :: LiteralAt(text, i, SUB_MARKER + ratio + SUB_END))
      && ')' !in ratio[1..]
  {
    if SubscriptionRatio(text).Some? {
      var i := SearchIsLazy(text, SUB_MARKER, SUB_END);
      NoCloseAfterFirst(SubscriptionRatio(text).value);
    }
  }

  /** A run that ")" does not follow at any position after the first has no
      ")" after its first character. */
  lemma NoCloseAfterFirst(ratio: string)
    requires |ratio| >= 1
    requires forall j :: 1 <= j < |ratio| ==> !LiteralAt(ratio + SUB_END, j, SUB_END)
    ensures ')' !in ratio[1..]
  {
    forall j | 0 <= j < |ratio[1..]| ensures ratio[1..][j] != ')' {
      assert LiteralAt(ratio + SUB_END, j + 1, SUB_END) <==> ratio[j + 1] == ')';
    }
  }

  // Concrete cases of the newline and laziness rules

  /** A newline stops the lazy capture: in "X\nYOpen" no run may cross the
      newline, so the name is "Y", not "X\nY". */
  lemma CompanyNameSkipsNewline(t: string)
    requires |t| == 7 && t[0] == 'X' && t[1] == '\n' && t[2] == 'Y' && t[3..7] == OPEN_MARKER
    ensures CompanyName(t) == Some("Y")
  {
    assert LiteralAt(t, 2, "" + "Y" + OPEN_MARKER) by {
      assert t[2..7] == [t[2]] + t[3..7];
    }
    forall i', run' | 0 <= i' < 2 ensures !Occurs(t, "", OPEN_MARKER, i', run') {
      if Occurs(t, "", OPEN_MARKER, i', run') {
        OccursIsMatch(t, "", OPEN_MARKER, i', run');
      }
    }
    assert FirstOccurrence(t, "", OPEN_MARKER, 2, "Y");
    var i :| FirstOccurrence(t, "", OPEN_MARKER, i, CompanyName(t).value);
    FirstOccurrenceUnique(t, "", OPEN_MARKER, i, CompanyName(t).value, 2, "Y");
  }

  /** A newline between "Sub:" and ")" rules that "Sub:" out: in
      "Sub:1\nSub:2)" the ratio is "2". */
  lemma SubscriptionRatioSkipsNewline(t: string)
    requires |t| == 12 && t[..4] == SUB_MARKER && t[4] == '1' && t[5] == '\n'
    requires t[6..10] == SUB_MARKER && t[10] == '2' && t[11] == ')'
    ensures SubscriptionRatio(t) == Some("2")
  {
    assert LiteralAt(t, 6, SUB_MARKER + "2" + SUB_END) by {
      assert t[6..12] == t[6..10] + [t[10]] + [t[11]];
    }
    forall i', run' | 0 <= i' < 6 ensures !Occurs(t, SUB_MARKER, SUB_END, i', run') {
      if Occurs(t, SUB_MARKER, SUB_END, i', run') {
        OccursIsMatch(t, SUB_MARKER, SUB_END, i', run');
      }
    }
    assert FirstOccurrence(t, SUB_MARKER, SUB_END, 6, "2");
    var i :| FirstOccurrence(t, SUB_MARKER, SUB_END, i, SubscriptionRatio(t).value);
    FirstOccurrenceUnique(t, SUB_MARKER, SUB_END, i, SubscriptionRatio(t).value, 6, "2");
  }

  /** The lazy capture may itself start with ")": in "Sub:))" the ratio is
      ")", ended by the second ")". */
  lemma SubscriptionRatioMayStartWithParen(t: string)
    requires t == SUB_MARKER + ")" + SUB_END
    ensures SubscriptionRatio(t) == Some(")")
  {
  }
}
