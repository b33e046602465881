/** Collecting the recipients: from a sheet column (read_recipients_from_excel),
    where only well-formed addresses are kept, or from a comma-separated line
    typed by the user, where nothing is checked. */
module RecipientLoader {
  import opened Wrappers
  import opened Sequences
  import opened Text
  import opened Sheets
  import opened EmailPattern

  /** A cell's trimmed value, when it passes the address pattern. */
  function RecipientOf(value: string): (r: Option<string>)
    ensures r.Some? <==> IsEmail(Strip(value))
    ensures r.Some? ==> r.value == Strip(value)
  {
    StrippedMatch(Strip(value));
    var e := Strip(value);
    if MatchesEmailPattern(e) then Some(e) else None
  }

  /** The recipients of a sheet's column `column`: none when the sheet could
      not be read (None) or has no such column. */
  function RecipientsFrom(source: Option<Table>, column: string): (recipients: seq<string>)
    ensures source.None? ==> recipients == []
    ensures source.Some? && column !in source.value.columns ==> recipients == []
    ensures source.Some? ==> |recipients| <= |source.value.rows|
  {
    match source
    case None => []
    case Some(t) =>
      match ColumnIndex(t, column)
      case None => []
      case Some(c) => FilterMap(RecipientOf, ColumnValues(t, c))
  }

  /** The recipients are exactly the trimmed cell values that are addresses,
      in column order and with repetitions kept. */
  lemma RecipientsFollowCells(values: seq<string>)
    ensures var rs, idx := FilterMap(RecipientOf, values), KeptIndices(RecipientOf, values);
      |idx| == |rs| && StrictlyIncreasing(idx) &&
      (forall p :: 0 <= p < |values| ==> (IsEmail(Strip(values[p])) <==> p in idx)) &&
      (forall k :: 0 <= k < |rs| ==> rs[k] == Strip(values[idx[k]]))
  {
    FilterMapExactly(RecipientOf, values);
    forall p | 0 <= p < |values|
      ensures IsEmail(Strip(values[p])) <==> RecipientOf(values[p]).Some?
    {
      StrippedMatch(Strip(values[p]));
    }
  }

  /** Every recipient taken from a sheet is a trimmed, well-formed address. */
  lemma RecipientsAreAddresses(source: Option<Table>, column: string)
    ensures forall r :: r in RecipientsFrom(source, column) ==> IsEmail(r) && IsStripped(r)
  {
    if source.Some? && ColumnIndex(source.value, column).Some? {
      var values := ColumnValues(source.value, ColumnIndex(source.value, column).value);
      FilterMapElements(RecipientOf, values);
      forall r | r in RecipientsFrom(source, column)
        ensures IsEmail(r) && IsStripped(r)
      {
        var x :| x in values && RecipientOf(x) == Some(r);
        StrippedMatch(Strip(x));
      }
    }
  }

  /** Reading one more value adds its recipient, if it gives one. */
  lemma RecipientsStep(values: seq<string>, i: nat)
    requires i < |values|
    ensures var e := Strip(values[i]);
      FilterMap(RecipientOf, values[..i + 1]) ==
        FilterMap(RecipientOf, values[..i]) + if MatchesEmailPattern(e) then [e] else []
  {
    assert values[..i + 1][..i] == values[..i];
  }

  /** The loader: walk the column, trim each value, keep the ones that match. */
  method ReadRecipients(source: Option<Table>, column: string) returns (recipients: seq<string>)
    ensures recipients == RecipientsFrom(source, column)
    ensures source.Some? && column !in source.value.columns ==> recipients == []
    ensures forall r :: r in recipients ==> IsEmail(r) && IsStripped(r)
  {
    RecipientsAreAddresses(source, column);
    if source.None? {
      return [];
    }
    var t := source.value;
    var c := ColumnIndex(t, column);
    if c.None? {
      return [];
    }
    var values := ColumnValues(t, c.value);
    recipients := [];
    var i := 0;
    while i < |values|
      invariant 0 <= i <= |values|
      invariant recipients == FilterMap(RecipientOf, values[..i])
    {
      var email := Strip(values[i]);
      RecipientsStep(values, i);
      if MatchesEmailPattern(email) {
        recipients := recipients + [email];
      }
      i := i + 1;
    }
    assert values[..i] == values;
  }

  /** A typed piece, trimmed, unless it is blank. */
  function NonBlank(piece: string): Option<string>
  {
    var e := Strip(piece);
    if e != [] then Some(e) else None
  }

  /** The recipients typed by hand: the comma-separated pieces, trimmed, with
      the blank ones dropped; no address check is made. */
  function ManualRecipients(input: string): seq<string>
  {
    FilterMap(NonBlank, Split(input, ','))
  }

  /** Each hand-typed recipient is a non-blank piece between commas, trimmed,
      in typing order; every non-blank piece gives one. */
  lemma ManualRecipientsFollowPieces(input: string)
    ensures var pieces := Split(input, ',');
      var rs, idx := ManualRecipients(input), KeptIndices(NonBlank, pieces);
      Join(pieces, ',') == input &&
      |idx| == |rs| && StrictlyIncreasing(idx) &&
      (forall p :: 0 <= p < |pieces| ==> (!AllSpace(pieces[p]) <==> p in idx)) &&
      (forall k :: 0 <= k < |rs| ==> rs[k] == Strip(pieces[idx[k]]))
  {
    JoinSplit(input, ',');
    FilterMapExactly(NonBlank, Split(input, ','));
  }

  /** Every hand-typed recipient is non-empty, has no surrounding whitespace
      and no comma. */
  lemma ManualRecipientsClean(input: string)
    ensures forall r :: r in ManualRecipients(input) ==> r != [] && IsStripped(r) && ',' !in r
  {
    var pieces := Split(input, ',');
    FilterMapElements(NonBlank, pieces);
    forall r | r in ManualRecipients(input)
      ensures r != [] && IsStripped(r) && ',' !in r
    {
      var x :| x in pieces && NonBlank(x) == Some(r);
      StripAddsNothing(x, ',');
    }
  }

  lemma NonBlankPair(a: string, b: string)
    requires a != [] && IsStripped(a)
    requires b != [] && IsStripped(b)
    ensures FilterMap(NonBlank, [a, " " + b]) == [a, b]
  {
    var b' := " " + b;
    assert NonBlank(a) == Some(a) by {
      StripKeepsStripped(a);
    }
    assert NonBlank(b') == Some(b) by {
      assert IsTrimmedAt(b', b, 1);
      StripUnique(b', b);
    }
    FilterMapPair(NonBlank, a, b');
  }

  /** Typing "a, b" gives [a, b] for any two non-empty, comma-free, trimmed
      pieces, whether or not they are addresses: "a@b.com, not-valid" yields
      both of its pieces. */
  lemma ManualRecipientsUnchecked(a: string, b: string)
    requires a != [] && IsStripped(a) && ',' !in a
    requires b != [] && IsStripped(b) && ',' !in b
    ensures ManualRecipients(a + ", " + b) == [a, b]
  {
    assert a + ", " + b == a + [','] + (" " + b);
    SplitPair(a, " " + b, ',');
    NonBlankPair(a, b);
  }
}
