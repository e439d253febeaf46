/**
 * The barcode table: one `sample_id barcode` pair per line, separated by
 * whitespace. Lines without exactly two fields are skipped, and a later line
 * for the same barcode replaces an earlier one.
 */
module SampleTable {
  import opened Wrappers
  import opened Text

  /** The `(barcode, sample_id)` a line contributes, if it has exactly two fields. */
  function Entry(line: string): Option<(string, string)> {
    var fields := Fields(Strip(line, Bytes), Bytes);
    if |fields| == 2 then Some((fields[1], fields[0])) else None
  }

  /** `line` maps `barcode` to something. */
  predicate Defines(line: string, barcode: string) {
    Entry(line).Some? && Entry(line).value.0 == barcode
  }

  /** The loop over the table's lines, folding each entry into the map. */
  function Parse(lines: seq<string>): map<string, string>
    decreases |lines|
  {
    if lines == [] then map[]
    else
      var m := Parse(lines[..|lines| - 1]);
      match Entry(lines[|lines| - 1])
      case None => m
      case Some((barcode, id)) => m[barcode := id]
  }

  /** The table, or the empty map when the path is missing, empty or does not exist (`None`). */
  function Load(table: Option<seq<string>>): (names: map<string, string>)
    ensures table.None? ==> names == map[]
  {
    match table
    case None => map[]
    case Some(lines) => Parse(lines)
  }

  /** The index of the last line that defines `barcode`, or -1 when none does. */
  function LastDefinition(lines: seq<string>, barcode: string): (i: int)
    ensures -1 <= i < |lines|
    ensures i >= 0 ==> Defines(lines[i], barcode)
    ensures forall j | i < j < |lines| :: !Defines(lines[j], barcode)
    decreases |lines|
  {
    if lines == [] then -1
    else if Defines(lines[|lines| - 1], barcode) then |lines| - 1
    else LastDefinition(lines[..|lines| - 1], barcode)
  }

  /**
   * A barcode is in the map exactly when some line defines it, and then it
   * maps to the sample id of the last line that defines it.
   */
  lemma {:induction false} ParseLastWins(lines: seq<string>, barcode: string)
    ensures var i := LastDefinition(lines, barcode);
      (barcode in Parse(lines) <==> i >= 0) &&
      (i >= 0 ==> Parse(lines)[barcode] == Entry(lines[i]).value.1)
    decreases |lines|
  {
    if lines != [] {
      var n := |lines|;
      var init := lines[..n - 1];
      ParseLastWins(init, barcode);
      if !Defines(lines[n - 1], barcode) {
        var i := LastDefinition(init, barcode);
        assert i >= 0 ==> lines[i] == init[i];
      }
    }
  }

  /**
   * A line `sample_id barcode`, with any runs of `str` whitespace before,
   * between and after the two words (a tab and a newline, say), maps the
   * barcode to the sample id.
   */
  lemma LineRoundTrip(w0: string, id: string, w1: string, barcode: string, w2: string)
    requires AllSpace(w0, Bytes) && AllSpace(w1, Bytes) && w1 != [] && AllSpace(w2, Bytes)
    requires id != [] && NoSpace(id, Bytes) && barcode != [] && NoSpace(barcode, Bytes)
    ensures Entry(w0 + id + w1 + barcode + w2) == Some((barcode, id))
  {
    var s := id + w1 + barcode;
    assert w0 + id + w1 + barcode + w2 == w0 + s + w2;
    assert s[0] == id[0] && s[|s| - 1] == barcode[|barcode| - 1];
    StripBoth(w0, s, w2, Bytes);
    TwoFields([], id, w1, barcode, [], Bytes);
    assert [] + id + w1 + barcode + [] == s;
  }

  /**
   * A line contributes exactly when its stripped text is two words with
   * whitespace between them: the sample id first, the barcode second.
   */
  lemma EntryShape(line: string, barcode: string, id: string)
    ensures Entry(line) == Some((barcode, id)) <==>
      exists gaps :: Layout(Strip(line, Bytes), gaps, [id, barcode], Bytes)
  {
    FieldsIffLayout(Strip(line, Bytes), [id, barcode], Bytes);
    var f := Fields(Strip(line, Bytes), Bytes);
    assert |f| == 2 ==> f == [f[0], f[1]];
  }
}
