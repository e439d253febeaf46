/**
 * `get_sample_id`: the barcode in the Read 1 header, and the sample it
 * names. The expected header ends in `1:N:0:BARCODE1+BARCODE2`.
 */
module Barcode {
  import opened Wrappers
  import opened Text
  import opened Fastq

  /** Returned when the barcode token cannot be unpacked into two indexes. */
  const Unknown: string := "unknown_barcode_format"

  /**
   * The raw barcode token: the stripped header's last `' '`-field, then
   * that field's last `':'`-field (`header.strip().split(' ')[-1].split(':')[-1]`).
   */
  function Token(header: string): string {
    LastField(Strip(header, Unicode))
  }

  /** `s.split(' ')[-1].split(':')[-1]` */
  function LastField(s: string): string {
    var info := Split(s, ' ');
    var pieces := Split(info[|info| - 1], ':');
    pieces[|pieces| - 1]
  }

  predicate IsSeparator(c: char) {
    c == ' ' || c == ':'
  }

  /** `t` is the longest suffix of `s` that holds no `' '` and no `':'`. */
  predicate IsLastToken(t: string, s: string) {
    |t| <= |s| && t == s[|s| - |t|..] &&
    (forall j | |s| - |t| <= j < |s| :: !IsSeparator(s[j])) &&
    (|t| == |s| || IsSeparator(s[|s| - |t| - 1]))
  }

  /** The token is the text after the last colon of the text after the last space. */
  lemma LastFieldAfterLast(s: string)
    ensures LastField(s) == AfterLast(AfterLast(s, ' '), ':')
  {
    LastPiece(s, ' ');
    LastFieldOf(s, AfterLast(s, ' '));
  }

  lemma LastFieldOf(s: string, info: string)
    requires var p := Split(s, ' '); p[|p| - 1] == info
    ensures LastField(s) == AfterLast(info, ':')
  {
    LastPiece(info, ':');
  }

  /** The token is exactly the text after the last space or colon of the stripped header. */
  lemma TokenIsLastToken(header: string)
    ensures IsLastToken(Token(header), Strip(header, Unicode))
  {
    LastFieldIsLastToken(Strip(header, Unicode));
  }

  lemma LastFieldIsLastToken(s: string)
    ensures IsLastToken(LastField(s), s)
  {
    AfterLastTwice(s);
    LastFieldAfterLast(s);
  }

  lemma AfterLastTwice(s: string)
    ensures IsLastToken(AfterLast(AfterLast(s, ' '), ':'), s)
  {
    var info := AfterLast(s, ' ');
    var t := AfterLast(info, ':');
    AfterLastSuffix(s, ' ');
    AfterLastSuffix(info, ':');
    NestedSuffix(s, info, t);
  }

  /** A `':'`-free suffix of a `' '`-free suffix, each maximal, is the last token. */
  lemma NestedSuffix(s: string, info: string, t: string)
    requires |info| <= |s| && info == s[|s| - |info|..]
    requires forall j | |s| - |info| <= j < |s| :: s[j] != ' '
    requires |info| == |s| || s[|s| - |info| - 1] == ' '
    requires |t| <= |info| && t == info[|info| - |t|..]
    requires forall j | |info| - |t| <= j < |info| :: info[j] != ':'
    requires |t| == |info| || info[|info| - |t| - 1] == ':'
    ensures IsLastToken(t, s)
  {
    var d := |s| - |info|;
    var e := |info| - |t|;
    assert t == s[d + e..] by {
      assert s[d..][e..] == s[d + e..];
    }
    forall j | d + e <= j < |s| ensures !IsSeparator(s[j]) {
      assert s[j] == info[j - d];
    }
    if |t| != |s| {
      if |t| == |info| {
        assert IsSeparator(s[d - 1]);
      } else {
        assert s[d + e - 1] == info[e - 1];
      }
    }
  }

  /** A suffix with the shape of the last token is the last token. */
  lemma LastTokenUnique(t: string, u: string, s: string)
    requires IsLastToken(t, s) && IsLastToken(u, s)
    ensures t == u
  {
  }

  /**
   * The barcode in a header: with one `'+'` in the token, the first eight
   * characters of each index, concatenated; with none, the token itself.
   * With more than one `'+'`, unpacking into two indexes raises ValueError
   * and there is no barcode (`None`).
   */
  function SampleBarcode(header: string): Option<string> {
    var tok := Token(header);
    if '+' in tok then
      var halves := Split(tok, '+');
      if |halves| == 2 then Some(Prefix(halves[0], 8) + Prefix(halves[1], 8)) else None
    else Some(tok)
  }

  /** There is no barcode exactly when the token holds two or more `'+'`. */
  lemma MalformedIffManyPlus(header: string)
    ensures SampleBarcode(header) == None <==> Occurrences(Token(header), '+') >= 2
  {
    var tok := Token(header);
    SplitCount(tok, '+');
    assert '+' in tok <==> Occurrences(tok, '+') > 0;
  }

  /** Without `'+'`, the barcode is the raw token. */
  lemma SingleIndex(header: string)
    requires Occurrences(Token(header), '+') == 0
    ensures SampleBarcode(header) == Some(Token(header))
  {
    assert '+' !in Token(header);
  }

  /** With one `'+'` between two indexes, the barcode is eight characters of each, at most sixteen. */
  lemma DualIndex(header: string, index1: string, index2: string)
    requires Token(header) == index1 + "+" + index2
    requires '+' !in index1 && '+' !in index2
    ensures SampleBarcode(header) == Some(Prefix(index1, 8) + Prefix(index2, 8))
    ensures |SampleBarcode(header).value| <= 16
  {
    var tok := Token(header);
    assert Join([index1, index2], '+') == tok by {
      assert [index1, index2][..1] == [index1];
    }
    SplitJoin([index1, index2], '+');
    assert tok[|index1|] == '+';
  }

  /** `sample_names.get(barcode, barcode)`. */
  function Lookup(names: map<string, string>, barcode: string): string {
    if barcode in names then names[barcode] else barcode
  }

  /**
   * `get_sample_id`: the sample named by the barcode of the Read 1 header,
   * the barcode itself when the table does not name it, and `Unknown`,
   * never looked up, when the header carries no barcode.
   */
  function SampleId(r1: Record, names: map<string, string>): string {
    match SampleBarcode(r1.header)
    case None => Unknown
    case Some(b) => Lookup(names, b)
  }

  /**
   * A token with two or more `'+'` gives `Unknown`; one without `'+'` is
   * looked up as it is; with one `'+'` the two eight-character indexes are
   * looked up. A found name is the table's; otherwise the barcode itself.
   */
  lemma SampleIdSpec(r1: Record, names: map<string, string>)
    ensures Occurrences(Token(r1.header), '+') >= 2 ==> SampleId(r1, names) == Unknown
    ensures Occurrences(Token(r1.header), '+') == 0 ==>
      SampleId(r1, names) == Lookup(names, Token(r1.header))
    ensures Occurrences(Token(r1.header), '+') == 1 ==>
      var halves := Split(Token(r1.header), '+');
      |halves| == 2 &&
      var b := Prefix(halves[0], 8) + Prefix(halves[1], 8);
      |b| <= 16 && SampleId(r1, names) == (if b in names then names[b] else b)
  {
    var tok := Token(r1.header);
    MalformedIffManyPlus(r1.header);
    SplitCount(tok, '+');
    assert '+' in tok <==> Occurrences(tok, '+') > 0;
  }

  /**
   * A header `prefix + t + pad`, with `pad` blank (a line terminator, say),
   * whose prefix is empty or ends in a space or colon, with no blank at its
   * start and none, nor any space or colon, in `t`, has token `t`.
   */
  lemma HeaderToken(header: string, prefix: string, t: string, pad: string)
    requires header == prefix + t + pad && AllSpace(pad, Unicode)
    requires prefix == [] || (!IsSpace(prefix[0], Unicode) && IsSeparator(prefix[|prefix| - 1]))
    requires t != [] && forall k | 0 <= k < |t| :: !IsSeparator(t[k]) && !IsSpace(t[k], Unicode)
    ensures Token(header) == t
  {
    var h := prefix + t;
    TokenShape(prefix, t);
    assert header == h + pad;
    StripPadded(h, pad, Unicode);
    TokenIsLastToken(header);
    LastTokenUnique(Token(header), t, h);
  }

  lemma TokenShape(prefix: string, t: string)
    requires prefix == [] || (!IsSpace(prefix[0], Unicode) && IsSeparator(prefix[|prefix| - 1]))
    requires t != [] && forall k | 0 <= k < |t| :: !IsSeparator(t[k]) && !IsSpace(t[k], Unicode)
    ensures var h := prefix + t; !IsSpace(h[0], Unicode) && !IsSpace(h[|h| - 1], Unicode) && IsLastToken(t, h)
  {
    var h := prefix + t;
    assert h[|h| - 1] == t[|t| - 1];
    if prefix == [] {
      assert h == t;
    } else {
      assert h[0] == prefix[0];
      assert h[|h| - |t| - 1] == prefix[|prefix| - 1];
    }
    assert h[|h| - |t|..] == t;
    forall j | |h| - |t| <= j < |h| ensures !IsSeparator(h[j]) {
      assert h[j] == t[j - |prefix|];
    }
  }

  /** The example header `@x 1:N:0:AAAAAAAA+CCCCCCCC` gives `AAAAAAAACCCCCCCC`. */
  lemma DualIndexExample(header: string)
    requires header == "@x 1:N:0:AAAAAAAA+CCCCCCCC\n"
    ensures SampleBarcode(header) == Some("AAAAAAAACCCCCCCC")
  {
    var t := "AAAAAAAA+CCCCCCCC";
    assert header == "@x 1:N:0:" + t + "\n";
    HeaderToken(header, "@x 1:N:0:", t, "\n");
    DualIndexExampleBarcode(header, "AAAAAAAA", "CCCCCCCC");
  }

  lemma DualIndexExampleBarcode(header: string, a: string, b: string)
    requires a == "AAAAAAAA" && b == "CCCCCCCC"
    requires Token(header) == a + "+" + b
    ensures SampleBarcode(header) == Some("AAAAAAAACCCCCCCC")
  {
    DualIndex(header, a, b);
    assert Prefix(a, 8) + Prefix(b, 8) == "AAAAAAAACCCCCCCC";
  }

  /** The example header `@x 1:N:0:AAAAAAAA` gives `AAAAAAAA`. */
  lemma SingleIndexExample(header: string)
    requires header == "@x 1:N:0:AAAAAAAA\n"
    ensures SampleBarcode(header) == Some("AAAAAAAA")
  {
    var t := "AAAAAAAA";
    assert header == "@x 1:N:0:" + t + "\n";
    HeaderToken(header, "@x 1:N:0:", t, "\n");
    assert '+' !in t;
  }

  /**
   * The header is `unicode`, so the information separator U+001F at its end
   * is stripped like a blank and is not part of the barcode.
   */
  lemma UnitSeparatorExample(header: string)
    requires header == "@x 1:N:0:ACGT\U{1F}\n"
    ensures SampleBarcode(header) == Some("ACGT")
  {
    var t := "ACGT";
    var pad := "\U{1F}\n";
    assert header == "@x 1:N:0:" + t + pad;
    assert AllSpace(pad, Unicode) by { assert IsWideSpace(pad[0]) && IsAsciiSpace(pad[1]); }
    HeaderToken(header, "@x 1:N:0:", t, pad);
    assert '+' !in t;
  }

  /** A header without space or colon is its own barcode, not `Unknown`. */
  lemma BareHeaderExample(header: string)
    requires header == "@x\n"
    ensures SampleBarcode(header) == Some("@x")
  {
    var t := "@x";
    assert header == [] + t + "\n";
    HeaderToken(header, [], t, "\n");
    assert '+' !in t;
  }

  /** A token with two `'+'` has no barcode, and its pair goes to `Unknown`. */
  lemma ManyPlusExample(r1: Record, names: map<string, string>)
    requires r1.header == "@x 1:N:0:A+C+G\n"
    ensures SampleBarcode(r1.header) == None
    ensures SampleId(r1, names) == Unknown
  {
    var t := "A+C+G";
    assert r1.header == "@x 1:N:0:" + t + "\n";
    HeaderToken(r1.header, "@x 1:N:0:", t, "\n");
    ManyPlusCount(Token(r1.header));
    MalformedIffManyPlus(r1.header);
    SampleIdSpec(r1, names);
  }

  lemma ManyPlusCount(t: string)
    requires t == "A+C+G"
    ensures Occurrences(t, '+') == 2
  {
    assert t == ['A'] + ['+'] + ['C'] + ['+'] + ['G'];
  }
}
