/**
 * The few Python 2 string operations the demultiplexer relies on:
 * `strip()`, `split(sep)` with a one-character separator, `split()` with no
 * argument, and slicing a prefix (`s[:n]`). `Occurrences` is not one of
 * them: it only states how many separators a text holds.
 */
module Text {

  /**
   * The two Python 2 string types. Read headers are `unicode` (the program
   * decodes every FASTQ line); the lines of the barcode table are `str`.
   */
  datatype Kind = Bytes | Unicode

  /** Whitespace as Python 2's `str` methods see it. */
  predicate IsAsciiSpace(c: char) {
    c == ' ' || c == '\t' || c == '\n' || c == '\r' || c == '\U{B}' || c == '\U{C}'
  }

  /**
   * The further characters Python 2's `unicode.strip()` and
   * `unicode.split()` treat as whitespace: the four information separators
   * U+001C to U+001F, and the Unicode 5.2 space and line/paragraph
   * separators.
   */
  predicate IsWideSpace(c: char) {
    ('\U{1C}' <= c <= '\U{1F}') || c == '\U{85}' || c == '\U{A0}' || c == '\U{1680}' || c == '\U{180E}' ||
    ('\U{2000}' <= c <= '\U{200A}') || c == '\U{2028}' || c == '\U{2029}' || c == '\U{202F}' ||
    c == '\U{205F}' || c == '\U{3000}'
  }

  /** Whitespace for strings of the given kind. */
  predicate IsSpace(c: char, kind: Kind) {
    IsAsciiSpace(c) || (kind == Unicode && IsWideSpace(c))
  }

  predicate AllSpace(s: string, kind: Kind) {
    forall k | 0 <= k < |s| :: IsSpace(s[k], kind)
  }

  predicate NoSpace(s: string, kind: Kind) {
    forall k | 0 <= k < |s| :: !IsSpace(s[k], kind)
  }

  // ---------------------------------------------------------------- strip()

  /** Drops leading whitespace. */
  function TrimLeft(s: string, kind: Kind): (r: string)
    ensures |r| <= |s|
    decreases |s|
  {
    if |s| > 0 && IsSpace(s[0], kind) then TrimLeft(s[1..], kind) else s
  }

  /** Drops trailing whitespace. */
  function TrimRight(s: string, kind: Kind): (r: string)
    ensures |r| <= |s|
    decreases |s|
  {
    if |s| > 0 && IsSpace(s[|s| - 1], kind) then TrimRight(s[..|s| - 1], kind) else s
  }

  /** Python's `s.strip()`. */
  function Strip(s: string, kind: Kind): string {
    TrimRight(TrimLeft(s, kind), kind)
  }

  /** What `TrimLeft` keeps is a suffix starting with a non-blank; what it drops is blank. */
  lemma {:induction false} TrimLeftSpec(s: string, kind: Kind)
    ensures var r := TrimLeft(s, kind);
      r == s[|s| - |r|..] && AllSpace(s[..|s| - |r|], kind) && (r == [] || !IsSpace(r[0], kind))
    decreases |s|
  {
    if |s| > 0 && IsSpace(s[0], kind) {
      TrimLeftSpec(s[1..], kind);
      var r := TrimLeft(s, kind);
      assert r == s[1..][|s| - 1 - |r|..];
      forall k | 0 <= k < |s| - |r| ensures IsSpace(s[k], kind) {
        if k > 0 { assert s[k] == s[1..][..|s| - 1 - |r|][k - 1]; }
      }
    }
  }

  /** What `TrimRight` keeps is a prefix ending with a non-blank; what it drops is blank. */
  lemma {:induction false} TrimRightSpec(s: string, kind: Kind)
    ensures var r := TrimRight(s, kind);
      r == s[..|r|] && AllSpace(s[|r|..], kind) && (r == [] || !IsSpace(r[|r| - 1], kind))
    decreases |s|
  {
    if |s| > 0 && IsSpace(s[|s| - 1], kind) {
      var t := s[..|s| - 1];
      TrimRightSpec(t, kind);
      var r := TrimRight(s, kind);
      assert r == t[..|r|];
      forall k | |r| <= k < |s| ensures IsSpace(s[k], kind) {
        if k < |s| - 1 { assert s[k] == t[|r|..][k - |r|]; }
      }
    }
  }

  /**
   * `strip()` removes exactly the blanks at both ends: the result is the
   * infix `s[i..i + |r|]`, everything outside it is blank, and the result
   * neither starts nor ends with a blank.
   */
  lemma StripSpec(s: string, kind: Kind, i: nat)
    requires i == |s| - |TrimLeft(s, kind)|
    ensures var r := Strip(s, kind);
      i + |r| <= |s| && r == s[i..i + |r|] && AllSpace(s[..i], kind) && AllSpace(s[i + |r|..], kind) &&
      (r == [] || (!IsSpace(r[0], kind) && !IsSpace(r[|r| - 1], kind)))
  {
    var t := TrimLeft(s, kind);
    TrimLeftSpec(s, kind);
    TrimRightSpec(t, kind);
    var r := Strip(s, kind);
    assert r == t[..|r|];
    assert t == s[i..];
    forall k | i + |r| <= k < |s| ensures IsSpace(s[k], kind) {
      assert s[k] == t[|r|..][k - i - |r|];
    }
  }

  /** Stripping a string that starts and ends with non-blanks, followed by blanks only, gives it back. */
  lemma {:induction false} StripPadded(s: string, pad: string, kind: Kind)
    requires s == [] || (!IsSpace(s[0], kind) && !IsSpace(s[|s| - 1], kind))
    requires AllSpace(pad, kind)
    ensures Strip(s + pad, kind) == s
  {
    if s == [] {
      assert s + pad == pad;
      TrimLeftBlank(pad, kind);
    } else {
      assert TrimLeft(s + pad, kind) == s + pad;
      TrimRightPadded(s, pad, kind);
    }
  }

  /** Stripping text that starts and ends with non-blanks, with blanks around it, gives the text back. */
  lemma StripBoth(pre: string, s: string, post: string, kind: Kind)
    requires s != [] && !IsSpace(s[0], kind) && !IsSpace(s[|s| - 1], kind)
    requires AllSpace(pre, kind) && AllSpace(post, kind)
    ensures Strip(pre + s + post, kind) == s
  {
    assert pre + s + post == pre + (s + post);
    assert (s + post)[0] == s[0];
    TrimLeftPadded(pre, s + post, kind);
    TrimRightPadded(s, post, kind);
  }

  lemma {:induction false} TrimLeftBlank(s: string, kind: Kind)
    requires AllSpace(s, kind)
    ensures TrimLeft(s, kind) == []
    decreases |s|
  {
    if s != [] {
      assert AllSpace(s[1..], kind) by {
        forall k | 0 <= k < |s| - 1 ensures IsSpace(s[1..][k], kind) { assert s[1..][k] == s[k + 1]; }
      }
      TrimLeftBlank(s[1..], kind);
    }
  }

  /** Leading blanks before text that starts with a non-blank are dropped, and nothing else. */
  lemma {:induction false} TrimLeftPadded(pad: string, s: string, kind: Kind)
    requires AllSpace(pad, kind)
    requires s == [] || !IsSpace(s[0], kind)
    ensures TrimLeft(pad + s, kind) == s
    decreases |pad|
  {
    if pad == [] {
      assert pad + s == s;
    } else {
      assert (pad + s)[1..] == pad[1..] + s;
      assert AllSpace(pad[1..], kind) by {
        forall k | 0 <= k < |pad| - 1 ensures IsSpace(pad[1..][k], kind) { assert pad[1..][k] == pad[k + 1]; }
      }
      TrimLeftPadded(pad[1..], s, kind);
    }
  }

  lemma {:induction false} TrimRightPadded(s: string, pad: string, kind: Kind)
    requires s != [] && !IsSpace(s[|s| - 1], kind)
    requires AllSpace(pad, kind)
    ensures TrimRight(s + pad, kind) == s
    decreases |pad|
  {
    if pad == [] {
      assert s + pad == s;
    } else {
      var p := pad[..|pad| - 1];
      assert (s + pad)[..|s + pad| - 1] == s + p;
      assert IsSpace((s + pad)[|s + pad| - 1], kind);
      assert AllSpace(p, kind) by {
        forall k | 0 <= k < |p| ensures IsSpace(p[k], kind) { assert p[k] == pad[k]; }
      }
      TrimRightPadded(s, p, kind);
    }
  }

  // ------------------------------------------------------------ split(sep)

  /**
   * Python's `s.split(sep)` for a one-character separator. It is defined from
   * the back: the last character either closes the last piece with a new,
   * empty one (a separator) or extends the last piece.
   */
  function Split(s: string, sep: char): (parts: seq<string>)
    ensures |parts| >= 1
    decreases |s|
  {
    if s == [] then [""]
    else
      var init := Split(s[..|s| - 1], sep);
      var c := s[|s| - 1];
      if c == sep then init + [""]
      else init[..|init| - 1] + [init[|init| - 1] + [c]]
  }

  /** No piece of a split holds the separator. */
  lemma {:induction false} SplitPieces(s: string, sep: char)
    ensures forall k | 0 <= k < |Split(s, sep)| :: sep !in Split(s, sep)[k]
    decreases |s|
  {
    if s != [] {
      SplitPieces(s[..|s| - 1], sep);
    }
  }

  /** The inverse of `Split`: Python's `sep.join(parts)`. */
  function Join(parts: seq<string>, sep: char): string
    requires |parts| >= 1
    decreases |parts|
  {
    if |parts| == 1 then parts[0]
    else Join(parts[..|parts| - 1], sep) + [sep] + parts[|parts| - 1]
  }

  /** Splitting and joining back gives the original text. */
  lemma {:induction false} JoinSplit(s: string, sep: char)
    ensures Join(Split(s, sep), sep) == s
    decreases |s|
  {
    if s != [] {
      var t := s[..|s| - 1];
      var c := s[|s| - 1];
      var init := Split(t, sep);
      JoinSplit(t, sep);
      assert s == t + [c];
      if c == sep {
        assert (init + [""])[..|init|] == init;
      } else if |init| == 1 {
        assert Split(s, sep) == [init[0] + [c]];
      } else {
        var parts := Split(s, sep);
        var n := |init|;
        assert parts[..n - 1] == init[..n - 1];
        assert Join(init, sep) == Join(init[..n - 1], sep) + [sep] + init[n - 1];
      }
    }
  }

  /** A separator at the end opens a new, empty piece. */
  lemma SplitSep(t: string, sep: char)
    ensures Split(t + [sep], sep) == Split(t, sep) + [""]
  {
    assert (t + [sep])[..|t|] == t;
  }

  /** Appending separator-free text extends the last piece and nothing else. */
  lemma {:induction false} SplitAppend(t: string, a: string, sep: char)
    requires sep !in a
    ensures var p := Split(t, sep);
      Split(t + a, sep) == p[..|p| - 1] + [p[|p| - 1] + a]
    decreases |a|
  {
    var p := Split(t, sep);
    if a == [] {
      assert t + a == t;
      assert p[|p| - 1] + a == p[|p| - 1];
      assert p == p[..|p| - 1] + [p[|p| - 1]];
    } else {
      var a' := a[..|a| - 1];
      assert (t + a)[..|t + a| - 1] == t + a';
      SplitAppend(t, a', sep);
      assert p[|p| - 1] + a == p[|p| - 1] + a' + [a[|a| - 1]];
    }
  }

  /** Joining separator-free pieces and splitting again gives the pieces back. */
  lemma {:induction false} SplitJoin(parts: seq<string>, sep: char)
    requires |parts| >= 1
    requires forall k | 0 <= k < |parts| :: sep !in parts[k]
    ensures Split(Join(parts, sep), sep) == parts
    decreases |parts|
  {
    var n := |parts|;
    if n == 1 {
      SplitAppend([], parts[0], sep);
      assert [] + parts[0] == parts[0];
    } else {
      var init, last := parts[..n - 1], parts[n - 1];
      forall k | 0 <= k < n - 1 ensures sep !in init[k] {
        assert init[k] == parts[k];
      }
      assert parts == init + [last];
      SplitJoin(init, sep);
      SplitJoinStep(init, last, sep);
    }
  }

  lemma SplitJoinStep(init: seq<string>, last: string, sep: char)
    requires |init| >= 1 && sep !in last
    requires Split(Join(init, sep), sep) == init
    ensures Split(Join(init + [last], sep), sep) == init + [last]
  {
    var j := Join(init, sep);
    var parts := init + [last];
    assert parts[..|parts| - 1] == init;
    assert Join(parts, sep) == j + [sep] + last;
    SplitSep(j, sep);
    SplitAppend(j + [sep], last, sep);
    assert (init + [""])[..|init|] == init;
    assert "" + last == last;
  }

  /** How many times `c` occurs in `s`. */
  function Occurrences(s: string, c: char): nat {
    multiset(s)[c]
  }

  /** `split(sep)` yields one more piece than there are separators. */
  lemma {:induction false} SplitCount(s: string, sep: char)
    ensures |Split(s, sep)| == Occurrences(s, sep) + 1
    decreases |s|
  {
    if s != [] {
      var t := s[..|s| - 1];
      assert s == t + [s[|s| - 1]];
      assert multiset(s) == multiset(t) + multiset{s[|s| - 1]};
      SplitCount(t, sep);
    }
  }

  /** The position just after the last `sep` in `s`, or 0 when there is none. */
  function LastCut(s: string, sep: char): (k: nat)
    ensures k <= |s|
    decreases |s|
  {
    if s == [] then 0 else if s[|s| - 1] == sep then |s| else LastCut(s[..|s| - 1], sep)
  }

  /** The text after the last `sep`. */
  function AfterLast(s: string, sep: char): string {
    s[LastCut(s, sep)..]
  }

  /** `AfterLast` is the longest separator-free suffix. */
  lemma {:induction false} AfterLastSuffix(s: string, sep: char)
    ensures var r := AfterLast(s, sep);
      |r| <= |s| && r == s[|s| - |r|..] && (forall j | |s| - |r| <= j < |s| :: s[j] != sep) &&
      (|r| == |s| || s[|s| - |r| - 1] == sep)
    decreases |s|
  {
    if s != [] && s[|s| - 1] != sep {
      var t := s[..|s| - 1];
      AfterLastSuffix(t, sep);
      assert LastCut(s, sep) == LastCut(t, sep);
      assert forall j | LastCut(t, sep) <= j < |s| - 1 :: s[j] == t[j];
    }
  }

  /** Python's `s.split(sep)[-1]` is the text after the last separator. */
  lemma {:induction false} LastPiece(s: string, sep: char)
    ensures var p := Split(s, sep); p[|p| - 1] == AfterLast(s, sep)
    decreases |s|
  {
    if s != [] {
      var t := s[..|s| - 1];
      LastPiece(t, sep);
      if s[|s| - 1] != sep {
        assert AfterLast(s, sep) == AfterLast(t, sep) + [s[|s| - 1]];
      }
    }
  }

  // ---------------------------------------------------------------- split()

  /** The longest prefix without whitespace. */
  function Word(s: string, kind: Kind): (w: string)
    ensures |w| <= |s| && w == s[..|w|] && NoSpace(w, kind)
    ensures |w| == |s| || IsSpace(s[|w|], kind)
    ensures s != [] && !IsSpace(s[0], kind) ==> w != []
    decreases |s|
  {
    if s == [] || IsSpace(s[0], kind) then [] else [s[0]] + Word(s[1..], kind)
  }

  /** Python's `s.split()`: the maximal runs of non-whitespace, in order. */
  function Fields(s: string, kind: Kind): seq<string>
    decreases |s|
  {
    var t := TrimLeft(s, kind);
    if t == [] then []
    else
      TrimLeftSpec(s, kind);
      var w := Word(t, kind);
      [w] + Fields(t[|w|..], kind)
  }

  /**
   * The whitespace runs around the fields of `s.split()`: the one before
   * the first field, those between fields, and the one after the last.
   */
  function Gaps(s: string, kind: Kind): (g: seq<string>)
    ensures |g| == |Fields(s, kind)| + 1
    decreases |s|
  {
    var t := TrimLeft(s, kind);
    var lead := s[..|s| - |t|];
    if t == [] then [s]
    else
      TrimLeftSpec(s, kind);
      var w := Word(t, kind);
      [lead] + Gaps(t[|w|..], kind)
  }

  /** `gaps[0] + words[0] + gaps[1] + ... + words[n - 1] + gaps[n]`. */
  function Weave(gaps: seq<string>, words: seq<string>): string
    requires |gaps| == |words| + 1
    decreases |words|
  {
    if words == [] then gaps[0] else gaps[0] + words[0] + Weave(gaps[1..], words[1..])
  }

  /**
   * `s` laid out as the `words`, separated by the `gaps`: the words are
   * non-empty and hold no whitespace, the gaps are whitespace, and the gaps
   * between two words are not empty.
   */
  predicate Layout(s: string, gaps: seq<string>, words: seq<string>, kind: Kind) {
    |gaps| == |words| + 1 && s == Weave(gaps, words) &&
    (forall k | 0 <= k < |words| :: words[k] != [] && NoSpace(words[k], kind)) &&
    (forall k | 0 <= k < |gaps| :: AllSpace(gaps[k], kind)) &&
    (forall k | 0 < k < |words| :: gaps[k] != [])
  }

  /** A word followed by whitespace (or nothing) is cut off exactly. */
  lemma {:induction false} WordOf(w: string, rest: string, kind: Kind)
    requires NoSpace(w, kind)
    requires rest == [] || IsSpace(rest[0], kind)
    ensures Word(w + rest, kind) == w
    decreases |w|
  {
    if w != [] {
      assert (w + rest)[1..] == w[1..] + rest;
      WordOf(w[1..], rest, kind);
    } else {
      assert w + rest == rest;
    }
  }

  /** Whitespace alone has no field. */
  lemma FieldsBlank(s: string, kind: Kind)
    requires AllSpace(s, kind)
    ensures Fields(s, kind) == []
  {
    TrimLeftBlank(s, kind);
  }

  /** Blanks, a word, then whitespace or nothing: the word is the first field, the rest give the others. */
  lemma FieldsCons(pad: string, w: string, rest: string, kind: Kind)
    requires AllSpace(pad, kind) && w != [] && NoSpace(w, kind)
    requires rest == [] || IsSpace(rest[0], kind)
    ensures Fields(pad + w + rest, kind) == [w] + Fields(rest, kind)
  {
    var t := w + rest;
    assert pad + w + rest == pad + t;
    TrimLeftPadded(pad, t, kind);
    WordOf(w, rest, kind);
    assert t[|w|..] == rest;
  }

  /** Every layout of words and gaps splits into exactly its words. */
  lemma {:induction false} FieldsOfLayout(s: string, gaps: seq<string>, words: seq<string>, kind: Kind)
    requires Layout(s, gaps, words, kind)
    ensures Fields(s, kind) == words
    decreases |words|
  {
    if words == [] {
      FieldsBlank(gaps[0], kind);
    } else {
      var g, ws := gaps[1..], words[1..];
      var rest := Weave(g, ws);
      assert s == gaps[0] + words[0] + rest;
      if ws != [] {
        assert g[0] == gaps[1] && gaps[1] != [];
        assert rest == g[0] + (ws[0] + Weave(g[1..], ws[1..]));
        assert rest[0] == g[0][0];
      }
      assert AllSpace(gaps[0], kind);
      FieldsCons(gaps[0], words[0], rest, kind);
      forall k | 0 <= k < |ws| ensures ws[k] != [] && NoSpace(ws[k], kind) { assert ws[k] == words[k + 1]; }
      forall k | 0 <= k < |g| ensures AllSpace(g[k], kind) { assert g[k] == gaps[k + 1]; }
      forall k | 0 < k < |ws| ensures g[k] != [] { assert g[k] == gaps[k + 1]; }
      FieldsOfLayout(rest, g, ws, kind);
    }
  }

  /** Text that starts with whitespace has a non-empty leading gap. */
  lemma GapsHead(s: string, kind: Kind)
    requires s != [] && IsSpace(s[0], kind)
    ensures Gaps(s, kind)[0] != []
  {
  }

  /** A blank run and a word in front of a layout make a layout with one more word. */
  lemma LayoutCons(lead: string, w: string, rest: string, gaps: seq<string>, words: seq<string>, kind: Kind)
    requires Layout(rest, gaps, words, kind)
    requires AllSpace(lead, kind) && w != [] && NoSpace(w, kind)
    requires words != [] ==> gaps[0] != []
    ensures Layout(lead + w + rest, [lead] + gaps, [w] + words, kind)
  {
    var g, f := [lead] + gaps, [w] + words;
    assert g[1..] == gaps && f[1..] == words;
    forall k | 0 <= k < |f| ensures f[k] != [] && NoSpace(f[k], kind) {
      if k > 0 { assert f[k] == words[k - 1]; }
    }
    forall k | 0 <= k < |g| ensures AllSpace(g[k], kind) {
      if k > 0 { assert g[k] == gaps[k - 1]; }
    }
    forall k | 0 < k < |f| ensures g[k] != [] {
      assert g[k] == gaps[k - 1];
    }
  }

  /** Every text is laid out as its fields separated by its gaps. */
  lemma {:induction false} LayoutOfFields(s: string, kind: Kind)
    ensures Layout(s, Gaps(s, kind), Fields(s, kind), kind)
    decreases |s|
  {
    var t := TrimLeft(s, kind);
    TrimLeftSpec(s, kind);
    var lead := s[..|s| - |t|];
    if t == [] {
      assert lead == s;
    } else {
      var w := Word(t, kind);
      var rest := t[|w|..];
      LayoutOfFields(rest, kind);
      assert s == lead + w + rest by { assert t == w + rest; assert s == lead + t; }
      if Fields(rest, kind) != [] {
        assert rest != [] by { if rest == [] { FieldsBlank(rest, kind); } }
        GapsHead(rest, kind);
      }
      LayoutCons(lead, w, rest, Gaps(rest, kind), Fields(rest, kind), kind);
    }
  }

  /**
   * `s.split()` returns exactly those words that `s` is laid out as: some
   * gaps separate them in `s` exactly when they are its fields.
   */
  lemma FieldsIffLayout(s: string, words: seq<string>, kind: Kind)
    ensures Fields(s, kind) == words <==> exists gaps :: Layout(s, gaps, words, kind)
  {
    LayoutOfFields(s, kind);
    if gaps :| Layout(s, gaps, words, kind) {
      FieldsOfLayout(s, gaps, words, kind);
    }
  }

  /** Two words with whitespace runs before, between and after them are exactly two fields. */
  lemma TwoFields(w0: string, a: string, w1: string, b: string, w2: string, kind: Kind)
    requires AllSpace(w0, kind) && AllSpace(w1, kind) && w1 != [] && AllSpace(w2, kind)
    requires a != [] && NoSpace(a, kind) && b != [] && NoSpace(b, kind)
    ensures Fields(w0 + a + w1 + b + w2, kind) == [a, b]
  {
    var tail := w1 + b + w2;
    assert w0 + a + w1 + b + w2 == w0 + a + tail;
    assert tail[0] == w1[0];
    FieldsCons(w0, a, tail, kind);
    FieldsCons(w1, b, w2, kind);
    FieldsBlank(w2, kind);
    assert Fields(tail, kind) == [b] + [];
    assert [a] + ([b] + []) == [a, b];
  }

  /** Python's `s[:n]`. */
  function Prefix(s: string, n: nat): (r: string)
    ensures |r| <= n && |r| <= |s| && r == s[..|r|]
    ensures |r| == n || r == s
  {
    if |s| <= n then s else s[..n]
  }
}
