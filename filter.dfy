/**
 * The text filters the renderer registers with its templates (internal/build/filter.go).
 * Go's regular expressions are replaced by hand-written scanners, one per fixed pattern:
 *   paraPattern          (\n|\r|\r\n)\s*        -> ParaSplit
 *   multiNewlinePattern  (\r\n|\r|\n){2,}       -> BreakRunSplit
 *   spacePattern         ( )+                   -> CollapseSpaces
 *   specialCharsPattern  [^a-zA-Z0-9_-]         -> ReplaceSpecial
 */
module Filter {
  import opened Strings
  import opened Wrappers

  // ---------------------------------------------------------------------------
  // AnchorFilter
  // ---------------------------------------------------------------------------

  /** The characters specialCharsPattern leaves alone. */
  predicate IsWordChar(c: char) {
    ('a' <= c <= 'z') || ('A' <= c <= 'Z') || ('0' <= c <= '9') || c == '_' || c == '-'
  }

  /** The alphabet of an anchor. */
  predicate IsAnchorChar(c: char) {
    ('a' <= c <= 'z') || ('0' <= c <= '9') || c == '_' || c == '-'
  }

  /** `strings.ReplaceAll(s, "/", "_")`. */
  function ReplaceSlash(s: string): (r: string)
    ensures |r| == |s|
  {
    seq(|s|, i requires 0 <= i < |s| => if s[i] == '/' then '_' else s[i])
  }

  /** `specialCharsPattern.ReplaceAllString(s, "-")`: each character outside the class becomes one '-'. */
  function ReplaceSpecial(s: string): (r: string)
    ensures |r| == |s|
  {
    seq(|s|, i requires 0 <= i < |s| => if IsWordChar(s[i]) then s[i] else '-')
  }

  /** `strings.ToLower` on ASCII text (the only text it is given here). */
  function ToLowerAscii(s: string): (r: string)
    ensures |r| == |s|
  {
    seq(|s|, i requires 0 <= i < |s| => if 'A' <= s[i] <= 'Z' then (s[i] as int + 32) as char else s[i])
  }

  /** Turns a name into a URL-friendly anchor. */
  function AnchorFilter(str: string): (r: string)
    ensures |r| == |str|
    ensures forall i :: 0 <= i < |r| ==> IsAnchorChar(r[i])
  {
    ToLowerAscii(ReplaceSpecial(ReplaceSlash(str)))
  }

  /** What AnchorFilter does to one character, stated on its own. */
  function AnchorChar(c: char): char {
    if c == '/' then '_'
    else if 'A' <= c <= 'Z' then (c as int + 32) as char
    else if IsWordChar(c) then c
    else '-'
  }

  lemma AnchorFilterPointwise(str: string)
    ensures forall i :: 0 <= i < |str| ==> AnchorFilter(str)[i] == AnchorChar(str[i])
  {
  }

  lemma AnchorFilterIdempotent(str: string)
    ensures AnchorFilter(AnchorFilter(str)) == AnchorFilter(str)
  {
    var a := AnchorFilter(str);
    assert forall i :: 0 <= i < |a| ==> AnchorFilter(a)[i] == a[i];
  }

  // ---------------------------------------------------------------------------
  // PFilter, ParaFilter: split at paraPattern
  // ---------------------------------------------------------------------------

  predicate IsLineBreak(c: char) {
    c == '\n' || c == '\r'
  }

  /** RE2's `\s`: tab, newline, form feed, carriage return, space. */
  predicate IsSpace(c: char) {
    c == '\t' || c == '\n' || c as int == 0x0C || c == '\r' || c == ' '
  }

  predicate HasLineBreak(s: string) {
    exists i :: 0 <= i < |s| && IsLineBreak(s[i])
  }

  /** The first index at or after `from` holding a line break, or |s|. */
  function BreakIndex(s: string, from: nat): (i: nat)
    requires from <= |s|
    ensures from <= i <= |s|
    ensures i < |s| ==> IsLineBreak(s[i])
    ensures forall k :: from <= k < i ==> !IsLineBreak(s[k])
    decreases |s| - from
  {
    if from == |s| || IsLineBreak(s[from]) then from else BreakIndex(s, from + 1)
  }

  /** The first index at or after `from` not holding `\s`, or |s|. */
  function SpaceEnd(s: string, from: nat): (i: nat)
    requires from <= |s|
    ensures from <= i <= |s|
    ensures i < |s| ==> !IsSpace(s[i])
    ensures forall k :: from <= k < i ==> IsSpace(s[k])
    decreases |s| - from
  {
    if from == |s| || !IsSpace(s[from]) then from else SpaceEnd(s, from + 1)
  }

  /** A text that paraPattern matches in full, and that cannot be extended by the text after it. */
  predicate IsParaSeparator(sep: string) {
    |sep| > 0 && IsLineBreak(sep[0]) && forall k :: 0 < k < |sep| ==> IsSpace(sep[k])
  }

  /**
   * `paraPattern.Split(s, -1)` as the texts between matches (`parts`) and the matches
   * themselves (`seps`). A match starts at the leftmost line break and, `\s*` being greedy,
   * takes every whitespace character after it; Go's Split yields one more part than matches.
   */
  function ParaTokens(s: string): (t: (seq<string>, seq<string>))
    ensures |t.0| == |t.1| + 1
    decreases |s|
  {
    var i := BreakIndex(s, 0);
    if i == |s| then ([s], [])
    else
      var j := SpaceEnd(s, i + 1);
      var rest := ParaTokens(s[j..]);
      ([s[..i]] + rest.0, [s[i..j]] + rest.1)
  }

  function ParaSplit(s: string): seq<string> {
    ParaTokens(s).0
  }

  /** parts[0] + seps[0] + parts[1] + ... + parts[n]. */
  function Interleave(parts: seq<string>, seps: seq<string>): string
    requires |parts| == |seps| + 1
  {
    if |seps| == 0 then parts[0]
    else parts[0] + seps[0] + Interleave(parts[1..], seps[1..])
  }

  /**
   * The split loses nothing and is the regular expression's: gluing parts and matches back
   * together gives the input, every match is a line break followed by whitespace, no part
   * holds a line break, and the part after a match does not start with whitespace (the match
   * took all of it).
   */
  lemma {:induction false} ParaTokensSound(s: string)
    ensures var (parts, seps) := ParaTokens(s);
      && Interleave(parts, seps) == s
      && (forall k :: 0 <= k < |seps| ==> IsParaSeparator(seps[k]))
      && (forall k :: 0 <= k < |parts| ==> !HasLineBreak(parts[k]))
      && (forall k :: 1 <= k < |parts| ==> parts[k] == [] || !IsSpace(parts[k][0]))
  {
    ParaTokensGlue(s);
    ParaTokensSeparators(s);
    ParaTokensParts(s);
  }

  /** One step of the split: the text before the first break, the match, and the rest. */
  lemma ParaTokensStep(s: string, i: nat, j: nat)
    requires i == BreakIndex(s, 0) < |s| && j == SpaceEnd(s, i + 1)
    ensures ParaTokens(s).0 == [s[..i]] + ParaTokens(s[j..]).0
    ensures ParaTokens(s).1 == [s[i..j]] + ParaTokens(s[j..]).1
  {
  }

  /** The text of one step: before the break, the match, and a rest that starts with no space. */
  lemma ParaTextStep(s: string, i: nat, j: nat)
    requires i == BreakIndex(s, 0) < |s| && j == SpaceEnd(s, i + 1)
    ensures s == s[..i] + s[i..j] + s[j..]
    ensures !HasLineBreak(s[..i]) && IsParaSeparator(s[i..j])
    ensures |s[j..]| == 0 || !IsSpace(s[j..][0])
  {
  }

  lemma {:induction false} ParaTokensGlue(s: string)
    ensures Interleave(ParaTokens(s).0, ParaTokens(s).1) == s
    decreases |s|
  {
    var i := BreakIndex(s, 0);
    if i < |s| {
      var j := SpaceEnd(s, i + 1);
      ParaTokensStep(s, i, j);
      ParaTextStep(s, i, j);
      ParaTokensGlue(s[j..]);
    }
  }

  lemma {:induction false} ParaTokensSeparators(s: string)
    ensures forall k :: 0 <= k < |ParaTokens(s).1| ==> IsParaSeparator(ParaTokens(s).1[k])
    decreases |s|
  {
    var i := BreakIndex(s, 0);
    if i < |s| {
      var j := SpaceEnd(s, i + 1);
      ParaTokensStep(s, i, j);
      ParaTextStep(s, i, j);
      ParaTokensSeparators(s[j..]);
      var seps := ParaTokens(s).1;
      forall k | 0 <= k < |seps|
        ensures IsParaSeparator(seps[k])
      {
        if k > 0 {
          assert seps[k] == ParaTokens(s[j..]).1[k - 1];
        }
      }
    }
  }

  lemma {:induction false} ParaTokensParts(s: string)
    ensures forall k :: 0 <= k < |ParaTokens(s).0| ==> !HasLineBreak(ParaTokens(s).0[k])
    ensures forall k :: 1 <= k < |ParaTokens(s).0| ==> ParaTokens(s).0[k] == [] || !IsSpace(ParaTokens(s).0[k][0])
  {
    ParaTokensNoBreak(s);
    ParaTokensNoLeadingSpace(s);
  }

  lemma {:induction false} ParaTokensNoBreak(s: string)
    ensures forall k :: 0 <= k < |ParaTokens(s).0| ==> !HasLineBreak(ParaTokens(s).0[k])
    decreases |s|
  {
    var i := BreakIndex(s, 0);
    if i < |s| {
      var j := SpaceEnd(s, i + 1);
      ParaTokensStep(s, i, j);
      ParaTextStep(s, i, j);
      ParaTokensNoBreak(s[j..]);
      var parts := ParaTokens(s).0;
      forall k | 0 <= k < |parts|
        ensures !HasLineBreak(parts[k])
      {
        if k > 0 {
          assert parts[k] == ParaTokens(s[j..]).0[k - 1];
        }
      }
    } else {
      assert !HasLineBreak(s);
    }
  }

  lemma {:induction false} ParaTokensNoLeadingSpace(s: string)
    ensures forall k :: 1 <= k < |ParaTokens(s).0| ==> ParaTokens(s).0[k] == [] || !IsSpace(ParaTokens(s).0[k][0])
    decreases |s|
  {
    var i := BreakIndex(s, 0);
    if i < |s| {
      var j := SpaceEnd(s, i + 1);
      ParaTokensStep(s, i, j);
      ParaTextStep(s, i, j);
      ParaTokensNoLeadingSpace(s[j..]);
      ParaFirstPart(s[j..]);
      var parts := ParaTokens(s).0;
      forall k | 1 <= k < |parts|
        ensures parts[k] == [] || !IsSpace(parts[k][0])
      {
        assert parts[k] == ParaTokens(s[j..]).0[k - 1];
      }
    }
  }

  /** The first part is the text before the first line break, and it never starts with a skipped space. */
  lemma ParaFirstPart(r: string)
    requires |r| == 0 || !IsSpace(r[0])
    ensures ParaTokens(r).0[0] == r[..BreakIndex(r, 0)]
    ensures ParaTokens(r).0[0] == [] || !IsSpace(ParaTokens(r).0[0][0])
  {
  }

  /** The number of parts is the number of separators plus one. */
  lemma ParaSplitCount(s: string)
    ensures |ParaSplit(s)| == |ParaTokens(s).1| + 1
  {
  }

  /** Splits at paraPattern and wraps every part in `open`/`close`. */
  function WrapParagraphs(content: string, open: string, close: string): string {
    open + Join(ParaSplit(content), close + open) + close
  }

  /** PFilter splits the content at line breaks and wraps each part in a <p> tag. */
  function PFilter(content: string): string {
    WrapParagraphs(content, "<p>", "</p>")
  }

  /** ParaFilter is PFilter with DocBook's <para> tag. */
  function ParaFilter(content: string): string {
    WrapParagraphs(content, "<para>", "</para>")
  }

  /** Text without a line break is one paragraph. */
  lemma PFilterSingleParagraph(content: string)
    requires !HasLineBreak(content)
    ensures PFilter(content) == "<p>" + content + "</p>"
    ensures ParaFilter(content) == "<para>" + content + "</para>"
  {
    assert BreakIndex(content, 0) == |content|;
  }

  /** Two lines become two paragraphs; the whitespace after the break is dropped. */
  lemma PFilterTwoParagraphs(first: string, ws: string, second: string)
    requires !HasLineBreak(first) && !HasLineBreak(second)
    requires forall k :: 0 <= k < |ws| ==> IsSpace(ws[k])
    requires second == [] || !IsSpace(second[0])
    ensures PFilter(first + "\n" + ws + second) == "<p>" + first + "</p><p>" + second + "</p>"
  {
    var s := first + "\n" + ws + second;
    var n := |first|;
    assert s[n] == '\n';
    assert forall k :: 0 <= k < n ==> s[k] == first[k];
    assert forall k :: n + 1 <= k < n + 1 + |ws| ==> s[k] == ws[k - n - 1];
    assert |second| > 0 ==> s[n + 1 + |ws|] == second[0];
    var i := BreakIndex(s, 0);
    assert i == n;
    var j := SpaceEnd(s, n + 1);
    assert j == n + 1 + |ws|;
    assert s[..i] == first;
    assert s[j..] == second;
    assert BreakIndex(second, 0) == |second|;
    assert ParaTokens(second).0 == [second];
    assert ParaSplit(s) == [first, second];
    assert [first, second][1..] == [second];
    assert Join([first, second], "</p><p>") == first + "</p><p>" + second;
    assert "</p>" + "<p>" == "</p><p>";
    assert PFilter(s) == "<p>" + Join([first, second], "</p><p>") + "</p>";
  }

  // ---------------------------------------------------------------------------
  // NoBrFilter
  // ---------------------------------------------------------------------------

  /** `strings.Replace(s, "\r\n", "\n", -1)`: non-overlapping, left to right. */
  function ReplaceCRLF(s: string): string
    decreases |s|
  {
    if |s| == 0 then ""
    else if |s| >= 2 && s[0] == '\r' && s[1] == '\n' then "\n" + ReplaceCRLF(s[2..])
    else [s[0]] + ReplaceCRLF(s[1..])
  }

  /** The first index at or after `from` that is not a line break, or |s|. */
  function BreakRunEnd(s: string, from: nat): (i: nat)
    requires from <= |s|
    ensures from <= i <= |s|
    ensures i < |s| ==> !IsLineBreak(s[i])
    ensures forall k :: from <= k < i ==> IsLineBreak(s[k])
    decreases |s| - from
  {
    if from == |s| || !IsLineBreak(s[from]) then from else BreakRunEnd(s, from + 1)
  }

  /** The first index at or after `from` where two line breaks follow each other, or |s|. */
  function DoubleBreakIndex(s: string, from: nat): (i: nat)
    requires from <= |s|
    ensures from <= i <= |s|
    ensures i < |s| ==> i + 1 < |s| && IsLineBreak(s[i]) && IsLineBreak(s[i + 1])
    ensures forall k :: from <= k < i && k + 1 < |s| ==> !(IsLineBreak(s[k]) && IsLineBreak(s[k + 1]))
    decreases |s| - from
  {
    if from == |s| then from
    else if from + 1 < |s| && IsLineBreak(s[from]) && IsLineBreak(s[from + 1]) then from
    else DoubleBreakIndex(s, from + 1)
  }

  /**
   * `multiNewlinePattern.Split(s, -1)`. Every break character matches one of the three
   * alternatives, so a match is a maximal run of two or more '\r'/'\n' characters, found
   * leftmost first.
   */
  function BreakRunSplit(s: string): (parts: seq<string>)
    ensures |parts| >= 1
    decreases |s|
  {
    var i := DoubleBreakIndex(s, 0);
    if i == |s| then [s]
    else [s[..i]] + BreakRunSplit(s[BreakRunEnd(s, i)..])
  }

  /** '\r' and '\n' each become one space. */
  function BreaksToSpaces(s: string): (r: string)
    ensures |r| == |s|
    ensures forall k :: 0 <= k < |r| ==> !IsLineBreak(r[k])
  {
    seq(|s|, i requires 0 <= i < |s| => if IsLineBreak(s[i]) then ' ' else s[i])
  }

  /** The first index at or after `from` that is not a space, or |s|. */
  function BlankEnd(s: string, from: nat): (i: nat)
    requires from <= |s|
    ensures from <= i <= |s|
    ensures i < |s| ==> s[i] != ' '
    decreases |s| - from
  {
    if from == |s| || s[from] != ' ' then from else BlankEnd(s, from + 1)
  }

  /** `spacePattern.ReplaceAllString(s, " ")`: every run of spaces becomes one space. */
  function CollapseSpaces(s: string): string
    decreases |s|
  {
    if |s| == 0 then ""
    else if s[0] == ' ' then " " + CollapseSpaces(s[BlankEnd(s, 1)..])
    else [s[0]] + CollapseSpaces(s[1..])
  }

  predicate NoDoubleSpace(s: string) {
    forall k :: 0 <= k < |s| - 1 ==> !(s[k] == ' ' && s[k + 1] == ' ')
  }

  /**
   * CollapseSpaces keeps the characters it does not drop, adds no line break, leaves no two
   * spaces in a row, and its result starts with a space exactly when its input does.
   */
  lemma {:induction false} CollapseSpacesClean(s: string)
    ensures var r := CollapseSpaces(s);
      && NoDoubleSpace(r)
      && (|r| > 0 <==> |s| > 0)
      && (|s| > 0 ==> (r[0] == ' ' <==> s[0] == ' '))
      && (!HasLineBreak(s) ==> !HasLineBreak(r))
    decreases |s|
  {
    if |s| > 0 {
      if s[0] == ' ' {
        var t := s[BlankEnd(s, 1)..];
        CollapseSpacesClean(t);
        assert !HasLineBreak(s) ==> !HasLineBreak(t) by {
          if HasLineBreak(t) {
            var i :| 0 <= i < |t| && IsLineBreak(t[i]);
            assert s[BlankEnd(s, 1) + i] == t[i];
          }
        }
      } else {
        var t := s[1..];
        CollapseSpacesClean(t);
        assert !HasLineBreak(s) ==> !HasLineBreak(t) by {
          if HasLineBreak(t) {
            var i :| 0 <= i < |t| && IsLineBreak(t[i]);
            assert s[1 + i] == t[i];
          }
        }
      }
    }
  }

  /** The loop body of NoBrFilter before the escaping step. */
  function CleanParagraph(p: string): string {
    CollapseSpaces(BreaksToSpaces(p))
  }

  /** The paragraphs NoBrFilter emits, before each is HTML-escaped. */
  function NoBrParagraphs(content: string): (ps: seq<string>)
    ensures |ps| >= 1
  {
    var parts := BreakRunSplit(ReplaceCRLF(content));
    seq(|parts|, i requires 0 <= i < |parts| => CleanParagraph(parts[i]))
  }

  /** Before escaping, no paragraph holds a '\r', a '\n' or two spaces in a row. */
  lemma NoBrParagraphsClean(content: string)
    ensures forall p | p in NoBrParagraphs(content) :: !HasLineBreak(p) && NoDoubleSpace(p)
  {
    var parts := BreakRunSplit(ReplaceCRLF(content));
    forall i | 0 <= i < |parts|
      ensures !HasLineBreak(CleanParagraph(parts[i])) && NoDoubleSpace(CleanParagraph(parts[i]))
    {
      CollapseSpacesClean(BreaksToSpaces(parts[i]));
    }
  }

  /**
   * NoBrFilter removes single line breaks: paragraphs are separated by runs of two or more,
   * cleaned, escaped by `escape` (html/template's HTMLEscaper) and joined with "<br/>".
   */
  method NoBrFilter(content: string, escape: string -> string) returns (r: string)
    ensures r == Join(seq(|NoBrParagraphs(content)|,
                          i requires 0 <= i < |NoBrParagraphs(content)| => escape(NoBrParagraphs(content)[i])),
                      "<br/>")
  {
    var normalized := ReplaceCRLF(content);
    var paragraphs := BreakRunSplit(normalized);
    var i := 0;
    while i < |paragraphs|
      invariant 0 <= i <= |paragraphs| == |BreakRunSplit(normalized)|
      invariant forall k :: 0 <= k < i ==> paragraphs[k] == escape(NoBrParagraphs(content)[k])
      invariant forall k :: i <= k < |paragraphs| ==> paragraphs[k] == BreakRunSplit(normalized)[k]
    {
      var withoutBreaks := BreaksToSpaces(paragraphs[i]);
      paragraphs := paragraphs[i := escape(CollapseSpaces(withoutBreaks))];
      i := i + 1;
    }
    assert paragraphs == seq(|NoBrParagraphs(content)|,
                             i requires 0 <= i < |NoBrParagraphs(content)| => escape(NoBrParagraphs(content)[i]));
    r := Join(paragraphs, "<br/>");
  }

  /** Text without a double line break is one paragraph: its line breaks become spaces. */
  lemma NoBrSingleParagraph(content: string)
    requires forall k :: 0 <= k < |content| - 1 ==> !(IsLineBreak(content[k]) && IsLineBreak(content[k + 1]))
    requires forall k :: 0 <= k < |content| ==> content[k] != '\r'
    ensures NoBrParagraphs(content) == [CollapseSpaces(BreaksToSpaces(content))]
  {
    ReplaceCRLFNoCR(content);
    assert DoubleBreakIndex(content, 0) == |content|;
  }

  lemma {:induction false} ReplaceCRLFNoCR(s: string)
    requires forall k :: 0 <= k < |s| ==> s[k] != '\r'
    ensures ReplaceCRLF(s) == s
    decreases |s|
  {
    if |s| > 0 {
      ReplaceCRLFNoCR(s[1..]);
      assert s == [s[0]] + s[1..];
    }
  }

  /** "\r\r\n" normalises to "\r\n": Replace does not look again at what it produced. */
  lemma ReplaceCRLFSinglePass()
    ensures ReplaceCRLF("\r\r\n") == "\r\n"
  {
    assert ReplaceCRLF("\r\r\n") == "\r" + ReplaceCRLF("\r\n");
    assert ReplaceCRLF("\r\n") == "\n" + ReplaceCRLF("");
  }

  // ---------------------------------------------------------------------------
  // RawFilter, IncFilter
  // ---------------------------------------------------------------------------

  /** RawFilter marks its input as trusted HTML and changes nothing in it. */
  function RawFilter(content: string): (r: string)
    ensures r == content
  {
    content
  }

  const MinInt64: int := -0x8000_0000_0000_0000
  const MaxInt64: int := 0x7fff_ffff_ffff_ffff

  /** Go's `int` on a 64-bit platform. */
  type Int64 = x: int | MinInt64 <= x <= MaxInt64

  /** `content + 1` in Go: wraps around at the top of the range. */
  function Inc64(n: Int64): (r: Int64)
    ensures n < MaxInt64 ==> r == n + 1
    ensures n == MaxInt64 ==> r == MinInt64
  {
    if n == MaxInt64 then MinInt64 else n + 1
  }

  function DigitChar(d: nat): char
    requires d < 10
  {
    ('0' as int + d) as char
  }

  predicate IsDigit(c: char) {
    '0' <= c <= '9'
  }

  /** The decimal digits of `n`, most significant first, without leading zeros. */
  function NatDigits(n: nat): (r: string)
    ensures |r| > 0
    ensures forall k :: 0 <= k < |r| ==> IsDigit(r[k])
    decreases n
  {
    if n < 10 then [DigitChar(n)] else NatDigits(n / 10) + [DigitChar(n % 10)]
  }

  /** `fmt.Sprintf("%d", n)`. */
  function Decimal(n: int): string {
    if n < 0 then "-" + NatDigits(-n) else NatDigits(n)
  }

  /** IncFilter renders its argument plus one in decimal. */
  function IncFilter(content: Int64): string {
    Decimal(Inc64(content))
  }

  /** Reads a non-empty string of decimal digits. */
  function ParseNat(s: string): Option<nat>
    decreases |s|
  {
    if |s| == 0 || !IsDigit(s[|s| - 1]) then None
    else
      var d := s[|s| - 1] as int - '0' as int;
      if |s| == 1 then Some(d)
      else match ParseNat(s[..|s| - 1])
        case None => None
        case Some(v) => Some(v * 10 + d)
  }

  /** Reads an optionally negative decimal number. */
  function ParseDecimal(s: string): Option<int> {
    if |s| > 0 && s[0] == '-' then
      match ParseNat(s[1..])
      case None => None
      case Some(v) => Some(-(v as int))
    else
      match ParseNat(s)
      case None => None
      case Some(v) => Some(v)
  }

  lemma {:induction false} ParseNatDigits(n: nat)
    ensures ParseNat(NatDigits(n)) == Some(n)
    decreases n
  {
    if n >= 10 {
      ParseNatDigits(n / 10);
      var s := NatDigits(n);
      assert s[..|s| - 1] == NatDigits(n / 10);
    }
  }

  /** What IncFilter prints reads back as the successor of its argument (wrapping at 2^63 - 1). */
  lemma IncFilterReadsBack(content: Int64)
    ensures ParseDecimal(IncFilter(content)) == Some(Inc64(content) as int)
  {
    var n: int := Inc64(content);
    if n < 0 {
      ParseNatDigits(-n);
      assert ("-" + NatDigits(-n))[1..] == NatDigits(-n);
    } else {
      ParseNatDigits(n);
    }
  }
}
