/**
 * The string helpers `CaseFormat` and `ReplaceNotLetterOrDigit`.
 *
 * `CaseFormat` splits a phrase on ' ', '-' and '.', and glues the pieces
 * back together with the first character of every piece upper-cased; in
 * camel case the first piece is instead lower-cased in full. The method
 * `CaseFormat` follows the loop of the C# code; `Formatted` is the split-and-
 * rebuild specification it meets, and `Scan` is an independent one-pass
 * description of the same output, used to derive the shape properties.
 */
module StringExtensions {
  import opened Chars
  import opened Enums

  // ---------------------------------------------------------------------
  // Separators and String.Split(' ', '-', '.')
  // ---------------------------------------------------------------------

  predicate IsSeparator(c: char) { c == ' ' || c == '-' || c == '.' }

  predicate SeparatorFree(s: string) { forall i :: 0 <= i < |s| ==> !IsSeparator(s[i]) }

  function SeparatorCount(s: string): nat
  {
    if s == [] then 0 else (if IsSeparator(s[0]) then 1 else 0) + SeparatorCount(s[1..])
  }

  /** The separator characters of `s`, in order. */
  function Separators(s: string): (r: string)
    ensures |r| == SeparatorCount(s)
    ensures forall i :: 0 <= i < |r| ==> IsSeparator(r[i])
  {
    if s == [] then [] else (if IsSeparator(s[0]) then [s[0]] else []) + Separators(s[1..])
  }

  /** `s` with its separator characters deleted. */
  function WithoutSeparators(s: string): string
  {
    if s == [] then [] else (if IsSeparator(s[0]) then [] else [s[0]]) + WithoutSeparators(s[1..])
  }

  function Concat(ss: seq<string>): string
  {
    if ss == [] then "" else ss[0] + Concat(ss[1..])
  }

  /**
   * `String.Split(' ', '-', '.')` without options: one segment more than
   * there are separators, empty segments included.
   */
  function Split(s: string): (segs: seq<string>)
    ensures |segs| == SeparatorCount(s) + 1
  {
    if s == [] then [""]
    else if IsSeparator(s[0]) then [""] + Split(s[1..])
    else
      var rest := Split(s[1..]);
      [[s[0]] + rest[0]] + rest[1..]
  }

  /** No segment holds a separator, and the segments concatenated are the phrase less its separators. */
  lemma {:induction false} SplitSegments(s: string)
    ensures forall k :: 0 <= k < |Split(s)| ==> SeparatorFree(Split(s)[k])
    ensures Concat(Split(s)) == WithoutSeparators(s)
  {
    if s != [] {
      SplitSegments(s[1..]);
      var rest := Split(s[1..]);
      if IsSeparator(s[0]) {
        assert Split(s) == [""] + rest;
        assert Split(s)[1..] == rest;
      } else {
        assert Split(s) == [[s[0]] + rest[0]] + rest[1..];
        assert Concat(rest) == rest[0] + Concat(rest[1..]);
        assert Split(s)[1..] == rest[1..];
        forall k | 1 <= k < |Split(s)|
          ensures SeparatorFree(Split(s)[k])
        {
          assert Split(s)[k] == rest[k];
        }
      }
    }
  }

  /** Puts `seps[i]` between `segs[i]` and `segs[i + 1]`. */
  function Interleave(segs: seq<string>, seps: string): string
    requires |segs| == |seps| + 1
    decreases |seps|
  {
    if seps == [] then segs[0] else segs[0] + [seps[0]] + Interleave(segs[1..], seps[1..])
  }

  /** Splitting loses nothing: the segments and the separators rebuild the phrase. */
  lemma {:induction false} SplitRoundTrip(s: string)
    ensures |Split(s)| == |Separators(s)| + 1
    ensures Interleave(Split(s), Separators(s)) == s
  {
    if s != [] {
      SplitRoundTrip(s[1..]);
      var rest := Split(s[1..]);
      var tail := Separators(s[1..]);
      if IsSeparator(s[0]) {
        assert Split(s) == [""] + rest;
        assert Separators(s) == [s[0]] + tail;
        assert Interleave(Split(s), Separators(s)) == "" + [s[0]] + Interleave(rest, tail);
        assert s == [s[0]] + s[1..];
      } else {
        assert Split(s) == [[s[0]] + rest[0]] + rest[1..];
        assert Separators(s) == tail;
        if tail == [] {
          assert Interleave(Split(s), tail) == [s[0]] + rest[0];
          assert Interleave(rest, tail) == rest[0];
        } else {
          assert Interleave(Split(s), tail)
              == ([s[0]] + rest[0]) + [tail[0]] + Interleave(rest[1..], tail[1..]);
          assert Interleave(rest, tail) == rest[0] + [tail[0]] + Interleave(rest[1..], tail[1..]);
        }
        assert s == [s[0]] + s[1..];
      }
    }
  }

  lemma {:induction false} SplitSeparatorFreePrefix(w: string, t: string)
    requires SeparatorFree(w)
    ensures Split(w + t) == [w + Split(t)[0]] + Split(t)[1..]
  {
    if w != [] {
      assert (w + t)[0] == w[0] && (w + t)[1..] == w[1..] + t;
      SplitSeparatorFreePrefix(w[1..], t);
      var rest := Split(w[1..] + t);
      assert Split(w + t) == [[w[0]] + rest[0]] + rest[1..];
      assert [w[0]] + (w[1..] + Split(t)[0]) == w + Split(t)[0];
    } else {
      assert w + t == t;
      assert Split(t) == [Split(t)[0]] + Split(t)[1..];
      assert w + Split(t)[0] == Split(t)[0];
    }
  }

  /** Splitting inverts interleaving: segments without separators come back as they were. */
  lemma {:induction false} SplitOfInterleave(segs: seq<string>, seps: string)
    requires |segs| == |seps| + 1
    requires forall k :: 0 <= k < |segs| ==> SeparatorFree(segs[k])
    requires forall i :: 0 <= i < |seps| ==> IsSeparator(seps[i])
    ensures Split(Interleave(segs, seps)) == segs
    decreases |seps|
  {
    if seps == [] {
      SplitSeparatorFreePrefix(segs[0], "");
      assert segs[0] + "" == segs[0];
    } else {
      var inner := Interleave(segs[1..], seps[1..]);
      SplitOfInterleave(segs[1..], seps[1..]);
      var t := [seps[0]] + inner;
      assert t[1..] == inner;
      assert Split(t) == [""] + segs[1..];
      assert Interleave(segs, seps) == segs[0] + t;
      SplitSeparatorFreePrefix(segs[0], t);
      assert segs[0] + "" == segs[0];
    }
  }

  // ---------------------------------------------------------------------
  // Rebuilding: the specification of CaseFormat
  // ---------------------------------------------------------------------

  /** First character upper-cased, the rest of the word unchanged. */
  function Capitalize(w: string): (r: string)
    ensures |r| == |w|
  {
    if w == [] then w else [ToUpper(w[0])] + w[1..]
  }

  /** The capitalised segments, concatenated in order. */
  function CapitalizeAll(ss: seq<string>): string
  {
    if ss == [] then "" else Capitalize(ss[0]) + CapitalizeAll(ss[1..])
  }

  lemma {:induction false} CapitalizeAllSnoc(ss: seq<string>, w: string)
    ensures CapitalizeAll(ss + [w]) == CapitalizeAll(ss) + Capitalize(w)
  {
    if ss != [] {
      assert (ss + [w])[1..] == ss[1..] + [w];
      CapitalizeAllSnoc(ss[1..], w);
    } else {
      assert CapitalizeAll([w]) == Capitalize(w) + CapitalizeAll([]);
    }
  }

  lemma CapitalizeAllPrefix(ss: seq<string>, i: nat)
    requires i < |ss|
    ensures CapitalizeAll(ss[..i + 1]) == CapitalizeAll(ss[..i]) + Capitalize(ss[i])
  {
    assert ss[..i + 1] == ss[..i] + [ss[i]];
    CapitalizeAllSnoc(ss[..i], ss[i]);
  }

  /**
   * What `CaseFormat` builds from the segments: in camel case the first
   * segment lower-cased followed by the other segments capitalised; in
   * Pascal case every segment capitalised.
   */
  function FormatSegments(segs: seq<string>, cases: StringCase): string
    requires |segs| >= 1
  {
    match cases
    case CamelCase => LowerAll(segs[0]) + CapitalizeAll(segs[1..])
    case PascalCase => CapitalizeAll(segs)
  }

  function Formatted(phrase: string, cases: StringCase): string
  {
    FormatSegments(Split(phrase), cases)
  }

  // ---------------------------------------------------------------------
  // A one-pass reference for the same output
  // ---------------------------------------------------------------------

  /**
   * Where a left-to-right scan stands: still inside the first word in
   * camel case, at the start of a word, or inside a (later) word.
   */
  datatype ScanState = FirstWord | WordStart | InWord

  function Emit(st: ScanState, c: char): char
  {
    match st
    case FirstWord => ToLower(c)
    case WordStart => ToUpper(c)
    case InWord => c
  }

  /** The state after one character that is not a separator. */
  function Step(st: ScanState): ScanState
  {
    if st == FirstWord then FirstWord else InWord
  }

  function StartState(cases: StringCase): ScanState
  {
    match cases
    case CamelCase => FirstWord
    case PascalCase => WordStart
  }

  /**
   * Drop every separator; change the case of the kept characters as the
   * state says.
   */
  function Scan(s: string, st: ScanState): string
  {
    if s == [] then []
    else if IsSeparator(s[0]) then Scan(s[1..], WordStart)
    else [Emit(st, s[0])] + Scan(s[1..], Step(st))
  }

  /**
   * The shape of the scan's output: as long as the input less its
   * separators, free of separators, and equal to the input without its
   * separators up to letter case.
   */
  lemma {:induction false} ScanShape(s: string, st: ScanState)
    ensures |Scan(s, st)| == |s| - SeparatorCount(s)
    ensures SeparatorFree(Scan(s, st))
    ensures LowerAll(Scan(s, st)) == LowerAll(WithoutSeparators(s))
  {
    ScanLowered(s, st);
    if s != [] {
      if IsSeparator(s[0]) {
        ScanShape(s[1..], WordStart);
      } else {
        ScanShape(s[1..], Step(st));
      }
    }
  }

  /** Up to letter case the scan's output is the input without its separators. */
  lemma {:induction false} ScanLowered(s: string, st: ScanState)
    ensures LowerAll(Scan(s, st)) == LowerAll(WithoutSeparators(s))
  {
    if s != [] {
      if IsSeparator(s[0]) {
        ScanLowered(s[1..], WordStart);
      } else {
        var rest := Scan(s[1..], Step(st));
        ScanLowered(s[1..], Step(st));
        LowerOfUpper(s[0]);
        assert ToLower(Emit(st, s[0])) == ToLower(s[0]);
        LowerAllAppend([Emit(st, s[0])], rest);
        LowerAllAppend([s[0]], WithoutSeparators(s[1..]));
      }
    }
  }

  /** The state after scanning all of `s`. */
  function After(s: string, st: ScanState): ScanState
  {
    if s == [] then st else After(s[1..], if IsSeparator(s[0]) then WordStart else Step(st))
  }

  lemma {:induction false} ScanAppend(a: string, b: string, st: ScanState)
    ensures Scan(a + b, st) == Scan(a, st) + Scan(b, After(a, st))
  {
    if a == [] {
      assert a + b == b;
    } else {
      assert (a + b)[1..] == a[1..] + b;
      ScanAppend(a[1..], b, if IsSeparator(a[0]) then WordStart else Step(st));
    }
  }

  lemma {:induction false} ScanSplitLater(s: string, st: ScanState)
    requires st != FirstWord
    ensures Scan(s, st) == (if st == WordStart then Capitalize(Split(s)[0]) else Split(s)[0])
                           + CapitalizeAll(Split(s)[1..])
  {
    if s != [] {
      var rest := Split(s[1..]);
      if IsSeparator(s[0]) {
        assert Scan(s, st) == Scan(s[1..], WordStart);
        ScanSplitLater(s[1..], WordStart);
        assert Split(s) == [""] + rest;
        assert CapitalizeAll(rest) == Capitalize(rest[0]) + CapitalizeAll(rest[1..]);
      } else {
        assert Scan(s, st) == [Emit(st, s[0])] + Scan(s[1..], InWord);
        ScanSplitLater(s[1..], InWord);
        assert Split(s) == [[s[0]] + rest[0]] + rest[1..];
        var head := if st == WordStart then Capitalize([s[0]] + rest[0]) else [s[0]] + rest[0];
        assert head == [Emit(st, s[0])] + rest[0];
        assert [Emit(st, s[0])] + (rest[0] + CapitalizeAll(rest[1..]))
            == head + CapitalizeAll(rest[1..]);
      }
    }
  }

  lemma {:induction false} ScanSplitFirst(s: string)
    ensures Scan(s, FirstWord) == LowerAll(Split(s)[0]) + CapitalizeAll(Split(s)[1..])
  {
    if s != [] {
      var rest := Split(s[1..]);
      if IsSeparator(s[0]) {
        assert Scan(s, FirstWord) == Scan(s[1..], WordStart);
        ScanSplitLater(s[1..], WordStart);
        assert Split(s) == [""] + rest;
        assert Split(s)[1..] == rest;
        assert CapitalizeAll(rest) == Capitalize(rest[0]) + CapitalizeAll(rest[1..]);
      } else {
        var tail := CapitalizeAll(rest[1..]);
        assert Scan(s, FirstWord) == [ToLower(s[0])] + Scan(s[1..], FirstWord);
        ScanSplitFirst(s[1..]);
        assert Split(s) == [[s[0]] + rest[0]] + rest[1..];
        LowerAllAppend([s[0]], rest[0]);
        assert LowerAll([s[0]]) == [ToLower(s[0])];
        ConcatAssoc([ToLower(s[0])], LowerAll(rest[0]), tail);
      }
    }
  }

  /** Split-and-rebuild and the one-pass scan produce the same text. */
  lemma FormattedIsScan(s: string, cases: StringCase)
    ensures Formatted(s, cases) == Scan(s, StartState(cases))
  {
    match cases
    case CamelCase => ScanSplitFirst(s);
    case PascalCase => ScanSplitLater(s, WordStart);
  }

  // ---------------------------------------------------------------------
  // Properties of CaseFormat's output
  // ---------------------------------------------------------------------

  /**
   * The output has no separator, is as long as the input less its
   * separators, and matches the input without separators up to case.
   */
  lemma FormattedShape(s: string, cases: StringCase)
    ensures var r := Formatted(s, cases);
            |r| == |s| - SeparatorCount(s) && SeparatorFree(r) &&
            LowerAll(r) == LowerAll(WithoutSeparators(s))
  {
    FormattedIsScan(s, cases);
    ScanShape(s, StartState(cases));
  }

  /** Camel case differs from Pascal case only in the first segment, which it lower-cases. */
  lemma CamelIsPascalWithFirstSegmentLowered(s: string)
    ensures var first := Split(s)[0];
            |first| <= |Formatted(s, PascalCase)| &&
            Formatted(s, CamelCase) == LowerAll(first) + Formatted(s, PascalCase)[|first|..]
  {
    var segs := Split(s);
    assert CapitalizeAll(segs) == Capitalize(segs[0]) + CapitalizeAll(segs[1..]);
  }

  /**
   * A leading separator leaves an empty first segment, so camel case then
   * starts with a capitalised word, exactly as Pascal case does.
   */
  lemma LeadingSeparator(c: char, s: string, cases: StringCase)
    requires IsSeparator(c)
    ensures Formatted([c] + s, cases) == Formatted(s, PascalCase)
    ensures var r := Formatted([c] + s, cases); r != [] ==> ToUpper(r[0]) == r[0]
  {
    FormattedIsScan([c] + s, cases);
    FormattedIsScan(s, PascalCase);
    assert ([c] + s)[1..] == s;
    if Formatted(s, PascalCase) != [] {
      ScanStartIsUpper(s);
    }
  }

  /** Empty segments contribute nothing: a separator doubled changes nothing. */
  lemma RepeatedSeparator(a: string, c: char, d: char, b: string, cases: StringCase)
    requires IsSeparator(c) && IsSeparator(d)
    ensures Formatted(a + [c, d] + b, cases) == Formatted(a + [c] + b, cases)
  {
    var st := StartState(cases);
    FormattedIsScan(a + [c, d] + b, cases);
    FormattedIsScan(a + [c] + b, cases);
    assert a + [c, d] + b == a + ([c, d] + b);
    assert a + [c] + b == a + ([c] + b);
    ScanAppend(a, [c, d] + b, st);
    ScanAppend(a, [c] + b, st);
    assert ([c, d] + b)[1..] == [d] + b;
    assert ([d] + b)[1..] == b;
    assert ([c] + b)[1..] == b;
  }

  /** Empty segments contribute nothing: a trailing separator changes nothing. */
  lemma TrailingSeparator(s: string, c: char, cases: StringCase)
    requires IsSeparator(c)
    ensures Formatted(s + [c], cases) == Formatted(s, cases)
  {
    var st := StartState(cases);
    FormattedIsScan(s + [c], cases);
    FormattedIsScan(s, cases);
    ScanAppend(s, [c], st);
    assert Scan([c], After(s, st)) == [];
  }

  lemma {:induction false} ScanInWordIdentity(s: string)
    requires SeparatorFree(s)
    ensures Scan(s, InWord) == s
  {
    if s != [] {
      ScanInWordIdentity(s[1..]);
    }
  }

  lemma {:induction false} ScanStartIsUpper(s: string)
    requires Scan(s, WordStart) != []
    ensures ToUpper(Scan(s, WordStart)[0]) == Scan(s, WordStart)[0]
  {
    if IsSeparator(s[0]) {
      ScanStartIsUpper(s[1..]);
    } else {
      UpperIdempotent(s[0]);
    }
  }

  /** Pascal case is idempotent: its output is one capitalised word already. */
  lemma PascalIdempotent(s: string)
    ensures Formatted(Formatted(s, PascalCase), PascalCase) == Formatted(s, PascalCase)
  {
    var r := Formatted(s, PascalCase);
    FormattedIsScan(s, PascalCase);
    ScanShape(s, WordStart);
    FormattedIsScan(r, PascalCase);
    if r != [] {
      ScanStartIsUpper(s);
      ScanInWordIdentity(r[1..]);
      assert r == [r[0]] + r[1..];
    }
  }

  // ---------------------------------------------------------------------
  // The method, as the C# code runs it
  // ---------------------------------------------------------------------

  /**
   * One segment as a character array whose first element is overwritten
   * with its upper-case form.
   */
  method CapitalizeChars(w: string) returns (r: string)
    ensures r == Capitalize(w)
  {
    var chars := new char[|w|](j requires 0 <= j < |w| => w[j]);
    assert chars[..] == w;
    if chars.Length > 0 {
      chars[0] := ToUpper(chars[0]);
      assert chars[..] == [ToUpper(w[0])] + w[1..];
    }
    r := chars[..];
  }

  /** Blanking the first segment out leaves only the later segments to capitalise. */
  lemma CapitalizeAllBlankedFirst(segs: seq<string>)
    requires |segs| >= 1
    ensures CapitalizeAll(segs[0 := ""]) == CapitalizeAll(segs[1..])
  {
    assert segs[0 := ""][1..] == segs[1..];
  }

  /** One turn of the loop: appending the next capitalised segment extends the prefix by one. */
  lemma AppendStep(sb: string, ss: seq<string>, i: nat, r: string, w: string)
    requires i < |ss| && r == sb + CapitalizeAll(ss[..i]) && w == Capitalize(ss[i])
    ensures r + w == sb + CapitalizeAll(ss[..i + 1])
  {
    CapitalizeAllPrefix(ss, i);
    ConcatAssoc(sb, CapitalizeAll(ss[..i]), w);
  }

  /** The `foreach` loop of `StringExtensions.cs`: append every segment, capitalised, to `sb`. */
  method AppendCapitalized(sb: string, splitted: seq<string>) returns (r: string)
    ensures r == sb + CapitalizeAll(splitted)
  {
    r := sb;
    var i := 0;
    while i < |splitted|
      invariant 0 <= i <= |splitted|
      invariant r == sb + CapitalizeAll(splitted[..i])
    {
      var w := CapitalizeChars(splitted[i]);
      AppendStep(sb, splitted, i, r, w);
      r := r + w;
      i := i + 1;
    }
    assert splitted[..i] == splitted;
  }

  /**
   * `CaseFormat`: split, emit the lower-cased first segment and blank it
   * out in camel case, then append every segment with its first character
   * upper-cased.
   */
  method CaseFormat(phrase: string, cases: StringCase) returns (r: string)
    ensures r == Formatted(phrase, cases)
    ensures r == Scan(phrase, StartState(cases))
  {
    var splitted := Split(phrase);
    var sb: string := "";
    match cases {
      case CamelCase =>
        sb := LowerAll(splitted[0]);
        CapitalizeAllBlankedFirst(splitted);
        splitted := splitted[0 := ""];
      case PascalCase =>
        sb := "";
    }
    r := AppendCapitalized(sb, splitted);
    FormattedIsScan(phrase, cases);
  }

  // ---------------------------------------------------------------------
  // ReplaceNotLetterOrDigit
  // ---------------------------------------------------------------------

  function Replaced(c: char, symbol: char): char
  {
    if IsLetterOrDigit(c) then c else symbol
  }

  /**
   * The `Aggregate` fold: `current` is the text built so far, `rest` the
   * characters still to visit.
   */
  function AggregateReplace(current: string, rest: string, symbol: char): (r: string)
    ensures |r| == |current| + |rest|
    ensures r[..|current|] == current
    ensures forall i :: 0 <= i < |rest| ==> r[|current| + i] == Replaced(rest[i], symbol)
    decreases |rest|
  {
    if rest == [] then current
    else
      AggregateReplace(current + [Replaced(rest[0], symbol)], rest[1..], symbol)
  }

  /**
   * `ReplaceNotLetterOrDigit`: same length; letters and digits kept, every
   * other character replaced by `symbol`.
   */
  function ReplaceNotLetterOrDigit(phrase: string, symbol: char): (r: string)
    ensures |r| == |phrase|
    ensures forall i :: 0 <= i < |phrase| && IsLetterOrDigit(phrase[i]) ==> r[i] == phrase[i]
    ensures forall i :: 0 <= i < |phrase| && !IsLetterOrDigit(phrase[i]) ==> r[i] == symbol
  {
    var r := AggregateReplace("", phrase, symbol);
    assert forall i :: 0 <= i < |phrase| ==> r[i] == r[|""| + i];
    r
  }

  /** Replacing twice with the same symbol is replacing once. */
  lemma ReplaceIdempotent(phrase: string, symbol: char)
    ensures ReplaceNotLetterOrDigit(ReplaceNotLetterOrDigit(phrase, symbol), symbol)
         == ReplaceNotLetterOrDigit(phrase, symbol)
  {
  }

  /** The phrase comes back unchanged exactly when each character is a letter, a digit or the symbol. */
  lemma ReplaceUnchangedIff(phrase: string, symbol: char)
    ensures ReplaceNotLetterOrDigit(phrase, symbol) == phrase
        <==> forall i :: 0 <= i < |phrase| ==> IsLetterOrDigit(phrase[i]) || phrase[i] == symbol
  {
    var r := ReplaceNotLetterOrDigit(phrase, symbol);
    if forall i :: 0 <= i < |phrase| ==> IsLetterOrDigit(phrase[i]) || phrase[i] == symbol {
      assert forall i :: 0 <= i < |phrase| ==> r[i] == phrase[i];
    }
  }
}
