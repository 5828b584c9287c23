/**
 * The HTML text helpers: `ForLength` (truncation) and the two tag removers
 * `NoTags` and `NoScript`, each with its `HtmlString` overload.
 *
 * The removers are `Regex.Replace(str, pattern, "")`. The regular
 * expression engine is modelled by `RemoveMatches`, which scans left to
 * right, deletes the match anchored at the current position when there is
 * one and keeps the character otherwise; `MatchAt` gives, for each of the
 * two patterns, the length of the match the backtracking engine finds at
 * the start of the remaining text.
 */
module HtmlExtensions {
  import opened Wrappers
  import opened Chars
  import StringExtensions

  /** The exception `String.Substring` throws for a negative length. */
  datatype Exception = ArgumentOutOfRange

  /** ASP.NET's `HtmlString`: a wrapper whose `ToString` is its text. */
  datatype HtmlString = HtmlString(text: string)
  {
    function ToString(): string { text }
  }

  // ---------------------------------------------------------------------
  // ForLength
  // ---------------------------------------------------------------------

  /**
   * `ForLength`: the prefix of `str` of length min(|str|, length); a
   * negative length makes `Substring` throw.
   */
  function ForLength(str: string, length: int): (r: Result<string, Exception>)
    ensures r.Failure? <==> length < 0
    ensures r.Success? ==> |r.value| == (if |str| < length then |str| else length)
    ensures r.Success? ==> r.value == str[..|r.value|]
  {
    var len := if |str| > length then length else |str|;
    if len < 0 then Failure(ArgumentOutOfRange) else Success(str[..len])
  }

  /** The `HtmlString` overload computes the same truncation on `str.ToString()`. */
  function ForLengthHtml(str: HtmlString, length: int): (r: Result<HtmlString, Exception>)
    ensures r.Failure? <==> ForLength(str.ToString(), length).Failure?
    ensures r.Success? ==> r.value.ToString() == ForLength(str.ToString(), length).value
  {
    var val := str.ToString();
    var len := if |val| > length then length else |val|;
    if len < 0 then Failure(ArgumentOutOfRange) else Success(HtmlString(val[..len]))
  }

  /** A length at least that of the string leaves it whole. */
  lemma ForLengthIdentity(str: string, length: int)
    requires length >= |str|
    ensures ForLength(str, length) == Success(str)
  {
    assert str[..|str|] == str;
  }

  /** Truncating a truncated string to the same length changes nothing. */
  lemma ForLengthIdempotent(str: string, length: int)
    requires length >= 0
    ensures ForLength(ForLength(str, length).value, length) == ForLength(str, length)
  {
    var t := ForLength(str, length).value;
    assert t[..|t|] == t;
  }

  // ---------------------------------------------------------------------
  // The two regular expressions
  // ---------------------------------------------------------------------

  /** `<[^>]*>` and `<script\b[^>]*>(.*?)</script>`, both case-sensitive. */
  datatype Pattern = Tag | Script

  const ScriptOpen: string := "<script"
  const ScriptClose: string := "</script>"

  predicate StartsWithAt(s: string, k: nat, p: string)
  {
    k + |p| <= |s| && s[k..k + |p|] == p
  }

  /** The first position at or after `from` holding `c`. */
  function IndexOf(s: string, c: char, from: nat): (r: Option<nat>)
    ensures r.Some? ==> from <= r.value < |s| && s[r.value] == c
    ensures r.Some? ==> forall j :: from <= j < r.value ==> s[j] != c
    ensures r.None? ==> forall j :: from <= j < |s| ==> s[j] != c
    decreases |s| - from
  {
    if from >= |s| then None else if s[from] == c then Some(from) else IndexOf(s, c, from + 1)
  }

  /**
   * The lazy `(.*?)</script>` from position `k`: the end of the first
   * "</script>" that starts at or after `k` with no newline before it
   * (`.` does not match '\n').
   */
  function CloseFrom(t: string, k: nat): (r: Option<nat>)
    requires k <= |t|
    ensures r.Some? ==> k + |ScriptClose| <= r.value <= |t|
    decreases |t| - k
  {
    if StartsWithAt(t, k, ScriptClose) then Some(k + |ScriptClose|)
    else if k == |t| || t[k] == '\n' then None
    else CloseFrom(t, k + 1)
  }

  /**
   * A "</script>" starts at `e`, none starts between `k` and `e`, and no
   * newline comes before it.
   */
  predicate FirstCloseAt(t: string, k: nat, e: nat)
  {
    && StartsWithAt(t, e, ScriptClose)
    && forall j :: k <= j < e ==> !StartsWithAt(t, j, ScriptClose) && t[j] != '\n'
  }

  /** A closing position found by `CloseFrom` ends the first "</script>" from `k`. */
  lemma {:induction false} CloseFromFound(t: string, k: nat)
    requires k <= |t|
    ensures CloseFrom(t, k).Some? ==> FirstCloseAt(t, k, CloseFrom(t, k).value - |ScriptClose|)
    decreases |t| - k
  {
    if StartsWithAt(t, k, ScriptClose) {
      assert CloseFrom(t, k) == Some(k + |ScriptClose|);
      assert FirstCloseAt(t, k, k);
    } else if k < |t| && t[k] != '\n' {
      var r := CloseFrom(t, k + 1);
      assert CloseFrom(t, k) == r;
      CloseFromFound(t, k + 1);
      if r.Some? {
        var e := r.value - |ScriptClose|;
        assert FirstCloseAt(t, k + 1, e);
        forall j | k <= j < e
          ensures !StartsWithAt(t, j, ScriptClose) && t[j] != '\n'
        {
          if j > k {
            assert k + 1 <= j < e;
          }
        }
        assert FirstCloseAt(t, k, e);
      }
    }
  }

  /**
   * The length of the match of `p` anchored at the start of `t`, if any.
   * `[^>]*>` can only end at the first '>', since every shorter run is
   * followed by a character other than '>'; so backtracking never finds a
   * second candidate.
   */
  function MatchAt(p: Pattern, t: string): (r: Option<nat>)
    ensures r.Some? ==> 0 < r.value <= |t| && t[0] == '<'
  {
    match p
    case Tag =>
      if t != [] && t[0] == '<' then
        match IndexOf(t, '>', 1)
        case Some(g) => Some(g + 1)
        case None => None
      else None
    case Script =>
      if StartsWithAt(t, 0, ScriptOpen) && |t| > |ScriptOpen| && !IsWordChar(t[|ScriptOpen|]) then
        match IndexOf(t, '>', |ScriptOpen|)
        case Some(g) => CloseFrom(t, g + 1)
        case None => None
      else None
  }

  /** `Regex.Replace(s, p, "")`: delete the successive leftmost matches. */
  function RemoveMatches(p: Pattern, s: string): (r: string)
    ensures |r| <= |s|
    decreases |s|
  {
    if s == [] then []
    else
      match MatchAt(p, s)
      case Some(n) => RemoveMatches(p, s[n..])
      case None => [s[0]] + RemoveMatches(p, s[1..])
  }

  // ---------------------------------------------------------------------
  // Properties of the replace engine
  // ---------------------------------------------------------------------

  /** `a` can be obtained from `b` by deleting characters. */
  predicate IsSubsequence(a: string, b: string)
    decreases |b|
  {
    if a == [] then true
    else if b == [] then false
    else (a[0] == b[0] && IsSubsequence(a[1..], b[1..])) || IsSubsequence(a, b[1..])
  }

  lemma {:induction false} SubsequenceLength(a: string, b: string)
    requires IsSubsequence(a, b)
    ensures |a| <= |b|
    decreases |b|
  {
    if a != [] {
      if a[0] == b[0] && IsSubsequence(a[1..], b[1..]) {
        SubsequenceLength(a[1..], b[1..]);
      } else {
        SubsequenceLength(a, b[1..]);
      }
    }
  }

  lemma {:induction false} SubsequenceOfSuffix(a: string, b: string, n: nat)
    requires n <= |b|
    requires IsSubsequence(a, b[n..])
    ensures IsSubsequence(a, b)
    decreases n
  {
    if n > 0 && a != [] {
      assert b[n - 1..][1..] == b[n..];
      SubsequenceOfSuffix(a, b, n - 1);
    }
  }

  /** The output only deletes characters: a subsequence of the input, never longer. */
  lemma {:induction false} RemoveMatchesSubsequence(p: Pattern, s: string)
    ensures IsSubsequence(RemoveMatches(p, s), s)
    ensures |RemoveMatches(p, s)| <= |s|
    decreases |s|
  {
    if s != [] {
      match MatchAt(p, s)
      case Some(n) =>
        RemoveMatchesSubsequence(p, s[n..]);
        SubsequenceOfSuffix(RemoveMatches(p, s), s, n);
      case None =>
        RemoveMatchesSubsequence(p, s[1..]);
        var r := RemoveMatches(p, s);
        assert r == [s[0]] + RemoveMatches(p, s[1..]);
        assert r[1..] == RemoveMatches(p, s[1..]);
    }
    SubsequenceLength(RemoveMatches(p, s), s);
  }

  /** Text without '<' passes through: no match can start in it. */
  lemma {:induction false} RemoveMatchesPlainPrefix(p: Pattern, a: string, b: string)
    requires '<' !in a
    ensures RemoveMatches(p, a + b) == a + RemoveMatches(p, b)
  {
    if a != [] {
      var s := a + b;
      assert s[0] == a[0] != '<';
      assert MatchAt(p, s).None?;
      assert RemoveMatches(p, s) == [a[0]] + RemoveMatches(p, s[1..]);
      assert s[1..] == a[1..] + b;
      assert '<' !in a[1..];
      RemoveMatchesPlainPrefix(p, a[1..], b);
      assert a == [a[0]] + a[1..];
    } else {
      assert a + b == b;
    }
  }

  /** A string with no '<' is returned unchanged. */
  lemma RemoveMatchesPlain(p: Pattern, s: string)
    requires '<' !in s
    ensures RemoveMatches(p, s) == s
  {
    RemoveMatchesPlainPrefix(p, s, "");
    assert s + "" == s;
  }


  /** A string where the pattern matches at no position is returned unchanged. */
  lemma {:induction false} RemoveMatchesNoMatch(p: Pattern, s: string)
    requires forall i :: 0 <= i < |s| ==> MatchAt(p, s[i..]).None?
    ensures RemoveMatches(p, s) == s
    decreases |s|
  {
    if s != [] {
      assert s[0..] == s;
      forall i | 0 <= i < |s| - 1
        ensures MatchAt(p, s[1..][i..]).None?
      {
        assert s[1..][i..] == s[i + 1..];
      }
      RemoveMatchesNoMatch(p, s[1..]);
    }
  }

  // ---------------------------------------------------------------------
  // NoTags
  // ---------------------------------------------------------------------

  /**
   * `NoTags`: delete every `<[^>]*>`. The text never grows, and no '<' is
   * left that a later '>' closes.
   */
  function NoTags(str: string): (r: string)
    ensures TagFree(r)
    ensures |r| <= |str|
  {
    NoTagsLeavesNoTag(str);
    RemoveMatches(Tag, str)
  }

  /** The `HtmlString` overload: `NoTags` of its text; keeps no complete tag. */
  function NoTagsHtml(str: HtmlString): (r: string)
    ensures TagFree(r)
    ensures IsSubsequence(r, str.ToString())
  {
    RemoveMatchesSubsequence(Tag, str.ToString());
    NoTags(str.ToString())
  }

  /** No '<' is followed, anywhere later, by a '>': there is nothing `<[^>]*>` could match. */
  predicate TagFree(s: string)
  {
    forall i, j :: 0 <= i < j < |s| && s[i] == '<' ==> s[j] != '>'
  }

  /** Without any '>' no tag can close, so nothing is removed. */
  lemma {:induction false} NoTagsWithoutClose(s: string)
    requires '>' !in s
    ensures RemoveMatches(Tag, s) == s
  {
    forall i | 0 <= i < |s|
      ensures MatchAt(Tag, s[i..]).None?
    {
      var t := s[i..];
      assert forall j :: 0 <= j < |t| ==> t[j] == s[i + j];
      assert forall j :: 0 <= j < |t| ==> t[j] != '>';
    }
    RemoveMatchesNoMatch(Tag, s);
  }

  lemma TagFreeCons(c: char, r: string)
    requires c == '<' ==> '>' !in r
    requires TagFree(r)
    ensures TagFree([c] + r)
  {
    var s := [c] + r;
    forall i, j | 0 <= i < j < |s| && s[i] == '<'
      ensures s[j] != '>'
    {
      assert s[j] == r[j - 1];
      if i > 0 {
        assert s[i] == r[i - 1];
      }
    }
  }

  /** The output of `NoTags` keeps no '<' that a later '>' could close. */
  lemma {:induction false} NoTagsLeavesNoTag(s: string)
    ensures TagFree(RemoveMatches(Tag, s))
    decreases |s|
  {
    if s != [] {
      match MatchAt(Tag, s)
      case Some(n) =>
        NoTagsLeavesNoTag(s[n..]);
      case None =>
        NoTagsLeavesNoTag(s[1..]);
        if s[0] == '<' {
          assert IndexOf(s, '>', 1).None?;
          assert forall j :: 0 <= j < |s[1..]| ==> s[1..][j] == s[j + 1];
          NoTagsWithoutClose(s[1..]);
        }
        TagFreeCons(s[0], RemoveMatches(Tag, s[1..]));
    }
  }

  /** A tag-free string is left as it is. */
  lemma {:induction false} NoTagsKeepsTagFree(s: string)
    requires TagFree(s)
    ensures NoTags(s) == s
    decreases |s|
  {
    if s != [] {
      if s[0] == '<' {
        assert forall j :: 0 < j < |s| ==> s[j] != '>';
      }
      assert MatchAt(Tag, s).None?;
      assert TagFree(s[1..]) by {
        forall i, j | 0 <= i < j < |s[1..]| && s[1..][i] == '<'
          ensures s[1..][j] != '>'
        {
          assert s[1..][i] == s[i + 1] && s[1..][j] == s[j + 1];
        }
      }
      NoTagsKeepsTagFree(s[1..]);
    }
  }

  /** `NoTags` leaves a string unchanged exactly when the string is tag-free. */
  lemma NoTagsFixedIff(s: string)
    ensures NoTags(s) == s <==> TagFree(s)
  {
    NoTagsLeavesNoTag(s);
    if TagFree(s) {
      NoTagsKeepsTagFree(s);
    }
  }

  /** Applying `NoTags` twice is applying it once. */
  lemma NoTagsIdempotent(s: string)
    ensures NoTags(NoTags(s)) == NoTags(s)
  {
    NoTagsLeavesNoTag(s);
    NoTagsKeepsTagFree(NoTags(s));
  }

  lemma IndexOfFirst(s: string, c: char, from: nat, k: nat)
    requires from <= k < |s| && s[k] == c
    requires forall j :: from <= j < k ==> s[j] != c
    ensures IndexOf(s, c, from) == Some(k)
  {
  }

  /**
   * The leftmost tag is deleted from its '<' through the first '>' after
   * it; the span may hold further '<' characters.
   */
  lemma NoTagsLeftmostSpan(a: string, m: string, b: string)
    requires '<' !in a
    requires '>' !in m
    ensures NoTags(a + "<" + m + ">" + b) == a + NoTags(b)
  {
    var t := "<" + m + ">" + b;
    assert a + "<" + m + ">" + b == a + t;
    RemoveMatchesPlainPrefix(Tag, a, t);
    assert forall j :: 1 <= j < |m| + 1 ==> t[j] == m[j - 1];
    IndexOfFirst(t, '>', 1, |m| + 1);
    assert t[|m| + 2..] == b;
  }

  /** A '<' that no '>' follows is kept, together with everything after it. */
  lemma {:induction false} NoTagsUnclosedSuffix(a: string, b: string)
    requires '>' !in b
    ensures NoTags(a + b) == NoTags(a) + b
    decreases |a|
  {
    if a == [] {
      assert a + b == b;
      NoTagsWithoutClose(b);
    } else {
      var s := a + b;
      assert s[0] == a[0];
      var ga := IndexOf(a, '>', 1);
      var gs := IndexOf(s, '>', 1);
      if ga.Some? {
        IndexOfFirst(s, '>', 1, ga.value);
        assert s[ga.value + 1..] == a[ga.value + 1..] + b;
      } else {
        forall j | 1 <= j < |s|
          ensures s[j] != '>'
        {
          if j < |a| {
            assert s[j] == a[j];
          } else {
            assert s[j] == b[j - |a|];
          }
        }
      }
      if a[0] == '<' && ga.Some? {
        NoTagsUnclosedSuffix(a[ga.value + 1..], b);
      } else {
        assert s[1..] == a[1..] + b;
        NoTagsUnclosedSuffix(a[1..], b);
      }
    }
  }

  // ---------------------------------------------------------------------
  // NoScript
  // ---------------------------------------------------------------------

  /**
   * `NoScript`: delete every `<script\b[^>]*>(.*?)</script>`. The text
   * never grows.
   */
  function NoScript(str: string): (r: string)
    ensures |r| <= |str|
  {
    RemoveMatches(Script, str)
  }

  /** The `HtmlString` overload: `NoScript` of its text, a subsequence of it. */
  function NoScriptHtml(str: HtmlString): (r: string)
    ensures IsSubsequence(r, str.ToString())
  {
    RemoveMatchesSubsequence(Script, str.ToString());
    NoScript(str.ToString())
  }

  /** Without an occurrence of "<script" nothing is removed. */
  lemma {:induction false} NoScriptWithoutOpen(s: string)
    requires forall i :: 0 <= i < |s| ==> !StartsWithAt(s, i, ScriptOpen)
    ensures RemoveMatches(Script, s) == s
  {
    forall i | 0 <= i < |s|
      ensures MatchAt(Script, s[i..]).None?
    {
      assert !StartsWithAt(s, i, ScriptOpen);
      if i + |ScriptOpen| <= |s| {
        assert s[i..][0..|ScriptOpen|] == s[i..i + |ScriptOpen|];
      }
      assert !StartsWithAt(s[i..], 0, ScriptOpen);
    }
    RemoveMatchesNoMatch(Script, s);
  }

  lemma {:induction false} CloseFromFirst(t: string, k: nat, e: nat)
    requires k <= e && StartsWithAt(t, e, ScriptClose)
    requires forall j :: k <= j < e ==> !StartsWithAt(t, j, ScriptClose) && t[j] != '\n'
    ensures CloseFrom(t, k) == Some(e + |ScriptClose|)
    decreases e - k
  {
    if k < e {
      CloseFromFirst(t, k + 1, e);
    }
  }

  /**
   * The lazy `(.*?)</script>` from `k` stops at `e` exactly when `e` is the
   * first "</script>" from `k` and no newline comes before it.
   */
  lemma CloseFromIff(t: string, k: nat, e: nat)
    requires k <= |t| && k <= e
    ensures CloseFrom(t, k) == Some(e + |ScriptClose|) <==> FirstCloseAt(t, k, e)
  {
    CloseFromFound(t, k);
    if FirstCloseAt(t, k, e) {
      CloseFromFirst(t, k, e);
    }
  }

  /** What a script element is made of, as the pattern reads it. */
  predicate ScriptParts(attrs: string, body: string)
  {
    && (attrs != [] ==> !IsWordChar(attrs[0]))
    && '>' !in attrs
    && '\n' !in body
    && forall k :: 0 <= k < |body| ==> !StartsWithAt(body + ScriptClose, k, ScriptClose)
  }

  lemma ScriptOpenOfElement(attrs: string, rest: string)
    requires attrs != [] ==> !IsWordChar(attrs[0])
    requires '>' !in attrs
    ensures var t := ScriptOpen + attrs + ">" + rest;
            && StartsWithAt(t, 0, ScriptOpen) && |t| > |ScriptOpen| && !IsWordChar(t[|ScriptOpen|])
            && IndexOf(t, '>', |ScriptOpen|) == Some(|ScriptOpen| + |attrs|)
  {
    var t := ScriptOpen + attrs + ">" + rest;
    var o := |ScriptOpen|;
    assert t[..o] == ScriptOpen;
    assert t[o] == if attrs == [] then '>' else attrs[0];
    var g := o + |attrs|;
    assert forall j :: o <= j < g ==> t[j] == attrs[j - o];
    IndexOfFirst(t, '>', o, g);
  }

  lemma ScriptCloseOfBody(body: string, b: string, t: string, g: nat)
    requires '\n' !in body
    requires forall k :: 0 <= k < |body| ==> !StartsWithAt(body + ScriptClose, k, ScriptClose)
    requires g + 1 <= |t| && t[g + 1..] == body + ScriptClose + b
    ensures CloseFrom(t, g + 1) == Some(g + 1 + |body| + |ScriptClose|)
  {
    var e := g + 1 + |body|;
    assert t[e..e + |ScriptClose|] == ScriptClose;
    forall j | g + 1 <= j < e
      ensures !StartsWithAt(t, j, ScriptClose) && t[j] != '\n'
    {
      var k := j - g - 1;
      var u := t[g + 1..];
      var c := |ScriptClose|;
      assert t[j] == u[k] == body[k];
      assert !StartsWithAt(body + ScriptClose, k, ScriptClose);
      assert u[k..k + c] == t[j..j + c];
      assert u[k..k + c] == (body + ScriptClose)[k..k + c];
    }
    CloseFromFirst(t, g + 1, e);
  }

  /** The match anchored at a script element covers the element exactly. */
  lemma ScriptMatchOfElement(attrs: string, body: string, b: string)
    requires ScriptParts(attrs, body)
    ensures var t := ScriptOpen + attrs + ">" + body + ScriptClose + b;
            MatchAt(Script, t) == Some(|t| - |b|)
  {
    var t := ScriptOpen + attrs + ">" + body + ScriptClose + b;
    ScriptOpenOfElement(attrs, body + ScriptClose + b);
    assert t == ScriptOpen + attrs + ">" + (body + ScriptClose + b);
    var g := |ScriptOpen| + |attrs|;
    assert t[g + 1..] == body + ScriptClose + b;
    ScriptCloseOfBody(body, b, t, g);
  }

  /** The attributes a script match skips open with a non-word character and hold no '>'. */
  lemma AttrsOfMatch(t: string, g: nat)
    requires |t| > |ScriptOpen| && !IsWordChar(t[|ScriptOpen|])
    requires IndexOf(t, '>', |ScriptOpen|) == Some(g)
    ensures var attrs := t[|ScriptOpen|..g];
            (attrs != [] ==> !IsWordChar(attrs[0])) && '>' !in attrs
  {
    var attrs := t[|ScriptOpen|..g];
    assert forall j :: 0 <= j < |attrs| ==> attrs[j] == t[|ScriptOpen| + j];
  }

  /** The body a script match skips has no newline, and no "</script>" starts in it. */
  lemma BodyOfMatch(t: string, k: nat, n: nat)
    requires k <= |t| && CloseFrom(t, k) == Some(n)
    ensures var body := t[k..n - |ScriptClose|];
            && '\n' !in body
            && (forall i :: 0 <= i < |body| ==> !StartsWithAt(body + ScriptClose, i, ScriptClose))
            && body + ScriptClose == t[k..n]
  {
    CloseFromFound(t, k);
    assert FirstCloseAt(t, k, n - |ScriptClose|);
    BodyCloses(t, k, n);
    BodyHasNoNewline(t, k, n);
    BodyHasNoClose(t, k, n);
  }

  lemma BodyCloses(t: string, k: nat, n: nat)
    requires k + |ScriptClose| <= n <= |t| && StartsWithAt(t, n - |ScriptClose|, ScriptClose)
    ensures t[k..n - |ScriptClose|] + ScriptClose == t[k..n]
  {
    var e := n - |ScriptClose|;
    assert t[k..n] == t[k..e] + t[e..n];
  }

  lemma BodyHasNoNewline(t: string, k: nat, n: nat)
    requires k + |ScriptClose| <= n <= |t|
    requires forall j :: k <= j < n - |ScriptClose| ==> t[j] != '\n'
    ensures '\n' !in t[k..n - |ScriptClose|]
  {
    var body := t[k..n - |ScriptClose|];
    assert forall j :: 0 <= j < |body| ==> body[j] == t[k + j];
  }

  lemma BodyHasNoClose(t: string, k: nat, n: nat)
    requires k + |ScriptClose| <= n <= |t| && StartsWithAt(t, n - |ScriptClose|, ScriptClose)
    requires forall j :: k <= j < n - |ScriptClose| ==> !StartsWithAt(t, j, ScriptClose)
    ensures var body := t[k..n - |ScriptClose|];
            forall i :: 0 <= i < |body| ==> !StartsWithAt(body + ScriptClose, i, ScriptClose)
  {
    var c := |ScriptClose|;
    var body := t[k..n - c];
    var u := t[k..n];
    BodyCloses(t, k, n);
    forall i | 0 <= i < |body|
      ensures !StartsWithAt(u, i, ScriptClose)
    {
      assert !StartsWithAt(t, k + i, ScriptClose);
      assert u[i..i + c] == t[k + i..k + i + c];
    }
  }

  lemma SliceAround(t: string, o: nat, g: nat, n: nat)
    requires o <= g < n <= |t|
    ensures t[..n] == t[..o] + t[o..g] + [t[g]] + t[g + 1..n]
  {
    assert t[..n] == t[..o] + t[o..g] + t[g..n];
    assert t[g..n] == [t[g]] + t[g + 1..n];
  }

  /** The pieces a script match consists of, named by the positions it found. */
  lemma ElementOfMatch(t: string, g: nat, n: nat)
    requires StartsWithAt(t, 0, ScriptOpen) && |t| > |ScriptOpen| && !IsWordChar(t[|ScriptOpen|])
    requires IndexOf(t, '>', |ScriptOpen|) == Some(g)
    requires g + 1 <= |t| && CloseFrom(t, g + 1) == Some(n)
    ensures var attrs := t[|ScriptOpen|..g];
            var body := t[g + 1..n - |ScriptClose|];
            ScriptParts(attrs, body) && t[..n] == ScriptOpen + attrs + ">" + body + ScriptClose
  {
    var o := |ScriptOpen|;
    AttrsOfMatch(t, g);
    BodyOfMatch(t, g + 1, n);
    var attrs := t[o..g];
    var body := t[g + 1..n - |ScriptClose|];
    SliceAround(t, o, g, n);
    assert t[..o] == ScriptOpen;
    assert t[..n] == ScriptOpen + attrs + ">" + (body + ScriptClose);
  }

  /**
   * Every match of the script pattern is a script element: `NoScript`
   * deletes nothing else.
   */
  lemma {:induction false} ScriptMatchIsElement(t: string)
    ensures MatchAt(Script, t).Some? ==>
              var n := MatchAt(Script, t).value;
              exists attrs, body :: ScriptParts(attrs, body) &&
                t[..n] == ScriptOpen + attrs + ">" + body + ScriptClose
  {
    var m := MatchAt(Script, t);
    if m.Some? {
      var o := |ScriptOpen|;
      var g := IndexOf(t, '>', o).value;
      ElementOfMatch(t, g, m.value);
      assert ScriptParts(t[o..g], t[g + 1..m.value - |ScriptClose|]);
    }
  }

  /**
   * A script element is removed whole: "<script", attributes that start
   * with a non-word character and hold no '>', the '>', a body without a
   * newline in which no "</script>" starts, and the closing "</script>".
   */
  lemma NoScriptElement(a: string, attrs: string, body: string, b: string)
    requires '<' !in a
    requires ScriptParts(attrs, body)
    ensures NoScript(a + ScriptOpen + attrs + ">" + body + ScriptClose + b) == a + NoScript(b)
  {
    var t := ScriptOpen + attrs + ">" + body + ScriptClose + b;
    assert a + ScriptOpen + attrs + ">" + body + ScriptClose + b == a + t;
    NoScriptElementAt(a, t, attrs, body, b);
  }

  /** The same, with the element and its tail given as one string `t`. */
  lemma NoScriptElementAt(a: string, t: string, attrs: string, body: string, b: string)
    requires '<' !in a
    requires ScriptParts(attrs, body)
    requires t == ScriptOpen + attrs + ">" + body + ScriptClose + b
    ensures NoScript(a + t) == a + NoScript(b)
  {
    RemoveMatchesPlainPrefix(Script, a, t);
    ScriptMatchOfElement(attrs, body, b);
    assert t[|t| - |b|..] == b;
  }

  /** `words[0] + sep + words[1] + ... + sep + words[n - 1]`: `String.Join`. */
  function Join(words: seq<string>, sep: string): string
    requires |words| >= 1
  {
    if |words| == 1 then words[0] else words[0] + sep + Join(words[1..], sep)
  }

  /** The injected script of the repository's test, and its body. */
  const TextInject: string := "<script>alert('test!');</script> "
  const InjectBody: string := "alert('test!');"

  lemma InjectIsScriptElement(b: string)
    ensures TextInject + b == ScriptOpen + "" + ">" + InjectBody + ScriptClose + (" " + b)
    ensures ScriptParts("", InjectBody)
  {
    InjectBodyParts();
  }

  lemma InjectBodyParts()
    ensures ScriptParts("", InjectBody)
  {
    var u := InjectBody + ScriptClose;
    forall k | 0 <= k < |InjectBody|
      ensures !StartsWithAt(u, k, ScriptClose)
    {
      assert u[k] == InjectBody[k] != ScriptClose[0];
      NotStartsWithAt(u, k, ScriptClose, 0);
    }
  }

  /** One word followed by the injected script: the script goes, a space stays. */
  lemma {:induction false} NoScriptInjectStep(w: string, rest: string)
    requires '<' !in w
    ensures NoScript(w + (TextInject + rest)) == w + (" " + NoScript(rest))
  {
    InjectIsScriptElement(rest);
    NoScriptElementAt(w, TextInject + rest, "", InjectBody, " " + rest);
    RemoveMatchesPlainPrefix(Script, " ", rest);
  }

  /**
   * Interleaving the injected script between words and removing scripts
   * gives back the words joined by single spaces.
   */
  lemma {:induction false} NoScriptOfInjected(words: seq<string>)
    requires |words| >= 1
    requires forall k :: 0 <= k < |words| ==> '<' !in words[k]
    ensures NoScript(Join(words, TextInject)) == Join(words, " ")
    decreases |words|
  {
    if |words| == 1 {
      RemoveMatchesPlain(Script, words[0]);
    } else {
      var tail := words[1..];
      assert forall k :: 0 <= k < |tail| ==> tail[k] == words[k + 1];
      NoScriptOfInjected(tail);
      var rest := Join(tail, TextInject);
      assert Join(words, TextInject) == words[0] + (TextInject + rest);
      assert '<' !in words[0];
      NoScriptInjectStep(words[0], rest);
      assert Join(words, " ") == words[0] + (" " + Join(tail, " "));
    }
  }

  /** A paragraph wrapped around tag-free text comes back as that text. */
  lemma NoTagsParagraph(t: string)
    requires '<' !in t
    ensures NoTags("<p>" + t + "</p>") == t
  {
    assert "<p>" + t + "</p>" == "<" + "p" + ">" + (t + "</p>");
    NoTagsTagAtStart("p", t + "</p>");
    RemoveMatchesPlainPrefix(Tag, t, "</p>");
    assert "</p>" == "<" + "/p" + ">" + "";
    NoTagsTagAtStart("/p", "");
    assert t + "" == t;
  }

  /** A tag at the very start goes, through the first '>'. */
  lemma NoTagsTagAtStart(m: string, b: string)
    requires '>' !in m
    ensures NoTags("<" + m + ">" + b) == NoTags(b)
  {
    var t := "<" + m + ">" + b;
    assert forall j :: 1 <= j < |m| + 1 ==> t[j] == m[j - 1];
    IndexOfFirst(t, '>', 1, |m| + 1);
    assert t[|m| + 2..] == b;
  }

  lemma ScriptPartsOfLetter(c: char)
    requires c != '<' && c != '\n'
    ensures ScriptParts("", [c])
  {
    forall k | 0 <= k < 1
      ensures !StartsWithAt([c] + ScriptClose, k, ScriptClose)
    {
      assert ([c] + ScriptClose)[0] == c;
    }
  }

  lemma NoScriptOfElementAlone(c: char, b: string)
    requires c != '<' && c != '\n'
    ensures NoScript("<script>" + [c] + "</script>" + b) == NoScript(b)
  {
    ScriptPartsOfLetter(c);
    NoScriptElement("", "", [c], b);
    assert "" + ScriptOpen + "" + ">" + [c] + ScriptClose + b == "<script>" + [c] + "</script>" + b;
    assert "" + NoScript(b) == NoScript(b);
  }

  /** Text without '<' before a closing "</script>" holds no "<script". */
  lemma NoScriptOfTrailer(a: string)
    requires '<' !in a
    ensures NoScript(a + ScriptClose) == a + ScriptClose
  {
    var u := a + ScriptClose;
    var o := |ScriptOpen|;
    forall i | 0 <= i < |u|
      ensures !StartsWithAt(u, i, ScriptOpen)
    {
      if i + o <= |u| {
        if i < |a| {
          assert u[i] == a[i];
          assert u[i..i + o][0] == u[i];
        } else if i == |a| {
          assert u[i..i + o][1] == u[i + 1] == '/';
        } else {
          assert u[i..i + o][0] == u[i] == ScriptClose[i - |a|];
        }
      }
    }
    NoScriptWithoutOpen(u);
  }

  /** `<scr` in front of a `'<'` cannot start a script element. */
  lemma NoScriptScrPrefix(t: string)
    requires |t| > 0 && t[0] == '<'
    ensures NoScript("<scr" + t) == "<scr" + NoScript(t)
  {
    NoScriptHeadThenPlain('<', "scr", t);
    assert "<scr" + t == ['<'] + ("scr" + t);
    assert "<scr" + NoScript(t) == ['<'] + ("scr" + NoScript(t));
  }

  /**
   * A first character that opens no "<script", followed by text without
   * '<', passes through.
   */
  lemma NoScriptHeadThenPlain(c: char, a: string, t: string)
    requires '<' !in a
    requires |a| + 1 < |ScriptOpen| && (|t| > 0 ==> t[0] != ScriptOpen[|a| + 1])
    ensures NoScript([c] + (a + t)) == [c] + (a + NoScript(t))
  {
    var s := [c] + (a + t);
    if |t| > 0 {
      assert s[|a| + 1] == t[0];
    }
    NotStartsWithAt(s, 0, ScriptOpen, |a| + 1);
    NoScriptKeepsHead(s);
    assert s[1..] == a + t;
    RemoveMatchesPlainPrefix(Script, a, t);
  }

  /** A string differing from `p` at offset `i` does not start with `p` there. */
  lemma NotStartsWithAt(s: string, k: nat, p: string, i: nat)
    requires i < |p| && (k + i < |s| ==> s[k + i] != p[i])
    ensures !StartsWithAt(s, k, p)
  {
    if k + |p| <= |s| {
      assert s[k..k + |p|][i] == s[k + i];
    }
  }

  /** Where no "<script" starts, the first character is kept. */
  lemma NoScriptKeepsHead(s: string)
    requires s != [] && !StartsWithAt(s, 0, ScriptOpen)
    ensures NoScript(s) == [s[0]] + NoScript(s[1..])
  {
    assert MatchAt(Script, s).None?;
  }

  lemma NoScriptSplicedOnce(x: char, y: char)
    requires x != '<' && x != '\n' && y != '<'
    ensures NoScript("<scr" + "<script>" + [x] + "</script>" + "ipt>" + [y] + "</script>")
         == "<script>" + [y] + "</script>"
  {
    var head := "ipt>" + [y];
    var trailer := head + ScriptClose;
    var element := "<script>" + [x] + "</script>";
    var t := element + trailer;
    assert "<scr" + "<script>" + [x] + "</script>" + "ipt>" + [y] + "</script>" == "<scr" + t by {
      ConcatAssoc("<scr", element, trailer);
      assert "<scr" + element + "ipt>" + [y] + "</script>" == "<scr" + element + trailer;
    }
    assert t[0] == '<';
    NoScriptScrPrefix(t);
    NoScriptOfElementAlone(x, trailer);
    assert '<' !in head;
    NoScriptOfTrailer(head);
    assert "<scr" + trailer == "<script>" + [y] + "</script>";
  }

  /** Matching is case-sensitive: an upper-case script element is kept. */
  lemma NoScriptCaseSensitive(t: string)
    requires '<' !in t
    ensures NoScript("<SCRIPT>" + t + "</SCRIPT>") == "<SCRIPT>" + t + "</SCRIPT>"
  {
    var u := "<SCRIPT>" + t + "</SCRIPT>";
    forall i | 0 <= i < |u|
      ensures !StartsWithAt(u, i, ScriptOpen)
    {
      if i + |ScriptOpen| <= |u| {
        if i == 0 {
          assert u[i..i + |ScriptOpen|][1] == 'S';
        } else if i < 8 + |t| {
          assert u[i] != '<' by {
            if 8 <= i { assert u[i] == t[i - 8]; }
          }
          assert u[i..i + |ScriptOpen|][0] == u[i];
        } else if i == 8 + |t| {
          assert u[i..i + |ScriptOpen|][1] == '/';
        } else {
          assert u[i..i + |ScriptOpen|][0] == u[i];
        }
      }
    }
    NoScriptWithoutOpen(u);
  }

  /**
   * One pass can leave a script element behind: deleting an inner element
   * joins the text around it into a new one, so `NoScript` is not
   * idempotent.
   */
  lemma NoScriptCanLeaveScript(x: char, y: char)
    requires x != '<' && x != '\n' && y != '<' && y != '\n'
    ensures var s := "<scr" + "<script>" + [x] + "</script>" + "ipt>" + [y] + "</script>";
            NoScript(s) == "<script>" + [y] + "</script>" && NoScript(NoScript(s)) == ""
  {
    NoScriptSplicedOnce(x, y);
    NoScriptOfElementAlone(y, "");
    assert "<script>" + [y] + "</script>" + "" == "<script>" + [y] + "</script>";
  }

  // ---------------------------------------------------------------------
  // The repository's test of the three helpers
  // ---------------------------------------------------------------------

  const NormalText: string := "Любой текст без хлама"
  const NormalWords: seq<string> := ["Любой", "текст", "без", "хлама"]

  /** The test's `normalText.Split(' ')`: the four words, as the model's `Split` finds them. */
  lemma NormalTextSplit()
    ensures StringExtensions.Split(NormalText) == NormalWords
  {
    var ws := NormalWords;
    assert ws[1..][1..][1..] == [ws[3]];
    assert StringExtensions.Interleave(ws[1..][1..], " ") == ws[2] + " " + ws[3];
    assert StringExtensions.Interleave(ws[1..], "  ") == ws[1] + " " + (ws[2] + " " + ws[3]);
    assert StringExtensions.Interleave(ws, "   ") == ws[0] + " " + (ws[1] + " " + (ws[2] + " " + ws[3]));
    assert ws[0] + " " + (ws[1] + " " + (ws[2] + " " + ws[3])) == NormalText;
    forall k | 0 <= k < |ws|
      ensures StringExtensions.SeparatorFree(ws[k])
    {
    }
    StringExtensions.SplitOfInterleave(ws, "   ");
  }

  /** The test's assertions about the three helpers, on its own constants. */
  lemma HelperAssertions()
    ensures Join(NormalWords, " ") == NormalText
    ensures NoScript(Join(NormalWords, TextInject)) == NormalText
    ensures ForLength(Join(NormalWords, TextInject), 9).Success?
    ensures |ForLength(Join(NormalWords, TextInject), 9).value| == 9
    ensures NoTags("<p>" + NormalText + "</p>") == NormalText
  {
    assert Join(NormalWords, " ") == NormalText;
    forall k | 0 <= k < |NormalWords|
      ensures '<' !in NormalWords[k]
    {
    }
    NoScriptOfInjected(NormalWords);
    assert |Join(NormalWords, TextInject)| >= |NormalWords[0]| + |TextInject|;
    assert '<' !in NormalText;
    NoTagsParagraph(NormalText);
  }

  /**
   * The whole test: the words are the text split at its spaces, the
   * injected text loses its scripts, truncation to 9 gives 9 characters,
   * and the paragraph tags come off.
   */
  lemma HtmlExtensionTest()
    ensures StringExtensions.Split(NormalText) == NormalWords
    ensures Join(NormalWords, " ") == NormalText
    ensures NoScript(Join(NormalWords, TextInject)) == NormalText
    ensures ForLength(Join(NormalWords, TextInject), 9).Success?
    ensures |ForLength(Join(NormalWords, TextInject), 9).value| == 9
    ensures NoTags("<p>" + NormalText + "</p>") == NormalText
  {
    NormalTextSplit();
    HelperAssertions();
  }
}
