/**
 * ASCII approximations of the string operations the key builders rely on:
 * Python's `str.strip`, `str.lower` and `str.title`, Ruby's `strip` and
 * `downcase`, the `(digits)` disambiguator removal done with a regular
 * expression, and the `parameterize` slug functions of Python's `inflection`
 * package and Ruby's ActiveSupport.  Non-ASCII characters are never letters
 * or digits here: no transliteration, no Unicode case mapping.
 */
module Text {
  import opened Wrappers

  predicate IsSpace(c: char) {
    c == ' ' || c == '\t' || c == '\n' || c == '\r' || c == '\U{B}' || c == '\U{C}'
  }

  predicate IsUpper(c: char) { 'A' <= c <= 'Z' }

  predicate IsLower(c: char) { 'a' <= c <= 'z' }

  predicate IsLetter(c: char) { IsUpper(c) || IsLower(c) }

  predicate IsDigit(c: char) { '0' <= c <= '9' }

  function ToLower(c: char): (r: char)
    ensures !IsUpper(r)
    ensures IsLetter(r) == IsLetter(c)
    ensures IsUpper(c) || r == c
  {
    if IsUpper(c) then (c as int + 32) as char else c
  }

  function ToUpper(c: char): (r: char)
    ensures !IsLower(r)
    ensures IsLetter(r) == IsLetter(c)
    ensures ToLower(r) == ToLower(c)
  {
    if IsLower(c) then (c as int - 32) as char else c
  }

  ghost predicate AllSpace(s: string) {
    forall i :: 0 <= i < |s| ==> IsSpace(s[i])
  }

  /** `s` with every ASCII capital lowered. */
  function Lower(s: string): (r: string)
    ensures |r| == |s|
    ensures forall i :: 0 <= i < |s| ==> r[i] == ToLower(s[i])
  {
    seq(|s|, i requires 0 <= i < |s| => ToLower(s[i]))
  }

  /** Number of whitespace characters at the start of `s`. */
  function LeadingSpace(s: string): (n: nat)
    ensures n <= |s|
    ensures forall k :: 0 <= k < n ==> IsSpace(s[k])
    ensures n < |s| ==> !IsSpace(s[n])
  {
    if |s| > 0 && IsSpace(s[0]) then 1 + LeadingSpace(s[1..]) else 0
  }

  /** Number of whitespace characters at the end of `s`. */
  function TrailingSpace(s: string): (n: nat)
    ensures n <= |s|
    ensures forall k :: |s| - n <= k < |s| ==> IsSpace(s[k])
    ensures n < |s| ==> !IsSpace(s[|s| - n - 1])
  {
    if |s| > 0 && IsSpace(s[|s| - 1]) then 1 + TrailingSpace(s[..|s| - 1]) else 0
  }

  /**
   * Python's `str.strip()` / Ruby's `String#strip` on ASCII whitespace: the
   * whole run of whitespace at each end is cut, and what is left neither
   * starts nor ends with whitespace.
   */
  function Strip(s: string): (r: string)
    ensures LeadingSpace(s) == |s| ==> r == []
    ensures LeadingSpace(s) < |s| ==> LeadingSpace(s) < |s| - TrailingSpace(s) && r == s[LeadingSpace(s)..|s| - TrailingSpace(s)]
    ensures |r| > 0 ==> !IsSpace(r[0]) && !IsSpace(r[|r| - 1])
  {
    var i := LeadingSpace(s);
    var j := |s| - TrailingSpace(s);
    if i < |s| then
      assert !IsSpace(s[i]);
      s[i..j]
    else []
  }

  /** The case `str.title()` gives the character `c`, given whether the character before it was a letter. */
  function TitleChar(c: char, afterLetter: bool): (r: char)
    ensures ToLower(r) == ToLower(c)
    ensures IsUpper(r) <==> IsLetter(c) && !afterLetter
    ensures !IsLetter(c) ==> r == c
  {
    if afterLetter then
      var l := ToLower(c);
      assert ToLower(l) == l;
      l
    else ToUpper(c)
  }

  function TitleFrom(s: string, afterLetter: bool): (r: string)
    ensures |r| == |s|
    ensures forall i :: 0 <= i < |s| ==>
      r[i] == TitleChar(s[i], if i == 0 then afterLetter else IsLetter(s[i - 1]))
  {
    if |s| == 0 then []
    else [TitleChar(s[0], afterLetter)] + TitleFrom(s[1..], IsLetter(s[0]))
  }

  /**
   * Python's `str.title()`: a letter is upper-cased when it starts a run of
   * letters and lower-cased otherwise; every other character is kept.
   */
  function TitleCase(s: string): (r: string)
    ensures |r| == |s|
    ensures forall i :: 0 <= i < |s| ==> ToLower(r[i]) == ToLower(s[i])
    ensures forall i :: 0 <= i < |s| ==>
      (IsUpper(r[i]) <==> IsLetter(s[i]) && (i == 0 || !IsLetter(s[i - 1])))
    ensures forall i :: 0 <= i < |s| ==> !IsLetter(s[i]) ==> r[i] == s[i]
  {
    var r := TitleFrom(s, false);
    forall i | 0 <= i < |s|
      ensures ToLower(r[i]) == ToLower(s[i])
      ensures IsUpper(r[i]) <==> IsLetter(s[i]) && (i == 0 || !IsLetter(s[i - 1]))
      ensures !IsLetter(s[i]) ==> r[i] == s[i]
    {
      assert r[i] == TitleChar(s[i], if i == 0 then false else IsLetter(s[i - 1]));
    }
    r
  }

  /** Characters a slug keeps: `[a-zA-Z0-9_-]`. */
  predicate IsSlugChar(c: char) {
    IsLetter(c) || IsDigit(c) || c == '-' || c == '_'
  }

  ghost predicate AllSlug(s: string) {
    forall i :: 0 <= i < |s| ==> IsSlugChar(s[i])
  }

  ghost predicate NoDoubleDash(s: string) {
    forall i :: 1 <= i < |s| ==> !(s[i - 1] == '-' && s[i] == '-')
  }

  /** A slug: slug characters only, no capitals, no `--`, no dash at either end. */
  ghost predicate IsSlug(s: string) {
    && AllSlug(s)
    && (forall i :: 0 <= i < |s| ==> !IsUpper(s[i]))
    && NoDoubleDash(s)
    && (|s| > 0 ==> s[0] != '-' && s[|s| - 1] != '-')
  }

  /** The characters a slug keeps apart from its dashes: letters, digits and `_`. */
  predicate IsWordChar(c: char) {
    IsLetter(c) || IsDigit(c) || c == '_'
  }

  /** The word characters of `s`, in order: what a slug retains of its input. */
  function WordChars(s: string): string {
    if |s| == 0 then [] else (if IsWordChar(s[0]) then [s[0]] else []) + WordChars(s[1..])
  }

  lemma {:induction false} WordCharsConcat(a: string, b: string)
    ensures WordChars(a + b) == WordChars(a) + WordChars(b)
    decreases |a|
  {
    if |a| == 0 {
      assert a + b == b;
    } else {
      var head := if IsWordChar(a[0]) then [a[0]] else [];
      assert (a + b)[1..] == a[1..] + b;
      assert WordChars(a + b) == head + WordChars(a[1..] + b);
      WordCharsConcat(a[1..], b);
      assert head + (WordChars(a[1..]) + WordChars(b)) == (head + WordChars(a[1..])) + WordChars(b);
    }
  }

  lemma {:induction false} WordCharsOfSpace(s: string)
    requires AllSpace(s)
    ensures WordChars(s) == []
    decreases |s|
  {
    if |s| > 0 {
      WordCharsOfSpace(s[1..]);
    }
  }

  /** Lowering commutes with taking the word characters. */
  lemma {:induction false} WordCharsLower(s: string)
    ensures WordChars(Lower(s)) == Lower(WordChars(s))
    decreases |s|
  {
    if |s| > 0 {
      assert Lower(s)[1..] == Lower(s[1..]);
      WordCharsLower(s[1..]);
      var head := if IsWordChar(s[0]) then [s[0]] else [];
      assert WordChars(s) == head + WordChars(s[1..]);
      assert Lower(head + WordChars(s[1..])) == Lower(head) + Lower(WordChars(s[1..]));
    }
  }

  lemma LowerTwice(s: string)
    ensures Lower(Lower(s)) == Lower(s)
  {
    assert forall i | 0 <= i < |s| :: Lower(Lower(s))[i] == Lower(s)[i];
  }

  /** Stripping whitespace keeps every word character. */
  lemma WordCharsStrip(s: string)
    ensures WordChars(Strip(s)) == WordChars(s)
  {
    var i, j := LeadingSpace(s), |s| - TrailingSpace(s);
    if i == |s| {
      WordCharsOfSpace(s);
    } else {
      var front, middle, back := s[..i], s[i..j], s[j..];
      assert s == front + middle + back;
      WordCharsConcat(front + middle, back);
      WordCharsConcat(front, middle);
      WordCharsOfSpace(front);
      WordCharsOfSpace(back);
    }
  }

  /** Every character outside `[a-zA-Z0-9_-]` becomes a dash. */
  function Dashify(s: string): (r: string)
    ensures |r| == |s|
    ensures AllSlug(r)
    ensures forall i :: 0 <= i < |s| ==> IsSlugChar(s[i]) ==> r[i] == s[i]
  {
    seq(|s|, i requires 0 <= i < |s| => if IsSlugChar(s[i]) then s[i] else '-')
  }

  lemma {:induction false} WordCharsDashify(s: string)
    ensures WordChars(Dashify(s)) == WordChars(s)
    decreases |s|
  {
    if |s| > 0 {
      assert Dashify(s)[1..] == Dashify(s[1..]);
      WordCharsDashify(s[1..]);
    }
  }

  /** Every run of dashes becomes one dash. */
  function Squeeze(s: string): (r: string)
    ensures NoDoubleDash(r)
    ensures |s| > 0 ==> |r| > 0 && r[0] == s[0]
    ensures AllSlug(s) ==> AllSlug(r)
  {
    if |s| == 0 then []
    else if s[0] == '-' && |s| > 1 && s[1] == '-' then Squeeze(s[1..])
    else [s[0]] + Squeeze(s[1..])
  }

  lemma {:induction false} WordCharsSqueeze(s: string)
    ensures WordChars(Squeeze(s)) == WordChars(s)
    decreases |s|
  {
    if |s| > 0 {
      WordCharsSqueeze(s[1..]);
      if !(s[0] == '-' && |s| > 1 && s[1] == '-') {
        assert ([s[0]] + Squeeze(s[1..]))[1..] == Squeeze(s[1..]);
      }
    }
  }

  /** One leading and one trailing dash removed (the `^-|-$` substitution). */
  function DropDashEnds(s: string): (r: string)
    requires NoDoubleDash(s)
    ensures NoDoubleDash(r)
    ensures |r| > 0 ==> r[0] != '-' && r[|r| - 1] != '-'
    ensures AllSlug(s) ==> AllSlug(r)
  {
    var t := if |s| > 0 && s[0] == '-' then s[1..] else s;
    if |t| > 0 && t[|t| - 1] == '-' then t[..|t| - 1] else t
  }

  lemma WordCharsDropDashEnds(s: string)
    requires NoDoubleDash(s)
    ensures WordChars(DropDashEnds(s)) == WordChars(s)
  {
    var t := if |s| > 0 && s[0] == '-' then s[1..] else s;
    assert WordChars(t) == WordChars(s);
    if |t| > 0 && t[|t| - 1] == '-' {
      var front := t[..|t| - 1];
      assert t == front + ['-'];
      WordCharsConcat(front, ['-']);
      assert WordChars(['-']) == [];
      assert DropDashEnds(s) == front;
    } else {
      assert DropDashEnds(s) == t;
    }
  }

  /** Length of the run of word characters at the start of `s`. */
  function WordRun(s: string): (n: nat)
    ensures n <= |s|
    ensures forall k :: 0 <= k < n ==> IsWordChar(s[k])
    ensures n < |s| ==> !IsWordChar(s[n])
  {
    if |s| > 0 && IsWordChar(s[0]) then 1 + WordRun(s[1..]) else 0
  }

  /** Length of the run of dashes at the start of `s`. */
  function DashRun(s: string): (n: nat)
    ensures n <= |s|
    ensures forall k :: 0 <= k < n ==> s[k] == '-'
    ensures n < |s| ==> s[n] != '-'
  {
    if |s| > 0 && s[0] == '-' then 1 + DashRun(s[1..]) else 0
  }

  /**
   * The maximal runs of word characters of `s`, in order: the words a slug
   * is made of.
   */
  function WordRuns(s: string): (r: seq<string>)
    decreases |s|
  {
    if |s| == 0 then []
    else if !IsWordChar(s[0]) then WordRuns(s[1..])
    else
      var n := WordRun(s);
      [s[..n]] + WordRuns(s[n..])
  }

  /** Every run is non-empty and made of word characters. */
  ghost predicate AreWords(runs: seq<string>) {
    forall i :: 0 <= i < |runs| ==> |runs[i]| > 0 && forall k :: 0 <= k < |runs[i]| ==> IsWordChar(runs[i][k])
  }

  /** Only word characters and dashes: what `Dashify` leaves. */
  ghost predicate DashedWords(s: string) {
    forall k :: 0 <= k < |s| ==> IsWordChar(s[k]) || s[k] == '-'
  }

  lemma WordRunIs(s: string, n: nat)
    requires n <= |s|
    requires forall k :: 0 <= k < n ==> IsWordChar(s[k])
    requires n < |s| ==> !IsWordChar(s[n])
    ensures WordRun(s) == n
  {
  }

  lemma {:induction false} WordRunsAreWords(s: string)
    ensures AreWords(WordRuns(s))
    decreases |s|
  {
    if |s| > 0 {
      if !IsWordChar(s[0]) {
        WordRunsAreWords(s[1..]);
      } else {
        var n := WordRun(s);
        WordRunsAreWords(s[n..]);
      }
    }
  }

  /** Characters outside every word can be skipped at the front. */
  lemma {:induction false} WordRunsSkip(s: string, m: nat)
    requires m <= |s|
    requires forall k :: 0 <= k < m ==> !IsWordChar(s[k])
    ensures WordRuns(s) == WordRuns(s[m..])
    decreases m
  {
    if m > 0 {
      WordRunsSkip(s[1..], m - 1);
      assert s[1..][m - 1..] == s[m..];
    }
  }

  /** ... and at the back. */
  lemma {:induction false} WordRunsTrailing(y: string, z: string)
    requires forall k :: 0 <= k < |z| ==> !IsWordChar(z[k])
    ensures WordRuns(y + z) == WordRuns(y)
    decreases |y|
  {
    if |y| == 0 {
      assert y + z == z;
      WordRunsSkip(z, |z|);
    } else if !IsWordChar(y[0]) {
      assert (y + z)[1..] == y[1..] + z;
      WordRunsTrailing(y[1..], z);
    } else {
      var n := WordRun(y);
      WordRunIs(y + z, n);
      assert (y + z)[..n] == y[..n];
      assert (y + z)[n..] == y[n..] + z;
      WordRunsTrailing(y[n..], z);
    }
  }

  /** A string without words has no word characters. */
  lemma {:induction false} NoRunsNoWordChars(s: string)
    requires WordRuns(s) == []
    ensures forall k :: 0 <= k < |s| ==> !IsWordChar(s[k])
    decreases |s|
  {
    if |s| > 0 {
      assert !IsWordChar(s[0]);
      NoRunsNoWordChars(s[1..]);
      assert forall k :: 1 <= k < |s| ==> s[k] == s[1..][k - 1];
    }
  }

  lemma {:induction false} WordRunsDashify(s: string)
    ensures WordRuns(Dashify(s)) == WordRuns(s)
    decreases |s|
  {
    var t := Dashify(s);
    if |s| > 0 {
      if !IsWordChar(s[0]) {
        assert !IsWordChar(t[0]);
        assert t[1..] == Dashify(s[1..]);
        WordRunsDashify(s[1..]);
      } else {
        var n := WordRun(s);
        WordRunIs(t, n);
        assert t[..n] == s[..n];
        assert t[n..] == Dashify(s[n..]);
        WordRunsDashify(s[n..]);
      }
    }
  }

  /** Squeezing passes a word through untouched. */
  lemma {:induction false} SqueezeWord(w: string, v: string)
    requires forall k :: 0 <= k < |w| ==> w[k] != '-'
    ensures Squeeze(w + v) == w + Squeeze(v)
    decreases |w|
  {
    if |w| == 0 {
      assert w + v == v;
    } else {
      assert (w + v)[1..] == w[1..] + v;
      SqueezeWord(w[1..], v);
      assert [w[0]] + (w[1..] + Squeeze(v)) == w + Squeeze(v);
    }
  }

  /** A leading run of `m` dashes becomes one dash. */
  lemma {:induction false} SqueezeDashes(t: string, m: nat)
    requires 0 < m <= |t|
    requires forall k :: 0 <= k < m ==> t[k] == '-'
    requires m < |t| ==> t[m] != '-'
    ensures Squeeze(t) == "-" + Squeeze(t[m..])
    decreases m
  {
    if m > 1 {
      SqueezeDashes(t[1..], m - 1);
      assert t[1..][m - 1..] == t[m..];
    }
  }

  /** The dash `Squeeze` leaves at the front of text of words and dashes. */
  function LeadDash(t: string): string {
    if |t| > 0 && t[0] == '-' then "-" else ""
  }

  /** The dash `Squeeze` leaves at the back: only when some word comes before it. */
  function TrailDash(t: string): string {
    if |t| > 0 && t[|t| - 1] == '-' && WordRuns(t) != [] then "-" else ""
  }

  /**
   * On text of words and dashes, squeezing leaves the words joined by single
   * dashes, plus one dash at the front when the text starts with one and one
   * at the back when it ends with one after some word.
   */
  lemma {:induction false} SqueezeDashedWords(t: string)
    requires DashedWords(t)
    ensures Squeeze(t) == LeadDash(t) + Join("-", WordRuns(t)) + TrailDash(t)
    decreases |t|, 1
  {
    if |t| > 0 {
      if t[0] == '-' {
        SqueezeFromDash(t);
      } else {
        SqueezeFromWord(t);
      }
    }
  }

  lemma {:induction false} SqueezeFromDash(t: string)
    requires DashedWords(t) && |t| > 0 && t[0] == '-'
    ensures Squeeze(t) == LeadDash(t) + Join("-", WordRuns(t)) + TrailDash(t)
    decreases |t|, 0
  {
    var m := DashRun(t);
    SqueezeDashes(t, m);
    WordRunsSkip(t, m);
    if m < |t| {
      var rest := t[m..];
      SqueezeDashedWords(rest);
      assert rest[|rest| - 1] == t[|t| - 1];
      DashesThenWord(t, rest);
    }
  }

  lemma DashesThenWord(t: string, rest: string)
    requires |t| > 0 && t[0] == '-' && |rest| > 0 && rest[0] != '-' && rest[|rest| - 1] == t[|t| - 1]
    requires WordRuns(t) == WordRuns(rest)
    requires Squeeze(t) == "-" + Squeeze(rest)
    requires Squeeze(rest) == LeadDash(rest) + Join("-", WordRuns(rest)) + TrailDash(rest)
    ensures Squeeze(t) == LeadDash(t) + Join("-", WordRuns(t)) + TrailDash(t)
  {
    assert LeadDash(rest) == "" && LeadDash(t) == "-";
    assert TrailDash(rest) == TrailDash(t);
    Prepend("-", Join("-", WordRuns(rest)), TrailDash(t));
  }

  lemma {:induction false} SqueezeFromWord(t: string)
    requires DashedWords(t) && |t| > 0 && t[0] != '-'
    ensures Squeeze(t) == LeadDash(t) + Join("-", WordRuns(t)) + TrailDash(t)
    decreases |t|, 0
  {
    var n := WordRun(t);
    var w, rest := t[..n], t[n..];
    assert t == w + rest;
    SqueezeWord(w, rest);
    assert WordRuns(t) == [w] + WordRuns(rest);
    if n == |t| {
      assert rest == [];
      assert TrailDash(t) == "";
    } else {
      SqueezeDashedWords(rest);
      assert LeadDash(rest) == "-";
      assert rest[|rest| - 1] == t[|t| - 1];
      if WordRuns(rest) == [] {
        NoRunsNoWordChars(rest);
        WordThenDashes(t, w, rest);
      } else {
        WordThenWords(t, w, rest);
      }
    }
  }

  lemma WordThenDashes(t: string, w: string, rest: string)
    requires t == w + rest && |rest| > 0 && rest[|rest| - 1] == t[|t| - 1]
    requires forall k :: 0 <= k < |rest| ==> !IsWordChar(rest[k])
    requires DashedWords(t) && LeadDash(t) == ""
    requires WordRuns(t) == [w] + WordRuns(rest) && WordRuns(rest) == []
    requires Squeeze(t) == w + Squeeze(rest) && Squeeze(rest) == "-" + "" + ""
    ensures Squeeze(t) == LeadDash(t) + Join("-", WordRuns(t)) + TrailDash(t)
  {
    assert t[|t| - 1] == '-';
    assert TrailDash(t) == "-";
    assert Join("-", WordRuns(t)) == w;
  }

  lemma WordThenWords(t: string, w: string, rest: string)
    requires |t| > 0 && |rest| > 0 && rest[|rest| - 1] == t[|t| - 1]
    requires LeadDash(t) == "" && LeadDash(rest) == "-"
    requires WordRuns(t) == [w] + WordRuns(rest) && WordRuns(rest) != []
    requires Squeeze(t) == w + Squeeze(rest)
    requires Squeeze(rest) == LeadDash(rest) + Join("-", WordRuns(rest)) + TrailDash(rest)
    ensures Squeeze(t) == LeadDash(t) + Join("-", WordRuns(t)) + TrailDash(t)
  {
    var runs, tail := WordRuns(t), Join("-", WordRuns(rest));
    assert TrailDash(rest) == TrailDash(t);
    assert Join("-", runs) == w + "-" + tail by {
      assert runs[1..] == WordRuns(rest);
    }
    Regroup(w, tail, TrailDash(t));
  }

  lemma Prepend(a: string, j: string, e: string)
    ensures a + ("" + j + e) == a + j + e
  {
  }

  lemma Regroup(w: string, j: string, e: string)
    ensures w + ("-" + j + e) == "" + (w + "-" + j) + e
  {
  }

  /** `DropDashEnds` takes off exactly a squeezed lead and trail dash. */
  lemma DropDashAround(lead: string, j: string, trail: string)
    requires lead == "" || lead == "-"
    requires trail == "" || (trail == "-" && |j| > 0)
    requires |j| > 0 ==> j[0] != '-' && j[|j| - 1] != '-'
    requires NoDoubleDash(lead + j + trail)
    ensures DropDashEnds(lead + j + trail) == j
  {
    var s := lead + j + trail;
    var t := if |s| > 0 && s[0] == '-' then s[1..] else s;
    assert t == j + trail;
  }

  /** Words joined by a dash neither start nor end with a dash. */
  lemma {:induction false} JoinWordsEnds(runs: seq<string>)
    requires AreWords(runs)
    ensures var j := Join("-", runs);
      (|j| == 0 <==> |runs| == 0) && (|j| > 0 ==> j[0] != '-' && j[|j| - 1] != '-')
    decreases |runs|
  {
    if |runs| > 1 {
      JoinWordsEnds(runs[1..]);
      var tail := Join("-", runs[1..]);
      assert Join("-", runs) == runs[0] + "-" + tail;
      assert IsWordChar(runs[0][0]);
    } else if |runs| == 1 {
      assert IsWordChar(runs[0][0]);
    }
  }

  /** `parameterize` lays out the words of its input, lower-cased and joined by single dashes. */
  lemma ParameterizeJoinsWords(s: string)
    ensures Lower(DropDashEnds(Squeeze(Dashify(s)))) == Lower(Join("-", WordRuns(s)))
  {
    var t := Dashify(s);
    WordRunsDashify(s);
    SqueezeDashedWords(t);
    var j := Join("-", WordRuns(s));
    WordRunsAreWords(s);
    JoinWordsEnds(WordRuns(s));
    if |j| == 0 {
      assert TrailDash(t) == "";
    }
    DropDashAround(LeadDash(t), j, TrailDash(t));
  }

  /**
   * `parameterize` with the default `-` separator, on ASCII text: runs of
   * characters outside `[a-zA-Z0-9_-]` become one dash, runs of dashes are
   * squeezed, dashes at the ends are dropped and the result is lower-cased.
   * What comes out is the input's words, lower-cased and joined by single
   * dashes.
   */
  function Parameterize(s: string): (r: string)
    ensures r == Lower(Join("-", WordRuns(s)))
    ensures IsSlug(r)
    ensures WordChars(r) == Lower(WordChars(s))
  {
    var dashed := Dashify(s);
    var squeezed := Squeeze(dashed);
    var trimmed := DropDashEnds(squeezed);
    ParameterizeJoinsWords(s);
    WordCharsDashify(s);
    WordCharsSqueeze(dashed);
    WordCharsDropDashEnds(squeezed);
    WordCharsLower(trimmed);
    Lower(trimmed)
  }

  /** Stripping whitespace keeps every word. */
  lemma WordRunsStrip(s: string)
    ensures WordRuns(Strip(s)) == WordRuns(s)
  {
    var i, j := LeadingSpace(s), |s| - TrailingSpace(s);
    if i == |s| {
      WordRunsSkip(s, |s|);
    } else {
      WordRunsMiddle(s, i, j);
    }
  }

  lemma WordRunsMiddle(s: string, i: nat, j: nat)
    requires i <= j <= |s|
    requires forall k :: 0 <= k < i ==> !IsWordChar(s[k])
    requires forall k :: j <= k < |s| ==> !IsWordChar(s[k])
    ensures WordRuns(s) == WordRuns(s[i..j])
  {
    var front := s[..j];
    assert s == front + s[j..];
    WordRunsTrailing(front, s[j..]);
    WordRunsSkip(front, i);
    assert front[i..] == s[i..j];
  }

  /** Length of the run of ASCII digits starting at `i`. */
  function DigitRun(s: string, i: nat): (n: nat)
    requires i <= |s|
    ensures i + n <= |s|
    ensures forall k :: i <= k < i + n ==> IsDigit(s[k])
    ensures i + n == |s| || !IsDigit(s[i + n])
    decreases |s| - i
  {
    if i < |s| && IsDigit(s[i]) then 1 + DigitRun(s, i + 1) else 0
  }

  /** The end of a `\(\d+\)` match that starts at position `i`, if any. */
  function GroupAt(s: string, i: nat): (r: Option<nat>)
    requires i <= |s|
    ensures r.Some? ==> i + 3 <= r.value <= |s| && s[i] == '(' && s[r.value - 1] == ')'
    ensures r.Some? ==> forall k :: i < k < r.value - 1 ==> IsDigit(s[k])
  {
    if i < |s| && s[i] == '(' then
      var n := DigitRun(s, i + 1);
      if n > 0 && i + 1 + n < |s| && s[i + 1 + n] == ')' then Some(i + 2 + n) else None
    else None
  }

  /** Where a `$` anchor matches in Ruby: the end of the string or just before a newline. */
  predicate AtLineEnd(s: string, j: nat)
    requires j <= |s|
  {
    j == |s| || s[j] == '\n'
  }

  /**
   * Removes the `(digits)` groups of `s`, scanning left to right as a global
   * regular-expression substitution does.  With `lineEndOnly` a group is
   * removed only when it ends a line (`/\(\d+\)$/` in Ruby); otherwise every
   * group is removed (`\(\d+\)` in Python).
   */
  function RemoveGroups(s: string, lineEndOnly: bool): (r: string)
    ensures |r| <= |s|
    ensures (forall i :: 0 <= i < |s| ==> s[i] != '(') ==> r == s
    decreases |s|
  {
    if |s| == 0 then []
    else
      var g := GroupAt(s, 0);
      if g.Some? && (!lineEndOnly || AtLineEnd(s, g.value)) then
        RemoveGroups(s[g.value..], lineEndOnly)
      else
        [s[0]] + RemoveGroups(s[1..], lineEndOnly)
  }

  /** Python's `sep.join(parts)` / Ruby's `parts.join(sep)`. */
  function Join(sep: string, parts: seq<string>): (r: string)
    ensures |parts| == 1 ==> r == parts[0]
    ensures |parts| == 0 ==> r == ""
  {
    if |parts| == 0 then ""
    else if |parts| == 1 then parts[0]
    else parts[0] + sep + Join(sep, parts[1..])
  }

  /** The element `p` appended to a non-empty list adds one separator and `p` at the end. */
  lemma {:induction false} JoinSnoc(sep: string, parts: seq<string>, p: string)
    requires |parts| > 0
    ensures Join(sep, parts + [p]) == Join(sep, parts) + sep + p
    decreases |parts|
  {
    if |parts| == 1 {
      assert parts + [p] == [parts[0], p];
      assert [parts[0], p][1..] == [p];
    } else {
      assert (parts + [p])[1..] == parts[1..] + [p];
      JoinSnoc(sep, parts[1..], p);
      assert parts[0] + sep + (Join(sep, parts[1..]) + sep + p) == (parts[0] + sep + Join(sep, parts[1..])) + sep + p;
    }
  }

  /** Text without a `(` passes through the group removal unchanged, whatever follows it. */
  lemma {:induction false} RemoveGroupsPlain(x: string, y: string, lineEndOnly: bool)
    requires forall i :: 0 <= i < |x| ==> x[i] != '('
    ensures RemoveGroups(x + y, lineEndOnly) == x + RemoveGroups(y, lineEndOnly)
    decreases |x|
  {
    if |x| == 0 {
      assert x + y == y;
    } else {
      var s := x + y;
      assert GroupAt(s, 0).None?;
      assert s[1..] == x[1..] + y;
      RemoveGroupsPlain(x[1..], y, lineEndOnly);
      assert [x[0]] + (x[1..] + RemoveGroups(y, lineEndOnly)) == x + RemoveGroups(y, lineEndOnly);
    }
  }

  /**
   * A `(digits)` group at the start of the text: removed when every group
   * is; with `lineEndOnly`, removed only when the text ends or a newline
   * follows it, and otherwise kept with its digits.
   */
  lemma RemoveGroupsGroup(d: string, y: string, lineEndOnly: bool)
    requires |d| > 0 && forall i :: 0 <= i < |d| ==> IsDigit(d[i])
    ensures RemoveGroups("(" + d + ")" + y, lineEndOnly) ==
      if !lineEndOnly || |y| == 0 || y[0] == '\n' then RemoveGroups(y, lineEndOnly)
      else "(" + d + ")" + RemoveGroups(y, lineEndOnly)
  {
    if lineEndOnly && |y| > 0 && y[0] != '\n' {
      GroupKept(d, y);
    } else {
      GroupDropped(d, y, lineEndOnly);
    }
  }

  lemma GroupDropped(d: string, y: string, lineEndOnly: bool)
    requires |d| > 0 && forall i :: 0 <= i < |d| ==> IsDigit(d[i])
    requires lineEndOnly ==> |y| == 0 || y[0] == '\n'
    ensures RemoveGroups("(" + d + ")" + y, lineEndOnly) == RemoveGroups(y, lineEndOnly)
  {
    var s := "(" + d + ")" + y;
    GroupAtStart(d, y);
    assert s[|d| + 2..] == y;
    if |y| > 0 {
      assert s[|d| + 2] == y[0];
    }
    assert !lineEndOnly || AtLineEnd(s, |d| + 2);
    RemoveGroupsUnfold(s, lineEndOnly);
  }

  lemma GroupKept(d: string, y: string)
    requires |d| > 0 && forall i :: 0 <= i < |d| ==> IsDigit(d[i])
    requires |y| > 0 && y[0] != '\n'
    ensures RemoveGroups("(" + d + ")" + y, true) == "(" + d + ")" + RemoveGroups(y, true)
  {
    var rest := (d + ")") + y;
    var s := "(" + rest;
    assert s == "(" + d + ")" + y;
    GroupAtStart(d, y);
    assert !AtLineEnd(s, |d| + 2) by {
      assert s[|d| + 2] == y[0];
    }
    RemoveGroupsKeepsFirst(s, true);
    assert s[1..] == rest;
    var closed := d + ")";
    assert forall i :: 0 <= i < |closed| ==> closed[i] != '(' by {
      forall i | 0 <= i < |closed| ensures closed[i] != '(' {
        if i < |d| {
          assert closed[i] == d[i];
        }
      }
    }
    RemoveGroupsPlain(closed, y, true);
    assert [s[0]] == "(";
    ConcatAssoc("(", d, ")", RemoveGroups(y, true));
  }

  lemma ConcatAssoc(a: string, b: string, c: string, e: string)
    ensures a + ((b + c) + e) == a + b + c + e
  {
  }

  lemma RemoveGroupsKeepsFirst(s: string, lineEndOnly: bool)
    requires |s| > 0
    requires var g := GroupAt(s, 0); g.None? || (lineEndOnly && !AtLineEnd(s, g.value))
    ensures RemoveGroups(s, lineEndOnly) == [s[0]] + RemoveGroups(s[1..], lineEndOnly)
  {
  }

  lemma RemoveGroupsUnfold(s: string, lineEndOnly: bool)
    requires |s| > 0
    ensures var g := GroupAt(s, 0);
      RemoveGroups(s, lineEndOnly) ==
        if g.Some? && (!lineEndOnly || AtLineEnd(s, g.value)) then RemoveGroups(s[g.value..], lineEndOnly)
        else [s[0]] + RemoveGroups(s[1..], lineEndOnly)
  {
  }

  lemma GroupAtStart(d: string, y: string)
    requires |d| > 0 && forall i :: 0 <= i < |d| ==> IsDigit(d[i])
    ensures GroupAt("(" + d + ")" + y, 0) == Some(|d| + 2)
  {
    var s := "(" + d + ")" + y;
    var n := |d|;
    assert s[1 + n] == ')';
  }

  /**
   * A `(digits)` group after text without a `(`: that text stays, the group
   * goes (kept only in the line-end mode when neither the text's end nor a
   * newline follows it) and the rest is scanned on.
   */
  lemma RemoveGroupsSplice(x: string, d: string, y: string, lineEndOnly: bool)
    requires forall i :: 0 <= i < |x| ==> x[i] != '('
    requires |d| > 0 && forall i :: 0 <= i < |d| ==> IsDigit(d[i])
    ensures RemoveGroups(x + "(" + d + ")" + y, lineEndOnly) ==
      x + (if lineEndOnly && |y| > 0 && y[0] != '\n' then "(" + d + ")" else "") + RemoveGroups(y, lineEndOnly)
  {
    var g := "(" + d + ")" + y;
    assert x + "(" + d + ")" + y == x + g;
    RemoveGroupsPlain(x, g, lineEndOnly);
    RemoveGroupsGroup(d, y, lineEndOnly);
  }

  lemma {:induction false} LeadingSpaceAppend(x: string, c: char)
    ensures LeadingSpace(x + [c]) == if LeadingSpace(x) < |x| || !IsSpace(c) then LeadingSpace(x) else |x| + 1
    decreases |x|
  {
    if |x| == 0 {
      assert x + [c] == [c];
      assert [c][1..] == [];
    } else {
      assert (x + [c])[0] == x[0];
      assert (x + [c])[1..] == x[1..] + [c];
      LeadingSpaceAppend(x[1..], c);
    }
  }

  /** A whitespace character appended to `s` does not change what `strip` returns. */
  lemma StripAppendSpace(s: string, c: char)
    requires IsSpace(c)
    ensures Strip(s + [c]) == Strip(s)
  {
    LeadingSpaceAppend(s, c);
    TrailingSpaceAppend(s, c);
    var i, j := LeadingSpace(s), |s| - TrailingSpace(s);
    if i < |s| {
      SliceOfAppend(s, c, i, j);
    }
  }

  lemma TrailingSpaceAppend(t: string, c: char)
    requires IsSpace(c)
    ensures TrailingSpace(t + [c]) == 1 + TrailingSpace(t)
  {
    assert (t + [c])[..|t|] == t;
  }

  lemma SliceOfAppend(s: string, c: char, i: nat, j: nat)
    requires i <= j <= |s|
    ensures (s + [c])[i..j] == s[i..j]
  {
  }
}
