/**
 * The normalised lookup keys shared by the fetcher (artist and album of a
 * Discogs release) and the reconciler (artist, album and name of a local
 * track).  Each implementation normalises both sides with the same function,
 * which is what makes the two key spaces meet.
 */
module Keys {
  import opened Text

  /**
   * Which implementation is modelled: the `discogs2music` package, the
   * legacy Python script `discogs2itunes.py` or the legacy Ruby script
   * `discogs2itunes.rb`.
   */
  datatype Variant = Current | LegacyPy | LegacyRb

  /** One contributor name with its `(digits)` disambiguator removed. */
  function CleanName(v: Variant, name: string): (r: string)
    ensures |r| <= |name|
    ensures v != LegacyRb && |r| > 0 ==> !IsSpace(r[0]) && !IsSpace(r[|r| - 1])
    ensures (forall i :: 0 <= i < |name| ==> name[i] != '(') ==> r == if v == LegacyRb then name else Strip(name)
  {
    match v
    case Current => Strip(RemoveGroups(name, false))
    case LegacyPy => Strip(RemoveGroups(name, false))
    case LegacyRb => RemoveGroups(name, true)
  }

  function CleanNames(v: Variant, names: seq<string>): (r: seq<string>)
    ensures |r| == |names|
    ensures forall i :: 0 <= i < |names| ==> r[i] == CleanName(v, names[i])
  {
    seq(|names|, i requires 0 <= i < |names| => CleanName(v, names[i]))
  }

  /** Title-cased: a letter is a capital exactly when it starts a run of letters. */
  ghost predicate IsTitled(s: string) {
    forall i :: 0 <= i < |s| ==> (IsUpper(s[i]) <==> IsLetter(s[i]) && (i == 0 || !IsLetter(s[i - 1])))
  }

  /**
   * The key of a raw name or title (a release title, a track's artist,
   * album or name): `str.title()` in the current package,
   * `parameterize(s.lower())` in the Python script and
   * `s.downcase.strip.parameterize` in the Ruby script.
   */
  function Normalize(v: Variant, s: string): (r: string)
    ensures v == Current ==> IsTitled(r) && Lower(r) == Lower(s)
    ensures v != Current ==> r == Lower(Join("-", WordRuns(Lower(s))))
    ensures v != Current ==> IsSlug(r) && WordChars(r) == Lower(WordChars(s))
  {
    match v
    case Current =>
      var r := TitleCase(s);
      assert Lower(r) == Lower(s);
      r
    case LegacyPy =>
      WordCharsLower(s);
      LowerTwice(WordChars(s));
      Parameterize(Lower(s))
    case LegacyRb =>
      WordCharsStrip(Lower(s));
      WordRunsStrip(Lower(s));
      WordCharsLower(s);
      LowerTwice(WordChars(s));
      Parameterize(Strip(Lower(s)))
  }

  /** Key of a release's contributors: cleaned names joined with `" - "`, then normalised. */
  function ArtistKey(v: Variant, names: seq<string>): (r: string)
    ensures v == Current ==> IsTitled(r)
    ensures v != Current ==> IsSlug(r)
  {
    Normalize(v, Join(" - ", CleanNames(v, names)))
  }

  /**
   * A further credited artist extends the joined names by `" - "` and its
   * own cleaned name before the whole is normalised.
   */
  lemma ArtistKeyAppend(v: Variant, names: seq<string>, name: string)
    requires |names| > 0
    ensures ArtistKey(v, names + [name]) ==
      Normalize(v, Join(" - ", CleanNames(v, names)) + " - " + CleanName(v, name))
  {
    assert CleanNames(v, names + [name]) == CleanNames(v, names) + [CleanName(v, name)];
    JoinSnoc(" - ", CleanNames(v, names), CleanName(v, name));
  }

  /**
   * A Discogs disambiguator closing a name (`"Nirvana (2)"`): the package and
   * the Python script drop it together with the blank before it; the Ruby
   * script drops the group and keeps the blank.
   */
  lemma CleanNameDropsDisambiguator(v: Variant, x: string, d: string)
    requires forall i :: 0 <= i < |x| ==> x[i] != '('
    requires |d| > 0 && forall i :: 0 <= i < |d| ==> IsDigit(d[i])
    ensures v != LegacyRb ==> CleanName(v, x + " (" + d + ")") == CleanName(v, x) == Strip(x)
    ensures v == LegacyRb ==> CleanName(v, x + " (" + d + ")") == x + " " && CleanName(v, x) == x
  {
    var xs := x + " ";
    assert forall i :: 0 <= i < |xs| ==> xs[i] != '(';
    assert x + " (" + d + ")" == xs + "(" + d + ")" + [];
    RemoveGroupsSplice(xs, d, [], v == LegacyRb);
    assert RemoveGroups(x + " (" + d + ")", v == LegacyRb) == xs;
    StripAppendSpace(x, ' ');
  }

  /** A name closed by a disambiguator files under the artist key of the bare name. */
  lemma DisambiguatedArtistKey(v: Variant, x: string, d: string)
    requires forall i :: 0 <= i < |x| ==> x[i] != '('
    requires |d| > 0 && forall i :: 0 <= i < |d| ==> IsDigit(d[i])
    ensures ArtistKey(v, [x + " (" + d + ")"]) == ArtistKey(v, [x])
  {
    var named := x + " (" + d + ")";
    CleanNameDropsDisambiguator(v, x, d);
    assert CleanNames(v, [named]) == [CleanName(v, named)];
    assert CleanNames(v, [x]) == [CleanName(v, x)];
    if v == LegacyRb {
      assert Lower(x + " ") == Lower(x) + " ";
      StripAppendSpace(Lower(x), ' ');
    }
  }

  lemma TitleCharIgnoresCase(c1: char, c2: char, afterLetter: bool)
    requires ToLower(c1) == ToLower(c2)
    ensures TitleChar(c1, afterLetter) == TitleChar(c2, afterLetter)
  {
  }

  /**
   * In the current package two raw strings get the same key exactly when
   * they are equal up to ASCII case.
   */
  lemma {:induction false} TitleKeysMatchIgnoringCase(s1: string, s2: string)
    ensures Normalize(Current, s1) == Normalize(Current, s2) <==> Lower(s1) == Lower(s2)
  {
    var r1, r2 := TitleCase(s1), TitleCase(s2);
    if r1 == r2 {
      assert |s1| == |s2|;
      forall i | 0 <= i < |s1| ensures Lower(s1)[i] == Lower(s2)[i] {
        assert ToLower(r1[i]) == ToLower(s1[i]);
        assert ToLower(r2[i]) == ToLower(s2[i]);
      }
    }
    if Lower(s1) == Lower(s2) {
      assert |s1| == |s2|;
      forall i | 0 <= i < |s1| ensures r1[i] == r2[i] {
        assert Lower(s1)[i] == Lower(s2)[i];
        var after1 := if i == 0 then false else IsLetter(s1[i - 1]);
        var after2 := if i == 0 then false else IsLetter(s2[i - 1]);
        if i > 0 {
          assert Lower(s1)[i - 1] == Lower(s2)[i - 1];
          assert IsLetter(ToLower(s1[i - 1])) == IsLetter(ToLower(s2[i - 1]));
        }
        assert after1 == after2;
        TitleCharIgnoresCase(s1[i], s2[i], after1);
      }
    }
  }

  /** In the legacy scripts strings equal up to ASCII case always share a key. */
  lemma LegacyKeysIgnoreCase(v: Variant, s1: string, s2: string)
    requires v != Current
    requires Lower(s1) == Lower(s2)
    ensures Normalize(v, s1) == Normalize(v, s2)
  {
  }

  /**
   * A release credited to a single artist whose name carries no `(digits)`
   * group (and, outside the Ruby script, no surrounding blanks) gets the
   * key a track with that artist name gets.
   */
  lemma SingleArtistKeyMatchesTrack(v: Variant, name: string)
    requires forall i :: 0 <= i < |name| ==> name[i] != '('
    requires v != LegacyRb ==> Strip(name) == name
    ensures ArtistKey(v, [name]) == Normalize(v, name)
  {
    assert CleanName(v, name) == name;
    assert CleanNames(v, [name]) == [name];
    assert Join(" - ", [name]) == name;
  }
}
